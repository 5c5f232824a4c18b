/** The index arithmetic of the lightbox's navigation (script.js): which data-index
    each of showNext, showPrev and the nextAll/prevAll handlers hands to
    openLightbox, given the visible sequence and the current index. The choice is
    None when the value handed over is `undefined`. */
module Navigation {

  datatype Option<T> = None | Some(value: T)

  /** No value occurs twice in `s`. */
  predicate Distinct(s: seq<int>)
  {
    forall i, j :: 0 <= i < j < |s| ==> s[i] != s[j]
  }

  /** `s.indexOf(x)`: the first position holding `x`, or -1 when there is none. */
  function IndexOf(s: seq<int>, x: int): (i: int)
    ensures -1 <= i < |s|
    ensures 0 <= i ==> s[i] == x && forall j :: 0 <= j < i ==> s[j] != x
    ensures i == -1 <==> x !in s
  {
    if |s| == 0 then -1
    else if s[0] == x then 0
    else
      var i := IndexOf(s[1..], x);
      if i == -1 then -1 else i + 1
  }

  /** In a sequence without repeats, indexOf finds the one position of an element. */
  lemma IndexOfDistinct(s: seq<int>, p: int)
    requires Distinct(s) && 0 <= p < |s|
    ensures IndexOf(s, s[p]) == p
  {
    assert s[p] in s;
  }

  /** The Euclidean remainder is determined by any division a == q * m + r with
      0 <= r < m. */
  lemma ModUnique(a: int, m: int, q: int, r: int)
    requires 0 <= r < m && a == q * m + r
    ensures a % m == r && a / m == q
  {
    var q', r' := a / m, a % m;
    assert a == q' * m + r';
    assert (q - q') * m == r' - r && (q' - q) * m == r - r';
    if q' < q {
      MulAtLeast(q - q', m);
    } else if q < q' {
      MulAtLeast(q' - q, m);
    }
  }

  /** d * m >= m for d >= 1 and m > 0. */
  lemma {:induction false} MulAtLeast(d: int, m: int)
    requires d >= 1 && m > 0
    ensures d * m >= m
  {
    if d > 1 {
      MulAtLeast(d - 1, m);
      assert d * m == (d - 1) * m + m;
    }
  }

  /** JavaScript's `a % m` for a positive divisor: the remainder of a division that
      truncates toward zero, so it takes the sign of `a`. It is written as repeated
      subtraction of the divisor from the magnitude. (A zero divisor yields NaN,
      which the callers treat on their own.) */
  function JsRem(a: int, m: int): (r: int)
    requires m > 0
    ensures 0 <= a ==> 0 <= r < m && r <= a
    ensures a < 0 ==> -m < r <= 0
    decreases if a < 0 then 1 - a else a
  {
    if a < 0 then -JsRem(-a, m)
    else if a < m then a
    else JsRem(a - m, m)
  }

  /** On a non-negative dividend JsRem is Dafny's Euclidean remainder. */
  lemma {:induction false} JsRemMatchesMod(a: int, m: int)
    requires m > 0 && a >= 0
    ensures JsRem(a, m) == a % m
  {
    if a < m {
      ModUnique(a, m, 0, a);
    } else {
      JsRemMatchesMod(a - m, m);
      var q, r := (a - m) / m, (a - m) % m;
      assert a - m == q * m + r;
      assert (q + 1) * m == q * m + m;
      ModUnique(a, m, q + 1, r);
    }
  }

  /** JsRem is the Euclidean remainder of the dividend's magnitude, carrying the
      dividend's sign. */
  lemma JsRemIsRemainder(a: int, m: int)
    requires m > 0
    ensures 0 <= a ==> JsRem(a, m) == a % m
    ensures a < 0 ==> JsRem(a, m) == -((-a) % m)
  {
    if a < 0 {
      JsRemMatchesMod(-a, m);
    } else {
      JsRemMatchesMod(a, m);
    }
  }

  /** JavaScript's `s[r]` for a number r: the element, or undefined (None) when r
      is not a position of s. */
  function At(s: seq<int>, r: int): Option<int>
  {
    if 0 <= r < |s| then Some(s[r]) else None
  }

  /** The position, among n, after position i (i = -1 stands for "absent"): the
      next one, the first after the last, and the first for an absent one. */
  function NextPosition(i: int, n: int): (r: int)
    requires -1 <= i < n && 0 < n
    ensures 0 <= r < n
  {
    if i == n - 1 then 0 else i + 1
  }

  /** The position, among n, before position i (i = -1 stands for "absent"): the
      previous one, the last before the first, and the second-to-last (the only
      one when n is 1) for an absent one. */
  function PrevPosition(i: int, n: int): (r: int)
    requires -1 <= i < n && 0 < n
    ensures 0 <= r < n
  {
    if i == -1 then (if n == 1 then 0 else n - 2)
    else if i == 0 then n - 1
    else i - 1
  }

  /** The value showNext hands to openLightbox: visible[(i + 1) % visible.length]
      with i = visible.indexOf(current), that is the element after the current one,
      the first after the last, and the first when the current value is absent.
      With no visible card the divisor is 0, the remainder NaN and the value
      undefined. */
  function NextTarget(v: seq<int>, cur: int): (t: Option<int>)
    ensures t.None? <==> v == []
    ensures v != [] ==> t == Some(v[NextPosition(IndexOf(v, cur), |v|)])
  {
    if |v| == 0 then None
    else
      RemainderSteps(IndexOf(v, cur), |v|);
      At(v, JsRem(IndexOf(v, cur) + 1, |v|))
  }

  /** The value showPrev hands to openLightbox: visible[(i - 1 + visible.length) %
      visible.length], that is the element before the current one, the last before
      the first, and the second-to-last (the only one of a single element) when the
      current value is absent. The one negative dividend that can occur is -1 % 1:
      JavaScript gives -0 there, which still reads element 0. */
  function PrevTarget(v: seq<int>, cur: int): (t: Option<int>)
    ensures t.None? <==> v == []
    ensures v != [] ==> t == Some(v[PrevPosition(IndexOf(v, cur), |v|)])
  {
    if |v| == 0 then None
    else
      RemainderSteps(IndexOf(v, cur), |v|);
      At(v, JsRem(IndexOf(v, cur) - 1 + |v|, |v|))
  }

  /** JavaScript's (i + 1) % n and (i - 1 + n) % n, for a position i among n or
      -1, are the cyclic steps forward and back. */
  lemma RemainderSteps(i: int, n: int)
    requires -1 <= i < n && 0 < n
    ensures JsRem(i + 1, n) == NextPosition(i, n)
    ensures JsRem(i - 1 + n, n) == PrevPosition(i, n)
  {
    assert i + 1 == n ==> JsRem(i + 1 - n, n) == 0;
    assert i - 1 + n >= n ==> JsRem(i - 1, n) == i - 1;
    assert i - 1 + n < 0 ==> JsRem(1, 1) == JsRem(0, 1);
  }

  /** On a non-empty sequence, truncated and Euclidean remainders pick the same
      element in showNext and showPrev, so both are visible[(i +- 1) mod length]. */
  lemma TargetsAreModular(v: seq<int>, cur: int)
    requires v != []
    ensures NextTarget(v, cur) == Some(v[(IndexOf(v, cur) + 1) % |v|])
    ensures PrevTarget(v, cur) == Some(v[(IndexOf(v, cur) - 1 + |v|) % |v|])
  {
    var i, n := IndexOf(v, cur), |v|;
    RemainderSteps(i, n);
    JsRemIsRemainder(i + 1, n);
    if i - 1 + n < 0 {
      ModUnique(-1, 1, -1, 0);
    } else {
      JsRemIsRemainder(i - 1 + n, n);
    }
  }

  /** The value the nextAll handler hands to openLightbox; None when it returns
      early on an empty visible sequence. */
  function NextAllTarget(v: seq<int>, cur: int): Option<int>
  {
    if |v| == 0 then None
    else
      var idx := IndexOf(v, cur);
      Some(if idx == -1 || idx == |v| - 1 then v[0] else v[idx + 1])
  }

  /** The value the prevAll handler hands to openLightbox; None when it returns
      early on an empty visible sequence. */
  function PrevAllTarget(v: seq<int>, cur: int): Option<int>
  {
    if |v| == 0 then None
    else
      var idx := IndexOf(v, cur);
      Some(if idx <= 0 then v[|v| - 1] else v[idx - 1])
  }

  /** From the element at position p (its first occurrence), showNext goes to the
      next position, wrapping from the last to the first, and showPrev to the
      previous one, wrapping from the first to the last. */
  lemma FromPosition(v: seq<int>, p: int)
    requires 0 <= p < |v|
    requires forall j :: 0 <= j < p ==> v[j] != v[p]
    ensures NextTarget(v, v[p]) == Some(if p == |v| - 1 then v[0] else v[p + 1])
    ensures PrevTarget(v, v[p]) == Some(if p == 0 then v[|v| - 1] else v[p - 1])
  {
    assert v[p] in v;
  }

  /** A current value that is not in the sequence makes showNext go to the first
      element and showPrev to element (length - 2) mod length. */
  lemma FromAbsent(v: seq<int>, cur: int)
    requires v != [] && cur !in v
    ensures NextTarget(v, cur) == Some(v[0])
    ensures PrevTarget(v, cur) == Some(v[(|v| - 2) % |v|])
  {
    TargetsAreModular(v, cur);
  }

  /** In a sequence without repeats, a step forward and a step back, in either
      order, return to the element started from. */
  lemma NextPrevInverse(v: seq<int>, p: int)
    requires Distinct(v) && 0 <= p < |v|
    ensures NextTarget(v, v[p]).Some? && PrevTarget(v, NextTarget(v, v[p]).value) == Some(v[p])
    ensures PrevTarget(v, v[p]).Some? && NextTarget(v, PrevTarget(v, v[p]).value) == Some(v[p])
  {
    FromPosition(v, p);
    FromPosition(v, if p == |v| - 1 then 0 else p + 1);
    FromPosition(v, if p == 0 then |v| - 1 else p - 1);
  }

  /** The nextAll handler's explicit branches choose what showNext's modulo
      arithmetic chooses, for every sequence and every current value. */
  lemma NextAllIsNext(v: seq<int>, cur: int)
    ensures NextAllTarget(v, cur) == NextTarget(v, cur)
  {
  }

  /** The prevAll handler agrees with showPrev when the current value is in the
      sequence; when it is absent, prevAll goes to the last element while showPrev
      goes to the second-to-last, so the two differ on any sequence of two or more
      distinct elements. */
  lemma PrevAllVersusPrev(v: seq<int>, cur: int)
    ensures cur in v ==> PrevAllTarget(v, cur) == PrevTarget(v, cur)
    ensures v != [] && cur !in v ==> PrevAllTarget(v, cur) == Some(v[|v| - 1])
    ensures Distinct(v) && |v| >= 2 && cur !in v ==> PrevAllTarget(v, cur) != PrevTarget(v, cur)
  {
  }

  /** The position reached from position p by n steps forward among len. */
  function Walk(p: int, n: nat, len: int): (r: int)
    requires 0 <= p < len
    ensures 0 <= r < len
  {
    if n == 0 then p else NextPosition(Walk(p, n - 1, len), len)
  }

  /** Up to len steps forward from p reach p + n, wrapped once past the end; so
      len steps come back to p. */
  lemma {:induction false} WalkWraps(p: int, n: nat, len: int)
    requires 0 <= p < len && n <= len
    ensures Walk(p, n, len) == if p + n < len then p + n else p + n - len
  {
    if n > 0 {
      WalkWraps(p, n - 1, len);
    }
  }
}
