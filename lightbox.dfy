/** The lightbox of script.js as a state machine over the card list: the current
    index, the open flag and the four display fields, with the operations that
    open, close and move it, and the keyboard dispatch over them. */
module Lightbox {
  import opened Cards
  import opened Navigation

  /** What the lightbox shows: its image's src and alt, the title text and the
      caption text. */
  datatype Display = Display(src: string, alt: string, title: string, caption: string)

  /** The display before any card was opened (the markup's initial content is not
      part of this model). */
  const BLANK: Display := Display("", "", "", "")

  /** JavaScript's `a || b` on two strings: `a` unless it is the empty string. */
  function Or(a: string, b: string): string
  {
    if a != "" then a else b
  }

  /** The display fields openLightbox fills in from a card: the image's src, the alt
      chain img.alt || data-title || "", the title and the caption. */
  function DisplayOf(c: Card): (d: Display)
    ensures d.src == c.src && d.title == c.title && d.caption == c.caption
    ensures d.alt == (if c.imgAlt != "" then c.imgAlt else c.title)
  {
    Display(c.src, Or(Or(c.imgAlt, c.title), ""), Or(c.title, ""), Or(c.caption, ""))
  }

  /** currentIndex, whether the lightbox has the `open` class, and its display. */
  datatype State = State(current: int, open: bool, display: Display)

  /** currentIndex starts at 0 with the lightbox closed. */
  const INITIAL: State := State(0, false, BLANK)

  /** What every operation keeps: currentIndex is a card position (or 0 when there is
      no card), and an open lightbox shows the card at currentIndex. */
  predicate Consistent(cs: seq<Card>, s: State)
  {
    && 0 <= s.current
    && (|cs| > 0 ==> s.current < |cs|)
    && (|cs| == 0 ==> s.current == 0)
    && (s.open ==> s.current < |cs| && s.display == DisplayOf(cs[s.current]))
  }

  /** openLightbox(index): nothing happens unless `index` is a position of the card
      list; otherwise the card's fields are shown and it becomes current. */
  function Open(cs: seq<Card>, s: State, index: int): State
  {
    if 0 <= index < |cs| then State(index, true, DisplayOf(cs[index])) else s
  }

  /** openLightbox called with a value that may be undefined (None), which
      `cards[undefined]` turns into an immediate return. */
  function OpenAt(cs: seq<Card>, s: State, t: Option<int>): State
  {
    match t
    case None => s
    case Some(index) => Open(cs, s, index)
  }

  /** closeLightbox: only the open flag changes. */
  function Close(s: State): State
  {
    s.(open := false)
  }

  /** showNext. */
  function ShowNext(cs: seq<Card>, s: State): State
  {
    OpenAt(cs, s, NextTarget(VisibleIndexes(cs), s.current))
  }

  /** showPrev. */
  function ShowPrev(cs: seq<Card>, s: State): State
  {
    OpenAt(cs, s, PrevTarget(VisibleIndexes(cs), s.current))
  }

  /** The nextAll button's click handler. */
  function NextAll(cs: seq<Card>, s: State): State
  {
    OpenAt(cs, s, NextAllTarget(VisibleIndexes(cs), s.current))
  }

  /** The prevAll button's click handler. */
  function PrevAll(cs: seq<Card>, s: State): State
  {
    OpenAt(cs, s, PrevAllTarget(VisibleIndexes(cs), s.current))
  }

  const ARROW_RIGHT: string := "ArrowRight"
  const ARROW_LEFT: string := "ArrowLeft"
  const ESCAPE: string := "Escape"

  /** The document's keydown handler: while the lightbox is open, three independent
      tests of the key, in the source's order. */
  function OnKey(cs: seq<Card>, s: State, key: string): State
  {
    if !s.open then s
    else
      var s1 := if key == ARROW_RIGHT then ShowNext(cs, s) else s;
      var s2 := if key == ARROW_LEFT then ShowPrev(cs, s1) else s1;
      if key == ESCAPE then Close(s2) else s2
  }

  /** A click on the lightbox: it closes only when the overlay itself, not its inner
      content, was the target. */
  function OnOverlayClick(s: State, onOverlay: bool): State
  {
    if onOverlay then Close(s) else s
  }

  /** showNext applied n times. */
  function ShowNextTimes(cs: seq<Card>, s: State, n: nat): State
  {
    if n == 0 then s else ShowNext(cs, ShowNextTimes(cs, s, n - 1))
  }

  /** Opening card i shows exactly its src, title and caption, its image's alt or
      else its title, and makes it current; an index that is not a card position
      changes nothing. */
  lemma OpenShowsCard(cs: seq<Card>, s: State, i: int)
    ensures 0 <= i < |cs| ==>
      && Open(cs, s, i).current == i && Open(cs, s, i).open
      && Open(cs, s, i).display.src == cs[i].src
      && Open(cs, s, i).display.title == cs[i].title
      && Open(cs, s, i).display.caption == cs[i].caption
      && Open(cs, s, i).display.alt == (if cs[i].imgAlt != "" then cs[i].imgAlt else cs[i].title)
    ensures !(0 <= i < |cs|) ==> Open(cs, s, i) == s
  {
  }

  /** Closing keeps the current index and what is displayed. */
  lemma CloseKeepsCurrent(s: State)
    ensures !Close(s).open
    ensures Close(s).current == s.current && Close(s).display == s.display
  {
  }

  /** Every lightbox operation keeps the state consistent with the cards. */
  lemma OperationsKeepConsistent(cs: seq<Card>, s: State, i: int, onOverlay: bool)
    requires Consistent(cs, s)
    ensures Consistent(cs, Open(cs, s, i)) && Consistent(cs, Close(s))
    ensures Consistent(cs, ShowNext(cs, s)) && Consistent(cs, ShowPrev(cs, s))
    ensures Consistent(cs, NextAll(cs, s)) && Consistent(cs, PrevAll(cs, s))
    ensures Consistent(cs, OnOverlayClick(s, onOverlay))
  {
    var v := VisibleIndexes(cs);
    OpenAtKeepsConsistent(cs, s, NextTarget(v, s.current));
    OpenAtKeepsConsistent(cs, s, PrevTarget(v, s.current));
    OpenAtKeepsConsistent(cs, s, NextAllTarget(v, s.current));
    OpenAtKeepsConsistent(cs, s, PrevAllTarget(v, s.current));
  }

  lemma OpenAtKeepsConsistent(cs: seq<Card>, s: State, t: Option<int>)
    requires Consistent(cs, s)
    ensures Consistent(cs, OpenAt(cs, s, t))
  {
  }

  /** Filtering changes only hidden flags, which nothing displayed depends on, so it
      keeps the state consistent. */
  lemma FilterKeepsConsistent(cs: seq<Card>, s: State, f: string)
    requires Consistent(cs, s)
    ensures Consistent(FilterCards(cs, f), s)
  {
    var fs := FilterCards(cs, f);
    if s.open {
      assert fs[s.current].(hidden := cs[s.current].hidden) == cs[s.current];
    }
  }

  /** With no visible card, showNext, showPrev, nextAll and prevAll change nothing. */
  lemma NoVisibleCardIsNoop(cs: seq<Card>, s: State)
    requires VisibleIndexes(cs) == []
    ensures ShowNext(cs, s) == s && ShowPrev(cs, s) == s
    ensures NextAll(cs, s) == s && PrevAll(cs, s) == s
  {
  }

  /** With well-indexed cards the visible sequence has no repeats and holds only
      positions of cards that are not hidden. */
  lemma VisibleAreCards(cs: seq<Card>)
    requires WellIndexed(cs)
    ensures Distinct(VisibleIndexes(cs))
    ensures forall x :: x in VisibleIndexes(cs) ==> 0 <= x < |cs| && !cs[x].hidden
  {
    VisibleOfWellIndexed(cs);
  }

  /** With well-indexed cards and some card visible, showNext opens the visible card
      after the current one, wrapping from the last to the first, and the first one
      when the current card is not visible. */
  lemma ShowNextMoves(cs: seq<Card>, s: State)
    requires WellIndexed(cs) && VisibleIndexes(cs) != []
    ensures var v := VisibleIndexes(cs);
            var p := IndexOf(v, s.current);
            var t := v[NextPosition(p, |v|)];
            0 <= t < |cs| && !cs[t].hidden && ShowNext(cs, s) == State(t, true, DisplayOf(cs[t]))
  {
    var v := VisibleIndexes(cs);
    VisibleOfWellIndexed(cs);
    assert v[0] in v;
    var p := IndexOf(v, s.current);
    if 0 <= p < |v| - 1 {
      assert v[p + 1] in v;
    }
  }

  /** With well-indexed cards and some card visible, showPrev opens the visible card
      before the current one, wrapping from the first to the last; when the current
      card is not visible it opens the second-to-last visible card (the only one if
      a single card is visible). */
  lemma ShowPrevMoves(cs: seq<Card>, s: State)
    requires WellIndexed(cs) && VisibleIndexes(cs) != []
    ensures var v := VisibleIndexes(cs);
            var p := IndexOf(v, s.current);
            var t := v[PrevPosition(p, |v|)];
            0 <= t < |cs| && !cs[t].hidden && ShowPrev(cs, s) == State(t, true, DisplayOf(cs[t]))
  {
    var v := VisibleIndexes(cs);
    var p := IndexOf(v, s.current);
    var t := v[PrevPosition(p, |v|)];
    assert PrevTarget(v, s.current) == Some(t);
    assert t in v;
    VisibleAreCards(cs);
    assert 0 <= t < |cs|;
  }

  /** With a card visible, showNext opens the visible card at the position after
      the current one's (see NextPosition). */
  lemma ShowNextOpensAt(cs: seq<Card>, s: State, r: int)
    requires VisibleIndexes(cs) != []
    requires r == NextPosition(IndexOf(VisibleIndexes(cs), s.current), |VisibleIndexes(cs)|)
    ensures 0 <= r < |VisibleIndexes(cs)|
    ensures ShowNext(cs, s) == Open(cs, s, VisibleIndexes(cs)[r])
  {
  }

  /** With a card visible, showPrev opens the visible card at the position before
      the current one's (see PrevPosition). */
  lemma ShowPrevOpensAt(cs: seq<Card>, s: State, r: int)
    requires VisibleIndexes(cs) != []
    requires r == PrevPosition(IndexOf(VisibleIndexes(cs), s.current), |VisibleIndexes(cs)|)
    ensures 0 <= r < |VisibleIndexes(cs)|
    ensures ShowPrev(cs, s) == Open(cs, s, VisibleIndexes(cs)[r])
  {
  }

  /** The nextAll handler opens the visible card after the current one, or the
      first when the current one is the last or not visible. */
  lemma NextAllOpens(cs: seq<Card>, s: State, idx: int)
    requires VisibleIndexes(cs) != [] && idx == IndexOf(VisibleIndexes(cs), s.current)
    ensures var v := VisibleIndexes(cs);
      NextAll(cs, s) == Open(cs, s, if idx == -1 || idx == |v| - 1 then v[0] else v[idx + 1])
  {
  }

  /** The prevAll handler opens the visible card before the current one, or the
      last when the current one is the first or not visible. */
  lemma PrevAllOpens(cs: seq<Card>, s: State, idx: int)
    requires VisibleIndexes(cs) != [] && idx == IndexOf(VisibleIndexes(cs), s.current)
    ensures var v := VisibleIndexes(cs);
      PrevAll(cs, s) == Open(cs, s, if idx <= 0 then v[|v| - 1] else v[idx - 1])
  {
    var v := VisibleIndexes(cs);
    assert PrevAllTarget(v, s.current) == Some(if idx <= 0 then v[|v| - 1] else v[idx - 1]);
  }

  /** The nextAll button does what showNext does, on every card list and state. */
  lemma NextAllIsShowNext(cs: seq<Card>, s: State)
    ensures NextAll(cs, s) == ShowNext(cs, s)
  {
    NextAllIsNext(VisibleIndexes(cs), s.current);
  }

  /** The prevAll button does what showPrev does while currentIndex is one of the
      visible data-index values. With well-indexed cards and the current card hidden,
      prevAll opens the last visible card and showPrev the second-to-last, so with
      two or more visible cards the two disagree. */
  lemma PrevAllVersusShowPrev(cs: seq<Card>, s: State)
    ensures s.current in VisibleIndexes(cs) ==> PrevAll(cs, s) == ShowPrev(cs, s)
    ensures WellIndexed(cs) && VisibleIndexes(cs) != [] && s.current !in VisibleIndexes(cs) ==>
      PrevAll(cs, s).current == VisibleIndexes(cs)[|VisibleIndexes(cs)| - 1]
    ensures WellIndexed(cs) && |VisibleIndexes(cs)| >= 2 && s.current !in VisibleIndexes(cs) ==>
      PrevAll(cs, s).current != ShowPrev(cs, s).current
  {
    var v := VisibleIndexes(cs);
    PrevAllVersusPrev(v, s.current);
    if WellIndexed(cs) && v != [] && s.current !in v {
      ShowPrevMoves(cs, s);
      VisibleAreCards(cs);
      assert v[|v| - 1] in v;
    }
  }

  /** With well-indexed cards and the current card visible, showNext then showPrev,
      or showPrev then showNext, comes back to the current card; from an open,
      consistent lightbox it restores the whole state. */
  lemma NextPrevRestore(cs: seq<Card>, s: State)
    requires WellIndexed(cs) && s.current in VisibleIndexes(cs)
    ensures ShowPrev(cs, ShowNext(cs, s)) == Open(cs, s, s.current)
    ensures ShowNext(cs, ShowPrev(cs, s)) == Open(cs, s, s.current)
    ensures Consistent(cs, s) && s.open ==>
      ShowPrev(cs, ShowNext(cs, s)) == s && ShowNext(cs, ShowPrev(cs, s)) == s
  {
    var v := VisibleIndexes(cs);
    var p := IndexOf(v, s.current);
    VisibleAreCards(cs);
    NextPrevInverse(v, p);
    var n, b := NextTarget(v, v[p]).value, PrevTarget(v, v[p]).value;
    assert n in v && b in v;
    assert ShowNext(cs, s) == State(n, true, DisplayOf(cs[n]));
    assert ShowPrev(cs, s) == State(b, true, DisplayOf(cs[b]));
  }

  /** From the visible card at position p, n >= 1 calls of showNext open the
      visible card n steps further on, wrapping past the end. */
  lemma {:induction false} ShowNextTimesWalks(cs: seq<Card>, s: State, p: int, n: nat)
    requires WellIndexed(cs)
    requires 0 <= p < |VisibleIndexes(cs)| && VisibleIndexes(cs)[p] == s.current
    requires n >= 1
    ensures ShowNextTimes(cs, s, n) == Open(cs, s, VisibleIndexes(cs)[Walk(p, n, |VisibleIndexes(cs)|)])
  {
    var v := VisibleIndexes(cs);
    VisibleAreCards(cs);
    var prev := ShowNextTimes(cs, s, n - 1);
    var q := Walk(p, n - 1, |v|);
    if n - 1 > 0 {
      ShowNextTimesWalks(cs, s, p, n - 1);
      assert v[q] in v;
    }
    assert prev.current == v[q];
    IndexOfDistinct(v, q);
    var t := v[Walk(p, n, |v|)];
    assert NextTarget(v, prev.current) == Some(t);
    assert t in v;
  }

  /** With well-indexed cards, calling showNext once per visible card from a visible
      current card comes back to it. */
  lemma ShowNextCycle(cs: seq<Card>, s: State)
    requires WellIndexed(cs) && s.current in VisibleIndexes(cs)
    ensures ShowNextTimes(cs, s, |VisibleIndexes(cs)|) == Open(cs, s, s.current)
  {
    var v := VisibleIndexes(cs);
    var p := IndexOf(v, s.current);
    assert 0 <= p < |v| && v[p] == s.current;
    WalkWraps(p, |v|, |v|);
    ShowNextTimesWalks(cs, s, p, |v|);
  }

  /** The three keys the handler tests are different strings. */
  lemma KeysDiffer()
    ensures ARROW_RIGHT != ARROW_LEFT && ARROW_RIGHT != ESCAPE && ARROW_LEFT != ESCAPE
  {
    assert |ARROW_RIGHT| == 10 && |ARROW_LEFT| == 9 && |ESCAPE| == 6;
  }

  /** The keydown handler keeps the state consistent with the cards. */
  lemma OnKeyKeepsConsistent(cs: seq<Card>, s: State, key: string)
    requires Consistent(cs, s)
    ensures Consistent(cs, OnKey(cs, s, key))
  {
    KeyDispatch(cs, s, key);
    OperationsKeepConsistent(cs, s, 0, false);
  }

  /** The keydown handler changes nothing while the lightbox is closed; while it is
      open, ArrowRight is showNext, ArrowLeft is showPrev, Escape is closeLightbox and
      any other key changes nothing. */
  lemma KeyDispatch(cs: seq<Card>, s: State, key: string)
    ensures !s.open ==> OnKey(cs, s, key) == s
    ensures s.open && key == ARROW_RIGHT ==> OnKey(cs, s, key) == ShowNext(cs, s)
    ensures s.open && key == ARROW_LEFT ==> OnKey(cs, s, key) == ShowPrev(cs, s)
    ensures s.open && key == ESCAPE ==> OnKey(cs, s, key) == Close(s)
    ensures s.open && key !in {ARROW_RIGHT, ARROW_LEFT, ESCAPE} ==> OnKey(cs, s, key) == s
  {
    KeysDiffer();
  }

  /** Three cards "nature", "city", "nature" (the scenario below). */
  function NatureCityNature(title: string, caption: string, src: string, alt: string): seq<Card>
  {
    [Card("nature", title, caption, src, alt, 0, false),
     Card("city", title, caption, src, alt, 1, false),
     Card("nature", title, caption, src, alt, 2, false)]
  }

  /** Three cards "nature", "city", "nature" filtered on "nature" leave cards 0 and 2
      visible. */
  lemma NatureFilter(title: string, caption: string, src: string, alt: string)
    ensures var cs := FilterCards(NatureCityNature(title, caption, src, alt), "nature");
            WellIndexed(cs) && VisibleIndexes(cs) == [0, 2]
  {
    var cs0 := NatureCityNature(title, caption, src, alt);
    var cs := FilterCards(cs0, "nature");
    assert "city" != "nature" by { assert "city"[0] != "nature"[0]; }
    assert !cs[0].hidden && cs[1].hidden && !cs[2].hidden;
    assert WellIndexed(cs) by {
      forall k | 0 <= k < |cs| ensures cs[k].dataIndex == k {
        assert cs[k].(hidden := cs0[k].hidden) == cs0[k];
      }
    }
    assert VisiblePositions(cs[..1]) == [0];
    assert VisiblePositions(cs[..2]) == [0] by { assert cs[..2][..1] == cs[..1]; }
    assert VisiblePositions(cs) == [0, 2] by { assert cs[..2] == cs[..|cs| - 1]; }
    VisibleOfWellIndexed(cs);
  }

  /** On those cards, opening card 0 and calling showNext twice visits card 2, then
      card 0. */
  lemma NatureScenario(title: string, caption: string, src: string, alt: string)
    ensures var cs := FilterCards(NatureCityNature(title, caption, src, alt), "nature");
            && ShowNext(cs, Open(cs, INITIAL, 0)).current == 2
            && ShowNext(cs, ShowNext(cs, Open(cs, INITIAL, 0))).current == 0
  {
    var cs := FilterCards(NatureCityNature(title, caption, src, alt), "nature");
    NatureFilter(title, caption, src, alt);
    var v := VisibleIndexes(cs);
    assert IndexOf(v, 0) == 0;
    var s1 := Open(cs, INITIAL, 0);
    assert s1.current == 0;
    var s2 := ShowNext(cs, s1);
    assert s2 == Open(cs, s1, 2);
    assert IndexOf(v, 2) == 1;
    assert ShowNext(cs, s2) == Open(cs, s2, 0);
  }
}
