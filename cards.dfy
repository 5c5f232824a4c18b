/** The cards of the gallery grid, the category filter that hides them, and the
    ordered sequence of data-index values of the cards left visible (script.js). */
module Cards {

  /** One grid tile. Every field but `hidden` comes from the card's markup and is
      never written; a title, caption or alt the markup leaves out reads as "", and
      every card is taken to carry a data-category. `hidden` is
      the `hidden` class that the filter adds and removes. */
  datatype Card = Card(
    category: string,  // data-category
    title: string,     // data-title
    caption: string,   // data-caption
    src: string,       // src of the card's image
    imgAlt: string,    // alt of the card's image
    dataIndex: int,    // data-index, as Number(...) reads it
    hidden: bool)

  /** The filter value that shows every card. */
  const ALL_FILTER: string := "all"

  /** Whether filter `f` leaves card `c` shown. */
  predicate Matches(c: Card, f: string)
  {
    f == ALL_FILTER || c.category == f
  }

  /** One step of applyFilter's forEach: the card with its hidden flag set from `f`. */
  function Refilter(c: Card, f: string): Card
  {
    if Matches(c, f) then c.(hidden := false) else c.(hidden := true)
  }

  /** The card list after applyFilter(f). */
  function FilterCards(cs: seq<Card>, f: string): (r: seq<Card>)
    ensures |r| == |cs|
    ensures forall k :: 0 <= k < |r| ==> (r[k].hidden <==> f != ALL_FILTER && cs[k].category != f)
    ensures forall k :: 0 <= k < |r| ==> r[k].(hidden := cs[k].hidden) == cs[k]
  {
    seq(|cs|, k requires 0 <= k < |cs| => Refilter(cs[k], f))
  }

  /** The last filter applied decides every hidden flag: what an earlier filter did
      leaves no trace. */
  lemma FilterLastWins(cs: seq<Card>, f: string, g: string)
    ensures FilterCards(FilterCards(cs, f), g) == FilterCards(cs, g)
  {
    var once, twice := FilterCards(cs, g), FilterCards(FilterCards(cs, f), g);
    assert |twice| == |once|;
    forall k | 0 <= k < |once| ensures twice[k] == once[k] {
      assert twice[k].(hidden := cs[k].hidden) == cs[k];
    }
  }

  /** Applying the same filter twice is applying it once. */
  lemma FilterIdempotent(cs: seq<Card>, f: string)
    ensures FilterCards(FilterCards(cs, f), f) == FilterCards(cs, f)
  {
    FilterLastWins(cs, f, f);
  }

  /** The positions, in increasing order, of the cards that are not hidden: the
      `filter` half of getVisibleIndexes. */
  function VisiblePositions(cs: seq<Card>): (ps: seq<int>)
    ensures |ps| <= |cs|
    ensures forall j :: 0 <= j < |ps| ==> 0 <= ps[j] < |cs| && !cs[ps[j]].hidden
    ensures forall k :: 0 <= k < |cs| && !cs[k].hidden ==> k in ps
    ensures forall i, j :: 0 <= i < j < |ps| ==> ps[i] < ps[j]
  {
    if cs == [] then []
    else
      var rest := VisiblePositions(cs[..|cs| - 1]);
      if cs[|cs| - 1].hidden then rest else rest + [|cs| - 1]
  }

  /** getVisibleIndexes: the data-index of every card that is not hidden, in card
      order (`filter` on the hidden class, then `map` to data-index). */
  function VisibleIndexes(cs: seq<Card>): (r: seq<int>)
    ensures |r| <= |cs|
    ensures forall x :: x in r <==> exists k :: 0 <= k < |cs| && !cs[k].hidden && cs[k].dataIndex == x
    ensures r == [] <==> forall k :: 0 <= k < |cs| ==> cs[k].hidden
  {
    if cs == [] then []
    else
      var front := cs[..|cs| - 1];
      var rest := VisibleIndexes(front);
      assert forall k :: 0 <= k < |front| ==> front[k] == cs[k];
      if cs[|cs| - 1].hidden then rest else rest + [cs[|cs| - 1].dataIndex]
  }

  /** Every card's data-index is its position in the card list, as in markup that
      numbers the cards 0, 1, 2, ... */
  predicate WellIndexed(cs: seq<Card>)
  {
    forall k :: 0 <= k < |cs| ==> cs[k].dataIndex == k
  }

  /** With well-indexed cards, the visible sequence is strictly increasing and holds
      exactly the positions of the cards that are not hidden. */
  lemma {:induction false} VisibleOfWellIndexed(cs: seq<Card>)
    requires WellIndexed(cs)
    ensures VisibleIndexes(cs) == VisiblePositions(cs)
    ensures forall i, j :: 0 <= i < j < |VisibleIndexes(cs)| ==> VisibleIndexes(cs)[i] < VisibleIndexes(cs)[j]
    ensures forall x :: x in VisibleIndexes(cs) <==> 0 <= x < |cs| && !cs[x].hidden
  {
    if cs != [] {
      var front := cs[..|cs| - 1];
      assert forall k :: 0 <= k < |front| ==> front[k] == cs[k];
      VisibleOfWellIndexed(front);
    }
  }

  /** When no card is hidden, the visible sequence is every card's data-index, in
      card order. */
  lemma {:induction false} AllShownListsAll(cs: seq<Card>)
    requires forall k :: 0 <= k < |cs| ==> !cs[k].hidden
    ensures VisibleIndexes(cs) == seq(|cs|, k requires 0 <= k < |cs| => cs[k].dataIndex)
  {
    if cs != [] {
      var front := cs[..|cs| - 1];
      assert forall k :: 0 <= k < |front| ==> front[k] == cs[k];
      AllShownListsAll(front);
    }
  }

  /** The filter "all" leaves every card visible: the visible sequence lists every
      card's data-index, in card order. */
  lemma FilterAllShowsEveryCard(cs: seq<Card>)
    ensures VisibleIndexes(FilterCards(cs, ALL_FILTER)) == seq(|cs|, k requires 0 <= k < |cs| => cs[k].dataIndex)
  {
    var fs := FilterCards(cs, ALL_FILTER);
    AllShownListsAll(fs);
    assert forall k :: 0 <= k < |cs| ==> fs[k].dataIndex == cs[k].dataIndex;
  }

  /** The data-index of the card at each of the positions `ps`, in the order of `ps`:
      the `map` half of getVisibleIndexes. */
  function DataIndexesAt(cs: seq<Card>, ps: seq<int>): (r: seq<int>)
    requires forall j :: 0 <= j < |ps| ==> 0 <= ps[j] < |cs|
    ensures |r| == |ps|
    ensures forall j :: 0 <= j < |ps| ==> r[j] == cs[ps[j]].dataIndex
  {
    if ps == [] then [] else DataIndexesAt(cs, ps[..|ps| - 1]) + [cs[ps[|ps| - 1]].dataIndex]
  }

  /** getVisibleIndexes in full: the data-index of the card at each visible
      position, in card order, whatever the data-index values are. */
  lemma {:induction false} VisibleIsMappedPositions(cs: seq<Card>)
    ensures VisibleIndexes(cs) == DataIndexesAt(cs, VisiblePositions(cs))
  {
    if cs != [] {
      var front := cs[..|cs| - 1];
      var fps := VisiblePositions(front);
      VisibleIsMappedPositions(front);
      assert DataIndexesAt(front, fps) == DataIndexesAt(cs, fps);
    }
  }

  /** A filter that no card's category matches leaves nothing visible. */
  lemma FilterMatchingNothingHidesAll(cs: seq<Card>, f: string)
    requires f != ALL_FILTER
    requires forall k :: 0 <= k < |cs| ==> cs[k].category != f
    ensures VisibleIndexes(FilterCards(cs, f)) == []
  {
  }
}
