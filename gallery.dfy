/** The gallery widget of script.js as an object: the fixed list of cards, whose
    hidden flags the filter rewrites in place, and the lightbox's module-level
    state (currentIndex, the `open` class, the display fields), which the event
    handlers update. Each method is proved against the state machine of module
    Lightbox. */
module Widget {
  import opened Cards
  import opened Navigation
  import Lightbox

  class Gallery {
    /** The cards in page order; the list itself never changes, only the cards'
        hidden flags. */
    const cards: array<Card>
    var currentIndex: int
    var isOpen: bool
    var display: Lightbox.Display

    /** The lightbox part of the object as a value. */
    ghost function State(): Lightbox.State
      reads this
    {
      Lightbox.State(currentIndex, isOpen, display)
    }

    ghost predicate Valid()
      reads this, cards
    {
      Lightbox.Consistent(cards[..], State())
    }

    /** Page load: the cards are taken from the markup, currentIndex is 0, the
        lightbox is closed, and applyFilter("all") runs once. */
    constructor (cs: seq<Card>)
      ensures Valid() && fresh(cards)
      ensures cards[..] == FilterCards(cs, ALL_FILTER)
      ensures State() == Lightbox.INITIAL
    {
      cards := new Card[|cs|](k requires 0 <= k < |cs| => cs[k]);
      currentIndex, isOpen, display := 0, false, Lightbox.BLANK;
      new;
      assert cards[..] == cs;
      ApplyFilter(ALL_FILTER);
    }

    /** applyFilter(filter): each card is shown when the filter is "all" or its
        category, and hidden otherwise. */
    method ApplyFilter(filter: string)
      requires Valid()
      modifies cards
      ensures Valid()
      ensures cards[..] == FilterCards(old(cards[..]), filter)
      ensures State() == old(State())
    {
      var k := 0;
      while k < cards.Length
        invariant 0 <= k <= cards.Length
        invariant forall j :: 0 <= j < k ==> cards[j] == Refilter(old(cards[j]), filter)
        invariant forall j :: k <= j < cards.Length ==> cards[j] == old(cards[j])
      {
        var c := cards[k];
        if filter == ALL_FILTER || c.category == filter {
          cards[k] := c.(hidden := false);
        } else {
          cards[k] := c.(hidden := true);
        }
        k := k + 1;
      }
      Lightbox.FilterKeepsConsistent(old(cards[..]), State(), filter);
    }

    /** openLightbox(index): returns at once unless `index` is a card position;
        otherwise shows that card and makes it current. */
    method OpenLightbox(index: int)
      requires Valid()
      modifies this
      ensures Valid()
      ensures State() == Lightbox.Open(cards[..], old(State()), index)
    {
      if !(0 <= index < cards.Length) {
        return;
      }
      var card := cards[index];
      var src := card.src;
      var alt := Lightbox.Or(Lightbox.Or(card.imgAlt, card.title), "");
      var title := Lightbox.Or(card.title, "");
      var caption := Lightbox.Or(card.caption, "");
      display := Lightbox.Display(src, alt, title, caption);
      currentIndex := index;
      isOpen := true;
    }

    /** closeLightbox. */
    method CloseLightbox()
      requires Valid()
      modifies this
      ensures Valid()
      ensures State() == Lightbox.Close(old(State()))
    {
      isOpen := false;
    }

    /** showNext. With no visible card the index (i + 1) % 0 is NaN, visible[NaN]
        is undefined and openLightbox(undefined) returns at once. */
    method ShowNext()
      requires Valid()
      modifies this
      ensures Valid()
      ensures State() == Lightbox.ShowNext(cards[..], old(State()))
    {
      ghost var before := State();
      var cs := cards[..];
      var visible := VisibleIndexes(cs);
      var i := IndexOf(visible, currentIndex);
      if |visible| > 0 {
        var nextI := JsRem(i + 1, |visible|);
        RemainderSteps(i, |visible|);
        Lightbox.ShowNextOpensAt(cs, before, nextI);
        OpenLightbox(visible[nextI]);
      } else {
        Lightbox.NoVisibleCardIsNoop(cs, before);
      }
    }

    /** showPrev, with the same treatment of an empty visible sequence. */
    method ShowPrev()
      requires Valid()
      modifies this
      ensures Valid()
      ensures State() == Lightbox.ShowPrev(cards[..], old(State()))
    {
      ghost var before := State();
      var cs := cards[..];
      var visible := VisibleIndexes(cs);
      var i := IndexOf(visible, currentIndex);
      if |visible| > 0 {
        var prevI := JsRem(i - 1 + |visible|, |visible|);
        RemainderSteps(i, |visible|);
        Lightbox.ShowPrevOpensAt(cs, before, prevI);
        OpenLightbox(visible[prevI]);
      } else {
        Lightbox.NoVisibleCardIsNoop(cs, before);
      }
    }

    /** The nextAll button's click handler. */
    method NextAll()
      requires Valid()
      modifies this
      ensures Valid()
      ensures State() == Lightbox.NextAll(cards[..], old(State()))
    {
      ghost var before := State();
      var cs := cards[..];
      var visible := VisibleIndexes(cs);
      if |visible| == 0 {
        Lightbox.NoVisibleCardIsNoop(cs, before);
        return;
      }
      var idx := IndexOf(visible, currentIndex);
      var nextIdx := if idx == -1 || idx == |visible| - 1 then visible[0] else visible[idx + 1];
      Lightbox.NextAllOpens(cs, before, idx);
      OpenLightbox(nextIdx);
    }

    /** The prevAll button's click handler. */
    method PrevAll()
      requires Valid()
      modifies this
      ensures Valid()
      ensures State() == Lightbox.PrevAll(cards[..], old(State()))
    {
      ghost var before := State();
      var cs := cards[..];
      var visible := VisibleIndexes(cs);
      if |visible| == 0 {
        Lightbox.NoVisibleCardIsNoop(cs, before);
        return;
      }
      var idx := IndexOf(visible, currentIndex);
      var prevIdx := if idx <= 0 then visible[|visible| - 1] else visible[idx - 1];
      Lightbox.PrevAllOpens(cs, before, idx);
      OpenLightbox(prevIdx);
    }

    /** The document's keydown handler. */
    method KeyDown(key: string)
      requires Valid()
      modifies this
      ensures Valid()
      ensures State() == Lightbox.OnKey(cards[..], old(State()), key)
    {
      if isOpen {
        if key == Lightbox.ARROW_RIGHT {
          ShowNext();
        }
        if key == Lightbox.ARROW_LEFT {
          ShowPrev();
        }
        if key == Lightbox.ESCAPE {
          CloseLightbox();
        }
      }
    }

    /** A click on the lightbox; `onOverlay` says whether the overlay itself, rather
        than its inner content, was the click's target. */
    method OverlayClick(onOverlay: bool)
      requires Valid()
      modifies this
      ensures Valid()
      ensures State() == Lightbox.OnOverlayClick(old(State()), onOverlay)
    {
      if onOverlay {
        CloseLightbox();
      }
    }
  }
}
