# Image gallery widget: filter and lightbox navigation

This project models the state machine inside `script.js`, a browser widget made of two parts:

- **Grid.** A grid of image cards filtered by category.
- **Lightbox.** A modal viewer that shows one card at a time and steps forward and backward through the cards the filter leaves visible.

The model strips away the DOM and keeps what the script computes:

- the hidden flag of each card;
- the ordered sequence of `data-index` values of the visible cards;
- the lightbox's current index, open flag and four display fields (image src, image alt, title text, caption text);
- the handlers that change them.

Modules, one per component of the script:

- `Cards` (cards.dfy): the `Card` record, `applyFilter` as `FilterCards`, and `getVisibleIndexes` as `VisibleIndexes`.
  - `VisibleIndexes` is built card by card: each card that is not hidden adds its `data-index`, in card order. `VisiblePositions` lists the positions of those cards the same way. `VisibleIsMappedPositions` proves that getVisibleIndexes is `DataIndexesAt` of `VisiblePositions`: the `filter` half, then the `map` half, as the script writes it.
- `Navigation` (navigation.dfy): the index arithmetic.
  - `IndexOf` models JavaScript's `indexOf` and `JsRem` models its truncating `%`.
  - `At` models reading an array at a number. It gives `None` for `undefined`.
  - `NextTarget`, `PrevTarget`, `NextAllTarget` and `PrevAllTarget` are the values that `showNext`, `showPrev` and the `nextAll`/`prevAll` handlers pass to `openLightbox`.
- `Lightbox` (lightbox.dfy): the lightbox as a value `State(current, open, display)` and every operation on it as a function.
  - The operations are `Open`, `Close`, `ShowNext`, `ShowPrev`, `NextAll`, `PrevAll`, the keydown handler `OnKey` and the overlay click.
  - `Consistent` is the invariant: `current` is a card position (0 when there is no card), and an open lightbox shows the card at `current`.
  - The module also holds the lemmas that relate the operations.
- `Widget` (gallery.dfy): the widget as the class `Gallery`.
  - `cards` is a fixed `array<Card>`, and `applyFilter` rewrites it in place with a loop.
  - `currentIndex`, `isOpen` and `display` are fields.
  - Each handler is a method. Its `ensures` equates the new state with the `Lightbox` function applied to the old state, and it keeps `Valid()`.

Two points follow the code rather than a simpler reading of it:

- **Data index and position are separate.** `openLightbox` indexes the card list by position. A card click passes a position (script.js:83-85). The navigation handlers pass `data-index` values. `Card.dataIndex` is therefore a field of its own.
  - Round-trip and cycle properties hold under `WellIndexed(cs)`, meaning every card's `data-index` equals its position.
  - Without that condition the model still runs. A `data-index` that is not a position makes `openLightbox` do nothing.
- **Undefined is an explicit no-op.** Several values can be `undefined`: `(i + 1) % 0` with no visible card is `NaN`, then `visible[NaN]` and `cards[undefined]` are `undefined`, and `openLightbox` returns at once. The model writes all of these as `None`, which `OpenAt` treats as "nothing changes". `JsRem` is JavaScript's truncating remainder, written as repeated subtraction. `JsRemIsRemainder` relates it to Dafny's Euclidean `%`, and `RemainderSteps` shows that the two remainders the script takes are the cyclic steps forward and back. `TargetsAreModular` proves that on a non-empty visible sequence it picks the same element as Dafny's Euclidean `%`. The one negative dividend that can occur is `-1 % 1` (it gives `-0`), and it still reads element 0.

Three behaviours of the code that a quick reading misses:

- **Navigation while closed.** The code does not require the lightbox to be open for `showNext`/`showPrev`; only the keydown handler checks the open flag. The `nextAll`/`prevAll` buttons open a closed lightbox.
- **Stepping back from a hidden card.** With well-indexed cards and two or more visible cards, if the current card has been filtered out, `showPrev` lands on the second-to-last visible card. It does not land on the last one. `prevAll` does land on the last one. `PrevAllVersusShowPrev` proves that the two differ in that case. With a single visible card, or with `data-index` values that are not positions, they can agree.
- **Step forward then back.** This restores the current card when that card is visible (`NextPrevRestore`). With well-indexed cards, when it is hidden and some card is visible, the step forward lands on a visible card, so the step back does not return to the hidden one.

## Model

The operation functions are definitions without contracts of their own; lemmas state what they do. `Lightbox.Open` is described by `OpenShowsCard`, `Lightbox.Close` by `CloseKeepsCurrent`, `Lightbox.ShowNext` and `Lightbox.ShowPrev` by `ShowNextMoves`, `ShowPrevMoves` and `NextPrevRestore`, `Lightbox.NextAll` and `Lightbox.PrevAll` by `NextAllIsShowNext` and `PrevAllVersusShowPrev`, `Lightbox.OnKey` by `KeyDispatch`, `Lightbox.OnOverlayClick` by `OperationsKeepConsistent`, and `Navigation.NextAllTarget` and `Navigation.PrevAllTarget` by `NextAllIsNext` and `PrevAllVersusPrev`.

| member | source | states |
|---|---|---|
| `Cards.FilterCards` | script.js:68-80 | After applyFilter(f) there are as many cards as before. A card is hidden exactly when f is not "all" and its category is not f. No other field of any card changes. |
| `Cards.FilterLastWins` | script.js:68-80 | The hidden flags depend only on the last filter applied: filtering by f and then by g equals filtering by g. |
| `Cards.FilterIdempotent` | script.js:68-80 | Applying the same filter twice equals applying it once. |
| `Cards.AllShownListsAll` | script.js:51-55 | When no card is hidden, getVisibleIndexes lists every card's data-index, in card order. |
| `Cards.FilterAllShowsEveryCard` | script.js:68-80 | After the filter "all", the visible sequence is every card's data-index, in card order. |
| `Cards.FilterMatchingNothingHidesAll` | script.js:68-80 | A filter other than "all" that matches no category leaves the visible sequence empty. |
| `Cards.VisiblePositions` | script.js:51-53 | The positions of the cards that are not hidden, each listed once, in strictly increasing card order; no more of them than cards. |
| `Cards.VisibleIndexes` | script.js:51-55 | getVisibleIndexes has at most as many entries as there are cards. A value is in it exactly when some card that is not hidden has that data-index. It is empty exactly when every card is hidden. Its order is stated by VisibleIsMappedPositions. |
| `Cards.VisibleIsMappedPositions` | script.js:51-55 | getVisibleIndexes is exactly the data-index of each card that is not hidden, in card order (DataIndexesAt of VisiblePositions), for any data-index values. |
| `Cards.VisibleOfWellIndexed` | script.js:51-55 | When every data-index equals its card's position, the visible sequence equals the visible positions. It is strictly increasing and holds exactly the positions of the cards that are not hidden. |
| `Navigation.IndexOf` | script.js:39 | indexOf gives the first position holding the value, or -1 exactly when the value is absent. |
| `Navigation.IndexOfDistinct` | script.js:39 | In a sequence without repeats, indexOf of the element at position p is p. |
| `Navigation.JsRem` | script.js:40 | JavaScript's % for a positive divisor: the result has the dividend's sign, its magnitude is below the divisor, and it is at most a non-negative dividend. |
| `Navigation.JsRemMatchesMod` | script.js:40 | On a non-negative dividend, JavaScript's % equals Euclidean mod. |
| `Navigation.JsRemIsRemainder` | script.js:40-46 | JavaScript's % is the Euclidean remainder of the dividend's magnitude, with the dividend's sign. |
| `Navigation.RemainderSteps` | script.js:40-46 | For i a position among n or -1, (i + 1) % n is the next position cyclically (0 after the last and for -1), and (i - 1 + n) % n is the previous one (the last before 0, the second-to-last or only one for -1). |
| `Navigation.NextTarget` | script.js:37-42 | showNext passes undefined exactly when no card is visible. Otherwise it passes the element after the current one: the first after the last, and the first when the current value is absent. |
| `Navigation.PrevTarget` | script.js:43-48 | showPrev passes undefined exactly when no card is visible. Otherwise it passes the element before the current one: the last before the first, and the second-to-last (or the only element) when the current value is absent. |
| `Navigation.TargetsAreModular` | script.js:40-46 | On a non-empty sequence, showNext picks visible[(i+1) mod len] and showPrev picks visible[(i-1+len) mod len] with Euclidean mod. So JavaScript's truncating % gives the same element. |
| `Navigation.FromPosition` | script.js:37-48 | From the first occurrence of the value at position p, showNext goes to p+1 (0 after the last) and showPrev goes to p-1 (the last before the first). |
| `Navigation.FromAbsent` | script.js:37-48 | For a current value absent from a non-empty sequence, showNext picks element 0 and showPrev picks element (len-2) mod len. |
| `Navigation.NextPrevInverse` | script.js:37-48 | In a sequence without repeats, a step forward then a step back returns to the starting element, and so does a step back then a step forward. |
| `Navigation.NextAllIsNext` | script.js:116-123 | The nextAll handler's explicit branches pick the same value as showNext's modulo arithmetic, for every sequence and current value, the empty sequence included. |
| `Navigation.PrevAllVersusPrev` | script.js:108-115 | prevAll picks what showPrev picks when the current value is present. When it is absent, prevAll picks the last element. Then the two differ on any sequence of two or more distinct elements. |
| `Navigation.WalkWraps` | script.js:37-42 | n <= len steps forward from position p reach p+n, less len once past the end; so len steps return to p. |
| `Lightbox.DisplayOf` | script.js:22-26 | The lightbox shows the card's image src, title and caption. Its alt text is the image's alt, or the card's title when the alt is empty. |
| `Lightbox.OpenShowsCard` | script.js:19-30 | openLightbox(i) on a card position makes i current and opens the lightbox. The lightbox then shows the card's src, title, caption and alt chain. An index outside the card list changes nothing. |
| `Lightbox.CloseKeepsCurrent` | script.js:32-35 | closeLightbox clears the open flag and keeps the current index and the display fields. |
| `Lightbox.OperationsKeepConsistent` | script.js:19-48 | Open, close, showNext, showPrev, nextAll, prevAll and the overlay click all keep the invariant: current is a card position (0 when there is no card), and an open lightbox shows the current card. |
| `Lightbox.OnKeyKeepsConsistent` | script.js:98-104 | The keydown handler keeps the same invariant. |
| `Lightbox.FilterKeepsConsistent` | script.js:68-80 | Filtering changes only hidden flags, so it keeps the invariant. |
| `Lightbox.NoVisibleCardIsNoop` | script.js:37-48 | With no visible card, showNext, showPrev, nextAll and prevAll change nothing. |
| `Lightbox.VisibleAreCards` | script.js:51-55 | With well-indexed cards, the visible sequence has no repeats. It lists only positions of cards that are not hidden. |
| `Lightbox.ShowNextMoves` | script.js:37-42 | With well-indexed cards and a visible card, showNext opens the visible card after the current one. It wraps from the last to the first, and it goes to the first when the current card is hidden. |
| `Lightbox.ShowPrevMoves` | script.js:43-48 | With well-indexed cards and a visible card, showPrev opens the visible card before the current one. It wraps from the first to the last. When the current card is hidden, it goes to the second-to-last visible card (the only one, when a single card is visible). |
| `Lightbox.NextAllIsShowNext` | script.js:116-123 | The nextAll button has the same effect as showNext on every card list and state. |
| `Lightbox.PrevAllVersusShowPrev` | script.js:108-115 | prevAll equals showPrev while currentIndex is one of the visible data-index values. With well-indexed cards and the current card hidden, prevAll opens the last visible card and, with two or more visible, disagrees with showPrev. |
| `Lightbox.NextPrevRestore` | script.js:37-48 | With well-indexed cards and a visible current card, showNext then showPrev (either order) reopens the current card. From an open, consistent lightbox this restores the whole state. |
| `Lightbox.ShowNextTimesWalks` | script.js:37-42 | With well-indexed cards, from the visible card at position p, n >= 1 calls of showNext open the visible card n steps further on, wrapping past the end. |
| `Lightbox.ShowNextCycle` | script.js:37-42 | With well-indexed cards, calling showNext once per visible card, from a visible current card, comes back to that card. |
| `Lightbox.KeyDispatch` | script.js:98-104 | While the lightbox is closed, a key changes nothing. While it is open, ArrowRight is showNext, ArrowLeft is showPrev, Escape is closeLightbox, and any other key changes nothing. |
| `Lightbox.NatureFilter` | script.js:51-80 | Cards nature, city, nature filtered on "nature" give the visible sequence [0, 2]. |
| `Lightbox.NatureScenario` | script.js:19-42 | On those cards, opening card 0 and then calling showNext twice visits card 2, then card 0. |
| `Widget.Gallery.constructor` | script.js:15-16 | At page load currentIndex is 0 and the lightbox is closed (as the markup is taken to start it). The cards are the markup's cards after the applyFilter("all") call at line 126. |
| `Widget.Gallery.ApplyFilter` | script.js:68-80 | The forEach loop rewrites the card array in place into FilterCards of its old contents. The lightbox state does not change and the invariant holds. |
| `Widget.Gallery.OpenLightbox` | script.js:19-30 | The new lightbox state is Open of the old one. |
| `Widget.Gallery.CloseLightbox` | script.js:32-35 | The new lightbox state is Close of the old one. |
| `Widget.Gallery.ShowNext` | script.js:37-42 | The new lightbox state is ShowNext of the old one, computed with JavaScript's remainder and indexOf. |
| `Widget.Gallery.ShowPrev` | script.js:43-48 | The new lightbox state is ShowPrev of the old one. |
| `Widget.Gallery.NextAll` | script.js:116-123 | The new lightbox state is NextAll of the old one. |
| `Widget.Gallery.PrevAll` | script.js:108-115 | The new lightbox state is PrevAll of the old one. |
| `Widget.Gallery.KeyDown` | script.js:98-104 | The new lightbox state is OnKey of the old one. |
| `Widget.Gallery.OverlayClick` | script.js:93-95 | The lightbox closes only when the click's target is the overlay itself. |

## Left out

- Element lookup (script.js:2-13) and the wiring of event listeners. Each handler is a method called directly. The card click (script.js:83-85) is `OpenLightbox` called with the card's position.
- The `aria-hidden` attribute, the `open`, `dim` and `active` classes as CSS, and `style.display`. These are presentation only; the model keeps the hidden flag and the open flag.
- The filter buttons' `active` class and `activeFilter` (script.js:58-66). `activeFilter` is written and never read.
- `galleryOrder` (script.js:107). It is computed and never used.
- The focus trap on Tab (script.js:129-135). It is browser focus management.
- The IntersectionObserver lazy-load hint (script.js:138-153). It is an asynchronous browser callback that changes no modelled state.
- `updateNavVisibility` and the resize listener (script.js:156-166). They toggle buttons by viewport width.
- Parsing `data-index` with `Number(...)`. `dataIndex` is an integer. A value that parses to `NaN` would reach the same no-op in `openLightbox`.
- A card without `data-category`. Its category is `undefined` in the script, which `cat === filter` tells apart from every string, so the filter `""` would hide it. The model gives every card a string category, so that card would be shown instead.
- A card without an image. The script would throw at `img.src`; every modelled card has an image (its `src` and `imgAlt` fields).
- The lightbox's initial content from the page markup. The markup is taken to start with the lightbox closed, which script.js does not set itself. The model starts with empty display fields; nothing reads them while the lightbox is closed.
