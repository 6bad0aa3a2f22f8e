# Carousel controller

A Dafny model of the carousel (slider) controller in `components/ui/Slider.tsx`:
the `init` function that the page's load handler runs, together with the event
handlers it creates and wires to the page. Without the page, the controller is
a small integer state machine:

- the closure variables `itemIndex`, `percentOfTranlateX` (the track's translateX),
  `prevPercentOfTranlateX` (the track's translateX when a drag began),
  `lastItemTranslate`, `currentDirection`, `startX` and `isDragging`;
- one translateX per item, which `goToItem` rewrites one item at a time;
- the disabled attributes of the dots and of the previous/next buttons, which
  the visibility callback toggles.

The project has four modules:

- `SliderIndex` (`slider_index.dfy`): the button index arithmetic, with
  JavaScript's truncating `%` written out.
- `SliderSpec` (`slider_spec.dfy`): the state as a datatype and each handler
  as a pure transition. It also defines `AlignedAt`, the layout that click
  navigation keeps. In that layout the track shows slot `p`, and the items fill
  the `n` slots from `p` on, starting with the current item.
- `SliderProps` (`slider_props.dfy`): lemmas about those transitions.
- `Slider` (`slider.dfy`): class `Carousel`. Its fields are the closure
  variables. It has an `array<int>` of item translates and an `array<bool>` of dot
  states, both of length fixed at init. Each handler is a method, proved to
  change the object exactly as the matching `SliderSpec` transition changes its
  `Model()`.

Two pixel ratios become integers:

- `percentOfView` (the first item's width over the viewport's, in percent)
  becomes `Config.step`.
- The pointer travel in `moveCarousel` becomes the `delta` argument of
  `MoveCarousel`.

An item's own translateX is in percent of its own width, so one item is
`ItemWidth` = 100 (`PERCENT_OF_PRODUCT_VIEW`).

Each `goToItem` call ends in one of three outcomes:

- `Moved`: the move goes through.
- `NotHtml`: the isHTMLElement guard warns and returns.
- `Threw`: the call dies before writing anything. This happens when
  `items.item(index)` is null (an index outside the items, as a dot beyond the
  last item gives) or when the viewport is missing (`view!.offsetWidth`).

Every outcome except `Moved` leaves the state untouched.

Three behaviours of the code worth stating:

- From an aligned layout (`AlignedAt`), with every item passing the
  isHTMLElement guard and the viewport present (`Usable`), N forward clicks do
  not return the track to its starting offset. The track ends N steps further
  left and every item one ring (100·N) further right: the same picture,
  shifted (`FullCycle`).
- On a carousel that is not infinite, a boundary button is enabled when the
  callback reports its item (index 0 or the last index) at all, whether the
  item is entering or leaving the view. It is not enabled only when the item
  becomes visible (`ObserveAllButtons`).
- From an aligned layout (`AlignedAt`), with every item passing the guard and
  the viewport present (`Usable`), next followed by prev restores the items,
  the index and the track exactly. Only the direction bookkeeping differs
  (`NextThenPrev`).

## Model

| member | source | states |
|---|---|---|
| `SliderIndex.JsRem` | components/ui/Slider.tsx:152-158 | JavaScript's `%` on a positive divisor: the remainder lies in [0, b) for a non-negative dividend and in (-b, 0] for a negative one |
| `SliderIndex.NextIndex` | components/ui/Slider.tsx:157-161 | onClickNext's new index stays in [0, N-1] and is i+1, wrapping N-1 to 0 |
| `SliderIndex.PrevIndex` | components/ui/Slider.tsx:151-155 | onClickPrev's new index is always in [0, N-1] and is i-1, wrapping 0 to N-1 (also for N = 1, where JavaScript gives -0) |
| `SliderIndex.NextPrevInverse` | components/ui/Slider.tsx:151-161 | the next and prev index updates undo each other on every index in range |
| `SliderSpec.Initial` | components/ui/Slider.tsx:84-99 | after init item k's translateX is 100·k, and every dot starts enabled as rendered (lines 5-15) |
| `SliderSpec.GoToOutcome` | components/ui/Slider.tsx:101-114 | goToItem moves exactly when the target index names an item that passes the isHTMLElement test and the viewport exists; it stops at the guard exactly when the item exists but fails the test |
| `SliderSpec.MovedItem` | components/ui/Slider.tsx:115-133 | the item rewritten is the target going back and, going forward, the item whose next index is the target (N-1 for target 0) |
| `SliderSpec.GoTo` | components/ui/Slider.tsx:101-149 | goToItem never changes itemIndex, the dots, the buttons or the drag session, and keeps the item count |
| `SliderSpec.ClickNext` | components/ui/Slider.tsx:157-161 | onClickNext sets itemIndex to (itemIndex+1) mod N, so the index stays in [0, N-1] |
| `SliderSpec.ClickPrev` | components/ui/Slider.tsx:151-155 | onClickPrev sets itemIndex to itemIndex-1, wrapping 0 to N-1, so the index stays in [0, N-1] |
| `SliderSpec.Grab` | components/ui/Slider.tsx:169-174 | startGrab starts dragging and saves the current track offset as the drag origin |
| `SliderSpec.Drag` | components/ui/Slider.tsx:182-190 | moveCarousel does nothing unless dragging; while dragging it sets the track offset to origin + delta |
| `SliderSpec.Release` | components/ui/Slider.tsx:176-180 | endGrab stops dragging, resets startX to 0 and leaves the track where the drag left it (no snapping) |
| `SliderSpec.Observe` | components/ui/Slider.tsx:194-212 | one callback entry sets dot i disabled exactly when item i is intersecting, leaves the other dots alone, and never disables a button |
| `SliderSpec.ObserveAll` | components/ui/Slider.tsx:192-215 | a whole visibility callback only touches the dots and the buttons (the index, the track, the item translates and the drag session are unchanged) and never disables a button; `ObserveAllButtons` and `ObserveAllDots` state its exact effect |
| `SliderSpec.Wiring` | components/ui/Slider.tsx:217-235 | init attaches one click listener per dot. The drag handlers and both buttons are attached exactly when the viewport exists (the mouseup line throws otherwise), and the timer exactly when the viewport exists and `interval` is truthy |
| `SliderSpec.ListenerOf` | components/ui/Slider.tsx:217-235 | each event goes to the listener init attaches for it; exactly dot clicks go to dot listeners |
| `SliderSpec.Step` | components/ui/Slider.tsx:217-235 | an event whose listener is not attached, or a click on a disabled button or dot, changes nothing; every event keeps the index in [0, N-1] and the item and dot counts, never disables a button, and leaves both buttons alone on an infinite carousel |
| `SliderSpec.Run` | components/ui/Slider.tsx:217-235 | over any sequence of events on the wired controller the index stays in [0, N-1] and the item and dot counts stay fixed |
| `SliderProps.GoToGuard` | components/ui/Slider.tsx:102-110 | a goToItem that fails the guard, or dies on a missing element, leaves every field and every item translate unchanged |
| `SliderProps.GoToMovesOneItem` | components/ui/Slider.tsx:115-148 | a successful goToItem changes exactly one item's translate, to the new lastItemTranslate. It moves the track by exactly one step: down going forward, up going back. It records the call's direction. lastItemTranslate moves by 100 when the direction is unchanged and by 100·N when it turns |
| `SliderProps.GoToForwardBackOffset` | components/ui/Slider.tsx:127-147 | a forward goToItem followed by a backward one leaves the track offset unchanged, whatever the direction state |
| `SliderProps.RefusedClickNext` | components/ui/Slider.tsx:157-161 | when the move is refused, onClickNext has still advanced itemIndex, and nothing else changed |
| `SliderProps.RefusedClickPrev` | components/ui/Slider.tsx:151-155 | when the move is refused, onClickPrev has still stepped itemIndex back, and nothing else changed |
| `SliderProps.InitialAligned` | components/ui/Slider.tsx:84-99 | init leaves the items laid out in order from slot 0, with the track at slot 0 |
| `SliderProps.ClickNextAligned` | components/ui/Slider.tsx:130-161 | from an aligned layout, a successful next click shifts the track one slot on. It moves only the item that left the view to the far end, so the new current item is the one in view |
| `SliderProps.ClickPrevAligned` | components/ui/Slider.tsx:115-155 | from an aligned layout, a successful prev click shifts the track one slot back. It moves only the item coming into view to the front |
| `SliderProps.NextThenPrev` | components/ui/Slider.tsx:101-161 | from an aligned layout (`AlignedAt`) with every item passing the isHTMLElement guard and the viewport present (`Usable`), next then prev restores every item translate, the index and the track offset. The direction is left "prev" and lastItemTranslate at the window's first slot |
| `SliderProps.PrevThenNext` | components/ui/Slider.tsx:101-161 | from an aligned layout (`AlignedAt`) with every item passing the isHTMLElement guard and the viewport present (`Usable`), prev then next restores every item translate, the index and the track offset. The direction is left "next" and lastItemTranslate at the window's last slot |
| `SliderProps.ClickNextTimes` | components/ui/Slider.tsx:233-235 | any number of auto-advance ticks keeps the index in [0, N-1] |
| `SliderProps.ClickNextTimesAligned` | components/ui/Slider.tsx:157-161 | m ≤ N forward clicks keep the layout aligned, m slots on, with the index moved m items forward with wraparound |
| `SliderProps.FullCycle` | components/ui/Slider.tsx:101-161 | from an aligned layout (`AlignedAt`) with every item passing the isHTMLElement guard and the viewport present (`Usable`), N forward clicks bring the same item back into view with the track N steps further left and every item exactly 100·N further right |
| `SliderProps.DragIsAbsolute` | components/ui/Slider.tsx:169-190 | within one drag the offset is origin + the latest delta; an earlier move is replaced, not added to |
| `SliderProps.GrabDragRelease` | components/ui/Slider.tsx:169-190 | grab, move by d and release leave the controller idle, startX at 0 and the track at its old offset + d |
| `SliderProps.DragOverridesNavigation` | components/ui/Slider.tsx:182-190 | a next click during a drag is not refused. The next pointer move resets the track to origin + delta, while the item the click moved stays moved |
| `SliderProps.ObserveAllButtons` | components/ui/Slider.tsx:192-213 | after a batch of entries, prev is disabled exactly when it was disabled and either the carousel is infinite or no entry named item 0. The same holds for next with the last item |
| `SliderProps.ObserveAllDots` | components/ui/Slider.tsx:192-213 | after a batch, a dot whose item no entry named keeps its attribute. Otherwise the dot is disabled exactly when the latest entry for its item says intersecting |
| `SliderProps.RunNeverDisablesButtons` | components/ui/Slider.tsx:205-212 | no sequence of events disables a button that is enabled; with `infinite` set, no event changes either button |
| `SliderProps.WithoutButtonClicks` | components/ui/Slider.tsx:228-232 | the events left after dropping the prev and next clicks: none of them is a button click, and every other event occurs in it exactly as often as in the input |
| `SliderProps.InfiniteButtonsInert` | components/ui/Slider.tsx:205-212 | on an infinite carousel, whose buttons are rendered disabled and stay so, any sequence of events ends in the same state as the same sequence with every prev and next click removed |
| `SliderProps.DotClickMisplaces` | components/ui/Slider.tsx:219-221 | with three items just after init, clicking dot 2 (still enabled) slides the track to slot 1 and moves item 1 to slot 3. Slot 1 is left empty and itemIndex stays 0, so no alignment holds |
| `Slider.Carousel.constructor` | components/ui/Slider.tsx:84-235 | init lays items out at 100·k, sets the variables and attaches exactly the listeners `Wiring` describes |
| `Slider.Init` | components/ui/Slider.tsx:68-99 | init sets up nothing exactly when the root or the track is missing or there are no items; otherwise it builds the controller in its initial state with the `Wiring` listeners |
| `Slider.Carousel.GoToItem` | components/ui/Slider.tsx:101-149 | goToItem's outcome and new state are those of `GoToOutcome` and `GoTo`; the index stays in range |
| `Slider.Carousel.OnClickPrev` | components/ui/Slider.tsx:151-155 | the prev handler makes the `ClickPrev` transition |
| `Slider.Carousel.OnClickNext` | components/ui/Slider.tsx:157-161 | the next handler (and each auto-advance tick) makes the `ClickNext` transition |
| `Slider.Carousel.OnClickDot` | components/ui/Slider.tsx:219-221 | a dot's click listener is goToItem(dot) on the forward path, with itemIndex untouched |
| `Slider.Carousel.JumpToItem` | components/ui/Slider.tsx:219-221 | corrected dot click: it steps forward until itemIndex is the target, taking the forward distance in steps. From an aligned layout it ends aligned with the target in view |
| `Slider.Carousel.StartGrab` | components/ui/Slider.tsx:169-174 | startGrab makes the `Grab` transition |
| `Slider.Carousel.EndGrab` | components/ui/Slider.tsx:176-180 | endGrab makes the `Release` transition |
| `Slider.Carousel.MoveCarousel` | components/ui/Slider.tsx:182-190 | moveCarousel makes the `Drag` transition |
| `Slider.Carousel.OnObserve` | components/ui/Slider.tsx:194-212 | one entry of the visibility callback makes the `Observe` transition |
| `Slider.Carousel.OnObserveBatch` | components/ui/Slider.tsx:192-215 | the visibility callback handles its entries in order (`ObserveAll`) |

## Left out

- Floating-point ratios: `percentOfView` (lines 112-114) is the configured integer `step`. The source recomputes it on every call from the current layout, so a resize between calls is not modelled. The NaN it yields when item 0 has no layout width is not modelled either.
- `getPositionX` and the pointer-to-percent conversion (lines 163-167, 184-186): `MoveCarousel` takes the resulting percentage `delta` directly. `StartGrab` still records `startX`.
- DOM lookups (lines 68-74): `Init` takes whether the root, track and viewport were found, the items' isHTMLElement results and the dot count.
- `addEventListener` and the ready-state deferral (lines 217-242): these appear only as the `wired` set of listeners, which `Step` consults before delivering an event.
- The exception that init raises without a viewport (line 228) is modelled only by what it leaves unwired.
- The prev/next buttons are assumed to be rendered. The `prev?.`/`next?.` no-ops for a missing button are not modelled.
- A caller can override the rendered `disabled` defaults through the spread props (lines 36, 46). The model assumes the defaults are kept.
- IntersectionObserver scheduling and the 60% threshold: the browser decides which entries a batch holds. The model takes the batch as given and handles only the callback body.
- `setInterval` timing: an auto-advance tick is one `OnClickNext`, and `ClickNextTimes` counts ticks.
- `Number(attr) || 0` parsing of the item attribute (line 196): the entry carries the index directly.
- CSS `translateX(...)` strings, cursor styles, `console.warn` and the unused `scroll` prop.
- The markup wrappers `Dot`, `Slider`, `View`, `Item`, `NextButton`, `PrevButton` and `JS` (lines 5-48, 245-261) emit markup with no behaviour. Their only effect here is the initial disabled attributes.
- `sections/Lp/Header.tsx` and `sections/Lp/Footer.tsx` are static markup and are not part of this model.

## Findings

| source | as written | input that shows it | evidently intended | confidence | as-written member | corrected member |
|---|---|---|---|---|---|---|
| components/ui/Slider.tsx:219-221 | a dot's click listener calls goToItem(it) with no direction and without updating itemIndex, so every dot click slides one item forward and relocates item it-1 | three items just after init, click dot 2 (an enabled dot): item 1 moves to slot 3, the track moves to slot 1, which is now empty, and itemIndex stays 0 | the dot labelled "go to slider item i" (line 12) brings item i into view and keeps itemIndex and the layout in step | medium, not executed | `SliderProps.DotClickMisplaces` | `Slider.Carousel.JumpToItem` |
