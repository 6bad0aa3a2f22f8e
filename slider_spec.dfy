/** The carousel controller's state and its event handlers as pure transitions.

    Percentages are integers: an item's own translateX is in percent of the
    item's width (one item is `ItemWidth`), the track's translateX is in percent
    of the viewport's width, and one item's share of the viewport is the
    configured `step`.
 */
module SliderSpec {
  import opened SliderIndex

  /** PERCENT_OF_PRODUCT_VIEW: the translateX that moves an item by its own width. */
  const ItemWidth: int := 100

  /** currentDirection: the direction of the last successful goToItem. */
  datatype Direction = Prev | Next

  /** How a goToItem call ends. `NotHtml` is the guard that warns and returns;
      `Threw` is a call that dies on a missing element before writing anything. */
  datatype Outcome = Moved | NotHtml | Threw

  /** What the controller reads from the page and its props once, at init.
      `html[k]` says whether item k passes the isHTMLElement test; the item count
      is `|html|`. */
  datatype Config = Config(html: seq<bool>, step: int, viewFound: bool, infinite: bool)

  /** The controller's closure variables, the items' translateX values and the
      disabled attributes of the dots and the two buttons. */
  datatype State = State(
    itemIndex: int,
    offset: int,          // percentOfTranlateX: the track's translateX
    dragOrigin: int,      // prevPercentOfTranlateX: the track's translateX when the drag began
    lastTranslate: int,   // lastItemTranslate
    direction: Direction, // currentDirection
    startX: int,
    dragging: bool,       // isDragging
    translates: seq<int>, // translateX of each item
    dots: seq<bool>,      // disabled attribute of each dot
    prevDisabled: bool,
    nextDisabled: bool)

  /** One entry handed to the visibility callback: the item's index and the
      entry's isIntersecting flag. */
  datatype Entry = Entry(index: int, intersecting: bool)

  /** The state matches the configuration and the current index is an item. */
  predicate Fits(c: Config, s: State)
  {
    |s.translates| == |c.html| > 0 && 0 <= s.itemIndex < |c.html|
  }

  /** Every item passes the isHTMLElement test and the viewport exists, so every
      in-range goToItem goes through. */
  ghost predicate Usable(c: Config)
  {
    c.viewFound && forall k :: 0 <= k < |c.html| ==> c.html[k]
  }

  /** The state right after init with `n` items and `dotCount` dots: items side by
      side, the buttons disabled as rendered, the dots enabled as rendered. */
  function Initial(n: nat, dotCount: nat): (s: State)
    requires n > 0
    ensures |s.translates| == n && |s.dots| == dotCount
    ensures forall k :: 0 <= k < n ==> s.translates[k] == ItemWidth * k
    ensures forall d :: 0 <= d < dotCount ==> !s.dots[d]
  {
    State(0, 0, 0, (n - 1) * ItemWidth, Next, 0, false,
          seq(n, k => ItemWidth * k), seq(dotCount, d => false), true, true)
  }

  /** How goToItem(index) ends, before it writes anything. */
  function GoToOutcome(c: Config, index: int): (o: Outcome)
    ensures o == Moved <==> 0 <= index < |c.html| && c.html[index] && c.viewFound
    ensures o == NotHtml <==> 0 <= index < |c.html| && !c.html[index]
  {
    if !(0 <= index < |c.html|) then Threw      // items.item(index) is null
    else if !c.html[index] then NotHtml
    else if !c.viewFound then Threw             // view!.offsetWidth
    else Moved
  }

  /** The one item goToItem repositions: the target going back, the item before
      the target (the last one for target 0) going forward. */
  function MovedItem(n: int, index: int, isPrev: bool): (k: int)
    requires 0 <= index < n
    ensures 0 <= k < n
    ensures !isPrev ==> NextIndex(k, n) == index
    ensures isPrev ==> k == index
  {
    if isPrev then index else if index == 0 then n - 1 else index - 1
  }

  /** goToItem(index, isPrev). */
  function GoTo(c: Config, s: State, index: int, isPrev: bool): (r: State)
    requires |s.translates| == |c.html|
    ensures |r.translates| == |s.translates|
    ensures r.itemIndex == s.itemIndex && r.dots == s.dots
    ensures r.dragging == s.dragging && r.dragOrigin == s.dragOrigin && r.startX == s.startX
    ensures r.prevDisabled == s.prevDisabled && r.nextDisabled == s.nextDisabled
  {
    if GoToOutcome(c, index) != Moved then s
    else
      var n := |c.html|;
      var k := MovedItem(n, index, isPrev);
      if isPrev then
        var last := if s.direction == Next then s.lastTranslate - ItemWidth * n
                    else s.lastTranslate - ItemWidth;
        s.(lastTranslate := last, direction := Prev,
           translates := s.translates[k := last], offset := s.offset + c.step)
      else
        var last := if s.direction == Prev then s.lastTranslate + ItemWidth * n
                    else s.lastTranslate + ItemWidth;
        s.(lastTranslate := last, direction := Next,
           translates := s.translates[k := last], offset := s.offset - c.step)
  }

  /** onClickNext: advance the index with wraparound, then goToItem forward. */
  function ClickNext(c: Config, s: State): (r: State)
    requires Fits(c, s)
    ensures Fits(c, r) && r.itemIndex == NextIndex(s.itemIndex, |c.html|)
  {
    var i := NextIndex(s.itemIndex, |c.html|);
    GoTo(c, s.(itemIndex := i), i, false)
  }

  /** onClickPrev: step the index back with wraparound, then goToItem backward. */
  function ClickPrev(c: Config, s: State): (r: State)
    requires Fits(c, s)
    ensures Fits(c, r) && r.itemIndex == PrevIndex(s.itemIndex, |c.html|)
  {
    var i := PrevIndex(s.itemIndex, |c.html|);
    GoTo(c, s.(itemIndex := i), i, true)
  }

  /** startGrab at pointer position `x`. */
  function Grab(s: State, x: int): (r: State)
    ensures r.dragging && r.dragOrigin == s.offset && r.offset == s.offset
  {
    s.(startX := x, dragOrigin := s.offset, dragging := true)
  }

  /** moveCarousel, with `delta` the pointer's travel since the grab in percent of
      the viewport's width. */
  function Drag(s: State, delta: int): (r: State)
    ensures !s.dragging ==> r == s
    ensures s.dragging ==> r.offset == s.dragOrigin + delta && r.dragging
  {
    if s.dragging then s.(offset := s.dragOrigin + delta) else s
  }

  /** endGrab: the drag ends where it is; the track is not snapped to an item. */
  function Release(s: State): (r: State)
    ensures !r.dragging && r.startX == 0 && r.offset == s.offset
  {
    s.(dragging := false, startX := 0)
  }

  /** The body of the visibility callback for one entry. */
  function Observe(c: Config, s: State, e: Entry): (r: State)
    ensures r.(dots := s.dots, prevDisabled := s.prevDisabled, nextDisabled := s.nextDisabled) == s
    ensures |r.dots| == |s.dots|
    ensures 0 <= e.index < |s.dots| ==> r.dots[e.index] == e.intersecting
    ensures forall d :: 0 <= d < |s.dots| && d != e.index ==> r.dots[d] == s.dots[d]
    ensures r.prevDisabled ==> s.prevDisabled
    ensures r.nextDisabled ==> s.nextDisabled
  {
    var dots := if 0 <= e.index < |s.dots| then s.dots[e.index := e.intersecting] else s.dots;
    var prevDisabled := if !c.infinite && e.index == 0 then false else s.prevDisabled;
    var nextDisabled := if !c.infinite && e.index == |c.html| - 1 then false else s.nextDisabled;
    s.(dots := dots, prevDisabled := prevDisabled, nextDisabled := nextDisabled)
  }

  /** The callback run over a batch of entries, in order. It only ever touches
      the dots and the buttons: the carousel itself does not move. */
  function ObserveAll(c: Config, s: State, es: seq<Entry>): (r: State)
    ensures r.(dots := s.dots, prevDisabled := s.prevDisabled, nextDisabled := s.nextDisabled) == s
    ensures |r.dots| == |s.dots|
    ensures r.prevDisabled ==> s.prevDisabled
    ensures r.nextDisabled ==> s.nextDisabled
    decreases |es|
  {
    if es == [] then s else Observe(c, ObserveAll(c, s, es[..|es| - 1]), es[|es| - 1])
  }

  /** The handlers init attaches to the page with addEventListener or setInterval. */
  datatype Listener =
    | DotClick(dot: nat)  // click on dot `dot`
    | GrabStart           // mousedown, touchstart on the viewport
    | GrabMove            // mousemove, touchmove on the viewport
    | GrabEnd             // mouseleave, mouseup, touchend on the viewport
    | PrevClick
    | NextClick
    | AutoAdvance         // the interval timer

  /** The listeners init leaves attached. One click listener per dot is added
      first; the viewport, button and timer listeners follow only when the
      viewport exists, because the unguarded `view.addEventListener("mouseup", …)`
      throws otherwise. */
  function Wiring(viewFound: bool, dotCount: nat, interval: int): (w: set<Listener>)
    ensures forall d: nat :: DotClick(d) in w <==> d < dotCount
    ensures viewFound ==> {GrabStart, GrabMove, GrabEnd, PrevClick, NextClick} <= w
    ensures !viewFound ==> forall l :: l in w ==> l.DotClick?
    ensures AutoAdvance in w <==> viewFound && interval != 0
  {
    (set d: nat | d < dotCount :: DotClick(d)) +
    (if viewFound then
       {GrabStart, GrabMove, GrabEnd, PrevClick, NextClick} +
       (if interval != 0 then {AutoAdvance} else {})
     else {})
  }

  /** One event the page delivers to the controller. */
  datatype Event =
    | NextClicked              // a click on the next button
    | PrevClicked              // a click on the previous button
    | Tick                     // the auto-advance timer fires
    | DotClicked(dot: nat)     // a click on dot `dot`
    | Grabbed(x: int)          // mousedown, touchstart
    | Dragged(delta: int)      // mousemove, touchmove
    | Released                 // mouseleave, mouseup, touchend
    | Observed(entry: Entry)   // one entry of a visibility callback

  /** The listener an event goes to; visibility entries go to the observer,
      which init always sets up. */
  function ListenerOf(ev: Event): (l: Listener)
    requires !ev.Observed?
    ensures ev.DotClicked? <==> l.DotClick?
  {
    match ev
    case NextClicked => NextClick
    case PrevClicked => PrevClick
    case Tick => AutoAdvance
    case DotClicked(d) => DotClick(d)
    case Grabbed(_) => GrabStart
    case Dragged(_) => GrabMove
    case Released => GrabEnd
  }

  /** Whether the page delivers the event at all: its listener must be attached,
      and a click on a disabled button or dot delivers nothing. */
  predicate Delivered(w: set<Listener>, s: State, ev: Event)
  {
    match ev
    case Observed(_) => true
    case NextClicked => NextClick in w && !s.nextDisabled
    case PrevClicked => PrevClick in w && !s.prevDisabled
    case DotClicked(d) => DotClick(d) in w && !(d < |s.dots| && s.dots[d])
    case _ => ListenerOf(ev) in w
  }

  /** What one event does to the controller wired with `w`. */
  function Step(c: Config, w: set<Listener>, s: State, ev: Event): (r: State)
    requires Fits(c, s)
    ensures Fits(c, r) && |r.dots| == |s.dots|
    ensures !Delivered(w, s, ev) ==> r == s
    ensures r.prevDisabled ==> s.prevDisabled
    ensures r.nextDisabled ==> s.nextDisabled
    ensures c.infinite ==> r.prevDisabled == s.prevDisabled && r.nextDisabled == s.nextDisabled
  {
    if !Delivered(w, s, ev) then s
    else
      match ev
      case NextClicked => ClickNext(c, s)
      case PrevClicked => ClickPrev(c, s)
      case Tick => ClickNext(c, s)
      case DotClicked(d) => GoTo(c, s, d, false)
      case Grabbed(x) => Grab(s, x)
      case Dragged(delta) => Drag(s, delta)
      case Released => Release(s)
      case Observed(e) => Observe(c, s, e)
  }

  /** A sequence of events, in order, on the controller wired with `w`: every
      state the controller reaches from `s`. The index stays an item's index
      throughout. */
  function Run(c: Config, w: set<Listener>, s: State, evs: seq<Event>): (r: State)
    requires Fits(c, s)
    ensures Fits(c, r) && |r.dots| == |s.dots|
    decreases |evs|
  {
    if evs == [] then s else Run(c, w, Step(c, w, s, evs[0]), evs[1..])
  }

  /** The layout that click navigation keeps: the track shows slot `p`
      (its translateX is -p steps), item k sits `Slot(k, itemIndex, n)` slots after
      it, so the current item is the one in view and the items fill the `n` slots
      from `p` on; lastItemTranslate is the window's last slot after a forward
      move and its first after a backward one. */
  ghost predicate AlignedAt(c: Config, s: State, p: int)
  {
    Fits(c, s) &&
    s.offset == -(p * c.step) &&
    (forall k :: 0 <= k < |s.translates| ==>
       s.translates[k] == ItemWidth * (p + Slot(k, s.itemIndex, |c.html|))) &&
    s.lastTranslate == ItemWidth * (if s.direction == Next then p + |c.html| - 1 else p)
  }
}
