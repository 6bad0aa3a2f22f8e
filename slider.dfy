/** The carousel controller that init builds inside the page's load handler: its
    closure variables become fields, the items' transforms an array, the dots'
    disabled attributes another, and each event handler a method proved to make
    the transition that SliderSpec describes. */
module Slider {
  import opened SliderIndex
  import opened SliderSpec
  import opened SliderProps

  class Carousel {
    const html: seq<bool>          // which items pass the isHTMLElement test
    const step: int                // one item's width in percent of the viewport
    const viewFound: bool
    const infinite: bool
    const translates: array<int>   // each item's translateX
    const dots: array<bool>        // each dot's disabled attribute
    const wired: set<Listener>

    var itemIndex: int
    var offset: int                // percentOfTranlateX
    var dragOrigin: int            // prevPercentOfTranlateX
    var lastTranslate: int         // lastItemTranslate
    var direction: Direction       // currentDirection
    var startX: int
    var dragging: bool             // isDragging
    var prevDisabled: bool
    var nextDisabled: bool

    function Cfg(): Config
    {
      Config(html, step, viewFound, infinite)
    }

    ghost predicate Valid()
      reads this
    {
      translates.Length == |html| > 0 && 0 <= itemIndex < |html|
    }

    ghost function Model(): State
      reads this, translates, dots
    {
      State(itemIndex, offset, dragOrigin, lastTranslate, direction, startX, dragging,
            translates[..], dots[..], prevDisabled, nextDisabled)
    }

    /** The part of init after its guard: lay the items out, set the closure
        variables, wire the dots and then the viewport, buttons and timer, as
        `Wiring` describes. */
    constructor (html: seq<bool>, step: int, viewFound: bool, dotCount: nat,
                 interval: int, infinite: bool)
      requires |html| > 0
      ensures Valid() && fresh(translates) && fresh(dots)
      ensures Cfg() == Config(html, step, viewFound, infinite)
      ensures Model() == Initial(|html|, dotCount)
      ensures wired == Wiring(viewFound, dotCount, interval)
    {
      var n := |html|;
      var ts := new int[n];
      for i := 0 to n
        invariant forall k :: 0 <= k < i ==> ts[k] == ItemWidth * k
      {
        ts[i] := ItemWidth * i;
      }
      var w: set<Listener> := {};
      for it := 0 to dotCount
        invariant w == set d: nat | d < it :: DotClick(d)
      {
        w := w + {DotClick(it)};
      }
      if viewFound {
        w := w + {GrabStart, GrabMove, GrabEnd, PrevClick, NextClick};
        if interval != 0 {
          w := w + {AutoAdvance};
        }
      }
      this.html := html;
      this.step := step;
      this.viewFound := viewFound;
      this.infinite := infinite;
      translates := ts;
      dots := new bool[dotCount](_ => false);
      wired := w;
      itemIndex := 0;
      offset := 0;
      dragOrigin := 0;
      lastTranslate := (n - 1) * ItemWidth;
      direction := Next;
      startX := 0;
      dragging := false;
      prevDisabled := true;
      nextDisabled := true;
      new;
      assert translates[..] == Initial(n, dotCount).translates;
      assert dots[..] == Initial(n, dotCount).dots;
    }

    /** goToItem(index, isPrev). */
    method GoToItem(index: int, isPrev: bool) returns (outcome: Outcome)
      requires Valid()
      modifies this, translates
      ensures Valid()
      ensures outcome == GoToOutcome(Cfg(), index)
      ensures Model() == GoTo(Cfg(), old(Model()), index, isPrev)
    {
      var n := translates.Length;
      if !(0 <= index < n) {
        return Threw;
      }
      if !html[index] {
        return NotHtml;
      }
      if !viewFound {
        return Threw;
      }
      if isPrev {
        if direction == Next {
          lastTranslate := lastTranslate - ItemWidth * n;
          direction := Prev;
        } else {
          lastTranslate := lastTranslate - ItemWidth;
        }
        translates[index] := lastTranslate;
        offset := offset + step;
      } else {
        var k := if index == 0 then n - 1 else index - 1;
        if direction == Prev {
          lastTranslate := lastTranslate + ItemWidth * n;
          direction := Next;
        } else {
          lastTranslate := lastTranslate + ItemWidth;
        }
        translates[k] := lastTranslate;
        offset := offset - step;
      }
      outcome := Moved;
    }

    /** onClickPrev. */
    method OnClickPrev()
      requires Valid()
      modifies this, translates
      ensures Valid()
      ensures Model() == ClickPrev(Cfg(), old(Model()))
    {
      var prevIndex := JsRem(itemIndex - 1, translates.Length);
      itemIndex := if prevIndex < 0 then translates.Length - 1 else prevIndex;
      var _ := GoToItem(itemIndex, true);
    }

    /** onClickNext, also what every auto-advance tick runs. */
    method OnClickNext()
      requires Valid()
      modifies this, translates
      ensures Valid()
      ensures Model() == ClickNext(Cfg(), old(Model()))
    {
      var nextIndex := JsRem(itemIndex + 1, translates.Length);
      itemIndex := nextIndex;
      var _ := GoToItem(itemIndex, false);
    }

    /** The click listener of dot `dot`: goToItem(dot) with no direction hint. */
    method OnClickDot(dot: int)
      requires Valid()
      modifies this, translates
      ensures Valid()
      ensures Model() == GoTo(Cfg(), old(Model()), dot, false)
    {
      var _ := GoToItem(dot, false);
    }

    /** What a dot click is meant to do: bring item `target` into view. It steps
        forward with onClickNext until the index reaches the target, so the index
        and the layout stay in agreement. An index that names no item changes
        nothing. */
    method JumpToItem(target: int, ghost p: int) returns (steps: nat)
      requires Valid()
      modifies this, translates
      ensures Valid()
      ensures Model() == ClickNextTimes(Cfg(), old(Model()), steps)
      ensures 0 <= target < |html| ==>
                itemIndex == target && steps == Slot(target, old(itemIndex), |html|)
      ensures !(0 <= target < |html|) ==> steps == 0
      ensures Usable(Cfg()) && AlignedAt(Cfg(), old(Model()), p) ==>
                AlignedAt(Cfg(), Model(), p + steps)
    {
      steps := 0;
      if !(0 <= target < translates.Length) {
        return;
      }
      var n := translates.Length;
      while itemIndex != target
        invariant Valid()
        invariant Model() == ClickNextTimes(Cfg(), old(Model()), steps)
        invariant steps + Slot(target, itemIndex, n) == Slot(target, old(itemIndex), n)
        decreases Slot(target, itemIndex, n)
      {
        SlotAfterNext(target, itemIndex, n);
        OnClickNext();
        steps := steps + 1;
      }
      if Usable(Cfg()) && AlignedAt(Cfg(), old(Model()), p) {
        ClickNextTimesAligned(Cfg(), old(Model()), p, steps);
      }
    }

    /** startGrab, with `x` the pointer's position. */
    method StartGrab(x: int)
      requires Valid()
      modifies this
      ensures Valid()
      ensures Model() == Grab(old(Model()), x)
    {
      startX := x;
      dragOrigin := offset;
      dragging := true;
    }

    /** endGrab. */
    method EndGrab()
      requires Valid()
      modifies this
      ensures Valid()
      ensures Model() == Release(old(Model()))
    {
      dragging := false;
      startX := 0;
    }

    /** moveCarousel, with `delta` the pointer's travel since the grab in percent
        of the viewport's width. */
    method MoveCarousel(delta: int)
      requires Valid()
      modifies this
      ensures Valid()
      ensures Model() == Drag(old(Model()), delta)
    {
      if dragging {
        offset := dragOrigin + delta;
      }
    }

    /** The visibility callback's body for one entry. */
    method OnObserve(e: Entry)
      requires Valid()
      modifies this, dots
      ensures Valid()
      ensures Model() == Observe(Cfg(), old(Model()), e)
    {
      if 0 <= e.index < dots.Length {
        if e.intersecting {
          dots[e.index] := true;
        } else {
          dots[e.index] := false;
        }
      }
      if !infinite {
        if e.index == 0 {
          prevDisabled := false;
        }
        if e.index == translates.Length - 1 {
          nextDisabled := false;
        }
      }
    }

    /** The visibility callback: its body for each entry of the batch, in order. */
    method OnObserveBatch(es: seq<Entry>)
      requires Valid()
      modifies this, dots
      ensures Valid()
      ensures Model() == ObserveAll(Cfg(), old(Model()), es)
    {
      for i := 0 to |es|
        invariant Valid()
        invariant Model() == ObserveAll(Cfg(), old(Model()), es[..i])
      {
        assert es[..i + 1][..i] == es[..i];
        OnObserve(es[i]);
      }
      assert es[..|es|] == es;
    }
  }

  /** init: look up the root, the track and the items; with any of them missing,
      or no items at all, warn and set up nothing. */
  method Init(rootFound: bool, sliderFound: bool, viewFound: bool, html: seq<bool>,
              step: int, dotCount: nat, interval: int, infinite: bool)
    returns (c: Carousel?)
    ensures c == null <==> !rootFound || !sliderFound || |html| == 0
    ensures c != null ==> fresh(c) && fresh(c.translates) && fresh(c.dots) && c.Valid()
    ensures c != null ==> c.Cfg() == Config(html, step, viewFound, infinite)
    ensures c != null ==> c.Model() == Initial(|html|, dotCount)
    ensures c != null ==> c.wired == Wiring(viewFound, dotCount, interval)
  {
    if !rootFound || !sliderFound || |html| == 0 {
      return null;
    }
    c := new Carousel(html, step, viewFound, dotCount, interval, infinite);
  }
}
