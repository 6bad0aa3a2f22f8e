/** Properties of the carousel controller's transitions. */
module SliderProps {
  import opened SliderIndex
  import opened SliderSpec

  // ---------------------------------------------------------------------------
  // goToItem

  /** A call that fails the isHTMLElement guard, or dies on a missing element,
      leaves every field and every item's translateX as it was. */
  lemma GoToGuard(c: Config, s: State, index: int, isPrev: bool)
    requires |s.translates| == |c.html|
    requires GoToOutcome(c, index) != Moved
    ensures GoTo(c, s, index, isPrev) == s
  {
  }

  /** A successful goToItem moves the track by exactly one step (left going
      forward, right going back), rewrites exactly one item's translateX to the
      new lastItemTranslate, and records the direction of the call. Going the
      same way again moves lastItemTranslate by one item; turning around moves it
      by the whole ring. */
  lemma GoToMovesOneItem(c: Config, s: State, index: int, isPrev: bool)
    requires |s.translates| == |c.html|
    requires GoToOutcome(c, index) == Moved
    ensures var r := GoTo(c, s, index, isPrev);
            var k := MovedItem(|c.html|, index, isPrev);
            && r.translates[k] == r.lastTranslate
            && (forall j :: 0 <= j < |s.translates| && j != k ==> r.translates[j] == s.translates[j])
            && r.offset == (if isPrev then s.offset + c.step else s.offset - c.step)
            && r.direction == (if isPrev then Prev else Next)
            && r.lastTranslate - s.lastTranslate ==
               (if isPrev then
                  if s.direction == Next then -ItemWidth * |c.html| else -ItemWidth
                else
                  if s.direction == Prev then ItemWidth * |c.html| else ItemWidth)
  {
  }

  /** Whatever the direction state, a forward move followed by a backward one
      puts the track back where it was. */
  lemma GoToForwardBackOffset(c: Config, s: State, i: int, j: int)
    requires |s.translates| == |c.html|
    requires GoToOutcome(c, i) == Moved && GoToOutcome(c, j) == Moved
    ensures GoTo(c, GoTo(c, s, i, false), j, true).offset == s.offset
  {
  }

  // ---------------------------------------------------------------------------
  // The buttons

  /** onClickNext updates the index before calling goToItem, so when the move is
      refused the index has advanced while nothing else changed. */
  lemma RefusedClickNext(c: Config, s: State)
    requires Fits(c, s)
    requires GoToOutcome(c, NextIndex(s.itemIndex, |c.html|)) != Moved
    ensures ClickNext(c, s) == s.(itemIndex := NextIndex(s.itemIndex, |c.html|))
  {
  }

  /** The same for onClickPrev. */
  lemma RefusedClickPrev(c: Config, s: State)
    requires Fits(c, s)
    requires GoToOutcome(c, PrevIndex(s.itemIndex, |c.html|)) != Moved
    ensures ClickPrev(c, s) == s.(itemIndex := PrevIndex(s.itemIndex, |c.html|))
  {
  }

  /** Moving the window start on by one shortens every other item's distance by
      one and puts the item that was first at the end. */
  lemma SlotAfterNext(k: int, i: int, n: int)
    requires 0 <= k < n && 0 <= i < n
    ensures Slot(k, NextIndex(i, n), n) == if k == i then n - 1 else Slot(k, i, n) - 1
  {
  }

  /** Moving the window start back by one lengthens every other item's distance
      by one and puts the item that was last at the front. */
  lemma SlotAfterPrev(k: int, i: int, n: int)
    requires 0 <= k < n && 0 <= i < n
    ensures Slot(k, PrevIndex(i, n), n) == if k == PrevIndex(i, n) then 0 else Slot(k, i, n) + 1
  {
  }

  /** Init lays the items out aligned with the track at slot 0. */
  lemma InitialAligned(c: Config, dotCount: nat)
    requires |c.html| > 0
    ensures AlignedAt(c, Initial(|c.html|, dotCount), 0)
  {
    var n := |c.html|;
    var s := Initial(n, dotCount);
    forall k | 0 <= k < n
      ensures s.translates[k] == ItemWidth * (0 + Slot(k, 0, n))
    {
    }
  }

  /** From an aligned layout, a successful onClickNext slides the track one slot
      on and moves only the item that just left the view to the far end, so the
      layout stays aligned and the new current item is the one in view. */
  lemma ClickNextAligned(c: Config, s: State, p: int)
    requires AlignedAt(c, s, p)
    requires GoToOutcome(c, NextIndex(s.itemIndex, |c.html|)) == Moved
    ensures AlignedAt(c, ClickNext(c, s), p + 1)
  {
    var n, i := |c.html|, s.itemIndex;
    var i' := NextIndex(i, n);
    var r := ClickNext(c, s);
    assert MovedItem(n, i', false) == i;
    assert r.lastTranslate == ItemWidth * (p + n);
    forall k | 0 <= k < n
      ensures r.translates[k] == ItemWidth * (p + 1 + Slot(k, i', n))
    {
      SlotAfterNext(k, i, n);
    }
    assert (p + 1) * c.step == p * c.step + c.step;
  }

  /** From an aligned layout, a successful onClickPrev slides the track one slot
      back and moves only the item coming into view to the front. */
  lemma ClickPrevAligned(c: Config, s: State, p: int)
    requires AlignedAt(c, s, p)
    requires GoToOutcome(c, PrevIndex(s.itemIndex, |c.html|)) == Moved
    ensures AlignedAt(c, ClickPrev(c, s), p - 1)
  {
    var n, i := |c.html|, s.itemIndex;
    var i' := PrevIndex(i, n);
    var r := ClickPrev(c, s);
    assert r.lastTranslate == ItemWidth * (p - 1);
    forall k | 0 <= k < n
      ensures r.translates[k] == ItemWidth * (p - 1 + Slot(k, i', n))
    {
      SlotAfterPrev(k, i, n);
    }
    assert (p - 1) * c.step == p * c.step - c.step;
  }

  /** Two aligned states at the same slot with the same current item and the same
      direction bookkeeping are equal in everything the layout fixes. */
  lemma AlignedDetermines(c: Config, s: State, t: State, p: int)
    requires AlignedAt(c, s, p) && AlignedAt(c, t, p)
    requires s.itemIndex == t.itemIndex
    ensures s.translates == t.translates && s.offset == t.offset
  {
    assert forall k :: 0 <= k < |s.translates| ==> s.translates[k] == t.translates[k];
  }

  /** onClickNext then onClickPrev restores the layout, the index and the track;
      only the direction bookkeeping is left as a backward move leaves it. */
  lemma NextThenPrev(c: Config, s: State, p: int)
    requires AlignedAt(c, s, p) && Usable(c)
    ensures ClickPrev(c, ClickNext(c, s)) == s.(direction := Prev, lastTranslate := ItemWidth * p)
  {
    var n := |c.html|;
    var m := ClickNext(c, s);
    ClickNextAligned(c, s, p);
    NextPrevInverse(s.itemIndex, n);
    var r := ClickPrev(c, m);
    ClickPrevAligned(c, m, p + 1);
    AlignedDetermines(c, r, s.(direction := Prev, lastTranslate := ItemWidth * p), p);
  }

  /** onClickPrev then onClickNext restores the layout, the index and the track;
      the direction bookkeeping is left as a forward move leaves it. */
  lemma PrevThenNext(c: Config, s: State, p: int)
    requires AlignedAt(c, s, p) && Usable(c)
    ensures ClickNext(c, ClickPrev(c, s)) ==
            s.(direction := Next, lastTranslate := ItemWidth * (p + |c.html| - 1))
  {
    var n := |c.html|;
    var m := ClickPrev(c, s);
    ClickPrevAligned(c, s, p);
    NextPrevInverse(s.itemIndex, n);
    var r := ClickNext(c, m);
    ClickNextAligned(c, m, p - 1);
    AlignedDetermines(c, r, s.(direction := Next, lastTranslate := ItemWidth * (p + n - 1)), p);
  }

  /** `m` consecutive onClickNext calls: auto-advance after `m` ticks. */
  function ClickNextTimes(c: Config, s: State, m: nat): (r: State)
    requires Fits(c, s)
    ensures Fits(c, r)
    decreases m
  {
    if m == 0 then s else ClickNext(c, ClickNextTimes(c, s, m - 1))
  }

  /** After `m` forward clicks (at most one full round) the layout is still
      aligned, `m` slots further on, and the index has moved `m` items forward
      with wraparound. */
  lemma {:induction false} ClickNextTimesAligned(c: Config, s: State, p: int, m: nat)
    requires AlignedAt(c, s, p) && Usable(c)
    requires m <= |c.html|
    ensures AlignedAt(c, ClickNextTimes(c, s, m), p + m)
    ensures ClickNextTimes(c, s, m).itemIndex ==
            if s.itemIndex + m < |c.html| then s.itemIndex + m else s.itemIndex + m - |c.html|
    decreases m
  {
    if m > 0 {
      ClickNextTimesAligned(c, s, p, m - 1);
      ClickNextAligned(c, ClickNextTimes(c, s, m - 1), p + m - 1);
    }
  }

  /** A full round of `n` forward clicks brings the same item back into view, the
      track `n` steps further left, and every item exactly one ring (100·n) further
      right: the same picture, shifted. */
  lemma FullCycle(c: Config, s: State, p: int)
    requires AlignedAt(c, s, p) && Usable(c)
    ensures var n := |c.html|;
            var r := ClickNextTimes(c, s, n);
            && r.itemIndex == s.itemIndex
            && r.offset == s.offset - n * c.step
            && r.direction == Next
            && forall k :: 0 <= k < n ==> r.translates[k] == s.translates[k] + ItemWidth * n
  {
    var n := |c.html|;
    ClickNextTimesAligned(c, s, p, n);
    var r := ClickNextTimes(c, s, n);
    assert (p + n) * c.step == p * c.step + n * c.step;
    assert r.direction == Next by {
      assert r == ClickNext(c, ClickNextTimes(c, s, n - 1));
    }
  }

  // ---------------------------------------------------------------------------
  // Dragging

  /** During one drag the track follows the pointer's total travel from the grab,
      not the sum of the moves: a later move replaces an earlier one. */
  lemma DragIsAbsolute(s: State, x: int, d1: int, d2: int)
    ensures Drag(Drag(Grab(s, x), d1), d2) == Drag(Grab(s, x), d2)
    ensures Drag(Grab(s, x), d2).offset == s.offset + d2
  {
  }

  /** Grab, move, release: the track stays where the drag left it and the
      controller is idle again. */
  lemma GrabDragRelease(s: State, x: int, d: int)
    ensures var r := Release(Drag(Grab(s, x), d));
            !r.dragging && r.startX == 0 && r.offset == s.offset + d
  {
  }

  /** Nothing stops a button click or an auto-advance tick during a drag; the
      next pointer move then sets the track from the offset saved at the grab,
      undoing the click's step on the track (but not its item repositioning). */
  lemma DragOverridesNavigation(c: Config, s: State, x: int, d: int)
    requires Fits(c, s)
    ensures var t := Grab(s, x);
            Drag(ClickNext(c, t), d).offset == s.offset + d &&
            Drag(ClickNext(c, t), d).translates == ClickNext(c, t).translates
  {
  }

  // ---------------------------------------------------------------------------
  // The visibility callback

  /** Over any batch of entries a button only ever becomes enabled, and it does
      so exactly when the batch names its boundary item (index 0 for prev, the
      last index for next) and the carousel is not infinite. Whether that item is
      entering or leaving the view does not matter. */
  lemma {:induction false} ObserveAllButtons(c: Config, s: State, es: seq<Entry>)
    ensures ObserveAll(c, s, es).prevDisabled ==
            (s.prevDisabled && (c.infinite || forall j :: 0 <= j < |es| ==> es[j].index != 0))
    ensures ObserveAll(c, s, es).nextDisabled ==
            (s.nextDisabled && (c.infinite || forall j :: 0 <= j < |es| ==> es[j].index != |c.html| - 1))
    decreases |es|
  {
    if es != [] {
      var init := es[..|es| - 1];
      ObserveAllButtons(c, s, init);
      assert forall j :: 0 <= j < |init| ==> init[j] == es[j];
    }
  }

  /** Over any batch of entries, each dot ends up disabled exactly when the
      latest entry for its item says the item is in view; a dot whose item is
      not named keeps its attribute. */
  lemma {:induction false} ObserveAllDots(c: Config, s: State, es: seq<Entry>)
    ensures |ObserveAll(c, s, es).dots| == |s.dots|
    ensures forall d :: 0 <= d < |s.dots| && (forall j :: 0 <= j < |es| ==> es[j].index != d) ==>
              ObserveAll(c, s, es).dots[d] == s.dots[d]
    ensures forall j :: 0 <= j < |es| && 0 <= es[j].index < |s.dots| &&
                        (forall l :: j < l < |es| ==> es[l].index != es[j].index) ==>
              ObserveAll(c, s, es).dots[es[j].index] == es[j].intersecting
    decreases |es|
  {
    if es != [] {
      var init := es[..|es| - 1];
      ObserveAllDots(c, s, init);
      assert forall j :: 0 <= j < |init| ==> init[j] == es[j];
    }
  }

  /** The buttons are rendered disabled and no event ever disables them again;
      with `infinite` set no event touches them at all. */
  lemma {:induction false} RunNeverDisablesButtons(c: Config, w: set<Listener>, s: State, evs: seq<Event>)
    requires Fits(c, s)
    ensures Run(c, w, s, evs).prevDisabled ==> s.prevDisabled
    ensures Run(c, w, s, evs).nextDisabled ==> s.nextDisabled
    ensures c.infinite ==> Run(c, w, s, evs).prevDisabled == s.prevDisabled &&
                           Run(c, w, s, evs).nextDisabled == s.nextDisabled
    decreases |evs|
  {
    if evs != [] {
      RunNeverDisablesButtons(c, w, Step(c, w, s, evs[0]), evs[1..]);
    }
  }

  /** The events that are not clicks on the previous or next button, each kept
      as often as it occurs. */
  function WithoutButtonClicks(evs: seq<Event>): (r: seq<Event>)
    ensures |r| <= |evs|
    ensures forall j :: 0 <= j < |r| ==> !r[j].PrevClicked? && !r[j].NextClicked?
    ensures forall e: Event :: !e.PrevClicked? && !e.NextClicked? ==> multiset(r)[e] == multiset(evs)[e]
  {
    assert evs != [] ==> evs == [evs[0]] + evs[1..];
    if evs == [] then []
    else if evs[0].PrevClicked? || evs[0].NextClicked? then WithoutButtonClicks(evs[1..])
    else [evs[0]] + WithoutButtonClicks(evs[1..])
  }

  /** An infinite carousel keeps both buttons disabled as rendered, so clicking
      them never reaches onClickPrev or onClickNext: any run behaves as if the
      button clicks were not there. */
  lemma {:induction false} InfiniteButtonsInert(c: Config, w: set<Listener>, s: State, evs: seq<Event>)
    requires Fits(c, s) && c.infinite && s.prevDisabled && s.nextDisabled
    ensures Run(c, w, s, evs) == Run(c, w, s, WithoutButtonClicks(evs))
    decreases |evs|
  {
    if evs != [] {
      var t := Step(c, w, s, evs[0]);
      InfiniteButtonsInert(c, w, t, evs[1..]);
      if !(evs[0].PrevClicked? || evs[0].NextClicked?) {
        var rest := WithoutButtonClicks(evs[1..]);
        assert WithoutButtonClicks(evs) == [evs[0]] + rest;
        assert ([evs[0]] + rest)[1..] == rest;
      }
    }
  }

  // ---------------------------------------------------------------------------
  // Dot clicks

  /** A dot click calls goToItem(i) without touching the index and always takes
      the forward path. With three items laid out from init, clicking dot 2 (a dot
      the page leaves enabled) moves item 1 out to slot 3 and slides the track to
      slot 1, which is now empty, while the index still says item 0. */
  lemma DotClickMisplaces(c: Config)
    requires c == Config([true, true, true], 50, true, false)
    ensures var s := Initial(3, 3);
            var r := GoTo(c, s, 2, false);
            && !s.dots[2]
            && r.itemIndex == 0
            && r.offset == -(1 * c.step)
            && r.translates == [0, 300, 200]
            && (forall k :: 0 <= k < 3 ==> r.translates[k] != 100)
            && (forall p :: !AlignedAt(c, r, p))
  {
    var s := Initial(3, 3);
    var r := GoTo(c, s, 2, false);
    assert s.translates == [0, 100, 200];
    assert r.translates == [0, 300, 200];
    forall p
      ensures !AlignedAt(c, r, p)
    {
      assert Slot(0, 0, 3) == 0;
    }
  }
}
