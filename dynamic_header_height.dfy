/**
 * The mobile header-height calculator (`assets/dynamic-header-height.js`).
 *
 * On mobile widths (at most 899 pixels) it sums the header's height, the
 * announcement bar's height when that bar is visible, and a 16 pixel buffer,
 * and writes the total to the `--dynamic-header-height` custom property of the
 * document element.  Resizes and DOM mutations reach it through a
 * trailing-edge debounce: every call cancels the pending timer and schedules a
 * new one, and the calculation runs when the timer fires.
 *
 * The window is given to each calculation as a value (`Window`); the 300 ms
 * timer's expiry is an explicit event.
 */
module DynamicHeaderHeight {
  import opened Dom

  /** Widest `innerWidth` that still counts as mobile. */
  const MobileMaxWidth := 899

  /** Pixels added below the header. */
  const BufferPadding := 16

  /** What one calculation reads: `window.innerWidth`, the `offsetHeight` of
      `header[id*="shopify-section-"]` and of the announcement bar, each None
      when that element is missing. */
  datatype Window = Window(innerWidth: int, headerHeight: Option<nat>, announcementHeight: Option<nat>)

  /** `isMobile`. */
  predicate IsMobile(innerWidth: int)
  {
    innerWidth <= MobileMaxWidth
  }

  /** The announcement bar exists and has a positive height. */
  predicate AnnouncementVisible(w: Window)
  {
    w.announcementHeight.Some? && w.announcementHeight.value > 0
  }

  /** The total `calculateHeaderHeight` writes, or None when it returns early. */
  function HeaderTotal(w: Window): (r: Option<int>)
    ensures r.Some? <==> IsMobile(w.innerWidth) && w.headerHeight.Some?
    ensures r.Some? ==> r.value >= w.headerHeight.value + BufferPadding
    ensures r.Some? ==> (r.value == w.headerHeight.value + BufferPadding <==> !AnnouncementVisible(w))
    ensures r.Some? && AnnouncementVisible(w) ==>
              r.value == w.headerHeight.value + w.announcementHeight.value + BufferPadding
  {
    if !IsMobile(w.innerWidth) || w.headerHeight.None? then None
    else if AnnouncementVisible(w) then Some(w.headerHeight.value + w.announcementHeight.value + BufferPadding)
    else Some(w.headerHeight.value + BufferPadding)
  }

  /** The `> 0` guard on the announcement bar never changes the sum: a bar of
      height 0 would add nothing. */
  lemma AnnouncementGuardImmaterial(w: Window)
    requires IsMobile(w.innerWidth) && w.headerHeight.Some? && w.announcementHeight.Some?
    ensures HeaderTotal(w) == Some(w.headerHeight.value + w.announcementHeight.value + BufferPadding)
  {
  }

  // ---------------------------------------------------------------------------
  // Debounce
  // ---------------------------------------------------------------------------

  /** A call of `debouncedCalculate` (a resize or a mutation), or the expiry of
      the pending timer, with the window as it is when the timer fires. */
  datatype DebounceEvent = Call | Fire(w: Window)

  /** Whether a timer is pending after the event. */
  function PendingAfter(pending: bool, e: DebounceEvent): bool
  {
    e.Call?
  }

  /** The windows that calculations read during a run of events, in order: a
      timer fires only while one is pending. */
  function Calculations(pending: bool, events: seq<DebounceEvent>): seq<Window>
    decreases |events|
  {
    if events == [] then []
    else
      (if events[0].Fire? && pending then [events[0].w] else [])
        + Calculations(PendingAfter(pending, events[0]), events[1..])
  }

  function PendingFinal(pending: bool, events: seq<DebounceEvent>): bool
    decreases |events|
  {
    if events == [] then pending else PendingFinal(PendingAfter(pending, events[0]), events[1..])
  }

  function Calls(n: nat): seq<DebounceEvent>
  {
    seq(n, _ => Call)
  }

  /** Bursts of calls, each followed by the expiry of the last one's timer. */
  function Bursts(ns: seq<nat>, ws: seq<Window>): seq<DebounceEvent>
    requires |ns| == |ws|
  {
    if ns == [] then [] else Calls(ns[0]) + [Fire(ws[0])] + Bursts(ns[1..], ws[1..])
  }

  function FireCount(events: seq<DebounceEvent>): nat
  {
    if events == [] then 0 else (if events[0].Fire? then 1 else 0) + FireCount(events[1..])
  }

  lemma {:induction false} CalculationsAppend(pending: bool, xs: seq<DebounceEvent>, ys: seq<DebounceEvent>)
    ensures Calculations(pending, xs + ys) == Calculations(pending, xs) + Calculations(PendingFinal(pending, xs), ys)
    ensures PendingFinal(pending, xs + ys) == PendingFinal(PendingFinal(pending, xs), ys)
    decreases |xs|
  {
    if xs == [] {
      assert xs + ys == ys;
    } else {
      assert (xs + ys)[1..] == xs[1..] + ys;
      CalculationsAppend(PendingAfter(pending, xs[0]), xs[1..], ys);
    }
  }

  /** Calls alone never calculate; after at least one, a timer is pending. */
  lemma {:induction false} CallsOnlySchedule(pending: bool, n: nat)
    ensures Calculations(pending, Calls(n)) == []
    ensures PendingFinal(pending, Calls(n)) == (pending || n > 0)
    decreases n
  {
    if n > 0 {
      assert Calls(n)[0] == Call && Calls(n)[1..] == Calls(n - 1);
      CallsOnlySchedule(true, n - 1);
    }
  }

  /** Each burst of one or more calls yields exactly one calculation, which
      reads the window as it is when the timer set by the burst's last call
      fires; after the run nothing is pending. */
  lemma {:induction false} OneCalculationPerBurst(pending: bool, ns: seq<nat>, ws: seq<Window>)
    requires |ns| == |ws| && forall i :: 0 <= i < |ns| ==> ns[i] > 0
    ensures Calculations(pending, Bursts(ns, ws)) == ws
    ensures ns != [] ==> !PendingFinal(pending, Bursts(ns, ws))
    decreases |ns|
  {
    if ns != [] {
      var burst := Calls(ns[0]) + [Fire(ws[0])];
      CallsOnlySchedule(pending, ns[0]);
      CalculationsAppend(pending, Calls(ns[0]), [Fire(ws[0])]);
      assert Calculations(true, [Fire(ws[0])]) == [ws[0]];
      OneCalculationPerBurst(false, ns[1..], ws[1..]);
      CalculationsAppend(pending, burst, Bursts(ns[1..], ws[1..]));
      if ns[1..] == [] {
        assert Bursts(ns, ws) == burst + [];
      }
    }
  }

  /** There are never more calculations than timer expiries. */
  lemma {:induction false} AtMostOneCalculationPerFire(pending: bool, events: seq<DebounceEvent>)
    ensures |Calculations(pending, events)| <= FireCount(events)
    decreases |events|
  {
    if events != [] {
      AtMostOneCalculationPerFire(PendingAfter(pending, events[0]), events[1..]);
    }
  }

  // ---------------------------------------------------------------------------
  // The script's state
  // ---------------------------------------------------------------------------

  class HeaderHeightCalculator {
    /** The `--dynamic-header-height` value in pixels; None until first written. */
    var cssHeight: Option<int>
    /** `debounceTimer` names a timer that has not fired yet. */
    var pending: bool

    constructor ()
      ensures cssHeight.None? && !pending
    {
      cssHeight := None;
      pending := false;
    }

    /** `calculateHeaderHeight`: the only state written is the custom property. */
    method CalculateHeaderHeight(w: Window)
      modifies this`cssHeight
      ensures cssHeight == if HeaderTotal(w).Some? then HeaderTotal(w) else old(cssHeight)
    {
      if !IsMobile(w.innerWidth) {
        return;
      }
      if w.headerHeight.None? {
        return;
      }
      var totalHeight := w.headerHeight.value;
      if w.announcementHeight.Some? && w.announcementHeight.value > 0 {
        totalHeight := totalHeight + w.announcementHeight.value;
      }
      var bufferPadding := BufferPadding;
      totalHeight := totalHeight + bufferPadding;
      cssHeight := Some(totalHeight);
    }

    /** `debouncedCalculate`: clear the pending timer and schedule a new one. */
    method DebouncedCalculate()
      modifies this`pending
      ensures pending == PendingAfter(old(pending), Call)
    {
      pending := true;
    }

    /** The pending timer fires (cleared timers never do). */
    method OnTimerFired(w: Window)
      modifies this
      ensures pending == PendingAfter(old(pending), Fire(w))
      ensures cssHeight == if old(pending) && HeaderTotal(w).Some? then HeaderTotal(w) else old(cssHeight)
    {
      if pending {
        pending := false;
        CalculateHeaderHeight(w);
      }
    }
  }
}
