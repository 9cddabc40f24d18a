/**
 * The sticky ingredients navigation (`assets/ingredients-navigation.js`).
 *
 * At construction the component registers, in link order, every
 * `.ingredients-navigation__link` whose `data-product-handle` names an element
 * of the document.  On scroll (throttled, leading edge) it computes for every
 * registered section the fraction of its height inside the viewport, selects
 * the most visible one (earliest wins a tie) and marks only that section's
 * link with `ingredients-navigation__link--active`.  A click on a link scrolls
 * to the target's `offsetTop` less the header height and 20 pixels.
 *
 * Geometry is in integer pixels; ratios are exact reals.  The DOM is given to
 * each operation as a value (`Document`, the bounding rectangles of the
 * registered sections), and the throttle's `setTimeout` expiry is an explicit
 * event.
 */
module IngredientsNavigation {
  import opened Dom

  /** Pixels left between the header and a section scrolled to by a click. */
  const BreathingRoom := 20

  /** A `.ingredients-navigation__link`: its `data-product-handle` attribute. */
  datatype Link = Link(productHandle: Option<string>)

  /** An element of the document: its id and its `offsetTop`. */
  datatype Element = Element(id: string, offsetTop: int)

  /** The document as the component reads it: its elements in tree order and
      the `offsetHeight` of `.shopify-section-header`, if there is one. */
  datatype Document = Document(elements: seq<Element>, header: Option<nat>)

  function Ids(elements: seq<Element>): seq<string>
  {
    seq(|elements|, i requires 0 <= i < |elements| => elements[i].id)
  }

  /** `document.getElementById(key)`, as an index into `doc.elements`. */
  function Resolve(doc: Document, key: string): Option<nat>
  {
    GetElementById(Ids(doc.elements), key)
  }

  /** An entry of `this.sections`: the element found, the position of its link
      among the navigation links, and the handle that found it. */
  datatype Section = Section(element: nat, link: nat, handle: string)

  /** True iff some registered section belongs to navigation link `l`. */
  predicate HasLink(sections: seq<Section>, l: nat)
  {
    exists k :: 0 <= k < |sections| && sections[k].link == l
  }

  // ---------------------------------------------------------------------------
  // Registration
  // ---------------------------------------------------------------------------

  /** The entry that link `i` contributes, if its handle is truthy and resolves. */
  function EntryFor(links: seq<Link>, doc: Document, i: nat): Option<Section>
    requires i < |links|
  {
    var handle := links[i].productHandle;
    if !Truthy(handle) then None
    else
      match Resolve(doc, handle.value)
      case None => None
      case Some(e) => Some(Section(e, i, handle.value))
  }

  /** The sections registered after the first `n` links have been scanned. */
  function Registered(links: seq<Link>, doc: Document, n: nat): (r: seq<Section>)
    requires n <= |links|
    ensures |r| <= n
    ensures forall k :: 0 <= k < |r| ==> r[k].link < n
  {
    if n == 0 then []
    else
      var entry := EntryFor(links, doc, n - 1);
      Registered(links, doc, n - 1) + (if entry.Some? then [entry.value] else [])
  }

  /** The entry carries its link's non-empty handle and the element that
      handle resolves to. */
  predicate EntryResolves(links: seq<Link>, doc: Document, s: Section)
  {
    && s.link < |links|
    && s.handle != ""
    && links[s.link].productHandle == Some(s.handle)
    && Resolve(doc, s.handle) == Some(s.element)
  }

  /** Every registered entry resolves. */
  lemma {:induction false} RegisteredEntriesResolve(links: seq<Link>, doc: Document, n: nat)
    requires n <= |links|
    ensures forall k :: 0 <= k < |Registered(links, doc, n)| ==>
      EntryResolves(links, doc, Registered(links, doc, n)[k])
    decreases n
  {
    if n > 0 {
      RegisteredEntriesResolve(links, doc, n - 1);
      var prev := Registered(links, doc, n - 1);
      var r := Registered(links, doc, n);
      var entry := EntryFor(links, doc, n - 1);
      assert r == prev + (if entry.Some? then [entry.value] else []);
      forall k | 0 <= k < |r|
        ensures EntryResolves(links, doc, r[k])
      {
        if k < |prev| {
          assert r[k] == prev[k];
        } else {
          assert r[k] == entry.value;
        }
      }
    }
  }

  /** Registered entries are in strictly increasing link order. */
  lemma {:induction false} RegisteredInLinkOrder(links: seq<Link>, doc: Document, n: nat)
    requires n <= |links|
    ensures forall k1, k2 :: 0 <= k1 < k2 < |Registered(links, doc, n)| ==>
      Registered(links, doc, n)[k1].link < Registered(links, doc, n)[k2].link
    decreases n
  {
    if n > 0 {
      RegisteredInLinkOrder(links, doc, n - 1);
      var prev := Registered(links, doc, n - 1);
      var r := Registered(links, doc, n);
      var entry := EntryFor(links, doc, n - 1);
      assert r == prev + (if entry.Some? then [entry.value] else []);
      forall k1, k2 | 0 <= k1 < k2 < |r|
        ensures r[k1].link < r[k2].link
      {
        assert r[k1] == prev[k1];
        if k2 >= |prev| {
          assert r[k2] == entry.value;
        } else {
          assert r[k2] == prev[k2];
        }
      }
    }
  }

  /** Link `i` among the first `n` is registered iff its handle is non-empty
      and resolves. */
  lemma {:induction false} RegisteredCoversResolvingLinks(links: seq<Link>, doc: Document, n: nat)
    requires n <= |links|
    ensures forall i :: 0 <= i < n ==>
      (HasLink(Registered(links, doc, n), i) <==>
         Truthy(links[i].productHandle) && Resolve(doc, links[i].productHandle.value).Some?)
    decreases n
  {
    if n > 0 {
      RegisteredCoversResolvingLinks(links, doc, n - 1);
      var prev := Registered(links, doc, n - 1);
      var r := Registered(links, doc, n);
      var entry := EntryFor(links, doc, n - 1);
      assert r == prev + (if entry.Some? then [entry.value] else []);
      forall i | 0 <= i < n
        ensures HasLink(r, i) <==>
                  Truthy(links[i].productHandle) && Resolve(doc, links[i].productHandle.value).Some?
      {
        if HasLink(r, i) {
          var k :| 0 <= k < |r| && r[k].link == i;
          if k < |prev| {
            assert prev[k].link == i;
          }
        }
        if i < n - 1 && HasLink(prev, i) {
          var k :| 0 <= k < |prev| && prev[k].link == i;
          assert r[k].link == i;
        }
        if i == n - 1 && entry.Some? {
          assert r[|prev|].link == i;
        }
      }
    }
  }

  /** Registration keeps exactly the links whose handle is non-empty and names
      an element, each once, in link order, with the element found for it. */
  lemma RegistrationFilters(links: seq<Link>, doc: Document, n: nat)
    requires n <= |links|
    ensures var r := Registered(links, doc, n);
      && (forall k :: 0 <= k < |r| ==>
            && r[k].handle != ""
            && links[r[k].link].productHandle == Some(r[k].handle)
            && Resolve(doc, r[k].handle) == Some(r[k].element))
      && (forall k1, k2 :: 0 <= k1 < k2 < |r| ==> r[k1].link < r[k2].link)
      && (forall i :: 0 <= i < n ==>
            (HasLink(r, i) <==>
               Truthy(links[i].productHandle) && Resolve(doc, links[i].productHandle.value).Some?))
  {
    RegisteredEntriesResolve(links, doc, n);
    RegisteredInLinkOrder(links, doc, n);
    RegisteredCoversResolvingLinks(links, doc, n);
  }

  /** `init`'s loop over the navigation links, pushing each resolved one. */
  method CollectSections(links: seq<Link>, doc: Document) returns (sections: seq<Section>)
    ensures sections == Registered(links, doc, |links|)
  {
    sections := [];
    for i := 0 to |links|
      invariant sections == Registered(links, doc, i)
    {
      var handle := links[i].productHandle;
      if handle.Some? && handle.value != "" {
        var section := Resolve(doc, handle.value);
        if section.Some? {
          sections := sections + [Section(section.value, i, handle.value)];
        }
      }
    }
  }

  // ---------------------------------------------------------------------------
  // Visibility
  // ---------------------------------------------------------------------------

  /** `getBoundingClientRect()` of a section: top relative to the viewport, and height. */
  datatype Rect = Rect(top: int, height: nat)

  /** A JavaScript quotient `visibleHeight / rect.height`: NaN when the height is 0. */
  datatype Ratio = NaN | Fraction(value: real)

  function Max(a: int, b: int): int { if a >= b then a else b }

  function Min(a: int, b: int): int { if a <= b then a else b }

  /** Pixels of the section between `scrollTop` and `scrollTop + windowHeight`. */
  function VisibleHeight(scrollTop: int, windowHeight: nat, rect: Rect): (v: nat)
    ensures v <= rect.height
  {
    var sectionTop := rect.top + scrollTop;
    var sectionBottom := sectionTop + rect.height;
    var visibleTop := Max(scrollTop, sectionTop);
    var visibleBottom := Min(scrollTop + windowHeight, sectionBottom);
    if visibleBottom - visibleTop > 0 then visibleBottom - visibleTop else 0
  }

  function VisibilityRatio(scrollTop: int, windowHeight: nat, rect: Rect): (r: Ratio)
    ensures r.NaN? <==> rect.height == 0
    ensures r.Fraction? ==> 0.0 <= r.value <= 1.0
  {
    if rect.height == 0 then NaN
    else
      var v := VisibleHeight(scrollTop, windowHeight, rect);
      QuotientInUnitInterval(v as real, rect.height as real);
      Fraction(v as real / rect.height as real)
  }

  /** A quotient of a non-negative amount by a larger positive one lies in [0, 1]. */
  lemma QuotientInUnitInterval(a: real, b: real)
    requires 0.0 <= a <= b && b > 0.0
    ensures 0.0 <= a / b <= 1.0
  {
    assert (a / b) * b == a;
  }

  lemma QuotientBelowOne(a: real, b: real)
    requires 0.0 <= a < b
    ensures a / b < 1.0
  {
    assert (a / b) * b == a;
  }

  function Ratios(rects: seq<Rect>, scrollTop: int, windowHeight: nat): seq<Ratio>
  {
    seq(|rects|, i requires 0 <= i < |rects| => VisibilityRatio(scrollTop, windowHeight, rects[i]))
  }

  predicate WhollyInside(windowHeight: nat, rect: Rect)
  {
    0 <= rect.top && rect.top + rect.height <= windowHeight
  }

  predicate WhollyOutside(windowHeight: nat, rect: Rect)
  {
    rect.top + rect.height <= 0 || windowHeight <= rect.top
  }

  /** The ratio does not depend on the scroll position: `sectionTop` adds back
      the `scrollTop` that the viewport-relative rectangle took away. */
  lemma RatioIgnoresScroll(scrollTop1: int, scrollTop2: int, windowHeight: nat, rect: Rect)
    ensures VisibilityRatio(scrollTop1, windowHeight, rect) == VisibilityRatio(scrollTop2, windowHeight, rect)
  {
    assert VisibleHeight(scrollTop1, windowHeight, rect) == VisibleHeight(0, windowHeight, rect);
    assert VisibleHeight(scrollTop2, windowHeight, rect) == VisibleHeight(0, windowHeight, rect);
  }

  /** A section of positive height has ratio 1 exactly when it lies wholly inside the viewport. */
  lemma RatioOneIffWhollyInside(scrollTop: int, windowHeight: nat, rect: Rect)
    requires rect.height > 0
    ensures VisibilityRatio(scrollTop, windowHeight, rect) == Fraction(1.0) <==> WhollyInside(windowHeight, rect)
  {
    var v := VisibleHeight(scrollTop, windowHeight, rect);
    var h := rect.height as real;
    if v < rect.height {
      QuotientBelowOne(v as real, h);
    }
  }

  /** A section of positive height wholly above or below the viewport has ratio 0. */
  lemma WhollyOutsideHasRatioZero(scrollTop: int, windowHeight: nat, rect: Rect)
    requires rect.height > 0 && WhollyOutside(windowHeight, rect)
    ensures VisibilityRatio(scrollTop, windowHeight, rect) == Fraction(0.0)
  {
    assert VisibleHeight(scrollTop, windowHeight, rect) == 0;
  }

  /** Row `y` of the viewport (0 is its top edge) is covered by the section. */
  predicate CoversRow(rect: Rect, y: int)
  {
    rect.top <= y < rect.top + rect.height
  }

  predicate InViewport(windowHeight: nat, y: int)
  {
    0 <= y < windowHeight
  }

  /** A section of positive height has a positive ratio exactly when some row
      of the viewport shows part of it. */
  lemma RatioPositiveIffSharesRow(scrollTop: int, windowHeight: nat, rect: Rect)
    requires rect.height > 0
    ensures Exceeds(VisibilityRatio(scrollTop, windowHeight, rect), 0.0) <==>
              exists y :: CoversRow(rect, y) && InViewport(windowHeight, y)
  {
    var v := VisibleHeight(scrollTop, windowHeight, rect);
    var h := rect.height as real;
    RatioIgnoresScroll(scrollTop, 0, windowHeight, rect);
    if v > 0 {
      assert v as real > 0.0;
      assert v as real / h > 0.0;
      var y := Max(0, rect.top);
      assert CoversRow(rect, y) && InViewport(windowHeight, y);
    } else {
      assert v as real / h == 0.0;
      forall y | CoversRow(rect, y)
        ensures !InViewport(windowHeight, y)
      {
      }
    }
  }

  // ---------------------------------------------------------------------------
  // Selection
  // ---------------------------------------------------------------------------

  /** `visibilityRatio > maxVisibility` in JavaScript: NaN compares false. */
  predicate Exceeds(r: Ratio, m: real)
  {
    r.Fraction? && r.value > m
  }

  /** Section `k` is the one `updateActiveStates` picks: its ratio is positive,
      strictly greater than every earlier one and at least every later one. */
  predicate Selected(rs: seq<Ratio>, k: nat)
  {
    && k < |rs|
    && Exceeds(rs[k], 0.0)
    && (forall j :: 0 <= j < k ==> !Exceeds(rs[j], rs[k].value) && rs[j] != rs[k])
    && (forall j :: k < j < |rs| ==> !Exceeds(rs[j], rs[k].value))
  }

  /** At most one section is selected. */
  lemma SelectionUnique(rs: seq<Ratio>, k1: nat, k2: nat)
    requires Selected(rs, k1) && Selected(rs, k2)
    ensures k1 == k2
  {
  }

  /** Section `k` is the one the selection loop holds after the first `n` ratios. */
  predicate SelectedAmong(rs: seq<Ratio>, n: nat, k: nat)
    requires n <= |rs|
  {
    && k < n
    && Exceeds(rs[k], 0.0)
    && (forall j :: 0 <= j < k ==> !Exceeds(rs[j], rs[k].value) && rs[j] != rs[k])
    && (forall j :: k < j < n ==> !Exceeds(rs[j], rs[k].value))
  }

  /** Among the first `n` ratios, some section is selected as soon as one of them is positive. */
  lemma {:induction false} SelectedAmongExists(rs: seq<Ratio>, n: nat)
    requires n <= |rs|
    requires exists k :: 0 <= k < n && Exceeds(rs[k], 0.0)
    ensures exists k :: SelectedAmong(rs, n, k)
    decreases n
  {
    var m := n - 1;
    if exists k :: 0 <= k < m && Exceeds(rs[k], 0.0) {
      SelectedAmongExists(rs, m);
      var k: nat :| SelectedAmong(rs, m, k);
      if Exceeds(rs[m], rs[k].value) {
        assert SelectedAmong(rs, n, m);
      } else {
        assert SelectedAmong(rs, n, k);
      }
    } else {
      assert SelectedAmong(rs, n, m);
    }
  }

  /** Some section is selected whenever some ratio is positive. */
  lemma SelectedExists(rs: seq<Ratio>)
    requires exists k :: 0 <= k < |rs| && Exceeds(rs[k], 0.0)
    ensures exists k :: Selected(rs, k)
  {
    SelectedAmongExists(rs, |rs|);
    var k: nat :| SelectedAmong(rs, |rs|, k);
    assert Selected(rs, k);
  }

  /** A section wholly inside the viewport is selected when no earlier section is. */
  lemma WhollyVisibleWins(rects: seq<Rect>, scrollTop: int, windowHeight: nat, k: nat)
    requires k < |rects| && rects[k].height > 0 && WhollyInside(windowHeight, rects[k])
    requires forall j :: 0 <= j < k ==> !WhollyInside(windowHeight, rects[j]) || rects[j].height == 0
    ensures Selected(Ratios(rects, scrollTop, windowHeight), k)
  {
    var rs := Ratios(rects, scrollTop, windowHeight);
    RatioOneIffWhollyInside(scrollTop, windowHeight, rects[k]);
    assert rs[k] == Fraction(1.0);
    forall j | 0 <= j < k
      ensures !Exceeds(rs[j], 1.0) && rs[j] != rs[k]
    {
      if rects[j].height > 0 {
        RatioOneIffWhollyInside(scrollTop, windowHeight, rects[j]);
      }
    }
    forall j | k < j < |rs|
      ensures !Exceeds(rs[j], 1.0)
    {
      assert rs[j] == VisibilityRatio(scrollTop, windowHeight, rects[j]);
    }
  }

  /** The loop of `updateActiveStates` that finds the most visible section. */
  method SelectMostVisible(rects: seq<Rect>, scrollTop: int, windowHeight: nat) returns (active: Option<nat>)
    ensures active.Some? ==> Selected(Ratios(rects, scrollTop, windowHeight), active.value)
    ensures active.None? ==>
              forall k :: 0 <= k < |rects| ==> !Exceeds(Ratios(rects, scrollTop, windowHeight)[k], 0.0)
  {
    ghost var rs := Ratios(rects, scrollTop, windowHeight);
    active := None;
    var maxVisibility: real := 0.0;
    for i := 0 to |rects|
      invariant maxVisibility >= 0.0
      invariant active.None? ==> maxVisibility == 0.0
      invariant active.None? ==> forall j :: 0 <= j < i ==> !Exceeds(rs[j], 0.0)
      invariant active.Some? ==> active.value < i && rs[active.value] == Fraction(maxVisibility) && maxVisibility > 0.0
      invariant active.Some? ==> forall j :: 0 <= j < active.value ==> !Exceeds(rs[j], maxVisibility) && rs[j] != rs[active.value]
      invariant active.Some? ==> forall j :: active.value < j < i ==> !Exceeds(rs[j], maxVisibility)
    {
      var visibilityRatio := VisibilityRatio(scrollTop, windowHeight, rects[i]);
      assert visibilityRatio == rs[i];
      if visibilityRatio.Fraction? && visibilityRatio.value > maxVisibility {
        maxVisibility := visibilityRatio.value;
        active := Some(i);
      }
    }
  }

  // ---------------------------------------------------------------------------
  // Click
  // ---------------------------------------------------------------------------

  /** What a click on a navigation link does: it always prevents the default
      navigation, and it may ask the window to scroll to a position. */
  datatype ClickOutcome = ClickOutcome(defaultPrevented: bool, scrollTo: Option<int>)

  /** The header height subtracted from the scroll target: 0 without a header. */
  function HeaderOffset(doc: Document): nat
  {
    if doc.header.Some? then doc.header.value else 0
  }

  /** `handleNavClick` on `link` (the handle is read again at click time). */
  function HandleNavClick(doc: Document, link: Link): (r: ClickOutcome)
    ensures r.defaultPrevented
    ensures r.scrollTo.Some? <==> Resolve(doc, IdArgument(link.productHandle)).Some?
    ensures r.scrollTo.Some? ==>
              var target := doc.elements[Resolve(doc, IdArgument(link.productHandle)).value];
              && r.scrollTo.value == target.offsetTop - HeaderOffset(doc) - BreathingRoom
              && r.scrollTo.value <= target.offsetTop - BreathingRoom
              && (doc.header.None? ==> r.scrollTo.value == target.offsetTop - BreathingRoom)
  {
    match Resolve(doc, IdArgument(link.productHandle))
    case None => ClickOutcome(true, None)
    case Some(e) =>
      ClickOutcome(true, Some(doc.elements[e].offsetTop - HeaderOffset(doc) - BreathingRoom))
  }

  /** In an unchanged document, clicking the link of a registered section
      scrolls to that section's element, less the header and 20 pixels. */
  lemma ClickScrollsToRegisteredSection(links: seq<Link>, doc: Document, k: nat)
    requires k < |Registered(links, doc, |links|)|
    ensures var s := Registered(links, doc, |links|)[k];
      && s.element < |doc.elements|
      && HandleNavClick(doc, links[s.link]).scrollTo
           == Some(doc.elements[s.element].offsetTop - HeaderOffset(doc) - BreathingRoom)
  {
    RegistrationFilters(links, doc, |links|);
  }

  // ---------------------------------------------------------------------------
  // Throttle
  // ---------------------------------------------------------------------------

  /** What reaches the throttled handler: a call (a scroll event) or the expiry
      of the timer that the last run scheduled. */
  datatype ThrottleEvent = Call | Expire

  /** `inThrottle` after the event. */
  function ThrottleAfter(inThrottle: bool, e: ThrottleEvent): bool
  {
    e == Call
  }

  /** Whether the event runs the wrapped function. */
  predicate ThrottleRuns(inThrottle: bool, e: ThrottleEvent)
  {
    e == Call && !inThrottle
  }

  /** `inThrottle` after a whole run of events. */
  function ThrottleFinal(inThrottle: bool, events: seq<ThrottleEvent>): bool
    decreases |events|
  {
    if events == [] then inThrottle else ThrottleFinal(ThrottleAfter(inThrottle, events[0]), events[1..])
  }

  /** How many times the wrapped function runs during a run of events. */
  function RunCount(inThrottle: bool, events: seq<ThrottleEvent>): nat
    decreases |events|
  {
    if events == [] then 0
    else
      (if ThrottleRuns(inThrottle, events[0]) then 1 else 0)
        + RunCount(ThrottleAfter(inThrottle, events[0]), events[1..])
  }

  function Calls(n: nat): seq<ThrottleEvent>
  {
    seq(n, _ => Call)
  }

  /** Throttle windows: `ns[i]` calls, then the timer expires. */
  function Windows(ns: seq<nat>): seq<ThrottleEvent>
  {
    if ns == [] then [] else Calls(ns[0]) + [Expire] + Windows(ns[1..])
  }

  function ExpireCount(events: seq<ThrottleEvent>): nat
  {
    if events == [] then 0 else (if events[0] == Expire then 1 else 0) + ExpireCount(events[1..])
  }

  lemma {:induction false} RunCountAppend(inThrottle: bool, xs: seq<ThrottleEvent>, ys: seq<ThrottleEvent>)
    ensures RunCount(inThrottle, xs + ys) == RunCount(inThrottle, xs) + RunCount(ThrottleFinal(inThrottle, xs), ys)
    ensures ThrottleFinal(inThrottle, xs + ys) == ThrottleFinal(ThrottleFinal(inThrottle, xs), ys)
    decreases |xs|
  {
    if xs != [] {
      assert (xs + ys)[1..] == xs[1..] + ys;
      RunCountAppend(ThrottleAfter(inThrottle, xs[0]), xs[1..], ys);
    } else {
      assert xs + ys == ys;
    }
  }

  /** A burst of calls runs the function once if the throttle was open, not at
      all if it was closed, and leaves the throttle closed. */
  lemma {:induction false} BurstRunsAtMostOnce(inThrottle: bool, n: nat)
    requires n > 0
    ensures RunCount(inThrottle, Calls(n)) == (if inThrottle then 0 else 1)
    ensures ThrottleFinal(inThrottle, Calls(n))
    decreases n
  {
    assert Calls(n) == [Call] + Calls(n - 1);
    assert Calls(n)[1..] == Calls(n - 1);
    if n > 1 {
      BurstRunsAtMostOnce(true, n - 1);
    }
  }

  /** Windows of one or more calls each, starting with the throttle open, run
      the function exactly once per window. */
  lemma {:induction false} OneRunPerWindow(ns: seq<nat>)
    requires forall i :: 0 <= i < |ns| ==> ns[i] > 0
    ensures RunCount(false, Windows(ns)) == |ns|
    ensures !ThrottleFinal(false, Windows(ns))
  {
    if ns != [] {
      var burst := Calls(ns[0]);
      BurstRunsAtMostOnce(false, ns[0]);
      RunCountAppend(false, burst, [Expire]);
      assert RunCount(true, [Expire]) == 0 && ThrottleFinal(true, [Expire]) == false;
      OneRunPerWindow(ns[1..]);
      RunCountAppend(false, burst + [Expire], Windows(ns[1..]));
    }
  }

  /** Never more runs than timer expiries, plus one if the throttle started open. */
  lemma {:induction false} RunsBoundedByExpiries(inThrottle: bool, events: seq<ThrottleEvent>)
    ensures RunCount(inThrottle, events) <= ExpireCount(events) + (if inThrottle then 0 else 1)
    decreases |events|
  {
    if events != [] {
      RunsBoundedByExpiries(ThrottleAfter(inThrottle, events[0]), events[1..]);
    }
  }

  // ---------------------------------------------------------------------------
  // Link classes
  // ---------------------------------------------------------------------------

  /** The link classes after `remove('ingredients-navigation__link--active')`
      on the link of every section in `sections`. */
  function ClearLinks(flags: seq<bool>, sections: seq<Section>): seq<bool>
  {
    seq(|flags|, l requires 0 <= l < |flags| => if HasLink(sections, l) then false else flags[l])
  }

  /** The link classes after `add` on the selected section's link, if any. */
  function MarkLink(flags: seq<bool>, sections: seq<Section>, active: Option<nat>): seq<bool>
    requires active.Some? ==> active.value < |sections| && sections[active.value].link < |flags|
  {
    if active.Some? then flags[sections[active.value].link := true] else flags
  }

  /** Links are in range and no two sections share one. */
  predicate DistinctLinks(sections: seq<Section>, linkCount: nat)
  {
    && (forall k :: 0 <= k < |sections| ==> sections[k].link < linkCount)
    && (forall k1, k2 :: 0 <= k1 < k2 < |sections| ==> sections[k1].link < sections[k2].link)
  }

  /** `after` has exactly the selected section's link active among the
      registered links, and leaves the unregistered links as in `before`. */
  predicate MarksSelected(sections: seq<Section>, before: seq<bool>, after: seq<bool>, rs: seq<Ratio>)
    requires DistinctLinks(sections, |before|) && |after| == |before|
  {
    && (forall k :: 0 <= k < |sections| ==> after[sections[k].link] == Selected(rs, k))
    && (forall l :: 0 <= l < |after| && !HasLink(sections, l) ==> after[l] == before[l])
  }

  /** Clearing one more section's link extends the cleared prefix. */
  lemma ClearLinksStep(flags: seq<bool>, sections: seq<Section>, k: nat)
    requires k < |sections| && sections[k].link < |flags|
    ensures ClearLinks(flags, sections[..k + 1]) == ClearLinks(flags, sections[..k])[sections[k].link := false]
  {
    var a := ClearLinks(flags, sections[..k + 1]);
    var b := ClearLinks(flags, sections[..k])[sections[k].link := false];
    forall l | 0 <= l < |flags|
      ensures a[l] == b[l]
    {
      if HasLink(sections[..k], l) {
        var j :| 0 <= j < k && sections[..k][j].link == l;
        assert sections[..k + 1][j].link == l;
      }
      if HasLink(sections[..k + 1], l) && l != sections[k].link {
        var j :| 0 <= j < k + 1 && sections[..k + 1][j].link == l;
        assert sections[..k][j].link == l;
      }
      assert sections[..k + 1][k] == sections[k];
    }
  }

  /** Clearing every registered link and then marking the selected one leaves
      exactly the selected section's link active; at most one registered link
      is active afterwards. */
  lemma {:induction false} ClearThenMarkSelects(sections: seq<Section>, before: seq<bool>, rs: seq<Ratio>, active: Option<nat>)
    requires DistinctLinks(sections, |before|) && |rs| == |sections|
    requires active.Some? ==> Selected(rs, active.value)
    requires active.None? ==> forall k :: 0 <= k < |rs| ==> !Exceeds(rs[k], 0.0)
    ensures var after := MarkLink(ClearLinks(before, sections), sections, active);
      && |after| == |before|
      && MarksSelected(sections, before, after, rs)
      && (forall k1, k2 :: 0 <= k1 < |sections| && 0 <= k2 < |sections| ==>
            after[sections[k1].link] && after[sections[k2].link] ==> k1 == k2)
  {
    var cleared := ClearLinks(before, sections);
    var after := MarkLink(cleared, sections, active);
    forall k | 0 <= k < |sections|
      ensures after[sections[k].link] == Selected(rs, k)
    {
      assert HasLink(sections, sections[k].link);
      if Selected(rs, k) {
        SelectionUnique(rs, k, active.value);
      } else if active.Some? {
        assert sections[active.value].link != sections[k].link;
      }
    }
    forall k1, k2 | 0 <= k1 < |sections| && 0 <= k2 < |sections| &&
        after[sections[k1].link] && after[sections[k2].link]
      ensures k1 == k2
    {
      SelectionUnique(rs, k1, k2);
    }
  }

  /** When some section has a positive ratio, marking the selected section
      leaves some registered link active. */
  lemma VisibleSectionMarked(sections: seq<Section>, before: seq<bool>, after: seq<bool>, rs: seq<Ratio>)
    requires DistinctLinks(sections, |before|) && |after| == |before| && |rs| == |sections|
    requires MarksSelected(sections, before, after, rs)
    ensures (exists k :: 0 <= k < |sections| && Exceeds(rs[k], 0.0)) ==>
              exists k :: 0 <= k < |sections| && after[sections[k].link]
  {
    if exists k :: 0 <= k < |sections| && Exceeds(rs[k], 0.0) {
      SelectedExists(rs);
      var k: nat :| Selected(rs, k);
      assert after[sections[k].link];
    }
  }

  // ---------------------------------------------------------------------------
  // The component
  // ---------------------------------------------------------------------------

  class IngredientsNavigation {
    /** `this.navLinks`: the component's `.ingredients-navigation__link` elements. */
    const navLinks: seq<Link>
    /** `this.sections`, fixed by the constructor. */
    var sections: seq<Section>
    /** Whether each navigation link carries `ingredients-navigation__link--active`. */
    var linkActive: seq<bool>
    /** `this.handleScroll` exists and is attached to the window's scroll event. */
    var listening: bool
    /** The throttle's closed-over `inThrottle` flag. */
    var inThrottle: bool

    ghost predicate Valid()
      reads this
    {
      && |linkActive| == |navLinks|
      && DistinctLinks(sections, |navLinks|)
      && (listening ==> |sections| > 0)
    }

    /** `after` is `before` with exactly the selected section's link active
        among the registered links, and the unregistered links untouched. */
    ghost predicate MarksMostVisible(before: seq<bool>, after: seq<bool>, rects: seq<Rect>, scrollTop: int, windowHeight: nat)
      reads this
      requires Valid() && |before| == |navLinks|
    {
      && |after| == |before|
      && MarksSelected(sections, before, after, Ratios(rects, scrollTop, windowHeight))
    }

    /** The constructor and `init`: register the sections and install the
        throttled scroll handler only when at least one section was found. */
    constructor (links: seq<Link>, doc: Document, initiallyActive: seq<bool>)
      requires |initiallyActive| == |links|
      ensures Valid()
      ensures navLinks == links && sections == Registered(links, doc, |links|)
      ensures linkActive == initiallyActive
      ensures listening <==> |sections| > 0
      ensures !inThrottle
    {
      var registered := CollectSections(links, doc);
      RegistrationFilters(links, doc, |links|);
      navLinks := links;
      sections := registered;
      linkActive := initiallyActive;
      listening := |registered| > 0;
      inThrottle := false;
    }

    /** `updateActiveStates`, given the bounding rectangle of each registered
        section: clear every registered link, then mark the selected one. */
    method UpdateActiveStates(rects: seq<Rect>, scrollTop: int, windowHeight: nat)
      requires Valid() && |rects| == |sections|
      modifies this`linkActive
      ensures Valid()
      ensures MarksMostVisible(old(linkActive), linkActive, rects, scrollTop, windowHeight)
      ensures forall k1, k2 :: 0 <= k1 < |sections| && 0 <= k2 < |sections| ==>
                linkActive[sections[k1].link] && linkActive[sections[k2].link] ==> k1 == k2
      ensures (exists k :: 0 <= k < |sections| && Exceeds(Ratios(rects, scrollTop, windowHeight)[k], 0.0)) ==>
                exists k :: 0 <= k < |sections| && linkActive[sections[k].link]
    {
      if |sections| == 0 {
        return;
      }
      var active := SelectMostVisible(rects, scrollTop, windowHeight);
      ghost var before := linkActive;
      assert sections[..0] == [];
      for k := 0 to |sections|
        invariant linkActive == ClearLinks(before, sections[..k])
      {
        ClearLinksStep(before, sections, k);
        linkActive := linkActive[sections[k].link := false];
      }
      assert sections[..|sections|] == sections;
      if active.Some? {
        linkActive := linkActive[sections[active.value].link := true];
      }
      ClearThenMarkSelects(sections, before, Ratios(rects, scrollTop, windowHeight), active);
      VisibleSectionMarked(sections, before, linkActive, Ratios(rects, scrollTop, windowHeight));
    }

    /** A window scroll event reaching the throttled handler. */
    method OnScroll(rects: seq<Rect>, scrollTop: int, windowHeight: nat)
      requires Valid() && |rects| == |sections|
      modifies this`linkActive, this`inThrottle
      ensures Valid()
      ensures inThrottle == (if listening then ThrottleAfter(old(inThrottle), Call) else old(inThrottle))
      ensures if listening && ThrottleRuns(old(inThrottle), Call)
              then MarksMostVisible(old(linkActive), linkActive, rects, scrollTop, windowHeight)
              else linkActive == old(linkActive)
    {
      if listening {
        if !inThrottle {
          UpdateActiveStates(rects, scrollTop, windowHeight);
          inThrottle := true;
        }
      }
    }

    /** The throttle's `setTimeout` fires: `inThrottle = false`. */
    method OnThrottleTimer()
      requires Valid()
      modifies this`inThrottle
      ensures Valid()
      ensures inThrottle == ThrottleAfter(old(inThrottle), Expire)
    {
      inThrottle := false;
    }

    /** `disconnectedCallback`: detach the scroll handler, if one was installed. */
    method DisconnectedCallback()
      requires Valid()
      modifies this`listening
      ensures Valid()
      ensures !listening
    {
      if listening {
        listening := false;
      }
    }
  }
}
