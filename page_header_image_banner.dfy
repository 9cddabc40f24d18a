/**
 * The image banner that may sit under a transparent header
 * (`assets/page-header-image-banner.js`, element `page-header-image-banner`).
 *
 * The header is transparent-capable only when the banner's section is the
 * first `<section>` element following `header.page-header` and `.wt-header`
 * has a non-empty `data-transparent`.  Then the section is pulled up under the
 * header by a negative top margin (header plus announcement bar height), the
 * logo gets `wt-header__logo--show`, and an intersection observer plus a scroll
 * handler keep `wt-header--transparent` on the header exactly while the banner
 * intersects the viewport and the page is scrolled less than 100 pixels.
 *
 * The page is given to each operation as a value (`Page`); an observer entry
 * and a scroll event are inputs carrying `isIntersecting` and `pageYOffset`.
 */
module PageHeaderImageBanner {
  import opened Dom

  /** `window.pageYOffset` below which the header stays transparent. */
  const NearTopLimit := 100

  /** An element sibling of `header.page-header`: its identity and tag name. */
  datatype Node = Node(id: nat, tagName: string)

  /** `.wt-header`: its `data-transparent` value. */
  datatype WtHeader = WtHeader(dataTransparent: Option<string>)

  /** What the banner reads from the document:
      - the element siblings that follow `header.page-header`, in order, when
        that header exists;
      - `.wt-header`, when it exists;
      - the `offsetHeight` of the document's first `<header>`, when there is one;
      - the `offsetHeight` of `.wt-announcement`, when it exists. */
  datatype Page = Page(
    pageHeaderSiblings: Option<seq<Node>>,
    wtHeader: Option<WtHeader>,
    firstHeaderHeight: Option<nat>,
    announcementHeight: Option<nat>)
  {
    /** `header.page-header` is itself a `<header>`, so when it exists the
        document's first `<header>` exists. */
    predicate Valid()
    {
      pageHeaderSiblings.Some? ==> firstHeaderHeight.Some?
    }
  }

  predicate IsSectionTag(tagName: string)
  {
    ToLowerAscii(tagName) == "section"
  }

  /** The position of the first `<section>` among `siblings` at or after `from`. */
  function FirstSectionFrom(siblings: seq<Node>, from: nat): (r: Option<nat>)
    requires from <= |siblings|
    ensures r.Some? ==> from <= r.value < |siblings| && IsSectionTag(siblings[r.value].tagName)
    ensures r.Some? ==> forall j :: from <= j < r.value ==> !IsSectionTag(siblings[j].tagName)
    ensures r.None? ==> forall j :: from <= j < |siblings| ==> !IsSectionTag(siblings[j].tagName)
    decreases |siblings| - from
  {
    if from == |siblings| then None
    else if IsSectionTag(siblings[from].tagName) then Some(from)
    else FirstSectionFrom(siblings, from + 1)
  }

  /** The value `isValidSectionsOrder` computes. */
  predicate ValidOrder(page: Page, section: Option<nat>)
  {
    && page.pageHeaderSiblings.Some?
    && section.Some?
    && var first := FirstSectionFrom(page.pageHeaderSiblings.value, 0);
       first.Some? && page.pageHeaderSiblings.value[first.value].id == section.value
  }

  /** The order is valid exactly when the page header and the banner's section
      both exist and the first sibling tagged `section` after the header is the
      banner's section; with no section sibling at all it is invalid. */
  lemma ValidOrderMeans(page: Page, section: Option<nat>)
    ensures ValidOrder(page, section) <==>
      && page.pageHeaderSiblings.Some?
      && section.Some?
      && var siblings := page.pageHeaderSiblings.value;
         exists k :: 0 <= k < |siblings| && IsSectionTag(siblings[k].tagName) && siblings[k].id == section.value
           && forall j :: 0 <= j < k ==> !IsSectionTag(siblings[j].tagName)
    ensures page.pageHeaderSiblings.Some? &&
            (forall j :: 0 <= j < |page.pageHeaderSiblings.value| ==> !IsSectionTag(page.pageHeaderSiblings.value[j].tagName))
            ==> !ValidOrder(page, section)
  {
    if page.pageHeaderSiblings.Some? && section.Some? {
      var siblings := page.pageHeaderSiblings.value;
      var first := FirstSectionFrom(siblings, 0);
      if first.Some? && siblings[first.value].id == section.value {
        assert IsSectionTag(siblings[first.value].tagName);
      }
      forall k | 0 <= k < |siblings| && IsSectionTag(siblings[k].tagName) && siblings[k].id == section.value
          && (forall j :: 0 <= j < k ==> !IsSectionTag(siblings[j].tagName))
        ensures first == Some(k)
      {
      }
    }
  }

  /** The value `isTransparentHeaderEnabled` computes: the order is valid and
      `.wt-header` has a truthy `data-transparent`. */
  predicate TransparentHeaderEnabled(page: Page, section: Option<nat>)
  {
    ValidOrder(page, section) && page.wtHeader.Some? && Truthy(page.wtHeader.value.dataTransparent)
  }

  /** The value `calculateOffset` returns; None where it throws because the
      document has no `<header>` at all. */
  function Offset(page: Page, section: Option<nat>): (r: Option<nat>)
    ensures r.Some? <==> page.firstHeaderHeight.Some?
    ensures r.Some? && !TransparentHeaderEnabled(page, section) ==> r.value == 0
    ensures r.Some? && TransparentHeaderEnabled(page, section) ==>
              r.value >= page.firstHeaderHeight.value &&
              r.value - page.firstHeaderHeight.value ==
                (if page.announcementHeight.Some? then page.announcementHeight.value else 0)
  {
    if page.firstHeaderHeight.None? then None
    else
      var headerHeight := page.firstHeaderHeight.value;
      var announcementHeight := if page.announcementHeight.Some? then page.announcementHeight.value else 0;
      Some(if TransparentHeaderEnabled(page, section) then headerHeight + announcementHeight else 0)
  }

  /** On a well-formed page an enabled banner always gets an offset. */
  lemma EnabledHasOffset(page: Page, section: Option<nat>)
    requires page.Valid() && TransparentHeaderEnabled(page, section)
    ensures Offset(page, section).Some?
  {
  }

  /** `isValidSectionsOrder`: walk `nextElementSibling` until a `<section>`. */
  method IsValidSectionsOrder(page: Page, section: Option<nat>) returns (valid: bool)
    ensures valid == ValidOrder(page, section)
  {
    if page.pageHeaderSiblings.Some? && section.Some? {
      var siblings := page.pageHeaderSiblings.value;
      var i := 0;
      while i < |siblings| && ToLowerAscii(siblings[i].tagName) != "section"
        invariant 0 <= i <= |siblings|
        invariant FirstSectionFrom(siblings, i) == FirstSectionFrom(siblings, 0)
      {
        i := i + 1;
      }
      valid := i < |siblings| && siblings[i].id == section.value;
    } else {
      valid := false;
    }
  }

  method IsTransparentHeaderEnabled(page: Page, section: Option<nat>) returns (enabled: bool)
    ensures enabled == TransparentHeaderEnabled(page, section)
  {
    var valid := IsValidSectionsOrder(page, section);
    enabled := valid && page.wtHeader.Some? && Truthy(page.wtHeader.value.dataTransparent);
  }

  method CalculateOffset(page: Page, section: Option<nat>) returns (offset: Option<nat>)
    ensures offset == Offset(page, section)
  {
    if page.firstHeaderHeight.None? {
      return None;
    }
    var headerHeight := page.firstHeaderHeight.value;
    var announcementHeight := if page.announcementHeight.Some? then page.announcementHeight.value else 0;
    var enabled := IsTransparentHeaderEnabled(page, section);
    offset := Some(if enabled then headerHeight + announcementHeight else 0);
  }

  // ---------------------------------------------------------------------------
  // The transparent-class rule
  // ---------------------------------------------------------------------------

  /** The observer closure's `heroIsIntersecting` and whether the header
      carries `wt-header--transparent`. */
  datatype HeaderState = HeaderState(heroIsIntersecting: bool, transparent: bool)

  /** An observer entry (`isIntersecting`) or a window scroll event, each with
      the `pageYOffset` at the time it is handled. */
  datatype HeaderEvent = Entry(isIntersecting: bool, pageYOffset: int) | Scroll(pageYOffset: int)

  /** The observer callback's effect for one entry. */
  function AfterEntry(s: HeaderState, isIntersecting: bool, pageYOffset: int): HeaderState
  {
    if !isIntersecting then HeaderState(false, false)
    else HeaderState(true, pageYOffset < NearTopLimit)
  }

  /** `handleScroll`'s effect. */
  function AfterScroll(s: HeaderState, pageYOffset: int): HeaderState
  {
    if s.heroIsIntersecting then HeaderState(true, pageYOffset < NearTopLimit) else s
  }

  function AfterEvent(s: HeaderState, e: HeaderEvent): HeaderState
  {
    match e
    case Entry(isIntersecting, y) => AfterEntry(s, isIntersecting, y)
    case Scroll(y) => AfterScroll(s, y)
  }

  function AfterEvents(s: HeaderState, events: seq<HeaderEvent>): HeaderState
    decreases |events|
  {
    if events == [] then s else AfterEvents(AfterEvent(s, events[0]), events[1..])
  }

  /** The header is transparent only while the hero is known to intersect. */
  predicate Coherent(s: HeaderState)
  {
    s.transparent ==> s.heroIsIntersecting
  }

  /** The scroll handler leaves the class alone while the hero is not
      intersecting; otherwise the class ends up present iff `pageYOffset < 100`. */
  lemma ScrollRule(s: HeaderState, y: int)
    ensures !s.heroIsIntersecting ==> AfterScroll(s, y) == s
    ensures s.heroIsIntersecting ==> (AfterScroll(s, y).transparent <==> y < NearTopLimit)
  {
  }

  /** From a coherent state, after any event the class is present exactly
      when the hero intersects and the event's `pageYOffset` is below 100. */
  lemma TwoInputRule(s: HeaderState, e: HeaderEvent)
    requires Coherent(s)
    ensures Coherent(AfterEvent(s, e))
    ensures AfterEvent(s, e).transparent <==>
              AfterEvent(s, e).heroIsIntersecting && e.pageYOffset < NearTopLimit
  {
  }

  /** After a run of events from a coherent state, or after any run that goes
      through an observer entry, the last event's `pageYOffset` and the hero's
      intersection decide the class. */
  lemma {:induction false} RunFollowsLastEvent(s: HeaderState, events: seq<HeaderEvent>)
    requires events != []
    requires Coherent(s) || events[0].Entry?
    ensures Coherent(AfterEvents(s, events))
    ensures AfterEvents(s, events).transparent <==>
              AfterEvents(s, events).heroIsIntersecting && events[|events| - 1].pageYOffset < NearTopLimit
    decreases |events|
  {
    var next := AfterEvent(s, events[0]);
    assert Coherent(next);
    if |events| == 1 {
      assert AfterEvents(s, events) == AfterEvents(next, []);
      if Coherent(s) {
        TwoInputRule(s, events[0]);
      }
    } else {
      RunFollowsLastEvent(next, events[1..]);
      assert events[1..][|events[1..]| - 1] == events[|events| - 1];
    }
  }

  // ---------------------------------------------------------------------------
  // The element
  // ---------------------------------------------------------------------------

  class ImageBanner {
    /** `this.section`: the identity of the closest `<section>`, if any. */
    const section: Option<nat>
    /** The section's `style.marginTop` in pixels; None until the banner sets it. */
    var marginTop: Option<int>
    /** Whether `.wt-header__logo` carries `wt-header__logo--show`; None when there is no logo. */
    var logoShow: Option<bool>
    /** Whether `.wt-header` carries `wt-header--transparent`. */
    var transparent: bool
    /** The latest observer closure's `heroIsIntersecting`. */
    var heroIsIntersecting: bool
    /** `this.observer` is non-null (and connected). */
    var observing: bool
    /** `this.scrollListener` is non-null. */
    var scrollListener: bool
    /** A `handleScroll` is attached to the window's scroll event. */
    var windowScrollHandler: bool
    /** How many bound `handleAdminEditing` listeners the document holds for
        the three section admin events. */
    var adminHandlers: nat

    function State(): HeaderState
      reads this
    {
      HeaderState(heroIsIntersecting, transparent)
    }

    /** The constructor: nothing is set yet; the logo and header classes are as the markup has them. */
    constructor (closestSection: Option<nat>, logo: Option<bool>, headerTransparent: bool)
      ensures section == closestSection && logoShow == logo && transparent == headerTransparent
      ensures marginTop.None? && !heroIsIntersecting && !observing && !scrollListener && !windowScrollHandler
      ensures adminHandlers == 0
    {
      section := closestSection;
      logoShow := logo;
      transparent := headerTransparent;
      marginTop := None;
      heroIsIntersecting := false;
      observing := false;
      scrollListener := false;
      windowScrollHandler := false;
      adminHandlers := 0;
    }

    /** `init` (also what `handleAdminEditing` runs on every section admin
        event).  `ok` is false where the script throws: no `<header>` in the
        document, or no section to reset the margin of. */
    method Init(page: Page) returns (ok: bool)
      modifies this`marginTop, this`logoShow, this`heroIsIntersecting, this`observing, this`scrollListener,
        this`windowScrollHandler
      ensures var enabled := TransparentHeaderEnabled(page, section);
        && (ok <==> if enabled then Offset(page, section).Some? else section.Some?)
        && (ok && enabled ==>
              && marginTop == Some(-(Offset(page, section).value as int))
              && logoShow == (if old(logoShow).Some? then Some(true) else None)
              && observing && scrollListener && windowScrollHandler
              && !heroIsIntersecting && transparent == old(transparent))
        && (ok && !enabled ==>
              && marginTop == Some(0)
              && logoShow == (if old(logoShow).Some? then Some(false) else None)
              && State() == old(State()) && observing == old(observing)
              && scrollListener == old(scrollListener) && windowScrollHandler == old(windowScrollHandler))
        && (!ok ==> unchanged(this))
    {
      var enabled := IsTransparentHeaderEnabled(page, section);
      if enabled {
        var offset := CalculateOffset(page, section);
        if offset.None? {
          return false;
        }
        var margin: int := 0 - offset.value as int;
        marginTop := Some(margin);
        ObserveHeader();
        if logoShow.Some? {
          logoShow := Some(true);
        }
      } else {
        if section.None? {
          return false;
        }
        marginTop := Some(0);
        if logoShow.Some? {
          logoShow := Some(false);
        }
      }
      ok := true;
    }

    /** `connectedCallback`: `init`, then one freshly bound `handleAdminEditing`
        listener for each of the three section admin events; when `init`
        throws, no listener is added. */
    method ConnectedCallback(page: Page) returns (ok: bool)
      modifies this
      ensures var enabled := TransparentHeaderEnabled(page, section);
        && (ok <==> if enabled then Offset(page, section).Some? else section.Some?)
        && (ok && enabled ==>
              && marginTop == Some(-(Offset(page, section).value as int))
              && logoShow == (if old(logoShow).Some? then Some(true) else None)
              && observing && scrollListener && windowScrollHandler
              && !heroIsIntersecting && transparent == old(transparent))
        && (ok && !enabled ==>
              && marginTop == Some(0)
              && logoShow == (if old(logoShow).Some? then Some(false) else None)
              && State() == old(State()) && observing == old(observing)
              && scrollListener == old(scrollListener) && windowScrollHandler == old(windowScrollHandler))
      ensures adminHandlers == if ok then old(adminHandlers) + 3 else old(adminHandlers)
      ensures !ok ==> unchanged(this)
    {
      ok := Init(page);
      if ok {
        adminHandlers := adminHandlers + 3;
      }
    }

    /** `observeHeader`: a fresh closure (`heroIsIntersecting = false`), a new
        observer and a scroll handler added to the window. */
    method ObserveHeader()
      modifies this`heroIsIntersecting, this`observing, this`scrollListener, this`windowScrollHandler
      ensures !heroIsIntersecting && observing && scrollListener && windowScrollHandler
    {
      heroIsIntersecting := false;
      observing := true;
      scrollListener := true;
      windowScrollHandler := true;
    }

    /** The observer callback with its entries, all handled at one `pageYOffset`. */
    method OnIntersection(entries: seq<bool>, pageYOffset: int)
      modifies this`heroIsIntersecting, this`transparent
      ensures observing ==> State() == AfterEvents(old(State()), EntryEvents(entries, pageYOffset))
      ensures !observing ==> State() == old(State())
    {
      if !observing {
        return;
      }
      ghost var start := State();
      for i := 0 to |entries|
        invariant State() == AfterEvents(start, EntryEvents(entries[..i], pageYOffset))
      {
        EntryEventsSnoc(start, entries, i, pageYOffset);
        heroIsIntersecting := entries[i];
        if !entries[i] {
          transparent := false;
        } else {
          var isNearTop := pageYOffset < NearTopLimit;
          if isNearTop {
            transparent := true;
          } else {
            transparent := false;
          }
        }
      }
      assert entries[..|entries|] == entries;
    }

    /** A window scroll event reaching `handleScroll`, if one is attached. */
    method OnScroll(pageYOffset: int)
      modifies this`transparent
      ensures windowScrollHandler ==> State() == AfterScroll(old(State()), pageYOffset)
      ensures !windowScrollHandler ==> State() == old(State())
    {
      if windowScrollHandler && heroIsIntersecting {
        var isNearTop := pageYOffset < NearTopLimit;
        if isNearTop {
          transparent := true;
        } else {
          transparent := false;
        }
      }
    }

    /** `removeObserver`: after it `observer` is null; when it already was, nothing changes. */
    method RemoveObserver()
      modifies this`observing
      ensures !observing
      ensures !old(observing) ==> unchanged(this)
    {
      if observing {
        observing := false;
      }
    }

    /** `disconnectedCallback`.  The scroll handler was added to `window` but is
        removed from `document`, so the window keeps it; and each
        `removeEventListener` is given a newly bound function, so the admin
        listeners stay attached too. */
    method DisconnectedCallback()
      modifies this`logoShow, this`observing, this`scrollListener
      ensures logoShow == (if old(logoShow).Some? then Some(false) else None)
      ensures !observing && !scrollListener
      ensures windowScrollHandler == old(windowScrollHandler) && adminHandlers == old(adminHandlers)
    {
      if logoShow.Some? {
        logoShow := Some(false);
      }
      RemoveObserver();
      if scrollListener {
        scrollListener := false;
      }
    }
  }

  function EntryEvents(entries: seq<bool>, pageYOffset: int): (r: seq<HeaderEvent>)
  {
    seq(|entries|, i requires 0 <= i < |entries| => Entry(entries[i], pageYOffset))
  }

  lemma {:induction false} AfterEventsAppend(s: HeaderState, xs: seq<HeaderEvent>, ys: seq<HeaderEvent>)
    ensures AfterEvents(s, xs + ys) == AfterEvents(AfterEvents(s, xs), ys)
    decreases |xs|
  {
    if xs == [] {
      assert xs + ys == ys;
    } else {
      assert (xs + ys)[1..] == xs[1..] + ys;
      AfterEventsAppend(AfterEvent(s, xs[0]), xs[1..], ys);
    }
  }

  lemma EntryEventsSnoc(s: HeaderState, entries: seq<bool>, i: nat, pageYOffset: int)
    requires i < |entries|
    ensures AfterEvents(s, EntryEvents(entries[..i + 1], pageYOffset))
         == AfterEntry(AfterEvents(s, EntryEvents(entries[..i], pageYOffset)), entries[i], pageYOffset)
  {
    var xs := EntryEvents(entries[..i], pageYOffset);
    assert EntryEvents(entries[..i + 1], pageYOffset) == xs + [Entry(entries[i], pageYOffset)];
    AfterEventsAppend(s, xs, [Entry(entries[i], pageYOffset)]);
  }
}
