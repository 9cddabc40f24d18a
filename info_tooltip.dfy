/**
 * The hero info tooltips (`assets/info-tooltip.js`).
 *
 * Every `.hero__info-tooltip-trigger` whose `aria-describedby` names an
 * element gets a click handler that hides every other
 * `.hero__info-tooltip-content` and toggles its own tooltip's `aria-hidden`;
 * the tooltip's `.hero__info-tooltip-close` button hides it.  Both handlers
 * stop propagation.  A click that reaches the document from outside every
 * `.hero__info-tooltip`, and the Escape key, hide every content.
 *
 * The document's elements are positions in an array holding each element's
 * `aria-hidden` attribute (None when absent); `isContent` marks the
 * `.hero__info-tooltip-content` elements.  The handlers update the array in
 * place, as `setAttribute` does.
 */
module InfoTooltip {
  import opened Dom

  /** An element's `aria-hidden` attribute. */
  type Aria = Option<string>

  predicate IsHidden(a: Aria)
  {
    a == Some("true")
  }

  /** The toggle: `"true"` becomes `"false"`, anything else (absent included) `"true"`. */
  function Toggled(a: Aria): Aria
  {
    if IsHidden(a) then Some("false") else Some("true")
  }

  /** A tooltip trigger: its `aria-describedby` attribute. */
  datatype Trigger = Trigger(describedBy: Option<string>)

  /** The static structure of the page: element ids in tree order, which
      elements are tooltip contents, which contain a close button, and the
      triggers in document order. */
  datatype Page = Page(ids: seq<string>, isContent: seq<bool>, hasCloseButton: seq<bool>, triggers: seq<Trigger>)
  {
    predicate Valid()
    {
      |isContent| == |ids| && |hasCloseButton| == |ids|
    }
  }

  /** The tooltip a trigger's handlers are bound to, if its `aria-describedby` resolves. */
  function BoundTooltip(page: Page, t: Trigger): (r: Option<nat>)
    ensures r.Some? ==> r.value < |page.ids| && page.ids[r.value] == IdArgument(t.describedBy)
    ensures r.None? <==> IdArgument(t.describedBy) == "" || forall j :: 0 <= j < |page.ids| ==> page.ids[j] != IdArgument(t.describedBy)
  {
    GetElementById(page.ids, IdArgument(t.describedBy))
  }

  /** A close button click reaches a handler exactly when some trigger is
      bound to its tooltip. */
  predicate CloseHandlerBound(page: Page, tooltip: nat)
  {
    exists k :: 0 <= k < |page.triggers| && BoundTooltip(page, page.triggers[k]) == Some(tooltip)
  }

  /** What can happen on the page: a click on a trigger or on a tooltip's close
      button, any other click (each with whether its target lies inside some
      `.hero__info-tooltip`), or a key press. */
  datatype Event =
    | TriggerClick(trigger: nat, insideTooltip: bool)
    | CloseClick(tooltip: nat, insideTooltip: bool)
    | OtherClick(insideTooltip: bool)
    | KeyDown(key: string)

  // ---------------------------------------------------------------------------
  // The handlers' effects as functions of the attribute values
  // ---------------------------------------------------------------------------

  /** The trigger handler for `tooltip`. */
  function AfterTrigger(s: seq<Aria>, isContent: seq<bool>, tooltip: nat): seq<Aria>
    requires |isContent| == |s| && tooltip < |s|
  {
    seq(|s|, i requires 0 <= i < |s| =>
      if i == tooltip then Toggled(s[i]) else if isContent[i] then Some("true") else s[i])
  }

  /** The close button handler for `tooltip`. */
  function AfterClose(s: seq<Aria>, tooltip: nat): seq<Aria>
    requires tooltip < |s|
  {
    s[tooltip := Some("true")]
  }

  /** The outside-click and Escape handlers. */
  function AfterHideAll(s: seq<Aria>, isContent: seq<bool>): seq<Aria>
    requires |isContent| == |s|
  {
    seq(|s|, i requires 0 <= i < |s| => if isContent[i] then Some("true") else s[i])
  }

  /** The document's click handler, which runs only when the click propagates to it. */
  function AfterDocumentClick(s: seq<Aria>, isContent: seq<bool>, insideTooltip: bool): seq<Aria>
    requires |isContent| == |s|
  {
    if insideTooltip then s else AfterHideAll(s, isContent)
  }

  /** The effect of one event on the attribute values. */
  function Step(page: Page, s: seq<Aria>, e: Event): seq<Aria>
    requires page.Valid() && |s| == |page.ids|
  {
    match e
    case TriggerClick(k, inside) =>
      if k < |page.triggers| && BoundTooltip(page, page.triggers[k]).Some? then
        AfterTrigger(s, page.isContent, BoundTooltip(page, page.triggers[k]).value)
      else AfterDocumentClick(s, page.isContent, inside)
    case CloseClick(t, inside) =>
      if t < |s| && page.hasCloseButton[t] && CloseHandlerBound(page, t) then AfterClose(s, t)
      else AfterDocumentClick(s, page.isContent, inside)
    case OtherClick(inside) => AfterDocumentClick(s, page.isContent, inside)
    case KeyDown(key) => if key == "Escape" then AfterHideAll(s, page.isContent) else s
  }

  function Run(page: Page, s: seq<Aria>, events: seq<Event>): (r: seq<Aria>)
    requires page.Valid() && |s| == |page.ids|
    ensures |r| == |s|
    decreases |events|
  {
    if events == [] then s else Run(page, Step(page, s, events[0]), events[1..])
  }

  /** At most one tooltip content is shown (has `aria-hidden` other than `"true"`). */
  predicate AtMostOneOpen(s: seq<Aria>, isContent: seq<bool>)
    requires |isContent| == |s|
  {
    forall i, j :: 0 <= i < |s| && 0 <= j < |s| && isContent[i] && isContent[j] ==>
      !IsHidden(s[i]) && !IsHidden(s[j]) ==> i == j
  }

  // ---------------------------------------------------------------------------
  // Properties
  // ---------------------------------------------------------------------------

  /** A trigger click hides every other content, toggles its own tooltip and
      leaves every other element alone; afterwards at most one content is shown. */
  lemma TriggerClickRule(s: seq<Aria>, isContent: seq<bool>, tooltip: nat)
    requires |isContent| == |s| && tooltip < |s|
    ensures var r := AfterTrigger(s, isContent, tooltip);
      && |r| == |s|
      && r[tooltip] == (if s[tooltip] == Some("true") then Some("false") else Some("true"))
      && (forall i :: 0 <= i < |s| && i != tooltip && isContent[i] ==> r[i] == Some("true"))
      && (forall i :: 0 <= i < |s| && i != tooltip && !isContent[i] ==> r[i] == s[i])
      && AtMostOneOpen(r, isContent)
  {
  }

  /** The close button hides its own tooltip and leaves the others unchanged;
      closing twice is closing once. */
  lemma CloseRule(s: seq<Aria>, tooltip: nat)
    requires tooltip < |s|
    ensures var r := AfterClose(s, tooltip);
      && |r| == |s| && r[tooltip] == Some("true")
      && (forall i :: 0 <= i < |s| && i != tooltip ==> r[i] == s[i])
      && AfterClose(r, tooltip) == r
  {
  }

  /** Hiding all hides every content, touches nothing else, and is idempotent. */
  lemma HideAllRule(s: seq<Aria>, isContent: seq<bool>)
    requires |isContent| == |s|
    ensures var r := AfterHideAll(s, isContent);
      && |r| == |s|
      && (forall i :: 0 <= i < |s| && isContent[i] ==> IsHidden(r[i]))
      && (forall i :: 0 <= i < |s| && !isContent[i] ==> r[i] == s[i])
      && AfterHideAll(r, isContent) == r
  {
  }

  /** A bound trigger's handler stops propagation: the document's outside-click
      handler does not undo the toggle, wherever the trigger sits. */
  lemma TriggerClickNotUndone(page: Page, s: seq<Aria>, k: nat, insideTooltip: bool)
    requires page.Valid() && |s| == |page.ids|
    requires k < |page.triggers| && BoundTooltip(page, page.triggers[k]).Some?
    ensures var t := BoundTooltip(page, page.triggers[k]).value;
      Step(page, s, TriggerClick(k, insideTooltip))[t] == Toggled(s[t])
  {
  }

  /** Every event keeps "at most one content shown"; a bound trigger click
      establishes it from any state. */
  lemma StepKeepsAtMostOneOpen(page: Page, s: seq<Aria>, e: Event)
    requires page.Valid() && |s| == |page.ids|
    requires AtMostOneOpen(s, page.isContent) || (e.TriggerClick? && e.trigger < |page.triggers| && BoundTooltip(page, page.triggers[e.trigger]).Some?)
    ensures AtMostOneOpen(Step(page, s, e), page.isContent)
  {
    var r := Step(page, s, e);
    match e
    case TriggerClick(k, inside) =>
      if k < |page.triggers| && BoundTooltip(page, page.triggers[k]).Some? {
        TriggerClickRule(s, page.isContent, BoundTooltip(page, page.triggers[k]).value);
      } else {
        HideAllRule(s, page.isContent);
      }
    case CloseClick(t, inside) =>
      if t < |s| && page.hasCloseButton[t] && CloseHandlerBound(page, t) {
        forall i, j | 0 <= i < |r| && 0 <= j < |r| && page.isContent[i] && page.isContent[j] && !IsHidden(r[i]) && !IsHidden(r[j])
          ensures i == j
        {
          assert i != t && j != t;
          assert r[i] == s[i] && r[j] == s[j];
        }
      } else {
        HideAllRule(s, page.isContent);
      }
    case OtherClick(inside) =>
      HideAllRule(s, page.isContent);
    case KeyDown(key) =>
      HideAllRule(s, page.isContent);
  }

  /** From a state with at most one content shown (every content hidden, say),
      no sequence of events ever shows two. */
  lemma {:induction false} RunKeepsAtMostOneOpen(page: Page, s: seq<Aria>, events: seq<Event>)
    requires page.Valid() && |s| == |page.ids| && AtMostOneOpen(s, page.isContent)
    ensures AtMostOneOpen(Run(page, s, events), page.isContent)
    decreases |events|
  {
    if events != [] {
      StepKeepsAtMostOneOpen(page, s, events[0]);
      RunKeepsAtMostOneOpen(page, Step(page, s, events[0]), events[1..]);
    }
  }

  // ---------------------------------------------------------------------------
  // The handlers, in place
  // ---------------------------------------------------------------------------

  /** The trigger click handler for `tooltip`: close the other contents, then toggle. */
  method OnTriggerClick(aria: array<Aria>, isContent: seq<bool>, tooltip: nat)
    requires |isContent| == aria.Length && tooltip < aria.Length
    modifies aria
    ensures aria[..] == AfterTrigger(old(aria[..]), isContent, tooltip)
  {
    for i := 0 to aria.Length
      invariant forall j :: 0 <= j < i ==> aria[j] == (if isContent[j] && j != tooltip then Some("true") else old(aria[j]))
      invariant forall j :: i <= j < aria.Length ==> aria[j] == old(aria[j])
    {
      if isContent[i] && i != tooltip {
        aria[i] := Some("true");
      }
    }
    var isHidden := aria[tooltip] == Some("true");
    aria[tooltip] := if isHidden then Some("false") else Some("true");
  }

  /** The close button handler for `tooltip`. */
  method OnCloseClick(aria: array<Aria>, tooltip: nat)
    requires tooltip < aria.Length
    modifies aria
    ensures aria[..] == AfterClose(old(aria[..]), tooltip)
  {
    aria[tooltip] := Some("true");
  }

  /** Set every content's `aria-hidden` to `"true"`. */
  method HideAllContents(aria: array<Aria>, isContent: seq<bool>)
    requires |isContent| == aria.Length
    modifies aria
    ensures aria[..] == AfterHideAll(old(aria[..]), isContent)
  {
    for i := 0 to aria.Length
      invariant forall j :: 0 <= j < i ==> aria[j] == (if isContent[j] then Some("true") else old(aria[j]))
      invariant forall j :: i <= j < aria.Length ==> aria[j] == old(aria[j])
    {
      if isContent[i] {
        aria[i] := Some("true");
      }
    }
  }

  /** Dispatch one event to the handlers the page binds. */
  method Handle(page: Page, aria: array<Aria>, e: Event)
    requires page.Valid() && aria.Length == |page.ids|
    modifies aria
    ensures aria[..] == Step(page, old(aria[..]), e)
  {
    match e
    case TriggerClick(k, inside) =>
      if k < |page.triggers| && BoundTooltip(page, page.triggers[k]).Some? {
        OnTriggerClick(aria, page.isContent, BoundTooltip(page, page.triggers[k]).value);
      } else if !inside {
        HideAllContents(aria, page.isContent);
      }
    case CloseClick(t, inside) =>
      if t < aria.Length && page.hasCloseButton[t] && CloseHandlerBound(page, t) {
        OnCloseClick(aria, t);
      } else if !inside {
        HideAllContents(aria, page.isContent);
      }
    case OtherClick(inside) =>
      if !inside {
        HideAllContents(aria, page.isContent);
      }
    case KeyDown(key) =>
      if key == "Escape" {
        HideAllContents(aria, page.isContent);
      }
  }
}
