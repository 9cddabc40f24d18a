# Theme scripts: a verified model

This project models the behaviour of five browser scripts of a Shopify theme. Each is a small state machine or decision rule wrapped in DOM glue.

- **Ingredients navigation** (`assets/ingredients-navigation.js`)
  - registers the navigation links whose `data-product-handle` names an element;
  - on a throttled scroll, marks the link of the most visible section as active;
  - on a click, scrolls to the section less the header height and 20 pixels.
- **Page header image banner** (`assets/page-header-image-banner.js`)
  - decides whether the banner is the first `<section>` after `header.page-header` and the header is transparent-capable;
  - pulls the section up by a negative margin;
  - keeps `wt-header--transparent` exactly while the hero intersects and `pageYOffset < 100`.
- **Dynamic header height** (`assets/dynamic-header-height.js`): on mobile widths, writes the header height, the visible announcement bar and a 16 pixel buffer to `--dynamic-header-height`, behind a trailing-edge debounce.
- **Info tooltips** (`assets/info-tooltip.js`): trigger, close-button, outside-click and Escape handlers over the `aria-hidden` attribute of the tooltip contents.
- **Ingredient drawer** (`assets/ingredient-drawer.js`): an open flag that `open` and `close` keep in agreement with two CSS classes and the body's overflow style, plus the content `open` writes.

One Dafny module per script, with a shared `Dom` module for optional values, attribute truthiness and `getElementById`.

- **Inputs as values.** The DOM is given to each operation as a value: element ids in tree order, bounding rectangles, `offsetHeight`s, attribute values as `Option<string>`.
- **Timers.** Timer expiries, observer entries and scroll events are explicit inputs.
- **Code shape.**
  - Where the script updates an object's fields, the model is a class with `modifies` clauses. Its methods are proved against pure functions of the old state.
  - Where the script loops, the model loops too, with invariants.
  - The tooltip handlers update an `array` of `aria-hidden` values in place.
- **Ratios.** They are exact reals. A zero-height section gives `NaN`, which never compares greater, as in JavaScript.

Where the code and its written description differ, the model follows the code:

- A section gets visibility ratio 1 only when it lies wholly inside the viewport. A section taller than the viewport that fills it gets less than 1.
- The banner's `disconnectedCallback` does not detach the window scroll handler: it is removed from `document`, not `window`. It also does not detach the admin-editing listeners, because each removal passes a freshly bound function. `ImageBanner.DisconnectedCallback` and `ImageBanner.ConnectedCallback` state this as written.
- The banner never sets `wt-header--transparent` itself when it starts observing: a class present in the markup stays until the first observer entry arrives. So the class rule is proved from a coherent state, or for runs that begin with an observer entry.

## Model

| member | source | states |
|---|---|---|
| Dom.FirstIdFrom | assets/ingredients-navigation.js:15 | the result is the first position at or after `from` holding the key; None only when no later position holds it |
| Dom.GetElementById | assets/info-tooltip.js:7 | an element is found iff the key is non-empty and some element has that id; the one found is the first in tree order |
| IngredientsNavigation.Registered | assets/ingredients-navigation.js:12-24 | scanning n links registers at most n sections, each belonging to one of those links |
| IngredientsNavigation.RegisteredEntriesResolve | assets/ingredients-navigation.js:12-24 | every registered entry holds a non-empty handle equal to its link's `data-product-handle`, and the element that handle resolves to |
| IngredientsNavigation.RegisteredInLinkOrder | assets/ingredients-navigation.js:12-24 | registered entries appear in strictly increasing link order |
| IngredientsNavigation.RegisteredCoversResolvingLinks | assets/ingredients-navigation.js:12-24 | a link among the first n is registered iff its handle is non-empty and resolves to an element |
| IngredientsNavigation.RegistrationFilters | assets/ingredients-navigation.js:12-24 | a link is registered iff its handle is non-empty and resolves; each entry holds that link's handle and the element it resolves to; entries are in strictly increasing link order (each link once) |
| IngredientsNavigation.CollectSections | assets/ingredients-navigation.js:12-24 | the loop pushing resolved links computes exactly the registration above |
| IngredientsNavigation.VisibleHeight | assets/ingredients-navigation.js:74-76 | the clamped visible height never exceeds the section's height |
| IngredientsNavigation.VisibilityRatio | assets/ingredients-navigation.js:69-77 | the ratio is NaN exactly for a zero-height section, and otherwise lies in [0, 1] |
| IngredientsNavigation.RatioIgnoresScroll | assets/ingredients-navigation.js:69-77 | the ratio is the same for every `scrollTop`, since the viewport-relative rectangle is shifted back |
| IngredientsNavigation.RatioOneIffWhollyInside | assets/ingredients-navigation.js:69-77 | a section of positive height has ratio 1 iff it lies wholly inside the viewport |
| IngredientsNavigation.WhollyOutsideHasRatioZero | assets/ingredients-navigation.js:69-77 | a section of positive height wholly above or below the viewport has ratio 0 |
| IngredientsNavigation.RatioPositiveIffSharesRow | assets/ingredients-navigation.js:69-77 | the ratio is positive iff some row of the viewport shows part of the section |
| IngredientsNavigation.SelectionUnique | assets/ingredients-navigation.js:79-82 | the selection rule (positive, strictly above every earlier ratio, at least every later one) picks at most one section |
| IngredientsNavigation.SelectedAmongExists | assets/ingredients-navigation.js:65-83 | after the first n ratios, as soon as one of them is positive, some section satisfies the selection rule over that prefix (the running maximum the loop keeps) |
| IngredientsNavigation.SelectedExists | assets/ingredients-navigation.js:65-83 | whenever some ratio is positive, some section is selected |
| IngredientsNavigation.VisibleSectionMarked | assets/ingredients-navigation.js:85-92 | when some section has a positive ratio, marking the selected section leaves some registered link active |
| IngredientsNavigation.WhollyVisibleWins | assets/ingredients-navigation.js:65-83 | a section of positive height wholly inside the viewport is selected when no earlier section of positive height is wholly inside (a zero-height section has ratio NaN and is never selected) |
| IngredientsNavigation.SelectMostVisible | assets/ingredients-navigation.js:65-83 | the loop returns the section with maximal ratio, the earliest on a tie; it returns none exactly when no ratio is positive |
| IngredientsNavigation.HandleNavClick | assets/ingredients-navigation.js:38-56 | the default is always prevented; a scroll is issued iff the handle resolves, to `offsetTop - headerHeight - 20`, with header height 0 when there is no header |
| IngredientsNavigation.ClickScrollsToRegisteredSection | assets/ingredients-navigation.js:38-56 | clicking a registered link scrolls to the very element registered for it |
| IngredientsNavigation.BurstRunsAtMostOnce | assets/ingredients-navigation.js:95-106 | a burst of calls runs the function once when the throttle is open, never when it is closed, and leaves it closed |
| IngredientsNavigation.OneRunPerWindow | assets/ingredients-navigation.js:95-106 | starting with the throttle open, windows of one or more calls, each ended by the timer's expiry, run the function exactly once per window and leave the throttle open |
| IngredientsNavigation.RunsBoundedByExpiries | assets/ingredients-navigation.js:95-106 | over any run of calls and expiries, the function runs at most once more than there were expiries |
| IngredientsNavigation.ClearThenMarkSelects | assets/ingredients-navigation.js:85-92 | clearing every registered link and then marking the selected one leaves each registered link active iff its section is selected, at most one of them active, and unregistered links untouched |
| IngredientsNavigation.IngredientsNavigation.constructor | assets/ingredients-navigation.js:2-30 | the sections are the registration of the links; the scroll handler is installed iff at least one section was found |
| IngredientsNavigation.IngredientsNavigation.UpdateActiveStates | assets/ingredients-navigation.js:58-93 | exactly the most visible section's link is active among the registered links, at most one is, some one is whenever a section is visible, and other links keep their class |
| IngredientsNavigation.IngredientsNavigation.OnScroll | assets/ingredients-navigation.js:95-106 | with the handler installed and the throttle open, the links are updated and the throttle closes; otherwise nothing changes |
| IngredientsNavigation.IngredientsNavigation.OnThrottleTimer | assets/ingredients-navigation.js:103 | the timer's expiry reopens the throttle |
| IngredientsNavigation.IngredientsNavigation.DisconnectedCallback | assets/ingredients-navigation.js:108-112 | the scroll handler is detached, so later scrolls change no link |
| PageHeaderImageBanner.FirstSectionFrom | assets/page-header-image-banner.js:138-141 | the result is the first sibling at or after `from` whose lower-cased tag is `section`; None when there is none |
| PageHeaderImageBanner.ValidOrderMeans | assets/page-header-image-banner.js:133-145 | the order is valid iff the page header and the section exist and the first `section` sibling after the header is the banner's section; false when no sibling is a section |
| PageHeaderImageBanner.IsValidSectionsOrder | assets/page-header-image-banner.js:133-145 | the `nextElementSibling` walk computes exactly that order test |
| PageHeaderImageBanner.IsTransparentHeaderEnabled | assets/page-header-image-banner.js:147-153 | enabled iff the order is valid and `.wt-header` has a non-empty `data-transparent` |
| PageHeaderImageBanner.Offset | assets/page-header-image-banner.js:155-166 | defined iff the document has a `<header>`; 0 when not enabled; otherwise header height plus announcement height, the announcement counting 0 when absent, so never negative |
| PageHeaderImageBanner.CalculateOffset | assets/page-header-image-banner.js:155-166 | `calculateOffset` returns that offset, and fails only without a `<header>` |
| PageHeaderImageBanner.EnabledHasOffset | assets/page-header-image-banner.js:155-166 | when enabled, the first `<header>` exists, so the offset is defined |
| PageHeaderImageBanner.ScrollRule | assets/page-header-image-banner.js:93-102 | the scroll handler leaves the class alone while the hero does not intersect; otherwise the class is present iff `pageYOffset < 100` |
| PageHeaderImageBanner.TwoInputRule | assets/page-header-image-banner.js:93-124 | from a coherent state (the class on only while the hero is known to intersect), after an observer entry or a scroll the state is still coherent and the class is present iff the hero intersects and that event's `pageYOffset < 100` |
| PageHeaderImageBanner.RunFollowsLastEvent | assets/page-header-image-banner.js:87-131 | after a non-empty run of entries and scrolls that starts from a coherent state or with an observer entry, the class is present iff the hero intersects and the last event's `pageYOffset < 100` |
| PageHeaderImageBanner.ImageBanner.constructor | assets/page-header-image-banner.js:5-13 | the banner remembers its closest section; no margin, observer or listener exists yet |
| PageHeaderImageBanner.ImageBanner.Init | assets/page-header-image-banner.js:36-48 | when enabled: margin is `-offset`, the logo shows, a new observer and window scroll handler are installed. When not enabled: margin is 0, the logo is hidden, the other state is unchanged. It fails, changing nothing, where the script throws |
| PageHeaderImageBanner.ImageBanner.ConnectedCallback | assets/page-header-image-banner.js:15-30 | leaves the margin, logo class, observer, scroll listener and window handler exactly as `init` does in each branch (the class on the header unchanged), fails where `init` throws and then changes nothing, and otherwise adds three more admin-editing listeners |
| PageHeaderImageBanner.ImageBanner.ObserveHeader | assets/page-header-image-banner.js:87-131 | a fresh closure starts with the hero not intersecting; the observer and the window scroll handler are installed |
| PageHeaderImageBanner.ImageBanner.OnIntersection | assets/page-header-image-banner.js:104-124 | handles each entry in order by the entry rule; does nothing when no observer is connected |
| PageHeaderImageBanner.ImageBanner.OnScroll | assets/page-header-image-banner.js:93-102 | applies the scroll rule while a window scroll handler is attached |
| PageHeaderImageBanner.ImageBanner.RemoveObserver | assets/page-header-image-banner.js:50-56 | afterwards no observer is connected; when none was, nothing changes |
| PageHeaderImageBanner.ImageBanner.DisconnectedCallback | assets/page-header-image-banner.js:62-85 | the logo class is removed, the observer disconnected and `scrollListener` cleared; the window scroll handler and the admin listeners stay attached |
| DynamicHeaderHeight.HeaderTotal | assets/dynamic-header-height.js:14-37 | no total above 899 pixels or without a header; otherwise header + 16, plus the announcement height when that bar exists with positive height; so at least header + 16, exactly that iff no visible bar |
| DynamicHeaderHeight.AnnouncementGuardImmaterial | assets/dynamic-header-height.js:25-27 | the `> 0` guard never changes the sum |
| DynamicHeaderHeight.CallsOnlySchedule | assets/dynamic-header-height.js:40-44 | calls alone never calculate, and leave a timer pending |
| DynamicHeaderHeight.OneCalculationPerBurst | assets/dynamic-header-height.js:40-44 | each burst of calls followed by the timer yields exactly one calculation, reading the window as it is when the last call's timer fires |
| DynamicHeaderHeight.AtMostOneCalculationPerFire | assets/dynamic-header-height.js:40-44 | never more calculations than timer expiries |
| DynamicHeaderHeight.HeaderHeightCalculator.constructor | assets/dynamic-header-height.js:40 | no timer pending and no height written yet |
| DynamicHeaderHeight.HeaderHeightCalculator.CalculateHeaderHeight | assets/dynamic-header-height.js:14-37 | writes the total when there is one and otherwise leaves the property as it was; nothing else is written |
| DynamicHeaderHeight.HeaderHeightCalculator.DebouncedCalculate | assets/dynamic-header-height.js:41-44 | whatever was pending, exactly one timer is pending afterwards |
| DynamicHeaderHeight.HeaderHeightCalculator.OnTimerFired | assets/dynamic-header-height.js:43 | the pending timer's expiry runs the calculation once and clears it; a cleared timer does nothing |
| InfoTooltip.BoundTooltip | assets/info-tooltip.js:6-9 | a trigger is bound iff its `aria-describedby` is non-empty and names an element; the bound tooltip is that element |
| InfoTooltip.TriggerClickRule | assets/info-tooltip.js:15-24 | every other content is hidden, the own tooltip toggles (`"true"` to `"false"`, anything else to `"true"`), other elements are untouched, and at most one content is shown afterwards |
| InfoTooltip.CloseRule | assets/info-tooltip.js:28-34 | the close button hides its tooltip, leaves the others alone, and a second close changes nothing |
| InfoTooltip.HideAllRule | assets/info-tooltip.js:39-55 | an outside click or Escape hides every content, touches no other element, and is idempotent |
| InfoTooltip.TriggerClickNotUndone | assets/info-tooltip.js:11-13 | because the trigger handler stops propagation, the outside-click handler never undoes the toggle |
| InfoTooltip.StepKeepsAtMostOneOpen | assets/info-tooltip.js:5-55 | every event keeps at most one content shown, and a bound trigger click establishes it from any state |
| InfoTooltip.RunKeepsAtMostOneOpen | assets/info-tooltip.js:1-56 | from a state with at most one content shown, no sequence of events shows two |
| InfoTooltip.OnTriggerClick | assets/info-tooltip.js:11-25 | the array afterwards is the trigger rule applied to the old values |
| InfoTooltip.OnCloseClick | assets/info-tooltip.js:30-34 | the array afterwards is the close rule applied to the old values |
| InfoTooltip.HideAllContents | assets/info-tooltip.js:42-44 | the array afterwards is the old values with every content hidden |
| InfoTooltip.Handle | assets/info-tooltip.js:1-56 | each event runs the handlers the page binds (a stopped click does not reach the document), so the array follows the step rule |
| IngredientDrawer.OpenRule | assets/ingredient-drawer.js:54-91 | `open` leaves the drawer open with flag, both classes and hidden overflow in agreement; existing elements show the name, image `src` and `alt` (the name), and description; missing ones stay missing |
| IngredientDrawer.CloseRule | assets/ingredient-drawer.js:93-103 | `close` leaves the drawer closed and consistent, keeps the content, and is idempotent |
| IngredientDrawer.OpenThenCloseRestoresFlags | assets/ingredient-drawer.js:54-103 | from the closed state, `open` then `close` restores the flag, both classes and the overflow |
| IngredientDrawer.KeyRule | assets/ingredient-drawer.js:32-36 | Escape closes an open drawer; any other key, or Escape while closed, changes nothing |
| IngredientDrawer.TriggerOpensWithData | assets/ingredient-drawer.js:43-49 | a trigger click opens the drawer with the trigger's name, image and full description |
| IngredientDrawer.StepStaysConsistent | assets/ingredient-drawer.js:18-36 | each handler (trigger, close button, overlay, key) keeps the flag, classes and overflow in agreement |
| IngredientDrawer.RunStaysConsistent | assets/ingredient-drawer.js:13-103 | starting consistent (the closed state, say), every sequence of events keeps them in agreement |
| IngredientDrawer.IngredientDrawer.constructor | assets/ingredient-drawer.js:2-20 | the drawer starts closed with `drawers-animated` on the body; classes, overflow and content are as the markup has them |
| IngredientDrawer.IngredientDrawer.Open | assets/ingredient-drawer.js:54-91 | the new state is the `open` rule applied to the old one; the image ends with the new `src` and `alt` despite being cleared first |
| IngredientDrawer.IngredientDrawer.Close | assets/ingredient-drawer.js:93-103 | the new state is the `close` rule applied to the old one |
| IngredientDrawer.IngredientDrawer.OnKeyDown | assets/ingredient-drawer.js:32-36 | the new state is the key rule applied to the old one |
| IngredientDrawer.IngredientDrawer.OnTriggerClick | assets/ingredient-drawer.js:43-50 | the new state is `open` with the trigger's three data values |

## Left out

- DOM querying and listener wiring: `querySelector`/`querySelectorAll`, `addEventListener`, `customElements.define`/`get`. The model takes what these would find as values, and represents a bound handler as an event the model dispatches.
- The `DOMContentLoaded` auto-initialisation of the ingredients navigation (`assets/ingredients-navigation.js:116-124`): `new IngredientsNavigation.call(nav)` is not a usable constructor call.
- The navigation reads the handle from `event.target` at click time. The model takes the clicked link itself, not a descendant element of it.
- `IntersectionObserver` and `MutationObserver` are left out: an observer entry is an input carrying `isIntersecting`, and a mutation is a debounced call.
- Observers and scroll handlers leaked by re-running the banner's `init`: each admin event on an enabled banner installs another observer and window scroll handler without removing the old ones (a banner that is not enabled installs nothing). The model keeps only the latest closure's `heroIsIntersecting`, and records whether a window handler is attached, not how many.
- `handleAdminEditing` is not a separate member: it runs `init`, which `ImageBanner.Init` models.
- The banner's constructor throws when there is no `.wt-header`. That constructor is not modelled as failing; `isMobile` is computed there but never used.
- The banner reads the logo through `this.logoWrapper` in `disconnectedCallback` and through a fresh query in `init`. The model treats them as the same element.
- A missing drawer, overlay or close button. `init` throws when the close button or the overlay is missing. Without `.ingredient-drawer`, the element constructs without error, but `open` throws after writing the title, image and description, before any class, flag or overflow change, and `close` throws without changing anything. The model takes all three to exist; missing title, image and description elements are modelled.
- Drawer triggers with missing data attributes pass `undefined` to `open`. The model takes the three data values as strings.
- Real time: the 100 ms throttle and 300 ms debounce timers are explicit expiry events.
- The initial `calculateHeaderHeight` call at load and the registration of the resize listener and mutation observer are left out; each is one `CalculateHeaderHeight` or `DebouncedCalculate`.
- Side effects with no logic to state: smooth scrolling, `focus()`, `CustomEvent` dispatch, `preventDefault` on tooltip and drawer triggers, `console.log`, and rendering of the description as HTML (the model stores the string written to `innerHTML`).
- Floating point: geometry is in integer pixels and ratios are exact reals.
- CSS strings: the margin is kept as the pixel number behind `-${offset}px` and `"0"`, and the header height as the number behind `totalHeight + 'px'`.
- `toLowerCase` on tag names is modelled for ASCII letters only.
