/**
 * The ingredient detail drawer (`assets/ingredient-drawer.js`, element
 * `ingredient-drawer`).
 *
 * `open(name, imageUrl, description)` fills the drawer's title, image and
 * description (each only if that element exists), adds
 * `ingredient-drawer--open` to the drawer and `page-overlay-ingredient-on` to
 * the body, sets `isOpen` and hides the body's overflow; `close` undoes the
 * flags, classes and overflow.  Clicks on the close button and on the overlay
 * close; Escape closes only while open; a click on an
 * `.ingredient-card-trigger` opens the drawer with the trigger's data values.
 */
module IngredientDrawer {
  import opened Dom

  /** The drawer image's `src` and `alt`. */
  datatype Image = Image(src: string, alt: string)

  /** The observable state of the drawer, the body and the content elements
      (a content element that does not exist is None). */
  datatype DrawerView = DrawerView(
    isOpen: bool,
    drawerOpenClass: bool,
    bodyOverlayClass: bool,
    bodyOverflow: string,
    title: Option<string>,
    image: Option<Image>,
    description: Option<string>)

  /** The flag, both classes and the overflow style agree. */
  predicate Consistent(v: DrawerView)
  {
    && v.drawerOpenClass == v.isOpen
    && v.bodyOverlayClass == v.isOpen
    && (v.bodyOverflow == "hidden") == v.isOpen
  }

  /** The state after `open(name, imageUrl, description)`. */
  function Opened(v: DrawerView, name: string, imageUrl: string, description: string): DrawerView
  {
    DrawerView(
      true, true, true, "hidden",
      if v.title.Some? then Some(name) else None,
      if v.image.Some? then Some(Image(imageUrl, name)) else None,
      if v.description.Some? then Some(description) else None)
  }

  /** The state after `close()`. */
  function Closed(v: DrawerView): DrawerView
  {
    v.(isOpen := false, drawerOpenClass := false, bodyOverlayClass := false, bodyOverflow := "")
  }

  /** A `.ingredient-card-trigger`: its `data-ingredient-name`,
      `data-ingredient-image` and `data-ingredient-full-description` values. */
  datatype Trigger = Trigger(ingredientName: string, ingredientImage: string, ingredientFullDescription: string)

  datatype Event = TriggerClick(trigger: Trigger) | CloseButtonClick | OverlayClick | KeyDown(key: string)

  function Step(v: DrawerView, e: Event): DrawerView
  {
    match e
    case TriggerClick(t) => Opened(v, t.ingredientName, t.ingredientImage, t.ingredientFullDescription)
    case CloseButtonClick => Closed(v)
    case OverlayClick => Closed(v)
    case KeyDown(key) => if key == "Escape" && v.isOpen then Closed(v) else v
  }

  function Run(v: DrawerView, events: seq<Event>): DrawerView
    decreases |events|
  {
    if events == [] then v else Run(Step(v, events[0]), events[1..])
  }

  // ---------------------------------------------------------------------------
  // Properties
  // ---------------------------------------------------------------------------

  /** After `open` the drawer is open and consistent, the existing content
      elements show the given values (the image's `alt` is the name), and the
      missing ones stay missing. */
  lemma OpenRule(v: DrawerView, name: string, imageUrl: string, description: string)
    ensures var r := Opened(v, name, imageUrl, description);
      && r.isOpen && Consistent(r)
      && (v.title.Some? <==> r.title == Some(name)) && (v.title.None? <==> r.title.None?)
      && (v.image.Some? <==> r.image == Some(Image(imageUrl, name))) && (v.image.None? <==> r.image.None?)
      && (v.description.Some? <==> r.description == Some(description)) && (v.description.None? <==> r.description.None?)
  {
  }

  /** After `close` the drawer is closed and consistent, the content is kept,
      and closing again changes nothing. */
  lemma CloseRule(v: DrawerView)
    ensures var r := Closed(v);
      && !r.isOpen && Consistent(r)
      && r.title == v.title && r.image == v.image && r.description == v.description
      && Closed(r) == r
  {
  }

  /** `open` then `close` returns the flags, classes and overflow to the
      initial closed state. */
  lemma OpenThenCloseRestoresFlags(v: DrawerView, name: string, imageUrl: string, description: string)
    requires !v.isOpen && !v.drawerOpenClass && !v.bodyOverlayClass && v.bodyOverflow == ""
    ensures var r := Closed(Opened(v, name, imageUrl, description));
      r.isOpen == v.isOpen && r.drawerOpenClass == v.drawerOpenClass
      && r.bodyOverlayClass == v.bodyOverlayClass && r.bodyOverflow == v.bodyOverflow
  {
  }

  /** Escape closes an open drawer; any other key, or Escape while closed,
      changes nothing. */
  lemma KeyRule(v: DrawerView, key: string)
    ensures key == "Escape" && v.isOpen ==> Step(v, KeyDown(key)) == Closed(v)
    ensures key != "Escape" || !v.isOpen ==> Step(v, KeyDown(key)) == v
  {
  }

  /** A trigger click opens the drawer with the trigger's three data values. */
  lemma TriggerOpensWithData(v: DrawerView, t: Trigger)
    ensures var r := Step(v, TriggerClick(t));
      && r.isOpen
      && (v.title.Some? ==> r.title == Some(t.ingredientName))
      && (v.image.Some? ==> r.image == Some(Image(t.ingredientImage, t.ingredientName)))
      && (v.description.Some? ==> r.description == Some(t.ingredientFullDescription))
  {
  }

  /** Every handler keeps the flag, the classes and the overflow in agreement. */
  lemma StepStaysConsistent(v: DrawerView, e: Event)
    requires Consistent(v)
    ensures Consistent(Step(v, e))
  {
  }

  /** Starting consistent (the closed state, say), every run of events keeps
      the flag, the classes and the overflow in agreement. */
  lemma {:induction false} RunStaysConsistent(v: DrawerView, events: seq<Event>)
    requires Consistent(v)
    ensures Consistent(Run(v, events))
    decreases |events|
  {
    if events != [] {
      StepStaysConsistent(v, events[0]);
      RunStaysConsistent(Step(v, events[0]), events[1..]);
    }
  }

  // ---------------------------------------------------------------------------
  // The element
  // ---------------------------------------------------------------------------

  class IngredientDrawer {
    var isOpen: bool
    /** The drawer carries `ingredient-drawer--open`. */
    var drawerOpenClass: bool
    /** The body carries `page-overlay-ingredient-on`. */
    var bodyOverlayClass: bool
    /** The body carries `drawers-animated`. */
    var bodyAnimated: bool
    /** `body.style.overflow`. */
    var bodyOverflow: string
    /** The title's `textContent`; None when there is no title element. */
    var title: Option<string>
    /** The image's `src` and `alt`; None when there is no image element. */
    var image: Option<Image>
    /** The description's content; None when there is no description element. */
    var description: Option<string>

    function View(): DrawerView
      reads this
    {
      DrawerView(isOpen, drawerOpenClass, bodyOverlayClass, bodyOverflow, title, image, description)
    }

    /** The constructor and `init`: `isOpen` starts false, `drawers-animated`
        is added to the body, and the classes and overflow the page already
        has are left as they are. */
    constructor (markup: DrawerView)
      ensures View() == markup.(isOpen := false)
      ensures bodyAnimated
    {
      isOpen := false;
      drawerOpenClass := markup.drawerOpenClass;
      bodyOverlayClass := markup.bodyOverlayClass;
      bodyOverflow := markup.bodyOverflow;
      title := markup.title;
      image := markup.image;
      description := markup.description;
      bodyAnimated := true;
    }

    method Open(name: string, imageUrl: string, desc: string)
      modifies this
      ensures View() == Opened(old(View()), name, imageUrl, desc)
      ensures bodyAnimated == old(bodyAnimated)
    {
      // clear the old image first
      if image.Some? {
        image := Some(Image("", ""));
      }
      if title.Some? {
        title := Some(name);
      }
      if image.Some? {
        image := Some(image.value.(src := imageUrl));
        image := Some(image.value.(alt := name));
      }
      if description.Some? {
        description := Some(desc);
      }
      drawerOpenClass := true;
      bodyOverlayClass := true;
      isOpen := true;
      bodyOverflow := "hidden";
    }

    method Close()
      modifies this
      ensures View() == Closed(old(View()))
      ensures bodyAnimated == old(bodyAnimated)
    {
      drawerOpenClass := false;
      bodyOverlayClass := false;
      isOpen := false;
      bodyOverflow := "";
    }

    /** The document's keydown handler. */
    method OnKeyDown(key: string)
      modifies this
      ensures View() == Step(old(View()), KeyDown(key))
      ensures bodyAnimated == old(bodyAnimated)
    {
      if key == "Escape" && isOpen {
        Close();
      }
    }

    /** A click on an ingredient card trigger. */
    method OnTriggerClick(t: Trigger)
      modifies this
      ensures View() == Step(old(View()), TriggerClick(t))
      ensures bodyAnimated == old(bodyAnimated)
    {
      var name := t.ingredientName;
      var imageUrl := t.ingredientImage;
      var desc := t.ingredientFullDescription;
      Open(name, imageUrl, desc);
    }
  }
}
