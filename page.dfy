/**
 * The two class-flag machines of the page frame: the mobile navigation toggle
 * and the header's `scrolled` state.
 */
module Page {

  /** Scroll offset, in pixels, past which the header counts as scrolled. */
  const ScrolledThreshold: int := 100

  class MobileNav {
    /** Whether the page has a `.nav-toggle` button at all. */
    const hasToggle: bool
    /** `active` class of the toggle button. */
    var toggleActive: bool
    /** `active` class of the `.nav` menu. */
    var navActive: bool
    /** `document.body.style.overflow` is `hidden` (otherwise empty). */
    var scrollLocked: bool

    /** The page scroll is locked exactly while the menu is open, and the
        button and menu are open together. */
    ghost predicate Valid()
      reads this
    {
      scrollLocked == navActive && toggleActive == navActive
    }

    /** The page as loaded: menu closed, page scrollable. */
    constructor (hasToggle: bool)
      ensures Valid() && this.hasToggle == hasToggle
      ensures !navActive
    {
      this.hasToggle := hasToggle;
      toggleActive, navActive, scrollLocked := false, false, false;
    }

    /** A click on the toggle button (its handler exists only with a button). */
    method ToggleClick()
      requires Valid()
      modifies this
      ensures Valid()
      ensures hasToggle ==> navActive == !old(navActive)
      ensures !hasToggle ==> navActive == old(navActive)
    {
      if hasToggle {
        toggleActive := !toggleActive;
        navActive := !navActive;
        scrollLocked := navActive;
      }
    }

    /** A click on any navigation link closes the menu. */
    method LinkClick()
      requires Valid()
      modifies this
      ensures Valid()
      ensures hasToggle ==> !navActive
      ensures !hasToggle ==> navActive == old(navActive)
    {
      if hasToggle {
        toggleActive := false;
        navActive := false;
        scrollLocked := false;
      }
    }
  }

  class Header {
    /** `scrolled` class of the `.header`. */
    var scrolled: bool

    constructor ()
      ensures !scrolled
    {
      scrolled := false;
    }

    /** The scroll handler: `scrolled` iff the page offset exceeds the
        threshold, whatever the flag was before. */
    method OnScroll(offset: int)
      modifies this
      ensures scrolled <==> offset > ScrolledThreshold
    {
      if offset > ScrolledThreshold {
        scrolled := true;
      } else {
        scrolled := false;
      }
    }
  }
}
