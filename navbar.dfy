/** The navbar scroll effect: the `scrolled` class follows the vertical
    scroll offset. */
module Navbar {

  /** Offsets strictly above this many pixels mark the navbar as scrolled. */
  const ScrollThreshold := 50

  /** Whether the navbar carries `scrolled` after one scroll event at offset
      `scrollY`; `present` is false when the page has no navbar element, and
      `was` is the class before the event. */
  function ScrolledAfter(present: bool, was: bool, scrollY: int): (scrolled: bool)
    ensures present ==> (scrolled <==> scrollY > ScrollThreshold)
    ensures !present ==> scrolled == was
  {
    if !present then was else scrollY > ScrollThreshold
  }

  /** A second event at the same offset changes nothing. */
  lemma ScrollIdempotent(present: bool, was: bool, scrollY: int)
    ensures ScrolledAfter(present, ScrolledAfter(present, was, scrollY), scrollY)
         == ScrolledAfter(present, was, scrollY)
  {
  }

  /** With a navbar, the class depends on the latest offset alone. */
  lemma ScrollForgetsHistory(was1: bool, was2: bool, scrollY: int)
    ensures ScrolledAfter(true, was1, scrollY) == ScrolledAfter(true, was2, scrollY)
  {
  }

  class NavbarState {
    const present: bool
    var scrolled: bool

    constructor (hasNavbar: bool)
      ensures present == hasNavbar && !scrolled
    {
      present := hasNavbar;
      scrolled := false;
    }

    /** The `scroll` listener. */
    method OnScroll(scrollY: int)
      modifies this
      ensures scrolled == ScrolledAfter(present, old(scrolled), scrollY)
    {
      if !present {
        return;
      }
      if scrollY > ScrollThreshold {
        scrolled := true;
      } else {
        scrolled := false;
      }
    }
  }
}
