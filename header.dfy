/** The sticky header's scroll handler (initHeader in script.js).

    On every scroll event the handler compares the page's vertical offset with a
    fixed threshold and adds or removes the header's `scrolled` class. It also
    stores the offset in a variable that nothing ever reads. Offsets are JavaScript
    numbers, modelled as reals (they may be fractional or, with elastic scrolling,
    negative). */
module Header {

  /** Offset, in CSS pixels, above which the header carries the `scrolled` class. */
  const Threshold: real := 50.0

  /** The class decision of one scroll event: strictly above the threshold. */
  predicate Scrolled(scrollY: real)
  {
    scrollY > Threshold
  }

  /** The header element's `scrolled` class together with the handler's `lastScroll` variable. */
  class HeaderController {
    var scrolled: bool
    var lastScroll: real

    /** The handler is installed without being run: the class keeps whatever the markup gave it. */
    constructor (markupScrolled: bool)
      ensures scrolled == markupScrolled && lastScroll == 0.0
    {
      scrolled := markupScrolled;
      lastScroll := 0.0;
    }

    /** One scroll event: the class follows the current offset alone. */
    method OnScroll(currentScroll: real)
      modifies this
      ensures scrolled == Scrolled(currentScroll)
      ensures lastScroll == currentScroll
    {
      if currentScroll > Threshold {
        scrolled := true;
      } else {
        scrolled := false;
      }
      lastScroll := currentScroll;
    }
  }

  /** The class after the handler has run once for each offset, in order, starting from `scrolled`. */
  function AfterScrolls(scrolled: bool, offsets: seq<real>): bool
    decreases |offsets|
  {
    if offsets == [] then scrolled else AfterScrolls(Scrolled(offsets[0]), offsets[1..])
  }

  /** History does not matter: after any nonempty run of scroll events the class is decided
      by the last offset, whatever the class was before and whatever the earlier offsets were. */
  lemma {:induction false} OnlyLastOffsetMatters(scrolled: bool, offsets: seq<real>)
    requires offsets != []
    ensures AfterScrolls(scrolled, offsets) == Scrolled(offsets[|offsets| - 1])
    decreases |offsets|
  {
    if |offsets| > 1 {
      OnlyLastOffsetMatters(Scrolled(offsets[0]), offsets[1..]);
    }
  }

  /** The comparison is strict, and crossing it toggles the class in both directions:
      an offset of exactly 50 is not scrolled, any larger offset is. */
  lemma CrossingTheThreshold(scrolled: bool, below: real, above: real)
    requires below <= Threshold < above
    ensures !Scrolled(Threshold)
    ensures AfterScrolls(scrolled, [below, above])
    ensures !AfterScrolls(scrolled, [above, below])
  {
    OnlyLastOffsetMatters(scrolled, [below, above]);
    OnlyLastOffsetMatters(scrolled, [above, below]);
  }
}
