/** The mobile navigation menu (initMobileMenu in script.js).

    Three pieces of page state take part: the `active` class of the toggle button,
    the `active` class of the navigation panel, and the inline `overflow` style of the
    page body. A click on the toggle flips both classes, each on its own, and then
    locks the body's scrolling exactly when the panel is open. A click on any link
    inside the panel closes everything. When either element is missing no handler is
    installed, so no event below can happen. */
module MobileMenu {

  /** The two values the handlers write to `document.body.style.overflow`. */
  const Hidden: string := "hidden"
  const Unset: string := ""

  /** The toggle's class, the panel's class and the body's overflow style. */
  datatype Menu = Menu(toggleActive: bool, navActive: bool, overflow: string)

  const Closed: Menu := Menu(false, false, Unset)
  const Open: Menu := Menu(true, true, Hidden)

  /** The scroll lock that belongs with a panel state. */
  function LockFor(navActive: bool): string
  {
    if navActive then Hidden else Unset
  }

  /** The toggle's click handler: each class is toggled, then the lock follows the panel's new class. */
  function ToggleClick(m: Menu): Menu
  {
    Menu(!m.toggleActive, !m.navActive, LockFor(!m.navActive))
  }

  /** A navigation link's click handler: both classes removed and the lock cleared, whatever came before. */
  function LinkClick(m: Menu): Menu
  {
    Menu(false, false, Unset)
  }

  datatype Event = ToggleClicked | LinkClicked

  function Apply(m: Menu, e: Event): Menu
  {
    match e
    case ToggleClicked => ToggleClick(m)
    case LinkClicked => LinkClick(m)
  }

  /** The state after the events of `evs`, in order. */
  function Run(m: Menu, evs: seq<Event>): Menu
    decreases |evs|
  {
    if evs == [] then m else Apply(Run(m, evs[..|evs| - 1]), evs[|evs| - 1])
  }

  /** The three values agree: both classes are equal, and the body is locked exactly when the panel is open. */
  ghost predicate Coupled(m: Menu)
  {
    m.toggleActive == m.navActive && m.overflow == LockFor(m.navActive)
  }

  /** The number of toggle clicks since the last link click (or since the start). */
  function TogglesSinceLink(evs: seq<Event>): nat
    decreases |evs|
  {
    if evs == [] then 0
    else if evs[|evs| - 1] == LinkClicked then 0
    else TogglesSinceLink(evs[..|evs| - 1]) + 1
  }

  /** The page state the handlers act on. */
  class MenuController {
    var toggleActive: bool
    var navActive: bool
    var overflow: string

    function State(): Menu
      reads this
    {
      Menu(toggleActive, navActive, overflow)
    }

    /** Installing the handlers changes nothing: the state is whatever the markup gives. */
    constructor (markup: Menu)
      ensures State() == markup
    {
      toggleActive := markup.toggleActive;
      navActive := markup.navActive;
      overflow := markup.overflow;
    }

    method OnToggleClick()
      modifies this
      ensures State() == ToggleClick(old(State()))
      ensures Coupled(old(State())) ==> Coupled(State())
    {
      toggleActive := !toggleActive;
      navActive := !navActive;
      overflow := if navActive then Hidden else Unset;
    }

    method OnLinkClick()
      modifies this
      ensures State() == LinkClick(old(State()))
      ensures State() == Closed && Coupled(State())
    {
      toggleActive := false;
      navActive := false;
      overflow := Unset;
    }
  }

  /** A toggle click flips each class, and after it the lock always matches the panel,
      even when the two classes disagreed before. */
  lemma ToggleFlipsBoth(m: Menu)
    ensures ToggleClick(m).toggleActive != m.toggleActive
    ensures ToggleClick(m).navActive != m.navActive
    ensures ToggleClick(m).overflow == Hidden <==> ToggleClick(m).navActive
  {
  }

  /** Two toggle clicks give back both classes; they give back the lock exactly when the
      lock matched the panel before. */
  lemma DoubleToggle(m: Menu)
    ensures ToggleClick(ToggleClick(m)).toggleActive == m.toggleActive
    ensures ToggleClick(ToggleClick(m)).navActive == m.navActive
    ensures ToggleClick(ToggleClick(m)) == m <==> m.overflow == LockFor(m.navActive)
  {
  }

  /** A link click closes everything whatever the prior state, so a second one changes nothing. */
  lemma LinkClickCloses(m: Menu)
    ensures LinkClick(m) == Closed
    ensures LinkClick(LinkClick(m)) == LinkClick(m)
  {
  }

  /** Agreement is an invariant of every event sequence. */
  lemma {:induction false} RunKeepsCoupled(m: Menu, evs: seq<Event>)
    requires Coupled(m)
    ensures Coupled(Run(m, evs))
    decreases |evs|
  {
    if evs != [] {
      RunKeepsCoupled(m, evs[..|evs| - 1]);
    }
  }

  /** From the closed page the menu is open exactly when an odd number of toggle clicks
      followed the last link click; in every case the three values agree. */
  lemma {:induction false} RunFromClosed(evs: seq<Event>)
    ensures Run(Closed, evs) == if TogglesSinceLink(evs) % 2 == 1 then Open else Closed
    ensures Coupled(Run(Closed, evs))
    decreases |evs|
  {
    if evs != [] {
      RunFromClosed(evs[..|evs| - 1]);
    }
  }
}
