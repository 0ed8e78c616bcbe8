/** The mobile menu: the hamburger button's "active" look and the link list's
    "open" state, flipped together by a button click and both cleared by a
    click on any navigation link. */
module Menu {

  datatype MenuState = MenuState(hamburgerActive: bool, linksOpen: bool)

  datatype MenuEvent = HamburgerClick | NavLinkClick

  /** Both flags off, as the page is first shown. */
  const Closed := MenuState(false, false)

  /** A click on the hamburger toggles each flag. */
  function OnHamburgerClick(m: MenuState): (r: MenuState)
    ensures r.hamburgerActive != m.hamburgerActive
    ensures r.linksOpen != m.linksOpen
  {
    MenuState(!m.hamburgerActive, !m.linksOpen)
  }

  /** A click on a navigation link removes both flags. */
  function OnNavLinkClick(m: MenuState): (r: MenuState)
    ensures r == Closed
  {
    MenuState(false, false)
  }

  function Handle(m: MenuState, e: MenuEvent): MenuState
  {
    match e
    case HamburgerClick => OnHamburgerClick(m)
    case NavLinkClick => OnNavLinkClick(m)
  }

  /** The state after a series of clicks, applied in order. */
  function Apply(m: MenuState, events: seq<MenuEvent>): MenuState
    decreases |events|
  {
    if |events| == 0 then m
    else Handle(Apply(m, events[..|events| - 1]), events[|events| - 1])
  }

  /** The button look and the list state agree. */
  predicate Synced(m: MenuState)
  {
    m.hamburgerActive == m.linksOpen
  }

  /** Every click keeps the button and the list in agreement. */
  lemma {:induction false} ApplyKeepsSynced(m: MenuState, events: seq<MenuEvent>)
    requires Synced(m)
    ensures Synced(Apply(m, events))
    decreases |events|
  {
    if |events| > 0 {
      ApplyKeepsSynced(m, events[..|events| - 1]);
    }
  }

  /** Hamburger clicks since the last navigation-link click. */
  function TogglesSinceLastClose(events: seq<MenuEvent>): nat
    decreases |events|
  {
    if |events| == 0 then 0
    else if events[|events| - 1] == NavLinkClick then 0
    else TogglesSinceLastClose(events[..|events| - 1]) + 1
  }

  /** Starting closed, the menu is open exactly when an odd number of hamburger
      clicks followed the last navigation-link click, and the button shows the
      same. */
  lemma {:induction false} OpenIffOddToggles(events: seq<MenuEvent>)
    ensures Apply(Closed, events).linksOpen <==> TogglesSinceLastClose(events) % 2 == 1
    ensures Apply(Closed, events).hamburgerActive <==> TogglesSinceLastClose(events) % 2 == 1
    decreases |events|
  {
    if |events| > 0 {
      OpenIffOddToggles(events[..|events| - 1]);
    }
  }

  /** Two hamburger clicks in a row undo each other. */
  lemma HamburgerClickInvolution(m: MenuState)
    ensures OnHamburgerClick(OnHamburgerClick(m)) == m
  {
  }
}
