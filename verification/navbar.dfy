/** The navigation bar's "scrolled" look: on while the page is scrolled more
    than a fixed distance from the top. */
module Navbar {

  /** Pixels of scroll beyond which the bar is drawn as scrolled. */
  const ScrollThreshold: real := 50.0

  /** The scroll handler: the new flag depends on the scroll offset alone. */
  function UpdateNavbar(scrolled: bool, scrollY: real): (r: bool)
    ensures r <==> scrollY > ScrollThreshold
  {
    scrollY > ScrollThreshold
  }

  /** The flag after a series of scroll events, applied in order. */
  function AfterScrolls(scrolled: bool, offsets: seq<real>): bool
    decreases |offsets|
  {
    if |offsets| == 0 then scrolled
    else AfterScrolls(UpdateNavbar(scrolled, offsets[0]), offsets[1..])
  }

  /** Applying the update twice gives the same result as once. */
  lemma UpdateNavbarIdempotent(scrolled: bool, scrollY: real)
    ensures UpdateNavbar(UpdateNavbar(scrolled, scrollY), scrollY) == UpdateNavbar(scrolled, scrollY)
  {
  }

  /** Only the latest offset matters: after any non-empty series of scroll
      events the flag reflects the last one, whatever came before. */
  lemma {:induction false} AfterScrollsLast(scrolled: bool, offsets: seq<real>)
    requires |offsets| > 0
    ensures AfterScrolls(scrolled, offsets) <==> offsets[|offsets| - 1] > ScrollThreshold
    decreases |offsets|
  {
    if |offsets| > 1 {
      AfterScrollsLast(UpdateNavbar(scrolled, offsets[0]), offsets[1..]);
    }
  }
}
