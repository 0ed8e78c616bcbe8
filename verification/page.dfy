/** The page script as a whole: what it does once the document has loaded, and
    how each later event changes what the page shows. The titles are fixed for
    the page's lifetime. The sections and their tops belong to the document:
    a reflow or resize can move them without a scroll event, and only the next
    scroll handler reads them again. */
module Page {
  import opened JsString
  import opened Typewriter
  import opened ActiveLink
  import opened Navbar
  import opened Menu

  /** Everything the script reads or writes: the document's sections as laid out
      now, the sections and window offsets its scroll handlers last read, the
      navbar flag, the menu flags, the last section id and the link marks, and
      the typing state with the text and delay of its last tick. */
  datatype PageState = PageState(
    layout: seq<Section>,
    readLayout: seq<Section>,
    scrollY: real,
    scrollPos: real,
    navScrolled: bool,
    menu: MenuState,
    current: Attr,
    links: seq<Link>,
    typer: TypeState,
    typed: string,
    delay: nat)

  /** A reflow moves the section tops without running any listener; the
      sections themselves, their order and their ids stay as loaded. */
  datatype Event =
    | Scroll(y: real, pos: real)
    | Hamburger
    | NavLink
    | Tick
    | Reflow(tops: seq<real>)

  /** The layout after a reflow: section i gets tops[i] as its new top, keeping
      its id; a section the list does not reach keeps its old top. */
  function Retop(layout: seq<Section>, tops: seq<real>): (r: seq<Section>)
    ensures |r| == |layout|
    ensures forall i :: 0 <= i < |r| ==> r[i].id == layout[i].id
    ensures forall i :: 0 <= i < |r| ==>
              r[i].offsetTop == (if i < |tops| then tops[i] else layout[i].offsetTop)
  {
    seq(|layout|, i requires 0 <= i < |layout| =>
      if i < |tops| then layout[i].(offsetTop := tops[i]) else layout[i])
  }

  /** The handler run when the document has loaded: one navbar update, one
      active-link update and the first typing tick, in that order. The menu
      starts closed and the navbar flag off. */
  function Load(titles: seq<string>, sections: seq<Section>, links: seq<Link>,
                scrollY: real, scrollPos: real): (p: PageState)
    requires |titles| > 0
    ensures p.layout == sections && p.readLayout == sections
    ensures p.scrollY == scrollY && p.scrollPos == scrollPos
    ensures p.menu == Closed
    ensures p.navScrolled <==> scrollY > ScrollThreshold
    ensures p.current == Current(sections, scrollPos)
    ensures p.links == MarkActive(links, p.current)
    ensures p.typer == TypeState(0, 1, |titles[0]| == 1)
    ensures p.typed == titles[0][..Clamp(1, |titles[0]|)]
    ensures p.delay == if |titles[0]| == 1 then PauseAtEnd else TypeDelay
  {
    var f := Step(titles, Start);
    var current := Current(sections, scrollPos);
    PageState(sections, sections, scrollY, scrollPos, UpdateNavbar(false, scrollY), Closed,
              current, MarkActive(links, current), f.next, f.text, f.delay)
  }

  /** One event, each handled by the listeners registered for it; a scroll runs
      the navbar listener and then the active-link listener, which reads the
      section tops as they are now. Every event leaves the parts of the page its
      listeners do not write unchanged. */
  function Dispatch(titles: seq<string>, p: PageState, e: Event): (q: PageState)
    requires p.typer.titleIndex < |titles|
    ensures q.typer.titleIndex < |titles|
    // a scroll: both listeners run on the new offsets and the current layout
    ensures e.Scroll? ==> q.scrollY == e.y && q.scrollPos == e.pos
    ensures e.Scroll? ==> (q.navScrolled <==> e.y > ScrollThreshold)
    ensures e.Scroll? ==> q.readLayout == p.layout && q.current == Current(p.layout, e.pos)
    ensures e.Scroll? ==> q.links == MarkActive(p.links, q.current)
    // clicks: the menu handlers
    ensures e.Hamburger? ==> q.menu == OnHamburgerClick(p.menu)
    ensures e.NavLink? ==> q.menu == Closed
    // a tick: the typing state, text and delay of one typing step
    ensures e.Tick? ==> q.typer == Step(titles, p.typer).next
    ensures e.Tick? ==> q.typed == Step(titles, p.typer).text && q.delay == Step(titles, p.typer).delay
    // a reflow: new section tops, same sections, nothing recomputed
    ensures e.Reflow? ==> q == p.(layout := Retop(p.layout, e.tops))
    // what each event leaves alone
    ensures !e.Reflow? ==> q.layout == p.layout
    ensures !e.Tick? ==> q.typer == p.typer && q.typed == p.typed && q.delay == p.delay
    ensures !e.Scroll? ==> q.scrollY == p.scrollY && q.scrollPos == p.scrollPos
    ensures !e.Scroll? ==> q.navScrolled == p.navScrolled && q.readLayout == p.readLayout
    ensures !e.Scroll? ==> q.current == p.current && q.links == p.links
    ensures !e.Hamburger? && !e.NavLink? ==> q.menu == p.menu
  {
    match e
    case Scroll(y, pos) =>
      var current := Current(p.layout, pos);
      p.(readLayout := p.layout, scrollY := y, scrollPos := pos,
         navScrolled := UpdateNavbar(p.navScrolled, y),
         current := current, links := MarkActive(p.links, current))
    case Hamburger => p.(menu := OnHamburgerClick(p.menu))
    case NavLink => p.(menu := OnNavLinkClick(p.menu))
    case Tick =>
      var f := Step(titles, p.typer);
      p.(typer := f.next, typed := f.text, delay := f.delay)
    case Reflow(tops) => p.(layout := Retop(p.layout, tops))
  }

  /** The page after a series of events, applied in order. */
  function Run(titles: seq<string>, p: PageState, events: seq<Event>): (q: PageState)
    requires p.typer.titleIndex < |titles|
    ensures q.typer.titleIndex < |titles|
    decreases |events|
  {
    if |events| == 0 then p
    else Run(titles, Dispatch(titles, p, events[0]), events[1..])
  }

  /** What the page shows is consistent with what its handlers last read and
      with itself: the navbar flag matches the scroll offset, the button and the
      list agree, the links mark the section selected from the tops and scroll
      position the last scroll handler read, and the typed text is the
      charIndex-prefix of a title within the typing invariant. */
  ghost predicate Consistent(titles: seq<string>, p: PageState)
  {
    && (p.navScrolled <==> p.scrollY > ScrollThreshold)
    && Synced(p.menu)
    && p.current == Current(p.readLayout, p.scrollPos)
    && (forall i :: 0 <= i < |p.links| ==> (p.links[i].active <==> p.links[i].href == Str(Target(p.current))))
    && Inv(titles, p.typer)
    && p.typed == titles[p.typer.titleIndex][..p.typer.charIndex]
  }

  lemma LoadConsistent(titles: seq<string>, sections: seq<Section>, links: seq<Link>,
                       scrollY: real, scrollPos: real)
    requires WellFormed(titles)
    ensures Consistent(titles, Load(titles, sections, links, scrollY, scrollPos))
  {
  }

  lemma DispatchConsistent(titles: seq<string>, p: PageState, e: Event)
    requires WellFormed(titles)
    requires Consistent(titles, p)
    ensures Consistent(titles, Dispatch(titles, p, e))
  {
  }

  /** From a consistent page, every series of events keeps the page consistent. */
  lemma {:induction false} RunConsistent(titles: seq<string>, p: PageState, events: seq<Event>)
    requires WellFormed(titles)
    requires Consistent(titles, p)
    ensures Consistent(titles, Run(titles, p, events))
    decreases |events|
  {
    if |events| > 0 {
      DispatchConsistent(titles, p, events[0]);
      RunConsistent(titles, Dispatch(titles, p, events[0]), events[1..]);
    }
  }

  /** The page's own titles: after loading and any events, the page is consistent. */
  lemma PageRunConsistent(sections: seq<Section>, links: seq<Link>, scrollY: real, scrollPos: real,
                          events: seq<Event>)
    ensures Consistent(Titles, Run(Titles, Load(Titles, sections, links, scrollY, scrollPos), events))
  {
    PageTitles();
    LoadConsistent(Titles, sections, links, scrollY, scrollPos);
    RunConsistent(Titles, Load(Titles, sections, links, scrollY, scrollPos), events);
  }

  /** The highlight can go stale: scrolled to 150 with tops 0 and 100 the link
      to "#b" is marked; after a reflow moves "b" down to 200, the reader is back
      in "a", but no listener runs and the mark stays on "#b". */
  lemma ReflowLeavesHighlightStale()
    ensures var layout := [Section(Str("a"), 0.0), Section(Str("b"), 100.0)];
            var links := [Link(Str("#a"), false), Link(Str("#b"), false)];
            var q := Dispatch(Titles, Load(Titles, layout, links, 0.0, 150.0), Reflow([0.0, 200.0]));
            && q.links == [Link(Str("#a"), false), Link(Str("#b"), true)]
            && Current(q.layout, q.scrollPos) == Str("a")
  {
    var layout := [Section(Str("a"), 0.0), Section(Str("b"), 100.0)];
    var moved := [Section(Str("a"), 0.0), Section(Str("b"), 200.0)];
    var links := [Link(Str("#a"), false), Link(Str("#b"), false)];
    assert LastReached(layout, 150.0) == 1;
    assert Target(Str("b")) == "#b";
    var marked := MarkActive(links, Str("b"));
    assert marked == [Link(Str("#a"), false), Link(Str("#b"), true)];
    assert Retop(layout, [0.0, 200.0]) == moved;
    assert LastReached(moved, 150.0) == 0;
  }

  /** The next scroll catches up: whatever reflows came before, after a scroll
      the links mark the section selected from the layout as it is now. */
  lemma ScrollResynchronises(titles: seq<string>, p: PageState, y: real, pos: real)
    requires p.typer.titleIndex < |titles|
    ensures var q := Dispatch(titles, p, Scroll(y, pos));
            forall i :: 0 <= i < |q.links| ==>
              (q.links[i].active <==> q.links[i].href == Str(Target(Current(q.layout, q.scrollPos))))
  {
  }
}
