/** Active navigation-link highlighting: the section the reader has scrolled
    into is the last one, in document order, whose top lies at or above the
    scroll position, and exactly the links pointing at it are marked active. */
module ActiveLink {

  /** A DOM attribute as getAttribute returns it: absent attributes read as null. */
  datatype Attr = Null | Str(value: string)

  /** How a template literal renders an attribute value. */
  function Render(a: Attr): string
  {
    match a
    case Null => "null"
    case Str(v) => v
  }

  datatype Section = Section(id: Attr, offsetTop: real)

  datatype Link = Link(href: Attr, active: bool)

  /** The "no section yet" value the handler starts from. */
  const NoSection: Attr := Str("")

  /** The scroll position has reached the section's top. */
  predicate Reached(sec: Section, scrollPos: real)
  {
    scrollPos >= sec.offsetTop
  }

  /** Section i is reached and no later section is. */
  ghost predicate IsLastReached(sections: seq<Section>, scrollPos: real, i: int)
  {
    && 0 <= i < |sections|
    && Reached(sections[i], scrollPos)
    && forall j :: i < j < |sections| ==> !Reached(sections[j], scrollPos)
  }

  ghost predicate NoneReached(sections: seq<Section>, scrollPos: real)
  {
    forall j :: 0 <= j < |sections| ==> !Reached(sections[j], scrollPos)
  }

  /** Reference definition: the position of the last reached section, or -1. */
  function LastReached(sections: seq<Section>, scrollPos: real): (i: int)
    ensures -1 <= i < |sections|
    ensures i == -1 <==> NoneReached(sections, scrollPos)
    ensures i != -1 ==> IsLastReached(sections, scrollPos, i)
    decreases |sections|
  {
    if |sections| == 0 then -1
    else if Reached(sections[|sections| - 1], scrollPos) then |sections| - 1
    else LastReached(sections[..|sections| - 1], scrollPos)
  }

  /** The id of the section the reader is in: that of the last reached section,
      or the empty string when the reader is above every section. */
  function Current(sections: seq<Section>, scrollPos: real): (current: Attr)
    ensures NoneReached(sections, scrollPos) ==> current == NoSection
    ensures forall i :: IsLastReached(sections, scrollPos, i) ==> current == sections[i].id
  {
    var i := LastReached(sections, scrollPos);
    if i == -1 then NoSection else sections[i].id
  }

  /** The href a link must carry to be the active one. */
  function Target(current: Attr): string
  {
    "#" + Render(current)
  }

  /** Every link loses its mark, then exactly the links whose href equals
      "#" + current get it back. */
  function MarkActive(links: seq<Link>, current: Attr): (r: seq<Link>)
    ensures |r| == |links|
    ensures forall i :: 0 <= i < |r| ==> r[i].href == links[i].href
    ensures forall i :: 0 <= i < |r| ==> (r[i].active <==> links[i].href == Str(Target(current)))
  {
    seq(|links|, i requires 0 <= i < |links| => Link(links[i].href, links[i].href == Str(Target(current))))
  }

  /** The scroll handler as the page runs it: a pass over the sections in
      document order remembering the last id reached, then a pass over the
      links clearing and setting the mark. */
  method UpdateActiveLink(sections: seq<Section>, scrollPos: real, links: seq<Link>)
    returns (current: Attr, marked: seq<Link>)
    ensures NoneReached(sections, scrollPos) ==> current == NoSection
    ensures forall i :: IsLastReached(sections, scrollPos, i) ==> current == sections[i].id
    ensures |marked| == |links|
    ensures forall i :: 0 <= i < |marked| ==> marked[i].href == links[i].href
    ensures forall i :: 0 <= i < |marked| ==>
              (marked[i].active <==> links[i].href == Str(Target(current)))
  {
    current := NoSection;
    var k := 0;
    while k < |sections|
      invariant 0 <= k <= |sections|
      invariant current == Current(sections[..k], scrollPos)
    {
      assert sections[..k + 1][..k] == sections[..k];
      if Reached(sections[k], scrollPos) {
        current := sections[k].id;
      }
      k := k + 1;
    }
    assert sections[..k] == sections;
    marked := [];
    var j := 0;
    while j < |links|
      invariant 0 <= j <= |links|
      invariant |marked| == j
      invariant forall i :: 0 <= i < j ==> marked[i].href == links[i].href
      invariant forall i :: 0 <= i < j ==> (marked[i].active <==> links[i].href == Str(Target(current)))
    {
      var link := links[j].(active := false);
      if link.href == Str(Target(current)) {
        link := link.(active := true);
      }
      marked := marked + [link];
      j := j + 1;
    }
  }

  /** Scrolling further down never moves the highlight back to an earlier
      section in document order. */
  lemma LastReachedMonotonic(sections: seq<Section>, lower: real, higher: real)
    requires lower <= higher
    ensures LastReached(sections, lower) <= LastReached(sections, higher)
  {
  }

  /** With section tops in ascending order, the reader is in section i exactly
      when its top is reached and the next section's top is not. */
  lemma CurrentOfSortedSections(sections: seq<Section>, scrollPos: real, i: nat)
    requires forall a, b :: 0 <= a <= b < |sections| ==> sections[a].offsetTop <= sections[b].offsetTop
    requires i < |sections|
    ensures LastReached(sections, scrollPos) == i <==>
            (Reached(sections[i], scrollPos)
             && (i + 1 == |sections| || !Reached(sections[i + 1], scrollPos)))
  {
  }

  /** The marks depend only on the hrefs and current, never on the previous
      marks; so a second update with the same inputs changes nothing. */
  lemma MarkActiveIgnoresOldMarks(links: seq<Link>, others: seq<Link>, current: Attr)
    requires |links| == |others|
    requires forall i :: 0 <= i < |links| ==> links[i].href == others[i].href
    ensures MarkActive(links, current) == MarkActive(others, current)
  {
  }

  lemma MarkActiveIdempotent(links: seq<Link>, current: Attr)
    ensures MarkActive(MarkActive(links, current), current) == MarkActive(links, current)
  {
  }

  /** With pairwise distinct hrefs at most one link is marked. */
  lemma AtMostOneActive(links: seq<Link>, current: Attr, i: nat, j: nat)
    requires forall a, b :: 0 <= a < b < |links| ==> links[a].href != links[b].href
    requires i < j < |links|
    ensures !(MarkActive(links, current)[i].active && MarkActive(links, current)[j].active)
  {
  }

  /** Above every section, only a link whose href is the bare "#" is marked. */
  lemma AboveAllSections(sections: seq<Section>, scrollPos: real, links: seq<Link>, i: nat)
    requires NoneReached(sections, scrollPos)
    requires i < |links|
    ensures MarkActive(links, Current(sections, scrollPos))[i].active <==> links[i].href == Str("#")
  {
  }
}
