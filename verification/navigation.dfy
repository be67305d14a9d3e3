/**
 Scroll-driven highlighting of the navigation bar. On every scroll event
 the page walks its sections in document order and remembers the id of
 each one whose activation window contains the scroll position, so the
 LAST such section wins; the window of a section starts 150 pixels above
 its top and is as tall as the section. Then every navigation link is
 cleared and those whose `href` is `#` followed by that id are marked
 active.
 */
module Navigation {

  datatype Option<T> = None | Some(value: T)

  /** How far above its top a section's window begins, in pixels. */
  const ActivationOffset: int := 150

  /** A `section[id]` element: its id and its layout box. */
  datatype Section = Section(id: string, offsetTop: int, clientHeight: int)

  /** A `.nav-link` element; its `href` attribute may be missing. */
  datatype Link = Link(href: Option<string>)

  predicate InWindow(s: Section, scrollY: real) {
    var top := s.offsetTop - ActivationOffset;
    top as real <= scrollY < (top + s.clientHeight) as real
  }

  /** Index of the last section, in document order, whose window contains
      the scroll position. */
  function LastMatch(sections: seq<Section>, scrollY: real): (r: Option<nat>)
    ensures r.None? <==> forall k | 0 <= k < |sections| :: !InWindow(sections[k], scrollY)
    ensures r.Some? ==>
      && r.value < |sections|
      && InWindow(sections[r.value], scrollY)
      && forall k | r.value < k < |sections| :: !InWindow(sections[k], scrollY)
  {
    if sections == [] then None
    else if InWindow(sections[|sections| - 1], scrollY) then Some(|sections| - 1)
    else LastMatch(sections[..|sections| - 1], scrollY)
  }

  /** The id the page settles on: that of the last matching section, or the
      empty string when no window contains the scroll position. */
  function CurrentId(sections: seq<Section>, scrollY: real): string {
    match LastMatch(sections, scrollY)
    case None => ""
    case Some(k) => sections[k].id
  }

  /** The walk over the sections as the page performs it, front to back,
      overwriting the remembered id at each match. */
  method CurrentSection(sections: seq<Section>, scrollY: real) returns (current: string)
    ensures current == CurrentId(sections, scrollY)
    ensures (forall k | 0 <= k < |sections| :: !InWindow(sections[k], scrollY)) ==> current == ""
    ensures (exists k | 0 <= k < |sections| :: InWindow(sections[k], scrollY)) ==>
      exists k | 0 <= k < |sections| ::
        && InWindow(sections[k], scrollY)
        && current == sections[k].id
        && forall m | k < m < |sections| :: !InWindow(sections[m], scrollY)
  {
    current := "";
    var i := 0;
    while i < |sections|
      invariant 0 <= i <= |sections|
      invariant current == CurrentId(sections[..i], scrollY)
    {
      assert sections[..i + 1][..i] == sections[..i];
      if InWindow(sections[i], scrollY) {
        current := sections[i].id;
      }
      i := i + 1;
    }
    assert sections[..i] == sections;
    var last := LastMatch(sections, scrollY);
    if last.Some? {
      assert InWindow(sections[last.value], scrollY);
    }
  }

  /** Which links are marked active for the chosen id: every link is
      cleared first, so the result does not depend on the previous marks. */
  function MarkLinks(links: seq<Link>, current: string): (active: seq<bool>)
    ensures |active| == |links|
    ensures forall i | 0 <= i < |links| :: active[i] <==> links[i].href == Some("#" + current)
  {
    seq(|links|, i requires 0 <= i < |links| => links[i].href == Some("#" + current))
  }

  /** One scroll event: choose the current section, then mark the links. */
  method UpdateActiveNavLink(sections: seq<Section>, links: seq<Link>, scrollY: real)
    returns (active: seq<bool>)
    ensures |active| == |links|
    ensures forall i | 0 <= i < |links| ::
      active[i] <==> links[i].href == Some("#" + CurrentId(sections, scrollY))
  {
    var current := CurrentSection(sections, scrollY);
    active := MarkLinks(links, current);
  }

  predicate DistinctHrefs(links: seq<Link>) {
    forall i, j | 0 <= i < j < |links| :: links[i].href.Some? ==> links[i].href != links[j].href
  }

  /** With distinct targets, at most one link is active. */
  lemma AtMostOneActive(links: seq<Link>, current: string)
    requires DistinctHrefs(links)
    ensures forall i, j | 0 <= i < |links| && 0 <= j < |links| ::
      MarkLinks(links, current)[i] && MarkLinks(links, current)[j] ==> i == j
  {
  }

  /** An active link names the winning section: the last section whose
      window holds the scroll position. When no window holds it, only a
      bare `#` link can be active. */
  lemma ActiveLinkNamesWinner(sections: seq<Section>, links: seq<Link>, scrollY: real, i: nat)
    requires i < |links| && MarkLinks(links, CurrentId(sections, scrollY))[i]
    ensures LastMatch(sections, scrollY).None? ==> links[i].href == Some("#")
    ensures LastMatch(sections, scrollY).Some? ==>
      links[i].href == Some("#" + sections[LastMatch(sections, scrollY).value].id)
  {
    if LastMatch(sections, scrollY).None? {
      assert "#" + "" == "#";
    }
  }

  /** A later section overrides an earlier one: when two windows hold the
      scroll position, the earlier section's index is never the winner. */
  lemma LaterSectionWins(sections: seq<Section>, scrollY: real, a: nat, b: nat)
    requires a < b < |sections|
    requires InWindow(sections[a], scrollY) && InWindow(sections[b], scrollY)
    ensures LastMatch(sections, scrollY).Some?
    ensures LastMatch(sections, scrollY).value != a
    ensures b <= LastMatch(sections, scrollY).value
  {
  }
}
