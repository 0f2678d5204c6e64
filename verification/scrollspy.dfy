/**
 Model of the sidebar scroll-spy on the experience page.

 A section marker contributes its `id` attribute (possibly missing) and
 its `offsetTop` in CSS pixels; `scrollY` may be fractional. A sidebar
 link contributes its `href` attribute (possibly missing) and its
 `active` class.
 */
module ScrollSpy {
  import opened Common

  /** Allowance for the sticky navigation bar, in pixels. */
  const StickyOffset := 150

  datatype Section = Section(id: Option<string>, offsetTop: int)
  datatype Link = Link(href: Option<string>, active: bool)

  /** The JavaScript value of `currentSection`: a string, or `null` when
      the chosen section has no `id` attribute. */
  datatype Current = Named(name: string) | Null

  /** Value of `section.getAttribute('id')`. */
  function IdOf(s: Section): Current {
    match s.id
    case Some(name) => Named(name)
    case None => Null
  }

  /** The template literal `#${currentSection}`; `null` renders as "null". */
  function Fragment(c: Current): (r: string)
    ensures |r| >= 1 && r[0] == '#'
    ensures c.Named? ==> r[1..] == c.name
    ensures c.Null? ==> r[1..] == "null"
  {
    match c
    case Named(name) => "#" + name
    case Null => "#null"
  }

  /** The section has scrolled to within the sticky allowance of the top. */
  predicate Reached(s: Section, scrollY: real) {
    scrollY >= (s.offsetTop - StickyOffset) as real
  }

  ghost predicate NoneReached(sections: seq<Section>, scrollY: real) {
    forall j :: 0 <= j < |sections| ==> !Reached(sections[j], scrollY)
  }

  /** `j` is the last section in document order that has been reached. */
  ghost predicate LastReached(sections: seq<Section>, scrollY: real, j: int) {
    && 0 <= j < |sections|
    && Reached(sections[j], scrollY)
    && forall k :: j < k < |sections| ==> !Reached(sections[k], scrollY)
  }

  /** The `forEach` over the sections: each reached section overwrites the
      accumulator, so the last reached one wins and `acc` survives only
      when none is reached. */
  function ScanSections(sections: seq<Section>, scrollY: real, acc: Current): (r: Current)
    ensures NoneReached(sections, scrollY) ==> r == acc
    ensures forall j :: LastReached(sections, scrollY, j) ==> r == IdOf(sections[j])
    decreases |sections|
  {
    if |sections| == 0 then acc
    else
      var acc' := if Reached(sections[0], scrollY) then IdOf(sections[0]) else acc;
      var rest := sections[1..];
      assert forall j :: 0 < j < |sections| && LastReached(sections, scrollY, j) ==> LastReached(rest, scrollY, j - 1);
      assert LastReached(sections, scrollY, 0) ==> NoneReached(rest, scrollY);
      ScanSections(rest, scrollY, acc')
  }

  /** The current section as `updateActiveLink` computes it, starting from ''. */
  function CurrentSection(sections: seq<Section>, scrollY: real): Current
  {
    ScanSections(sections, scrollY, Named(""))
  }

  /** Some section is reached exactly when there is a last reached one. */
  lemma {:induction false} LastReachedExists(sections: seq<Section>, scrollY: real)
    requires !NoneReached(sections, scrollY)
    ensures exists j :: LastReached(sections, scrollY, j)
    decreases |sections|
  {
    var n := |sections|;
    if Reached(sections[n - 1], scrollY) {
      assert LastReached(sections, scrollY, n - 1);
    } else {
      var init := sections[..n - 1];
      assert !NoneReached(init, scrollY);
      LastReachedExists(init, scrollY);
      var j :| LastReached(init, scrollY, j);
      assert LastReached(sections, scrollY, j);
    }
  }

  /** The current section is '' when no section is reached, and otherwise
      the identifier of the last reached one. */
  lemma CurrentSectionSpec(sections: seq<Section>, scrollY: real)
    ensures NoneReached(sections, scrollY) ==> CurrentSection(sections, scrollY) == Named("")
    ensures !NoneReached(sections, scrollY) ==>
      exists j :: LastReached(sections, scrollY, j) && CurrentSection(sections, scrollY) == IdOf(sections[j])
  {
    if !NoneReached(sections, scrollY) {
      LastReachedExists(sections, scrollY);
    }
  }

  /** The loop over the sidebar links: each one loses `active` and gains
      it back exactly when its `href` is `target`. */
  method HighlightLinks(links: seq<Link>, target: string) returns (r: seq<Link>)
    ensures |r| == |links|
    ensures forall i :: 0 <= i < |r| ==> r[i].href == links[i].href
    ensures forall i :: 0 <= i < |r| ==> (r[i].active <==> links[i].href == Some(target))
  {
    r := [];
    var i := 0;
    while i < |links|
      invariant 0 <= i <= |links|
      invariant |r| == i
      invariant forall m :: 0 <= m < i ==> r[m].href == links[m].href
      invariant forall m :: 0 <= m < i ==> (r[m].active <==> links[m].href == Some(target))
    {
      var link := links[i].(active := false);
      if link.href == Some(target) {
        link := link.(active := true);
      }
      r := r + [link];
      i := i + 1;
    }
  }

  /** `updateActiveLink`, bound only when there is at least one link and
      one section: every link loses `active`, then gains it exactly when
      its `href` is `#` followed by the current section. */
  method UpdateActiveLink(sections: seq<Section>, links: seq<Link>, scrollY: real)
    returns (r: seq<Link>)
    ensures |r| == |links|
    ensures |links| == 0 || |sections| == 0 ==> r == links
    ensures |links| > 0 && |sections| > 0 ==>
      forall i :: 0 <= i < |r| ==>
        && r[i].href == links[i].href
        && (r[i].active <==> links[i].href == Some(Fragment(CurrentSection(sections, scrollY))))
  {
    if |links| == 0 || |sections| == 0 {
      return links;
    }
    r := HighlightLinks(links, Fragment(CurrentSection(sections, scrollY)));
  }

  /** A concrete page: two sections, "experience" at 400 px and "education"
      at 1200 px. At scrollY 500 only the first is reached, so only its
      link is highlighted. */
  method ExperienceScenario() returns (r: seq<Link>)
    ensures |r| == 2 && r[0].active && !r[1].active
  {
    var sections := [Section(Some("experience"), 400), Section(Some("education"), 1200)];
    var links := [Link(Some("#experience"), false), Link(Some("#education"), true)];
    assert LastReached(sections, 500.0, 0);
    assert Fragment(CurrentSection(sections, 500.0)) == "#experience";
    assert "#education" != "#experience" by { assert "#education"[2] != "#experience"[2]; }
    r := UpdateActiveLink(sections, links, 500.0);
  }
}
