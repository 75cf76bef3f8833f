/** Scrollspy: the navigation link of the section nearest the header offset
    is the active one. Section positions are whole pixels handed in by the
    caller for each recomputation. */
module Scrollspy {

  import opened Wrappers
  import opened Flags
  import opened Sequences

  /** The fixed, ordered list of section identifiers the script tracks. */
  const SectionIds: seq<string> := ["home", "about", "skills", "competitive", "projects", "education", "contact"]

  /** The header height the sections are measured against. */
  const NavbarOffset := 80

  /** A section present in the document, with its current top offset
      relative to the viewport. */
  datatype Section = Section(id: string, top: int)

  function Dist(top: int): nat
  {
    if top >= NavbarOffset then top - NavbarOffset else NavbarOffset - top
  }

  /** The running best distance of the selection loop, starting at
      `Number.POSITIVE_INFINITY`. */
  datatype Distance = Finite(n: nat) | PositiveInfinity

  predicate Below(d: nat, bound: Distance)
  {
    bound.PositiveInfinity? || d < bound.n
  }

  /** Section `k` is nearest to the offset, and no earlier section is as near:
      the first minimum wins. */
  ghost predicate IsNearest(ss: seq<Section>, k: nat)
  {
    k < |ss| &&
    (forall j :: 0 <= j < |ss| ==> Dist(ss[k].top) <= Dist(ss[j].top)) &&
    (forall j :: 0 <= j < k ==> Dist(ss[j].top) > Dist(ss[k].top))
  }

  /** At most one index is the first nearest section. */
  lemma NearestUnique(ss: seq<Section>, i: nat, j: nat)
    requires IsNearest(ss, i) && IsNearest(ss, j)
    ensures i == j
  {
    assert Dist(ss[i].top) <= Dist(ss[j].top) && Dist(ss[j].top) <= Dist(ss[i].top);
  }

  /** The reference selection: a left-to-right scan that replaces the best
      section only on a strictly smaller distance. */
  function NearestIndex(ss: seq<Section>): (k: nat)
    requires |ss| > 0
    ensures IsNearest(ss, k)
    decreases |ss|
  {
    if |ss| == 1 then 0
    else
      var k := NearestIndex(ss[..|ss| - 1]);
      if Dist(ss[|ss| - 1].top) < Dist(ss[k].top) then |ss| - 1 else k
  }

  function NearestId(ss: seq<Section>): Option<string>
  {
    if |ss| == 0 then None else Some(ss[NearestIndex(ss)].id)
  }

  /** The example offsets [100, 400, 900]: the first section is nearest. */
  lemma NearestExample()
    ensures NearestIndex([Section("home", 100), Section("about", 400), Section("skills", 900)]) == 0
  {
  }

  /** The selection loop of `updateActiveOnScroll`. */
  method SelectNearest(ss: seq<Section>) returns (bestId: Option<string>)
    ensures bestId == NearestId(ss)
    ensures |ss| == 0 <==> bestId.None?
    ensures |ss| > 0 ==> bestId == Some(ss[NearestIndex(ss)].id) && IsNearest(ss, NearestIndex(ss))
  {
    bestId := None;
    var bestDist := PositiveInfinity;
    var i := 0;
    while i < |ss|
      invariant 0 <= i <= |ss|
      invariant i == 0 ==> bestId.None? && bestDist.PositiveInfinity?
      invariant i > 0 ==> bestId == Some(ss[NearestIndex(ss[..i])].id)
                          && bestDist == Finite(Dist(ss[NearestIndex(ss[..i])].top))
    {
      var dist := Dist(ss[i].top);
      assert ss[..i + 1][..i] == ss[..i];
      if Below(dist, bestDist) {
        bestDist := Finite(dist);
        bestId := Some(ss[i].id);
      }
      i := i + 1;
    }
    assert ss[..|ss|] == ss;
  }

  /** `idToNavLink`: each identifier with a link whose `href` is `#id`, mapped
      to the first such link in document order (what `querySelector` finds). */
  function TrackedLinks(ids: seq<string>, hrefs: seq<string>): (m: map<string, nat>)
    ensures forall id :: id in m <==> id in ids && "#" + id in hrefs
    ensures forall id :: id in m ==> Some(m[id]) == FirstIndexOf(hrefs, "#" + id)
    ensures LinksInRange(m, |hrefs|)
    decreases |ids|
  {
    if |ids| == 0 then map[]
    else
      var m := TrackedLinks(ids[..|ids| - 1], hrefs);
      var id := ids[|ids| - 1];
      assert ids == ids[..|ids| - 1] + [id];
      match FirstIndexOf(hrefs, "#" + id)
      case None => m
      case Some(k) => m[id := k]
  }

  /** The `forEach` loop that fills `idToNavLink`. */
  method BuildLinkMap(ids: seq<string>, hrefs: seq<string>) returns (m: map<string, nat>)
    ensures m == TrackedLinks(ids, hrefs)
  {
    m := map[];
    var i := 0;
    while i < |ids|
      invariant 0 <= i <= |ids|
      invariant m == TrackedLinks(ids[..i], hrefs)
    {
      var id := ids[i];
      assert ids[..i + 1][..i] == ids[..i];
      var link := FirstIndexOf(hrefs, "#" + id);
      if link.Some? {
        m := m[id := link.value];
      }
      i := i + 1;
    }
    assert ids[..|ids|] == ids;
  }

  /** `sections`: the identifiers whose element exists, in list order. */
  function PresentSections(ids: seq<string>, present: set<string>): (r: seq<string>)
    ensures forall id :: id in r <==> id in ids && id in present
    ensures |r| <= |ids|
    ensures Distinct(ids) ==> Distinct(r)
    ensures Distinct(ids) ==> forall i, j :: 0 <= i < j < |r| ==> InOrder(ids, r[i], r[j])
    decreases |ids|
  {
    if |ids| == 0 then []
    else
      var rest := PresentSections(ids[1..], present);
      var r := (if ids[0] in present then [ids[0]] else []) + rest;
      if Distinct(ids) then PresentSectionsTail(ids, rest); r else r
  }

  /** `x` occurs in `ids` before `y`. */
  predicate InOrder(ids: seq<string>, x: string, y: string)
  {
    FirstIndexOf(ids, x).Some? && FirstIndexOf(ids, y).Some? &&
    FirstIndexOf(ids, x).value < FirstIndexOf(ids, y).value
  }

  /** Order in the tail of a list of distinct ids carries over to the list,
      and its head comes before every id of the tail. */
  lemma PresentSectionsTail(ids: seq<string>, rest: seq<string>)
    requires |ids| > 0 && Distinct(ids)
    requires forall id :: id in rest ==> id in ids[1..]
    requires Distinct(ids[1..]) ==> forall i, j :: 0 <= i < j < |rest| ==> InOrder(ids[1..], rest[i], rest[j])
    ensures Distinct(ids[1..])
    ensures forall i, j :: 0 <= i < j < |rest| ==> InOrder(ids, rest[i], rest[j])
    ensures forall i :: 0 <= i < |rest| ==> InOrder(ids, ids[0], rest[i])
  {
    var tail := ids[1..];
    assert forall i :: 0 <= i < |tail| ==> tail[i] == ids[i + 1];
    assert forall i :: 0 <= i < |rest| ==> rest[i] != ids[0] by {
      forall i | 0 <= i < |rest|
        ensures rest[i] != ids[0]
      {
        var k := FirstIndexOf(tail, rest[i]).value;
        assert ids[k + 1] == rest[i];
      }
    }
  }

  /** The fixed section list names each section once. */
  lemma SectionIdsDistinct()
    ensures Distinct(SectionIds)
  {
  }

  /** The tie-break in list order holds for whatever sections exist: a
      section listed before the chosen one is strictly farther from the
      offset. */
  lemma EarlierSectionIsFarther(present: set<string>, tops: seq<int>, j: nat)
    requires j < |tops| && |tops| == |PresentSections(SectionIds, present)|
    ensures var sections := PresentSections(SectionIds, present);
            var k := NearestIndex(Layout(sections, tops));
            InOrder(SectionIds, sections[j], sections[k]) ==> Dist(tops[j]) > Dist(tops[k])
  {
    SectionIdsDistinct();
    var sections := PresentSections(SectionIds, present);
    var ss := Layout(sections, tops);
    var k := NearestIndex(ss);
    if InOrder(SectionIds, sections[j], sections[k]) {
      assert ss[j].top == tops[j] && ss[k].top == tops[k];
    }
  }

  /** When every section exists, none is dropped and the order is kept. */
  lemma {:induction false} AllPresentKeepsOrder(ids: seq<string>, present: set<string>)
    requires forall id :: id in ids ==> id in present
    ensures PresentSections(ids, present) == ids
    decreases |ids|
  {
    if |ids| > 0 {
      AllPresentKeepsOrder(ids[1..], present);
    }
  }

  /** The sections paired with the offsets measured for them. */
  function Layout(ids: seq<string>, tops: seq<int>): (ss: seq<Section>)
    requires |tops| == |ids|
    ensures |ss| == |ids|
    ensures forall i :: 0 <= i < |ids| ==> ss[i] == Section(ids[i], tops[i])
  {
    seq(|ids|, i requires 0 <= i < |ids| => Section(ids[i], tops[i]))
  }

  ghost predicate LinksInRange(tracked: map<string, nat>, n: nat)
  {
    forall id :: id in tracked ==> tracked[id] < n
  }

  /** `setActiveLink(id)` on the active flags of the navigation links. */
  function AfterSetActive(flags: seq<bool>, tracked: map<string, nat>, id: string): (r: seq<bool>)
    requires LinksInRange(tracked, |flags|)
    ensures |r| == |flags|
    ensures id !in tracked ==> r == flags
    ensures id in tracked && FirstSet(flags) == Some(tracked[id]) ==> r == flags
    ensures id in tracked && FirstSet(flags) != Some(tracked[id]) ==> r == Only(|flags|, tracked[id])
    ensures id in tracked && AtMostOne(flags) ==> r == Only(|flags|, tracked[id])
    ensures AtMostOne(flags) ==> AtMostOne(r)
  {
    if id !in tracked then flags
    else
      var link := tracked[id];
      if FirstSet(flags) == Some(link) then
        (if AtMostOne(flags) then FirstSetIsOnly(flags, link); flags else flags)
      else Only(|flags|, link)
  }

  /** `updateActiveOnScroll`: activate the link of the nearest section, if
      there is a section at all. */
  function AfterScroll(flags: seq<bool>, tracked: map<string, nat>, ss: seq<Section>): (r: seq<bool>)
    requires LinksInRange(tracked, |flags|)
    ensures |r| == |flags|
    ensures |ss| == 0 ==> r == flags
    ensures AtMostOne(flags) ==> AtMostOne(r)
  {
    match NearestId(ss)
    case None => flags
    case Some(id) => if id != "" then AfterSetActive(flags, tracked, id) else flags
  }

  /** With at most one link active, a recomputation leaves exactly the link of
      the nearest section active when that section has a link. */
  lemma ScrollActivatesNearest(flags: seq<bool>, tracked: map<string, nat>, ss: seq<Section>)
    requires LinksInRange(tracked, |flags|) && AtMostOne(flags)
    requires |ss| > 0
    requires ss[NearestIndex(ss)].id != "" && ss[NearestIndex(ss)].id in tracked
    ensures AfterScroll(flags, tracked, ss) == Only(|flags|, tracked[ss[NearestIndex(ss)].id])
  {
  }

  /** Without sections, or when the nearest section has no link, a
      recomputation changes nothing, even if another link is active. */
  lemma ScrollWithoutTargetIsNoOp(flags: seq<bool>, tracked: map<string, nat>, ss: seq<Section>)
    requires LinksInRange(tracked, |flags|)
    requires |ss| == 0 || ss[NearestIndex(ss)].id !in tracked
    ensures AfterScroll(flags, tracked, ss) == flags
  {
  }

  /** The navigation links and the scrollspy's view of them. */
  class NavLinks {
    const hrefs: seq<string>
    const tracked: map<string, nat>
    const sections: seq<string>
    var active: array<bool>

    ghost predicate Valid()
      reads this
    {
      active.Length == |hrefs| && LinksInRange(tracked, |hrefs|)
    }

    /** Build `idToNavLink` and `sections` from the links' `href` attributes
        and the set of element ids the document holds. */
    constructor (linkHrefs: seq<string>, presentIds: set<string>, activeAtStart: seq<bool>)
      requires |activeAtStart| == |linkHrefs|
      ensures Valid() && fresh(active)
      ensures hrefs == linkHrefs && active[..] == activeAtStart
      ensures tracked == TrackedLinks(SectionIds, linkHrefs)
      ensures sections == PresentSections(SectionIds, presentIds)
    {
      var flags := new bool[|activeAtStart|](j requires 0 <= j < |activeAtStart| => activeAtStart[j]);
      assert flags[..] == activeAtStart;
      var m := BuildLinkMap(SectionIds, linkHrefs);
      hrefs := linkHrefs;
      tracked := m;
      sections := PresentSections(SectionIds, presentIds);
      active := flags;
    }

    /** `document.querySelector('.nav-links a.active')`. */
    method FirstActive() returns (current: Option<nat>)
      requires Valid()
      ensures current == FirstSet(active[..])
    {
      var i := 0;
      while i < active.Length
        invariant 0 <= i <= active.Length
        invariant forall j :: 0 <= j < i ==> !active[j]
      {
        if active[i] {
          FirstSetAt(active[..], i);
          return Some(i);
        }
        i := i + 1;
      }
      current := None;
    }

    /** Clear every active flag, then set the one of link `k`. */
    method ActivateOnly(k: nat)
      requires Valid() && k < active.Length
      modifies active
      ensures Valid()
      ensures active[..] == Only(active.Length, k)
    {
      var i := 0;
      while i < active.Length
        invariant 0 <= i <= active.Length
        invariant forall j :: 0 <= j < i ==> !active[j]
      {
        active[i] := false;
        i := i + 1;
      }
      active[k] := true;
    }

    method SetActiveLink(id: string)
      requires Valid()
      modifies active
      ensures Valid()
      ensures active[..] == AfterSetActive(old(active[..]), tracked, id)
    {
      if id !in tracked {
        return;
      }
      var link := tracked[id];
      var current := FirstActive();
      if current == Some(link) {
        return;
      }
      ActivateOnly(link);
    }

    /** One recomputation, with `tops` the offsets of `sections` at that moment. */
    method UpdateActiveOnScroll(tops: seq<int>)
      requires Valid() && |tops| == |sections|
      modifies active
      ensures Valid()
      ensures active[..] == AfterScroll(old(active[..]), tracked, Layout(sections, tops))
    {
      var bestId := SelectNearest(Layout(sections, tops));
      if bestId.Some? && bestId.value != "" {
        SetActiveLink(bestId.value);
      }
    }

    /** The click listener of link `k`: the optimistic mark, which a later
        recomputation may override. */
    method ClickLink(k: nat)
      requires Valid() && k < active.Length
      modifies active
      ensures Valid()
      ensures active[..] == Only(active.Length, k)
    {
      ActivateOnly(k);
    }
  }

  lemma FirstSetAt(flags: seq<bool>, i: nat)
    requires i < |flags| && flags[i]
    requires forall j :: 0 <= j < i ==> !flags[j]
    ensures FirstSet(flags) == Some(i)
  {
    var r := FirstSet(flags);
    assert r.Some?;
  }
}
