/**
  What the advisory of an osv-scanner group depends on (thyn_security_toolchain/gate.py,
  `parse_osv_json`): which advisories are named, and, where an id is doubled, the order of its entries.
 */
module Advisories {
  import opened Wrappers
  import opened Text
  import opened Seqs
  import opened Findings
  import opened Scanners

  /** The entry at `k` is the last one with its id, the one that a dictionary keeps. */
  ghost predicate IsLast(vulns: seq<Vuln>, k: int) {
    0 <= k < |vulns| && forall j :: k < j < |vulns| ==> vulns[j].id != vulns[k].id
  }

  /** An alias that the group takes over from the entries kept for its ids. */
  ghost predicate IsVulnAlias(vulns: seq<Vuln>, ids: seq<string>, alias: string) {
    exists k :: IsLast(vulns, k) && vulns[k].id in ids && alias in vulns[k].aliases
  }

  ghost predicate IsNamed(vulns: seq<Vuln>, ids: seq<string>, name: string) {
    name in ids || IsVulnAlias(vulns, ids, name)
  }

  /** The trimmed non-blank ids and aliases of a group: an advisory by any of its names. */
  ghost predicate InAdvisorySet(pkg: Package, group: Group, x: string) {
    x != "" && exists name :: IsNamed(pkg.vulns, group.ids, name) && Strip(name) == x
  }

  ghost predicate SameAdvisories(p: Package, g: Group, q: Package, h: Group) {
    forall x :: InAdvisorySet(p, g, x) <==> InAdvisorySet(q, h, x)
  }

  lemma {:induction false} LookUpIsLast(vulns: seq<Vuln>, id: string) returns (k: int)
    ensures k >= 0 ==> IsLast(vulns, k) && vulns[k].id == id && LookUp(vulns, id) == vulns[k]
    ensures k < 0 ==> LookUp(vulns, id).aliases == [] && forall v <- vulns :: v.id != id
  {
    if vulns == [] {
      k := -1;
    } else if vulns[|vulns| - 1].id == id {
      k := |vulns| - 1;
    } else {
      k := LookUpIsLast(vulns[..|vulns| - 1], id);
      assert vulns == vulns[..|vulns| - 1] + [vulns[|vulns| - 1]];
    }
  }

  lemma OneLast(vulns: seq<Vuln>, i: int, j: int)
    requires IsLast(vulns, i) && IsLast(vulns, j) && vulns[i].id == vulns[j].id
    ensures i == j
  {}

  lemma {:induction false} AliasesAre(vulns: seq<Vuln>, ids: seq<string>, alias: string)
    ensures alias in AliasesOf(vulns, ids) <==> IsVulnAlias(vulns, ids, alias)
  {
    if ids != [] {
      var init, last := ids[..|ids| - 1], ids[|ids| - 1];
      AliasesAre(vulns, init, alias);
      assert forall id :: id in ids <==> id in init || id == last;
      var k := LookUpIsLast(vulns, last);
      forall j | IsLast(vulns, j) && vulns[j].id == last
        ensures vulns[j] == LookUp(vulns, last)
      {
        OneLast(vulns, j, if k >= 0 then k else j);
      }
    }
  }

  lemma TrimmedHas(names: seq<string>, x: string)
    ensures x in Trimmed(names) <==> x != "" && exists name :: name in names && Strip(name) == x
  {
    KeepIfHas(MapSeq(names, Strip), IsNonEmpty, x);
    if name :| name in names && Strip(name) == x {
      var i :| 0 <= i < |names| && names[i] == name;
      assert MapSeq(names, Strip)[i] == x;
    }
    if x in MapSeq(names, Strip) {
      var i :| 0 <= i < |names| && MapSeq(names, Strip)[i] == x;
      assert names[i] in names;
    }
  }

  lemma AdvisorySetIs(pkg: Package, group: Group, x: string)
    ensures x in Trimmed(group.ids + AliasesOf(pkg.vulns, group.ids)) <==> InAdvisorySet(pkg, group, x)
  {
    var aliases := AliasesOf(pkg.vulns, group.ids);
    TrimmedHas(group.ids + aliases, x);
    forall name
      ensures name in group.ids + aliases <==> IsNamed(pkg.vulns, group.ids, name)
    {
      AliasesAre(pkg.vulns, group.ids, name);
    }
  }

  /**
    The key of a group's finding depends only on the package's coordinate and on which advisories
    its ids and their aliases name: not on the order or the repetition of ids, of aliases or of
    vulnerabilities.
   */
  lemma KeyDependsOnAdvisories(p: Package, g: Group, q: Package, h: Group)
    requires p.coord == q.coord && SameAdvisories(p, g, q, h)
    ensures GroupFinding(p)(g).key == GroupFinding(q)(h).key
    ensures GroupFinding(p)(g).rule == GroupFinding(q)(h).rule
  {
    var a, b := g.ids + AliasesOf(p.vulns, g.ids), h.ids + AliasesOf(q.vulns, h.ids);
    forall x
      ensures x in Trimmed(a) <==> x in Trimmed(b)
    {
      AdvisorySetIs(p, g, x);
      AdvisorySetIs(q, h, x);
    }
    AdvisoryDependsOnSet(a, b);
  }

  ghost predicate DistinctIds(vulns: seq<Vuln>) {
    forall i, j :: 0 <= i < j < |vulns| ==> vulns[i].id != vulns[j].id
  }

  lemma EntriesCount(vulns: seq<Vuln>, ids: seq<string>, alias: string)
    requires DistinctIds(vulns)
    ensures IsVulnAlias(vulns, ids, alias) <==> exists v :: v in vulns && v.id in ids && alias in v.aliases
  {
    if v :| v in vulns && v.id in ids && alias in v.aliases {
      var k :| 0 <= k < |vulns| && vulns[k] == v;
      assert IsLast(vulns, k);
    }
  }

  /** With distinct vulnerability ids, shuffling the vulnerabilities and the ids changes no key. */
  lemma ShuffledKeepsKey(p: Package, g: Group, q: Package, h: Group)
    requires p.coord == q.coord && DistinctIds(p.vulns) && DistinctIds(q.vulns)
    requires Elements(p.vulns) == Elements(q.vulns) && Elements(g.ids) == Elements(h.ids)
    ensures GroupFinding(p)(g).key == GroupFinding(q)(h).key
  {
    assert forall v :: v in p.vulns <==> v in Elements(p.vulns);
    assert forall v :: v in q.vulns <==> v in Elements(q.vulns);
    assert forall id :: id in g.ids <==> id in Elements(g.ids);
    assert forall id :: id in h.ids <==> id in Elements(h.ids);
    forall name
      ensures IsNamed(p.vulns, g.ids, name) <==> IsNamed(q.vulns, h.ids, name)
    {
      EntriesCount(p.vulns, g.ids, name);
      EntriesCount(q.vulns, h.ids, name);
    }
    KeyDependsOnAdvisories(p, g, q, h);
  }

  lemma ParseOsvHas(packages: seq<Package>, pkg: Package, group: Group, f: Finding)
    requires pkg in packages && group in GroupsOf(pkg) && f == GroupFinding(pkg)(group)
    ensures f in ParseOsv(packages)
  {
    MapSeqHas(GroupsOf(pkg), GroupFinding(pkg), f);
    FlatMapHas(packages, PackageFindings, f);
  }

  lemma ParsedFrom(packages: seq<Package>, f: Finding) returns (pkg: Package, group: Group)
    requires f in ParseOsv(packages)
    ensures pkg in packages && group in GroupsOf(pkg) && f == GroupFinding(pkg)(group)
  {
    FlatMapHas(packages, PackageFindings, f);
    pkg :| pkg in packages && f in PackageFindings(pkg);
    MapSeqHas(GroupsOf(pkg), GroupFinding(pkg), f);
    group :| group in GroupsOf(pkg) && f == GroupFinding(pkg)(group);
  }

  /** For every group of `a` there is one of `b` with the same coordinate that names the same advisories. */
  ghost predicate Covers(b: seq<Package>, a: seq<Package>) {
    forall p, g :: p in a && g in GroupsOf(p) ==>
      exists q, h :: q in b && h in GroupsOf(q) && p.coord == q.coord && SameAdvisories(p, g, q, h)
  }

  /** So the keys the parser reports are a function of the coordinates and the advisories named. */
  lemma OsvKeysDependOnAdvisories(a: seq<Package>, b: seq<Package>, f: Finding)
    requires Covers(b, a) && f in ParseOsv(a)
    ensures KeyIn(ParseOsv(b), KeyOf, f.key)
  {
    var p, g := ParsedFrom(a, f);
    var q, h :| q in b && h in GroupsOf(q) && p.coord == q.coord && SameAdvisories(p, g, q, h);
    KeyDependsOnAdvisories(p, g, q, h);
    ParseOsvHas(b, q, h, GroupFinding(q)(h));
    HasKey(ParseOsv(b), GroupFinding(q)(h));
  }

  lemma HasKey(found: seq<Finding>, f: Finding)
    requires f in found
    ensures KeyIn(found, KeyOf, f.key)
  {
    var i :| 0 <= i < |found| && found[i] == f;
    assert KeyOf(found[i]) == f.key;
  }

  /**
    A doubled vulnerability id: only the aliases of its last entry count, so that the advisory, and
    with it the key, depends on the order of the two entries.
   */
  lemma DoubledVulnDependsOnOrder(coord: string, v: Vuln, w: Vuln, a: string, b: string)
    requires v.id == w.id != "" && IsStripped(v.id) && !IsGhsa(v.id) && !IsCve(v.id)
    requires v.aliases == [a] && w.aliases == [b] && a != b
    requires forall x <- [a, b] :: IsCve(x) && !IsGhsa(x) && IsStripped(x)
    ensures var group := Group([v.id], None);
            var p, q := Package("", coord, [v, w], [group]), Package("", coord, [w, v], [group]);
            && AdvisoryOf(p, group) == b && AdvisoryOf(q, group) == a
            && GroupFinding(p)(group).key != GroupFinding(q)(group).key
  {
    var group := Group([v.id], None);
    var p, q := Package("", coord, [v, w], [group]), Package("", coord, [w, v], [group]);
    LastEntryNames(p, group, v, w, b);
    LastEntryNames(q, group, w, v, a);
    PreferredOfTwo(v.id, a);
    PreferredOfTwo(v.id, b);
    KeyShowsAdvisory(p, q, group);
  }

  lemma TrimmedTwo(a: string, b: string, x: string)
    requires IsStripped(a) && IsStripped(b) && a != "" && b != ""
    ensures x in Trimmed([a, b]) <==> x == a || x == b
  {
    TrimmedHas([a, b], x);
    StripIsStripped(a);
    StripIsStripped(b);
    assert [a, b][0] == a && [a, b][1] == b;
  }

  lemma PreferredOfTwo(id: string, cve: string)
    requires IsStripped(id) && IsStripped(cve) && id != "" && !IsGhsa(id) && !IsCve(id)
    requires IsCve(cve) && !IsGhsa(cve)
    ensures PickAdvisory([id, cve]) == cve
  {
    forall x
      ensures x in Trimmed([id, cve]) <==> x == id || x == cve
    {
      TrimmedTwo(id, cve, x);
    }
    AdvisoryIsPreferred([id, cve]);
  }

  lemma LastEntryNames(pkg: Package, group: Group, v: Vuln, w: Vuln, alias: string)
    requires pkg.vulns == [v, w] && v.id == w.id && group.ids == [w.id] && w.aliases == [alias]
    ensures AdvisoryOf(pkg, group) == PickAdvisory([w.id, alias])
  {
    var ids := group.ids;
    assert ids[..0] == [];
    assert AliasesOf(pkg.vulns, ids) == AliasesOf(pkg.vulns, ids[..0]) + LookUp(pkg.vulns, w.id).aliases == [alias];
    assert ids + [alias] == [w.id, alias];
  }

  /** Packages are parsed one after the other, and in a package there is one finding for each group, in order. */
  lemma ParsedInOrder(a: seq<Package>, pkg: Package, b: seq<Package>)
    ensures ParseOsv(a + [pkg] + b) == ParseOsv(a) + MapSeq(GroupsOf(pkg), GroupFinding(pkg)) + ParseOsv(b)
  {
    FlatMapJoins(a + [pkg], b, PackageFindings);
    FlatMapJoins(a, [pkg], PackageFindings);
    assert [pkg][..0] == [];
    assert FlatMap([pkg], PackageFindings)
        == FlatMap([], PackageFindings) + PackageFindings(pkg) == PackageFindings(pkg);
  }

  /** Without groups there is one, of every id once and without a score; else the groups are the package's. */
  lemma UngroupedIsOne(pkg: Package)
    ensures pkg.groups != [] ==> GroupsOf(pkg) == pkg.groups
    ensures pkg.groups == [] ==>
              && |GroupsOf(pkg)| == 1 && GroupsOf(pkg)[0].score == None && NoDuplicates(GroupsOf(pkg)[0].ids)
              && forall id :: id in GroupsOf(pkg)[0].ids <==> exists v <- pkg.vulns :: v.id == id
  {
    var firsts := FirstBy(pkg.vulns, IdOf);
    var ids := MapSeq(firsts, IdOf);
    FirstByDistinct(pkg.vulns, IdOf);
    FirstByKeepsFirsts(pkg.vulns, IdOf);
    forall id
      ensures id in ids <==> exists v <- pkg.vulns :: v.id == id
    {
      assert KeyIn(firsts, IdOf, id) <==> KeyIn(pkg.vulns, IdOf, id);
      if id in ids {
        var i :| 0 <= i < |ids| && ids[i] == id;
        assert IdOf(firsts[i]) == id;
      }
      if v :| v in pkg.vulns && v.id == id {
        var j :| 0 <= j < |pkg.vulns| && pkg.vulns[j] == v;
        assert IdOf(pkg.vulns[j]) == id;
        var i :| 0 <= i < |firsts| && IdOf(firsts[i]) == id;
        assert ids[i] == id;
      }
    }
  }

  ghost predicate HasNoSummary(vulns: seq<Vuln>, ids: seq<string>, from: int) {
    forall j :: 0 <= from <= j < |ids| ==> LookUp(vulns, ids[j]).summary == ""
  }

  /** The summary is that of the last id whose entry has one. */
  lemma {:induction false} SummaryIsLast(vulns: seq<Vuln>, ids: seq<string>) returns (i: int)
    ensures SummaryOf(vulns, ids) == "" <==> HasNoSummary(vulns, ids, 0)
    ensures SummaryOf(vulns, ids) != "" ==>
              && 0 <= i < |ids| && SummaryOf(vulns, ids) == LookUp(vulns, ids[i]).summary
              && HasNoSummary(vulns, ids, i + 1)
  {
    i := |ids| - 1;
    if ids != [] && LookUp(vulns, ids[i]).summary == "" {
      var init := ids[..|ids| - 1];
      i := SummaryIsLast(vulns, init);
      assert forall j :: 0 <= j < |init| ==> ids[j] == init[j];
    }
  }

  // ------------------------------------------------------------------- when the order of the entries shows

  /** A key ends in its advisory, and the part before it is that of the coordinate. */
  lemma KeyEndsInAdvisory(coord: string, advisory: string)
    requires IsStripped(advisory) && advisory != ""
    ensures Strip(coord + " :: " + advisory) == LStrip(coord + " :: ") + advisory
  {
    var lead := coord + " :: ";
    assert lead[|coord| + 1] == ':';
    LStripJoins(lead, advisory, |coord| + 1);
    var s := LStrip(lead) + advisory;
    assert s[|s| - 1] == advisory[|advisory| - 1];
    assert RStrip(s) == s;
  }

  lemma {:induction false} LStripJoins(a: string, b: string, i: nat)
    requires i < |a| && !IsSpace(a[i])
    ensures LStrip(a + b) == LStrip(a) + b
  {
    if IsSpace(a[0]) {
      assert (a + b)[1..] == a[1..] + b;
      LStripJoins(a[1..], b, i - 1);
    }
  }

  lemma AdvisoryIsStripped(all: seq<string>)
    ensures IsStripped(PickAdvisory(all)) && PickAdvisory(all) != ""
  {
    AdvisoryIsPreferred(all);
    if Trimmed(all) != [] {
      TrimmedHas(all, PickAdvisory(all));
      var name :| name in all && Strip(name) == PickAdvisory(all);
      StripIsStripped(name);
    }
  }

  /** With one coordinate, the keys are equal exactly when the advisories are. */
  lemma KeyShowsAdvisory(p: Package, q: Package, group: Group)
    requires p.coord == q.coord
    ensures GroupFinding(p)(group).key == GroupFinding(q)(group).key <==> AdvisoryOf(p, group) == AdvisoryOf(q, group)
  {
    AdvisoryIsStripped(group.ids + AliasesOf(p.vulns, group.ids));
    AdvisoryIsStripped(group.ids + AliasesOf(q.vulns, group.ids));
    KeyEndsInAdvisory(p.coord, AdvisoryOf(p, group));
    KeyEndsInAdvisory(p.coord, AdvisoryOf(q, group));
    SameEnds(LStrip(p.coord + " :: "), AdvisoryOf(p, group), AdvisoryOf(q, group));
  }

  /** With one advisory, the keys are equal exactly when the coordinates are. */
  lemma KeyShowsCoordinate(p: Package, q: Package, g: Group, h: Group)
    requires AdvisoryOf(p, g) == AdvisoryOf(q, h)
    requires p.coord != "" && IsStripped(p.coord) && q.coord != "" && IsStripped(q.coord)
    ensures GroupFinding(p)(g).key == GroupFinding(q)(h).key <==> p.coord == q.coord
  {
    var advisory := AdvisoryOf(p, g);
    AdvisoryIsStripped(g.ids + AliasesOf(p.vulns, g.ids));
    JoinedIsStripped(p.coord, advisory);
    JoinedIsStripped(q.coord, advisory);
    SameStarts(p.coord, q.coord, " :: " + advisory);
    assert p.coord + " :: " + advisory == p.coord + (" :: " + advisory);
    assert q.coord + " :: " + advisory == q.coord + (" :: " + advisory);
  }

  lemma SameStarts(a: string, b: string, tail: string)
    ensures a + tail == b + tail <==> a == b
  {
    if a + tail == b + tail {
      assert |a| == |b|;
      assert (a + tail)[..|a|] == a && (b + tail)[..|b|] == b;
    }
  }

  /** A vulnerability blocks exactly if its group has a score of at least seven. */
  lemma GroupBlocksExactly(pkg: Package, group: Group)
    ensures GroupFinding(pkg)(group).Blocking() <==> group.score.Some? && group.score.value >= 7.0
  {
    SeverityBands(group.score);
  }

  lemma SameEnds(lead: string, a: string, b: string)
    ensures lead + a == lead + b <==> a == b
  {
    assert (lead + a)[|lead|..] == a && (lead + b)[|lead|..] == b;
  }

  predicate Names(v: Vuln, x: string) {
    x in Trimmed(v.aliases)
  }

  predicate IsOf(group: Group, v: Vuln) {
    v.id in group.ids
  }

  /** The entries that a group's ids name, whichever of them are kept. */
  function EntriesOf(vulns: seq<Vuln>, group: Group): seq<Vuln> {
    KeepIf(vulns, v => IsOf(group, v))
  }

  function AliasesIn(v: Vuln): seq<string> {
    v.aliases
  }

  /** The ids of a group, and the aliases of every entry with one of them. */
  function AllNames(vulns: seq<Vuln>, group: Group): seq<string> {
    group.ids + FlatMap(EntriesOf(vulns, group), AliasesIn)
  }

  /** What the advisory would be if no entry hid another. */
  function BestName(pkg: Package, group: Group): string {
    PickAdvisory(AllNames(pkg.vulns, group))
  }

  lemma AllNamesHas(vulns: seq<Vuln>, group: Group, x: string)
    ensures x in Trimmed(AllNames(vulns, group))
       <==> x in Trimmed(group.ids) || exists v <- vulns :: IsOf(group, v) && Names(v, x)
  {
    var entries := EntriesOf(vulns, group);
    TrimmedHas(AllNames(vulns, group), x);
    TrimmedHas(group.ids, x);
    forall v
      ensures v in entries <==> v in vulns && IsOf(group, v)
      ensures Names(v, x) <==> x != "" && exists name :: name in v.aliases && Strip(name) == x
    {
      KeepIfHas(vulns, v => IsOf(group, v), v);
      TrimmedHas(v.aliases, x);
    }
    forall name
      ensures name in FlatMap(entries, AliasesIn) <==> exists v :: v in entries && name in v.aliases
    {
      FlatMapHas(entries, AliasesIn, name);
      assert forall v :: AliasesIn(v) == v.aliases;
    }
  }

  /** Kept of the vulnerabilities, it names `x`. */
  ghost predicate KeptNames(vulns: seq<Vuln>, group: Group, x: string) {
    exists k :: IsLast(vulns, k) && IsOf(group, vulns[k]) && Names(vulns[k], x)
  }

  /** The names that an advisory is picked from: those of the ids, and those of the entries kept. */
  function NamesOfGroup(pkg: Package, group: Group): seq<string> {
    group.ids + AliasesOf(pkg.vulns, group.ids)
  }

  lemma NamesOfGroupHas(pkg: Package, group: Group, x: string)
    ensures x in Trimmed(NamesOfGroup(pkg, group)) <==> x in Trimmed(group.ids) || KeptNames(pkg.vulns, group, x)
  {
    AdvisorySetIs(pkg, group, x);
    TrimmedHas(group.ids, x);
    forall k | IsLast(pkg.vulns, k)
      ensures Names(pkg.vulns[k], x) <==> x != "" && exists name :: name in pkg.vulns[k].aliases && Strip(name) == x
    {
      TrimmedHas(pkg.vulns[k].aliases, x);
    }
  }

  /** The best of some names is the best of any of them that include it. */
  lemma BestOfFewer(all: seq<string>, some: seq<string>)
    requires forall x <- Trimmed(some) :: x in Trimmed(all)
    requires PickAdvisory(all) in Trimmed(some)
    ensures PickAdvisory(some) == PickAdvisory(all)
  {
    var m, r := PickAdvisory(all), PickAdvisory(some);
    AdvisoryIsPreferred(all);
    AdvisoryIsPreferred(some);
    LexTotal(m, r);
  }

  /** The same vulnerabilities in any order. */
  ghost predicate IsReordered(p: Package, q: Package) {
    p.coord == q.coord && multiset(p.vulns) == multiset(q.vulns)
  }

  /** Two orders of the vulnerabilities of a package give the group different keys. */
  ghost predicate OrderShows(pkg: Package, group: Group) {
    exists q, r :: IsReordered(pkg, q) && IsReordered(pkg, r)
                && GroupFinding(q)(group).key != GroupFinding(r)(group).key
  }

  /**
    The best name is that of some entry, but of no id of the group, and each entry that has it is
    doubled by one that lacks it; and one of those that lack it, or an id, has a name, if the best
    name happens to be the word for a group without any.
   */
  ghost predicate BestCanBeHidden(pkg: Package, group: Group) {
    var m := BestName(pkg, group);
    && m !in Trimmed(group.ids)
    && (exists v <- pkg.vulns :: IsOf(group, v) && Names(v, m))
    && (forall v <- pkg.vulns :: IsOf(group, v) ==> exists w <- pkg.vulns :: w.id == v.id && !Names(w, m))
    && (m == "UNKNOWN" && Trimmed(group.ids) == [] ==>
          exists v <- pkg.vulns :: IsOf(group, v) && !Names(v, m) && Trimmed(v.aliases) != [])
  }

  lemma SameVulns(p: Package, q: Package, v: Vuln)
    requires IsReordered(p, q)
    ensures v in p.vulns <==> v in q.vulns
  {
    assert v in p.vulns <==> v in multiset(p.vulns);
    assert v in q.vulns <==> v in multiset(q.vulns);
  }

  /** Of the entries with one id one is kept. */
  lemma OneIsKept(vulns: seq<Vuln>, v: Vuln) returns (k: int)
    requires v in vulns
    ensures IsLast(vulns, k) && vulns[k].id == v.id && vulns[k] in vulns
  {
    k := LookUpIsLast(vulns, v.id);
  }

  /** Whatever the order, no name comes from anywhere else. */
  lemma NamesAreFewer(p: Package, q: Package, group: Group, x: string)
    requires IsReordered(p, q) && x in Trimmed(NamesOfGroup(q, group))
    ensures x in Trimmed(AllNames(p.vulns, group))
  {
    NamesOfGroupHas(q, group, x);
    AllNamesHas(p.vulns, group, x);
    if k :| IsLast(q.vulns, k) && IsOf(group, q.vulns[k]) && Names(q.vulns[k], x) {
      SameVulns(p, q, q.vulns[k]);
    }
  }

  lemma BestIsNamed(all: seq<string>, x: string)
    requires x in Trimmed(all)
    ensures PickAdvisory(all) in Trimmed(all)
  {
    AdvisoryIsPreferred(all);
  }

  lemma NoNames(all: seq<string>)
    requires PickAdvisory(all) !in Trimmed(all)
    ensures Trimmed(all) == [] && PickAdvisory(all) == "UNKNOWN"
  {
    AdvisoryIsPreferred(all);
  }

  lemma NoNamesNoIds(vulns: seq<Vuln>, group: Group)
    requires Trimmed(AllNames(vulns, group)) == []
    ensures Trimmed(group.ids) == []
  {
    assert Trimmed(group.ids) == [] || Trimmed(group.ids)[0] in Trimmed(group.ids);
    if Trimmed(group.ids) != [] {
      AllNamesHas(vulns, group, Trimmed(group.ids)[0]);
    }
  }

  /** An entry whose like all have the best name keeps it named in every order. */
  lemma BestStays(p: Package, q: Package, group: Group, v: Vuln, m: string)
    requires IsReordered(p, q) && v in p.vulns && IsOf(group, v)
    requires forall w <- p.vulns :: w.id == v.id ==> Names(w, m)
    ensures KeptNames(q.vulns, group, m)
  {
    SameVulns(p, q, v);
    var k := OneIsKept(q.vulns, v);
    SameVulns(p, q, q.vulns[k]);
  }

  /** Kept entries that have names, none of which hides the best one: they name it. */
  lemma KeptNamesBest(p: Package, q: Package, group: Group, m: string, x: string)
    requires IsReordered(p, q) && KeptNames(q.vulns, group, x)
    requires forall v <- p.vulns :: IsOf(group, v) && !Names(v, m) ==> Trimmed(v.aliases) == []
    ensures KeptNames(q.vulns, group, m)
  {
    var k :| IsLast(q.vulns, k) && IsOf(group, q.vulns[k]) && Names(q.vulns[k], x);
    SameVulns(p, q, q.vulns[k]);
  }

  /** If the best name cannot be hidden, it is the advisory in every order. */
  lemma SettledIsBest(p: Package, q: Package, group: Group)
    requires IsReordered(p, q) && !BestCanBeHidden(p, group)
    ensures AdvisoryOf(q, group) == BestName(p, group)
  {
    var all, some := AllNames(p.vulns, group), NamesOfGroup(q, group);
    forall x | x in Trimmed(some)
      ensures x in Trimmed(all)
    {
      NamesAreFewer(p, q, group, x);
    }
    if PickAdvisory(all) in Trimmed(some) {
      BestOfFewer(all, some);
    } else {
      SettledHasNone(p, q, group);
      AdvisoryIsPreferred(some);
    }
  }

  lemma SettledHasNone(p: Package, q: Package, group: Group)
    requires IsReordered(p, q) && !BestCanBeHidden(p, group)
    requires BestName(p, group) !in Trimmed(NamesOfGroup(q, group))
    ensures Trimmed(NamesOfGroup(q, group)) == [] && BestName(p, group) == "UNKNOWN"
  {
    if BestName(p, group) in Trimmed(AllNames(p.vulns, group)) {
      HiddenIsUnknown(p, q, group);
    } else {
      NoNames(AllNames(p.vulns, group));
      NoNamesNoIds(p.vulns, group);
    }
    forall x
      ensures x !in Trimmed(NamesOfGroup(q, group))
    {
      HidesEveryName(p, q, group, x);
    }
    NothingIn(Trimmed(NamesOfGroup(q, group)));
  }

  lemma NothingIn<T>(s: seq<T>)
    requires forall x :: x !in s
    ensures s == []
  {
    assert Elements(s) == {};
    EmptyElements(s);
  }

  lemma HidesEveryName(p: Package, q: Package, group: Group, x: string)
    requires IsReordered(p, q) && Trimmed(group.ids) == []
    requires BestName(p, group) !in Trimmed(NamesOfGroup(q, group))
    requires || Trimmed(AllNames(p.vulns, group)) == []
             || forall v <- p.vulns :: IsOf(group, v) && !Names(v, BestName(p, group)) ==> Trimmed(v.aliases) == []
    ensures x !in Trimmed(NamesOfGroup(q, group))
  {
    NamesOfGroupHas(q, group, x);
    NamesOfGroupHas(q, group, BestName(p, group));
    if KeptNames(q.vulns, group, x) {
      if Trimmed(AllNames(p.vulns, group)) == [] {
        NamesAreFewer(p, q, group, x);
      } else {
        KeptNamesBest(p, q, group, BestName(p, group), x);
      }
    }
  }

  /** Hidden and yet not to be hidden: only the word for a group without a name can be that. */
  lemma HiddenIsUnknown(p: Package, q: Package, group: Group)
    requires IsReordered(p, q) && !BestCanBeHidden(p, group)
    requires BestName(p, group) in Trimmed(AllNames(p.vulns, group))
    requires BestName(p, group) !in Trimmed(NamesOfGroup(q, group))
    ensures BestName(p, group) == "UNKNOWN" && Trimmed(group.ids) == []
    ensures forall v <- p.vulns :: IsOf(group, v) && !Names(v, BestName(p, group)) ==> Trimmed(v.aliases) == []
  {
    var m := BestName(p, group);
    NamesOfGroupHas(q, group, m);
    AllNamesHas(p.vulns, group, m);
    forall v | v in p.vulns && IsOf(group, v)
      ensures exists w <- p.vulns :: w.id == v.id && !Names(w, m)
    {
      if forall w <- p.vulns :: w.id == v.id ==> Names(w, m) {
        BestStays(p, q, group, v, m);
      }
    }
  }

  // ------------------------------------------------------------------- an order that shows it, one that hides it

  function Not<T>(p: T -> bool): T -> bool {
    x => !p(x)
  }

  /** The entries that `p` holds of behind the others, otherwise in their order. */
  function MovedBack<T>(s: seq<T>, p: T -> bool): seq<T> {
    KeepIf(s, Not(p)) + KeepIf(s, p)
  }

  lemma {:induction false} MovedBackIsSame<T>(s: seq<T>, p: T -> bool)
    ensures multiset(MovedBack(s, p)) == multiset(s)
  {
    if s != [] {
      var init, last := s[..|s| - 1], s[|s| - 1];
      MovedBackIsSame(init, p);
      assert s == init + [last];
      assert multiset(MovedBack(s, p)) == multiset(MovedBack(init, p)) + multiset([last]);
    }
  }

  /** The entry kept is among the last ones, if one with its id is. */
  lemma LastIsBehind(a: seq<Vuln>, b: seq<Vuln>, k: int, w: Vuln)
    requires IsLast(a + b, k) && w in b && (a + b)[k].id == w.id
    ensures (a + b)[k] in b
  {
    var j :| 0 <= j < |b| && b[j] == w;
    assert (a + b)[|a| + j] == w;
    assert k >= |a| + j;
    assert (a + b)[k] == b[k - |a|];
  }

  function NamesBy(x: string): Vuln -> bool {
    v => Names(v, x)
  }

  function LacksBy(x: string): Vuln -> bool {
    v => !Names(v, x)
  }

  function HasNames(): Vuln -> bool {
    (v: Vuln) => Trimmed(v.aliases) != []
  }

  /** An order in which the best name is named. */
  lemma ShownOrder(p: Package, group: Group) returns (r: Package)
    requires BestCanBeHidden(p, group)
    ensures IsReordered(p, r) && AdvisoryOf(r, group) == BestName(p, group)
  {
    var m, named := BestName(p, group), NamesBy(BestName(p, group));
    var a, b := KeepIf(p.vulns, Not(named)), KeepIf(p.vulns, named);
    r := p.(vulns := a + b);
    MovedBackIsSame(p.vulns, named);
    var v :| v in p.vulns && IsOf(group, v) && Names(v, m);
    KeepIfHas(p.vulns, named, v);
    SameVulns(p, r, v);
    var k := OneIsKept(r.vulns, v);
    LastIsBehind(a, b, k, v);
    KeepIfHas(p.vulns, named, r.vulns[k]);
    assert named(r.vulns[k]);
    assert KeptNames(r.vulns, group, m);
    NamesOfGroupHas(r, group, m);
    forall x | x in Trimmed(NamesOfGroup(r, group))
      ensures x in Trimmed(AllNames(p.vulns, group))
    {
      NamesAreFewer(p, r, group, x);
    }
    BestOfFewer(AllNames(p.vulns, group), NamesOfGroup(r, group));
  }

  /** The entries that lack `m` last, and of those the ones that have names. */
  function Hiding(vulns: seq<Vuln>, m: string): seq<Vuln> {
    KeepIf(vulns, Not(LacksBy(m))) + MovedBack(KeepIf(vulns, LacksBy(m)), HasNames())
  }

  lemma HidingIsSame(vulns: seq<Vuln>, m: string)
    ensures multiset(Hiding(vulns, m)) == multiset(vulns)
  {
    MovedBackIsSame(vulns, LacksBy(m));
    MovedBackIsSame(KeepIf(vulns, LacksBy(m)), HasNames());
  }

  /** In that order every entry kept lacks `m`, if one with its id does. */
  lemma HiddenIsLacking(vulns: seq<Vuln>, m: string, k: int, w: Vuln)
    requires IsLast(Hiding(vulns, m), k) && w in vulns && Hiding(vulns, m)[k].id == w.id && !Names(w, m)
    ensures !Names(Hiding(vulns, m)[k], m)
  {
    var lacking := KeepIf(vulns, LacksBy(m));
    var behind := MovedBack(lacking, HasNames());
    forall v
      ensures v in behind <==> v in vulns && !Names(v, m)
    {
      MovedBackIsSame(lacking, HasNames());
      assert v in behind <==> v in multiset(behind);
      assert v in lacking <==> v in multiset(lacking);
      KeepIfHas(vulns, LacksBy(m), v);
    }
    LastIsBehind(KeepIf(vulns, Not(LacksBy(m))), behind, k, w);
  }

  /** And it has names, if one with its id lacks `m` and has names. */
  lemma HiddenHasNames(vulns: seq<Vuln>, m: string, k: int, w: Vuln)
    requires IsLast(Hiding(vulns, m), k) && w in vulns && Hiding(vulns, m)[k].id == w.id && !Names(w, m)
    requires Trimmed(w.aliases) != []
    ensures Trimmed(Hiding(vulns, m)[k].aliases) != []
  {
    var lacking := KeepIf(vulns, LacksBy(m));
    var a, b, c := KeepIf(vulns, Not(LacksBy(m))), KeepIf(lacking, Not(HasNames())), KeepIf(lacking, HasNames());
    assert a + (b + c) == a + b + c;
    KeepIfHas(vulns, LacksBy(m), w);
    KeepIfHas(lacking, HasNames(), w);
    LastIsBehind(a + b, c, k, w);
    KeepIfHas(lacking, HasNames(), Hiding(vulns, m)[k]);
    assert HasNames()(Hiding(vulns, m)[k]);
  }

  /** An order in which the best name is hidden. */
  lemma HiddenOrder(p: Package, group: Group) returns (q: Package)
    requires BestCanBeHidden(p, group)
    ensures IsReordered(p, q) && AdvisoryOf(q, group) != BestName(p, group)
  {
    var m := BestName(p, group);
    q := p.(vulns := Hiding(p.vulns, m));
    HidingIsSame(p.vulns, m);
    forall k | IsLast(q.vulns, k) && IsOf(group, q.vulns[k])
      ensures !Names(q.vulns[k], m)
    {
      SameVulns(p, q, q.vulns[k]);
      var w :| w in p.vulns && w.id == q.vulns[k].id && !Names(w, m);
      HiddenIsLacking(p.vulns, m, k, w);
    }
    NamesOfGroupHas(q, group, m);
    if m == "UNKNOWN" {
      HiddenIsNamed(p, q, group);
      BestIsNamed(NamesOfGroup(q, group), Trimmed(NamesOfGroup(q, group))[0]);
    } else {
      AdvisoryIsPreferred(NamesOfGroup(q, group));
    }
  }

  lemma HiddenIsNamed(p: Package, q: Package, group: Group)
    requires BestCanBeHidden(p, group) && BestName(p, group) == "UNKNOWN"
    requires IsReordered(p, q) && q.vulns == Hiding(p.vulns, BestName(p, group))
    ensures Trimmed(NamesOfGroup(q, group)) != []
  {
    if Trimmed(group.ids) != [] {
      NamesOfGroupHas(q, group, Trimmed(group.ids)[0]);
    } else {
      var m := BestName(p, group);
      var v :| v in p.vulns && IsOf(group, v) && !Names(v, m) && Trimmed(v.aliases) != [];
      SameVulns(p, q, v);
      var k := OneIsKept(q.vulns, v);
      HiddenHasNames(p.vulns, m, k, v);
      var x := Trimmed(q.vulns[k].aliases)[0];
      assert Names(q.vulns[k], x);
      NamesOfGroupHas(q, group, x);
    }
  }

  /**
    The order of a package's vulnerabilities shows in the key of a group exactly when the best of all
    the names there are can be hidden. Else every order gives the best name.
   */
  lemma OrderShowsExactly(pkg: Package, group: Group)
    ensures OrderShows(pkg, group) <==> BestCanBeHidden(pkg, group)
    ensures !BestCanBeHidden(pkg, group) ==>
              forall q :: IsReordered(pkg, q) ==> AdvisoryOf(q, group) == BestName(pkg, group)
  {
    if BestCanBeHidden(pkg, group) {
      var q := HiddenOrder(pkg, group);
      var r := ShownOrder(pkg, group);
      KeyShowsAdvisory(q, r, group);
    } else {
      forall q | IsReordered(pkg, q)
        ensures AdvisoryOf(q, group) == BestName(pkg, group)
      {
        SettledIsBest(pkg, q, group);
      }
      forall q, r | IsReordered(pkg, q) && IsReordered(pkg, r)
        ensures GroupFinding(q)(group).key == GroupFinding(r)(group).key
      {
        KeyShowsAdvisory(q, r, group);
      }
    }
  }
}
