/**
  The other three report parsers (thyn_security_toolchain/gate.py): gitleaks, trivy and
  osv-scanner, each over its decoded report.
 */
module Scanners {
  import opened Wrappers
  import opened Text
  import opened Seqs
  import opened Findings

  /** `_severity_from_score`. */
  function SeverityFromScore(score: Option<real>): Severity {
    match score
    case None => MEDIUM
    case Some(x) => if x >= 9.0 then CRITICAL else if x >= 7.0 then HIGH else if x >= 4.0 then MEDIUM else LOW
  }

  // ------------------------------------------------------------------- gitleaks

  /** `fingerprint` is empty when absent; `start` is the start line as it prints. */
  datatype Leak = Leak(
    ruleId: string, file: string, fingerprint: string, start: string, line: Option<int>, description: string)

  function LeakFinding(leak: Leak): Finding {
    var own := Strip(leak.fingerprint);
    NewFinding(
      Gitleaks,
      if own != "" then own else leak.file + ":" + leak.ruleId + ":" + leak.start,
      CRITICAL,
      leak.file,
      leak.line,
      NormWs(leak.ruleId + ": " + leak.description + " (secret redacted)", 300),
      leak.ruleId)
  }

  function ParseGitleaks(leaks: seq<Leak>): seq<Finding> {
    MapSeq(leaks, LeakFinding)
  }

  // ------------------------------------------------------------------- trivy

  datatype Check = Check(
    ruleId: string, score: Option<real>, uri: string, line: Option<int>, title: string, message: string)

  function CheckFinding(check: Check): Finding {
    NewFinding(
      Trivy,
      check.ruleId + " :: " + check.uri,
      SeverityFromScore(check.score),
      check.uri,
      check.line,
      NormWs(if check.title != "" then check.title else check.message, 300),
      check.ruleId)
  }

  function KeyOf(f: Finding): string {
    f.key
  }

  function ParseTrivy(checks: seq<Check>): seq<Finding> {
    FirstBy(MapSeq(checks, CheckFinding), KeyOf)
  }

  /** The last loop of `parse_trivy_sarif`: one finding for each key, the first. */
  method Dedupe(found: seq<Finding>) returns (deduped: seq<Finding>)
    ensures deduped == FirstBy(found, KeyOf)
  {
    var seen: set<string> := {};
    deduped := [];
    ghost var keyOf := KeyOf;
    var i := 0;
    while i < |found|
      invariant 0 <= i <= |found|
      invariant deduped == FirstBy(found[..i], keyOf)
      invariant forall k :: k in seen <==> KeyIn(found[..i], keyOf, k)
    {
      FirstByStep(found, i, keyOf);
      KeyInStep(found, i, keyOf);
      var key := found[i].key;
      assert keyOf(found[i]) == key;
      if key !in seen {
        seen := seen + {key};
        deduped := deduped + [found[i]];
      }
      i := i + 1;
    }
    All(found);
  }

  /** `parse_trivy_sarif`. */
  method ParseTrivySarif(checks: seq<Check>) returns (deduped: seq<Finding>)
    ensures deduped == ParseTrivy(checks)
  {
    var out: seq<Finding> := [];
    var i := 0;
    while i < |checks|
      invariant 0 <= i <= |checks| && |out| == i
      invariant forall k :: 0 <= k < i ==> out[k] == CheckFinding(checks[k])
    {
      out := out + [CheckFinding(checks[i])];
      i := i + 1;
    }
    assert out == MapSeq(checks, CheckFinding);
    deduped := Dedupe(out);
  }

  /** Trivy findings have distinct keys, every key reported is there, and the first report wins. */
  lemma TrivyKeysAreDistinct(checks: seq<Check>)
    ensures forall i, j :: 0 <= i < j < |ParseTrivy(checks)| ==> ParseTrivy(checks)[i].key != ParseTrivy(checks)[j].key
    ensures forall k :: KeyIn(ParseTrivy(checks), KeyOf, k) <==> KeyIn(MapSeq(checks, CheckFinding), KeyOf, k)
    ensures forall i :: 0 <= i < |ParseTrivy(checks)| ==>
              HasFirst(MapSeq(checks, CheckFinding), KeyOf, ParseTrivy(checks)[i])
  {
    FirstByDistinct(MapSeq(checks, CheckFinding), KeyOf);
    FirstByKeepsFirsts(MapSeq(checks, CheckFinding), KeyOf);
  }

  /** The bands of a score; a finding without one is in the middle. */
  lemma SeverityBands(score: Option<real>)
    ensures Rank(SeverityFromScore(score)) >= Rank(HIGH) <==> score.Some? && score.value >= 7.0
    ensures SeverityFromScore(score) == CRITICAL <==> score.Some? && score.value >= 9.0
    ensures SeverityFromScore(score) == LOW <==> score.Some? && score.value < 4.0
  {}

  lemma CheckBlocksExactly(check: Check)
    ensures CheckFinding(check).Blocking() <==> check.score.Some? && check.score.value >= 7.0
  {
    SeverityBands(check.score);
  }

  /** Two Trivy checks share a key, and hence a baseline line, exactly if rule and file are the same. */
  lemma SameCheckExactly(a: Check, b: Check)
    requires IsPart(a.ruleId) && IsPart(b.ruleId) && a.uri != "" && b.uri != ""
    requires IsStripped(a.uri) && IsStripped(b.uri)
    ensures CheckFinding(a).key == CheckFinding(b).key <==> a.ruleId == b.ruleId && a.uri == b.uri
  {
    JoinedIsStripped(a.ruleId, a.uri);
    JoinedIsStripped(b.ruleId, b.uri);
    SamePartsExactly(a.ruleId, a.uri, b.ruleId, b.uri);
  }

  /** Gitleaks' own fingerprint is the key if there is one, and else file, rule and line make it up. */
  lemma LeakKeyIs(leak: Leak)
    ensures Strip(leak.fingerprint) != "" ==> LeakFinding(leak).key == Strip(leak.fingerprint)
    ensures Strip(leak.fingerprint) == "" ==>
              LeakFinding(leak).key == Strip(leak.file + ":" + leak.ruleId + ":" + leak.start)
  {
    StripIsStripped(leak.fingerprint);
    StripIsStripped(Strip(leak.fingerprint));
  }

  // ------------------------------------------------------------------- osv-scanner

  /** The non-blank ids, trimmed. */
  function Trimmed(ids: seq<string>): seq<string> {
    KeepIf(MapSeq(ids, Strip), IsNonEmpty)
  }

  predicate IsGhsa(s: string) {
    StartsWith(s, "GHSA-")
  }

  predicate IsCve(s: string) {
    StartsWith(s, "CVE-")
  }

  /** `sorted(ids)[0]`. */
  function Least(ids: seq<string>): string
    requires ids != []
  {
    SortUniqueKeepsSome(ids);
    SortUnique(ids)[0]
  }

  lemma SortUniqueKeepsSome(ids: seq<string>)
    requires ids != []
    ensures SortUnique(ids) != []
  {}

  /** `_pick_advisory_id`. */
  function PickAdvisory(all: seq<string>): string {
    var ids := Trimmed(all);
    var ghsa := KeepIf(ids, IsGhsa);
    var cve := KeepIf(ids, IsCve);
    if ghsa != [] then Least(ghsa)
    else if cve != [] then Least(cve)
    else if ids != [] then Least(ids)
    else "UNKNOWN"
  }

  lemma LeastIsLeast(ids: seq<string>)
    requires ids != []
    ensures Least(ids) in ids && forall x <- ids :: LexLe(Least(ids), x)
  {
    SortUniqueSorts(ids);
    var s := SortUnique(ids);
    assert s[0] in Elements(s);
    forall x | x in ids
      ensures LexLe(s[0], x)
    {
      assert x in Elements(ids);
      var i :| 0 <= i < |s| && s[i] == x;
      LexReflexive(x);
      assert i > 0 ==> LexLt(s[0], s[i]);
    }
  }

  lemma LeastOfSet(a: seq<string>, b: seq<string>)
    requires a != [] && b != [] && Elements(a) == Elements(b)
    ensures Least(a) == Least(b)
  {
    SortUniqueSorts(a);
    SortUniqueSorts(b);
    AscendingIsUnique(SortUnique(a), SortUnique(b));
  }

  lemma SameAfterFilter(a: seq<string>, b: seq<string>, keep: string -> bool)
    requires Elements(a) == Elements(b)
    ensures Elements(KeepIf(a, keep)) == Elements(KeepIf(b, keep))
  {
    forall x
      ensures x in KeepIf(a, keep) <==> x in KeepIf(b, keep)
    {
      KeepIfHas(a, keep, x);
      KeepIfHas(b, keep, x);
      assert x in a <==> x in Elements(a);
      assert x in b <==> x in Elements(b);
    }
  }

  /**
    The advisory depends only on which trimmed ids and aliases there are, not on their order or
    repetition.
   */
  lemma AdvisoryDependsOnSet(a: seq<string>, b: seq<string>)
    requires Elements(Trimmed(a)) == Elements(Trimmed(b))
    ensures PickAdvisory(a) == PickAdvisory(b)
  {
    var x, y := Trimmed(a), Trimmed(b);
    SameAfterFilter(x, y, IsGhsa);
    SameAfterFilter(x, y, IsCve);
    EmptyElements(x);
    EmptyElements(y);
    EmptyElements(KeepIf(x, IsGhsa));
    EmptyElements(KeepIf(y, IsGhsa));
    EmptyElements(KeepIf(x, IsCve));
    EmptyElements(KeepIf(y, IsCve));
    if KeepIf(x, IsGhsa) != [] {
      LeastOfSet(KeepIf(x, IsGhsa), KeepIf(y, IsGhsa));
    } else if KeepIf(x, IsCve) != [] {
      LeastOfSet(KeepIf(x, IsCve), KeepIf(y, IsCve));
    } else if x != [] {
      LeastOfSet(x, y);
    }
  }

  /** It is the least GHSA id if there is one, else the least CVE id, else the least id. */
  lemma AdvisoryIsPreferred(all: seq<string>)
    ensures Trimmed(all) == [] <==> PickAdvisory(all) !in Trimmed(all)
    ensures Trimmed(all) == [] ==> PickAdvisory(all) == "UNKNOWN"
    ensures forall id <- Trimmed(all) :: IsGhsa(id) ==> IsGhsa(PickAdvisory(all)) && LexLe(PickAdvisory(all), id)
    ensures forall id <- Trimmed(all) :: IsCve(id) && !IsGhsa(PickAdvisory(all)) ==>
              IsCve(PickAdvisory(all)) && LexLe(PickAdvisory(all), id)
    ensures forall id <- Trimmed(all) :: !IsGhsa(PickAdvisory(all)) && !IsCve(PickAdvisory(all)) ==>
              LexLe(PickAdvisory(all), id)
  {
    var ids := Trimmed(all);
    var ghsa, cve := KeepIf(ids, IsGhsa), KeepIf(ids, IsCve);
    forall x
      ensures x in ghsa <==> x in ids && IsGhsa(x)
      ensures x in cve <==> x in ids && IsCve(x)
    {
      KeepIfHas(ids, IsGhsa, x);
      KeepIfHas(ids, IsCve, x);
    }
    if ghsa != [] {
      LeastIsLeast(ghsa);
    } else if cve != [] {
      LeastIsLeast(cve);
    } else if ids != [] {
      LeastIsLeast(ids);
    }
  }

  datatype Vuln = Vuln(id: string, aliases: seq<string>, summary: string)

  datatype Group = Group(ids: seq<string>, score: Option<real>)

  datatype Package = Package(source: string, coord: string, vulns: seq<Vuln>, groups: seq<Group>)

  function IdOf(v: Vuln): string {
    v.id
  }

  /** `vulns.get(id)` in a dictionary built in order: the last entry with the id. */
  function LookUp(vulns: seq<Vuln>, id: string): Vuln {
    if vulns == [] then Vuln(id, [], "")
    else if vulns[|vulns| - 1].id == id then vulns[|vulns| - 1]
    else LookUp(vulns[..|vulns| - 1], id)
  }

  function AliasesOf(vulns: seq<Vuln>, ids: seq<string>): seq<string> {
    if ids == [] then [] else AliasesOf(vulns, ids[..|ids| - 1]) + LookUp(vulns, ids[|ids| - 1]).aliases
  }

  /** The last non-empty summary. */
  function SummaryOf(vulns: seq<Vuln>, ids: seq<string>): string {
    if ids == [] then ""
    else
      var last := LookUp(vulns, ids[|ids| - 1]).summary;
      if last != "" then last else SummaryOf(vulns, ids[..|ids| - 1])
  }

  function AdvisoryOf(pkg: Package, group: Group): string {
    PickAdvisory(group.ids + AliasesOf(pkg.vulns, group.ids))
  }

  function GroupFinding(pkg: Package): Group -> Finding {
    (group: Group) =>
      var advisory := AdvisoryOf(pkg, group);
      NewFinding(
        Osv,
        pkg.coord + " :: " + advisory,
        SeverityFromScore(group.score),
        pkg.source,
        None,
        NormWs(pkg.coord + ": " + advisory + " " + SummaryOf(pkg.vulns, group.ids), 300),
        advisory)
  }

  /** Without groups, all the vulnerabilities form one. */
  function GroupsOf(pkg: Package): seq<Group> {
    if pkg.groups != [] then pkg.groups
    else [Group(MapSeq(FirstBy(pkg.vulns, IdOf), IdOf), None)]
  }

  function PackageFindings(pkg: Package): seq<Finding> {
    MapSeq(GroupsOf(pkg), GroupFinding(pkg))
  }

  function ParseOsv(packages: seq<Package>): seq<Finding> {
    FlatMap(packages, PackageFindings)
  }

  /** `parse_osv_json`. */
  method ParseOsvJson(packages: seq<Package>) returns (out: seq<Finding>)
    ensures out == ParseOsv(packages)
  {
    out := [];
    var i := 0;
    while i < |packages|
      invariant 0 <= i <= |packages|
      invariant out == ParseOsv(packages[..i])
    {
      var found := ParseOnePackage(packages[i]);
      out := out + found;
      assert packages[..i + 1][..i] == packages[..i];
      i := i + 1;
    }
    All(packages);
  }

  method ParseOnePackage(pkg: Package) returns (out: seq<Finding>)
    ensures out == PackageFindings(pkg)
  {
    var vulns, ids := IndexById(pkg.vulns);
    out := ParseGroups(pkg, vulns, if pkg.groups != [] then pkg.groups else [Group(ids, None)], GroupFinding(pkg));
  }

  ghost predicate FindsIn(pkg: Package, finding: Group -> Finding) {
    finding == GroupFinding(pkg)
  }

  method ParseGroups(
      pkg: Package, vulns: map<string, Vuln>, groups: seq<Group>, ghost finding: Group -> Finding)
    returns (out: seq<Finding>)
    requires IsIndex(vulns, pkg.vulns) && FindsIn(pkg, finding)
    ensures out == MapSeq(groups, finding)
  {
    out := [];
    var j := 0;
    while j < |groups|
      invariant 0 <= j <= |groups|
      invariant out == MapSeq(groups[..j], finding)
    {
      MapSeqStep(groups, j, finding);
      var found := ParseOneGroup(pkg, vulns, groups[j], finding);
      out := out + [found];
      j := j + 1;
    }
    All(groups);
  }

  /** The dictionary `vulns` of a package, and its keys in the order they were put in. */
  method IndexById(vulns: seq<Vuln>) returns (byId: map<string, Vuln>, ids: seq<string>)
    ensures IsIndex(byId, vulns)
    ensures ids == MapSeq(FirstBy(vulns, IdOf), IdOf)
  {
    byId, ids := map[], [];
    var i := 0;
    while i < |vulns|
      invariant 0 <= i <= |vulns|
      invariant IsIndex(byId, vulns[..i])
      invariant ids == MapSeq(FirstBy(vulns[..i], IdOf), IdOf)
    {
      FirstByStep(vulns, i, IdOf);
      if vulns[i].id !in byId {
        ids := ids + [vulns[i].id];
      }
      IndexOneMore(byId, vulns, i);
      byId := byId[vulns[i].id := vulns[i]];
      i := i + 1;
    }
    All(vulns);
  }

  /** A dictionary that answers as `LookUp` does. */
  ghost predicate IsIndex(byId: map<string, Vuln>, vulns: seq<Vuln>) {
    && (forall id :: id in byId <==> KeyIn(vulns, IdOf, id))
    && (forall id :: LookUp(vulns, id) == if id in byId then byId[id] else Vuln(id, [], ""))
  }

  lemma IndexOneMore(byId: map<string, Vuln>, vulns: seq<Vuln>, i: nat)
    requires i < |vulns| && IsIndex(byId, vulns[..i])
    ensures IsIndex(byId[vulns[i].id := vulns[i]], vulns[..i + 1])
  {
    assert vulns[..i + 1][..i] == vulns[..i];
    KeyInStep(vulns, i, IdOf);
  }

  /** The body of the loop over the groups, with its two loops over the ids. */
  method ParseOneGroup(
      pkg: Package, vulns: map<string, Vuln>, group: Group, ghost finding: Group -> Finding)
    returns (f: Finding)
    requires IsIndex(vulns, pkg.vulns) && FindsIn(pkg, finding)
    ensures f == finding(group)
  {
    var ids := group.ids;
    var aliases := CollectAliases(pkg.vulns, vulns, ids);
    var advisory := PickAdvisory(ids + aliases);
    var summary := LastSummary(pkg.vulns, vulns, ids);
    f := NewFinding(
      Osv, pkg.coord + " :: " + advisory, SeverityFromScore(group.score), pkg.source, None,
      NormWs(pkg.coord + ": " + advisory + " " + summary, 300), advisory);
  }

  method CollectAliases(ghost vulns: seq<Vuln>, byId: map<string, Vuln>, ids: seq<string>)
    returns (aliases: seq<string>)
    requires IsIndex(byId, vulns)
    ensures aliases == AliasesOf(vulns, ids)
  {
    aliases := [];
    var i := 0;
    while i < |ids|
      invariant 0 <= i <= |ids|
      invariant aliases == AliasesOf(vulns, ids[..i])
    {
      assert ids[..i + 1][..i] == ids[..i];
      if ids[i] in byId {
        aliases := aliases + byId[ids[i]].aliases;
      }
      i := i + 1;
    }
    All(ids);
  }

  method LastSummary(ghost vulns: seq<Vuln>, byId: map<string, Vuln>, ids: seq<string>)
    returns (summary: string)
    requires IsIndex(byId, vulns)
    ensures summary == SummaryOf(vulns, ids)
  {
    summary := "";
    var i := 0;
    while i < |ids|
      invariant 0 <= i <= |ids|
      invariant summary == SummaryOf(vulns, ids[..i])
    {
      assert ids[..i + 1][..i] == ids[..i];
      if ids[i] in byId && byId[ids[i]].summary != "" {
        summary := byId[ids[i]].summary;
      }
      i := i + 1;
    }
    All(ids);
  }
}
