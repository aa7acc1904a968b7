/**
  One run of the gate (thyn_security_toolchain/ci.py): which tools run on a change, how each is
  judged, what the run exits with, and what measuring baselines writes.
 */
module Ci {
  import opened Wrappers
  import opened Text
  import opened Seqs
  import opened Findings
  import opened Baseline
  import opened Gate
  import Changed
  import Sarif
  import SarifLaws
  import Scanners
  import Advisories

  /** What the scanners report when they run on this tree. */
  datatype Reports = Reports(
    gitleaks: seq<Scanners.Leak>, opengrep: Sarif.Report, osv: seq<Scanners.Package>, trivy: seq<Scanners.Check>)

  /** What decides whether a changed path concerns a tool. */
  datatype Filters = Filters(scannable: string -> bool, manifest: string -> bool, iac: string -> bool)

  function FindingsBy(tool: Tool, reports: Reports): seq<Finding> {
    match tool
    case Gitleaks => Scanners.ParseGitleaks(reports.gitleaks)
    case Opengrep => Sarif.Parse(reports.opengrep)
    case Osv => Scanners.ParseOsv(reports.osv)
    case Trivy => Scanners.ParseTrivy(reports.trivy)
  }

  /** The findings the gate sees: Opengrep's file is demoted before it is parsed. */
  ghost function FindingsOf(tool: Tool, reports: Reports): seq<Finding> {
    FindingsBy(tool, reports.(opengrep := Sarif.FileAfterDemotion(reports.opengrep)))
  }

  predicate AnyMatch(scope: Changed.Scope, p: string -> bool) {
    scope.All? || exists path <- scope.paths :: p(path)
  }

  /** Whether a requested tool has anything to scan in the scope. */
  predicate Concerns(tool: Tool, scope: Changed.Scope, filters: Filters) {
    match tool
    case Gitleaks => true
    case Opengrep => AnyMatch(scope, filters.scannable)
    case Osv => AnyMatch(scope, filters.manifest)
    case Trivy => AnyMatch(scope, filters.iac)
  }

  const TOOL_ORDER: seq<Tool> := [Gitleaks, Opengrep, Osv, Trivy]
  const MEASURED: seq<Tool> := [Opengrep, Osv, Trivy]

  /** Measuring forces a full scan. */
  function ScopeOfRun(scope: Changed.Scope, measure: bool): Changed.Scope {
    if measure then Changed.All else scope
  }

  function Runs(tools: set<Tool>, scope: Changed.Scope, filters: Filters): Tool -> bool {
    (tool: Tool) => tool in tools && Concerns(tool, scope, filters)
  }

  /** The run's results, in tool order. */
  ghost function ResultsOf(
      ran: seq<Tool>, baselines: map<Tool, string>, reports: Reports, mode: Mode): seq<GateResult>
  {
    if ran == [] then []
    else
      var tool := ran[|ran| - 1];
      ResultsOf(ran[..|ran| - 1], baselines, reports, mode)
      + [Judge(tool, FindingsOf(tool, reports), BaselineFor(tool, FileOf(baselines, tool), mode), mode)]
  }

  function FileOf(baselines: map<Tool, string>, tool: Tool): Option<string> {
    if tool in baselines then Some(baselines[tool]) else None
  }

  function MaxExit(results: seq<GateResult>): nat {
    if results == [] then 0
    else
      var rest := MaxExit(results[..|results| - 1]);
      var last := results[|results| - 1].ExitCode();
      if last > rest then last else rest
  }

  /** The baseline files after measuring: rewritten for each measured tool that ran. */
  ghost function AfterMeasuring(
      measured: seq<Tool>, ran: seq<Tool>, baselines: map<Tool, string>, reports: Reports, header: Tool -> Header)
    : map<Tool, string>
  {
    if measured == [] then baselines
    else
      var tool := measured[|measured| - 1];
      var before := AfterMeasuring(measured[..|measured| - 1], ran, baselines, reports, header);
      if tool in ran then before[tool := Measured(header(tool), FindingsOf(tool, reports))] else before
  }

  datatype Error = NotOnActions

  class Workspace {
    /** The committed baseline files; gitleaks never has one. */
    var baselines: map<Tool, string>

    constructor (baselines: map<Tool, string>)
      ensures this.baselines == baselines
    {
      this.baselines := baselines;
    }

    /** `run_ci`: the exit code, or the refusal to measure outside of GitHub Actions. */
    method RunCi(
        mode: Mode, scope: Changed.Scope, tools: set<Tool>, filters: Filters, reports: Reports,
        measure: bool, onActions: bool, header: Tool -> Header)
      returns (exit: Result<nat, Error>, results: seq<GateResult>)
      modifies this
      ensures var ran := KeepIf(TOOL_ORDER, Runs(tools, ScopeOfRun(scope, measure), filters));
              && results == ResultsOf(ran, old(baselines), reports, mode)
              && (exit.Err? <==> measure && !onActions && exists t <- MEASURED :: t in ran)
              && (!measure ==> exit == Ok(MaxExit(results)) && baselines == old(baselines))
              && (measure && exit.Ok? ==>
                    exit == Ok(0) && baselines == AfterMeasuring(MEASURED, ran, old(baselines), reports, header))
              && (exit.Err? ==> baselines == old(baselines))
    {
      var ran, allFindings;
      ran, allFindings, results := GateTools(baselines, tools, ScopeOfRun(scope, measure), filters, reports, mode);
      if !measure {
        return Ok(MaxExit(results)), results;
      }
      if !onActions && (exists t <- MEASURED :: t in allFindings) {
        return Err(NotOnActions), results;
      }
      MeasureBaselines(ran, allFindings, reports, header);
      return Ok(0), results;
    }

    /** The last part of `run_ci`: a new baseline for every tool that ran, gitleaks aside. */
    method MeasureBaselines(
        ghost ran: seq<Tool>, allFindings: map<Tool, seq<Finding>>, ghost reports: Reports, header: Tool -> Header)
      requires Recorded(allFindings, ran, reports)
      modifies this
      ensures baselines == AfterMeasuring(MEASURED, ran, old(baselines), reports, header)
    {
      var i := 0;
      while i < |MEASURED|
        invariant 0 <= i <= |MEASURED|
        invariant baselines == AfterMeasuring(MEASURED[..i], ran, old(baselines), reports, header)
      {
        var tool := MEASURED[i];
        assert MEASURED[..i + 1][..i] == MEASURED[..i];
        if tool in allFindings {
          baselines := baselines[tool := Measured(header(tool), allFindings[tool])];
        }
        i := i + 1;
      }
      Seqs.All(MEASURED);
    }
  }

  /** What `all_findings` holds once the tools of `ran` have run. */
  ghost predicate Recorded(allFindings: map<Tool, seq<Finding>>, ran: seq<Tool>, reports: Reports) {
    (forall t :: t in allFindings <==> t in ran) && (forall t <- ran :: allFindings[t] == FindingsOf(t, reports))
  }

  lemma RecordOneMore(allFindings: map<Tool, seq<Finding>>, ran: seq<Tool>, reports: Reports, tool: Tool)
    requires Recorded(allFindings, ran, reports)
    ensures Recorded(allFindings[tool := FindingsOf(tool, reports)], ran + [tool], reports)
  {}

  /** The first part of `run_ci`: the tools that have something to scan, each scanned and gated. */
  method GateTools(
      baselines: map<Tool, string>, tools: set<Tool>, scope: Changed.Scope, filters: Filters,
      reports: Reports, mode: Mode)
    returns (ran: seq<Tool>, allFindings: map<Tool, seq<Finding>>, results: seq<GateResult>)
    ensures ran == KeepIf(TOOL_ORDER, Runs(tools, scope, filters))
    ensures results == ResultsOf(ran, baselines, reports, mode)
    ensures Recorded(allFindings, ran, reports)
  {
    var runs := Runs(tools, scope, filters);
    ran, allFindings, results := [], map[], [];
    var i := 0;
    while i < |TOOL_ORDER|
      invariant 0 <= i <= |TOOL_ORDER|
      invariant ran == KeepIf(TOOL_ORDER[..i], runs)
      invariant results == ResultsOf(ran, baselines, reports, mode)
      invariant Recorded(allFindings, ran, reports)
    {
      var tool := TOOL_ORDER[i];
      KeepIfStep(TOOL_ORDER, i, runs);
      if runs(tool) {
        var findings := Scan(tool, reports);
        var result := GateFindings(tool, FileOf(baselines, tool), findings, mode);
        assert (ran + [tool])[..|ran|] == ran;
        RecordOneMore(allFindings, ran, reports, tool);
        allFindings := allFindings[tool := findings];
        ran, results := ran + [tool], results + [result];
      }
      i := i + 1;
    }
    Seqs.All(TOOL_ORDER);
  }

  /** One scanner and its parser; Opengrep's report is demoted on disk first. */
  method Scan(tool: Tool, reports: Reports) returns (findings: seq<Finding>)
    ensures findings == FindingsOf(tool, reports)
  {
    match tool
    case Gitleaks =>
      findings := Scanners.ParseGitleaks(reports.gitleaks);
    case Opengrep =>
      var file := new Sarif.SarifFile(reports.opengrep);
      var _ := file.DemoteLowConfidenceLevels();
      findings := Sarif.ParseOpengrepSarif(file.content);
    case Osv =>
      findings := Scanners.ParseOsvJson(reports.osv);
    case Trivy =>
      findings := Scanners.ParseTrivySarif(reports.trivy);
  }

  // ------------------------------------------------------------------- the exit code

  lemma {:induction false} MaxExitExactly(results: seq<GateResult>)
    requires forall r <- results :: r.ExitCode() <= 1
    ensures MaxExit(results) <= 1
    ensures MaxExit(results) == 1 <==> exists r <- results :: r.ExitCode() == 1
  {
    if results != [] {
      MaxExitExactly(results[..|results| - 1]);
      assert results == results[..|results| - 1] + [results[|results| - 1]];
    }
  }

  lemma {:induction false} ResultsExactly(ran: seq<Tool>, baselines: map<Tool, string>, reports: Reports, mode: Mode)
    ensures forall r :: r in ResultsOf(ran, baselines, reports, mode)
              <==> exists t :: t in ran
                     && r == Judge(t, FindingsOf(t, reports), BaselineFor(t, FileOf(baselines, t), mode), mode)
  {
    if ran != [] {
      ResultsExactly(ran[..|ran| - 1], baselines, reports, mode);
      assert ran == ran[..|ran| - 1] + [ran[|ran| - 1]];
    }
  }

  /** A finding that turns a ratcheted run red. */
  ghost predicate Fails(tool: Tool, baselines: map<Tool, string>, reports: Reports, f: Finding) {
    && f in FindingsOf(tool, reports)
    && f.Blocking()
    && (tool == Gitleaks || (tool in baselines && f.key !in Keys(baselines[tool])))
  }

  /** The run exits 1 exactly when it ratchets and some tool that ran has a failing finding. */
  lemma RunFailsExactly(ran: seq<Tool>, baselines: map<Tool, string>, reports: Reports, mode: Mode)
    ensures MaxExit(ResultsOf(ran, baselines, reports, mode)) == 1
       <==> mode == Ratchet && exists t, f :: t in ran && Fails(t, baselines, reports, f)
    ensures MaxExit(ResultsOf(ran, baselines, reports, mode)) <= 1
  {
    var results := ResultsOf(ran, baselines, reports, mode);
    ResultsExactly(ran, baselines, reports, mode);
    forall t
      ensures Judge(t, FindingsOf(t, reports), BaselineFor(t, FileOf(baselines, t), mode), mode).ExitCode() <= 1
      ensures Judge(t, FindingsOf(t, reports), BaselineFor(t, FileOf(baselines, t), mode), mode).ExitCode() == 1
         <==> mode == Ratchet && exists f :: Fails(t, baselines, reports, f)
    {
      FailsExactly(t, FindingsOf(t, reports), BaselineFor(t, FileOf(baselines, t), mode), mode);
      if f :| Fails(t, baselines, reports, f) {
        assert f in FindingsOf(t, reports);
      }
      if mode == Ratchet && BaselineFor(t, FileOf(baselines, t), mode).Some? {
        if f :| f in FindingsOf(t, reports) && f.Blocking()
                && f.key !in BaselineFor(t, FileOf(baselines, t), mode).value {
          assert Fails(t, baselines, reports, f);
        }
      }
    }
    MaxExitExactly(results);
  }

  // ------------------------------------------------------------------- what runs

  /** The change may concern a scanner: it is a full scan, or some path of it is of the right kind. */
  ghost predicate Touches(scope: Changed.Scope, kind: string -> bool) {
    scope == Changed.All || exists path :: path in scope.paths && kind(path)
  }

  /**
    What runs: gitleaks whenever it is asked for; Opengrep on scannable files, osv-scanner on manifests
    and Trivy on infrastructure; all of them, if asked for, when measuring; in this order, each once.
   */
  lemma RanExactly(tools: set<Tool>, scope: Changed.Scope, measure: bool, filters: Filters)
    ensures var ran := KeepIf(TOOL_ORDER, Runs(tools, ScopeOfRun(scope, measure), filters));
            && (Gitleaks in ran <==> Gitleaks in tools)
            && (Opengrep in ran <==> Opengrep in tools && (measure || Touches(scope, filters.scannable)))
            && (Osv in ran <==> Osv in tools && (measure || Touches(scope, filters.manifest)))
            && (Trivy in ran <==> Trivy in tools && (measure || Touches(scope, filters.iac)))
            && forall i, j :: 0 <= i < j < |ran| ==> Place(ran[i]) < Place(ran[j])
  {
    var runs := Runs(tools, ScopeOfRun(scope, measure), filters);
    forall tool
      ensures tool in KeepIf(TOOL_ORDER, runs) <==> runs(tool)
    {
      assert TOOL_ORDER[Place(tool)] == tool;
      KeepIfHas(TOOL_ORDER, runs, tool);
    }
    var at := KeepIfPicks(TOOL_ORDER, runs);
    assert forall k :: 0 <= k < 4 ==> Place(TOOL_ORDER[k]) == k;
  }

  function Place(tool: Tool): nat {
    match tool
    case Gitleaks => 0
    case Opengrep => 1
    case Osv => 2
    case Trivy => 3
  }

  ghost function JudgedBy(baselines: map<Tool, string>, reports: Reports, mode: Mode): Tool -> GateResult {
    tool => Judge(tool, FindingsOf(tool, reports), BaselineFor(tool, FileOf(baselines, tool), mode), mode)
  }

  /** One result for each tool that ran, in order. */
  lemma {:induction false} ResultsInOrder(
      ran: seq<Tool>, baselines: map<Tool, string>, reports: Reports, mode: Mode, judged: Tool -> GateResult)
    requires judged == JudgedBy(baselines, reports, mode)
    ensures ResultsOf(ran, baselines, reports, mode) == MapSeq(ran, judged)
  {
    if ran != [] {
      var init := ran[..|ran| - 1];
      ResultsInOrder(init, baselines, reports, mode, judged);
      MapSeqStep(ran, |ran| - 1, judged);
      Seqs.All(ran);
      assert ResultsOf(ran, baselines, reports, mode)
          == ResultsOf(init, baselines, reports, mode) + [judged(ran[|ran| - 1])];
    }
  }

  // ------------------------------------------------------------------- measure, then ratchet

  lemma {:induction false} MeasuredFiles(
      measured: seq<Tool>, ran: seq<Tool>, baselines: map<Tool, string>, reports: Reports,
      header: Tool -> Header, tool: Tool)
    ensures var after := AfterMeasuring(measured, ran, baselines, reports, header);
            FileOf(after, tool)
            == if tool in measured && tool in ran then Some(Measured(header(tool), FindingsOf(tool, reports)))
               else FileOf(baselines, tool)
  {
    if measured != [] {
      MeasuredFiles(measured[..|measured| - 1], ran, baselines, reports, header, tool);
      assert measured == measured[..|measured| - 1] + [measured[|measured| - 1]];
    }
  }

  lemma FailsAfterMeasuring(
      baselines: map<Tool, string>, reports: Reports, header: Tool -> Header, measuredRun: seq<Tool>,
      t: Tool, f: Finding)
    requires HeaderFits(header(t)) && t != Gitleaks && t in measuredRun
    ensures Fails(t, AfterMeasuring(MEASURED, measuredRun, baselines, reports, header), reports, f)
       <==> f in FindingsOf(t, reports) && f.Blocking() && !Plain(f.key)
  {
    assert t in MEASURED;
    MeasuredFiles(MEASURED, measuredRun, baselines, reports, header, t);
    if f in FindingsOf(t, reports) {
      KeysOfFindingsHas(FindingsOf(t, reports), f);
      KeyReadsBackExactly(header(t), KeysOfFindings(FindingsOf(t, reports)), f.key);
    }
  }

  /** Secrets are zero tolerance: any leak fails. */
  lemma LeaksFail(baselines: map<Tool, string>, reports: Reports)
    ensures (exists f :: Fails(Gitleaks, baselines, reports, f)) <==> reports.gitleaks != []
  {
    var found := FindingsOf(Gitleaks, reports);
    assert found == MapSeq(reports.gitleaks, Scanners.LeakFinding);
    if found != [] {
      assert found[0] == Scanners.LeakFinding(reports.gitleaks[0]);
      assert Fails(Gitleaks, baselines, reports, found[0]);
    }
    if f :| Fails(Gitleaks, baselines, reports, f) {
      assert found != [];
    }
  }

  // ------------------------------------------------------------------- keys are stripped

  /** Its key has no whitespace at either end, and is not blank. */
  ghost predicate HasStrippedKey(f: Finding) {
    IsStripped(f.key) && f.key != ""
  }

  lemma SeparatedIsStripped(a: string, sep: string, b: string)
    requires sep == ":" || sep == " :: "
    ensures IsStripped(Strip(a + sep + b)) && Strip(a + sep + b) != ""
  {
    StripIsStripped(a + sep + b);
    StripKeepsText(a + sep + b, |a| + if sep == ":" then 0 else 1);
  }

  lemma MappedAreStripped<T>(s: seq<T>, build: T -> Finding, f: Finding)
    requires f in MapSeq(s, build) && forall x: T :: HasStrippedKey(build(x))
    ensures HasStrippedKey(f)
  {
    MapSeqHas(s, build, f);
  }

  lemma ChecksAreStripped(checks: seq<Scanners.Check>, f: Finding)
    requires f in Scanners.ParseTrivy(checks)
    ensures HasStrippedKey(f)
  {
    var found := MapSeq(checks, Scanners.CheckFinding);
    var kept := FirstBy(found, Scanners.KeyOf);
    FirstByKeepsFirsts(found, Scanners.KeyOf);
    var k :| 0 <= k < |kept| && kept[k] == f;
    assert HasFirst(found, Scanners.KeyOf, f);
    forall x: Scanners.Check
      ensures HasStrippedKey(Scanners.CheckFinding(x))
    {
      SeparatedIsStripped(x.ruleId, " :: ", x.uri);
    }
    MappedAreStripped(checks, Scanners.CheckFinding, f);
  }

  lemma GroupsAreStripped(packages: seq<Scanners.Package>, f: Finding)
    requires f in Scanners.ParseOsv(packages)
    ensures HasStrippedKey(f)
  {
    var pkg, group := Advisories.ParsedFrom(packages, f);
    SeparatedIsStripped(pkg.coord, " :: ", Scanners.AdvisoryOf(pkg, group));
  }

  lemma AlertsAreStripped(report: Sarif.Report, f: Finding)
    requires f in Sarif.Parse(report)
    ensures HasStrippedKey(f)
  {
    FlatMapHas(report, Sarif.ParseRun, f);
    var run :| run in report && f in Sarif.ParseRun(run);
    MapSeqHas(run.results, Sarif.FindingsOf(run), f);
    var res :| res in run.results && f == Sarif.FindingsOf(run)(res);
    AlertIsStripped(run, res);
  }

  lemma AlertIsStripped(run: Sarif.ToolRun, res: Sarif.Alert)
    ensures HasStrippedKey(Sarif.ToFinding(run, res))
  {
    var rule := Sarif.NormalizeRuleId(Sarif.OrEmpty(res.ruleId));
    SeparatedIsStripped(rule + " :: " + res.uri, " :: ", NormWs(res.snippet, 100));
  }

  lemma LeaksAreStripped(leaks: seq<Scanners.Leak>, f: Finding)
    requires f in Scanners.ParseGitleaks(leaks)
    ensures HasStrippedKey(f)
  {
    forall x: Scanners.Leak
      ensures HasStrippedKey(Scanners.LeakFinding(x))
    {
      LeakIsStripped(x);
    }
    MappedAreStripped(leaks, Scanners.LeakFinding, f);
  }

  lemma LeakIsStripped(leak: Scanners.Leak)
    ensures HasStrippedKey(Scanners.LeakFinding(leak))
  {
    StripIsStripped(leak.fingerprint);
    StripIsStripped(Strip(leak.fingerprint));
    SeparatedIsStripped(leak.file + ":" + leak.ruleId, ":", leak.start);
  }

  /** Whatever a scanner reports, the key of a finding is stripped and not blank. */
  lemma KeysAreStripped(tool: Tool, reports: Reports, f: Finding)
    requires f in FindingsOf(tool, reports)
    ensures Strip(f.key) == f.key != ""
    ensures Plain(f.key) <==> !IsUnreadable(f.key)
  {
    match tool {
      case Gitleaks => LeaksAreStripped(reports.gitleaks, f);
      case Opengrep => AlertsAreStripped(Sarif.FileAfterDemotion(reports.opengrep), f);
      case Osv => GroupsAreStripped(reports.osv, f);
      case Trivy => ChecksAreStripped(reports.trivy, f);
    }
    StripIsStripped(f.key);
    StrippedIsPlainExactly(f.key);
  }

  // ------------------------------------------------------------------- findings and their tools

  /** It is of the tool, and its message is normalised. */
  ghost predicate IsFindingOf(tool: Tool, f: Finding) {
    f.tool == tool && Canonical(f.message, 300)
  }

  lemma MappedAreOf<T>(tool: Tool, s: seq<T>, build: T -> Finding, f: Finding)
    requires f in MapSeq(s, build) && forall x: T :: IsFindingOf(tool, build(x))
    ensures IsFindingOf(tool, f)
  {
    MapSeqHas(s, build, f);
  }

  lemma LeaksAreOf(leaks: seq<Scanners.Leak>, f: Finding)
    requires f in Scanners.ParseGitleaks(leaks)
    ensures IsFindingOf(Gitleaks, f)
  {
    forall x: Scanners.Leak
      ensures IsFindingOf(Gitleaks, Scanners.LeakFinding(x))
    {
      NormWsIsCanonical(x.ruleId + ": " + x.description + " (secret redacted)", 300);
    }
    MappedAreOf(Gitleaks, leaks, Scanners.LeakFinding, f);
  }

  lemma AlertsAreOf(report: Sarif.Report, f: Finding)
    requires f in Sarif.Parse(report)
    ensures IsFindingOf(Opengrep, f)
  {
    FlatMapHas(report, Sarif.ParseRun, f);
    var run :| run in report && f in Sarif.ParseRun(run);
    MapSeqHas(run.results, Sarif.FindingsOf(run), f);
    var res :| res in run.results && f == Sarif.FindingsOf(run)(res);
    NormWsIsCanonical(res.message, 300);
  }

  lemma GroupsAreOf(packages: seq<Scanners.Package>, f: Finding)
    requires f in Scanners.ParseOsv(packages)
    ensures IsFindingOf(Osv, f)
  {
    var pkg, group := Advisories.ParsedFrom(packages, f);
    var advisory := Scanners.AdvisoryOf(pkg, group);
    NormWsIsCanonical(
      pkg.coord + ": " + advisory + " " + Scanners.SummaryOf(pkg.vulns, group.ids), 300);
  }

  lemma ChecksAreOf(checks: seq<Scanners.Check>, f: Finding)
    requires f in Scanners.ParseTrivy(checks)
    ensures IsFindingOf(Trivy, f)
  {
    var found := MapSeq(checks, Scanners.CheckFinding);
    var kept := FirstBy(found, Scanners.KeyOf);
    FirstByKeepsFirsts(found, Scanners.KeyOf);
    var k :| 0 <= k < |kept| && kept[k] == f;
    assert HasFirst(found, Scanners.KeyOf, f);
    forall x: Scanners.Check
      ensures IsFindingOf(Trivy, Scanners.CheckFinding(x))
    {
      NormWsIsCanonical(if x.title != "" then x.title else x.message, 300);
    }
    MappedAreOf(Trivy, checks, Scanners.CheckFinding, f);
  }

  /** What is gated for a tool is what its own parser finds, with normalised messages of at most 300 characters. */
  lemma FindingsAreOfTool(tool: Tool, reports: Reports, f: Finding)
    requires f in FindingsOf(tool, reports)
    ensures IsFindingOf(tool, f)
  {
    match tool {
      case Gitleaks => LeaksAreOf(reports.gitleaks, f);
      case Opengrep => AlertsAreOf(Sarif.FileAfterDemotion(reports.opengrep), f);
      case Osv => GroupsAreOf(reports.osv, f);
      case Trivy => ChecksAreOf(reports.trivy, f);
    }
  }

  // ------------------------------------------------------------------- measured, then ratcheted

  /** A blocking finding of a measured tool whose key starts with `#` or contains a line break. */
  ghost predicate Unlistable(ran: seq<Tool>, reports: Reports, t: Tool, f: Finding) {
    t in ran && t != Gitleaks && f in FindingsOf(t, reports) && f.Blocking() && IsUnreadable(f.key)
  }

  /**
    Measure the baselines and gate the same reports again in ratchet mode, with tools that were
    all measured: the run exits 1 exactly when gitleaks ran and reported a leak, or a blocking
    finding has a key that starts with `#` or contains a line break.
   */
  lemma MeasuredThenRatcheted(
      baselines: map<Tool, string>, reports: Reports, header: Tool -> Header, measuredRun: seq<Tool>, ran: seq<Tool>)
    requires forall t :: HeaderFits(header(t))
    requires forall t <- ran :: t != Gitleaks ==> t in measuredRun
    ensures MaxExit(ResultsOf(
              ran, AfterMeasuring(MEASURED, measuredRun, baselines, reports, header), reports, Ratchet)) == 1
       <==> (Gitleaks in ran && reports.gitleaks != []) || exists t, f :: Unlistable(ran, reports, t, f)
  {
    var after := AfterMeasuring(MEASURED, measuredRun, baselines, reports, header);
    RunFailsExactly(ran, after, reports, Ratchet);
    LeaksFail(after, reports);
    forall t, f | t in ran && t != Gitleaks
      ensures Fails(t, after, reports, f) <==> Unlistable(ran, reports, t, f)
    {
      FailsAfterMeasuring(baselines, reports, header, measuredRun, t, f);
      if f in FindingsOf(t, reports) {
        KeysAreStripped(t, reports, f);
      }
    }
    if t, f :| Unlistable(ran, reports, t, f) {
      assert t in ran && Fails(t, after, reports, f);
    }
    if Gitleaks in ran && reports.gitleaks != [] {
      var f :| Fails(Gitleaks, after, reports, f);
    }
  }

  /** With keys that make a line of their own nothing measured is new and nothing is fixed on the next run. */
  lemma MeasuredLeavesNothingToDo(
      baselines: map<Tool, string>, reports: Reports, header: Tool -> Header, measuredRun: seq<Tool>,
      tool: Tool, mode: Mode)
    requires tool in MEASURED && tool in measuredRun && HeaderFits(header(tool))
    requires forall f <- FindingsOf(tool, reports) :: !IsUnreadable(f.key)
    ensures var after := AfterMeasuring(MEASURED, measuredRun, baselines, reports, header);
            var r := Judge(tool, FindingsOf(tool, reports), BaselineFor(tool, FileOf(after, tool), mode), mode);
            r.added == [] && r.fixed == [] && r.known == FindingsOf(tool, reports)
  {
    MeasuredFiles(MEASURED, measuredRun, baselines, reports, header, tool);
    forall f | f in FindingsOf(tool, reports)
      ensures Plain(f.key)
    {
      KeysAreStripped(tool, reports, f);
    }
    MeasuredThenGated(tool, header(tool), FindingsOf(tool, reports), mode);
  }

  /** Measured and gated again, a blocking Trivy check whose id starts with `#` fails the run. */
  lemma HashRuleFailsAgain(
      baselines: map<Tool, string>, header: Tool -> Header, check: Scanners.Check)
    requires forall t :: HeaderFits(header(t))
    requires StartsWith(check.ruleId, "#") && check.score.Some? && check.score.value >= 7.0
    ensures var reports := Reports([], [], [], [check]);
            MaxExit(ResultsOf(
              [Trivy], AfterMeasuring(MEASURED, [Trivy], baselines, reports, header), reports, Ratchet)) == 1
  {
    var reports := Reports([], [], [], [check]);
    var f := Scanners.CheckFinding(check);
    HashCheckIsFound(reports, check);
    assert Unlistable([Trivy], reports, Trivy, f);
    MeasuredThenRatcheted(baselines, reports, header, [Trivy], [Trivy]);
  }

  lemma HashCheckIsFound(reports: Reports, check: Scanners.Check)
    requires reports.trivy == [check] && StartsWith(check.ruleId, "#")
    ensures Scanners.CheckFinding(check) in FindingsOf(Trivy, reports)
    ensures IsUnreadable(Scanners.CheckFinding(check).key)
  {
    var found := MapSeq([check], Scanners.CheckFinding);
    assert found == [Scanners.CheckFinding(check)];
    FirstByStep(found, 0, Scanners.KeyOf);
    Seqs.All(found);
    StripStarts(check.ruleId + " :: " + check.uri);
  }

  lemma StripStarts(s: string)
    requires s != "" && !IsSpace(s[0])
    ensures Strip(s) != "" && Strip(s)[0] == s[0]
  {
    StripKeepsText(s, 0);
    RStripDrops(s);
  }
}
