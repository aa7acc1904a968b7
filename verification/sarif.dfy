/**
  Opengrep SARIF reports (thyn_security_toolchain/gate.py): the parser and the two rewriters that
  run over the same file, `demote_low_confidence_levels` and `drop_audit_results`.

  A report is modelled after JSON decoding: per run, the rules and the results it lists.
 */
module Sarif {
  import opened Wrappers
  import opened Text
  import opened Seqs
  import opened Findings

  /** A `level`: absent, present but falsy (`null`, `""`), or a name. */
  datatype Level = Missing | Blank | Named(name: string)

  const ERROR := Named("error")
  const WARNING := Named("warning")

  datatype Rule = Rule(id: Option<string>, config: Option<Level>, tags: seq<string>)

  datatype Alert = Alert(
    ruleId: Option<string>, level: Level, uri: string, line: Option<int>, snippet: string, message: string)

  datatype ToolRun = ToolRun(rules: seq<Rule>, results: seq<Alert>)

  type Report = seq<ToolRun>

  function OrEmpty(id: Option<string>): string {
    if id.Some? then id.value else ""
  }

  // ------------------------------------------------------------------- rule ids

  predicate AllHex(s: string) {
    s == "" || (('0' <= s[0] <= '9' || 'a' <= s[0] <= 'f') && AllHex(s[1..]))
  }

  const BUNDLE := "opengrep-rules-"

  /** A bundle name is followed by twelve hex digits and a dot. */
  const BUNDLE_LENGTH := 28

  predicate StartsWithBundle(id: string) {
    && |id| >= BUNDLE_LENGTH
    && id[..15] == BUNDLE
    && AllHex(id[15..27])
    && id[27] == '.'
  }

  /** What follows the first bundle name on the id's first line, as the lazy `^.*?` finds it. */
  function AfterBundle(id: string): Option<string> {
    if StartsWithBundle(id) then Some(id[BUNDLE_LENGTH..])
    else if id == "" || id[0] == '\n' then None
    else AfterBundle(id[1..])
  }

  /** `normalize_opengrep_rule_id`. */
  function NormalizeRuleId(id: string): string {
    var rest := AfterBundle(id);
    if rest.Some? then rest.value else id
  }

  predicate Contains(s: string, word: string) {
    StartsWith(s, word) || (s != "" && Contains(s[1..], word))
  }

  /** `(^|\.)audit\.|-audit$`, where `$` also matches before a final newline. */
  predicate IsAuditId(id: string) {
    || StartsWith(id, "audit.")
    || Contains(id, ".audit.")
    || EndsWith(id, "-audit")
    || EndsWith(id, "-audit\n")
  }

  predicate HasLowConfidenceTag(tags: seq<string>) {
    exists t <- tags :: Upper(t) == "LOW CONFIDENCE"
  }

  /** `_is_low_confidence_rule`. */
  predicate IsLow(id: string, tags: seq<string>) {
    HasLowConfidenceTag(tags) || IsAuditId(NormalizeRuleId(id))
  }

  predicate RuleIsLow(rule: Rule) {
    IsLow(OrEmpty(rule.id), rule.tags)
  }

  // ------------------------------------------------------------------- demotion

  ghost function LowIds(rules: seq<Rule>): set<string> {
    set r | r in rules && RuleIsLow(r) :: OrEmpty(r.id)
  }

  ghost function DemotedDefaults(rules: seq<Rule>): set<string> {
    set r | r in rules && RuleIsLow(r) && r.config == Some(ERROR) :: OrEmpty(r.id)
  }

  function DemoteRule(rule: Rule): Rule {
    if !RuleIsLow(rule) then rule
    else if rule.config == None then rule.(config := Some(Missing))
    else if rule.config == Some(ERROR) then rule.(config := Some(WARNING))
    else rule
  }

  ghost predicate IsListedLow(run: ToolRun, res: Alert) {
    res.ruleId.Some? && res.ruleId.value in LowIds(run.rules)
  }

  ghost function DemoteResult(run: ToolRun, res: Alert): Alert {
    if IsListedLow(run, res) && res.level == ERROR then res.(level := WARNING) else res
  }

  /** The results `demoted` counts. */
  ghost predicate IsCounted(run: ToolRun, res: Alert) {
    && IsListedLow(run, res)
    && (res.level == ERROR || (res.level == Missing && res.ruleId.value in DemotedDefaults(run.rules)))
  }

  ghost function DemotedBy(run: ToolRun): Alert -> Alert {
    res => DemoteResult(run, res)
  }

  ghost function CountedIn(run: ToolRun): Alert -> bool {
    res => IsCounted(run, res)
  }

  ghost function DemoteRun(run: ToolRun): ToolRun {
    ToolRun(MapSeq(run.rules, DemoteRule), MapSeq(run.results, DemotedBy(run)))
  }

  ghost function DemotedInRun(run: ToolRun): nat {
    CountIf(run.results, CountedIn(run))
  }

  ghost function DemotedCount(report: Report): nat {
    SumOf(report, DemotedInRun)
  }

  ghost function DemoteReport(report: Report): Report {
    MapSeq(report, DemoteRun)
  }

  /** The file after `demote_low_confidence_levels`: rewritten only when something was counted. */
  ghost function FileAfterDemotion(report: Report): Report {
    if DemotedCount(report) == 0 then report else DemoteReport(report)
  }

  class SarifFile {
    var content: Report

    constructor (content: Report)
      ensures this.content == content
    {
      this.content := content;
    }

    /** `demote_low_confidence_levels`. */
    method DemoteLowConfidenceLevels() returns (demoted: nat)
      modifies this
      ensures demoted == DemotedCount(old(content))
      ensures content == FileAfterDemotion(old(content))
    {
      var data := content;
      demoted := 0;
      ghost var demote, demotedIn := DemoteRun, DemotedInRun;
      var i := 0;
      while i < |data|
        invariant 0 <= i <= |data| == |content|
        invariant content == old(content)
        invariant forall k :: 0 <= k < |data| ==> data[k] == if k < i then demote(content[k]) else content[k]
        invariant demoted == SumOf(content[..i], demotedIn)
      {
        SumOfStep(content, i, demotedIn);
        var run, count := DemoteOneRun(data[i]);
        data := data[i := run];
        demoted := demoted + count;
        i := i + 1;
      }
      All(content);
      assert data == DemoteReport(content);
      if demoted != 0 {
        content := data;
      }
    }

    /** `drop_audit_results`. */
    method DropAuditResults() returns (dropped: nat)
      modifies this
      ensures dropped == DroppedCount(old(content))
      ensures content == DropReport(old(content))
    {
      var data;
      data, dropped := DropFromRuns(content);
      NothingDropped(content);
      if dropped != 0 {
        content := data;
      }
    }
  }

  /** One pass of the outer loop: first the rules, then the results by what the rules decided. */
  method DemoteOneRun(run: ToolRun) returns (r: ToolRun, demoted: nat)
    ensures r == DemoteRun(run)
    ensures demoted == DemotedInRun(run)
  {
    var rules, lowRules, defaultDemoted := DemoteRules(run.rules);
    var results;
    results, demoted := DemoteResults(run, lowRules, defaultDemoted);
    r := ToolRun(rules, results);
  }

  method DemoteRules(rules: seq<Rule>) returns (r: seq<Rule>, lowRules: set<string>, defaultDemoted: set<string>)
    ensures r == MapSeq(rules, DemoteRule)
    ensures lowRules == LowIds(rules)
    ensures defaultDemoted == DemotedDefaults(rules)
  {
    r, lowRules, defaultDemoted := rules, {}, {};
    var i := 0;
    while i < |rules|
      invariant 0 <= i <= |rules| == |r|
      invariant forall k :: 0 <= k < i ==> r[k] == MapSeq(rules, DemoteRule)[k]
      invariant forall k :: i <= k < |rules| ==> r[k] == rules[k]
      invariant lowRules == LowIds(rules[..i])
      invariant defaultDemoted == DemotedDefaults(rules[..i])
    {
      var rule := rules[i];
      OneMoreRule(rules, i);
      var low := RuleIsLow(rule);
      if low {
        lowRules := lowRules + {OrEmpty(rule.id)};
        if rule.config == None {
          rule := rule.(config := Some(Missing));
        }
        if rule.config == Some(ERROR) {
          rule := rule.(config := Some(WARNING));
          defaultDemoted := defaultDemoted + {OrEmpty(rule.id)};
        }
        r := r[i := rule];
      }
      i := i + 1;
    }
    All(rules);
  }

  lemma OneMoreRule(rules: seq<Rule>, i: nat)
    requires i < |rules|
    ensures LowIds(rules[..i + 1]) == LowIds(rules[..i]) + if RuleIsLow(rules[i]) then {OrEmpty(rules[i].id)} else {}
    ensures DemotedDefaults(rules[..i + 1])
         == DemotedDefaults(rules[..i])
            + if RuleIsLow(rules[i]) && rules[i].config == Some(ERROR) then {OrEmpty(rules[i].id)} else {}
  {
    assert rules[..i + 1] == rules[..i] + [rules[i]];
    assert forall x :: x in rules[..i + 1] <==> x in rules[..i] || x == rules[i];
  }

  /** One result, by the two sets that the rules left. */
  lemma DemotedAsDecided(
      run: ToolRun, res: Alert, low: set<string>, defaults: set<string>,
      demote: Alert -> Alert, counted: Alert -> bool)
    requires low == LowIds(run.rules) && defaults == DemotedDefaults(run.rules)
    requires demote == DemotedBy(run) && counted == CountedIn(run)
    ensures var listed := res.ruleId.Some? && res.ruleId.value in low;
            && demote(res) == (if listed && res.level == ERROR then res.(level := WARNING) else res)
            && (counted(res)
                <==> listed && (res.level == ERROR || (res.level == Missing && res.ruleId.value in defaults)))
  {}

  method DemoteResults(run: ToolRun, lowRules: set<string>, defaultDemoted: set<string>)
    returns (r: seq<Alert>, demoted: nat)
    requires lowRules == LowIds(run.rules) && defaultDemoted == DemotedDefaults(run.rules)
    ensures r == MapSeq(run.results, DemotedBy(run))
    ensures demoted == DemotedInRun(run)
  {
    r, demoted := run.results, 0;
    ghost var demote, counted := DemotedBy(run), CountedIn(run);
    var i := 0;
    while i < |run.results|
      invariant 0 <= i <= |run.results| == |r|
      invariant forall k :: 0 <= k < |r| ==> r[k] == if k < i then demote(run.results[k]) else run.results[k]
      invariant demoted == CountIf(run.results[..i], counted)
    {
      CountIfStep(run.results, i, counted);
      var res := run.results[i];
      DemotedAsDecided(run, res, lowRules, defaultDemoted, demote, counted);
      if res.ruleId.Some? && res.ruleId.value in lowRules {
        if res.level == ERROR {
          r := r[i := res.(level := WARNING)];
          demoted := demoted + 1;
        } else if res.level == Missing && res.ruleId.value in defaultDemoted {
          demoted := demoted + 1;
        }
      }
      i := i + 1;
    }
    All(run.results);
  }

  // ------------------------------------------------------------------- dropping

  /** `{r.get("id", ""): r for r in rules}`: the last rule with a given id wins. */
  function LastWithKey(rules: seq<Rule>, key: string): Option<Rule> {
    if rules == [] then None
    else if OrEmpty(rules[|rules| - 1].id) == key then Some(rules[|rules| - 1])
    else LastWithKey(rules[..|rules| - 1], key)
  }

  function TagsOf(rules: seq<Rule>, key: string): seq<string> {
    var rule := LastWithKey(rules, key);
    if rule.Some? then rule.value.tags else []
  }

  /** Whether a result is an audit or low-confidence one, by its rule's tags or by its id alone. */
  predicate IsAuditResult(rules: seq<Rule>, res: Alert) {
    IsLow(OrEmpty(res.ruleId), TagsOf(rules, OrEmpty(res.ruleId)))
  }

  function RealBy(rules: seq<Rule>): Alert -> bool {
    res => !IsAuditResult(rules, res)
  }

  function DropRun(run: ToolRun): ToolRun {
    run.(results := KeepIf(run.results, RealBy(run.rules)))
  }

  function DropReport(report: Report): Report {
    MapSeq(report, DropRun)
  }

  function AuditBy(rules: seq<Rule>): Alert -> bool {
    res => IsAuditResult(rules, res)
  }

  function DroppedInRun(run: ToolRun): nat {
    CountIf(run.results, AuditBy(run.rules))
  }

  /** What a run loses is the difference of its lengths. */
  lemma DroppedIsDifference(run: ToolRun)
    ensures DroppedInRun(run) == |run.results| - |DropRun(run).results|
    ensures DroppedInRun(run) == 0 ==> DropRun(run) == run
  {
    KeepIfLength(run.results, RealBy(run.rules));
    CountIfNot(run.results, AuditBy(run.rules), RealBy(run.rules));
  }

  function DroppedCount(report: Report): nat {
    SumOf(report, DroppedInRun)
  }

  /** The loop over the runs; a run that loses nothing is not touched. */
  method DropFromRuns(report: Report) returns (data: Report, dropped: nat)
    ensures data == DropReport(report)
    ensures dropped == DroppedCount(report)
  {
    data, dropped := report, 0;
    ghost var drop, droppedIn := DropRun, DroppedInRun;
    var i := 0;
    while i < |report|
      invariant 0 <= i <= |data| == |report|
      invariant forall k :: 0 <= k < |data| ==> data[k] == if k < i then drop(report[k]) else report[k]
      invariant dropped == SumOf(report[..i], droppedIn)
    {
      SumOfStep(report, i, droppedIn);
      var run, count := DropFromRun(report[i]);
      if count != 0 {
        data := data[i := run];
      }
      dropped := dropped + count;
      i := i + 1;
    }
    All(report);
  }

  lemma NothingDropped(report: Report)
    ensures DroppedCount(report) == 0 ==> DropReport(report) == report
  {
    SumOfZero(report, DroppedInRun);
    if DroppedCount(report) == 0 {
      forall i | 0 <= i < |report|
        ensures DropRun(report[i]) == report[i]
      {
        assert DroppedInRun(report[i]) == 0;
        DroppedIsDifference(report[i]);
      }
    }
  }

  method DropFromRun(run: ToolRun) returns (r: ToolRun, dropped: nat)
    ensures r == DropRun(run)
    ensures dropped == DroppedInRun(run)
    ensures dropped == 0 ==> r == run
  {
    var kept: seq<Alert> := [];
    var i := 0;
    while i < |run.results|
      invariant 0 <= i <= |run.results|
      invariant kept == KeepIf(run.results[..i], RealBy(run.rules))
    {
      KeepIfStep(run.results, i, RealBy(run.rules));
      if !IsAuditResult(run.rules, run.results[i]) {
        kept := kept + [run.results[i]];
      }
      i := i + 1;
    }
    All(run.results);
    DroppedIsDifference(run);
    r := run.(results := kept);
    dropped := |run.results| - |kept|;
  }

  // ------------------------------------------------------------------- parsing

  /** `{r.get("id"): r for r in rules}`: a rule without an id is found by no result. */
  function LastWithId(rules: seq<Rule>, id: string): Option<Rule> {
    if rules == [] then None
    else if rules[|rules| - 1].id == Some(id) then Some(rules[|rules| - 1])
    else LastWithId(rules[..|rules| - 1], id)
  }

  function RuleOf(run: ToolRun, res: Alert): Option<Rule> {
    LastWithId(run.rules, OrEmpty(res.ruleId))
  }

  /** The result's own level, else its rule's default, else a warning. */
  function EffectiveLevel(run: ToolRun, res: Alert): Level {
    if res.level.Named? then res.level
    else
      match RuleOf(run, res)
      case None => WARNING
      case Some(rule) => if rule.config == None || rule.config == Some(Missing) then WARNING else rule.config.value
  }

  function SeverityOfLevel(level: Level): Severity {
    if level == ERROR then HIGH
    else if level == Named("note") then LOW
    else MEDIUM
  }

  function SeverityOf(run: ToolRun, res: Alert): Severity {
    var severity := SeverityOfLevel(EffectiveLevel(run, res));
    var rule := RuleOf(run, res);
    if severity == HIGH && rule.Some? && HasLowConfidenceTag(rule.value.tags) then MEDIUM else severity
  }

  function ToFinding(run: ToolRun, res: Alert): Finding {
    var rule := NormalizeRuleId(OrEmpty(res.ruleId));
    NewFinding(
      Opengrep,
      rule + " :: " + res.uri + " :: " + NormWs(res.snippet, 100),
      SeverityOf(run, res),
      res.uri,
      res.line,
      NormWs(res.message, 300),
      rule)
  }

  function FindingsOf(run: ToolRun): Alert -> Finding {
    res => ToFinding(run, res)
  }

  function ParseRun(run: ToolRun): seq<Finding> {
    MapSeq(run.results, FindingsOf(run))
  }

  function Parse(report: Report): seq<Finding> {
    FlatMap(report, ParseRun)
  }

  /** `parse_opengrep_sarif`. */
  method ParseOpengrepSarif(report: Report) returns (out: seq<Finding>)
    ensures out == Parse(report)
  {
    out := [];
    var i := 0;
    while i < |report|
      invariant 0 <= i <= |report|
      invariant out == Parse(report[..i])
    {
      var found := ParseOneRun(report[i]);
      out := out + found;
      assert report[..i + 1][..i] == report[..i];
      i := i + 1;
    }
    All(report);
  }

  method ParseOneRun(run: ToolRun) returns (out: seq<Finding>)
    ensures out == ParseRun(run)
  {
    var finding := FindingsOf(run);
    out := [];
    var j := 0;
    while j < |run.results|
      invariant 0 <= j <= |run.results| && |out| == j
      invariant forall k :: 0 <= k < j ==> out[k] == finding(run.results[k])
    {
      out := out + [finding(run.results[j])];
      j := j + 1;
    }
  }
}
