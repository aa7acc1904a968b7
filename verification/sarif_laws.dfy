/** How the parser and the two rewriters of an Opengrep report fit together. */
module SarifLaws {
  import opened Wrappers
  import opened Text
  import opened Seqs
  import opened Findings
  import opened Sarif

  /**
    Every rule has an id, as section 3.49.3 of SARIF 2.1.0 asks, and no two have the same, which it
    does not ask: where a lemma requires this, unique ids are an assumption about the scanner.
   */
  ghost predicate Identified(run: ToolRun) {
    && (forall i :: 0 <= i < |run.rules| ==> run.rules[i].id.Some?)
    && (forall i, j :: 0 <= i < j < |run.rules| ==> run.rules[i].id != run.rules[j].id)
  }

  // ------------------------------------------------------------------- rules before and after

  lemma {:induction false} LastWithIdExists(rules: seq<Rule>, id: string)
    ensures LastWithId(rules, id).Some? ==>
              LastWithId(rules, id).value in rules && LastWithId(rules, id).value.id == Some(id)
    ensures LastWithId(rules, id).None? ==> forall r <- rules :: r.id != Some(id)
  {
    if rules != [] {
      LastWithIdExists(rules[..|rules| - 1], id);
      assert rules == rules[..|rules| - 1] + [rules[|rules| - 1]];
    }
  }

  lemma DemoteRuleKeeps(rule: Rule)
    ensures DemoteRule(rule).id == rule.id && DemoteRule(rule).tags == rule.tags
    ensures RuleIsLow(DemoteRule(rule)) == RuleIsLow(rule)
    ensures DemoteRule(rule).config == Some(ERROR) <==> rule.config == Some(ERROR) && !RuleIsLow(rule)
  {}

  lemma {:induction false} LookUpAfterDemotion(rules: seq<Rule>, id: string)
    ensures LastWithId(MapSeq(rules, DemoteRule), id)
         == if LastWithId(rules, id).Some? then Some(DemoteRule(LastWithId(rules, id).value)) else None
    ensures LastWithKey(MapSeq(rules, DemoteRule), id)
         == if LastWithKey(rules, id).Some? then Some(DemoteRule(LastWithKey(rules, id).value)) else None
  {
    if rules != [] {
      var init, last := rules[..|rules| - 1], rules[|rules| - 1];
      LookUpAfterDemotion(init, id);
      DemoteRuleKeeps(last);
      assert MapSeq(rules, DemoteRule)[..|rules| - 1] == MapSeq(init, DemoteRule);
    }
  }

  /** Demotion changes no rule's class. */
  lemma LowIdsStay(rules: seq<Rule>)
    ensures LowIds(MapSeq(rules, DemoteRule)) == LowIds(rules)
    ensures DemotedDefaults(MapSeq(rules, DemoteRule)) == {}
  {
    var rules' := MapSeq(rules, DemoteRule);
    forall id
      ensures id in LowIds(rules') <==> id in LowIds(rules)
    {
      if id in LowIds(rules') {
        var r' :| r' in rules' && RuleIsLow(r') && OrEmpty(r'.id) == id;
        var i :| 0 <= i < |rules'| && rules'[i] == r';
        DemoteRuleKeeps(rules[i]);
        assert rules[i] in rules;
      }
      if id in LowIds(rules) {
        var r :| r in rules && RuleIsLow(r) && OrEmpty(r.id) == id;
        var i :| 0 <= i < |rules| && rules[i] == r;
        DemoteRuleKeeps(r);
        assert rules'[i] in rules';
      }
    }
    forall r' | r' in rules'
      ensures !(RuleIsLow(r') && r'.config == Some(ERROR))
    {
      var i :| 0 <= i < |rules'| && rules'[i] == r';
      DemoteRuleKeeps(rules[i]);
    }
  }

  lemma RuleOfAfterDemotion(run: ToolRun, res: Alert)
    ensures RuleOf(DemoteRun(run), DemoteResult(run, res))
         == if RuleOf(run, res).Some? then Some(DemoteRule(RuleOf(run, res).value)) else None
  {
    LookUpAfterDemotion(run.rules, OrEmpty(res.ruleId));
  }

  // ------------------------------------------------------------------- demote, then parse

  /** The same finding, at most as severe. */
  ghost predicate Softens(after: Finding, before: Finding) {
    after.(severity := before.severity) == before && Rank(after.severity) <= Rank(before.severity)
  }

  lemma EffectiveLevelAfterDemotion(run: ToolRun, res: Alert)
    ensures var before, after := EffectiveLevel(run, res), EffectiveLevel(DemoteRun(run), DemoteResult(run, res));
            after == before || (before == ERROR && after == WARNING)
  {
    RuleOfAfterDemotion(run, res);
    if RuleOf(run, res).Some? {
      DemoteRuleKeeps(RuleOf(run, res).value);
    }
  }

  lemma DemotedResultSoftens(run: ToolRun, res: Alert)
    ensures Softens(ToFinding(DemoteRun(run), DemoteResult(run, res)), ToFinding(run, res))
  {
    EffectiveLevelAfterDemotion(run, res);
    RuleOfAfterDemotion(run, res);
    if RuleOf(run, res).Some? {
      DemoteRuleKeeps(RuleOf(run, res).value);
    }
    SeverityAfterDemotion(run, res);
  }

  lemma SeverityAfterDemotion(run: ToolRun, res: Alert)
    ensures Rank(SeverityOf(DemoteRun(run), DemoteResult(run, res))) <= Rank(SeverityOf(run, res))
  {
    EffectiveLevelAfterDemotion(run, res);
    RuleOfAfterDemotion(run, res);
    if RuleOf(run, res).Some? {
      DemoteRuleKeeps(RuleOf(run, res).value);
    }
  }

  /**
    Parsing the file after demotion gives the findings of the file before it, one for one and in
    order, with the same keys, and none of them more severe. Nothing is asked of the report.
   */
  lemma {:induction false} DemotionKeepsKeys(report: Report)
    ensures |Parse(DemoteReport(report))| == |Parse(report)|
    ensures forall i :: 0 <= i < |Parse(report)| ==> Softens(Parse(DemoteReport(report))[i], Parse(report)[i])
  {
    if report != [] {
      var init, run := report[..|report| - 1], report[|report| - 1];
      DemotionKeepsKeys(init);
      assert DemoteReport(report)[..|report| - 1] == DemoteReport(init);
      RunSoftens(run);
      SoftenJoins(Parse(DemoteReport(init)), ParseRun(DemoteRun(run)), Parse(init), ParseRun(run));
    }
  }

  ghost predicate SoftenAll(after: seq<Finding>, before: seq<Finding>) {
    |after| == |before| && forall i :: 0 <= i < |before| ==> Softens(after[i], before[i])
  }

  lemma SoftenJoins(a': seq<Finding>, b': seq<Finding>, a: seq<Finding>, b: seq<Finding>)
    requires SoftenAll(a', a) && SoftenAll(b', b)
    ensures SoftenAll(a' + b', a + b)
  {}

  lemma RunSoftens(run: ToolRun)
    ensures SoftenAll(ParseRun(DemoteRun(run)), ParseRun(run))
  {
    forall i | 0 <= i < |run.results|
      ensures Softens(ParseRun(DemoteRun(run))[i], ParseRun(run)[i])
    {
      DemotedResultSoftens(run, run.results[i]);
    }
  }

  lemma FileDemotionKeepsKeys(report: Report)
    ensures |Parse(FileAfterDemotion(report))| == |Parse(report)|
    ensures forall i :: 0 <= i < |Parse(report)| ==> Softens(Parse(FileAfterDemotion(report))[i], Parse(report)[i])
  {
    DemotionKeepsKeys(report);
  }

  // ------------------------------------------------------------------- a second pass

  lemma DemotedRunIsStable(run: ToolRun)
    ensures DemoteRun(DemoteRun(run)) == DemoteRun(run)
    ensures DemotedInRun(DemoteRun(run)) == 0
  {
    var run' := DemoteRun(run);
    LowIdsStay(run.rules);
    forall i | 0 <= i < |run.rules|
      ensures DemoteRun(run').rules[i] == run'.rules[i]
    {
      DemoteRuleKeeps(run.rules[i]);
    }
    forall i | 0 <= i < |run.results|
      ensures DemoteRun(run').results[i] == run'.results[i]
      ensures !IsCounted(run', run'.results[i])
    {
      assert DemoteRun(run').results[i] == DemoteResult(run', DemoteResult(run, run.results[i]));
    }
    CountIfZero(run'.results, CountedIn(run'));
  }

  /** A second pass counts nothing and leaves the file as the first pass left it. */
  lemma DemotionIsIdempotent(report: Report)
    ensures DemotedCount(FileAfterDemotion(report)) == 0
    ensures FileAfterDemotion(FileAfterDemotion(report)) == FileAfterDemotion(report)
  {
    forall i | 0 <= i < |report|
      ensures DemotedInRun(DemoteReport(report)[i]) == 0
    {
      DemotedRunIsStable(report[i]);
    }
    SumOfZero(DemoteReport(report), DemotedInRun);
  }

  // ------------------------------------------------------------------- what is left alone

  /** A result that is an `error`, by its own level or else by the default of the rule found for it. */
  ghost predicate IsError(run: ToolRun, res: Alert) {
    || res.level == ERROR
    || (!res.level.Named? && RuleOf(run, res).Some? && RuleOf(run, res).value.config == Some(ERROR))
  }

  /** An Opengrep finding blocks exactly if it is an `error` and its rule has no low-confidence tag. */
  lemma BlocksExactly(run: ToolRun, res: Alert)
    ensures ToFinding(run, res).Blocking()
       <==> IsError(run, res) && !(RuleOf(run, res).Some? && HasLowConfidenceTag(RuleOf(run, res).value.tags))
  {}

  /** It is low exactly if its level is a note. */
  lemma NotesAreLow(run: ToolRun, res: Alert)
    ensures ToFinding(run, res).severity == LOW <==> EffectiveLevel(run, res) == Named("note")
  {}

  /** Runs are parsed one after the other, and in a run there is one finding for each result, in order. */
  lemma ParsedInOrder(a: Report, run: ToolRun, b: Report)
    ensures Parse(a + [run] + b) == Parse(a) + MapSeq(run.results, FindingsOf(run)) + Parse(b)
  {
    FlatMapJoins(a + [run], b, ParseRun);
    FlatMapJoins(a, [run], ParseRun);
    assert [run][..0] == [];
    assert FlatMap([run], ParseRun) == FlatMap([], ParseRun) + ParseRun(run) == ParseRun(run);
  }

  /** Two Opengrep results share a key exactly if rule, file and normalised snippet are the same. */
  lemma SameAlertExactly(run: ToolRun, a: Alert, run': ToolRun, b: Alert)
    requires IsPart(NormalizeRuleId(OrEmpty(a.ruleId))) && IsPart(NormalizeRuleId(OrEmpty(b.ruleId)))
    requires IsPart(a.uri) && IsPart(b.uri)
    ensures ToFinding(run, a).key == ToFinding(run', b).key
       <==> && NormalizeRuleId(OrEmpty(a.ruleId)) == NormalizeRuleId(OrEmpty(b.ruleId)) && a.uri == b.uri
            && NormWs(a.snippet, 100) == NormWs(b.snippet, 100)
  {
    NormWsIsCanonical(a.snippet, 100);
    NormWsIsCanonical(b.snippet, 100);
    SameKeyExactly(
      NormalizeRuleId(OrEmpty(a.ruleId)), a.uri, NormWs(a.snippet, 100),
      NormalizeRuleId(OrEmpty(b.ruleId)), b.uri, NormWs(b.snippet, 100));
  }

  /** Demotion leaves every other result alone: unless its id is that of a low rule, its finding is the same. */
  lemma UnlistedIsUntouched(report: Report, run: ToolRun, res: Alert)
    requires OrEmpty(res.ruleId) !in LowIds(run.rules)
    ensures ResultInFile(report, run, res) == res
    ensures ToFinding(RunInFile(report, run), ResultInFile(report, run, res)) == ToFinding(run, res)
  {
    RuleOfAfterDemotion(run, res);
    LastWithIdExists(run.rules, OrEmpty(res.ruleId));
    if RuleOf(run, res).Some? {
      assert OrEmpty(RuleOf(run, res).value.id) == OrEmpty(res.ruleId);
      assert !RuleIsLow(RuleOf(run, res).value);
    }
  }

  /** The word stands in the id behind `a`, which is nothing or ends in a dot. */
  ghost predicate DottedAt(id: string, word: string, a: string, b: string) {
    id == a + word + b && (a == "" || a[|a| - 1] == '.')
  }

  lemma DottedExactly(id: string, word: string)
    ensures StartsWith(id, word) || Contains(id, "." + word) <==> exists a, b :: DottedAt(id, word, a, b)
  {
    if StartsWith(id, word) || Contains(id, "." + word) {
      var a, b := DottedFound(id, word);
    }
    forall a, b | DottedAt(id, word, a, b)
      ensures StartsWith(id, word) || Contains(id, "." + word)
    {
      DottedBehind(id, word, a, b);
    }
  }

  lemma DottedFound(id: string, word: string) returns (a: string, b: string)
    requires StartsWith(id, word) || Contains(id, "." + word)
    ensures DottedAt(id, word, a, b)
  {
    if StartsWith(id, word) {
      a, b := "", id[|word|..];
      assert id == "" + word + b;
    } else {
      var c: string;
      c, b := ContainedAt(id, "." + word);
      a := c + ".";
      assert c + ("." + word) + b == a + word + b;
    }
  }

  lemma DottedBehind(id: string, word: string, a: string, b: string)
    requires DottedAt(id, word, a, b)
    ensures StartsWith(id, word) || Contains(id, "." + word)
  {
    if a == "" {
      assert id == word + b;
      assert id[..|word|] == word;
    } else {
      var c := a[..|a| - 1];
      assert a == c + ".";
      assert id == c + ("." + word) + b;
      ContainsAt(id, c, "." + word, b);
    }
  }

  /** An audit id: `audit.` at its start or behind a dot, or `-audit` at its end, also before a last newline. */
  lemma AuditIdExactly(id: string)
    ensures IsAuditId(id)
       <==> || (exists a, b :: DottedAt(id, "audit.", a, b))
            || (exists a :: id == a + "-audit") || (exists a :: id == a + "-audit\n")
  {
    DottedExactly(id, "audit.");
    assert "." + "audit." == ".audit.";
    EndsExactly(id, "-audit");
    EndsExactly(id, "-audit\n");
  }

  lemma EndsExactly(s: string, suffix: string)
    ensures EndsWith(s, suffix) <==> exists a :: s == a + suffix
  {
    if EndsWith(s, suffix) {
      assert s == s[..|s| - |suffix|] + suffix;
    }
    if a :| s == a + suffix {
      assert s[|s| - |suffix|..] == suffix;
    }
  }

  lemma {:induction false} ContainedAt(s: string, word: string) returns (a: string, b: string)
    requires Contains(s, word)
    ensures s == a + word + b
  {
    if StartsWith(s, word) {
      a, b := "", s[|word|..];
    } else {
      a, b := ContainedAt(s[1..], word);
      assert s == [s[0]] + (a + word + b) == ([s[0]] + a) + word + b;
      a := [s[0]] + a;
    }
  }

  lemma {:induction false} ContainsAt(s: string, a: string, word: string, b: string)
    requires s == a + word + b
    ensures Contains(s, word)
    decreases |a|
  {
    if a == "" {
      assert s == word + b;
      assert s[..|word|] == word;
    } else {
      assert s[1..] == a[1..] + word + b;
      ContainsAt(s[1..], a[1..], word, b);
    }
  }

  // ------------------------------------------------------------------- what still blocks

  /**
    The results of a listed low-confidence or audit rule that block the gate even after demotion:
    they carry no usable level of their own and the parser's rule for them is an `error` one that
    was not demoted on disk. That takes either a second rule with the same id, or a `level` that
    is present but empty in a file where nothing was counted and which was hence not rewritten.
   */
  ghost predicate StillBlocks(report: Report, run: ToolRun, res: Alert) {
    && !res.level.Named?
    && RuleOf(run, res).Some?
    && var rule := RuleOf(run, res).value;
       && rule.config == Some(ERROR)
       && !HasLowConfidenceTag(rule.tags)
       && (!RuleIsLow(rule) || NothingIsCounted(report))
  }

  /** The run a result belongs to, as it stands in the file after demotion. */
  ghost function RunInFile(report: Report, run: ToolRun): ToolRun {
    if DemotedCount(report) == 0 then run else DemoteRun(run)
  }

  ghost function ResultInFile(report: Report, run: ToolRun, res: Alert): Alert {
    if DemotedCount(report) == 0 then res else DemoteResult(run, res)
  }

  lemma NothingCounted(report: Report, run: ToolRun, res: Alert)
    requires run in report && res in run.results && DemotedCount(report) == 0
    ensures !IsCounted(run, res)
  {
    NothingIsCountedExactly(report);
  }

  /** After demotion a listed low-confidence or audit result blocks exactly when `StillBlocks` says so. */
  lemma LowResultBlocksExactly(report: Report, run: ToolRun, res: Alert)
    requires run in report && res in run.results && IsListedLow(run, res)
    ensures ToFinding(RunInFile(report, run), ResultInFile(report, run, res)).Blocking()
       <==> StillBlocks(report, run, res)
  {
    LowSeverityExactly(report, run, res);
  }

  lemma LowSeverityExactly(report: Report, run: ToolRun, res: Alert)
    requires run in report && res in run.results && IsListedLow(run, res)
    ensures SeverityOf(RunInFile(report, run), ResultInFile(report, run, res)) == HIGH
       <==> StillBlocks(report, run, res)
  {
    NothingIsCountedExactly(report);
    if DemotedCount(report) == 0 {
      NothingCounted(report, run, res);
    } else {
      RuleOfAfterDemotion(run, res);
      if RuleOf(run, res).Some? {
        DemoteRuleKeeps(RuleOf(run, res).value);
        assert RuleIsLow(RuleOf(run, res).value) || !HasLowConfidenceTag(RuleOf(run, res).value.tags);
      }
    }
  }

  /** With identified rules, and no result level present but empty, none of them blocks. */
  lemma NoLowResultBlocks(report: Report, run: ToolRun, res: Alert)
    requires run in report && res in run.results && IsListedLow(run, res)
    requires Identified(run) && res.level != Blank
    ensures !ToFinding(RunInFile(report, run), ResultInFile(report, run, res)).Blocking()
  {
    LowResultBlocksExactly(report, run, res);
    if res.level == Missing {
      DefaultIsCounted(run, res);
    }
  }

  lemma DefaultIsCounted(run: ToolRun, res: Alert)
    requires Identified(run) && IsListedLow(run, res) && res.level == Missing
    ensures RuleOf(run, res).Some? && RuleIsLow(RuleOf(run, res).value)
    ensures RuleOf(run, res).value.config == Some(ERROR) ==> IsCounted(run, res)
  {
    LastWithIdExists(run.rules, OrEmpty(res.ruleId));
    var low :| low in run.rules && RuleIsLow(low) && OrEmpty(low.id) == res.ruleId.value;
    FindRule(run, low);
    OneRulePerId(run, low, RuleOf(run, res).value);
  }

  lemma OneRulePerId(run: ToolRun, a: Rule, b: Rule)
    requires Identified(run) && a in run.rules && b in run.rules && OrEmpty(a.id) == OrEmpty(b.id)
    ensures a == b
  {
    var i :| 0 <= i < |run.rules| && run.rules[i] == a;
    var j :| 0 <= j < |run.rules| && run.rules[j] == b;
  }

  /** Neither condition can be dropped: a doubled rule id, and an empty level, leave a listed blocker. */
  lemma DoubledIdStillBlocks()
    ensures var low := Rule(Some("r"), Some(ERROR), ["LOW CONFIDENCE"]);
            var other := Rule(Some("r"), Some(ERROR), []);
            var res := Alert(Some("r"), Missing, "a.py", None, "", "");
            var run := ToolRun([low, other], [res]);
            && IsListedLow(run, res)
            && ToFinding(RunInFile([run], run), ResultInFile([run], run, res)).Blocking()
  {
    var low := Rule(Some("r"), Some(ERROR), ["LOW CONFIDENCE"]);
    var other := Rule(Some("r"), Some(ERROR), []);
    LowConfidenceIsLow(low);
    PlainRuleIsReal(other);
    DoubledBlocks(low, other, Alert(Some("r"), Missing, "a.py", None, "", ""));
  }

  /** A result whose id is that of a low-confidence rule and of a later one that is not. */
  ghost predicate Doubled(low: Rule, other: Rule, res: Alert) {
    && low.id.Some? && other.id == low.id && res.ruleId == low.id
    && RuleIsLow(low) && !RuleIsLow(other)
  }

  lemma DoubledIsListed(low: Rule, other: Rule, res: Alert)
    requires Doubled(low, other, res)
    ensures var run := ToolRun([low, other], [res]);
            && IsListedLow(run, res)
            && RuleOf(run, res) == Some(other)
            && LastWithKey(run.rules, OrEmpty(res.ruleId)) == Some(other)
  {
    var run := ToolRun([low, other], [res]);
    assert low in run.rules;
    assert run.rules[|run.rules| - 1] == other;
  }

  lemma DoubledBlocks(low: Rule, other: Rule, res: Alert)
    requires Doubled(low, other, res) && res.level == Missing && other.config == Some(ERROR)
    ensures var run := ToolRun([low, other], [res]);
            && IsListedLow(run, res)
            && ToFinding(RunInFile([run], run), ResultInFile([run], run, res)).Blocking()
  {
    var run := ToolRun([low, other], [res]);
    DoubledIsListed(low, other, res);
    assert run in [run] && res in run.results;
    LowResultBlocksExactly([run], run, res);
  }

  lemma LowConfidenceIsLow(rule: Rule)
    requires rule.tags == ["LOW CONFIDENCE"]
    ensures RuleIsLow(rule)
  {
    var tag := rule.tags[0];
    UpperStays(tag);
    assert tag in rule.tags && Upper(tag) == "LOW CONFIDENCE";
  }

  lemma UpperCharStays(c: char)
    requires c < 'a'
    ensures UpperChar(c) == [c]
  {}

  lemma {:induction false} UpperStays(s: string)
    requires forall i :: 0 <= i < |s| ==> s[i] < 'a'
    ensures Upper(s) == s
  {
    if s != "" {
      UpperCharStays(s[0]);
      UpperStays(s[1..]);
      assert s == [s[0]] + s[1..];
    }
  }

  lemma PlainRuleIsReal(rule: Rule)
    requires rule.id == Some("r") && rule.tags == []
    ensures !RuleIsLow(rule)
  {
    assert AfterBundle("r") == None by { assert "r"[1..] == ""; }
    assert !Contains("r", ".audit.") by { assert "r"[1..] == ""; }
  }

  lemma EmptyLevelStillBlocks()
    ensures var audit := Rule(Some("x-audit"), Some(ERROR), []);
            var res := Alert(Some("x-audit"), Blank, "a.py", None, "", "");
            var run := ToolRun([audit], [res]);
            && IsListedLow(run, res)
            && ToFinding(RunInFile([run], run), ResultInFile([run], run, res)).Blocking()
  {
    var audit := Rule(Some("x-audit"), Some(ERROR), []);
    AuditRuleIsLow(audit);
    EmptyLevelBlocks(audit, Alert(Some("x-audit"), Blank, "a.py", None, "", ""));
  }

  lemma EmptyLevelBlocks(audit: Rule, res: Alert)
    requires RuleIsLow(audit) && audit.config == Some(ERROR) && audit.tags == []
    requires audit.id.Some? && res.ruleId == audit.id && res.level == Blank
    ensures var run := ToolRun([audit], [res]);
            && IsListedLow(run, res)
            && ToFinding(RunInFile([run], run), ResultInFile([run], run, res)).Blocking()
  {
    var run := ToolRun([audit], [res]);
    assert audit in run.rules && IsListedLow(run, res);
    CountOfOne(run, CountedIn(run));
    SumOfOne(run, DemotedInRun);
    assert RuleOf(run, res) == Some(audit);
    assert run in [run] && res in run.results;
    LowResultBlocksExactly([run], run, res);
  }

  lemma AuditRuleIsLow(rule: Rule)
    requires rule.id == Some("x-audit")
    ensures RuleIsLow(rule)
  {
    var id := rule.id.value;
    ShortHasNoBundle(id);
    assert id[|id| - 6..] == "-audit";
  }

  lemma {:induction false} ShortHasNoBundle(id: string)
    requires |id| < BUNDLE_LENGTH
    ensures AfterBundle(id) == None
  {
    if id != "" {
      ShortHasNoBundle(id[1..]);
    }
  }

  // ------------------------------------------------------------------- what is counted

  ghost predicate LevelChanges(run: ToolRun, res: Alert) {
    EffectiveLevel(DemoteRun(run), DemoteResult(run, res)) != EffectiveLevel(run, res)
  }

  /** The rule that the parser finds for a result is one whose default is demoted. */
  ghost predicate HasDemotedRule(run: ToolRun, res: Alert) {
    && RuleOf(run, res).Some?
    && RuleIsLow(RuleOf(run, res).value)
    && RuleOf(run, res).value.config == Some(ERROR)
  }

  /**
    Changed with its rule's demoted default, yet not counted: a `level` present but empty, or a
    result without a rule id in a report that has a rule whose id is empty.
   */
  ghost predicate ChangesUncounted(run: ToolRun, res: Alert) {
    HasDemotedRule(run, res) && (res.level == Blank || (res.level == Missing && res.ruleId.None?))
  }

  /** Counted, yet not changed: the demoted default is that of another rule with the same id. */
  ghost predicate CountedUnchanged(run: ToolRun, res: Alert) {
    res.level == Missing && IsCounted(run, res) && !HasDemotedRule(run, res)
  }

  ghost function ChangesIn(run: ToolRun): Alert -> bool {
    res => LevelChanges(run, res)
  }

  ghost function UncountedIn(run: ToolRun): Alert -> bool {
    res => ChangesUncounted(run, res)
  }

  ghost function UnchangedIn(run: ToolRun): Alert -> bool {
    res => CountedUnchanged(run, res)
  }

  lemma ChangesExactly(run: ToolRun, res: Alert)
    ensures LevelChanges(run, res)
       <==> (IsListedLow(run, res) && res.level == ERROR) || (!res.level.Named? && HasDemotedRule(run, res))
  {
    RuleOfAfterDemotion(run, res);
    if RuleOf(run, res).Some? {
      DemoteRuleKeeps(RuleOf(run, res).value);
    }
  }

  lemma ChangedOrCounted(run: ToolRun, res: Alert)
    ensures One(LevelChanges(run, res)) + One(CountedUnchanged(run, res))
         == One(IsCounted(run, res)) + One(ChangesUncounted(run, res))
  {
    ChangesExactly(run, res);
    if HasDemotedRule(run, res) && res.ruleId.Some? {
      var rule := RuleOf(run, res).value;
      LastWithIdExists(run.rules, res.ruleId.value);
      assert rule in run.rules && OrEmpty(rule.id) == res.ruleId.value;
      assert IsListedLow(run, res) && res.ruleId.value in DemotedDefaults(run.rules);
    }
  }

  lemma RunBalances(run: ToolRun)
    ensures CountIf(run.results, ChangesIn(run)) + CountIf(run.results, UnchangedIn(run))
         == DemotedInRun(run) + CountIf(run.results, UncountedIn(run))
  {
    var changes, same, counted, missed := ChangesIn(run), UnchangedIn(run), CountedIn(run), UncountedIn(run);
    forall res | res in run.results
      ensures One(changes(res)) + One(same(res)) == One(counted(res)) + One(missed(res))
    {
      ChangedOrCounted(run, res);
    }
    CountIfBalances(run.results, changes, same, counted, missed);
  }

  /** The result is parsed from the file with another level than from the report. */
  ghost predicate ChangesInFile(report: Report, run: ToolRun, res: Alert) {
    EffectiveLevel(RunInFile(report, run), ResultInFile(report, run, res)) != EffectiveLevel(run, res)
  }

  ghost function ChangesInFileOf(report: Report, run: ToolRun): Alert -> bool {
    res => ChangesInFile(report, run, res)
  }

  ghost function ChangedInFile(report: Report): ToolRun -> nat {
    (run: ToolRun) => CountIf(run.results, ChangesInFileOf(report, run))
  }

  ghost function UncountedInRun(): ToolRun -> nat {
    (run: ToolRun) => CountIf(run.results, UncountedIn(run))
  }

  ghost function UnchangedInRun(): ToolRun -> nat {
    (run: ToolRun) => CountIf(run.results, UnchangedIn(run))
  }

  /** How many results of the file have another effective level than they had in the report. */
  ghost function ChangedCount(report: Report): nat {
    SumOf(report, ChangedInFile(report))
  }

  ghost function UncountedCount(report: Report): nat {
    SumOf(report, UncountedInRun())
  }

  ghost function UnchangedCount(report: Report): nat {
    SumOf(report, UnchangedInRun())
  }

  lemma ChangedInRewritten(report: Report, run: ToolRun)
    requires DemotedCount(report) != 0
    ensures ChangedInFile(report)(run) == CountIf(run.results, ChangesIn(run))
  {
    forall res | res in run.results
      ensures ChangesInFileOf(report, run)(res) == ChangesIn(run)(res)
    {}
    CountIfAgrees(run.results, ChangesInFileOf(report, run), ChangesIn(run));
  }

  lemma ChangedInUntouched(report: Report)
    requires DemotedCount(report) == 0
    ensures ChangedCount(report) == 0
  {
    forall run | run in report
      ensures ChangedInFile(report)(run) == 0
    {
      CountIfZero(run.results, ChangesInFileOf(report, run));
    }
    SumOfZero(report, ChangedInFile(report));
  }

  /**
    For every report: nothing counted is nothing changed on disk, and else the count and the number
    of results that changed their effective level differ by the two kinds described above. So the
    count is right exactly when nothing is counted or the two kinds are equally many.
   */
  lemma CountIsChangesExactly(report: Report)
    ensures DemotedCount(report) == 0 ==> ChangedCount(report) == 0
    ensures DemotedCount(report) != 0 ==>
              ChangedCount(report) + UnchangedCount(report) == DemotedCount(report) + UncountedCount(report)
    ensures DemotedCount(report) == ChangedCount(report)
       <==> DemotedCount(report) == 0 || UnchangedCount(report) == UncountedCount(report)
  {
    if DemotedCount(report) == 0 {
      ChangedInUntouched(report);
    } else {
      forall run | run in report
        ensures ChangedInFile(report)(run) + UnchangedInRun()(run) == DemotedInRun(run) + UncountedInRun()(run)
      {
        ChangedInRewritten(report, run);
        RunBalances(run);
      }
      SumOfBalances(report, ChangedInFile(report), UnchangedInRun(), DemotedInRun, UncountedInRun());
    }
  }

  ghost predicate NothingIsCounted(report: Report) {
    forall run <- report, res <- run.results :: !IsCounted(run, res)
  }

  lemma NothingIsCountedExactly(report: Report)
    ensures DemotedCount(report) == 0 <==> NothingIsCounted(report)
  {
    SumOfZero(report, DemotedInRun);
    forall run | run in report
      ensures DemotedInRun(run) == 0 <==> forall res <- run.results :: !IsCounted(run, res)
    {
      CountIfZero(run.results, CountedIn(run));
      assert forall res :: CountedIn(run)(res) == IsCounted(run, res);
    }
  }

  /** With rules of their own ids nothing is counted without a change. */
  lemma IdentifiedIsChanged(run: ToolRun, res: Alert)
    requires Identified(run)
    ensures !CountedUnchanged(run, res)
  {
    if res.level == Missing && IsCounted(run, res) {
      var id := res.ruleId.value;
      var r :| r in run.rules && RuleIsLow(r) && r.config == Some(ERROR) && OrEmpty(r.id) == id;
      FindRule(run, r);
      LastWithIdExists(run.rules, id);
      OneRulePerId(run, r, RuleOf(run, res).value);
    }
  }

  lemma FindRule(run: ToolRun, r: Rule)
    requires Identified(run) && r in run.rules
    ensures r.id.Some?
  {
    var i :| 0 <= i < |run.rules| && run.rules[i] == r;
  }

  /**
    With identified rules the count is right exactly when nothing is counted, so that the file is
    left alone, or no result is of the kind that changes uncounted.
   */
  lemma IdentifiedCountIsChangesExactly(report: Report)
    requires forall run <- report :: Identified(run)
    ensures DemotedCount(report) == ChangedCount(report)
       <==> NothingIsCounted(report) || forall run <- report, res <- run.results :: !ChangesUncounted(run, res)
  {
    CountIsChangesExactly(report);
    NothingIsCountedExactly(report);
    forall run | run in report
      ensures UnchangedInRun()(run) == 0
    {
      forall res | res in run.results
        ensures !UnchangedIn(run)(res)
      {
        IdentifiedIsChanged(run, res);
      }
      CountIfZero(run.results, UnchangedIn(run));
    }
    SumOfZero(report, UnchangedInRun());
    UncountedIsZero(report);
  }

  lemma UncountedIsZero(report: Report)
    ensures UncountedCount(report) == 0 <==> forall run <- report, res <- run.results :: !ChangesUncounted(run, res)
  {
    SumOfZero(report, UncountedInRun());
    forall run | run in report
      ensures UncountedInRun()(run) == 0 <==> forall res <- run.results :: !ChangesUncounted(run, res)
    {
      CountIfZero(run.results, UncountedIn(run));
      assert forall res :: UncountedIn(run)(res) == ChangesUncounted(run, res);
    }
  }

  /** A counted result beside one with an empty level: one is counted, and two change. */
  lemma EmptyLevelIsNotCounted()
    ensures var audit := Rule(Some("x-audit"), Some(ERROR), []);
            var plain := Alert(Some("x-audit"), ERROR, "a.py", None, "", "");
            var report := [ToolRun([audit], [plain, plain.(level := Blank)])];
            DemotedCount(report) == 1 && ChangedCount(report) == 2
  {
    var audit := Rule(Some("x-audit"), Some(ERROR), []);
    var plain := Alert(Some("x-audit"), ERROR, "a.py", None, "", "");
    var empty := plain.(level := Blank);
    var run := ToolRun([audit], [plain, empty]);
    AuditRuleIsLow(audit);
    assert audit in run.rules && IsListedLow(run, plain);
    assert RuleOf(run, empty) == Some(audit);
    assert IsCounted(run, plain) && !IsCounted(run, empty);
    assert ChangesUncounted(run, empty) && !ChangesUncounted(run, plain);
    assert !CountedUnchanged(run, empty) && !CountedUnchanged(run, plain);
    CountOfTwo(run, CountedIn(run));
    CountOfTwo(run, UncountedIn(run));
    CountOfTwo(run, UnchangedIn(run));
    SumOfOne(run, DemotedInRun);
    SumOfOne(run, UncountedInRun());
    SumOfOne(run, UnchangedInRun());
    CountIsChangesExactly([run]);
  }

  lemma CountOfTwo(run: ToolRun, p: Alert -> bool)
    requires |run.results| == 2
    ensures CountIf(run.results, p) == One(p(run.results[0])) + One(p(run.results[1]))
  {
    CountIfStep(run.results, 0, p);
    CountIfStep(run.results, 1, p);
    All(run.results);
  }

  lemma SumOfOne(run: ToolRun, f: ToolRun -> nat)
    ensures SumOf([run], f) == f(run)
  {
    SumOfStep([run], 0, f);
    All([run]);
  }

  /** A doubled rule id: one is counted, and none changes. */
  lemma DoubledIdIsCounted()
    ensures var low := Rule(Some("r"), Some(ERROR), ["LOW CONFIDENCE"]);
            var other := Rule(Some("r"), Some(ERROR), []);
            var res := Alert(Some("r"), Missing, "a.py", None, "", "");
            var report := [ToolRun([low, other], [res])];
            DemotedCount(report) == 1 && ChangedCount(report) == 0
  {
    var low := Rule(Some("r"), Some(ERROR), ["LOW CONFIDENCE"]);
    var other := Rule(Some("r"), Some(ERROR), []);
    LowConfidenceIsLow(low);
    PlainRuleIsReal(other);
    DoubledIsCounted(low, other, Alert(Some("r"), Missing, "a.py", None, "", ""));
  }

  lemma DoubledIsCounted(low: Rule, other: Rule, res: Alert)
    requires Doubled(low, other, res) && res.level == Missing && low.config == Some(ERROR)
    ensures var report := [ToolRun([low, other], [res])];
            DemotedCount(report) == 1 && ChangedCount(report) == 0
  {
    var run := ToolRun([low, other], [res]);
    DoubledIsListed(low, other, res);
    assert low in run.rules;
    assert CountedUnchanged(run, res) && !ChangesUncounted(run, res);
    CountOfOne(run, CountedIn(run));
    CountOfOne(run, UncountedIn(run));
    CountOfOne(run, UnchangedIn(run));
    SumOfOne(run, DemotedInRun);
    SumOfOne(run, UncountedInRun());
    SumOfOne(run, UnchangedInRun());
    CountIsChangesExactly([run]);
  }

  lemma CountOfOne(run: ToolRun, p: Alert -> bool)
    requires |run.results| == 1
    ensures CountIf(run.results, p) == One(p(run.results[0]))
  {
    CountIfStep(run.results, 0, p);
    All(run.results);
  }

  // ------------------------------------------------------------------- dropping

  lemma TagsStay(rules: seq<Rule>, key: string)
    ensures TagsOf(MapSeq(rules, DemoteRule), key) == TagsOf(rules, key)
  {
    LookUpAfterDemotion(rules, key);
    if LastWithKey(rules, key).Some? {
      DemoteRuleKeeps(LastWithKey(rules, key).value);
    }
  }

  lemma AuditStaysAudit(run: ToolRun, res: Alert)
    ensures RealBy(DemoteRun(run).rules)(DemoteResult(run, res)) == RealBy(run.rules)(res)
  {
    TagsStay(run.rules, OrEmpty(res.ruleId));
    assert DemoteResult(run, res).ruleId == res.ruleId;
  }

  /** An `error` of a listed rule that is not an audit one by the rule that is last with its id. */
  ghost predicate KeptButDemoted(run: ToolRun, res: Alert) {
    IsListedLow(run, res) && res.level == ERROR && !IsAuditResult(run.rules, res)
  }

  /** Demoting first maps what is kept; it neither adds nor removes a result. */
  lemma DropAfterDemotion(run: ToolRun)
    ensures DropRun(DemoteRun(run)).results == MapSeq(DropRun(run).results, DemotedBy(run))
  {
    forall res | res in run.results
      ensures RealBy(DemoteRun(run).rules)(DemotedBy(run)(res)) == RealBy(run.rules)(res)
    {
      AuditStaysAudit(run, res);
    }
    KeepIfOfMap(run.results, DemotedBy(run), RealBy(run.rules), RealBy(DemoteRun(run).rules));
  }

  /** What is kept of a demoted run is untouched exactly when demotion touched none of it. */
  lemma KeptIsUntouchedExactly(run: ToolRun)
    ensures DropRun(DemoteRun(run)).results == DropRun(run).results
       <==> forall res <- run.results :: !KeptButDemoted(run, res)
  {
    DropAfterDemotion(run);
    var kept := DropRun(run).results;
    var keep := RealBy(run.rules);
    forall res | res in run.results && KeptButDemoted(run, res)
      ensures MapSeq(kept, DemotedBy(run)) != kept
    {
      KeepIfHas(run.results, keep, res);
      var i :| 0 <= i < |kept| && kept[i] == res;
      assert MapSeq(kept, DemotedBy(run))[i] == DemoteResult(run, res);
    }
    if forall res <- run.results :: !KeptButDemoted(run, res) {
      forall i | 0 <= i < |kept|
        ensures MapSeq(kept, DemotedBy(run))[i] == kept[i]
      {
        KeepIfHas(run.results, keep, kept[i]);
        assert keep(kept[i]) && kept[i] in run.results;
      }
    }
  }

  lemma {:induction false} LastWithKeyExists(rules: seq<Rule>, key: string)
    ensures LastWithKey(rules, key).Some? ==>
              LastWithKey(rules, key).value in rules && OrEmpty(LastWithKey(rules, key).value.id) == key
    ensures LastWithKey(rules, key).None? ==> forall r <- rules :: OrEmpty(r.id) != key
  {
    if rules != [] {
      LastWithKeyExists(rules[..|rules| - 1], key);
      assert rules == rules[..|rules| - 1] + [rules[|rules| - 1]];
    }
  }

  /** What `code_scanning_sarif` uploads of a report that the gate has already demoted and parsed. */
  ghost function Upload(report: Report): Report {
    DropReport(FileAfterDemotion(report))
  }

  /**
    In the upload a run holds exactly the scanner's own real results, untouched and in order, exactly
    when no `error` of a listed rule is a real result.
   */
  lemma UploadIsUntouchedExactly(report: Report, i: nat)
    requires i < |report|
    ensures |Upload(report)| == |report|
    ensures Upload(report)[i].results == KeepIf(report[i].results, RealBy(report[i].rules))
       <==> forall res <- report[i].results :: !KeptButDemoted(report[i], res)
  {
    KeptIsUntouchedExactly(report[i]);
    if DemotedCount(report) == 0 {
      forall res | res in report[i].results
        ensures !KeptButDemoted(report[i], res)
      {
        NothingCounted(report, report[i], res);
      }
    }
  }

  /** Rules with ids of their own are enough for that. */
  lemma IdentifiedUploadIsUntouched(report: Report, i: nat)
    requires i < |report| && Identified(report[i])
    ensures Upload(report)[i].results == KeepIf(report[i].results, RealBy(report[i].rules))
  {
    forall res | res in report[i].results
      ensures !KeptButDemoted(report[i], res)
    {
      IdentifiedIsNotKept(report[i], res);
    }
    UploadIsUntouchedExactly(report, i);
  }

  lemma IdentifiedIsNotKept(run: ToolRun, res: Alert)
    requires Identified(run)
    ensures !KeptButDemoted(run, res)
  {
    if IsListedLow(run, res) {
      var low :| low in run.rules && RuleIsLow(low) && OrEmpty(low.id) == res.ruleId.value;
      LastWithKeyExists(run.rules, res.ruleId.value);
      OneRulePerId(run, low, LastWithKey(run.rules, res.ruleId.value).value);
    }
  }

  /** A doubled rule id: the scanner's `error` is a real result, and uploaded as a warning. */
  lemma DoubledIdIsUploadedDemoted()
    ensures var low := Rule(Some("r"), None, ["LOW CONFIDENCE"]);
            var other := Rule(Some("r"), None, []);
            var res := Alert(Some("r"), ERROR, "a.py", None, "", "");
            var run := ToolRun([low, other], [res]);
            DropRun(run).results == [res] && Upload([run])[0].results == [res.(level := WARNING)]
  {
    var low := Rule(Some("r"), None, ["LOW CONFIDENCE"]);
    var other := Rule(Some("r"), None, []);
    LowConfidenceIsLow(low);
    PlainRuleIsReal(other);
    DoubledIsKept(low, other, Alert(Some("r"), ERROR, "a.py", None, "", ""));
  }

  lemma DoubledIsKept(low: Rule, other: Rule, res: Alert)
    requires Doubled(low, other, res) && res.level == ERROR
    ensures var run := ToolRun([low, other], [res]);
            DropRun(run).results == [res] && Upload([run])[0].results == [res.(level := WARNING)]
  {
    var run := ToolRun([low, other], [res]);
    DoubledIsListed(low, other, res);
    assert !IsAuditResult(run.rules, res);
    KeepIfLength(run.results, RealBy(run.rules));
    DropAfterDemotion(run);
    CountOfOne(run, CountedIn(run));
    SumOfOne(run, DemotedInRun);
    assert DemotedBy(run)(res) == res.(level := WARNING);
  }

  /** Dropping twice is dropping once, and the second pass drops nothing. */
  lemma DropIsIdempotent(report: Report)
    ensures DropReport(DropReport(report)) == DropReport(report)
    ensures DroppedCount(DropReport(report)) == 0
  {
    forall i | 0 <= i < |report|
      ensures DropRun(DropReport(report)[i]) == DropReport(report)[i]
      ensures DroppedInRun(DropReport(report)[i]) == 0
    {
      KeepIfAgain(report[i].results, RealBy(report[i].rules));
      DroppedIsDifference(DropReport(report)[i]);
    }
    SumOfZero(DropReport(report), DroppedInRun);
  }

  /**
    The upload of a whole report: run by run the real results of the scanner, in order, while the
    gate, which parses the full file, still sees every finding.
   */
  lemma UploadHoldsRealResults(report: Report)
    requires forall run <- report :: Identified(run)
    ensures |Upload(report)| == |report|
    ensures forall i :: 0 <= i < |report| ==>
              Upload(report)[i].results == KeepIf(report[i].results, RealBy(report[i].rules))
    ensures |Parse(FileAfterDemotion(report))| == |Parse(report)|
  {
    FileDemotionKeepsKeys(report);
    forall i | 0 <= i < |report|
      ensures Upload(report)[i].results == KeepIf(report[i].results, RealBy(report[i].rules))
    {
      IdentifiedUploadIsUntouched(report, i);
    }
  }

  // ------------------------------------------------------------------- rule ids

  /** A bundle name stands at `i`, on the id's first line. */
  ghost predicate BundleAt(id: string, i: nat) {
    i <= |id| && StartsWithBundle(id[i..]) && Without(id[..i], IsNewline)
  }

  lemma {:induction false} HexIsNoNewline(s: string)
    requires AllHex(s)
    ensures Without(s, IsNewline)
  {
    if s != "" {
      HexIsNoNewline(s[1..]);
    }
  }

  lemma BundleIsNoNewline(id: string)
    requires StartsWithBundle(id)
    ensures Without(id[..BUNDLE_LENGTH], IsNewline)
  {
    HexIsNoNewline(id[15..27]);
    forall k | 0 <= k < BUNDLE_LENGTH
      ensures id[k] != '\n'
    {
      if k < 15 {
        assert id[k] == BUNDLE[k];
      } else if k < 27 {
        assert id[k] == id[15..27][k - 15];
      }
    }
  }

  lemma BundleBehind(id: string, i: nat, j: nat)
    requires i <= j && i <= |id| && Without(id[..i], IsNewline)
    ensures BundleAt(id, j) <==> BundleAt(id[i..], j - i)
  {
    if j <= |id| {
      assert id[i..][j - i..] == id[j..];
      assert id[i..][..j - i] == id[i..j] && id[..j] == id[..i] + id[i..j];
      WithoutJoins(id[..i], id[i..j], IsNewline);
    }
  }

  /** The search finds the first bundle, or there is none. */
  lemma {:induction false} FirstBundle(id: string) returns (first: nat)
    ensures AfterBundle(id).Some? ==> BundleAt(id, first) && AfterBundle(id).value == id[first + BUNDLE_LENGTH..]
    ensures forall i: nat :: BundleAt(id, i) ==> AfterBundle(id).Some? && first <= i
  {
    first := 0;
    if !StartsWithBundle(id) && id != "" && id[0] != '\n' {
      var next := FirstBundle(id[1..]);
      first := next + 1;
      forall i: nat | BundleAt(id, i)
        ensures AfterBundle(id).Some? && first <= i
      {
        BundleBehind(id, 1, i);
      }
      if AfterBundle(id).Some? {
        BundleBehind(id, 1, first);
        assert id[1..][next + BUNDLE_LENGTH..] == id[first + BUNDLE_LENGTH..];
      }
    } else if !StartsWithBundle(id) {
      forall i: nat | i <= |id| && Without(id[..i], IsNewline)
        ensures i == 0
      {
        assert i > 0 ==> IsNewline(id[..i][0]);
      }
    }
  }

  /** Behind one bundle name there is another one. */
  ghost predicate HasTwoBundles(id: string) {
    exists i: nat, j: nat :: BundleAt(id, i) && i + BUNDLE_LENGTH <= j && BundleAt(id, j)
  }

  lemma BehindFirst(id: string, first: nat)
    requires BundleAt(id, first)
    ensures Without(id[..first + BUNDLE_LENGTH], IsNewline)
  {
    BundleIsNoNewline(id[first..]);
    assert id[..first + BUNDLE_LENGTH] == id[..first] + id[first..][..BUNDLE_LENGTH];
    WithoutJoins(id[..first], id[first..][..BUNDLE_LENGTH], IsNewline);
  }

  lemma SecondBundle(id: string, first: nat)
    requires BundleAt(id, first) && forall i: nat :: BundleAt(id, i) ==> first <= i
    ensures AfterBundle(id[first + BUNDLE_LENGTH..]).Some? <==> HasTwoBundles(id)
  {
    var behind := first + BUNDLE_LENGTH;
    BehindFirst(id, first);
    var second := FirstBundle(id[behind..]);
    if AfterBundle(id[behind..]).Some? {
      BundleBehind(id, behind, behind + second);
      assert BundleAt(id, behind + second);
    }
    forall i: nat, j: nat | BundleAt(id, i) && i + BUNDLE_LENGTH <= j && BundleAt(id, j)
      ensures AfterBundle(id[behind..]).Some?
    {
      BundleBehind(id, behind, j);
    }
  }

  /** One bundle prefix is stripped: stripping twice is stripping once exactly without two of them. */
  lemma NormalizeIsIdempotentExactly(id: string)
    ensures NormalizeRuleId(NormalizeRuleId(id)) == NormalizeRuleId(id) <==> !HasTwoBundles(id)
  {
    var first := FirstBundle(id);
    if AfterBundle(id).Some? {
      SecondBundle(id, first);
      var second := FirstBundle(NormalizeRuleId(id));
    }
  }

  /** An id under two bundles needs two passes. */
  lemma TwoBundlesNeedTwoPasses()
    ensures var bundle := BUNDLE + "0123456789ab.";
            && NormalizeRuleId(bundle + (bundle + "r")) == bundle + "r"
            && NormalizeRuleId(bundle + "r") == "r"
  {
    var bundle := BUNDLE + "0123456789ab.";
    BundleIsStripped(bundle + "r", "r");
    BundleIsStripped(bundle + (bundle + "r"), bundle + "r");
  }

  lemma BundleIsStripped(id: string, rest: string)
    requires id == BUNDLE + "0123456789ab." + rest
    ensures NormalizeRuleId(id) == rest
  {
    var hex := id[15..27];
    assert hex == "0123456789ab";
    Digits(hex);
  }

  lemma {:induction false} Digits(s: string)
    requires forall i :: 0 <= i < |s| ==> '0' <= s[i] <= '9' || 'a' <= s[i] <= 'f'
    ensures AllHex(s)
  {
    if s != "" {
      Digits(s[1..]);
    }
  }
}
