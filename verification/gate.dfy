/**
  The baseline ratchet (thyn_security_toolchain/gate.py, ci.py): how a tool's findings are
  judged against its baseline, and what that means over the life of a baseline file.
 */
module Gate {
  import opened Wrappers
  import opened Text
  import opened Seqs
  import opened Findings
  import opened Baseline

  datatype Mode = Advisory | Ratchet

  datatype GateResult = GateResult(
    tool: Tool, mode: Mode, baselinePresent: bool,
    added: seq<Finding>, known: seq<Finding>, fixed: seq<string>, ignoredLow: nat)
  {
    function ExitCode(): nat {
      if mode != Ratchet || !baselinePresent then 0
      else if exists i :: 0 <= i < |added| && added[i].Blocking() then 1
      else 0
    }
  }

  function InBaseline(baseline: set<string>): Finding -> bool {
    (f: Finding) => f.key in baseline
  }

  function IsFresh(baseline: set<string>): Finding -> bool {
    (f: Finding) => f.key !in baseline && f.Blocking()
  }

  function IsBelow(baseline: set<string>): Finding -> bool {
    (f: Finding) => f.key !in baseline && !f.Blocking()
  }

  ghost function Observed(findings: seq<Finding>): set<string> {
    set f | f in findings :: f.key
  }

  /** `evaluate`, said by what each part of the result holds. */
  ghost function Judge(tool: Tool, findings: seq<Finding>, baseline: Option<set<string>>, mode: Mode): GateResult {
    match baseline
    case None =>
      GateResult(tool, mode, false, KeepIf(findings, IsFresh({})), [], [], CountIf(findings, IsBelow({})))
    case Some(keys) =>
      GateResult(tool, mode, true, KeepIf(findings, IsFresh(keys)), KeepIf(findings, InBaseline(keys)),
                 Sorted(keys - Observed(findings)), CountIf(findings, IsBelow(keys)))
  }

  /** `evaluate` as it is coded: one pass that deals the findings out. */
  method Evaluate(tool: Tool, findings: seq<Finding>, baseline: Option<set<string>>, mode: Mode)
    returns (r: GateResult)
    ensures r == Judge(tool, findings, baseline, mode)
  {
    var keys := if baseline.Some? then baseline.value else {};
    var added, known, observed, low := DealOut(findings, keys);
    if baseline.None? {
      return GateResult(tool, mode, false, added, [], [], low);
    }
    var fixed := SortSet(keys - observed);
    return GateResult(tool, mode, true, added, known, fixed, low);
  }

  /** The loop of `evaluate`: each finding goes to one of three places. */
  method DealOut(findings: seq<Finding>, keys: set<string>)
    returns (added: seq<Finding>, known: seq<Finding>, observed: set<string>, low: nat)
    ensures added == KeepIf(findings, IsFresh(keys)) && known == KeepIf(findings, InBaseline(keys))
    ensures low == CountIf(findings, IsBelow(keys)) && observed == Observed(findings)
  {
    added, known, observed, low := [], [], {}, 0;
    ghost var isFresh, inBaseline, isBelow := IsFresh(keys), InBaseline(keys), IsBelow(keys);
    var i := 0;
    while i < |findings|
      invariant 0 <= i <= |findings|
      invariant added == KeepIf(findings[..i], isFresh)
      invariant known == KeepIf(findings[..i], inBaseline)
      invariant low == CountIf(findings[..i], isBelow)
      invariant observed == Observed(findings[..i])
    {
      var f := findings[i];
      KeepIfStep(findings, i, isFresh);
      KeepIfStep(findings, i, inBaseline);
      CountIfStep(findings, i, isBelow);
      assert findings[..i + 1] == findings[..i] + [f];
      observed := observed + {f.key};
      if f.key in keys {
        known := known + [f];
      } else if f.Blocking() {
        added := added + [f];
      } else {
        low := low + 1;
      }
      i := i + 1;
    }
    All(findings);
  }

  /** `gate_findings`: gitleaks has no baseline file; in ratchet mode its baseline is empty. */
  ghost function BaselineFor(tool: Tool, file: Option<string>, mode: Mode): Option<set<string>> {
    if tool == Gitleaks then (if mode == Ratchet then Some({}) else None)
    else if file.Some? then Some(Keys(file.value))
    else None
  }

  method GateFindings(tool: Tool, file: Option<string>, findings: seq<Finding>, mode: Mode) returns (r: GateResult)
    ensures r == Judge(tool, findings, BaselineFor(tool, file, mode), mode)
  {
    var baseline: Option<set<string>>;
    if tool == Gitleaks {
      baseline := if mode == Ratchet then Some({}) else None;
    } else {
      baseline := ReadBaseline(file);
    }
    r := Evaluate(tool, findings, baseline, mode);
  }

  // ------------------------------------------------------------------- one judgement

  /** Without a baseline no key is known. */
  function KnownKeys(baseline: Option<set<string>>): set<string> {
    if baseline.Some? then baseline.value else {}
  }

  /**
    With or without a baseline every finding is exactly one of new, known and below the threshold,
    by its key and its severity, and none is lost. Reported as fixed are, in order, the keys of the
    baseline that no finding has.
   */
  lemma JudgePartitions(tool: Tool, findings: seq<Finding>, baseline: Option<set<string>>, mode: Mode)
    ensures var r := Judge(tool, findings, baseline, mode);
            && |r.added| + |r.known| + r.ignoredLow == |findings|
            && (forall f <- findings :: f in r.known <==> f.key in KnownKeys(baseline))
            && (forall f <- findings :: f in r.added <==> f.Blocking() && f !in r.known)
            && (forall f <- r.added + r.known :: f in findings)
            && r.ignoredLow == CountIf(findings, IsBelow(KnownKeys(baseline)))
            && r.tool == tool && r.mode == mode && r.baselinePresent == baseline.Some?
            && (baseline.None? ==> r.fixed == [])
            && (baseline.Some? ==> Ascending(r.fixed) && forall k ::
                  k in r.fixed <==> k in baseline.value && forall f <- findings :: f.key != k)
  {
    var r := Judge(tool, findings, baseline, mode);
    var keys := KnownKeys(baseline);
    var known := KeepIf(findings, InBaseline(keys));
    forall f
      ensures f in r.added <==> f in findings && IsFresh(keys)(f)
      ensures f in known <==> f in findings && InBaseline(keys)(f)
    {
      KeepIfHas(findings, IsFresh(keys), f);
      KeepIfHas(findings, InBaseline(keys), f);
    }
    KeepIfLength(findings, IsFresh(keys));
    KeepIfLength(findings, InBaseline(keys));
    assert known != [] ==> known[0] in known;
    assert r.known == known;
    if baseline.Some? {
      forall k
        ensures k in r.fixed <==> k in keys && forall f <- findings :: f.key != k
      {
        assert k in r.fixed <==> k in Elements(r.fixed);
        assert k in Observed(findings) <==> exists f <- findings :: f.key == k;
      }
    }
    var unknown := (f: Finding) => f.key !in keys;
    CountIfSplits(findings, unknown, IsFresh(keys), IsBelow(keys));
    CountIfNot(findings, InBaseline(keys), unknown);
  }

  /** What is new and what is known stands in the order in which it was found. */
  lemma PartsKeepOrder(tool: Tool, findings: seq<Finding>, baseline: Option<set<string>>, mode: Mode)
    returns (added: seq<nat>, known: seq<nat>)
    ensures var r, keys := Judge(tool, findings, baseline, mode), KnownKeys(baseline);
            && Picks(findings, IsFresh(keys), added) && |r.added| == |added|
            && (forall i :: 0 <= i < |added| ==> r.added[i] == findings[added[i]])
            && Picks(findings, InBaseline(keys), known) && |r.known| == |known|
            && (forall i :: 0 <= i < |known| ==> r.known[i] == findings[known[i]])
  {
    var keys := KnownKeys(baseline);
    added := KeepIfPicks(findings, IsFresh(keys));
    known := KeepIfPicks(findings, InBaseline(keys));
    if baseline.None? {
      KeepIfLength(findings, InBaseline(keys));
      CountIfZero(findings, InBaseline(keys));
    }
  }

  /** The gate fails exactly when it ratchets, has a baseline, and a blocking finding is not in it. */
  lemma FailsExactly(tool: Tool, findings: seq<Finding>, baseline: Option<set<string>>, mode: Mode)
    ensures Judge(tool, findings, baseline, mode).ExitCode() == 1
       <==> mode == Ratchet && baseline.Some? && exists f <- findings :: f.Blocking() && f.key !in baseline.value
    ensures Judge(tool, findings, baseline, mode).ExitCode() <= 1
  {
    if mode == Ratchet && baseline.Some? {
      var added := KeepIf(findings, IsFresh(baseline.value));
      forall f
        ensures f in added <==> f in findings && IsFresh(baseline.value)(f)
      {
        KeepIfHas(findings, IsFresh(baseline.value), f);
      }
      if f :| f in findings && f.Blocking() && f.key !in baseline.value {
        var i :| 0 <= i < |added| && added[i] == f;
        assert added[i].Blocking();
      }
      if i :| 0 <= i < |added| && added[i].Blocking() {
        assert added[i] in added;
      }
    }
  }

  lemma {:induction false} KeepIfAgrees(s: seq<Finding>, p: Finding -> bool, q: Finding -> bool)
    requires forall x <- s :: p(x) == q(x)
    ensures KeepIf(s, p) == KeepIf(s, q)
  {
    if s != [] {
      KeepIfAgrees(s[..|s| - 1], p, q);
      assert s == s[..|s| - 1] + [s[|s| - 1]];
    }
  }

  /**
    Deleting any of the keys reported as fixed from the file changes nothing but that report: the
    same findings are new, known and below the threshold, and the exit code is the same.
   */
  lemma DeletingFixedKeysChangesNothing(
      tool: Tool, findings: seq<Finding>, before: string, after: string, gone: set<string>, mode: Mode)
    requires LinesDeleted(before, after, gone)
    requires gone <= Elements(Judge(tool, findings, Some(Keys(before)), mode).fixed)
    ensures var old_ := Judge(tool, findings, Some(Keys(before)), mode);
            var new_ := Judge(tool, findings, Some(Keys(after)), mode);
            && new_.added == old_.added && new_.known == old_.known && new_.ignoredLow == old_.ignoredLow
            && new_.ExitCode() == old_.ExitCode()
            && Elements(new_.fixed) == Elements(old_.fixed) - gone
  {
    DeletingLinesDeletesKeys(before, after, gone);
    var a, b := Keys(before), Keys(after);
    forall f | f in findings
      ensures f.key in a <==> f.key in b
    {
      assert f.key in Observed(findings);
    }
    KeepIfAgrees(findings, IsFresh(a), IsFresh(b));
    KeepIfAgrees(findings, InBaseline(a), InBaseline(b));
    CountIfAgrees(findings, IsBelow(a), IsBelow(b));
  }

  // ------------------------------------------------------------------- a baseline's life

  /** One gate run on a tool's committed baseline file, and the edit that follows it. */
  datatype Round = Round(findings: seq<Finding>, file: string)

  /**
    In each round the findings are gated against the round's file; before the next round any keys
    reported as fixed may be deleted from it, and nothing else may happen to it.
   */
  ghost predicate IsHistory(tool: Tool, rounds: seq<Round>) {
    forall i :: 0 <= i < |rounds| - 1 ==> IsShrink(tool, rounds[i], rounds[i + 1].file)
  }

  ghost predicate IsShrink(tool: Tool, round: Round, next: string) {
    exists gone ::
      && gone <= Elements(Judge(tool, round.findings, Some(Keys(round.file)), Ratchet).fixed)
      && LinesDeleted(round.file, next, gone)
  }

  lemma {:induction false} BaselineOnlyShrinks(tool: Tool, rounds: seq<Round>, i: nat, j: nat)
    requires IsHistory(tool, rounds) && i <= j < |rounds|
    ensures Keys(rounds[j].file) <= Keys(rounds[i].file)
    decreases j
  {
    if i < j {
      BaselineOnlyShrinks(tool, rounds, i, j - 1);
      assert IsShrink(tool, rounds[j - 1], rounds[j - 1 + 1].file);
      var gone :| LinesDeleted(rounds[j - 1].file, rounds[j].file, gone);
      DeletingLinesDeletesKeys(rounds[j - 1].file, rounds[j].file, gone);
    }
  }

  /** A blocking finding whose key is not in the baseline fails that run and every later one. */
  lemma LeftBaselineFailsForGood(tool: Tool, rounds: seq<Round>, i: nat, j: nat, f: Finding)
    requires IsHistory(tool, rounds) && i <= j < |rounds| && tool != Gitleaks
    requires f.Blocking() && f.key !in Keys(rounds[i].file) && f in rounds[j].findings
    ensures Judge(tool, rounds[j].findings, BaselineFor(tool, Some(rounds[j].file), Ratchet), Ratchet).ExitCode() == 1
  {
    BaselineOnlyShrinks(tool, rounds, i, j);
    FailsExactly(tool, rounds[j].findings, Some(Keys(rounds[j].file)), Ratchet);
  }

  // ------------------------------------------------------------------- measured, then gated

  function KeysOfFindings(findings: seq<Finding>): seq<string> {
    MapSeq(findings, (f: Finding) => f.key)
  }

  /** The file that measuring some findings writes. */
  function Measured(h: Header, findings: seq<Finding>): string {
    Render(h, KeysOfFindings(findings))
  }

  lemma KeysOfFindingsHas(findings: seq<Finding>, f: Finding)
    requires f in findings
    ensures f.key in KeysOfFindings(findings)
  {
    var i :| 0 <= i < |findings| && findings[i] == f;
    assert KeysOfFindings(findings)[i] == f.key;
  }

  /**
    Gating the measured findings again: the run fails exactly on a blocking finding whose key is
    not plain. When every key is plain nothing is new and nothing is fixed.
   */
  lemma MeasuredThenGated(tool: Tool, h: Header, findings: seq<Finding>, mode: Mode)
    requires HeaderFits(h) && tool != Gitleaks
    ensures var r := Judge(tool, findings, BaselineFor(tool, Some(Measured(h, findings)), mode), mode);
            && (r.ExitCode() == 1 <==> mode == Ratchet && exists f <- findings :: f.Blocking() && !Plain(f.key))
            && ((forall f <- findings :: Plain(f.key)) ==> r.added == [] && r.fixed == [] && r.known == findings)
  {
    var file := Measured(h, findings);
    var keys := KeysOfFindings(findings);
    forall f | f in findings
      ensures f.key in Keys(file) <==> Plain(f.key)
    {
      KeysOfFindingsHas(findings, f);
      KeyReadsBackExactly(h, keys, f.key);
    }
    FailsExactly(tool, findings, Some(Keys(file)), mode);
    if forall f <- findings :: Plain(f.key) {
      forall k | k in keys
        ensures Plain(k) && k in Observed(findings)
      {
        var i :| 0 <= i < |keys| && keys[i] == k;
        assert findings[i] in findings;
      }
      RoundTripExactly(h, keys);
      assert Keys(file) == Elements(keys);
      assert Keys(file) - Observed(findings) == {};
      EmptyElements(Sorted({}));
      KeepIfLength(findings, InBaseline(Keys(file)));
      KeepIfLength(findings, IsFresh(Keys(file)));
      CountIfZero(findings, IsFresh(Keys(file)));
    }
  }
}
