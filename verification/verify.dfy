/**
  The pin checks of `verify_repo` (thyn_security_toolchain/verify.py): what the pre-commit
  configuration and the callers pin, read back and compared with the toolchain that runs.
 */
module Verify {
  import opened Wrappers
  import opened Text
  import opened Pins
  import opened PinReader
  import opened Lines
  import opened Permissions
  import opened Workflow
  import opened WorkflowLaws
  import Markers

  // ------------------------------------------------------------------- the calls of the callers

  predicate IsHex(c: char) {
    '0' <= c <= '9' || 'a' <= c <= 'f'
  }

  /** `_SHA_RE.match(s)`; its `$` also matches in front of a last newline. */
  predicate IsCommit(s: string) {
    Run(s, IsHex) >= 40 && (|s| == 40 || s[40..] == "\n")
  }

  datatype Problem =
    | NotACommit(call: Call) | NoComment(call: Call) | OtherTag(call: Call)
    | OtherCommit(call: Call) | OtherRef(call: Call)

  /** The problems of one call; `wanted` is empty when no ref is wanted. */
  function CallProblems(c: Call, tag: string, wanted: string): seq<Problem> {
    (if IsCommit(c.ref) then [] else [NotACommit(c)])
    + (if c.comment.None? then [NoComment(c)] else if c.comment.value != tag then [OtherTag(c)] else [])
    + (if wanted == "" then []
       else if IsCommit(wanted) then (if c.ref != wanted then [OtherCommit(c)] else [])
       else if c.comment.Some? && c.comment.value != "" && c.comment.value != wanted then [OtherRef(c)]
       else [])
  }

  function PinProblems(calls: seq<Call>, tag: string, wanted: string): seq<Problem> {
    if calls == [] then [] else CallProblems(calls[0], tag, wanted) + PinProblems(calls[1..], tag, wanted)
  }

  /** The loop of `verify_repo` over the calls. */
  method CheckCalls(calls: seq<Call>, tag: string, wanted: string) returns (problems: seq<Problem>)
    ensures problems == PinProblems(calls, tag, wanted)
  {
    problems := [];
    var i := 0;
    while i < |calls|
      invariant 0 <= i <= |calls|
      invariant problems + PinProblems(calls[i..], tag, wanted) == PinProblems(calls, tag, wanted)
    {
      var more := CheckCall(calls[i], tag, wanted);
      problems := problems + more;
      assert calls[i..][1..] == calls[i + 1..];
      i := i + 1;
    }
  }

  method CheckCall(c: Call, tag: string, wanted: string) returns (problems: seq<Problem>)
    ensures problems == CallProblems(c, tag, wanted)
  {
    problems := [];
    if !IsCommit(c.ref) {
      problems := problems + [NotACommit(c)];
    }
    if c.comment.None? {
      problems := problems + [NoComment(c)];
    } else if c.comment.value != tag {
      problems := problems + [OtherTag(c)];
    }
    if wanted != "" {
      if IsCommit(wanted) {
        if c.ref != wanted {
          problems := problems + [OtherCommit(c)];
        }
      } else if c.comment.Some? && c.comment.value != "" && c.comment.value != wanted {
        problems := problems + [OtherRef(c)];
      }
    }
  }

  /** What a call must be for the checks to pass: a commit and this toolchain's tag, as expected. */
  predicate IsPinnedTo(c: Call, tag: string, wanted: string) {
    && IsCommit(c.ref) && c.comment == Some(tag)
    && (wanted != "" ==> if IsCommit(wanted) then c.ref == wanted else tag == wanted)
  }

  /** The checks pass exactly when every call is pinned to a commit with this toolchain's tag. */
  lemma {:induction false} ChecksPassExactly(calls: seq<Call>, tag: string, wanted: string)
    requires tag != ""
    ensures PinProblems(calls, tag, wanted) == [] <==> forall c <- calls :: IsPinnedTo(c, tag, wanted)
  {
    if calls != [] {
      ChecksPassExactly(calls[1..], tag, wanted);
      assert CallProblems(calls[0], tag, wanted) == [] <==> IsPinnedTo(calls[0], tag, wanted);
      assert calls == [calls[0]] + calls[1..];
    }
  }

  /** Forty hex digits, and at most a newline behind them. */
  lemma CommitExactly(s: string)
    ensures IsCommit(s) <==> |s| >= 40 && Every(s[..40], IsHex) && (s[40..] == "" || s[40..] == "\n")
  {
    RunTakes(s, IsHex);
    if IsCommit(s) {
      assert s[..40] == s[..Run(s, IsHex)][..40];
    }
    if |s| >= 40 && Every(s[..40], IsHex) {
      RunOf(s[..40], s[40..], IsHex);
      assert s == s[..40] + s[40..];
    }
  }

  /** Which problem is reported, for a ref and for a comment that are each held against the expected ones. */
  lemma ProblemsExactly(calls: seq<Call>, tag: string, wanted: string, p: Problem)
    ensures p in PinProblems(calls, tag, wanted) <==> p.call in calls && IsProblem(p, tag, wanted)
  {
    ProblemsOfCalls(calls, tag, wanted, p);
  }

  ghost predicate IsProblem(p: Problem, tag: string, wanted: string) {
    match p
    case NotACommit(c) => !IsCommit(c.ref)
    case NoComment(c) => c.comment == None
    case OtherTag(c) => c.comment.Some? && c.comment != Some(tag)
    case OtherCommit(c) => wanted != "" && IsCommit(wanted) && c.ref != wanted
    case OtherRef(c) => wanted != "" && !IsCommit(wanted) && c.comment !in {None, Some(""), Some(wanted)}
  }

  lemma RefProblems(c: Call, p: Problem)
    ensures p in (if IsCommit(c.ref) then [] else [NotACommit(c)]) <==> p == NotACommit(c) && !IsCommit(c.ref)
  {}

  lemma CommentProblems(c: Call, tag: string, p: Problem)
    ensures p in (if c.comment.None? then [NoComment(c)] else if c.comment.value != tag then [OtherTag(c)] else [])
       <==> (p == NoComment(c) && c.comment == None)
            || (p == OtherTag(c) && c.comment.Some? && c.comment != Some(tag))
  {}

  lemma ProblemOfCall(c: Call, tag: string, wanted: string, p: Problem)
    ensures p in CallProblems(c, tag, wanted) <==> p.call == c && IsProblem(p, tag, wanted)
  {
    RefProblems(c, p);
    CommentProblems(c, tag, p);
  }

  lemma {:induction false} ProblemsOfCalls(calls: seq<Call>, tag: string, wanted: string, p: Problem)
    ensures p in PinProblems(calls, tag, wanted) <==> p.call in calls && IsProblem(p, tag, wanted)
  {
    if calls != [] {
      ProblemsOfCalls(calls[1..], tag, wanted, p);
      ProblemOfCall(calls[0], tag, wanted, p);
      assert calls == [calls[0]] + calls[1..];
    }
  }

  /**
    A caller that `upsert_workflow` has just written passes, whether its commit, its tag or nothing
    is expected, exactly when its calls of other workflows of the toolchain do.
   */
  lemma UpsertedCallerPassesExactly(
    dir: string, names: seq<string>, needs: seq<string>, p: Pin, existing: Option<string>, rendered: string,
    wanted: string)
    requires IsDirectory(dir) && AreFiles(names) && AreNeeds(needs) && IsPin(p) && IsCommit(p.sha)
    requires IsPlain(Callees(dir, names), needs, p, existing) && IsSettled(Callees(dir, names), needs, p, rendered)
    requires wanted == "" || wanted == p.sha || (wanted == p.tag && !IsCommit(p.tag))
    ensures var calls := CallerPins(dir, UpsertWorkflow(Callees(dir, names), needs, p, existing, rendered));
            PinProblems(calls, p.tag, wanted) == []
            <==> forall c <- calls :: c.name !in names ==> IsPinnedTo(c, p.tag, wanted)
  {
    var calls := CallerPins(dir, UpsertWorkflow(Callees(dir, names), needs, p, existing, rendered));
    forall c <- calls | c.name in names
      ensures IsPinnedTo(c, p.tag, wanted)
    {
      UpsertedPinsReadBack(dir, names, needs, p, existing, rendered, c);
    }
    ChecksPassExactly(calls, p.tag, wanted);
  }

  // ------------------------------------------------------------------- the revision of the hooks

  const REV := "rev:"

  predicate IsQuote(c: char) {
    c == '\'' || c == '"'
  }

  /** `[^'"\s#]`. */
  predicate IsRevChar(c: char) {
    IsRefChar(c) && !IsQuote(c)
  }

  /** `\s*['"]?([^'"\s#]+)`. */
  function Quoted(s: string): Option<string> {
    var t := AfterSpace(s);
    var u := if t != "" && IsQuote(t[0]) then t[1..] else t;
    if Run(u, IsRevChar) == 0 then None else Some(u[..Run(u, IsRevChar)])
  }

  function RevAt(key: string, s: string): Option<string> {
    var t := AfterSpace(s);
    if StartsWith(t, key) then Quoted(t[|key|..]) else None
  }

  function RevBy(key: string): string -> Option<string> {
    s => RevAt(key, s)
  }

  /** `precommit_rev`: the first `rev:` line after the repository is named. */
  function PrecommitRev(repo: string, text: string): Option<string> {
    match Markers.Find(text, repo)
    case None => None
    case Some(i) => AtLineStart(RevBy(REV), text[i..], i == 0 || text[i - 1] == '\n')
  }

  /** A block names the repository once, with the tag in the line below. */
  function HooksBlock(lead: string, repo: string, gap: string, tag: string, rest: string): string {
    lead + (repo + "\n" + (gap + (REV + (" " + (tag + "\n" + rest)))))
  }

  ghost predicate IsTag(tag: string) {
    tag != "" && Every(tag, IsRevChar)
  }

  /** What is read where the revision line starts. */
  lemma RevIsRead(key: string, gap: string, tag: string, rest: string)
    requires key != "" && !IsSpace(key[0]) && Every(gap, IsBlank) && IsTag(tag)
    ensures RevAt(key, gap + (key + (" " + (tag + "\n" + rest)))) == Some(tag)
  {
    var line := key + (" " + (tag + "\n" + rest));
    assert line[0] == key[0];
    AfterSpaceOf(gap, line);
    assert line[..|key|] == key && line[|key|..] == " " + (tag + "\n" + rest);
    TagIsRead(tag, rest);
  }

  lemma TagIsRead(tag: string, rest: string)
    requires IsTag(tag)
    ensures Quoted(" " + (tag + "\n" + rest)) == Some(tag)
  {
    var value := tag + "\n" + rest;
    assert value[0] == tag[0];
    AfterSpaceOf(" ", value);
    assert value == tag + ("\n" + rest);
    RunOf(tag, "\n" + rest, IsRevChar);
  }

  /** In either kind of quotes it reads alike. */
  lemma QuotedTagIsRead(gap: string, quote: char, tag: string, rest: string)
    requires Every(gap, IsSpace) && IsQuote(quote) && IsTag(tag) && (rest == "" || !IsRevChar(rest[0]))
    ensures Quoted(gap + ([quote] + (tag + rest))) == Some(tag)
  {
    var value := [quote] + (tag + rest);
    AfterSpaceOf(gap, value);
    assert value[1..] == tag + rest;
    RunOf(tag, rest, IsRevChar);
    assert Run(rest, IsRevChar) == 0;
  }

  /** Nothing is read before the line ends, from a place that is not the start of a line. */
  lemma {:induction false} SkipsLine(at: string -> Option<string>, line: string, rest: string)
    requires Without(line, IsNewline)
    ensures AtLineStart(at, line + "\n" + rest, false) == AtLineStart(at, rest, true)
  {
    var s := line + "\n" + rest;
    if line == "" {
      assert s[1..] == rest;
    } else {
      assert s[1..] == line[1..] + "\n" + rest && s[0] == line[0];
      SkipsLine(at, line[1..], rest);
    }
  }

  /** From the name of the repository on, the line below it is what is read. */
  lemma LineBelow(at: string -> Option<string>, repo: string, rest: string, atStart: bool)
    requires repo != "" && Without(repo, IsNewline) && at(repo + "\n" + rest).None?
    ensures AtLineStart(at, repo + "\n" + rest, atStart) == AtLineStart(at, rest, true)
  {
    var s := repo + "\n" + rest;
    assert s[1..] == repo[1..] + "\n" + rest && s[0] == repo[0];
    SkipsLine(at, repo[1..], rest);
  }

  /** The name of the repository as a line of its own kind: not mistaken for the revision. */
  ghost predicate IsRepo(repo: string) {
    |repo| > 2 && Without(repo, IsNewline) && !IsSpace(repo[0]) && repo[2] != REV[2]
  }

  lemma RepoIsNoRev(repo: string, rest: string)
    requires IsRepo(repo)
    ensures RevAt(REV, repo + rest).None?
  {
    var s := repo + rest;
    assert s[0] == repo[0] && s[2] == repo[2];
    assert "" + s == s;
    AfterSpaceOf("", s);
    NotStarting(s, REV, 2);
  }

  lemma NotStarting(s: string, w: string, i: nat)
    requires i < |w| && i < |s| && s[i] != w[i]
    ensures !StartsWith(s, w)
  {
    if |w| <= |s| {
      assert s[..|w|][i] == s[i];
    }
  }

  /** What `HooksBlock` is from the name of the repository on, with what follows the block. */
  function FromRepo(repo: string, gap: string, tag: string, rest: string): string {
    repo + "\n" + (gap + (REV + (" " + (tag + "\n" + rest))))
  }

  lemma FromRepoReads(repo: string, gap: string, tag: string, rest: string, atStart: bool)
    requires IsRepo(repo) && Every(gap, IsBlank) && IsTag(tag)
    ensures AtLineStart(RevBy(REV), FromRepo(repo, gap, tag, rest), atStart) == Some(tag)
  {
    var below := gap + (REV + (" " + (tag + "\n" + rest)));
    assert FromRepo(repo, gap, tag, rest) == repo + ("\n" + below);
    RepoIsNoRev(repo, "\n" + below);
    LineBelow(RevBy(REV), repo, below, atStart);
    RevIsRead(REV, gap, tag, rest);
    FirstIsTaken(RevBy(REV), below, tag);
  }

  lemma FirstIsTaken(at: string -> Option<string>, s: string, r: string)
    requires at(s) == Some(r)
    ensures AtLineStart(at, s, true) == Some(r)
  {}

  lemma BlockFromRepo(before: string, lead: string, repo: string, gap: string, tag: string, rest: string, after: string)
    ensures (before + HooksBlock(lead, repo, gap, tag, rest) + after)[|before| + |lead|..]
         == FromRepo(repo, gap, tag, rest + after)
  {
    var tail := FromRepo(repo, gap, tag, rest + after);
    var value := tag + "\n" + rest;
    assert tag + "\n" + (rest + after) == value + after;
    assert " " + (value + after) == " " + value + after;
    Rejoin(REV, " " + value, after);
    Rejoin(gap, REV + (" " + value), after);
    Rejoin(repo + "\n", gap + (REV + (" " + value)), after);
    assert before + HooksBlock(lead, repo, gap, tag, rest) + after == before + lead + tail;
  }

  /** The part of a configuration that stays above the block. */
  function Above(m: Markers.Fixed, text: string): string {
    if Markers.HasBoth(m, text) then text[..Markers.BeginLine(m, text)] else Markers.Prepared(m, text)
  }

  function Below(m: Markers.Fixed, text: string): string {
    if Markers.HasBoth(m, text) then text[Markers.EndLine(m, text)..] else ""
  }

  lemma AboveEndsLine(m: Markers.Fixed, text: string)
    ensures EndsLine(Above(m, text))
  {
    if Markers.HasBoth(m, text) {
      Markers.LineStartStarts(text, Markers.Find(text, m.begin).value);
    }
  }

  /**
    The tag written into the pre-commit configuration is the revision read back, if nothing above
    the block names the repository already.
   */
  lemma UpsertedRevReadsBack(
    m: Markers.Fixed, text: string, lead: string, repo: string, gap: string, tag: string, rest: string)
    requires IsRepo(repo) && Every(gap, IsBlank) && IsTag(tag)
    requires Markers.Find(HooksBlock(lead, repo, gap, tag, rest), repo) == Some(|lead|)
    requires !Markers.Occurs(Above(m, text), repo)
    ensures PrecommitRev(repo, Markers.Upsert(m, text, HooksBlock(lead, repo, gap, tag, rest))) == Some(tag)
  {
    var block := HooksBlock(lead, repo, gap, tag, rest);
    var before, after := Above(m, text), Below(m, text);
    var whole := before + block + after;
    assert Markers.Upsert(m, text, block) == whole;
    AboveEndsLine(m, text);
    Markers.FindAfter(before, block, after, repo);
    BlockFromRepo(before, lead, repo, gap, tag, rest, after);
    RevFromThere(repo, whole, |before| + |lead|, gap, tag, rest + after);
  }

  lemma RevFromThere(repo: string, text: string, i: nat, gap: string, tag: string, rest: string)
    requires IsRepo(repo) && Every(gap, IsBlank) && IsTag(tag)
    requires Markers.Find(text, repo) == Some(i) && i <= |text| && text[i..] == FromRepo(repo, gap, tag, rest)
    ensures PrecommitRev(repo, text) == Some(tag)
  {
    FromRepoReads(repo, gap, tag, rest, i == 0 || text[i - 1] == '\n');
  }

  // ------------------------------------------------------------------- a repository named above the block

  /** The first character that is no whitespace. */
  ghost predicate StartsText(s: string, c: char) {
    AfterSpace(s) != "" && AfterSpace(s)[0] == c
  }

  lemma {:induction false} RunStopsBefore(s: string, rest: string, p: char -> bool)
    requires s != "" && !p(s[|s| - 1])
    ensures Run(s + rest, p) == Run(s, p) < |s|
  {
    if p(s[0]) {
      assert (s + rest)[1..] == s[1..] + rest;
      RunStopsBefore(s[1..], rest, p);
    }
  }

  /** Behind a text that ends a line, the whitespace that is skipped ends in it or goes through it. */
  lemma AfterSpaceBefore(s: string, rest: string)
    ensures AfterSpace(s + rest) == if AfterSpace(s) == "" then AfterSpace(rest) else AfterSpace(s) + rest
  {
    var gap := s[..Run(s, IsSpace)];
    RunTakes(s, IsSpace);
    if AfterSpace(s) == "" {
      assert gap == s;
      RunOf(s, rest, IsSpace);
      assert (s + rest)[|s| + Run(rest, IsSpace)..] == rest[Run(rest, IsSpace)..];
    } else {
      assert s + rest == gap + (AfterSpace(s) + rest);
      AfterSpaceOf(gap, AfterSpace(s) + rest);
    }
  }

  ghost predicate EndsInNewline(s: string) {
    s != "" && s[|s| - 1] == '\n'
  }

  lemma SuffixEndsToo(s: string, n: nat)
    requires EndsInNewline(s) && n < |s|
    ensures EndsInNewline(s[n..])
  {}

  lemma TokenBefore(u: string, rest: string)
    requires EndsInNewline(u)
    ensures Run(u + rest, IsRevChar) == Run(u, IsRevChar)
    ensures (u + rest)[..Run(u + rest, IsRevChar)] == u[..Run(u, IsRevChar)]
  {
    RunStopsBefore(u, rest, IsRevChar);
  }

  lemma QuotedBefore(v: string, rest: string)
    requires EndsInNewline(v) && StartsText(rest, '#')
    ensures Quoted(v + rest) == Quoted(v)
  {
    AfterSpaceBefore(v, rest);
    var w := AfterSpace(v);
    if w != "" {
      SuffixEndsToo(v, Run(v, IsSpace));
      RunStops(v, IsSpace);
      if IsQuote(w[0]) {
        assert (w + rest)[1..] == w[1..] + rest;
        TokenBefore(w[1..], rest);
      } else {
        TokenBefore(w, rest);
      }
    }
  }

  lemma StartsBefore(s: string, rest: string, w: string)
    requires EndsInNewline(s) && Without(w, IsNewline)
    ensures StartsWith(s + rest, w) <==> StartsWith(s, w)
  {
    if |w| <= |s| {
      assert (s + rest)[..|w|] == s[..|w|];
    } else {
      assert (s + rest)[|s| - 1] == '\n' && !IsNewline(w[|s| - 1]);
      NotStarting(s + rest, w, |s| - 1);
    }
  }

  /** A revision that ends its line is read alike whatever comment follows. */
  lemma RevBefore(s: string, rest: string)
    requires EndsInNewline(s) && StartsText(rest, '#')
    ensures RevAt(REV, s + rest) == RevAt(REV, s)
  {
    AfterSpaceBefore(s, rest);
    if AfterSpace(s) == "" {
      NoRevAt(s);
      NotStarting(AfterSpace(rest), REV, 0);
      NoRevAt(s + rest);
    } else {
      RevInText(s, rest);
    }
  }

  lemma NoRevAt(s: string)
    ensures !StartsWith(AfterSpace(s), REV) ==> RevAt(REV, s).None?
  {}

  lemma RevInText(s: string, rest: string)
    requires EndsInNewline(s) && StartsText(rest, '#')
    requires AfterSpace(s) != "" && AfterSpace(s + rest) == AfterSpace(s) + rest
    ensures RevAt(REV, s + rest) == RevAt(REV, s)
  {
    var t := AfterSpace(s);
    SuffixEndsToo(s, Run(s, IsSpace));
    StartsBefore(t, rest, REV);
    if StartsWith(t, REV) {
      KeyEndsBefore(t, rest);
    }
  }

  lemma KeyEndsBefore(t: string, rest: string)
    requires EndsInNewline(t) && StartsWith(t, REV) && StartsText(rest, '#')
    ensures Quoted((t + rest)[|REV|..]) == Quoted(t[|REV|..])
  {
    assert t[..|REV|][|REV| - 1] == ':';
    SuffixEndsToo(t, |REV|);
    assert (t + rest)[|REV|..] == t[|REV|..] + rest;
    QuotedBefore(t[|REV|..], rest);
  }

  /** A search that every start in the first part answers alike, whatever follows, goes on behind it. */
  lemma {:induction false} FirstInParts(at: string -> Option<string>, above: string, rest: string, atStart: bool)
    requires at("").None? && (above == "" || EndsInNewline(above)) && (above == "" ==> atStart)
    requires forall n :: 0 <= n < |above| ==> at(above[n..] + rest) == at(above[n..])
    ensures AtLineStart(at, above + rest, atStart)
         == if AtLineStart(at, above, atStart).Some? then AtLineStart(at, above, atStart)
            else AtLineStart(at, rest, true)
    decreases |above|
  {
    if above == "" {
      assert above + rest == rest;
    } else {
      assert above[0..] == above;
      assert (above + rest)[1..] == above[1..] + rest && (above + rest)[0] == above[0];
      forall n | 0 <= n < |above[1..]|
        ensures at(above[1..][n..] + rest) == at(above[1..][n..])
      {
        assert above[1..][n..] == above[n + 1..];
      }
      FirstInParts(at, above[1..], rest, above[0] == '\n');
    }
  }

  /** The first revision in a text that ends a line, or else the first one behind it. */
  lemma FirstRev(above: string, rest: string, atStart: bool)
    requires above == "" || EndsInNewline(above)
    requires above == "" ==> atStart
    requires StartsText(rest, '#')
    ensures AtLineStart(RevBy(REV), above + rest, atStart)
         == if AtLineStart(RevBy(REV), above, atStart).Some? then AtLineStart(RevBy(REV), above, atStart)
            else AtLineStart(RevBy(REV), rest, true)
  {
    var at := RevBy(REV);
    forall n | 0 <= n < |above|
      ensures at(above[n..] + rest) == at(above[n..])
    {
      SuffixEndsToo(above, n);
      RevBefore(above[n..], rest);
    }
    FirstInParts(at, above, rest, atStart);
  }

  /** What a block starts with: a line of comment, and the dash in front of the repository. */
  ghost predicate IsLead(comment: string, dash: string) {
    && Without(comment, IsNewline) && StartsText(comment, '#')
    && Without(dash, IsNewline) && StartsText(dash, '-')
  }

  lemma NoRevIn(line: string, rest: string, c: char)
    requires StartsText(line, c) && c != 'r'
    ensures RevAt(REV, line + rest).None? && StartsText(line + rest, c)
  {
    AfterSpaceBefore(line, rest);
    NotStarting(AfterSpace(line + rest), REV, 0);
  }

  /** Read from its start, a block shows its tag. */
  lemma BlockShowsTag(comment: string, dash: string, repo: string, gap: string, tag: string, rest: string)
    requires IsLead(comment, dash) && IsRepo(repo) && Every(gap, IsBlank) && IsTag(tag)
    ensures var s := comment + ("\n" + (dash + FromRepo(repo, gap, tag, rest)));
            StartsText(s, '#') && AtLineStart(RevBy(REV), s, true) == Some(tag)
  {
    var below := gap + (REV + (" " + (tag + "\n" + rest)));
    var line := dash + repo;
    assert dash + FromRepo(repo, gap, tag, rest) == line + "\n" + below;
    WithoutJoins(dash, repo, IsNewline);
    assert line + "\n" + below == dash + (repo + "\n" + below);
    NoRevIn(dash, repo + "\n" + below, '-');
    LineBelow(RevBy(REV), line, below, true);
    RevIsRead(REV, gap, tag, rest);
    FirstIsTaken(RevBy(REV), below, tag);
    var s := comment + ("\n" + (line + "\n" + below));
    assert s == comment + "\n" + (line + "\n" + below);
    NoRevIn(comment, "\n" + (line + "\n" + below), '#');
    LineBelow(RevBy(REV), comment, line + "\n" + below, true);
  }

  /**
    Wherever the repository is named: the revision read back from the configuration is the one that
    the text above the block shows, if it shows one, and else the tag written.
   */
  lemma UpsertedRevIsReadExactly(
    m: Markers.Fixed, text: string, comment: string, dash: string, repo: string, gap: string, tag: string, rest: string)
    requires IsLead(comment, dash) && IsRepo(repo) && Every(gap, IsBlank) && IsTag(tag)
    requires var lead := comment + ("\n" + dash);
             Markers.Find(HooksBlock(lead, repo, gap, tag, rest), repo) == Some(|lead|)
    ensures var lead := comment + ("\n" + dash);
            PrecommitRev(repo, Markers.Upsert(m, text, HooksBlock(lead, repo, gap, tag, rest)))
            == if PrecommitRev(repo, Above(m, text)).Some? then PrecommitRev(repo, Above(m, text)) else Some(tag)
  {
    var lead := comment + ("\n" + dash);
    var block := HooksBlock(lead, repo, gap, tag, rest);
    var above, after := Above(m, text), Below(m, text);
    Markers.FindNone(above, repo);
    if Markers.Find(above, repo).None? {
      UpsertedRevReadsBack(m, text, lead, repo, gap, tag, rest);
    } else {
      assert Markers.Upsert(m, text, block) == above + block + after;
      AboveEndsLine(m, text);
      Rejoin(above, block, after);
      BlockFromStart(comment, dash, repo, gap, tag, rest, after);
      BlockShowsTag(comment, dash, repo, gap, tag, rest + after);
      RevFromAbove(repo, above, block + after, tag);
    }
  }

  lemma BlockFromStart(
    comment: string, dash: string, repo: string, gap: string, tag: string, rest: string, after: string)
    ensures HooksBlock(comment + ("\n" + dash), repo, gap, tag, rest) + after
         == comment + ("\n" + (dash + FromRepo(repo, gap, tag, rest + after)))
  {
    var lead := comment + ("\n" + dash);
    BlockFromRepo("", lead, repo, gap, tag, rest, after);
    var s := "" + HooksBlock(lead, repo, gap, tag, rest) + after;
    assert s == HooksBlock(lead, repo, gap, tag, rest) + after;
    assert s == lead + s[|lead|..];
    var tail := FromRepo(repo, gap, tag, rest + after);
    assert lead + tail == comment + ("\n" + (dash + tail));
  }

  lemma RevFromAbove(repo: string, above: string, rest: string, tag: string)
    requires repo != "" && Markers.Find(above, repo).Some? && EndsLine(above)
    requires StartsText(rest, '#') && AtLineStart(RevBy(REV), rest, true) == Some(tag)
    ensures PrecommitRev(repo, above + rest)
         == if PrecommitRev(repo, above).Some? then PrecommitRev(repo, above) else Some(tag)
  {
    var i := Markers.Find(above, repo).value;
    Markers.FindWithin(above, rest, repo);
    SuffixEndsToo(above, i);
    FirstRev(above[i..], rest, i == 0 || above[i - 1] == '\n');
    RevFrom(repo, above, i);
    RevFrom(repo, above + rest, i);
    assert (above + rest)[i..] == above[i..] + rest;
    assert i > 0 ==> (above + rest)[i - 1] == above[i - 1];
  }

  lemma RevFrom(repo: string, text: string, i: nat)
    requires Markers.Find(text, repo) == Some(i) && i <= |text|
    ensures PrecommitRev(repo, text) == AtLineStart(RevBy(REV), text[i..], i == 0 || text[i - 1] == '\n')
  {}

  /** So a repository that is named above the block, with another revision, shows that one. */
  lemma OtherRevIsRead(
    m: Markers.Fixed, text: string, comment: string, dash: string, repo: string, gap: string, tag: string, rest: string,
    other: string)
    requires IsLead(comment, dash) && IsRepo(repo) && Every(gap, IsBlank) && IsTag(tag) && IsTag(other)
    requires var lead := comment + ("\n" + dash);
             Markers.Find(HooksBlock(lead, repo, gap, tag, rest), repo) == Some(|lead|)
    requires Above(m, text) == FromRepo(repo, gap, other, "")
    ensures var lead := comment + ("\n" + dash);
            PrecommitRev(repo, Markers.Upsert(m, text, HooksBlock(lead, repo, gap, tag, rest))) == Some(other)
  {
    UpsertedRevIsReadExactly(m, text, comment, dash, repo, gap, tag, rest);
    RepoIsFirst(repo, gap, other);
    RevFromThere(repo, Above(m, text), 0, gap, other, "");
  }

  lemma RepoIsFirst(repo: string, gap: string, tag: string)
    ensures var s := FromRepo(repo, gap, tag, ""); Markers.Find(s, repo) == Some(0) && s[0..] == s
  {
    var s := FromRepo(repo, gap, tag, "");
    assert s == repo + ("\n" + (gap + (REV + (" " + (tag + "\n" + "")))));
    assert s[0..0 + |repo|] == repo;
    Markers.FindIs(s, repo, 0);
  }
}
