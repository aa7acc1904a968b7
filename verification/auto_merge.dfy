/**
  The Dependabot auto-merge caller (scripts/propagate.py, `upsert_auto_merge_workflow`): rendered
  from its template on every bump, but for the one choice a repository makes in it.
 */
module AutoMerge {
  import opened Wrappers
  import opened Text
  import opened Lines
  import opened Pins

  const MAJORS := "auto_merge_majors:"

  function Word(majors: bool): string {
    if majors then "true" else "false"
  }

  /** `\s*$`: whitespace up to a newline or to the end. */
  predicate EndsValue(s: string) {
    Run(s, IsSpace) == |s| || exists i :: 0 <= i < Run(s, IsSpace) && s[i] == '\n'
  }

  predicate IsValue(s: string, word: string) {
    StartsWith(s, word) && EndsValue(s[|word|..])
  }

  /** What follows `\s*auto_merge_majors:\s*` at the start of a text. */
  function ValueAt(key: string, s: string): Option<string> {
    var t := AfterSpace(s);
    if StartsWith(t, key) then Some(AfterSpace(t[|key|..])) else None
  }

  /** A match at the start of a line. */
  function ChoiceAt(key: string, s: string): Option<bool> {
    match ValueAt(key, s)
    case None => None
    case Some(v) => if IsValue(v, Word(true)) then Some(true) else if IsValue(v, Word(false)) then Some(false) else None
  }

  function ChoiceBy(key: string): string -> Option<bool> {
    s => ChoiceAt(key, s)
  }

  /** `_AUTO_MERGE_MAJORS_RE.search`. */
  function Choice(s: string): Option<bool> {
    AtLineStart(ChoiceBy(MAJORS), s, true)
  }

  /** The choice for the next caller: the one an adopted caller shows, or else the fleet file's. */
  function Carried(callees: seq<string>, existing: Option<string>, majors: bool): bool {
    if existing.Some? && HasPin(callees, existing.value) then
      match Choice(existing.value)
      case Some(chosen) => chosen
      case None => majors
    else majors
  }

  /** `upsert_auto_merge_workflow`, with `render` the template filled in. */
  function UpsertAutoMerge(
    callees: seq<string>, existing: Option<string>, majors: bool, render: bool -> string): string
  {
    render(Carried(callees, existing, majors))
  }

  // ------------------------------------------------------------------- the choice is carried over

  /** Rendered for either choice the template has a pin and reads as that choice. */
  ghost predicate ShowsChoice(callees: seq<string>, render: bool -> string) {
    forall b :: HasPin(callees, render(b)) && Choice(render(b)) == Some(b)
  }

  /** Run on its own output, whatever the fleet file says by then, nothing changes: a choice once made stays. */
  lemma AutoMergeIsStable(
    callees: seq<string>, existing: Option<string>, majors: bool, later: bool, render: bool -> string)
    requires ShowsChoice(callees, render)
    ensures var once := UpsertAutoMerge(callees, existing, majors, render);
            UpsertAutoMerge(callees, Some(once), later, render) == once
  {
    var chosen := Carried(callees, existing, majors);
    assert HasPin(callees, render(chosen)) && Choice(render(chosen)) == Some(chosen);
  }

  /** The first rendering follows the fleet file; a caller that is adopted and shows a choice keeps it. */
  lemma RenderedAsChosen(callees: seq<string>, existing: Option<string>, majors: bool, render: bool -> string)
    ensures existing.None? || !HasPin(callees, existing.value) || Choice(existing.value).None? ==>
              UpsertAutoMerge(callees, existing, majors, render) == render(majors)
    ensures existing.Some? && HasPin(callees, existing.value) && Choice(existing.value).Some? ==>
              UpsertAutoMerge(callees, existing, majors, render) == render(Choice(existing.value).value)
  {}

  // ------------------------------------------------------------------- a template that shows its choice

  /** The key is a word of its own: no whitespace in it. */
  ghost predicate IsKeyword(key: string) {
    key != "" && Every(key, IsNonSpace)
  }

  lemma MajorsIsKeyword()
    ensures IsKeyword(MAJORS)
  {}

  /** The text from the key on: the word, a newline, and the rest. */
  function ChoiceLine(key: string, word: string, tail: string): string {
    key + (" " + (word + ("\n" + tail)))
  }

  lemma WordIsValue(b: bool, tail: string)
    ensures IsValue(Word(b) + ("\n" + tail), Word(b)) && !IsValue(Word(b) + ("\n" + tail), Word(!b))
  {
    var s := Word(b) + ("\n" + tail);
    assert s[..|Word(b)|] == Word(b) && s[|Word(b)|..] == "\n" + tail;
    assert Run("\n" + tail, IsSpace) > 0;
    assert s[0] != Word(!b)[0];
  }

  lemma ValueShows(key: string, s: string, b: bool, tail: string)
    requires ValueAt(key, s) == Some(Word(b) + ("\n" + tail))
    ensures ChoiceAt(key, s) == Some(b)
  {
    WordIsValue(b, tail);
  }

  /** Behind whitespace, the line reads as its word. */
  lemma LineShowsChoice(key: string, gap: string, b: bool, tail: string)
    requires IsKeyword(key) && Every(gap, IsSpace)
    ensures ChoiceAt(key, gap + ChoiceLine(key, Word(b), tail)) == Some(b)
  {
    var value := Word(b) + ("\n" + tail);
    assert value[0] == Word(b)[0];
    LineHasValue(key, gap, value);
    ValueShows(key, gap + ChoiceLine(key, Word(b), tail), b, tail);
  }

  lemma LineHasValue(key: string, gap: string, value: string)
    requires IsKeyword(key) && Every(gap, IsSpace) && value != "" && !IsSpace(value[0])
    ensures ValueAt(key, gap + (key + (" " + value))) == Some(value)
  {
    var line := key + (" " + value);
    assert line[0] == key[0];
    AfterSpaceOf(gap, line);
    assert line[..|key|] == key && line[|key|..] == " " + value;
    AfterSpaceOf(" ", value);
  }

  /** A head that holds no key and ends a line, in front of a line whose one key is at its start. */
  ghost predicate HasNoKey(head: string, key: string) {
    forall i: nat :: i < |head| ==> !StartsWith(head[i..], key)
  }

  /** From a line start in the head, a match can only be the choice line reached through whitespace. */
  lemma HeadShowsNothingElse(key: string, head: string, gap: string, b: bool, tail: string)
    requires IsKeyword(key) && Every(gap, IsBlank) && HasNoKey(head, key)
    requires head == "" || head[|head| - 1] == '\n'
    ensures var r := ChoiceAt(key, head + (gap + ChoiceLine(key, Word(b), tail)));
            r == None || r == Some(b)
  {
    var line := gap + ChoiceLine(key, Word(b), tail);
    if Run(head + line, IsSpace) < |head| {
      HeadShowsNothing(key, head, line);
    } else {
      SpaceHead(head, line);
      LineBehindSpace(key, head, gap, b, tail);
    }
  }

  lemma HeadShowsNothing(key: string, head: string, line: string)
    requires IsKeyword(key) && HasNoKey(head, key) && Run(head + line, IsSpace) < |head|
    requires head[|head| - 1] == '\n'
    ensures ChoiceAt(key, head + line) == None
  {
    KeyInHead(key, head, line, Run(head + line, IsSpace));
  }

  lemma LineBehindSpace(key: string, head: string, gap: string, b: bool, tail: string)
    requires IsKeyword(key) && Every(head, IsSpace) && Every(gap, IsBlank)
    ensures ChoiceAt(key, head + (gap + ChoiceLine(key, Word(b), tail))) == Some(b)
  {
    JoinSpace(head, gap);
    LineShowsChoice(key, head + gap, b, tail);
    Rejoin(head, gap, ChoiceLine(key, Word(b), tail));
  }

  lemma SpaceHead(head: string, rest: string)
    requires Run(head + rest, IsSpace) >= |head|
    ensures Every(head, IsSpace)
  {
    RunTakes(head + rest, IsSpace);
    forall i | 0 <= i < |head|
      ensures IsSpace(head[i])
    {
      assert (head + rest)[..Run(head + rest, IsSpace)][i] == head[i];
    }
  }

  lemma JoinSpace(head: string, gap: string)
    requires Every(head, IsSpace) && Every(gap, IsBlank)
    ensures Every(head + gap, IsSpace)
  {}

  lemma StartLeft(a: string, b: string, w: string)
    requires |w| <= |a|
    ensures StartsWith(a + b, w) <==> StartsWith(a, w)
  {
    assert (a + b)[..|w|] == a[..|w|];
  }

  lemma StartChar(s: string, w: string, i: nat)
    requires i < |w|
    ensures StartsWith(s, w) ==> i < |s| && s[i] == w[i]
  {
    if StartsWith(s, w) {
      StartsWithChar(s, w, i);
    }
  }

  /** A key that starts in the head would lie in it: it has no newline, and the head ends in one. */
  lemma KeyInHead(key: string, head: string, rest: string, n: nat)
    requires IsKeyword(key) && HasNoKey(head, key) && n < |head| && head[|head| - 1] == '\n'
    ensures !StartsWith((head + rest)[n..], key)
  {
    assert (head + rest)[n..] == head[n..] + rest;
    if n + |key| <= |head| {
      StartLeft(head[n..], rest, key);
    } else {
      StartChar(head[n..] + rest, key, |head| - 1 - n);
    }
  }

  lemma {:induction false} LineIsFound(key: string, head: string, atStart: bool, gap: string, b: bool, tail: string)
    requires IsKeyword(key) && Every(gap, IsBlank) && HasNoKey(head, key)
    requires head == "" || head[|head| - 1] == '\n'
    requires head == "" ==> atStart
    ensures AtLineStart(ChoiceBy(key), head + (gap + ChoiceLine(key, Word(b), tail)), atStart) == Some(b)
    decreases |head|
  {
    var line := gap + ChoiceLine(key, Word(b), tail);
    HeadShowsNothingElse(key, head, gap, b, tail);
    if head == "" {
      assert head + line == line;
      LineShowsChoice(key, gap, b, tail);
    } else {
      var s := head + line;
      assert s[1..] == head[1..] + line && s[0] == head[0];
      forall i: nat | i < |head[1..]|
        ensures !StartsWith(head[1..][i..], key)
      {
        assert head[1..][i..] == head[i + 1..];
      }
      LineIsFound(key, head[1..], s[0] == '\n', gap, b, tail);
    }
  }

  /** A template with one such line shows its choice. */
  lemma TemplateShowsChoice(callees: seq<string>, head: string, gap: string, tail: string, render: bool -> string)
    requires Every(gap, IsBlank) && HasNoKey(head, MAJORS) && (head == "" || head[|head| - 1] == '\n')
    requires forall b :: render(b) == head + (gap + ChoiceLine(MAJORS, Word(b), tail)) && HasPin(callees, render(b))
    ensures ShowsChoice(callees, render)
  {
    MajorsIsKeyword();
    forall b
      ensures Choice(render(b)) == Some(b)
    {
      LineIsFound(MAJORS, head, true, gap, b, tail);
    }
  }
}
