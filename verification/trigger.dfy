/**
  The `merge_group` trigger of a caller (scripts/propagate.py, `add_merge_group_trigger`): an entry
  put right after the `pull_request` entry of the first block-style `on:`.
 */
module Trigger {
  import opened Wrappers
  import opened Text
  import opened Pins
  import opened Lines
  import opened Permissions

  const MERGE_GROUP := "merge_group:"
  const PULL_REQUEST := "pull_request:"

  predicate IsBlankLine(line: string) {
    |Indent(line)| == |line|
  }

  predicate IsKey(line: string, key: string) {
    StartsWith(line, key) && IsBlankLine(line[|key|..])
  }

  /** `on:`, in one of three spellings, with nothing but blanks after it. */
  function IsOn(): string -> bool {
    line => IsKey(line, "on:") || IsKey(line, "\"on\":") || IsKey(line, "'on':")
  }

  /** An indented line. */
  function IsEntry(): string -> bool {
    line => Indent(line) != "" && HasText(line)
  }

  /** Neither indented nor blank: the line ends the body of `on:`. */
  function IsOutside(): string -> bool {
    line => !(Indent(line) != "" && HasText(line)) && !IsBlankLine(line)
  }

  function Starts(prefix: string): string -> bool {
    line => StartsWith(line, prefix)
  }

  /** A `branches:` or `branches-ignore:` line below `indent`. */
  function IsFilter(indent: string): string -> bool {
    line =>
      && |indent| < |Indent(line)| && StartsWith(line, indent)
      && (StartsWith(line[|Indent(line)|..], "branches:") || StartsWith(line[|Indent(line)|..], "branches-ignore:"))
  }

  /** What the search looks for; the last four depend on the indent of the entries. */
  datatype Patterns = Patterns(
    on: string -> bool, outside: string -> bool, entry: string -> bool, indent: string -> string,
    merge: string -> string -> bool, pull: string -> string -> bool,
    shallow: string -> string -> bool, filter: string -> string -> bool)

  function CallerPatterns(): Patterns {
    Patterns(
      IsOn(), IsOutside(), IsEntry(), line => Indent(line),
      indent => Starts(indent + MERGE_GROUP), indent => Starts(indent + PULL_REQUEST),
      indent => NotDeeper(indent), indent => IsFilter(indent))
  }

  /** Where the entry goes: behind the lines of `pull`, with a copy of its filter. */
  datatype Place = Place(indent: string, pull: nat, at: nat, copy: seq<string>)

  function FilterIn(t: Patterns, lines: seq<string>, from: nat, to: nat, indent: string): seq<string>
    requires from <= to <= |lines|
  {
    var b := FirstAt(lines, from, to, t.filter(indent));
    if b == to then [] else lines[b..FirstAt(lines, b + 1, to, t.shallow(t.indent(lines[b])))]
  }

  /** The entries of `on:`, all at one indent. */
  function PlaceUnder(t: Patterns, lines: seq<string>, from: nat, to: nat, indent: string): (r: Option<Place>)
    requires from <= to <= |lines|
    ensures r.Some? ==> from <= r.value.pull < r.value.at <= to
  {
    var pull := FirstAt(lines, from, to, t.pull(indent));
    if FirstAt(lines, from, to, t.merge(indent)) < to || pull == to then None
    else
      var at := FirstAt(lines, pull + 1, to, t.shallow(indent));
      Some(Place(indent, pull, at, FilterIn(t, lines, pull + 1, at, indent)))
  }

  function PlaceIn(t: Patterns, lines: seq<string>, from: nat, to: nat): (r: Option<Place>)
    requires from <= to <= |lines|
    ensures r.Some? ==> from <= r.value.pull < r.value.at <= to
  {
    var first := FirstAt(lines, from, to, t.entry);
    if first == to then None else PlaceUnder(t, lines, from, to, t.indent(lines[first]))
  }

  function PlaceOf(t: Patterns, lines: seq<string>): (r: Option<Place>)
    ensures r.Some? ==> r.value.pull < r.value.at <= |lines|
  {
    var on := FirstAt(lines, 0, |lines|, t.on);
    if on == |lines| then None
    else PlaceIn(t, lines, on + 1, FirstAt(lines, on + 1, |lines|, t.outside))
  }

  function Entry(p: Place): seq<string> {
    [p.indent + MERGE_GROUP] + p.copy
  }

  /** `add_merge_group_trigger` on the lines of a text. */
  function Triggered(t: Patterns, lines: seq<string>): seq<string> {
    match PlaceOf(t, lines)
    case None => lines
    case Some(p) => InsertAt(lines, p.at, Entry(p))
  }

  function AddTrigger(lines: seq<string>): seq<string> {
    Triggered(CallerPatterns(), lines)
  }

  // ------------------------------------------------------------------- what the search finds

  /** What is known of a place found. */
  ghost predicate IsFound(t: Patterns, lines: seq<string>, p: Place) {
    && p.pull < p.at <= |lines|
    && t.pull(p.indent)(lines[p.pull])
    && (forall i :: p.pull < i < p.at ==> !t.shallow(p.indent)(lines[i]))
    && (p.at < |lines| ==> t.shallow(p.indent)(lines[p.at]) || t.outside(lines[p.at]))
  }

  /** Its indent is that of the first entry of `on:`. */
  ghost predicate IsIndent(t: Patterns, lines: seq<string>, p: Place, first: nat) {
    first < |lines| && t.entry(lines[first]) && p.indent == t.indent(lines[first])
  }

  /** Its copy was taken from the lines of `pull_request`. */
  ghost predicate IsCopy(lines: seq<string>, p: Place, b: nat) {
    p.pull < b && b + |p.copy| <= p.at <= |lines| && p.copy == lines[b..b + |p.copy|]
  }

  lemma FilterIsCopy(t: Patterns, lines: seq<string>, from: nat, to: nat, indent: string) returns (b: nat)
    requires from <= to <= |lines|
    ensures from <= b && b + |FilterIn(t, lines, from, to, indent)| <= to
    ensures FilterIn(t, lines, from, to, indent) == lines[b..b + |FilterIn(t, lines, from, to, indent)|]
  {
    b := FirstAt(lines, from, to, t.filter(indent));
    if b == to {
      assert lines[b..b] == [];
    }
  }

  lemma UnderIsFound(t: Patterns, lines: seq<string>, from: nat, to: nat, p: Place) returns (b: nat)
    requires from <= to <= |lines| && (to < |lines| ==> t.outside(lines[to]))
    requires PlaceUnder(t, lines, from, to, p.indent) == Some(p)
    ensures IsFound(t, lines, p) && IsCopy(lines, p, b)
  {
    FirstAtIsFirst(lines, from, to, t.pull(p.indent));
    NestedIsFound(t, lines, to, p);
    b := FilterIsCopy(t, lines, p.pull + 1, p.at, p.indent);
  }

  lemma NestedIsFound(t: Patterns, lines: seq<string>, to: nat, p: Place)
    requires p.pull < to <= |lines| && (to < |lines| ==> t.outside(lines[to]))
    requires t.pull(p.indent)(lines[p.pull]) && p.at == FirstAt(lines, p.pull + 1, to, t.shallow(p.indent))
    ensures IsFound(t, lines, p)
  {
    FirstAtIsFirst(lines, p.pull + 1, to, t.shallow(p.indent));
  }

  lemma InIsFound(t: Patterns, lines: seq<string>, from: nat, to: nat, p: Place) returns (first: nat, b: nat)
    requires from <= to <= |lines| && (to < |lines| ==> t.outside(lines[to]))
    requires PlaceIn(t, lines, from, to) == Some(p)
    ensures IsFound(t, lines, p) && IsCopy(lines, p, b) && IsIndent(t, lines, p, first)
  {
    first := FirstAt(lines, from, to, t.entry);
    b := UnderIsFound(t, lines, from, to, p);
    FirstAtIsFirst(lines, from, to, t.entry);
  }

  lemma PlaceIsFound(t: Patterns, lines: seq<string>, p: Place) returns (first: nat, b: nat)
    requires PlaceOf(t, lines) == Some(p)
    ensures IsFound(t, lines, p) && IsCopy(lines, p, b) && IsIndent(t, lines, p, first)
  {
    var on := FirstAt(lines, 0, |lines|, t.on);
    FirstAtIsFirst(lines, on + 1, |lines|, t.outside);
    first, b := InIsFound(t, lines, on + 1, FirstAt(lines, on + 1, |lines|, t.outside), p);
  }

  // ------------------------------------------------------------------- a second run

  lemma UnderIsDone(t: Patterns, lines: seq<string>, from: nat, to: nat, p: Place, x: seq<string>)
    requires from <= to <= |lines| && PlaceUnder(t, lines, from, to, p.indent) == Some(p)
    requires x != [] && t.merge(p.indent)(x[0])
    ensures PlaceUnder(t, InsertAt(lines, p.at, x), from, to + |x|, p.indent).None?
  {
    InsertedAt(lines, p.at, x, p.at);
    FirstAtLe(InsertAt(lines, p.at, x), from, to + |x|, t.merge(p.indent), p.at);
  }

  lemma InIsDone(t: Patterns, lines: seq<string>, from: nat, to: nat, p: Place, x: seq<string>)
    requires from <= to <= |lines| && PlaceIn(t, lines, from, to) == Some(p) && t.entry(lines[p.pull])
    requires x != [] && t.merge(p.indent)(x[0])
    ensures PlaceIn(t, InsertAt(lines, p.at, x), from, to + |x|).None?
  {
    FirstAtLe(lines, from, to, t.entry, p.pull);
    FirstAtStays(lines, from, to, t.entry, p.at, x);
    InsertedAt(lines, p.at, x, FirstAt(lines, from, to, t.entry));
    UnderIsDone(t, lines, from, to, p, x);
  }

  /** The bounds of `on:`, as the search finds them. */
  lemma PlaceOfIs(t: Patterns, lines: seq<string>, on: nat, to: nat)
    requires FirstAt(lines, 0, |lines|, t.on) == on < |lines|
    requires FirstAt(lines, on + 1, |lines|, t.outside) == to
    ensures PlaceOf(t, lines) == PlaceIn(t, lines, on + 1, to)
  {}

  lemma BoundsAfter(t: Patterns, lines: seq<string>, at: nat, x: seq<string>, on: nat, to: nat)
    requires FirstAt(lines, 0, |lines|, t.on) == on < |lines|
    requires FirstAt(lines, on + 1, |lines|, t.outside) == to && on < at <= to
    requires forall i :: 0 <= i < |x| ==> !t.outside(x[i])
    ensures PlaceOf(t, InsertAt(lines, at, x)) == PlaceIn(t, InsertAt(lines, at, x), on + 1, to + |x|)
  {
    OnStays(t, lines, at, x);
    OutsideShifts(t, lines, at, x, on + 1, to);
    PlaceOfIs(t, InsertAt(lines, at, x), on, to + |x|);
  }

  lemma OnStays(t: Patterns, lines: seq<string>, at: nat, x: seq<string>)
    requires FirstAt(lines, 0, |lines|, t.on) < at <= |lines|
    ensures |InsertAt(lines, at, x)| >= |lines|
    ensures FirstAt(InsertAt(lines, at, x), 0, |InsertAt(lines, at, x)|, t.on) == FirstAt(lines, 0, |lines|, t.on)
  {
    FirstAtStays(lines, 0, |lines|, t.on, at, x);
  }

  lemma OutsideShifts(t: Patterns, lines: seq<string>, at: nat, x: seq<string>, from: nat, to: nat)
    requires from <= |lines| && FirstAt(lines, from, |lines|, t.outside) == to && from <= at <= to
    requires forall i :: 0 <= i < |x| ==> !t.outside(x[i])
    ensures FirstAt(InsertAt(lines, at, x), from, |InsertAt(lines, at, x)|, t.outside) == to + |x|
  {
    FirstAtShifts(lines, from, |lines|, t.outside, at, x);
  }

  /** With an entry for `merge_group` in place the search finds nothing more to do. */
  lemma PlaceIsDone(t: Patterns, lines: seq<string>, p: Place, x: seq<string>)
    requires PlaceOf(t, lines) == Some(p) && t.entry(lines[p.pull])
    requires x != [] && t.merge(p.indent)(x[0])
    requires forall i :: 0 <= i < |x| ==> !t.outside(x[i])
    ensures PlaceOf(t, InsertAt(lines, p.at, x)).None?
  {
    var on := FirstAt(lines, 0, |lines|, t.on);
    var to := FirstAt(lines, on + 1, |lines|, t.outside);
    BoundsAfter(t, lines, p.at, x, on, to);
    InIsDone(t, lines, on + 1, to, p, x);
  }

  // ------------------------------------------------------------------- the place in a caller

  /** The line of `pull_request`, and of any other entry at its indent. */
  ghost predicate IsHead(line: string, indent: string) {
    && indent != "" && Every(indent, IsBlank)
    && Indent(line) == indent && HasText(line) && !IsHeader(line)
  }

  ghost predicate AreNested(lines: seq<string>, from: nat, to: nat, indent: string) {
    && from <= to <= |lines|
    && (forall i :: from <= i < to ==> IsDeeper(lines[i], indent))
    && (to < |lines| ==> !IsDeeper(lines[to], indent))
  }

  /** The place is behind a line and everything deeper than it, and what is copied comes from there. */
  ghost predicate Fits(lines: seq<string>, p: Place) {
    && p.pull < p.at <= |lines| && IsHead(lines[p.pull], p.indent)
    && AreNested(lines, p.pull + 1, p.at, p.indent)
    && exists b: nat :: IsCopy(lines, p, b)
  }

  lemma StartsWithIndent(line: string, indent: string, word: string)
    requires Every(indent, IsBlank) && word != "" && !IsSpace(word[0]) && StartsWith(line, indent + word)
    ensures Indent(line) == indent && HasText(line) && StartsWith(line[|indent|..], word)
  {
    var rest := line[|indent|..];
    assert line == line[..|indent + word|] + line[|indent + word|..];
    assert line == indent + rest;
    assert rest[..|word|] == line[..|indent + word|][|indent|..] == word;
    assert rest[0] == word[0];
    assert IsSpace(' ') && IsSpace('\t');
    IndentIs(indent, rest);
  }

  /** A line that starts an entry of `on:` is no `permissions:` line. */
  lemma StartIsHead(line: string, indent: string, word: string, i: nat)
    requires indent != "" && Every(indent, IsBlank) && StartsWith(line, indent + word)
    requires i < |word| && i < |PERMISSIONS| && !IsSpace(word[0]) && word[i] != PERMISSIONS[i]
    ensures IsHead(line, indent)
  {
    StartsWithIndent(line, indent, word);
    StartsWithChar(line[|indent|..], word, i);
  }

  lemma HeadIsInside(line: string, indent: string)
    requires IsHead(line, indent)
    ensures IsEntry()(line) && !IsOutside()(line)
  {}

  lemma DeeperIsInside(line: string, indent: string)
    requires IsDeeper(line, indent)
    ensures !IsOutside()(line)
  {}

  lemma PullIsHead(line: string, indent: string)
    requires indent != "" && Every(indent, IsBlank) && CallerPatterns().pull(indent)(line)
    ensures IsHead(line, indent)
  {
    StartIsHead(line, indent, PULL_REQUEST, 1);
  }

  lemma FirstIsIndent(t: Patterns, lines: seq<string>, p: Place, first: nat)
    requires t == CallerPatterns() && IsIndent(t, lines, p, first)
    ensures p.indent != "" && Every(p.indent, IsBlank)
  {
    IndentIsBlank(lines[first]);
  }

  lemma FoundIsNested(t: Patterns, lines: seq<string>, p: Place)
    requires t == CallerPatterns() && IsFound(t, lines, p)
    ensures AreNested(lines, p.pull + 1, p.at, p.indent)
  {
    var shallow := t.shallow(p.indent);
    forall i | p.pull < i < p.at
      ensures IsDeeper(lines[i], p.indent)
    {
      assert !shallow(lines[i]);
    }
    if p.at < |lines| && t.outside(lines[p.at]) && IsDeeper(lines[p.at], p.indent) {
      DeeperIsInside(lines[p.at], p.indent);
    }
  }

  /** Every place the search finds fits. */
  lemma PlaceFits(lines: seq<string>, p: Place)
    requires PlaceOf(CallerPatterns(), lines) == Some(p)
    ensures Fits(lines, p)
  {
    var t := CallerPatterns();
    var first, b := PlaceIsFound(t, lines, p);
    FirstIsIndent(t, lines, p, first);
    PullIsHead(lines[p.pull], p.indent);
    FoundIsNested(t, lines, p);
  }

  lemma EntryHead(p: Place)
    requires p.indent != "" && Every(p.indent, IsBlank)
    ensures IsHead(Entry(p)[0], p.indent)
  {
    var line := p.indent + MERGE_GROUP;
    assert line[..|line|] == line;
    StartIsHead(line, p.indent, MERGE_GROUP, 0);
  }

  lemma EntryMerges(p: Place)
    ensures CallerPatterns().merge(p.indent)(Entry(p)[0])
  {
    var line := p.indent + MERGE_GROUP;
    assert line[..|line|] == line;
  }

  /** The lines of the entry behind its head are deeper. */
  lemma EntryLine(lines: seq<string>, p: Place, i: nat) returns (j: nat)
    requires Fits(lines, p) && 0 < i < |Entry(p)|
    ensures p.pull < j < p.at && Entry(p)[i] == lines[j] && IsDeeper(lines[j], p.indent)
    ensures i + 1 < |Entry(p)| ==> j + 1 < p.at && Entry(p)[i + 1] == lines[j + 1]
  {
    var b: nat :| IsCopy(lines, p, b);
    j := b + i - 1;
    assert Entry(p)[i] == p.copy[i - 1];
    if i + 1 < |Entry(p)| {
      assert Entry(p)[i + 1] == p.copy[i];
    }
  }

  lemma EntryIsInside(lines: seq<string>, p: Place, i: nat)
    requires Fits(lines, p) && i < |Entry(p)|
    ensures !IsOutside()(Entry(p)[i])
  {
    if i == 0 {
      EntryHead(p);
      HeadIsInside(Entry(p)[0], p.indent);
    } else {
      var j := EntryLine(lines, p, i);
      DeeperIsInside(lines[j], p.indent);
    }
  }

  /** After the edit the search finds nothing more to do. */
  lemma TriggeredIsDone(lines: seq<string>)
    ensures PlaceOf(CallerPatterns(), AddTrigger(lines)).None?
  {
    var t := CallerPatterns();
    if PlaceOf(t, lines).Some? {
      var p := PlaceOf(t, lines).value;
      PlaceFits(lines, p);
      EntryMerges(p);
      HeadIsInside(lines[p.pull], p.indent);
      forall i | 0 <= i < |Entry(p)|
        ensures !t.outside(Entry(p)[i])
      {
        EntryIsInside(lines, p, i);
      }
      PlaceIsDone(t, lines, p, Entry(p));
    }
  }

  /** A second run changes nothing. */
  lemma TriggerIsIdempotent(lines: seq<string>)
    ensures AddTrigger(AddTrigger(lines)) == AddTrigger(lines)
  {
    TriggeredIsDone(lines);
  }

  /** The edit only inserts one run of lines, which starts with the entry's head. */
  lemma TriggerInserts(lines: seq<string>) returns (at: nat, x: seq<string>)
    ensures at <= |lines| && AddTrigger(lines) == InsertAt(lines, at, x)
    ensures x == [] <==> PlaceOf(CallerPatterns(), lines).None?
    ensures x != [] ==> exists indent :: IsMergeGroup(x[0], indent)
  {
    if PlaceOf(CallerPatterns(), lines).Some? {
      var p := PlaceOf(CallerPatterns(), lines).value;
      PlaceFits(lines, p);
      at, x := p.at, Entry(p);
      assert IsMergeGroup(x[0], p.indent);
    } else {
      at, x := 0, [];
      assert InsertAt(lines, 0, []) == lines;
    }
  }

  ghost predicate IsMergeGroup(line: string, indent: string) {
    indent != "" && Every(indent, IsBlank) && line == indent + MERGE_GROUP
  }

  // ------------------------------------------------------------------- the filter is mirrored

  /** Reading the filter of the lines behind the new head gives the filter that `pull_request` has. */
  lemma FilterIsMirrored(t: Patterns, lines: seq<string>, p: Place)
    requires PlaceOf(t, lines) == Some(p)
    ensures FilterIn(t, Entry(p), 1, |Entry(p)|, p.indent) == FilterIn(t, lines, p.pull + 1, p.at, p.indent) == p.copy
  {
    PlaceCopy(t, lines, p);
    CopiedFilter(t, lines, p.pull + 1, p.at, p.indent, Entry(p));
  }

  lemma PlaceCopy(t: Patterns, lines: seq<string>, p: Place)
    requires PlaceOf(t, lines) == Some(p)
    ensures p.copy == FilterIn(t, lines, p.pull + 1, p.at, p.indent)
  {
    var on := FirstAt(lines, 0, |lines|, t.on);
    InCopy(t, lines, on + 1, FirstAt(lines, on + 1, |lines|, t.outside), p);
  }

  lemma InCopy(t: Patterns, lines: seq<string>, from: nat, to: nat, p: Place)
    requires from <= to <= |lines| && PlaceIn(t, lines, from, to) == Some(p)
    ensures p.copy == FilterIn(t, lines, p.pull + 1, p.at, p.indent)
  {
    UnderCopy(t, lines, from, to, p);
  }

  lemma UnderCopy(t: Patterns, lines: seq<string>, from: nat, to: nat, p: Place)
    requires from <= to <= |lines| && PlaceUnder(t, lines, from, to, p.indent) == Some(p)
    ensures p.copy == FilterIn(t, lines, p.pull + 1, p.at, p.indent)
  {}

  lemma CopiedFilter(t: Patterns, lines: seq<string>, from: nat, to: nat, indent: string, x: seq<string>)
    requires from <= to <= |lines| && x != [] && x[1..] == FilterIn(t, lines, from, to, indent)
    ensures FilterIn(t, x, 1, |x|, indent) == x[1..]
  {
    var b := FirstAt(lines, from, to, t.filter(indent));
    if b < to {
      var e := FirstAt(lines, b + 1, to, t.shallow(t.indent(lines[b])));
      FirstAtIsFirst(lines, from, to, t.filter(indent));
      FirstAtIsFirst(lines, b + 1, to, t.shallow(t.indent(lines[b])));
      forall i | 1 <= i < |x|
        ensures x[i] == lines[b + i - 1]
      {
        assert x[1..][i - 1] == lines[b..e][i - 1];
      }
      FirstAtIs(x, 1, |x|, t.filter(indent), 1);
      FirstAtIs(x, 2, |x|, t.shallow(t.indent(x[1])), |x|);
    }
  }

  /** The filter found in some lines: from the first that `filter` holds of, as far as lines are nested in it. */
  ghost predicate IsFilterAt(
      t: Patterns, lines: seq<string>, from: nat, to: nat, indent: string, b: nat, e: nat)
  {
    && from <= b < e <= to <= |lines| && t.filter(indent)(lines[b])
    && (forall i :: from <= i < b ==> !t.filter(indent)(lines[i]))
    && (forall i :: b < i < e ==> !t.shallow(t.indent(lines[b]))(lines[i]))
    && (e < to ==> t.shallow(t.indent(lines[b]))(lines[e]))
  }

  lemma FilterInExactly(t: Patterns, lines: seq<string>, from: nat, to: nat, indent: string)
    requires from <= to <= |lines|
    ensures FilterIn(t, lines, from, to, indent) == [] <==> forall i :: from <= i < to ==> !t.filter(indent)(lines[i])
    ensures FilterIn(t, lines, from, to, indent) != [] ==> exists b: nat, e: nat ::
              IsFilterAt(t, lines, from, to, indent, b, e) && FilterIn(t, lines, from, to, indent) == lines[b..e]
  {
    var b := FirstAt(lines, from, to, t.filter(indent));
    FirstAtIsFirst(lines, from, to, t.filter(indent));
    if b < to {
      var e := FirstAt(lines, b + 1, to, t.shallow(t.indent(lines[b])));
      FirstAtIsFirst(lines, b + 1, to, t.shallow(t.indent(lines[b])));
      assert IsFilterAt(t, lines, from, to, indent, b, e);
    }
  }

  /** The entry copies the filter that is nested in `pull_request`, whole, and nothing if there is none. */
  lemma CopyIsFilterExactly(t: Patterns, lines: seq<string>, p: Place)
    requires PlaceOf(t, lines) == Some(p)
    ensures p.copy == [] <==> forall i :: p.pull < i < p.at ==> !t.filter(p.indent)(lines[i])
    ensures p.copy != [] ==> exists b: nat, e: nat ::
              IsFilterAt(t, lines, p.pull + 1, p.at, p.indent, b, e) && p.copy == lines[b..e]
  {
    PlaceCopy(t, lines, p);
    FilterInExactly(t, lines, p.pull + 1, p.at, p.indent);
  }

  // ------------------------------------------------------------------- what the patterns recognise

  lemma BlankLineExactly(s: string)
    ensures IsBlankLine(s) <==> Every(s, IsBlank)
  {
    RunTakes(s, IsBlank);
    if IsBlankLine(s) {
      assert s[..Run(s, IsBlank)] == s;
    }
    if Every(s, IsBlank) {
      RunOf(s, "", IsBlank);
      assert s + "" == s;
    }
  }

  /** A key at the start of its line, with nothing but blanks behind it. */
  ghost predicate IsBareKey(line: string, key: string) {
    exists rest :: Every(rest, IsBlank) && line == key + rest
  }

  lemma KeyExactly(line: string, key: string)
    ensures IsKey(line, key) <==> IsBareKey(line, key)
  {
    if IsKey(line, key) {
      BlankLineExactly(line[|key|..]);
      assert line == key + line[|key|..];
    }
    if rest :| Every(rest, IsBlank) && line == key + rest {
      assert line[..|key|] == key && line[|key|..] == rest;
      BlankLineExactly(rest);
    }
  }

  /** Blanks, and then something that is no whitespace. */
  ghost predicate IsNested(line: string, blanks: string, text: string) {
    blanks != "" && Every(blanks, IsBlank) && text != "" && !IsSpace(text[0]) && line == blanks + text
  }

  lemma EntryExactly(line: string)
    ensures IsEntry()(line) <==> exists blanks, text :: IsNested(line, blanks, text)
  {
    IndentIsBlank(line);
    if IsEntry()(line) {
      assert IsNested(line, Indent(line), line[|Indent(line)|..]);
    }
    forall blanks, text | IsNested(line, blanks, text)
      ensures IsEntry()(line)
    {
      assert IsSpace(' ') && IsSpace('\t');
      IndentIs(blanks, text);
    }
  }

  /** Below the indent, a `branches:` or a `branches-ignore:`. */
  ghost predicate IsBranches(line: string, indent: string, more: string, key: string) {
    && more != "" && Every(more, IsBlank) && line == indent + (more + key)
    && (StartsWith(key, "branches:") || StartsWith(key, "branches-ignore:"))
  }

  lemma FilterExactly(line: string, indent: string)
    requires Every(indent, IsBlank)
    ensures IsFilter(indent)(line) <==> exists more, key :: IsBranches(line, indent, more, key)
  {
    IndentIsBlank(line);
    if IsFilter(indent)(line) {
      var more, key := Indent(line)[|indent|..], line[|Indent(line)|..];
      assert line == line[..|indent|] + (line[|indent|..|Indent(line)|] + key);
      assert IsBranches(line, indent, more, key);
    }
    forall more, key | IsBranches(line, indent, more, key)
      ensures IsFilter(indent)(line)
    {
      BranchesIndent(line, indent, more, key);
    }
  }

  lemma BranchesIndent(line: string, indent: string, more: string, key: string)
    requires Every(indent, IsBlank) && IsBranches(line, indent, more, key)
    ensures Indent(line) == indent + more && line[|indent + more|..] == key && StartsWith(line, indent)
  {
    assert line == (indent + more) + key;
    KeyStarts(key, "branches:");
    KeyStarts(key, "branches-ignore:");
    IndentIs(indent + more, key);
    assert line[..|indent|] == indent;
  }

  lemma KeyStarts(key: string, word: string)
    requires word != ""
    ensures StartsWith(key, word) ==> key != "" && key[0] == word[0]
  {
    if StartsWith(key, word) {
      StartsWithChar(key, word, 0);
    }
  }

  /**
    The patterns: `on:`, bare or quoted, alone on its line; entries that are indented, and lines that
    are neither indented nor blank; `merge_group:` and `pull_request:` at an indent; and, nested below
    it, the branches filter.
   */
  lemma PatternsExactly(line: string, indent: string)
    requires Every(indent, IsBlank)
    ensures var t := CallerPatterns();
            && (t.on(line) <==> IsBareKey(line, "on:") || IsBareKey(line, "\"on\":") || IsBareKey(line, "'on':"))
            && (t.entry(line) <==> exists blanks, text :: IsNested(line, blanks, text))
            && (t.outside(line) <==> !Every(line, IsBlank) && !exists blanks, text :: IsNested(line, blanks, text))
            && (t.merge(indent)(line) <==> indent + "merge_group:" <= line)
            && (t.pull(indent)(line) <==> indent + "pull_request:" <= line)
            && (t.filter(indent)(line) <==> exists more, key :: IsBranches(line, indent, more, key))
  {
    KeyExactly(line, "on:");
    KeyExactly(line, "\"on\":");
    KeyExactly(line, "'on':");
    EntryExactly(line);
    BlankLineExactly(line);
    FilterExactly(line, indent);
    StartsAsPrefix(line, indent + MERGE_GROUP);
    StartsAsPrefix(line, indent + PULL_REQUEST);
  }

  lemma StartsAsPrefix(s: string, prefix: string)
    ensures StartsWith(s, prefix) <==> prefix <= s
  {}

  // ------------------------------------------------------------------- when and where the entry is added

  /** The bounds of the first block-style `on:`, said without searching. */
  ghost predicate IsOnBlock(t: Patterns, lines: seq<string>, on: nat, to: nat) {
    && on < to <= |lines| && t.on(lines[on]) && (forall i :: 0 <= i < on ==> !t.on(lines[i]))
    && (forall i :: on < i < to ==> !t.outside(lines[i])) && (to < |lines| ==> t.outside(lines[to]))
  }

  /** Its first entry, at the indent of all of them; one of them is for `pull_request`, and none for `merge_group`. */
  ghost predicate LacksMergeGroup(t: Patterns, lines: seq<string>, on: nat, to: nat, first: nat, pull: nat) {
    && on < first < to <= |lines| && t.entry(lines[first]) && (forall i :: on < i < first ==> !t.entry(lines[i]))
    && on < pull < to && t.pull(t.indent(lines[first]))(lines[pull])
    && (forall i :: on < i < pull ==> !t.pull(t.indent(lines[first]))(lines[i]))
    && (forall i :: on < i < to ==> !t.merge(t.indent(lines[first]))(lines[i]))
  }

  lemma LackingIsPlaced(t: Patterns, lines: seq<string>, on: nat, to: nat, first: nat, pull: nat)
    requires IsOnBlock(t, lines, on, to) && LacksMergeGroup(t, lines, on, to, first, pull)
    ensures PlaceOf(t, lines).Some? && PlaceOf(t, lines).value.pull == pull
    ensures PlaceOf(t, lines).value.indent == t.indent(lines[first])
  {
    var indent := t.indent(lines[first]);
    FirstAtIs(lines, 0, |lines|, t.on, on);
    FirstAtIs(lines, on + 1, |lines|, t.outside, to);
    FirstAtIs(lines, on + 1, to, t.entry, first);
    FirstAtIs(lines, on + 1, to, t.merge(indent), to);
    FirstAtIs(lines, on + 1, to, t.pull(indent), pull);
  }

  lemma PlacedIsLacking(t: Patterns, lines: seq<string>) returns (on: nat, to: nat, first: nat, pull: nat)
    requires PlaceOf(t, lines).Some?
    ensures IsOnBlock(t, lines, on, to) && LacksMergeGroup(t, lines, on, to, first, pull)
  {
    on := FirstAt(lines, 0, |lines|, t.on);
    to := FirstAt(lines, on + 1, |lines|, t.outside);
    FirstAtIsFirst(lines, 0, |lines|, t.on);
    FirstAtIsFirst(lines, on + 1, |lines|, t.outside);
    first, pull := InIsLacking(t, lines, on, to);
  }

  lemma InIsLacking(t: Patterns, lines: seq<string>, on: nat, to: nat) returns (first: nat, pull: nat)
    requires on < to <= |lines| && PlaceIn(t, lines, on + 1, to).Some?
    ensures LacksMergeGroup(t, lines, on, to, first, pull)
  {
    first := FirstAt(lines, on + 1, to, t.entry);
    var indent := t.indent(lines[first]);
    pull := FirstAt(lines, on + 1, to, t.pull(indent));
    FirstAtIsFirst(lines, on + 1, to, t.entry);
    FirstAtIsFirst(lines, on + 1, to, t.merge(indent));
    FirstAtIsFirst(lines, on + 1, to, t.pull(indent));
  }

  /**
    An entry is added exactly when the first `on:` block has an entry for `pull_request` and none
    for `merge_group`.
   */
  lemma TriggersExactly(t: Patterns, lines: seq<string>)
    ensures Triggered(t, lines) != lines
       <==> exists on, to, first, pull ::
              IsOnBlock(t, lines, on, to) && LacksMergeGroup(t, lines, on, to, first, pull)
  {
    if PlaceOf(t, lines).Some? {
      var on, to, first, pull := PlacedIsLacking(t, lines);
      assert |Triggered(t, lines)| > |lines|;
    }
    forall on: nat, to: nat, first: nat, pull: nat
      | IsOnBlock(t, lines, on, to) && LacksMergeGroup(t, lines, on, to, first, pull)
      ensures PlaceOf(t, lines).Some?
    {
      LackingIsPlaced(t, lines, on, to, first, pull);
    }
  }

  /** It goes right behind the `pull_request` line and everything nested below it, and starts at the same indent. */
  lemma EntryFollowsPullRequest(lines: seq<string>, p: Place)
    requires PlaceOf(CallerPatterns(), lines) == Some(p)
    ensures StartsWith(lines[p.pull], p.indent + PULL_REQUEST) && AreNested(lines, p.pull + 1, p.at, p.indent)
    ensures AddTrigger(lines) == InsertAt(lines, p.at, [p.indent + MERGE_GROUP] + p.copy)
  {
    var first, b := PlaceIsFound(CallerPatterns(), lines, p);
    PlaceFits(lines, p);
  }
}
