/**
  A caller workflow (scripts/propagate.py, `upsert_workflow`): its pins are bumped, its permissions
  carried forward and its triggers completed, or it is rendered from the template.
 */
module Workflow {
  import opened Wrappers
  import opened Seqs
  import opened Text
  import opened Pins
  import opened Pinned
  import opened PinLines
  import opened Lines
  import opened Permissions
  import opened Trigger
  import opened TriggerLaws

  function CarryBy(needs: seq<string>): seq<string> -> seq<string> {
    lines => Carry(needs, lines)
  }

  function TriggerBy(): seq<string> -> seq<string> {
    lines => AddTrigger(lines)
  }

  /** `add_merge_group_trigger(_carry_forward_permissions(text, kind))`. */
  function Completed(needs: seq<string>, text: string): string {
    OnLines(TriggerBy(), OnLines(CarryBy(needs), text))
  }

  /** `upsert_workflow`, with `rendered` the template filled in. */
  function UpsertWorkflow(
    callees: seq<string>, needs: seq<string>, p: Pin, existing: Option<string>, rendered: string): string
  {
    if existing.Some? && HasPin(callees, existing.value) then Completed(needs, Bump(callees, p, existing.value))
    else rendered
  }

  // ------------------------------------------------------------------- lines stay lines

  lemma BlanksAreNoNewline(indent: string)
    requires Every(indent, IsBlank)
    ensures Without(indent, IsNewline)
  {}

  lemma InsertedAreLines(lines: seq<string>, at: nat, x: seq<string>)
    requires at <= |lines| && AreLines(lines) && AreLines(x)
    ensures AreLines(InsertAt(lines, at, x))
  {}

  lemma AddedAreLines(x: seq<string>, indent: string, needs: seq<string>)
    requires Every(indent, IsBlank) && AreNeeds(needs) && AreAdded(x, indent, needs)
    ensures AreLines(x)
  {
    BlanksAreNoNewline(indent);
    forall line <- x
      ensures Without(line, IsNewline)
    {
      var i :| 0 <= i < |x| && x[i] == line;
      assert IsAdded(x[i], indent, needs);
      var need :| need in needs && line == indent + need;
      WithoutJoins(indent, need, IsNewline);
    }
  }

  lemma CarriedAreLines(needs: seq<string>, lines: seq<string>)
    requires AreNeeds(needs) && AreLines(lines)
    ensures AreLines(Carry(needs, lines))
  {
    var at, x := CarryInserts(needs, lines);
    var indent :| Every(indent, IsBlank) && AreAdded(x, indent, needs);
    AddedAreLines(x, indent, needs);
    InsertedAreLines(lines, at, x);
  }

  lemma EntryAreLines(lines: seq<string>, p: Place)
    requires Fits(lines, p) && AreLines(lines)
    ensures AreLines(Entry(p))
  {
    BlanksAreNoNewline(p.indent);
    WithoutJoins(p.indent, MERGE_GROUP, IsNewline);
    forall i | 0 <= i < |Entry(p)|
      ensures Without(Entry(p)[i], IsNewline)
    {
      if i > 0 {
        var j := EntryLine(lines, p, i);
      }
    }
  }

  lemma TriggeredAreLines(lines: seq<string>)
    requires AreLines(lines)
    ensures AreLines(AddTrigger(lines))
  {
    if PlaceOf(CallerPatterns(), lines).Some? {
      var p := PlaceOf(CallerPatterns(), lines).value;
      PlaceFits(lines, p);
      EntryAreLines(lines, p);
      InsertedAreLines(lines, p.at, Entry(p));
    }
  }

  /** Both edits, on the lines of the text. */
  lemma CompletedLines(needs: seq<string>, text: string)
    requires AreNeeds(needs)
    ensures LinesOf(Completed(needs, text)) == AddTrigger(Carry(needs, LinesOf(text)))
    ensures LastOf(Completed(needs, text)) == LastOf(text)
  {
    var once := OnLines(CarryBy(needs), text);
    TextIsLines(text);
    CarriedAreLines(needs, LinesOf(text));
    EditedLines(CarryBy(needs), text);
    TriggeredAreLines(LinesOf(once));
    EditedLines(TriggerBy(), once);
  }

  // ------------------------------------------------------------------- line by line

  /** A property that a line can only lack because of a part of a call in it. */
  ghost predicate IsAboutCalls(q: string -> bool) {
    forall line :: NoUses(line) && Without(line, IsAt) ==> q(line)
  }

  lemma PinsAreAboutCalls(callees: seq<string>)
    requires AreCallees(callees)
    ensures IsAboutCalls(StaysInLine()) && IsAboutCalls(StartsNoCall(callees))
  {
    forall line | Without(line, IsAt)
      ensures !StartsCallee(callees, line)
    {
      NoAtNoCallee(callees, line);
    }
  }

  lemma NoAtNoCallee(callees: seq<string>, line: string)
    requires AreCallees(callees) && Without(line, IsAt)
    ensures !StartsCallee(callees, line)
  {
    if StartsCallee(callees, line) {
      var g, c := StartsBehind(callees, line);
      CalleeHasAt(line, g, c);
    }
  }

  lemma CalleeHasAt(line: string, g: nat, c: string)
    requires IsCallee(c) && CalleeBehind(line, g, c)
    ensures !Without(line, IsAt)
  {
    assert IsAt(line[g + (|c| - 1)]);
  }

  lemma NoUsesIndented(indent: string, s: string)
    requires Every(indent, IsBlank) && NoUses(s)
    ensures NoUses(indent + s)
  {
    forall i: nat | i <= |indent + s|
      ensures !StartsWith((indent + s)[i..], USES)
    {
      if i < |indent| {
        UsesChar(indent + s, i, 0);
      } else {
        assert (indent + s)[i..] == s[i - |indent|..];
      }
    }
  }

  lemma NoAtIndented(indent: string, s: string)
    requires Every(indent, IsBlank) && Without(s, IsAt)
    ensures Without(indent + s, IsAt)
  {
    WithoutJoins(indent, s, IsAt);
  }

  lemma InsertedHave(lines: seq<string>, at: nat, x: seq<string>, q: string -> bool)
    requires at <= |lines| && Have(lines, q) && Have(x, q)
    ensures Have(InsertAt(lines, at, x), q)
  {}

  lemma AddedHave(x: seq<string>, indent: string, needs: seq<string>, q: string -> bool)
    requires Every(indent, IsBlank) && AreNeeds(needs) && AreAdded(x, indent, needs) && IsAboutCalls(q)
    ensures Have(x, q)
  {
    forall line <- x
      ensures q(line)
    {
      var i :| 0 <= i < |x| && x[i] == line;
      assert IsAdded(x[i], indent, needs);
      var need :| need in needs && line == indent + need;
      NoUsesIndented(indent, need);
      NoAtIndented(indent, need);
    }
  }

  lemma CarriedHave(needs: seq<string>, lines: seq<string>, q: string -> bool)
    requires AreNeeds(needs) && Have(lines, q) && IsAboutCalls(q)
    ensures Have(Carry(needs, lines), q)
  {
    var at, x := CarryInserts(needs, lines);
    var indent :| Every(indent, IsBlank) && AreAdded(x, indent, needs);
    AddedHave(x, indent, needs, q);
    InsertedHave(lines, at, x, q);
  }

  lemma MergeLineHas(indent: string, q: string -> bool)
    requires Every(indent, IsBlank) && IsAboutCalls(q)
    ensures q(indent + MERGE_GROUP)
  {
    NoUsNoUses(MERGE_GROUP);
    NoUsesIndented(indent, MERGE_GROUP);
    NoAtIndented(indent, MERGE_GROUP);
  }

  lemma EntryHave(lines: seq<string>, place: Place, q: string -> bool)
    requires Fits(lines, place) && Have(lines, q) && IsAboutCalls(q)
    ensures Have(Entry(place), q)
  {
    MergeLineHas(place.indent, q);
    forall i | 0 <= i < |Entry(place)|
      ensures q(Entry(place)[i])
    {
      if i > 0 {
        var j := EntryLine(lines, place, i);
      }
    }
  }

  lemma TriggeredHave(lines: seq<string>, q: string -> bool)
    requires Have(lines, q) && IsAboutCalls(q)
    ensures Have(AddTrigger(lines), q)
  {
    if PlaceOf(CallerPatterns(), lines).Some? {
      var place := PlaceOf(CallerPatterns(), lines).value;
      PlaceFits(lines, place);
      EntryHave(lines, place, q);
      InsertedHave(lines, place.at, Entry(place), q);
    }
  }

  /** What holds of every line, and of every line with no part of a call, holds of every line after both edits. */
  lemma CompletedHave(needs: seq<string>, lines: seq<string>, q: string -> bool)
    requires AreNeeds(needs) && Have(lines, q) && IsAboutCalls(q)
    ensures Have(AddTrigger(Carry(needs, lines)), q)
  {
    CarriedHave(needs, lines, q);
    TriggeredHave(Carry(needs, lines), q);
  }

  // ------------------------------------------------------------------- the pin stays

  lemma {:induction false} BumpedHasPin(callees: seq<string>, p: Pin, s: string)
    requires AreCallees(callees) && IsPin(p) && HasPin(callees, s)
    ensures HasPin(callees, Bump(callees, p, s))
    decreases |s|
  {
    match PinAt(callees, s) {
      case None =>
        NoMatchWithoutU(callees, "");
        BumpedHasPin(callees, p, s[1..]);
        var t := [s[0]] + Bump(callees, p, s[1..]);
        assert t[1..] == Bump(callees, p, s[1..]);
      case Some(m) =>
        BumpedStartsWithPin(callees, p, s, m);
    }
  }

  lemma BumpedStartsWithPin(callees: seq<string>, p: Pin, s: string, m: Match)
    requires AreCallees(callees) && IsPin(p) && PinAt(callees, s) == Some(m)
    ensures PinAt(callees, Bump(callees, p, s)).Some?
  {
    var prefix, tail := s[..m.prefix], PinText(p) + Bump(callees, p, s[m.end..]);
    MatchParts(callees, s);
    BumpAtMatch(callees, p, s, m, prefix, s[m.end..]);
    RefOfPin(p, Bump(callees, p, s[m.end..]));
    PinAfterPrefix(callees, prefix, tail);
  }
}
