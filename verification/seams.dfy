/**
  What an insertion does to the calls around it (scripts/propagate.py, `upsert_workflow`): it tears a
  call only where it comes between a `uses:` and what is called, and makes one only below a copied
  filter that ends in `uses:`.
 */
module Seams {
  import opened Wrappers
  import opened Seqs
  import opened Text
  import opened Pins
  import opened Pinned
  import opened PinLines
  import opened Lines
  import opened Permissions
  import opened Trigger
  import opened TriggerLaws
  import opened Workflow

  // ------------------------------------------------------------------- texts without a call

  lemma NoUsesIsPinned(callees: seq<string>, p: Pin, s: string)
    requires NoUses(s)
    ensures AllPinned(callees, p, s) && !Dangles(s)
  {}

  lemma NoUsesAhead(line: string, rest: string, i: nat)
    requires i <= |line| && NoUses(line)
    ensures !StartsWith((line + "\n" + rest)[i..], USES)
  {
    var t := line + "\n" + rest;
    if |line| - i >= |USES| {
      assert t[i..][..|USES|] == line[i..][..|USES|];
    } else {
      UsesChar(t, i, |line| - i);
    }
  }

  lemma {:induction false} NoUsesInLines(lines: seq<string>)
    requires forall line <- lines :: NoUses(line)
    ensures NoUses(Unlines(lines))
  {
    if lines != [] {
      var rest := Unlines(lines[1..]);
      NoUsesInLines(lines[1..]);
      forall i: nat | i <= |Unlines(lines)|
        ensures !StartsWith(Unlines(lines)[i..], USES)
      {
        if i <= |lines[0]| {
          NoUsesAhead(lines[0], rest, i);
        } else {
          assert Unlines(lines)[i..] == rest[i - |lines[0]| - 1..];
        }
      }
    }
  }

  /** A line with some text and no `@` in it: what follows is not what is called. */
  lemma TextAhead(callees: seq<string>, line: string, rest: string)
    requires AreCallees(callees) && Without(line, IsAt) && AfterSpace(line) != ""
    ensures !StartsCallee(callees, line + "\n" + rest)
  {
    NoAtNoCallee(callees, line);
    var gap, a := line[..Run(line, IsSpace)], AfterSpace(line);
    RunTakes(line, IsSpace);
    assert line + "\n" + rest == gap + (a + "\n" + rest);
    AfterSpaceOf(gap, a + "\n" + rest);
    CalleeInLine(callees, a, rest);
  }

  lemma IndentedHasText(indent: string, s: string)
    requires Every(indent, IsBlank) && s != "" && !IsSpace(s[0])
    ensures AfterSpace(indent + s) != ""
  {
    AfterSpaceOf(indent, s);
  }

  // ------------------------------------------------------------------- an insertion

  /** Lines put between two parts of a text, neither joining nor tearing a call. */
  lemma InsertedIsPinned(callees: seq<string>, p: Pin, a: string, x: string, b: string)
    requires AreCallees(callees) && IsPin(p) && EndsLine(a) && EndsLine(x)
    requires !Joins(callees, a, b) && !Joins(callees, a, x + b) && !Joins(callees, x, b)
    requires AllPinned(callees, p, a + b) ==> AllPinned(callees, p, x)
    ensures AllPinned(callees, p, a + (x + b)) <==> AllPinned(callees, p, a + b)
    ensures HasPin(callees, a + b) ==> HasPin(callees, a + (x + b))
  {
    PinnedInParts(callees, p, a, b);
    PinnedInParts(callees, p, a, x + b);
    PinnedInParts(callees, p, x, b);
  }

  lemma InsertedText(lines: seq<string>, at: nat, x: seq<string>, last: string)
    requires at <= |lines|
    ensures Unlines(lines) + last == Unlines(lines[..at]) + (Unlines(lines[at..]) + last)
    ensures Unlines(InsertAt(lines, at, x)) + last
         == Unlines(lines[..at]) + (Unlines(x) + (Unlines(lines[at..]) + last))
  {
    assert lines == lines[..at] + lines[at..];
    UnlinesSplits(lines[..at], lines[at..]);
    Rejoin(Unlines(lines[..at]), Unlines(lines[at..]), last);
    UnlinesSplits(lines[..at] + x, lines[at..]);
    UnlinesSplits(lines[..at], x);
    Regrouped(Unlines(lines[..at]), Unlines(x), Unlines(lines[at..]), last);
  }

  lemma Regrouped(a: string, b: string, c: string, d: string)
    ensures a + b + c + d == a + (b + (c + d))
  {}

  /** The lines above a place, and the text below it. */
  ghost predicate JoinsAt(callees: seq<string>, lines: seq<string>, last: string, at: nat)
    requires at <= |lines|
  {
    Joins(callees, Unlines(lines[..at]), Unlines(lines[at..]) + last)
  }

  // ------------------------------------------------------------------- the permissions

  /** An added permission would come between a `uses:` and what is called. */
  ghost predicate CarryTears(callees: seq<string>, needs: seq<string>, lines: seq<string>, last: string) {
    && !IsComplete(needs, lines)
    && JoinsAt(callees, lines, last, BlockEnd(lines, FirstBlock(lines, 0)))
  }

  lemma AddedAhead(callees: seq<string>, indent: string, needs: seq<string>, x: seq<string>, below: string)
    requires AreCallees(callees) && Every(indent, IsBlank) && AreNeeds(needs) && AreAdded(x, indent, needs) && x != []
    ensures NoUses(Unlines(x)) && !StartsCallee(callees, Unlines(x) + below)
  {
    forall line <- x
      ensures NoUses(line) && Without(line, IsAt) && AfterSpace(line) != ""
    {
      var i :| 0 <= i < |x| && x[i] == line;
      assert IsAdded(x[i], indent, needs);
      var need :| need in needs && line == indent + need;
      NoUsesIndented(indent, need);
      NoAtIndented(indent, need);
      IndentedHasText(indent, need);
    }
    NoUsesInLines(x);
    assert x[0] in x;
    TextAhead(callees, x[0], Unlines(x[1..]) + below);
    UnlinesAhead(x, below);
  }

  lemma CarriedIsPinned(callees: seq<string>, needs: seq<string>, p: Pin, lines: seq<string>, last: string)
    requires AreCallees(callees) && AreNeeds(needs) && IsPin(p) && !CarryTears(callees, needs, lines, last)
    ensures AllPinned(callees, p, Unlines(Carry(needs, lines)) + last) <==> AllPinned(callees, p, Unlines(lines) + last)
    ensures HasPin(callees, Unlines(lines) + last) ==> HasPin(callees, Unlines(Carry(needs, lines)) + last)
  {
    if IsComplete(needs, lines) {
      CompleteIsStable(needs, lines);
    } else {
      var k := FirstBlock(lines, 0);
      var e := BlockEnd(lines, k);
      var x := AddedToBody(needs, lines[k + 1..e]);
      CarryIs(needs, lines, k, e, x);
      var indent :| Every(indent, IsBlank) && AreAdded(x, indent, needs);
      AddedIsPinned(callees, needs, p, lines, last, e, x, indent);
    }
  }

  lemma AddedIsPinned(
      callees: seq<string>, needs: seq<string>, p: Pin, lines: seq<string>, last: string, at: nat, x: seq<string>,
      indent: string)
    requires AreCallees(callees) && AreNeeds(needs) && IsPin(p) && at <= |lines| && x != []
    requires Every(indent, IsBlank) && AreAdded(x, indent, needs) && !JoinsAt(callees, lines, last, at)
    ensures AllPinned(callees, p, Unlines(InsertAt(lines, at, x)) + last)
       <==> AllPinned(callees, p, Unlines(lines) + last)
    ensures HasPin(callees, Unlines(lines) + last) ==> HasPin(callees, Unlines(InsertAt(lines, at, x)) + last)
  {
    var a, b := Unlines(lines[..at]), Unlines(lines[at..]) + last;
    AddedAhead(callees, indent, needs, x, b);
    NoUsesIsPinned(callees, p, Unlines(x));
    UnlinesEndsLine(lines[..at]);
    UnlinesEndsLine(x);
    InsertedIsPinned(callees, p, a, Unlines(x), b);
    InsertedText(lines, at, x, last);
  }

  // ------------------------------------------------------------------- the trigger

  /** The entry would come between a `uses:` and what is called, or its filter would end in such a `uses:`. */
  ghost predicate TriggerTears(callees: seq<string>, lines: seq<string>, last: string) {
    match PlaceOf(CallerPatterns(), lines)
    case None => false
    case Some(place) =>
      || JoinsAt(callees, lines, last, place.at)
      || Joins(callees, Unlines(place.copy), Unlines(lines[place.at..]) + last)
  }

  /** A `uses:` that ends a text does not stand above its lines. */
  lemma DanglesBelow(line: string, rest: string)
    requires NoUses(line) && Dangles(line + "\n" + rest)
    ensures Dangles(rest)
  {
    var t := line + "\n" + rest;
    var i: nat :| i <= |t| && DanglesAt(t, i);
    if i <= |line| {
      NoUsesAhead(line, rest, i);
    }
    DanglesBehind(line + "\n", rest, i);
  }

  /** The copied filter is pinned as the text it was copied from is. */
  lemma CopyIsPinned(callees: seq<string>, p: Pin, lines: seq<string>, last: string, place: Place)
    requires AreCallees(callees) && IsPin(p) && Fits(lines, place)
    requires AllPinned(callees, p, Unlines(lines) + last)
    ensures AllPinned(callees, p, Unlines(place.copy))
  {
    var b: nat :| IsCopy(lines, place, b);
    var n := b + |place.copy|;
    InsertedText(lines, b, [], last);
    var rest := lines[b..];
    InsertedText(rest, |place.copy|, [], last);
    assert rest[..|place.copy|] == place.copy;
    var below := Unlines(rest) + last;
    PinnedFrom(callees, p, Unlines(lines) + last, |Unlines(lines[..b])|);
    assert (Unlines(lines) + last)[|Unlines(lines[..b])|..] == below;
    UnlinesEndsLine(place.copy);
    PinnedUpTo(callees, p, Unlines(place.copy), Unlines(rest[|place.copy|..]) + last);
  }

  /** The text of an entry: its line, and its copied filter. */
  lemma EntryText(place: Place)
    ensures Unlines(Entry(place)) == place.indent + MERGE_GROUP + "\n" + Unlines(place.copy)
  {
    assert Entry(place)[1..] == place.copy;
  }

  lemma MergeLine(callees: seq<string>, indent: string, below: string)
    requires AreCallees(callees) && Every(indent, IsBlank)
    ensures NoUses(indent + MERGE_GROUP) && !StartsCallee(callees, indent + MERGE_GROUP + "\n" + below)
  {
    NoUsNoUses(MERGE_GROUP);
    NoUsesIndented(indent, MERGE_GROUP);
    NoAtIndented(indent, MERGE_GROUP);
    IndentedHasText(indent, MERGE_GROUP);
    TextAhead(callees, indent + MERGE_GROUP, below);
  }

  lemma EntryIsPinned(callees: seq<string>, p: Pin, place: Place)
    requires AreCallees(callees) && IsPin(p) && Every(place.indent, IsBlank)
    requires AllPinned(callees, p, Unlines(place.copy))
    ensures AllPinned(callees, p, Unlines(Entry(place)))
  {
    var line := place.indent + MERGE_GROUP;
    MergeLine(callees, place.indent, "");
    NoUsesIsPinned(callees, p, line);
    EntryText(place);
    PinnedByLine(callees, p, line, Unlines(place.copy));
  }

  lemma EntryKeepsCalls(callees: seq<string>, place: Place, above: string, below: string)
    requires AreCallees(callees) && Every(place.indent, IsBlank) && !Joins(callees, Unlines(place.copy), below)
    ensures !Joins(callees, above, Unlines(Entry(place)) + below) && !Joins(callees, Unlines(Entry(place)), below)
  {
    var line, copy := place.indent + MERGE_GROUP, Unlines(place.copy);
    MergeLine(callees, place.indent, copy + below);
    EntryText(place);
    Rejoin(line + "\n", copy, below);
    if Dangles(line + "\n" + copy) {
      DanglesBelow(line, copy);
    }
  }

  lemma TriggeredIsPinned(callees: seq<string>, p: Pin, lines: seq<string>, last: string)
    requires AreCallees(callees) && IsPin(p) && !TriggerTears(callees, lines, last)
    ensures AllPinned(callees, p, Unlines(AddTrigger(lines)) + last) <==> AllPinned(callees, p, Unlines(lines) + last)
    ensures HasPin(callees, Unlines(lines) + last) ==> HasPin(callees, Unlines(AddTrigger(lines)) + last)
  {
    if PlaceOf(CallerPatterns(), lines).Some? {
      var place := PlaceOf(CallerPatterns(), lines).value;
      PlaceFits(lines, place);
      PlacedIsPinned(callees, p, lines, last, place);
    }
  }

  lemma PlacedIsPinned(callees: seq<string>, p: Pin, lines: seq<string>, last: string, place: Place)
    requires AreCallees(callees) && IsPin(p) && Fits(lines, place) && !JoinsAt(callees, lines, last, place.at)
    requires !Joins(callees, Unlines(place.copy), Unlines(lines[place.at..]) + last)
    ensures AllPinned(callees, p, Unlines(Placed(lines, place)) + last)
       <==> AllPinned(callees, p, Unlines(lines) + last)
    ensures HasPin(callees, Unlines(lines) + last) ==> HasPin(callees, Unlines(Placed(lines, place)) + last)
  {
    var a, x, b := Unlines(lines[..place.at]), Unlines(Entry(place)), Unlines(lines[place.at..]) + last;
    EntryKeepsCalls(callees, place, a, b);
    InsertedText(lines, place.at, Entry(place), last);
    if AllPinned(callees, p, a + b) {
      CopyIsPinned(callees, p, lines, last, place);
      EntryIsPinned(callees, p, place);
    }
    UnlinesEndsLine(lines[..place.at]);
    UnlinesEndsLine(Entry(place));
    InsertedIsPinned(callees, p, a, x, b);
  }

  // ------------------------------------------------------------------- both

  /** Neither insertion comes between a `uses:` and what is called, nor puts a `uses:` above it. */
  ghost predicate KeepsCalls(callees: seq<string>, needs: seq<string>, text: string) {
    && !CarryTears(callees, needs, LinesOf(text), LastOf(text))
    && !TriggerTears(callees, Carry(needs, LinesOf(text)), LastOf(text))
  }

  /** Then the two insertions leave a text as pinned as it was, and keep its pins. */
  lemma CompletedIsPinnedExactly(callees: seq<string>, needs: seq<string>, p: Pin, text: string)
    requires AreCallees(callees) && AreNeeds(needs) && IsPin(p) && KeepsCalls(callees, needs, text)
    ensures AllPinned(callees, p, Completed(needs, text)) <==> AllPinned(callees, p, text)
    ensures HasPin(callees, text) ==> HasPin(callees, Completed(needs, text))
  {
    var lines, last := LinesOf(text), LastOf(text);
    TextIsLines(text);
    CompletedLines(needs, text);
    TextIsLines(Completed(needs, text));
    CarriedIsPinned(callees, needs, p, lines, last);
    TriggeredIsPinned(callees, p, Carry(needs, lines), last);
  }

  // ------------------------------------------------------------------- lines that are not entangled

  lemma DanglesAhead(line: string, rest: string, i: nat)
    requires i <= |line| && DanglesAt(line + "\n" + rest, i)
    ensures Dangles(line)
  {
    var t := line + "\n" + rest;
    UsesChar(t, i, if |line| - i < |USES| then |line| - i else 0);
    assert t[i..][..|USES|] == line[i..][..|USES|];
    forall k | i + |USES| <= k < |line|
      ensures IsSpace(line[k])
    {
      assert t[k] == line[k];
    }
    assert DanglesAt(line, i);
  }

  lemma {:induction false} DanglingLine(lines: seq<string>)
    requires Dangles(Unlines(lines))
    ensures !Have(lines, StaysInLine())
  {
    if lines != [] {
      var t, rest := Unlines(lines), Unlines(lines[1..]);
      var i: nat :| i <= |t| && DanglesAt(t, i);
      if i <= |lines[0]| {
        DanglesAhead(lines[0], rest, i);
        assert !StaysInLine()(lines[0]);
      } else {
        DanglesBehind(lines[0] + "\n", rest, i);
        DanglingLine(lines[1..]);
        HaveFirst(lines, StaysInLine());
      }
    }
  }

  /** Where no line dangles, or none starts with a callee, no two parts are joined. */
  lemma ApartJoinsNothing(callees: seq<string>, above: seq<string>, below: seq<string>, last: string)
    requires AreCallees(callees)
    requires Have(above, StaysInLine()) || (Have(below, StartsNoCall(callees)) && !StartsCallee(callees, last))
    ensures !Joins(callees, Unlines(above), Unlines(below) + last)
  {
    if Dangles(Unlines(above)) {
      DanglingLine(above);
    }
    if Have(below, StartsNoCall(callees)) && !StartsCallee(callees, last) {
      NoCalleeAhead(callees, below, last);
    }
  }

  lemma HavePart(lines: seq<string>, q: string -> bool, part: seq<string>)
    requires Have(lines, q) && forall line <- part :: line in lines
    ensures Have(part, q)
  {}

  lemma ApartAt(callees: seq<string>, lines: seq<string>, last: string, above: seq<string>, below: seq<string>)
    requires AreCallees(callees) && Apart(callees, lines, last)
    requires forall line <- above + below :: line in lines
    ensures !Joins(callees, Unlines(above), Unlines(below) + last)
  {
    assert forall line :: line in above || line in below ==> line in above + below;
    if Have(lines, StaysInLine()) {
      HavePart(lines, StaysInLine(), above);
    } else {
      HavePart(lines, StartsNoCall(callees), below);
    }
    ApartJoinsNothing(callees, above, below, last);
  }

  lemma ApartStays(callees: seq<string>, needs: seq<string>, lines: seq<string>, last: string)
    requires AreCallees(callees) && AreNeeds(needs) && Apart(callees, lines, last)
    ensures Apart(callees, Carry(needs, lines), last)
  {
    PinsAreAboutCalls(callees);
    if Have(lines, StaysInLine()) {
      CarriedHave(needs, lines, StaysInLine());
    } else {
      CarriedHave(needs, lines, StartsNoCall(callees));
    }
  }

  /** So in a text whose lines are not entangled no call is torn, wherever the insertions go. */
  lemma ApartKeepsCalls(callees: seq<string>, needs: seq<string>, text: string)
    requires AreCallees(callees) && AreNeeds(needs) && !Entangled(callees, text)
    ensures KeepsCalls(callees, needs, text)
  {
    var lines, last := LinesOf(text), LastOf(text);
    if !IsComplete(needs, lines) {
      var e := BlockEnd(lines, FirstBlock(lines, 0));
      ApartAt(callees, lines, last, lines[..e], lines[e..]);
    }
    ApartStays(callees, needs, lines, last);
    ApartTriggers(callees, Carry(needs, lines), last);
  }

  lemma ApartTriggers(callees: seq<string>, lines: seq<string>, last: string)
    requires AreCallees(callees) && Apart(callees, lines, last)
    ensures !TriggerTears(callees, lines, last)
  {
    if PlaceOf(CallerPatterns(), lines).Some? {
      var place := PlaceOf(CallerPatterns(), lines).value;
      PlaceFits(lines, place);
      var b: nat :| IsCopy(lines, place, b);
      ApartAt(callees, lines, last, lines[..place.at], lines[place.at..]);
      ApartAt(callees, lines, last, place.copy, lines[place.at..]);
    }
  }
}
