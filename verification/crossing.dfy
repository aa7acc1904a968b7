/**
  A caller that `upsert_workflow` does not settle (scripts/propagate.py, `upsert_workflow`): a call
  that goes on in the next line is torn apart by an inserted line, and its pin is lost.
 */
module Crossing {
  import opened Wrappers
  import opened Seqs
  import opened Text
  import opened Pins
  import opened Pinned
  import opened Lines
  import opened Permissions
  import opened Trigger
  import opened Workflow
  import opened WorkflowLaws

  const HEADER := " permissions:"
  const OPEN := "  x: "
  const ADDED := "  contents: read"

  /** A `permissions:` block whose only line ends in `uses:`, and the callee in the line below. */
  function Torn(callee: string): string {
    Unlines([HEADER, OPEN + USES]) + (callee + "o")
  }

  predicate IsU(c: char) {
    c == 'u'
  }

  /** A start without a `u` has no part in any match. */
  lemma {:induction false} BumpBehind(callees: seq<string>, p: Pin, a: string, s: string)
    requires Without(a, IsU)
    ensures Bump(callees, p, a + s) == a + Bump(callees, p, s)
    ensures HasPin(callees, a + s) <==> HasPin(callees, s)
    ensures Glued(callees, a + s) == Glued(callees, s)
  {
    if a == "" {
      assert a + s == s;
    } else {
      assert (a + s)[1..] == a[1..] + s && (a + s)[0] == a[0];
      NoMatchWithoutU(callees, a + s);
      BumpBehind(callees, p, a[1..], s);
      assert [a[0]] + (a[1..] + Bump(callees, p, s)) == a + Bump(callees, p, s);
    }
  }

  lemma TornIs(callee: string, last: string)
    ensures Unlines([HEADER, OPEN + USES]) + (callee + last) == HEADER + "\n" + OPEN + (USES + "\n" + callee + last)
  {
    assert [HEADER, OPEN + USES][1..] == [OPEN + USES];
    assert [OPEN + USES][1..] == [];
    assert Unlines([OPEN + USES]) == OPEN + USES + "\n" + "";
  }

  lemma TornIsBumped(callees: seq<string>, p: Pin, callee: string)
    requires AreCallees(callees) && callee in callees && IsPin(p)
    ensures HasPin(callees, Torn(callee)) && Glued(callees, Torn(callee)) == 0
    ensures Bump(callees, p, Torn(callee)) == Unlines([HEADER, OPEN + USES]) + (callee + PinText(p))
  {
    var a, prefix := HEADER + "\n" + OPEN, USES + "\n" + callee;
    var s := prefix + "o";
    TornIs(callee, "o");
    TornIs(callee, PinText(p));
    BumpBehind(callees, p, a, s);
    CalleePrefix(callees, callee);
    OneLetterRef();
    PinAfterPrefix(callees, prefix, "o");
    BumpAfterPrefix(callees, p, prefix, "o", 1);
    assert s[|s|..] == "";
    assert PinText(p) + "" == PinText(p);
    assert a + (prefix + PinText(p)) == HEADER + "\n" + OPEN + (USES + "\n" + callee + PinText(p));
  }

  lemma OneLetterRef()
    ensures RefAt("o") == 1
  {
    assert Run("", IsRefChar) == 0;
    assert "o"[1..] == "";
    assert CommentAt("") == 0;
  }

  lemma CalleePrefix(callees: seq<string>, callee: string)
    requires AreCallees(callees) && callee in callees
    ensures PrefixAt(callees, USES + "\n" + callee) == Some(|USES + "\n" + callee|)
  {
    PrefixOf(callees, "\n", callee, "");
    assert USES + "\n" + callee + "" == USES + "\n" + callee;
  }

  // ------------------------------------------------------------------- the permission is added in between

  lemma IndentOf(n: nat, rest: string)
    requires n <= 2 && rest != "" && !IsBlank(rest[0])
    ensures Indent("  "[..n] + rest) == "  "[..n]
  {
    IndentIs("  "[..n], rest);
  }

  lemma TornBlock(lines: seq<string>, head: string, line: string)
    requires lines == [head, line] && head == HEADER && line == OPEN + USES
    ensures BlockIs(lines)
  {
    TornIndent();
    assert head == "  "[..1] + PERMISSIONS && "  "[..1] == " ";
    IndentOf(1, PERMISSIONS);
    assert HasText(line) && line[..1] == " ";
    FirstIsBlock(lines);
  }

  lemma FirstIsBlock(lines: seq<string>)
    requires |lines| == 2 && BlockAt(lines, 0)
    ensures BlockIs(lines)
  {
    BlockEndIs(lines, 0, 2);
  }

  lemma TornLacksContents()
    ensures !Grants(OPEN + USES, "contents")
  {
    var line := OPEN + USES;
    SplitWithout(line, IsLineBreak);
    assert line == "  " + "x: uses:";
    StripIndented("  ", "x: uses:");
    assert "x: uses:"[0] == 'x';
    KeyOfX();
  }

  lemma KeyOfX()
    ensures BeforeColon("x: uses:") == "x"
  {
    RunOf("x", ": uses:", IsNoColon);
    assert "x: uses:" == "x" + ": uses:";
    assert Run(": uses:", IsNoColon) == 0;
  }

  lemma KeyOfContents()
    ensures BeforeColon("contents: read") == "contents"
  {
    RunOf("contents", ": read", IsNoColon);
    assert "contents: read" == "contents" + ": read";
    assert Run(": read", IsNoColon) == 0;
  }

  lemma OneKept(need: string, p: string -> bool)
    requires p(need)
    ensures KeepIf([need], p) == [need]
  {
    assert [need][..0] == [] && KeepIf([need][..0], p) == [];
  }

  lemma OneAdded(needs: seq<string>, need: string, body: seq<string>, line: string)
    requires needs == [need] && body == [line] && !Grants(line, BeforeColon(need))
    ensures Added(needs, body) == [Indent(line) + need]
  {
    OneKept(need, Lacks(body));
  }

  lemma TornLacks(line: string, need: string)
    requires line == OPEN + USES && need == "contents: read"
    ensures !Grants(line, BeforeColon(need))
  {
    TornLacksContents();
    KeyOfContents();
  }

  lemma CarriedOne(needs: seq<string>, lines: seq<string>, need: string, line: string, x: string)
    requires |lines| == 2 && BlockAt(lines, 0) && FirstBlock(lines, 0) == 0 && BlockEnd(lines, 0) == 2
    requires needs == [need] && lines[1] == line && !Grants(line, BeforeColon(need)) && Indent(line) + need == x
    ensures Carry(needs, lines) == InsertAt(lines, 2, [x])
  {
    OneAdded(needs, need, lines[1..2], line);
    CarryIs(needs, lines, 0, 2, [x]);
  }

  lemma TornIsCarried(needs: seq<string>, lines: seq<string>, need: string, line: string, x: string)
    requires BlockIs(lines) && needs == [need] && LacksOne(lines[1], line, need, x)
    ensures Carry(needs, lines) == InsertAt(lines, 2, [x])
  {
    CarriedOne(needs, lines, need, line, x);
  }

  ghost predicate BlockIs(lines: seq<string>) {
    |lines| == 2 && BlockAt(lines, 0) && FirstBlock(lines, 0) == 0 && BlockEnd(lines, 0) == 2
  }

  ghost predicate LacksOne(first: string, line: string, need: string, x: string) {
    first == line && !Grants(line, BeforeColon(need)) && Indent(line) + need == x
  }

  lemma TornIndent()
    ensures Indent(OPEN + USES) == "  "
  {
    assert OPEN + USES == "  "[..2] + "x: uses:";
    IndentOf(2, "x: uses:");
    assert "  "[..2] == "  ";
  }

  lemma TornLacksOne(line: string, need: string, x: string)
    requires line == OPEN + USES && need == "contents: read" && x == ADDED
    ensures LacksOne(line, line, need, x)
  {
    TornLacks(line, need);
    TornIndent();
    AddedIs(Indent(line), need, x);
  }

  lemma AddedIs(indent: string, need: string, x: string)
    requires indent == "  " && need == "contents: read" && x == ADDED
    ensures indent + need == x
  {}

  lemma InsertLast(lines: seq<string>, line: string)
    ensures InsertAt(lines, |lines|, [line]) == lines + [line]
  {}

  lemma NothingToTrigger(t: Patterns, lines: seq<string>)
    requires forall i :: 0 <= i < |lines| ==> !t.on(lines[i])
    ensures Triggered(t, lines) == lines
  {
    FirstAtIs(lines, 0, |lines|, t.on, |lines|);
  }

  lemma NoTrigger(lines: seq<string>)
    requires forall i :: 0 <= i < |lines| ==> lines[i] != "" && lines[i][0] == ' '
    ensures AddTrigger(lines) == lines
  {
    forall i | 0 <= i < |lines|
      ensures !CallerPatterns().on(lines[i])
    {
      StartsWithBlank(lines[i]);
    }
    NothingToTrigger(CallerPatterns(), lines);
  }

  lemma StartsWithBlank(line: string)
    requires line != "" && line[0] == ' '
    ensures !IsOn()(line)
  {}

  // ------------------------------------------------------------------- the pin is lost

  /** The text behind `x: ` once the permission is added. */
  function Lost(callee: string, p: Pin): string {
    USES + "\n" + ADDED + "\n" + callee + PinText(p)
  }

  lemma LostHasNoPin(callees: seq<string>, p: Pin, callee: string)
    requires AreCallees(callees) && callee in callees && IsPin(p)
    ensures !HasPin(callees, Lost(callee, p))
  {
    var s := Lost(callee, p);
    if PrefixAt(callees, s).Some? {
      PrefixColon(callees, s);
      LostHead(callee, p);
    }
    assert s[0..] == s;
    forall i: nat | 0 < i <= |s|
      ensures PinAt(callees, s[i..]).None?
    {
      UsesChar(s, i, 0);
      UsesChar(s, i, 4);
      LostColon(callee, p, i);
    }
    NoPinAnywhere(callees, s);
  }

  /** Up to its second colon the text has no `@`. */
  lemma LostHead(callee: string, p: Pin)
    ensures var s := Lost(callee, p);
            |s| > 16 && s[16] == ':' && forall i :: 0 <= i <= 16 ==> s[i] != '@'
  {
    var head := USES + "\n" + ADDED;
    assert head == "uses:\n  contents: read";
    assert forall i :: 0 <= i < |head| ==> Lost(callee, p)[i] == head[i];
  }

  /** No colon of the text but the first has a `u` four characters before it. */
  lemma LostColon(callee: string, p: Pin, i: nat)
    requires IsCallee(callee) && IsPin(p) && 0 < i
    ensures var s := Lost(callee, p);
            i + 4 < |s| && s[i + 4] == ':' ==> s[i] != 'u'
  {
    HeadColon(i);
    JoinedColon(USES + "\n" + ADDED + "\n", callee, PinText(p), i);
    forall k | 0 <= k < |PinText(p)|
      ensures PinText(p)[k] != ':'
    {
      var n := |p.sha|;
      assert PinText(p)[k] == if k < n then p.sha[k] else if k < n + 3 then " # "[k - n] else p.tag[k - n - 3];
    }
  }

  lemma HeadColon(i: nat)
    ensures var head := USES + "\n" + ADDED + "\n";
            0 < i && i + 4 < |head| && head[i + 4] == ':' ==> head[i] != 'u'
  {
    assert USES + "\n" + ADDED + "\n" == "uses:\n  contents: read\n";
  }

  lemma JoinedColon(a: string, b: string, c: string, i: nat)
    ensures var s := a + b + c;
            i + 4 < |s| && s[i + 4] == ':' ==>
              (i + 4 < |a| && a[i + 4] == ':' && s[i] == a[i])
              || (exists k :: 0 <= k < |b| && b[k] == ':') || (exists k :: 0 <= k < |c| && c[k] == ':')
  {
    var s := a + b + c;
    if i + 4 < |a| {
      assert s[i + 4] == a[i + 4] && s[i] == a[i];
    } else if i + 4 < |a| + |b| {
      assert s[i + 4] == b[i + 4 - |a|];
    } else if i + 4 < |s| {
      assert s[i + 4] == c[i + 4 - |a| - |b|];
    }
  }

  lemma {:induction false} NoPinAnywhere(callees: seq<string>, s: string)
    requires forall i: nat :: i <= |s| ==> PinAt(callees, s[i..]).None?
    ensures !HasPin(callees, s)
    decreases |s|
  {
    assert s[0..] == s;
    if s != "" {
      forall i: nat | i <= |s[1..]|
        ensures PinAt(callees, s[1..][i..]).None?
      {
        assert s[1..][i..] == s[i + 1..];
      }
      NoPinAnywhere(callees, s[1..]);
    }
  }

  lemma CompletedIs(needs: seq<string>, lines: seq<string>, last: string, edited: seq<string>)
    requires AreNeeds(needs) && AreLines(lines) && Without(last, IsNewline)
    requires AddTrigger(Carry(needs, lines)) == edited
    ensures Completed(needs, Unlines(lines) + last) == Unlines(edited) + last
  {
    LinesOfUnlines(lines, last);
    CompletedLines(needs, Unlines(lines) + last);
    TextIsLines(Completed(needs, Unlines(lines) + last));
  }

  lemma TornAreLines()
    ensures AreLines([HEADER, OPEN + USES])
  {
    assert Without(HEADER, IsNewline);
    assert Without(OPEN + USES, IsNewline);
  }

  lemma CarriedOnly(lines: seq<string>, carried: seq<string>, x: string)
    requires |lines| == 2 && carried == InsertAt(lines, 2, [x])
    requires forall i :: 0 <= i < 2 ==> lines[i] != "" && lines[i][0] == ' '
    requires x != "" && x[0] == ' '
    ensures AddTrigger(carried) == lines + [x]
  {
    InsertLast(lines, x);
    NoTrigger(lines + [x]);
  }

  lemma EditedOne(needs: seq<string>, lines: seq<string>, need: string, line: string, x: string)
    requires BlockIs(lines) && needs == [need] && LacksOne(lines[1], line, need, x)
    requires forall i :: 0 <= i < 2 ==> lines[i] != "" && lines[i][0] == ' '
    requires x != "" && x[0] == ' '
    ensures AddTrigger(Carry(needs, lines)) == lines + [x]
  {
    TornIsCarried(needs, lines, need, line, x);
    CarriedOnly(lines, Carry(needs, lines), x);
  }

  lemma TornIsEdited(lines: seq<string>, head: string, line: string, need: string, x: string)
    requires lines == [head, line] && head == HEADER && line == OPEN + USES && need == "contents: read" && x == ADDED
    ensures AddTrigger(Carry([need], lines)) == lines + [x]
  {
    TornBlock(lines, head, line);
    TornLacksOne(line, need, x);
    EditedOne([need], lines, need, line, x);
  }

  lemma TornIsCompleted(callee: string, p: Pin)
    requires IsCallee(callee) && IsPin(p)
    ensures Completed(SMOKE_NEEDS, Unlines([HEADER, OPEN + USES]) + (callee + PinText(p)))
         == HEADER + "\n" + OPEN + Lost(callee, p)
  {
    var lines, last := [HEADER, OPEN + USES], callee + PinText(p);
    RequiredAreNeeds();
    TornAreLines();
    PinIsOneLine(p);
    WithoutJoins(callee, PinText(p), IsNewline);
    TornIsEdited(lines, HEADER, OPEN + USES, "contents: read", ADDED);
    CompletedIs(SMOKE_NEEDS, lines, last, lines + [ADDED]);
    LostIs(HEADER, OPEN, USES, ADDED, callee, PinText(p));
  }

  lemma LostIs(h: string, o: string, u: string, added: string, callee: string, pin: string)
    ensures Unlines([h, o + u] + [added]) + (callee + pin) == h + "\n" + o + (u + "\n" + added + "\n" + callee + pin)
  {
    var all := [h, o + u] + [added];
    assert all[1..] == [o + u, added];
    assert [o + u, added][1..] == [added];
    assert [added][1..] == [];
    assert Unlines([added]) == added + "\n";
    assert Unlines([o + u, added]) == o + u + "\n" + (added + "\n");
    assert Unlines(all) == h + "\n" + (o + u + "\n" + (added + "\n"));
  }

  lemma LosesItsPin(callees: seq<string>, needs: seq<string>, p: Pin, text: string, once: string, rendered: string)
    requires HasPin(callees, text) && Completed(needs, Bump(callees, p, text)) == once
    requires !HasPin(callees, once) && HasPin(callees, rendered)
    ensures UpsertWorkflow(callees, needs, p, Some(text), rendered) == once
    ensures UpsertWorkflow(callees, needs, p, Some(once), rendered) == rendered != once
  {}

  /**
    Such a caller has a pin and glues none, and still a second run does not leave the output as it
    is: the added permission stands between `uses:` and the callee, so the file has no pin any more
    and is rendered from the template.
   */
  lemma TornIsNotStable(callees: seq<string>, p: Pin, callee: string, rendered: string)
    requires AreCallees(callees) && callee in callees && IsPin(p)
    requires HasPin(callees, rendered)
    ensures HasPin(callees, Torn(callee)) && Glued(callees, Torn(callee)) == 0
    ensures var once := UpsertWorkflow(callees, SMOKE_NEEDS, p, Some(Torn(callee)), rendered);
            UpsertWorkflow(callees, SMOKE_NEEDS, p, Some(once), rendered) == rendered != once
  {
    TornIsBumped(callees, p, callee);
    TornIsCompleted(callee, p);
    LostWhole(callees, p, callee);
    LosesItsPin(callees, SMOKE_NEEDS, p, Torn(callee), HEADER + "\n" + OPEN + Lost(callee, p), rendered);
  }

  lemma LostWhole(callees: seq<string>, p: Pin, callee: string)
    requires AreCallees(callees) && callee in callees && IsPin(p)
    ensures !HasPin(callees, HEADER + "\n" + OPEN + Lost(callee, p))
  {
    BumpBehind(callees, p, HEADER + "\n" + OPEN, Lost(callee, p));
    LostHasNoPin(callees, p, callee);
  }
}
