/**
  The permissions of a caller job (scripts/propagate.py, `_carry_forward_permissions`): the first
  `permissions:` block that is nested in something gains the lines the called workflow needs.
 */
module Permissions {
  import opened Seqs
  import opened Text
  import opened Pins
  import opened Lines

  // ------------------------------------------------------------------- indentation

  /** The blanks a line starts with. */
  function Indent(line: string): (r: string)
    ensures |r| <= |line|
  {
    line[..Run(line, IsBlank)]
  }

  /** `[ \t]*\S`: something follows the blanks, and it is not whitespace of another kind. */
  predicate HasText(line: string) {
    |Indent(line)| < |line| && !IsSpace(line[|Indent(line)|])
  }

  /** `{indent}[ \t]+\S[^\n]*`, for an indent of blanks. */
  predicate IsDeeper(line: string, indent: string) {
    HasText(line) && |indent| < |Indent(line)| && StartsWith(line, indent)
  }

  function NotDeeper(indent: string): string -> bool {
    line => !IsDeeper(line, indent)
  }

  lemma IndentIs(a: string, b: string)
    requires Every(a, IsBlank) && (b != "" ==> !IsBlank(b[0]))
    ensures Indent(a + b) == a
  {
    RunOf(a, b, IsBlank);
    assert Run(b, IsBlank) == 0;
  }

  lemma IndentIsBlank(line: string)
    ensures Every(Indent(line), IsBlank)
    ensures StartsWith(line, Indent(line))
    ensures |Indent(line)| < |line| ==> !IsBlank(line[|Indent(line)|])
  {
    RunTakes(line, IsBlank);
  }

  // ------------------------------------------------------------------- blocks

  const PERMISSIONS := "permissions:"

  predicate IsHeader(line: string) {
    Indent(line) != "" && line[|Indent(line)|..] == PERMISSIONS
  }

  /** A block starts at line `k`: its header, and at least one line below it. */
  predicate BlockAt(lines: seq<string>, k: nat) {
    k + 1 < |lines| && IsHeader(lines[k]) && IsDeeper(lines[k + 1], Indent(lines[k]))
  }

  /** The first block at or after line `k`, or the number of lines. */
  function FirstBlock(lines: seq<string>, k: nat): (r: nat)
    requires k <= |lines|
    ensures k <= r <= |lines|
    decreases |lines| - k
  {
    if k == |lines| || BlockAt(lines, k) then k else FirstBlock(lines, k + 1)
  }

  /** Where the lines of the block at `k` end. */
  function BlockEnd(lines: seq<string>, k: nat): (r: nat)
    requires BlockAt(lines, k)
    ensures k + 1 <= r <= |lines|
  {
    FirstAt(lines, k + 1, |lines|, NotDeeper(Indent(lines[k])))
  }

  lemma {:induction false} FirstBlockIsFirst(lines: seq<string>, k: nat)
    requires k <= |lines|
    ensures forall i :: k <= i < FirstBlock(lines, k) ==> !BlockAt(lines, i)
    ensures FirstBlock(lines, k) < |lines| ==> BlockAt(lines, FirstBlock(lines, k))
    decreases |lines| - k
  {
    if k < |lines| && !BlockAt(lines, k) {
      FirstBlockIsFirst(lines, k + 1);
    }
  }

  lemma FirstBlockIs(lines: seq<string>, n: nat)
    requires n <= |lines| && (n < |lines| ==> BlockAt(lines, n))
    requires forall i :: 0 <= i < n ==> !BlockAt(lines, i)
    ensures FirstBlock(lines, 0) == n
  {
    FirstBlockIsFirst(lines, 0);
  }

  lemma BlockEndEnds(lines: seq<string>, k: nat)
    requires BlockAt(lines, k)
    ensures k + 1 < BlockEnd(lines, k)
    ensures forall i :: k < i < BlockEnd(lines, k) ==> IsDeeper(lines[i], Indent(lines[k]))
    ensures BlockEnd(lines, k) < |lines| ==> !IsDeeper(lines[BlockEnd(lines, k)], Indent(lines[k]))
  {
    var p := NotDeeper(Indent(lines[k]));
    FirstAtIsFirst(lines, k + 1, |lines|, p);
    forall i | k < i < BlockEnd(lines, k)
      ensures IsDeeper(lines[i], Indent(lines[k]))
    {
      assert !p(lines[i]);
    }
  }

  lemma BlockEndIs(lines: seq<string>, k: nat, e: nat)
    requires BlockAt(lines, k) && k < e <= |lines|
    requires forall i :: k < i < e ==> IsDeeper(lines[i], Indent(lines[k]))
    requires e < |lines| ==> !IsDeeper(lines[e], Indent(lines[k]))
    ensures BlockEnd(lines, k) == e
  {
    FirstAtIs(lines, k + 1, |lines|, NotDeeper(Indent(lines[k])), e);
  }

  // ------------------------------------------------------------------- keys

  predicate IsNoColon(c: char) {
    c != ':'
  }

  /** `s.split(":")[0]`. */
  function BeforeColon(s: string): string {
    s[..Run(s, IsNoColon)]
  }

  /** Whether a line grants `key`; `splitlines` may take a line of the block apart. */
  predicate Grants(line: string, key: string) {
    exists piece <- Split(line, IsLineBreak) :: Strip(piece) != "" && BeforeColon(Strip(piece)) == key
  }

  /** `key in present`. */
  predicate IsPresent(body: seq<string>, key: string) {
    exists line <- body :: Grants(line, key)
  }

  function Lacks(body: seq<string>): string -> bool {
    need => !IsPresent(body, BeforeColon(need))
  }

  function Missing(needs: seq<string>, body: seq<string>): seq<string> {
    KeepIf(needs, Lacks(body))
  }

  function Indented(indent: string): string -> string {
    need => indent + need
  }

  /** The lines that a block with these lines is given. */
  function Added(needs: seq<string>, body: seq<string>): seq<string> {
    if body == [] then [] else MapSeq(Missing(needs, body), Indented(Indent(body[0])))
  }

  function CarryAt(needs: seq<string>, lines: seq<string>, k: nat): seq<string>
    requires BlockAt(lines, k)
  {
    InsertAt(lines, BlockEnd(lines, k), Added(needs, lines[k + 1..BlockEnd(lines, k)]))
  }

  /** `_carry_forward_permissions` on the lines of a text: the missing lines, indented like the first, end the block. */
  function Carry(needs: seq<string>, lines: seq<string>): seq<string> {
    var k := FirstBlock(lines, 0);
    if BlockAt(lines, k) then CarryAt(needs, lines, k) else lines
  }

  /** Every permission needed is granted in the first block, if there is one. */
  ghost predicate IsComplete(needs: seq<string>, lines: seq<string>) {
    var k := FirstBlock(lines, 0);
    BlockAt(lines, k) ==> GrantsAll(lines[k + 1..BlockEnd(lines, k)], needs)
  }

  ghost predicate GrantsAll(body: seq<string>, needs: seq<string>) {
    forall need <- needs :: IsPresent(body, BeforeColon(need))
  }

  lemma CompleteIsStable(needs: seq<string>, lines: seq<string>)
    requires IsComplete(needs, lines)
    ensures Carry(needs, lines) == lines
  {
    var k := FirstBlock(lines, 0);
    if BlockAt(lines, k) {
      NoneAdded(needs, lines[k + 1..BlockEnd(lines, k)]);
      CarryIs(needs, lines, k, BlockEnd(lines, k), []);
      InsertNothing(lines, BlockEnd(lines, k));
    }
  }

  lemma CarryIs(needs: seq<string>, lines: seq<string>, k: nat, e: nat, x: seq<string>)
    requires k == FirstBlock(lines, 0) && BlockAt(lines, k) && e == BlockEnd(lines, k)
    requires Added(needs, lines[k + 1..e]) == x
    ensures Carry(needs, lines) == InsertAt(lines, e, x)
  {
    CarryThere(needs, lines, k);
  }

  lemma CarryThere(needs: seq<string>, lines: seq<string>, k: nat)
    requires k == FirstBlock(lines, 0) && BlockAt(lines, k)
    ensures Carry(needs, lines) == CarryAt(needs, lines, k)
  {}

  lemma NoneAdded(needs: seq<string>, body: seq<string>)
    requires GrantsAll(body, needs)
    ensures Added(needs, body) == []
  {
    NothingKept(needs, Lacks(body));
  }

  lemma {:induction false} NothingKept(needs: seq<string>, p: string -> bool)
    requires forall need <- needs :: !p(need)
    ensures KeepIf(needs, p) == []
  {
    if needs != [] {
      NothingKept(needs[..|needs| - 1], p);
    }
  }

  predicate IsAt(c: char) {
    c == '@'
  }

  /** A permission as the script lists it: one stripped line with no part of a call in it. */
  ghost predicate IsNeed(need: string) {
    need != "" && IsStripped(need) && Without(need, IsLineBreak) && NoUses(need) && Without(need, IsAt)
  }

  ghost predicate NoUses(s: string) {
    forall i: nat :: i <= |s| ==> !StartsWith(s[i..], USES)
  }

  ghost predicate AreNeeds(needs: seq<string>) {
    forall need <- needs :: IsNeed(need)
  }

  // ------------------------------------------------------------------- what the edit does

  lemma BlankSpace(c: char)
    requires IsBlank(c)
    ensures IsSpace(c) && !IsLineBreak(c) && c != '\n'
  {}

  lemma {:induction false} StripIndented(indent: string, need: string)
    requires Every(indent, IsBlank) && need != "" && IsStripped(need)
    ensures Strip(indent + need) == need
  {
    if indent == "" {
      StripIsStripped(need);
      assert indent + need == need;
    } else {
      assert (indent + need)[1..] == indent[1..] + need;
      BlankSpace(indent[0]);
      StripIndented(indent[1..], need);
    }
  }

  /** An added line grants what it was added for. */
  lemma AddedGrants(indent: string, need: string)
    requires Every(indent, IsBlank) && IsNeed(need)
    ensures Grants(indent + need, BeforeColon(need))
  {
    var line := indent + need;
    forall i | 0 <= i < |line|
      ensures !IsLineBreak(line[i])
    {
      if i < |indent| {
        BlankSpace(indent[i]);
      } else {
        assert line[i] == need[i - |indent|];
      }
    }
    SplitWithout(line, IsLineBreak);
    StripIndented(indent, need);
    assert line in Split(line, IsLineBreak);
  }

  /** A line on its own grants the key that stands before its first colon, or is all of it. */
  lemma GrantsExactly(line: string, key: string)
    requires Without(line, IsLineBreak) && key != "" && Every(key, IsNoColon)
    ensures Grants(line, key) <==> Strip(line) == key || exists rest :: Strip(line) == key + (":" + rest)
  {
    SplitWithout(line, IsLineBreak);
    var s := Strip(line);
    RunTakes(s, IsNoColon);
    if BeforeColon(s) == key && s != key {
      assert s == key + (":" + s[|key| + 1..]);
    }
    if s == key {
      RunOf(key, "", IsNoColon);
      assert key + "" == key;
    }
    if rest :| s == key + (":" + rest) {
      RunOf(key, ":" + rest, IsNoColon);
    }
    assert Grants(line, key) <==> s != "" && BeforeColon(s) == key;
  }

  lemma AddedShape(indent: string, need: string)
    requires Every(indent, IsBlank) && need != "" && !IsSpace(need[0])
    ensures Indent(indent + need) == indent && HasText(indent + need)
  {
    assert IsSpace(' ') && IsSpace('\t');
    IndentIs(indent, need);
  }

  lemma AddedLines(needs: seq<string>, body: seq<string>, i: nat) returns (need: string)
    requires AreNeeds(needs) && i < |Added(needs, body)|
    ensures need in needs && Added(needs, body)[i] == Indent(body[0]) + need
  {
    need := Missing(needs, body)[i];
    KeepIfHas(needs, Lacks(body), need);
  }

  /** The block with the added lines grants everything needed. */
  lemma AddedCompletes(needs: seq<string>, body: seq<string>)
    requires AreNeeds(needs) && body != []
    ensures GrantsAll(body + Added(needs, body), needs)
  {
    var missing, added := Missing(needs, body), Added(needs, body);
    forall need <- needs
      ensures IsPresent(body + added, BeforeColon(need))
    {
      var key := BeforeColon(need);
      if IsPresent(body, key) {
        var line :| line in body && Grants(line, key);
        assert line in body + added;
      } else {
        KeepIfHas(needs, Lacks(body), need);
        var i :| 0 <= i < |missing| && missing[i] == need;
        IndentIsBlank(body[0]);
        AddedGrants(Indent(body[0]), need);
        assert added[i] == Indent(body[0]) + need;
        assert added[i] in body + added;
      }
    }
  }

  /** The added lines belong to the block. */
  lemma AddedIsDeeper(needs: seq<string>, body: seq<string>, indent: string, i: nat)
    requires AreNeeds(needs) && body != [] && IsDeeper(body[0], indent) && i < |Added(needs, body)|
    ensures IsDeeper(Added(needs, body)[i], indent)
  {
    var need := AddedLines(needs, body, i);
    DeeperLine(body[0], indent, need);
  }

  lemma DeeperLine(first: string, indent: string, need: string)
    requires IsDeeper(first, indent) && need != "" && !IsSpace(need[0])
    ensures IsDeeper(Indent(first) + need, indent)
  {
    IndentIsBlank(first);
    AddedShape(Indent(first), need);
    var line := Indent(first) + need;
    assert line[..|indent|] == Indent(first)[..|indent|] == first[..|indent|];
  }

  /** An insertion behind line `k + 1` leaves the blocks up to line `k` where they were. */
  lemma BlocksBefore(lines: seq<string>, at: nat, x: seq<string>, k: nat)
    requires k + 1 < at <= |lines|
    ensures BlockAt(InsertAt(lines, at, x), k) <==> BlockAt(lines, k)
  {}

  lemma FirstBlockStays(lines: seq<string>, at: nat, x: seq<string>, k: nat)
    requires k == FirstBlock(lines, 0) && k + 1 < at <= |lines|
    ensures FirstBlock(InsertAt(lines, at, x), 0) == k
    ensures BlockAt(InsertAt(lines, at, x), k)
  {
    FirstBlockIsFirst(lines, 0);
    forall i | 0 <= i <= k
      ensures BlockAt(InsertAt(lines, at, x), i) <==> BlockAt(lines, i)
    {
      BlocksBefore(lines, at, x, i);
    }
    FirstBlockIs(InsertAt(lines, at, x), k);
  }

  /** A block that gains deeper lines at its end. */
  lemma BlockGrows(lines: seq<string>, k: nat, x: seq<string>)
    requires BlockAt(lines, k) && BlockAt(InsertAt(lines, BlockEnd(lines, k), x), k)
    requires forall i :: 0 <= i < |x| ==> IsDeeper(x[i], Indent(lines[k]))
    ensures BlockEnd(InsertAt(lines, BlockEnd(lines, k), x), k) == BlockEnd(lines, k) + |x|
  {
    var e := BlockEnd(lines, k);
    var r := InsertAt(lines, e, x);
    BlockEndEnds(lines, k);
    forall i | k < i < e + |x|
      ensures IsDeeper(r[i], Indent(lines[k]))
    {
      InsertedAt(lines, e, x, i);
    }
    BlockEndIs(r, k, e + |x|);
  }

  lemma InsertedSlice(lines: seq<string>, from: nat, at: nat, x: seq<string>)
    requires from <= at <= |lines|
    ensures InsertAt(lines, at, x)[from..at + |x|] == lines[from..at] + x
  {}

  /** The block the edit found is the first block afterwards too, and ends with the added lines. */
  lemma CarriedBlock(needs: seq<string>, lines: seq<string>, k: nat)
    requires AreNeeds(needs) && k == FirstBlock(lines, 0) && BlockAt(lines, k)
    ensures var body, r := lines[k + 1..BlockEnd(lines, k)], Carry(needs, lines);
            && FirstBlock(r, 0) == k && BlockAt(r, k)
            && r[k + 1..BlockEnd(r, k)] == body + Added(needs, body)
  {
    var added := Added(needs, lines[k + 1..BlockEnd(lines, k)]);
    CarryIs(needs, lines, k, BlockEnd(lines, k), added);
    BlockEndEnds(lines, k);
    AddedAreDeeper(needs, lines[k + 1..BlockEnd(lines, k)], Indent(lines[k]));
    GrownBlock(lines, k, added);
  }

  lemma AddedAreDeeper(needs: seq<string>, body: seq<string>, indent: string)
    requires AreNeeds(needs) && body != [] && IsDeeper(body[0], indent)
    ensures forall i :: 0 <= i < |Added(needs, body)| ==> IsDeeper(Added(needs, body)[i], indent)
  {
    forall i | 0 <= i < |Added(needs, body)|
      ensures IsDeeper(Added(needs, body)[i], indent)
    {
      AddedIsDeeper(needs, body, indent, i);
    }
  }

  lemma GrownBlock(lines: seq<string>, k: nat, x: seq<string>)
    requires k == FirstBlock(lines, 0) && BlockAt(lines, k) && k + 1 < BlockEnd(lines, k)
    requires forall i :: 0 <= i < |x| ==> IsDeeper(x[i], Indent(lines[k]))
    ensures var r := InsertAt(lines, BlockEnd(lines, k), x);
            && FirstBlock(r, 0) == k && BlockAt(r, k)
            && r[k + 1..BlockEnd(r, k)] == lines[k + 1..BlockEnd(lines, k)] + x
  {
    FirstBlockStays(lines, BlockEnd(lines, k), x, k);
    BlockGrows(lines, k, x);
    InsertedSlice(lines, k + 1, BlockEnd(lines, k), x);
  }

  lemma CompleteBy(needs: seq<string>, lines: seq<string>, k: nat, body: seq<string>)
    requires FirstBlock(lines, 0) == k && BlockAt(lines, k) && lines[k + 1..BlockEnd(lines, k)] == body
    requires GrantsAll(body, needs)
    ensures IsComplete(needs, lines)
  {}

  /** After the edit the first block lists every permission needed. */
  lemma CarryCompletes(needs: seq<string>, lines: seq<string>)
    requires AreNeeds(needs)
    ensures IsComplete(needs, Carry(needs, lines))
  {
    var k := FirstBlock(lines, 0);
    if BlockAt(lines, k) {
      var body := lines[k + 1..BlockEnd(lines, k)];
      CarriedBlock(needs, lines, k);
      BlockEndEnds(lines, k);
      AddedCompletes(needs, body);
      CompleteBy(needs, Carry(needs, lines), k, body + Added(needs, body));
    }
  }

  /** A second run changes nothing. */
  lemma CarryIsIdempotent(needs: seq<string>, lines: seq<string>)
    requires AreNeeds(needs)
    ensures Carry(needs, Carry(needs, lines)) == Carry(needs, lines)
  {
    CarryCompletes(needs, lines);
    CompleteIsStable(needs, Carry(needs, lines));
  }

  /** The edit only inserts one run of lines, behind the block, and none when the block was complete. */
  lemma CarryInserts(needs: seq<string>, lines: seq<string>) returns (at: nat, x: seq<string>)
    requires AreNeeds(needs)
    ensures at <= |lines| && Carry(needs, lines) == InsertAt(lines, at, x)
    ensures x == [] <==> IsComplete(needs, lines)
    ensures exists indent :: Every(indent, IsBlank) && AreAdded(x, indent, needs)
    ensures IsCarried(needs, lines, at, x)
  {
    var k := FirstBlock(lines, 0);
    if BlockAt(lines, k) {
      at := BlockEnd(lines, k);
      x := BlockIsCarried(needs, lines, k, at);
    } else {
      at, x := 0, [];
      assert InsertAt(lines, 0, []) == lines;
      assert Every("", IsBlank) && AreAdded(x, "", needs);
    }
  }

  lemma BlockIsCarried(needs: seq<string>, lines: seq<string>, k: nat, e: nat) returns (x: seq<string>)
    requires AreNeeds(needs) && k == FirstBlock(lines, 0) && BlockAt(lines, k) && e == BlockEnd(lines, k)
    ensures Carry(needs, lines) == InsertAt(lines, e, x)
    ensures x == [] <==> GrantsAll(lines[k + 1..e], needs)
    ensures exists indent :: Every(indent, IsBlank) && AreAdded(x, indent, needs)
    ensures AreAbsent(x, Indent(lines[k + 1]), needs, lines[k + 1..e])
  {
    var body := lines[k + 1..e];
    assert body[0] == lines[k + 1];
    x := AddedToBody(needs, body);
    AddedAreAbsent(needs, body);
    CarryIs(needs, lines, k, e, x);
  }

  /**
    Of the first block, where there is one, the lines put in at its end are the permissions that no
    line of it grants, each once and in the order in which they are needed, indented as its first line.
   */
  ghost predicate IsCarried(needs: seq<string>, lines: seq<string>, at: nat, x: seq<string>)
    requires at <= |lines|
  {
    var k := FirstBlock(lines, 0);
    if BlockAt(lines, k)
    then at == BlockEnd(lines, k) && AreAbsent(x, Indent(lines[k + 1]), needs, lines[k + 1..at])
    else x == []
  }

  ghost predicate AreAbsent(x: seq<string>, indent: string, needs: seq<string>, body: seq<string>) {
    exists at :: AreAbsentAt(x, indent, needs, body, at)
  }

  /** Line by line, `at` says which permission was needed. */
  ghost predicate AreAbsentAt(
      x: seq<string>, indent: string, needs: seq<string>, body: seq<string>, at: seq<nat>)
  {
    && |x| == |at|
    && (forall i, j :: 0 <= i < j < |at| ==> at[i] < at[j])
    && (forall i :: 0 <= i < |at| ==> at[i] < |needs| && x[i] == indent + needs[at[i]])
    && (forall k: nat :: k < |needs| ==> (k in at <==> !IsPresent(body, BeforeColon(needs[k]))))
  }

  lemma AddedAreAbsent(needs: seq<string>, body: seq<string>)
    requires body != []
    ensures AreAbsent(Added(needs, body), Indent(body[0]), needs, body)
  {
    var lacks := Lacks(body);
    var at := KeepIfPicks(needs, lacks);
    forall k: nat | k < |needs|
      ensures k in at <==> !IsPresent(body, BeforeColon(needs[k]))
    {
      assert lacks(needs[k]) == !IsPresent(body, BeforeColon(needs[k]));
    }
    assert AreAbsentAt(Added(needs, body), Indent(body[0]), needs, body, at);
  }

  ghost predicate AreAdded(x: seq<string>, indent: string, needs: seq<string>) {
    forall i :: 0 <= i < |x| ==> IsAdded(x[i], indent, needs)
  }

  ghost predicate IsAdded(line: string, indent: string, needs: seq<string>) {
    exists need :: need in needs && line == indent + need
  }

  lemma AddedToBody(needs: seq<string>, body: seq<string>) returns (x: seq<string>)
    requires AreNeeds(needs) && body != []
    ensures x == Added(needs, body) && (x == [] <==> GrantsAll(body, needs))
    ensures exists indent :: Every(indent, IsBlank) && AreAdded(x, indent, needs)
  {
    x := Added(needs, body);
    NoneAddedExactly(needs, body);
    IndentIsBlank(body[0]);
    AddedAreAdded(needs, body);
  }

  lemma NoneAddedExactly(needs: seq<string>, body: seq<string>)
    requires AreNeeds(needs) && body != []
    ensures Added(needs, body) == [] <==> GrantsAll(body, needs)
  {
    var added := Added(needs, body);
    AddedCompletes(needs, body);
    if added == [] {
      assert body + added == body;
    } else if GrantsAll(body, needs) {
      NoneAdded(needs, body);
    }
  }

  lemma AddedAreAdded(needs: seq<string>, body: seq<string>)
    requires AreNeeds(needs) && body != []
    ensures AreAdded(Added(needs, body), Indent(body[0]), needs)
  {
    forall i | 0 <= i < |Added(needs, body)|
      ensures IsAdded(Added(needs, body)[i], Indent(body[0]), needs)
    {
      var need := AddedLines(needs, body, i);
    }
  }

  // ------------------------------------------------------------------- what the workflows need

  const ACTIONS_REASON := ": read # SARIF upload needs it "
  const ACTIONS_WHILE := "while this repository is private"

  /** `_REQUIRED_CALLER_PERMISSIONS`. */
  const FULL_NEEDS := [
    "contents: read",
    "security-events: write",
    "pull-requests: read",
    "actions" + (ACTIONS_REASON + ACTIONS_WHILE)]
  const SMOKE_NEEDS := ["contents: read"]

  ghost predicate HasNoUs(s: string) {
    forall i :: 0 <= i < |s| - 1 && s[i] == 'u' ==> s[i + 1] != 's'
  }

  lemma HasNoUsJoins(a: string, b: string)
    requires HasNoUs(a) && HasNoUs(b) && a != "" && a[|a| - 1] != 'u'
    ensures HasNoUs(a + b)
  {
    forall i | 0 <= i < |a + b| - 1 && (a + b)[i] == 'u'
      ensures (a + b)[i + 1] != 's'
    {
      if i >= |a| {
        assert b[i - |a|] == 'u';
      }
    }
  }

  lemma NoUsNoUses(s: string)
    requires HasNoUs(s)
    ensures NoUses(s)
  {
    forall i: nat | i <= |s|
      ensures !StartsWith(s[i..], USES)
    {
      if StartsWith(s[i..], USES) {
        StartsWithChar(s[i..], USES, 0);
        StartsWithChar(s[i..], USES, 1);
      }
    }
  }

  lemma ContentsIsNeed()
    ensures IsNeed("contents: read")
  {
    NoUsNoUses("contents: read");
  }

  lemma EventsIsNeed()
    ensures IsNeed("security-events: write")
  {
    NoUsNoUses("security-events: write");
  }

  lemma RequestsIsNeed()
    ensures IsNeed("pull-requests: read")
  {
    NoUsNoUses("pull-requests: read");
  }

  lemma ActionsReason()
    ensures HasNoUs(ACTIONS_REASON) && Without(ACTIONS_REASON, IsLineBreak)
  {}

  lemma ActionsHasNoAt()
    ensures Without(ACTIONS_REASON, IsAt) && Without(ACTIONS_WHILE, IsAt)
  {}

  lemma ActionsWhile()
    ensures HasNoUs(ACTIONS_WHILE) && Without(ACTIONS_WHILE, IsLineBreak)
  {}

  lemma JoinedIsNeed(a: string, b: string, c: string)
    requires a != "" && !IsSpace(a[0]) && c != "" && !IsSpace(c[|c| - 1])
    requires HasNoUs(a) && HasNoUs(b) && HasNoUs(c) && b != "" && a[|a| - 1] != 'u' && b[|b| - 1] != 'u'
    requires Without(a, IsLineBreak) && Without(b, IsLineBreak) && Without(c, IsLineBreak)
    requires Without(a, IsAt) && Without(b, IsAt) && Without(c, IsAt)
    ensures IsNeed(a + (b + c))
  {
    HasNoUsJoins(b, c);
    HasNoUsJoins(a, b + c);
    NoUsNoUses(a + (b + c));
    WithoutJoins(b, c, IsLineBreak);
    WithoutJoins(a, b + c, IsLineBreak);
    WithoutJoins(b, c, IsAt);
    WithoutJoins(a, b + c, IsAt);
  }

  lemma RequiredAreNeeds()
    ensures AreNeeds(FULL_NEEDS) && AreNeeds(SMOKE_NEEDS)
  {
    ContentsIsNeed();
    EventsIsNeed();
    RequestsIsNeed();
    ActionsReason();
    ActionsWhile();
    ActionsHasNoAt();
    JoinedIsNeed("actions", ACTIONS_REASON, ACTIONS_WHILE);
  }
}
