/**
  The reader of pins (thyn_security_toolchain/verify.py, `caller_pins` and the checks of
  `verify_repo`): which calls of the toolchain's workflows a workflow file makes, line by line.
 */
module PinReader {
  import opened Wrappers
  import opened Seqs
  import opened Text
  import opened Pins
  import opened Pinned

  /** `(workflow file, ref, comment tag)`. */
  datatype Call = Call(name: string, ref: string, comment: Option<string>)

  /** A match at the start of a text: the call, where its ref starts, and where the match ends. */
  datatype Found = Found(call: Call, refAt: nat, end: nat)

  function RefOf(s: string): string {
    s[..Run(s, IsRefChar)]
  }

  /** The group of `[ \t]*([^\s]+)` at the start of a text. */
  function WordOf(s: string): (r: Option<string>)
    ensures r.Some? ==> Run(s, IsBlank) + |r.value| <= |s|
  {
    var t := s[Run(s, IsBlank)..];
    var w := Run(t, IsNonSpace);
    if w > 0 then Some(t[..w]) else None
  }

  /** `[ \t]*(?:#[ \t]*([^\s]+))?`: the comment, and the length of it all. */
  function CommentOf(s: string): (r: (Option<string>, nat))
    ensures r.1 <= |s|
  {
    var b := Run(s, IsBlank);
    if b < |s| && s[b] == '#' && WordOf(s[b + 1..]).Some? then
      (WordOf(s[b + 1..]), b + 1 + Run(s[b + 1..], IsBlank) + |WordOf(s[b + 1..]).value|)
    else (None, b)
  }

  /** A workflow's name, and the text behind the `@` that follows it. */
  datatype Named = Named(name: string, rest: string)

  /** What follows `uses:\s*` and the directory at the start of a text. */
  function BehindDirectory(dir: string, s: string): (r: Option<string>)
    ensures r.Some? ==> |r.value| + |USES| <= |s|
  {
    if !StartsWith(s, USES) then None
    else
      var t := AfterSpace(s[|USES|..]);
      if StartsWith(t, dir) then Some(t[|dir|..]) else None
  }

  /** `([\w.-]+\.ya?ml)@` at the start of a text. */
  function NameIn(s: string): (r: Option<Named>)
    ensures r.Some? ==> |r.value.rest| < |s|
  {
    var w := Run(s, IsNameChar);
    if w == |s| || s[w] != '@' || !IsWorkflowFile(s[..w]) then None else Some(Named(s[..w], s[w + 1..]))
  }

  function NamedAt(dir: string, s: string): (r: Option<Named>)
    ensures r.Some? ==> |r.value.rest| < |s|
  {
    match BehindDirectory(dir, s)
    case None => None
    case Some(t) => NameIn(t)
  }

  function CallAt(dir: string, s: string): (r: Option<Found>)
    ensures r.Some? ==> 0 < r.value.refAt < r.value.end <= |s|
  {
    match NamedAt(dir, s)
    case None => None
    case Some(n) => RefFrom(n, |s| - |n.rest|)
  }

  /** The match from the ref on, which is `at` characters behind its start. */
  function RefFrom(n: Named, at: nat): (r: Option<Found>)
    ensures r.Some? ==> at == r.value.refAt < r.value.end <= at + |n.rest|
  {
    var ref := RefOf(n.rest);
    if ref == "" then None
    else
      var comment := CommentOf(n.rest[|ref|..]);
      Some(Found(Call(n.name, ref, comment.0), at, at + |ref| + comment.1))
  }

  /** `line` behind a match of `n` characters. */
  function Behind(line: string, n: nat): (r: string)
    requires line != ""
    ensures |r| < |line|
  {
    line[StepOf(line, n)..]
  }

  function StepOf(line: string, n: nat): (r: nat)
    requires line != ""
    ensures 0 < r <= |line|
  {
    if 0 < n <= |line| then n else 1
  }

  /** `pattern.finditer(line)`, with `at` the pattern's match at the start of a text. */
  function FindAll(at: string -> Option<Found>, line: string): seq<Call>
    decreases |line|
  {
    if line == "" then []
    else
      match at(line)
      case Some(f) => [f.call] + FindAll(at, Behind(line, f.end))
      case None => FindAll(at, line[1..])
  }

  function CallBy(dir: string): string -> Option<Found> {
    s => CallAt(dir, s)
  }

  function Calls(dir: string, line: string): seq<Call> {
    FindAll(CallBy(dir), line)
  }

  predicate IsYamlComment(line: string) {
    StartsWith(LStrip(line), "#")
  }

  function PinsOfLines(dir: string, lines: seq<string>): seq<Call> {
    if lines == [] then [] else CallsOfLine(dir, lines[0]) + PinsOfLines(dir, lines[1..])
  }

  function CallsOfLine(dir: string, line: string): seq<Call> {
    if IsYamlComment(line) then [] else Calls(dir, line)
  }

  function CallerPins(dir: string, text: string): seq<Call> {
    PinsOfLines(dir, Split(text, IsLineBreak))
  }

  /** `caller_pins` as it is coded: a loop over the lines, and one over the matches in a line. */
  method ReadCallerPins(dir: string, text: string) returns (pins: seq<Call>)
    ensures pins == CallerPins(dir, text)
  {
    pins := ReadLines(dir, Split(text, IsLineBreak));
  }

  method ReadLines(dir: string, lines: seq<string>) returns (pins: seq<Call>)
    ensures pins == PinsOfLines(dir, lines)
  {
    pins := [];
    var i := 0;
    while i < |lines|
      invariant 0 <= i <= |lines|
      invariant pins + PinsOfLines(dir, lines[i..]) == PinsOfLines(dir, lines)
    {
      assert lines[i..][1..] == lines[i + 1..];
      var calls := ReadLine(dir, lines[i]);
      pins := pins + calls;
      i := i + 1;
    }
  }

  method ReadLine(dir: string, line: string) returns (calls: seq<Call>)
    ensures calls == CallsOfLine(dir, line)
  {
    calls := [];
    if !IsYamlComment(line) {
      calls := ReadCalls(dir, line);
    }
  }

  method ReadCalls(dir: string, line: string) returns (calls: seq<Call>)
    ensures calls == Calls(dir, line)
  {
    calls := [];
    var rest, at := line, CallBy(dir);
    while rest != ""
      invariant calls + FindAll(at, rest) == FindAll(at, line)
      decreases |rest|
    {
      var found := at(rest);
      if found.Some? {
        calls := calls + [found.value.call];
        rest := Behind(rest, found.value.end);
      } else {
        rest := rest[1..];
      }
    }
  }

  // ------------------------------------------------------------------- a call is a pin

  lemma SpaceSplits(s: string) returns (gap: string, rest: string)
    ensures s == gap + rest && Every(gap, IsSpace) && rest == AfterSpace(s)
  {
    gap, rest := s[..Run(s, IsSpace)], s[Run(s, IsSpace)..];
    RunTakes(s, IsSpace);
  }

  lemma BehindDirectoryText(dir: string, s: string) returns (gap: string)
    requires BehindDirectory(dir, s).Some?
    ensures Every(gap, IsSpace) && s == USES + gap + (dir + BehindDirectory(dir, s).value)
  {
    var tail := s[|USES|..];
    var rest: string;
    gap, rest := SpaceSplits(tail);
    assert s == USES + tail;
    assert rest == dir + rest[|dir|..];
  }

  lemma NameText(s: string)
    requires NameIn(s).Some?
    ensures s == NameIn(s).value.name + ("@" + NameIn(s).value.rest) && IsWorkflowFile(NameIn(s).value.name)
  {}

  /** The text of a match up to its ref. */
  lemma NamedText(dir: string, s: string) returns (gap: string)
    requires NamedAt(dir, s).Some?
    ensures var n := NamedAt(dir, s).value;
            Every(gap, IsSpace) && IsWorkflowFile(n.name) && s == USES + gap + Callee(dir, n.name) + n.rest
  {
    gap := BehindDirectoryText(dir, s);
    NameText(BehindDirectory(dir, s).value);
    Regroup(USES + gap, dir, NamedAt(dir, s).value.name, "@", NamedAt(dir, s).value.rest);
  }

  lemma Regroup(a: string, b: string, c: string, d: string, x: string)
    ensures a + (b + (c + (d + x))) == a + (b + (c + d)) + x
  {}

  lemma BehindDirectoryRead(dir: string, gap: string, rest: string)
    requires IsDirectory(dir) && Every(gap, IsSpace)
    ensures BehindDirectory(dir, USES + gap + (dir + rest)) == Some(rest)
  {
    var s := USES + gap + (dir + rest);
    assert s == USES + (gap + (dir + rest));
    assert s[..|USES|] == USES && s[|USES|..] == gap + (dir + rest);
    AfterSpaceOf(gap, dir + rest);
    assert (dir + rest)[..|dir|] == dir && (dir + rest)[|dir|..] == rest;
  }

  lemma NameRead(name: string, x: string)
    requires IsWorkflowFile(name)
    ensures NameIn(name + ("@" + x)) == Some(Named(name, x))
  {
    RunOf(name, "@" + x, IsNameChar);
    assert Run("@" + x, IsNameChar) == 0;
    DropBoth(name, "@" + x, 1);
    assert ("@" + x)[1..] == x;
  }

  lemma NamedRead(dir: string, gap: string, name: string, x: string)
    requires IsDirectory(dir) && Every(gap, IsSpace) && IsWorkflowFile(name)
    ensures NamedAt(dir, USES + gap + Callee(dir, name) + x) == Some(Named(name, x))
  {
    BehindDirectoryRead(dir, gap, name + ("@" + x));
    NameRead(name, x);
    Regroup(USES + gap, dir, name, "@", x);
  }

  /** A call of a known workflow is a match of the script's pattern, and the ref starts where its group 1 ends. */
  lemma CallIsPin(dir: string, names: seq<string>, s: string)
    requires IsDirectory(dir) && AreFiles(names) && CallAt(dir, s).Some? && CallAt(dir, s).value.call.name in names
    ensures PrefixAt(Callees(dir, names), s) == Some(CallAt(dir, s).value.refAt)
    ensures PinAt(Callees(dir, names), s).Some?
  {
    var gap, n := CallParts(dir, s);
    NamedIsPin(dir, names, s, gap, n);
  }

  /** A call taken apart: what comes before its ref, and that it is read from there. */
  lemma CallParts(dir: string, s: string) returns (gap: string, n: Named)
    requires CallAt(dir, s).Some?
    ensures Every(gap, IsSpace) && s == USES + gap + Callee(dir, n.name) + n.rest && |n.rest| <= |s|
    ensures CallAt(dir, s).value.call.name == n.name && CallAt(dir, s).value.refAt == |s| - |n.rest|
    ensures CallAt(dir, s).value.call.ref == RefOf(n.rest) != ""
    ensures CallAt(dir, s).value.call.comment == CommentOf(n.rest[|RefOf(n.rest)|..]).0
  {
    n := NamedAt(dir, s).value;
    gap := NamedText(dir, s);
  }

  lemma NamedIsPin(dir: string, names: seq<string>, s: string, gap: string, n: Named)
    requires IsDirectory(dir) && AreFiles(names) && n.name in names && RefOf(n.rest) != ""
    requires Every(gap, IsSpace) && s == USES + gap + Callee(dir, n.name) + n.rest
    ensures PrefixAt(Callees(dir, names), s) == Some(|s| - |n.rest|)
    ensures PinAt(Callees(dir, names), s).Some?
  {
    CalleesAre(dir, names);
    var i :| 0 <= i < |names| && names[i] == n.name;
    assert Callees(dir, names)[i] == Callee(dir, n.name);
    PrefixOf(Callees(dir, names), gap, Callee(dir, n.name), n.rest);
    MatchNeeds(Callees(dir, names), s);
    assert s[|s| - |n.rest|] == n.rest[0];
  }

  /** What is read where the pin stands. */
  lemma ReadsPin(s: string, p: Pin)
    requires IsPin(p) && Follows(s, p)
    ensures RefOf(s) == p.sha && CommentOf(s[|p.sha|..]).0 == Some(p.tag)
  {
    var rest := s[|PinText(p)|..];
    var comment := " # " + p.tag + rest;
    assert s == PinText(p) + rest == p.sha + comment;
    RunOf(p.sha, comment, IsRefChar);
    assert Run(comment, IsRefChar) == 0;
    assert s[|p.sha|..] == comment;
    assert rest != "" ==> rest[0] == s[|PinText(p)|];
    ReadsTag(p.tag, rest);
  }

  lemma ReadsTag(tag: string, rest: string)
    requires tag != "" && Every(tag, IsNonSpace) && (rest != "" ==> IsSpace(rest[0]))
    ensures CommentOf(" # " + tag + rest).0 == Some(tag)
  {
    var s, word := " # " + tag + rest, " " + (tag + rest);
    assert s == " " + ("#" + word) && Run("#" + word, IsBlank) == 0;
    RunOf(" ", "#" + word, IsBlank);
    assert s[1] == '#' && s[2..] == word;
    TagIsWord(tag, rest);
  }

  lemma TagIsWord(tag: string, rest: string)
    requires tag != "" && Every(tag, IsNonSpace) && (rest != "" ==> IsSpace(rest[0]))
    ensures WordOf(" " + (tag + rest)) == Some(tag)
  {
    var word := tag + rest;
    assert word[0] == tag[0] && Run(word, IsBlank) == 0;
    RunOf(" ", word, IsBlank);
    assert (" " + word)[1..] == word;
    RunOf(tag, rest, IsNonSpace);
    assert Run(rest, IsNonSpace) == 0;
    DropBoth(tag, rest, 0);
  }

  // ------------------------------------------------------------------- lines and calls

  /** `line` is a stretch of `text` from `a` up to a separator or the end. */
  ghost predicate IsPiece(text: string, sep: char -> bool, a: nat, line: string) {
    && a + |line| <= |text| && text[a..a + |line|] == line
    && (a + |line| < |text| ==> sep(text[a + |line|]))
  }

  lemma PieceBehind(c: char, s: string, sep: char -> bool, a: nat, line: string)
    requires IsPiece(s, sep, a, line)
    ensures IsPiece([c] + s, sep, a + 1, line)
  {
    assert ([c] + s)[a + 1..a + 1 + |line|] == s[a..a + |line|];
  }

  lemma PieceInFront(c: char, s: string, sep: char -> bool, line: string)
    requires IsPiece(s, sep, 0, line)
    ensures IsPiece([c] + s, sep, 0, [c] + line)
  {
    assert ([c] + s)[0..1 + |line|] == [c] + s[0..|line|];
  }

  /** A piece of a text starts somewhere in it, and ends at a separator or at the end. */
  lemma {:induction false} PieceAt(s: string, sep: char -> bool, k: nat) returns (a: nat)
    requires k < |Split(s, sep)|
    ensures IsPiece(s, sep, a, Split(s, sep)[k])
    ensures k == 0 ==> a == 0
  {
    a := 0;
    if s != "" {
      assert s == [s[0]] + s[1..];
      if sep(s[0]) && k > 0 {
        a := PieceAt(s[1..], sep, k - 1);
        PieceBehind(s[0], s[1..], sep, a, Split(s[1..], sep)[k - 1]);
        a := a + 1;
      } else if !sep(s[0]) {
        a := PieceAt(s[1..], sep, k);
        if k > 0 {
          PieceBehind(s[0], s[1..], sep, a, Split(s[1..], sep)[k]);
          a := a + 1;
        } else {
          PieceInFront(s[0], s[1..], sep, Split(s[1..], sep)[0]);
        }
      }
    }
  }

  lemma {:induction false} FoundInLine(at: string -> Option<Found>, line: string, c: Call) returns (i: nat)
    requires c in FindAll(at, line)
    ensures i <= |line| && at(line[i..]).Some? && at(line[i..]).value.call == c
    decreases |line|
  {
    if at(line).Some? && at(line).value.call == c {
      i := 0;
      assert line[0..] == line;
    } else {
      var n := if at(line).Some? then StepOf(line, at(line).value.end) else 1;
      i := FoundInLine(at, line[n..], c);
      DropMore(line, n, i);
      i := n + i;
    }
  }

  lemma CallInLine(dir: string, line: string, c: Call) returns (i: nat)
    requires c in Calls(dir, line)
    ensures i <= |line| && CallAt(dir, line[i..]).Some? && CallAt(dir, line[i..]).value.call == c
  {
    i := FoundInLine(CallBy(dir), line, c);
  }

  lemma {:induction false} CallInLines(dir: string, lines: seq<string>, c: Call) returns (k: nat)
    requires c in PinsOfLines(dir, lines)
    ensures k < |lines| && c in CallsOfLine(dir, lines[k])
  {
    var head := CallsOfLine(dir, lines[0]);
    if c in head {
      k := 0;
    } else {
      k := CallInLines(dir, lines[1..], c);
      k := k + 1;
    }
  }

  lemma {:induction false} LineIsRead(dir: string, lines: seq<string>, line: string, c: Call)
    requires line in lines && !IsYamlComment(line) && c in Calls(dir, line)
    ensures c in PinsOfLines(dir, lines)
  {
    if line != lines[0] {
      LineIsRead(dir, lines[1..], line, c);
    }
  }

  /** What is read of a text is what is read of its lines, those apart that start, behind blanks, with `#`. */
  lemma CallsAreOfLines(dir: string, text: string, c: Call)
    ensures c in CallerPins(dir, text)
       <==> exists line <- Split(text, IsLineBreak) :: c in Calls(dir, line) && !StartsWith(AfterSpace(line), "#")
  {
    if c in CallerPins(dir, text) {
      var k := CallInLines(dir, Split(text, IsLineBreak), c);
      var line := Split(text, IsLineBreak)[k];
      StrippedLeft(line);
      assert line in Split(text, IsLineBreak);
    }
    if line :| line in Split(text, IsLineBreak) && c in Calls(dir, line) && !StartsWith(AfterSpace(line), "#") {
      StrippedLeft(line);
      LineIsRead(dir, Split(text, IsLineBreak), line, c);
    }
  }

  lemma {:induction false} StrippedLeft(s: string)
    ensures LStrip(s) == AfterSpace(s)
  {
    if s != "" && IsSpace(s[0]) {
      StrippedLeft(s[1..]);
      DropMore(s, 1, Run(s[1..], IsSpace));
    }
  }

  // ------------------------------------------------------------------- pins read back

  lemma FollowsCut(s: string, z: string, p: Pin)
    requires IsPin(p) && Follows(s + z, p) && (z != "" ==> IsLineBreak(z[0]))
    ensures Follows(s, p)
  {
    var w := PinText(p);
    if |w| > |s| {
      StartsWithChar(s + z, w, |s|);
      PinTextChar(p, |s|);
    } else {
      assert s[..|w|] == (s + z)[..|w|];
    }
  }

  /** What is pinned in a text is pinned in the text cut at a line break. */
  lemma PinOfCut(callees: seq<string>, p: Pin, s: string, z: string)
    requires AreCallees(callees) && IsPin(p) && (z != "" ==> IsLineBreak(z[0]))
    requires PinAt(callees, s).Some?
    requires PinAt(callees, s + z).Some? ==> PinnedAt(callees, p, s + z)
    ensures PinnedAt(callees, p, s)
  {
    assert (s + z)[..|s|] == s[..|s|];
    MatchLocal(callees, s, s + z, |s|);
    FollowsOfCut(callees, p, s, z);
  }

  lemma FollowsOfCut(callees: seq<string>, p: Pin, s: string, z: string)
    requires AreCallees(callees) && IsPin(p) && (z != "" ==> IsLineBreak(z[0]))
    requires PrefixAt(callees, s).Some? && PrefixAt(callees, s + z).Some? && PinnedAt(callees, p, s + z)
    ensures PinnedAt(callees, p, s)
  {
    var n := PrefixAt(callees, s).value;
    assert (s + z)[..n] == s[..n];
    PrefixLocal(callees, s, s + z);
    assert (s + z)[n..] == s[n..] + z;
    FollowsCut(s[n..], z, p);
  }

  /** A pin in a line of a text is a pin of the text. */
  lemma PinOfLine(callees: seq<string>, p: Pin, text: string, a: nat, line: string, j: nat)
    requires AreCallees(callees) && IsPin(p) && AllPinned(callees, p, text)
    requires a + |line| <= |text| && text[a..a + |line|] == line
    requires a + |line| < |text| ==> IsLineBreak(text[a + |line|])
    requires j <= |line| && PinAt(callees, line[j..]).Some?
    ensures PinnedAt(callees, p, line[j..])
  {
    var z := text[a + |line|..];
    assert text[a + j..] == line[j..] + z by {
      assert line[j..] == text[a + j..a + |line|];
    }
    PinOfCut(callees, p, line[j..], z);
  }

  lemma FoundReadsPin(dir: string, s: string, p: Pin)
    requires CallAt(dir, s).Some? && IsPin(p) && Follows(s[CallAt(dir, s).value.refAt..], p)
    ensures CallAt(dir, s).value.call.ref == p.sha && CallAt(dir, s).value.call.comment == Some(p.tag)
  {
    var gap, n := CallParts(dir, s);
    assert s[|s| - |n.rest|..] == n.rest;
    ReadsPin(n.rest, p);
  }

  ghost predicate IsLineOf(text: string, a: nat, line: string) {
    IsPiece(text, IsLineBreak, a, line)
  }

  lemma LineOfText(text: string, line: string) returns (a: nat)
    requires line in Split(text, IsLineBreak)
    ensures IsLineOf(text, a, line)
  {
    var k :| 0 <= k < |Split(text, IsLineBreak)| && Split(text, IsLineBreak)[k] == line;
    a := PieceAt(text, IsLineBreak, k);
  }

  lemma CallOfText(dir: string, text: string, c: Call) returns (a: nat, line: string)
    requires c in CallerPins(dir, text)
    ensures IsLineOf(text, a, line) && c in Calls(dir, line)
  {
    var k := CallInLines(dir, Split(text, IsLineBreak), c);
    line := Split(text, IsLineBreak)[k];
    a := LineOfText(text, line);
  }

  lemma LineReadsBack(dir: string, names: seq<string>, p: Pin, text: string, a: nat, line: string, c: Call)
    requires IsDirectory(dir) && AreFiles(names) && IsPin(p) && AllPinned(Callees(dir, names), p, text)
    requires IsLineOf(text, a, line) && c in Calls(dir, line) && c.name in names
    ensures c.ref == p.sha && c.comment == Some(p.tag)
  {
    var i := CallInLine(dir, line, c);
    var s, callees := line[i..], Callees(dir, names);
    CalleesAre(dir, names);
    CallIsPin(dir, names, s);
    PinOfLine(callees, p, text, a, line, i);
    FoundReadsPin(dir, s, p);
  }

  /** Every call of a known workflow in a bumped text reads back as exactly the commit and the tag written. */
  lemma PinsReadBack(dir: string, names: seq<string>, p: Pin, text: string, c: Call)
    requires IsDirectory(dir) && AreFiles(names) && IsPin(p) && AllPinned(Callees(dir, names), p, text)
    requires c in CallerPins(dir, text) && c.name in names
    ensures c.ref == p.sha && c.comment == Some(p.tag)
  {
    var a, line := CallOfText(dir, text, c);
    LineReadsBack(dir, names, p, text, a, line, c);
  }

  ghost predicate OnlyUsesAt(line: string, j: nat) {
    forall i: nat :: i <= |line| && StartsWith(line[i..], USES) ==> i == j
  }

  /** Where the pattern can match, given as a set of offsets, is at most one place. */
  lemma {:induction false} NothingFound(at: string -> Option<Found>, line: string)
    requires forall i: nat :: i < |line| ==> at(line[i..]).None?
    ensures FindAll(at, line) == []
  {
    if line != "" {
      assert line[0..] == line;
      forall i: nat | i < |line[1..]|
        ensures at(line[1..][i..]).None?
      {
        assert line[1..][i..] == line[i + 1..];
      }
      NothingFound(at, line[1..]);
    }
  }

  /** Where only one match can start, it is the only one found. */
  lemma {:induction false} OneFound(at: string -> Option<Found>, line: string, j: nat)
    requires j < |line| && at(line[j..]).Some?
    requires forall i: nat :: i < |line| && i != j ==> at(line[i..]).None?
    ensures FindAll(at, line) == [at(line[j..]).value.call]
    decreases j
  {
    assert line[0..] == line;
    if j == 0 {
      var rest := Behind(line, at(line).value.end);
      forall i: nat | i < |rest|
        ensures at(rest[i..]).None?
      {
        assert rest[i..] == line[|line| - |rest| + i..];
      }
      NothingFound(at, rest);
    } else {
      var rest := line[1..];
      forall i: nat | i < |rest|
        ensures rest[i..] == line[i + 1..]
      {}
      OneFound(at, rest, j - 1);
    }
  }

  lemma CallWithoutUses(dir: string, s: string)
    ensures CallAt(dir, s).Some? ==> StartsWith(s, USES)
  {}

  /** No match of the reader's pattern starts before `j`. */
  ghost predicate NoCallBefore(dir: string, line: string, j: nat) {
    forall i: nat :: i < j && i < |line| ==> CallAt(dir, line[i..]).None?
  }

  /** The first place where a match can start is where the first one found does. */
  lemma {:induction false} FirstFound(at: string -> Option<Found>, line: string, j: nat)
    requires j < |line| && at(line[j..]).Some?
    requires forall i: nat :: i < j ==> at(line[i..]).None?
    ensures FindAll(at, line) != [] && FindAll(at, line)[0] == at(line[j..]).value.call
    decreases j
  {
    assert line[0..] == line;
    if j > 0 {
      var rest := line[1..];
      forall i: nat | i < |rest|
        ensures rest[i..] == line[i + 1..]
      {}
      FirstFound(at, rest, j - 1);
    }
  }

  /** A line whose first call starts at `j` reads as that call first. */
  lemma FirstCall(dir: string, line: string, j: nat)
    requires j < |line| && CallAt(dir, line[j..]).Some? && NoCallBefore(dir, line, j)
    ensures Calls(dir, line) != [] && Calls(dir, line)[0] == CallAt(dir, line[j..]).value.call
  {
    var at := CallBy(dir);
    forall i: nat | i < j
      ensures at(line[i..]).None?
    {}
    FirstFound(at, line, j);
  }

  /** Position `j` lies inside an earlier match that `finditer` finds, so no match is looked for there. */
  ghost predicate IsPassed(at: string -> Option<Found>, line: string, j: nat)
    decreases |line|
  {
    && line != "" && j > 0
    && match at(line)
       case Some(f) => j < StepOf(line, f.end) || IsPassed(at, Behind(line, f.end), j - StepOf(line, f.end))
       case None => IsPassed(at, line[1..], j - 1)
  }

  ghost predicate IsReached(dir: string, line: string, j: nat) {
    !IsPassed(CallBy(dir), line, j)
  }

  /** A match that is not passed over is found. */
  lemma {:induction false} ReachedFound(at: string -> Option<Found>, line: string, j: nat)
    requires j < |line| && at(line[j..]).Some? && !IsPassed(at, line, j)
    ensures at(line[j..]).value.call in FindAll(at, line)
    decreases |line|
  {
    assert line[0..] == line;
    if j > 0 {
      var n := if at(line).Some? then StepOf(line, at(line).value.end) else 1;
      DropMore(line, n, j - n);
      ReachedFound(at, line[n..], j - n);
    }
  }

  lemma ReachedCall(dir: string, line: string, j: nat)
    requires j < |line| && CallAt(dir, line[j..]).Some? && IsReached(dir, line, j)
    ensures CallAt(dir, line[j..]).value.call in Calls(dir, line)
  {
    ReachedFound(CallBy(dir), line, j);
  }

  lemma {:induction false} NothingPasses(at: string -> Option<Found>, line: string, j: nat)
    requires forall i: nat :: i < j && i < |line| ==> at(line[i..]).None?
    ensures !IsPassed(at, line, j)
    decreases |line|
  {
    if line != "" && j > 0 {
      assert line[0..] == line;
      forall i: nat | i < j - 1 && i < |line[1..]|
        ensures at(line[1..][i..]).None?
      {
        DropMore(line, 1, i);
      }
      NothingPasses(at, line[1..], j - 1);
    }
  }

  /** A place with no call, or no `uses:` at all, before it is reached. */
  lemma FirstIsReached(dir: string, line: string, j: nat)
    ensures NoCallBefore(dir, line, j) ==> IsReached(dir, line, j)
    ensures OnlyUsesAt(line, j) ==> NoCallBefore(dir, line, j)
  {
    forall i: nat | i < |line|
      ensures CallAt(dir, line[i..]).Some? ==> StartsWith(line[i..], USES)
    {
      CallWithoutUses(dir, line[i..]);
    }
    if NoCallBefore(dir, line, j) {
      forall i: nat | i < j && i < |line|
        ensures CallBy(dir)(line[i..]).None?
      {}
      NothingPasses(CallBy(dir), line, j);
    }
  }

  /** A line whose one `uses:` is a call reads as that call. */
  lemma OneCall(dir: string, line: string, j: nat)
    requires j < |line| && CallAt(dir, line[j..]).Some? && OnlyUsesAt(line, j)
    ensures Calls(dir, line) == [CallAt(dir, line[j..]).value.call]
  {
    var at := CallBy(dir);
    forall i: nat | i < |line| && i != j
      ensures at(line[i..]).None?
    {
      CallWithoutUses(dir, line[i..]);
    }
    OneFound(at, line, j);
  }

  /** A pin at the start of a text is read as a call. */
  lemma PinIsCall(dir: string, names: seq<string>, p: Pin, s: string) returns (name: string)
    requires IsDirectory(dir) && AreFiles(names) && IsPin(p)
    requires PrefixAt(Callees(dir, names), s).Some? && PinnedAt(Callees(dir, names), p, s)
    ensures name in names && CallAt(dir, s).Some? && CallAt(dir, s).value.call == Call(name, p.sha, Some(p.tag))
  {
    CalleesAre(dir, names);
    var gap, callee := PrefixParts(Callees(dir, names), s);
    var i :| 0 <= i < |names| && Callee(dir, names[i]) == callee;
    name := names[i];
    var x := s[PrefixAt(Callees(dir, names), s).value..];
    assert s == USES + gap + Callee(dir, name) + x;
    ReadsPin(x, p);
    NamedRead(dir, gap, name, x);
  }

  /**
    And no pin is missed: a pin on a line that is no comment, not inside an earlier call, is read. If
    no call comes before it, it is the line's first call, and if there is no other `uses:`, its only one.
   */
  lemma PinIsRead(dir: string, names: seq<string>, p: Pin, text: string, line: string, j: nat) returns (c: Call)
    requires IsDirectory(dir) && AreFiles(names) && IsPin(p) && AllPinned(Callees(dir, names), p, text)
    requires line in Split(text, IsLineBreak) && !IsYamlComment(line)
    requires j <= |line| && PinAt(Callees(dir, names), line[j..]).Some? && IsReached(dir, line, j)
    ensures c in CallerPins(dir, text) && c in Calls(dir, line)
    ensures NoCallBefore(dir, line, j) ==> Calls(dir, line)[0] == c
    ensures OnlyUsesAt(line, j) ==> Calls(dir, line) == [c]
    ensures c.name in names && c.ref == p.sha && c.comment == Some(p.tag)
  {
    var a := LineOfText(text, line);
    CalleesAre(dir, names);
    PinOfLine(Callees(dir, names), p, text, a, line, j);
    var name := PinIsCall(dir, names, p, line[j..]);
    ReachedCall(dir, line, j);
    if NoCallBefore(dir, line, j) {
      FirstCall(dir, line, j);
    }
    if OnlyUsesAt(line, j) {
      OneCall(dir, line, j);
    }
    c := Call(name, p.sha, Some(p.tag));
    LineIsRead(dir, Split(text, IsLineBreak), line, c);
  }
}
