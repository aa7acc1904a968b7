/**
  Bumping line by line (scripts/propagate.py, `_USES_RE.sub`). The pattern allows line ends between
  `uses:` and what it calls; where no call uses that, a text is bumped as its lines are.
 */
module PinLines {
  import opened Wrappers
  import opened Seqs
  import opened Text
  import opened Pins
  import opened Pinned
  import opened Lines

  // ------------------------------------------------------------------- a match in a line

  lemma {:induction false} RunInLine(s: string, rest: string, p: char -> bool)
    requires !p('\n')
    ensures Run(s + "\n" + rest, p) == Run(s, p)
  {
    var t := s + "\n" + rest;
    if s != "" && p(s[0]) {
      assert t[1..] == s[1..] + "\n" + rest;
      RunInLine(s[1..], rest, p);
    }
  }

  lemma WordInLine(s: string, rest: string)
    ensures WordAt(s + "\n" + rest) == WordAt(s)
  {
    var c := Run(s, IsBlank);
    RunInLine(s, rest, IsBlank);
    assert (s + "\n" + rest)[c..] == s[c..] + "\n" + rest;
    RunInLine(s[c..], rest, IsNonSpace);
  }

  lemma CharInLine(s: string, rest: string, b: nat)
    requires b <= |s|
    ensures (s + "\n" + rest)[b] == if b < |s| then s[b] else '\n'
    ensures b < |s| ==> (s + "\n" + rest)[b + 1..] == s[b + 1..] + "\n" + rest
  {}

  lemma CommentInLine(s: string, rest: string)
    ensures CommentAt(s + "\n" + rest) == CommentAt(s)
  {
    var b := Run(s, IsBlank);
    RunInLine(s, rest, IsBlank);
    CharInLine(s, rest, b);
    if b < |s| {
      WordInLine(s[b + 1..], rest);
    }
  }

  lemma RefInLine(s: string, rest: string)
    ensures RefAt(s + "\n" + rest) == RefAt(s)
  {
    var r := Run(s, IsRefChar);
    RunInLine(s, rest, IsRefChar);
    assert (s + "\n" + rest)[r..] == s[r..] + "\n" + rest;
    CommentInLine(s[r..], rest);
  }

  lemma MatchInLine(callees: seq<string>, line: string, rest: string)
    requires AreCallees(callees) && !Joins(callees, line, rest)
    ensures PinAt(callees, line + "\n" + rest) == PinAt(callees, line)
  {
    PrefixInLine(callees, line, rest);
    if PrefixAt(callees, line).Some? {
      var n := PrefixAt(callees, line).value;
      assert (line + "\n" + rest)[n..] == line[n..] + "\n" + rest;
      RefInLine(line[n..], rest);
    }
  }

  lemma JoinsFrom(callees: seq<string>, line: string, rest: string, k: nat)
    requires k <= |line| && !Joins(callees, line, rest)
    ensures !Joins(callees, line[k..], rest)
  {
    if Dangles(line[k..]) {
      DanglesFrom(line, k);
    }
  }

  /** A line that does not join what follows is bumped on its own. */
  lemma {:induction false} BumpByLine(callees: seq<string>, p: Pin, line: string, rest: string)
    requires AreCallees(callees) && !Joins(callees, line, rest)
    ensures Bump(callees, p, line + "\n" + rest) == Bump(callees, p, line) + "\n" + Bump(callees, p, rest)
    decreases |line|
  {
    var t := line + "\n" + rest;
    MatchInLine(callees, line, rest);
    if line == "" {
      assert t[1..] == rest;
      BumpFirst(callees, p, t);
    } else {
      match PinAt(callees, line) {
        case None =>
          assert t[1..] == line[1..] + "\n" + rest;
          JoinsFrom(callees, line, rest, 1);
          BumpByLine(callees, p, line[1..], rest);
        case Some(m) =>
          JoinsFrom(callees, line, rest, m.end);
          BumpByLine(callees, p, line[m.end..], rest);
          BumpMatchInLine(callees, p, line, rest, m);
      }
    }
  }

  lemma BumpMatchInLine(callees: seq<string>, p: Pin, line: string, rest: string, m: Match)
    requires PinAt(callees, line) == Some(m) && PinAt(callees, line + "\n" + rest) == Some(m)
    requires Bump(callees, p, line[m.end..] + "\n" + rest)
          == Bump(callees, p, line[m.end..]) + "\n" + Bump(callees, p, rest)
    ensures Bump(callees, p, line + "\n" + rest) == Bump(callees, p, line) + "\n" + Bump(callees, p, rest)
  {
    MatchCutInLine(line, rest, m);
    var prefix, tail := line[..m.prefix], line[m.end..];
    BumpAtMatch(callees, p, line + "\n" + rest, m, prefix, tail + "\n" + rest);
    BumpAtMatch(callees, p, line, m, prefix, tail);
    RegroupLine(prefix, PinText(p), Bump(callees, p, tail), Bump(callees, p, rest));
  }

  lemma MatchCutInLine(line: string, rest: string, m: Match)
    requires m.prefix <= |line| && m.end <= |line|
    ensures (line + "\n" + rest)[..m.prefix] == line[..m.prefix]
    ensures (line + "\n" + rest)[m.end..] == line[m.end..] + "\n" + rest
  {}

  lemma RegroupLine(a: string, b: string, c: string, d: string)
    ensures a + (b + (c + "\n" + d)) == a + (b + c) + "\n" + d
  {}

  lemma {:induction false} HasPinByLine(callees: seq<string>, line: string, rest: string)
    requires AreCallees(callees) && !Joins(callees, line, rest)
    ensures HasPin(callees, line + "\n" + rest) <==> HasPin(callees, line) || HasPin(callees, rest)
    decreases |line|
  {
    var t := line + "\n" + rest;
    MatchInLine(callees, line, rest);
    if line == "" {
      assert t[1..] == rest;
      NoMatchWithoutU(callees, t);
      NoMatchWithoutU(callees, line);
    } else {
      assert t[1..] == line[1..] + "\n" + rest;
      JoinsFrom(callees, line, rest, 1);
      HasPinByLine(callees, line[1..], rest);
    }
  }

  // ------------------------------------------------------------------- two parts of a text

  lemma NothingStarts(callees: seq<string>)
    requires AreCallees(callees)
    ensures !StartsCallee(callees, "")
  {
    CalleeAtIs(callees, "");
  }

  lemma DanglesLonger(line: string)
    requires Dangles(line)
    ensures Dangles(line + "\n")
  {
    var i: nat :| i <= |line| && DanglesAt(line, i);
    assert (line + "\n")[i..][..|USES|] == line[i..][..|USES|];
    assert DanglesAt(line + "\n", i);
  }

  /** A text in two parts, the first of which ends its line: no pin of it is lost where they meet. */
  lemma PinnedInParts(callees: seq<string>, p: Pin, a: string, b: string)
    requires AreCallees(callees) && IsPin(p) && EndsLine(a) && !Joins(callees, a, b)
    ensures AllPinned(callees, p, a + b) <==> AllPinned(callees, p, a) && AllPinned(callees, p, b)
    ensures HasPin(callees, a + b) <==> HasPin(callees, a) || HasPin(callees, b)
  {
    NothingStarts(callees);
    NoMatchWithoutU(callees, "");
    if a == "" {
      assert a + b == b;
    } else {
      var line := a[..|a| - 1];
      assert a == line + "\n" && a == line + "\n" + "";
      if Dangles(line) {
        DanglesLonger(line);
      }
      PinnedByLine(callees, p, line, b);
      PinnedByLine(callees, p, line, "");
      HasPinByLine(callees, line, b);
      HasPinByLine(callees, line, "");
    }
  }

  lemma HeadMatches(callees: seq<string>, s: string, b: string)
    requires AreCallees(callees) && PinAt(callees, s).Some?
    ensures PinAt(callees, s + b).Some? && PrefixAt(callees, s + b) == PrefixAt(callees, s)
    ensures PrefixAt(callees, s).value < |s|
  {
    var t, n := s + b, PrefixAt(callees, s).value;
    MatchNeeds(callees, s);
    assert t[..|s|] == s == s[..|s|];
    MatchLocal(callees, s, t, |s|);
    assert t[..n] == s[..n];
    PrefixLocal(callees, s, t);
  }

  lemma HeadFollows(s: string, b: string, n: nat, p: Pin)
    requires IsPin(p) && EndsLine(s) && n < |s| && Follows((s + b)[n..], p)
    ensures Follows(s[n..], p)
  {
    assert (s + b)[n..] == s[n..] + b;
    FollowsUpTo(s[n..], b, p);
  }

  /** A pin that starts the text, if one does, is the new one. */
  ghost predicate StartsPinned(callees: seq<string>, p: Pin, s: string) {
    PinAt(callees, s).Some? ==> PinnedAt(callees, p, s)
  }

  lemma HeadIsPinned(callees: seq<string>, p: Pin, s: string, b: string)
    requires AreCallees(callees) && IsPin(p) && EndsLine(s) && StartsPinned(callees, p, s + b)
    ensures StartsPinned(callees, p, s)
  {
    if PinAt(callees, s).Some? {
      HeadMatches(callees, s, b);
      HeadFollows(s, b, PrefixAt(callees, s).value, p);
    }
  }

  lemma DropJoined(a: string, b: string, i: nat)
    requires i <= |a|
    ensures (a + b)[i..] == a[i..] + b
  {}

  lemma StartsPinnedAt(callees: seq<string>, p: Pin, s: string, i: nat)
    requires AllPinned(callees, p, s) && i <= |s|
    ensures StartsPinned(callees, p, s[i..])
  {}

  /** What is pinned is pinned up to the end of any of its lines. */
  lemma PinnedUpTo(callees: seq<string>, p: Pin, a: string, b: string)
    requires AreCallees(callees) && IsPin(p) && EndsLine(a) && AllPinned(callees, p, a + b)
    ensures AllPinned(callees, p, a)
  {
    forall i: nat | i <= |a|
      ensures StartsPinned(callees, p, a[i..])
    {
      DropJoined(a, b, i);
      StartsPinnedAt(callees, p, a + b, i);
      HeadIsPinned(callees, p, a[i..], b);
    }
  }

  lemma FollowsUpTo(s: string, b: string, p: Pin)
    requires IsPin(p) && s != "" && EndsLine(s) && Follows(s + b, p)
    ensures Follows(s, p)
  {
    var w := PinText(p);
    if |w| < |s| {
      assert (s + b)[..|w|] == s[..|w|];
    } else {
      StartsWithChar(s + b, w, |s| - 1);
      PinTextChar(p, |s| - 1);
    }
  }

  // ------------------------------------------------------------------- lines that keep apart

  ghost function StaysInLine(): string -> bool {
    line => !Dangles(line)
  }

  ghost function StartsNoCall(callees: seq<string>): string -> bool {
    line => !StartsCallee(callees, line)
  }

  /** No line ends in `uses:`, or no line starts with a callee: no call can go on in another line. */
  ghost predicate Apart(callees: seq<string>, lines: seq<string>, last: string) {
    Have(lines, StaysInLine()) || (Have(lines, StartsNoCall(callees)) && !StartsCallee(callees, last))
  }

  /** Some `uses:` ends its line, and some line starts, behind whitespace, with a callee. */
  ghost predicate Entangled(callees: seq<string>, text: string) {
    !Apart(callees, LinesOf(text), LastOf(text))
  }

  lemma EntangledExactly(callees: seq<string>, text: string)
    ensures Entangled(callees, text)
       <==> && (exists line <- LinesOf(text) :: Dangles(line))
            && (exists line <- LinesOf(text) + [LastOf(text)] :: StartsCallee(callees, line))
  {
    var lines, last := LinesOf(text), LastOf(text);
    assert forall line :: StaysInLine()(line) == !Dangles(line);
    assert forall line :: StartsNoCall(callees)(line) == !StartsCallee(callees, line);
    assert forall line :: line in lines + [last] <==> line in lines || line == last;
  }

  lemma StartsInLine(callees: seq<string>, line: string, rest: string)
    requires AreCallees(callees) && !StartsCallee(callees, line) && !StartsCallee(callees, rest)
    ensures !StartsCallee(callees, line + "\n" + rest)
  {
    var gap, a, t := line[..Run(line, IsSpace)], AfterSpace(line), line + "\n" + rest;
    RunTakes(line, IsSpace);
    if a == "" {
      assert t == gap + "\n" + rest;
      RunOf(gap + "\n", rest, IsSpace);
      DropMore(t, |gap + "\n"|, Run(rest, IsSpace));
    } else {
      var b := a + "\n" + rest;
      assert t == gap + b;
      AfterSpaceOf(gap, b);
      CalleeInLine(callees, a, rest);
    }
  }

  lemma CalleeInLine(callees: seq<string>, a: string, rest: string)
    requires AreCallees(callees)
    ensures CalleeAt(callees, a + "\n" + rest).Some? <==> CalleeAt(callees, a).Some?
  {
    var b := a + "\n" + rest;
    CalleeAtIs(callees, b);
    CalleeAtIs(callees, a);
    forall c | c in callees
      ensures StartsWith(b, c) <==> StartsWith(a, c)
    {
      if StartsWith(b, c) && |c| > |a| {
        StartsWithChar(b, c, |a|);
      } else if |c| <= |a| {
        assert b[..|c|] == a[..|c|];
      }
    }
  }

  lemma {:induction false} NoCalleeAhead(callees: seq<string>, lines: seq<string>, last: string)
    requires AreCallees(callees) && Have(lines, StartsNoCall(callees)) && !StartsCallee(callees, last)
    ensures !StartsCallee(callees, Unlines(lines) + last)
  {
    if lines == [] {
      assert Unlines(lines) + last == last;
    } else {
      var rest := Unlines(lines[1..]) + last;
      HaveFirst(lines, StartsNoCall(callees));
      NoCalleeAhead(callees, lines[1..], last);
      StartsInLine(callees, lines[0], rest);
      assert Unlines(lines) + last == lines[0] + "\n" + rest;
    }
  }

  lemma ApartFirst(callees: seq<string>, lines: seq<string>, last: string)
    requires AreCallees(callees) && lines != [] && Apart(callees, lines, last)
    ensures !Joins(callees, lines[0], Unlines(lines[1..]) + last) && Apart(callees, lines[1..], last)
  {
    HaveFirst(lines, StaysInLine());
    HaveFirst(lines, StartsNoCall(callees));
    assert StaysInLine()(lines[0]) == !Dangles(lines[0]);
    if !Have(lines, StaysInLine()) {
      NoCalleeAhead(callees, lines[1..], last);
    }
  }

  // ------------------------------------------------------------------- bumped lines

  function BumpBy(callees: seq<string>, p: Pin): string -> string {
    line => Bump(callees, p, line)
  }

  lemma {:induction false} BumpLines(callees: seq<string>, p: Pin, lines: seq<string>, last: string)
    requires AreCallees(callees) && Apart(callees, lines, last)
    ensures Bump(callees, p, Unlines(lines) + last)
         == Unlines(MapSeq(lines, BumpBy(callees, p))) + Bump(callees, p, last)
  {
    if lines == [] {
      assert Unlines(lines) + last == last;
    } else {
      ApartFirst(callees, lines, last);
      BumpLines(callees, p, lines[1..], last);
      BumpByLine(callees, p, lines[0], Unlines(lines[1..]) + last);
      UnlinesAhead(lines, last);
      UnlinesFirst(lines, BumpBy(callees, p), Bump(callees, p, last));
    }
  }

  lemma UnlinesAhead(lines: seq<string>, last: string)
    requires lines != []
    ensures Unlines(lines) + last == lines[0] + "\n" + (Unlines(lines[1..]) + last)
  {
    Rejoin(lines[0] + "\n", Unlines(lines[1..]), last);
  }

  lemma UnlinesFirst(lines: seq<string>, f: string -> string, last: string)
    requires lines != []
    ensures Unlines(MapSeq(lines, f)) + last == f(lines[0]) + "\n" + (Unlines(MapSeq(lines[1..], f)) + last)
  {
    assert MapSeq(lines, f)[1..] == MapSeq(lines[1..], f);
    Rejoin(f(lines[0]) + "\n", Unlines(MapSeq(lines[1..], f)), last);
  }

  lemma OnePiece(s: string)
    ensures |Split(s, IsNewline)| == 1 <==> Without(s, IsNewline)
  {
    SplitPieces(s, IsNewline);
    JoinSplit(s);
    if Without(s, IsNewline) {
      SplitWithout(s, IsNewline);
    }
  }

  lemma BumpedLineIsLine(callees: seq<string>, p: Pin, line: string)
    requires AreCallees(callees) && IsPin(p) && Without(line, IsNewline)
    ensures Without(Bump(callees, p, line), IsNewline)
  {
    BumpKeepsLineCount(callees, p, line);
    OnePiece(line);
    OnePiece(Bump(callees, p, line));
  }

  /** The lines of the bump are the bumps of the lines. */
  lemma BumpedLines(callees: seq<string>, p: Pin, text: string)
    requires AreCallees(callees) && IsPin(p) && !Entangled(callees, text)
    ensures LinesOf(Bump(callees, p, text)) == MapSeq(LinesOf(text), BumpBy(callees, p))
    ensures LastOf(Bump(callees, p, text)) == Bump(callees, p, LastOf(text))
  {
    var lines, last := LinesOf(text), LastOf(text);
    var bumped := MapSeq(lines, BumpBy(callees, p));
    TextIsLines(text);
    BumpLines(callees, p, lines, last);
    BumpedLineIsLine(callees, p, last);
    forall line | line in bumped
      ensures Without(line, IsNewline)
    {
      var i :| 0 <= i < |bumped| && bumped[i] == line;
      assert lines[i] in lines;
      BumpedLineIsLine(callees, p, lines[i]);
    }
    LinesOfUnlines(bumped, Bump(callees, p, last));
  }

  // ------------------------------------------------------------------- a bump keeps lines apart

  /** A bump makes no line end in `uses:`. */
  lemma {:induction false} BumpDanglesNot(callees: seq<string>, p: Pin, s: string)
    requires AreCallees(callees) && IsPin(p) && Dangles(Bump(callees, p, s))
    ensures Dangles(s)
    decreases |s|
  {
    if s != "" {
      match PinAt(callees, s) {
        case None =>
          var b := Bump(callees, p, s[1..]);
          var i: nat :| i <= |[s[0]] + b| && DanglesAt([s[0]] + b, i);
          if i == 0 {
            DanglesUnchanged(callees, p, s);
          } else {
            DanglesBehind([s[0]], b, i);
            BumpDanglesNot(callees, p, s[1..]);
            DanglesFrom(s, 1);
          }
        case Some(m) =>
          var i: nat :| i <= |Bump(callees, p, s)| && DanglesAt(Bump(callees, p, s), i);
          DanglesBehindPin(callees, p, s, m, i);
          BumpDanglesNot(callees, p, s[m.end..]);
          DanglesFrom(s, m.end);
      }
    }
  }

  lemma DanglesBehind(a: string, b: string, i: nat)
    requires |a| <= i <= |a + b| && DanglesAt(a + b, i)
    ensures Dangles(b)
  {
    assert (a + b)[i..] == b[i - |a|..];
    forall k | i - |a| + |USES| <= k < |b|
      ensures IsSpace(b[k])
    {
      assert (a + b)[k + |a|] == b[k];
    }
    assert DanglesAt(b, i - |a|);
  }

  /** The bump changes nothing in front of a colon behind the one of `uses:`. */
  lemma DanglesUnchanged(callees: seq<string>, p: Pin, s: string)
    requires AreCallees(callees) && s != "" && DanglesAt([s[0]] + Bump(callees, p, s[1..]), 0)
    ensures Dangles(s)
  {
    var rest, b := s[1..], Bump(callees, p, s[1..]);
    BumpKeeps(callees, p, rest);
    assert s == [s[0]] + rest;
    ColonKept(s[0], rest, b, KeptBy(callees, rest));
    assert b == rest ==> DanglesAt(s, 0);
  }

  lemma ColonKept(c: char, s: string, t: string, k: nat)
    requires Keeps(s, t, k)
    ensures t != s ==> exists i :: |USES| <= i < |[c] + t| && ([c] + t)[i] == ':'
  {
    if t != s {
      var i :| 4 <= i < k && s[i] == ':';
      assert t[i] == t[..k][i] == s[..k][i];
      assert ([c] + t)[i + 1] == ':';
    }
  }

  lemma DanglesBehindPin(callees: seq<string>, p: Pin, s: string, m: Match, i: nat)
    requires AreCallees(callees) && IsPin(p) && PinAt(callees, s) == Some(m)
    requires i <= |Bump(callees, p, s)| && DanglesAt(Bump(callees, p, s), i)
    ensures Dangles(Bump(callees, p, s[m.end..]))
  {
    var prefix, rest := s[..m.prefix], s[m.end..];
    var b := Bump(callees, p, rest);
    MatchParts(callees, s);
    RestIsNoRef(callees, p, s, m);
    BumpAtMatch(callees, p, s, m, prefix, rest);
    Rejoin(prefix, PinText(p), b);
    PinDanglesNot(callees, prefix, p, b, i);
    DanglesBehind(prefix + PinText(p), b, i);
  }

  lemma RestIsNoRef(callees: seq<string>, p: Pin, s: string, m: Match)
    requires PinAt(callees, s) == Some(m)
    ensures var b := Bump(callees, p, s[m.end..]); b == "" || !IsRefChar(b[0])
  {
    AfterMatch(callees, s);
    BumpedRest(callees, p, s[m.end..]);
  }

  lemma PinDanglesNot(callees: seq<string>, prefix: string, p: Pin, rest: string, i: nat)
    requires AreCallees(callees) && IsPin(p) && PrefixAt(callees, prefix) == Some(|prefix|)
    requires rest == "" || !IsRefChar(rest[0])
    requires i <= |prefix + PinText(p) + rest| && DanglesAt(prefix + PinText(p) + rest, i)
    ensures i >= |prefix + PinText(p)|
  {
    AtInside(callees, prefix, PinText(p), rest);
    if 0 < i < |prefix + PinText(p)| {
      NoMatchWithin(callees, prefix, p, rest, i);
    }
  }

  lemma AtInside(callees: seq<string>, prefix: string, pin: string, rest: string)
    requires AreCallees(callees) && PrefixAt(callees, prefix) == Some(|prefix|)
    ensures |prefix| > |USES| && (prefix + pin + rest)[|prefix| - 1] == '@'
  {
    PrefixColon(callees, prefix);
    assert (prefix + pin + rest)[|prefix| - 1] == prefix[|prefix| - 1];
  }

  /** The characters of a text that starts, behind `g` of whitespace, with `c`. */
  ghost predicate CalleeBehind(s: string, g: nat, c: string) {
    && g + |c| <= |s|
    && (forall i :: 0 <= i < g ==> IsSpace(s[i]))
    && (forall i :: 0 <= i < |c| ==> s[g + i] == c[i])
  }

  lemma StartsBehind(callees: seq<string>, s: string) returns (g: nat, c: string)
    requires AreCallees(callees) && StartsCallee(callees, s)
    ensures c in callees && CalleeBehind(s, g, c)
  {
    g := Run(s, IsSpace);
    RunTakesEach(s, IsSpace);
    CalleeAtIs(callees, s[g..]);
    c :| c in callees && StartsWith(s[g..], c);
    forall i | 0 <= i < |c|
      ensures s[g + i] == c[i]
    {
      StartsWithChar(s[g..], c, i);
    }
  }

  lemma RunTakesEach(s: string, p: char -> bool)
    ensures forall i :: 0 <= i < Run(s, p) ==> p(s[i])
  {
    RunTakes(s, p);
    forall i | 0 <= i < Run(s, p)
      ensures p(s[i])
    {
      assert s[..Run(s, p)][i] == s[i];
    }
  }

  lemma BehindStarts(callees: seq<string>, s: string, g: nat, c: string)
    requires AreCallees(callees) && c in callees && CalleeBehind(s, g, c)
    ensures StartsCallee(callees, s)
  {
    var rest := s[g + |c|..];
    assert s == s[..g] + (c + rest);
    assert (c + rest)[0] == c[0];
    AfterSpaceOf(s[..g], c + rest);
    CalleeFound(callees, c, rest);
  }

  /** The first colon comes no sooner than the callee's end. */
  lemma ColonBehindCallee(t: string, g: nat, c: string, i: nat)
    requires CalleeBehind(t, g, c) && IsCallee(c) && i < |t|
    ensures t[i] == ':' ==> g + |c| <= i
  {
    if g <= i < g + |c| {
      assert t[g + (i - g)] == c[i - g];
    }
  }

  /** A bump makes no line start with a callee. */
  lemma BumpStartsNot(callees: seq<string>, p: Pin, s: string)
    requires AreCallees(callees) && StartsCallee(callees, Bump(callees, p, s))
    ensures StartsCallee(callees, s)
  {
    var t, k := Bump(callees, p, s), KeptBy(callees, s);
    BumpKeeps(callees, p, s);
    if t != s {
      var g, c := StartsBehind(callees, t);
      KeptStart(s, t, k, g, c);
      BehindStarts(callees, s, g, c);
    }
  }

  lemma KeptStart(s: string, t: string, k: nat, g: nat, c: string)
    requires Keeps(s, t, k) && t != s && IsCallee(c) && CalleeBehind(t, g, c)
    ensures CalleeBehind(s, g, c)
  {
    var i :| 4 <= i < k && s[i] == ':';
    forall j | 0 <= j < k
      ensures t[j] == s[j]
    {
      assert t[..k][j] == s[..k][j];
    }
    ColonBehindCallee(t, g, c, i);
  }

  lemma BumpedStay(callees: seq<string>, p: Pin, lines: seq<string>)
    requires AreCallees(callees) && IsPin(p) && Have(lines, StaysInLine())
    ensures Have(MapSeq(lines, BumpBy(callees, p)), StaysInLine())
  {
    forall line | line in MapSeq(lines, BumpBy(callees, p))
      ensures !Dangles(line)
    {
      MapSeqHas(lines, BumpBy(callees, p), line);
      var before :| before in lines && line == BumpBy(callees, p)(before);
      assert StaysInLine()(before);
      if Dangles(line) {
        BumpDanglesNot(callees, p, before);
      }
    }
  }

  lemma BumpedStartNoCall(callees: seq<string>, p: Pin, lines: seq<string>)
    requires AreCallees(callees) && Have(lines, StartsNoCall(callees))
    ensures Have(MapSeq(lines, BumpBy(callees, p)), StartsNoCall(callees))
  {
    forall line | line in MapSeq(lines, BumpBy(callees, p))
      ensures !StartsCallee(callees, line)
    {
      MapSeqHas(lines, BumpBy(callees, p), line);
      var before :| before in lines && line == BumpBy(callees, p)(before);
      assert StartsNoCall(callees)(before);
      if StartsCallee(callees, line) {
        BumpStartsNot(callees, p, before);
      }
    }
  }

  /** So a bump entangles no lines. */
  lemma BumpKeepsApart(callees: seq<string>, p: Pin, text: string)
    requires AreCallees(callees) && IsPin(p) && !Entangled(callees, text)
    ensures !Entangled(callees, Bump(callees, p, text))
  {
    var lines, last := LinesOf(text), LastOf(text);
    BumpedLines(callees, p, text);
    if Have(lines, StaysInLine()) {
      BumpedStay(callees, p, lines);
    } else {
      BumpedStartNoCall(callees, p, lines);
      if StartsCallee(callees, Bump(callees, p, last)) {
        BumpStartsNot(callees, p, last);
      }
    }
  }
}
