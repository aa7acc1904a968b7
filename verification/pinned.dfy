/**
  What a bump leaves behind (scripts/propagate.py, `_USES_RE.sub`): a text in which every pin is
  the new one, wherever a reader starts to look, and how that shows line by line.
 */
module Pinned {
  import opened Wrappers
  import opened Seqs
  import opened Text
  import opened Pins

  /** A text starts with a prefix and the pin, and then ends or goes on with whitespace. */
  ghost predicate PinnedAt(callees: seq<string>, p: Pin, s: string)
    requires PrefixAt(callees, s).Some?
  {
    Follows(s[PrefixAt(callees, s).value..], p)
  }

  ghost predicate Follows(s: string, p: Pin) {
    StartsWith(s, PinText(p)) && (|s| > |PinText(p)| ==> IsSpace(s[|PinText(p)|]))
  }

  /** Wherever a pin of one of the callees starts in `s`, it is the pin `p`, and nothing is glued to it. */
  ghost predicate AllPinned(callees: seq<string>, p: Pin, s: string) {
    forall i :: 0 <= i <= |s| && PinAt(callees, s[i..]).Some? ==> PinnedAt(callees, p, s[i..])
  }

  lemma UsesChar(t: string, i: nat, k: nat)
    requires i <= |t| && k < |USES|
    ensures StartsWith(t[i..], USES) ==> i + k < |t| && t[i + k] == USES[k]
  {
    if StartsWith(t[i..], USES) {
      StartsWithChar(t[i..], USES, k);
    }
  }

  /** The colons of a prefix and a pin: the one after `uses`. */
  lemma PinColon(callees: seq<string>, prefix: string, p: Pin, i: nat)
    requires AreCallees(callees) && IsPin(p) && PrefixAt(callees, prefix) == Some(|prefix|)
    requires i < |prefix + PinText(p)|
    ensures (prefix + PinText(p))[i] == ':' <==> i == 4
  {
    PrefixColon(callees, prefix);
  }

  /** No match starts inside a pin that ends there, nor behind the colon of its prefix. */
  lemma NoMatchWithin(callees: seq<string>, prefix: string, p: Pin, rest: string, i: nat)
    requires AreCallees(callees) && IsPin(p) && PrefixAt(callees, prefix) == Some(|prefix|)
    requires rest == "" || !IsRefChar(rest[0])
    requires 0 < i < |prefix + PinText(p)|
    ensures !StartsWith((prefix + PinText(p) + rest)[i..], USES)
  {
    var t := prefix + PinText(p) + rest;
    var n := |prefix + PinText(p)|;
    UsesChar(t, i, 4);
    if i + 4 < n {
      PinColon(callees, prefix, p, i + 4);
    } else {
      UsesChar(t, i, n - i);
    }
  }

  /** After a bump every pin is the new one, unless a match was glued to an empty comment. */
  lemma {:induction false} BumpedIsPinned(callees: seq<string>, p: Pin, s: string)
    requires AreCallees(callees) && IsPin(p) && Glued(callees, s) == 0
    ensures AllPinned(callees, p, Bump(callees, p, s))
    decreases |s|
  {
    if s != "" {
      match PinAt(callees, s) {
        case None =>
          BumpedIsPinned(callees, p, s[1..]);
          NoNewMatch(callees, p, s);
          PinnedBehind(callees, p, s[0], Bump(callees, p, s[1..]));
        case Some(m) =>
          BumpedIsPinned(callees, p, s[m.end..]);
          BumpedMatchIsPinned(callees, p, s, m);
      }
    }
  }

  lemma BumpedMatchIsPinned(callees: seq<string>, p: Pin, s: string, m: Match)
    requires AreCallees(callees) && IsPin(p) && PinAt(callees, s) == Some(m)
    requires m.end < |s| ==> s[m.end] != '#'
    requires AllPinned(callees, p, Bump(callees, p, s[m.end..]))
    ensures AllPinned(callees, p, Bump(callees, p, s))
  {
    var prefix, rest := s[..m.prefix], s[m.end..];
    var b := Bump(callees, p, rest);
    MatchParts(callees, s);
    AfterMatch(callees, s);
    BumpedRest(callees, p, rest);
    BumpAtMatch(callees, p, s, m, prefix, rest);
    PinnedBehindPin(callees, prefix, p, b);
    assert prefix + (PinText(p) + b) == prefix + PinText(p) + b;
  }

  lemma PinnedBehind(callees: seq<string>, p: Pin, c: char, t: string)
    requires AllPinned(callees, p, t) && PinAt(callees, [c] + t).None?
    ensures AllPinned(callees, p, [c] + t)
  {
    var u := [c] + t;
    assert u[0..] == u;
    forall i | 0 <= i <= |u| && PinAt(callees, u[i..]).Some?
      ensures PinnedAt(callees, p, u[i..])
    {
      assert i > 0;
      assert u[i..] == t[i - 1..];
    }
  }

  lemma PinnedBehindPin(callees: seq<string>, prefix: string, p: Pin, rest: string)
    requires AreCallees(callees) && IsPin(p) && PrefixAt(callees, prefix) == Some(|prefix|)
    requires rest == "" || IsSpace(rest[0])
    requires AllPinned(callees, p, rest)
    ensures AllPinned(callees, p, prefix + PinText(p) + rest)
  {
    var t, n := prefix + PinText(p) + rest, |prefix + PinText(p)|;
    forall i | 0 <= i <= |t| && PinAt(callees, t[i..]).Some?
      ensures PinnedAt(callees, p, t[i..])
    {
      if i == 0 {
        PinnedFirst(callees, prefix, p, rest);
        assert t[0..] == t;
      } else if i < n {
        NoMatchWithin(callees, prefix, p, rest, i);
      } else {
        DropBoth(prefix + PinText(p), rest, i - n);
      }
    }
  }

  lemma PinnedFirst(callees: seq<string>, prefix: string, p: Pin, rest: string)
    requires AreCallees(callees) && PrefixAt(callees, prefix) == Some(|prefix|)
    requires rest == "" || IsSpace(rest[0])
    ensures PrefixAt(callees, prefix + PinText(p) + rest) == Some(|prefix|)
    ensures PinnedAt(callees, p, prefix + PinText(p) + rest)
  {
    var t := prefix + PinText(p) + rest;
    assert t[..|prefix|] == prefix == prefix[..|prefix|];
    PrefixLocal(callees, prefix, t);
    var tail := PinText(p) + rest;
    assert t[|prefix|..] == tail;
    assert tail[..|PinText(p)|] == PinText(p);
  }

  /** A bump to the pin that is already everywhere changes nothing. */
  lemma {:induction false} PinnedIsStable(callees: seq<string>, p: Pin, s: string)
    requires AreCallees(callees) && IsPin(p) && AllPinned(callees, p, s)
    ensures Bump(callees, p, s) == s
    decreases |s|
  {
    if s != "" {
      match PinAt(callees, s) {
        case None =>
          PinnedFrom(callees, p, s, 1);
          PinnedIsStable(callees, p, s[1..]);
          assert [s[0]] + s[1..] == s;
        case Some(m) =>
          PinnedMatch(callees, p, s, m);
          PinnedFrom(callees, p, s, m.end);
          PinnedIsStable(callees, p, s[m.end..]);
          BumpAtMatch(callees, p, s, m, s[..m.prefix], s[m.end..]);
      }
    }
  }

  lemma PinnedFollows(callees: seq<string>, p: Pin, s: string, m: Match)
    requires AllPinned(callees, p, s) && PinAt(callees, s) == Some(m)
    ensures Follows(s[m.prefix..], p) && m.end == m.prefix + RefAt(s[m.prefix..])
  {
    assert s[0..] == s;
  }

  /** A pinned match is its prefix, the pin, and nothing more. */
  lemma PinnedMatch(callees: seq<string>, p: Pin, s: string, m: Match)
    requires AreCallees(callees) && IsPin(p) && AllPinned(callees, p, s) && PinAt(callees, s) == Some(m)
    ensures s == s[..m.prefix] + (PinText(p) + s[m.end..])
  {
    PinnedFollows(callees, p, s, m);
    var tail := s[m.prefix..];
    FollowsIsRef(tail, p);
    DropMore(s, m.prefix, |PinText(p)|);
    assert s == s[..m.prefix] + tail;
  }

  lemma FollowsIsRef(s: string, p: Pin)
    requires IsPin(p) && Follows(s, p)
    ensures RefAt(s) == |PinText(p)| && s == PinText(p) + s[|PinText(p)|..]
  {
    var rest := s[|PinText(p)|..];
    assert s == PinText(p) + rest;
    RefOfPin(p, rest);
    assert rest != "" ==> rest[0] == s[|PinText(p)|];
    assert Run(rest, IsNonSpace) == 0;
  }

  /** Every pin is the new one after a bump exactly when no match was glued to an empty comment. */
  lemma BumpedIsPinnedExactly(callees: seq<string>, p: Pin, s: string)
    requires AreCallees(callees) && IsPin(p)
    ensures AllPinned(callees, p, Bump(callees, p, s)) <==> Glued(callees, s) == 0
  {
    BumpIsIdempotentExactly(callees, p, s);
    if Glued(callees, s) == 0 {
      BumpedIsPinned(callees, p, s);
    } else if AllPinned(callees, p, Bump(callees, p, s)) {
      PinnedIsStable(callees, p, Bump(callees, p, s));
    }
  }

  lemma PinnedFrom(callees: seq<string>, p: Pin, s: string, k: nat)
    requires AllPinned(callees, p, s) && k <= |s|
    ensures AllPinned(callees, p, s[k..])
  {
    forall i | 0 <= i <= |s[k..]| && PinAt(callees, s[k..][i..]).Some?
      ensures PinnedAt(callees, p, s[k..][i..])
    {
      assert s[k..][i..] == s[k + i..];
    }
  }

  // ------------------------------------------------------------------- lines

  /** `uses:` with nothing but whitespace behind it: a call that may go on in the next line. */
  ghost predicate Dangles(line: string) {
    exists i :: 0 <= i <= |line| && DanglesAt(line, i)
  }

  ghost predicate DanglesAt(line: string, i: nat)
    requires i <= |line|
  {
    StartsWith(line[i..], USES) && forall k :: i + |USES| <= k < |line| ==> IsSpace(line[k])
  }

  lemma DanglesFrom(line: string, k: nat)
    requires k <= |line| && Dangles(line[k..])
    ensures Dangles(line)
  {
    var i :| 0 <= i <= |line[k..]| && DanglesAt(line[k..], i);
    assert line[k..][i..] == line[k + i..];
    forall j | k + i + |USES| <= j < |line|
      ensures IsSpace(line[j])
    {
      assert line[k..][j - k] == line[j];
    }
    assert DanglesAt(line, k + i);
  }

  /** The text starts, behind whitespace, with what a call names. */
  ghost predicate StartsCallee(callees: seq<string>, s: string) {
    CalleeAt(callees, AfterSpace(s)).Some?
  }

  /** A call that does go on behind its line: `uses:` ends the line, and a callee comes next. */
  ghost predicate Joins(callees: seq<string>, line: string, rest: string) {
    Dangles(line) && StartsCallee(callees, rest)
  }

  /** The prefix of a match stays within its line, unless the line joins what follows. */
  lemma PrefixInLine(callees: seq<string>, line: string, rest: string)
    requires AreCallees(callees) && !Joins(callees, line, rest)
    ensures PrefixAt(callees, line + "\n" + rest) == PrefixAt(callees, line)
  {
    var t := line + "\n" + rest;
    if PrefixAt(callees, line).Some? {
      var n := PrefixAt(callees, line).value;
      assert t[..n] == line[..n];
      PrefixLocal(callees, line, t);
    } else if PrefixAt(callees, t).Some? {
      PrefixPastLine(callees, line, rest);
    }
  }

  lemma SpaceIsInGap(gap: string, c: string, i: nat)
    requires Every(gap, IsSpace) && IsCallee(c) && i < |USES + gap + c|
    ensures IsSpace((USES + gap + c)[i]) <==> |USES| <= i < |USES| + |gap|
  {}

  lemma PrefixPastLine(callees: seq<string>, line: string, rest: string)
    requires AreCallees(callees) && PrefixAt(callees, line).None?
    requires PrefixAt(callees, line + "\n" + rest).Some?
    ensures Joins(callees, line, rest)
  {
    var t := line + "\n" + rest;
    var n := PrefixAt(callees, t).value;
    if n <= |line| {
      assert t[..n] == line[..n];
      PrefixLocal(callees, t, line);
    }
    var gap, c := PrefixParts(callees, t);
    var whole := USES + gap + c;
    var at := |line|;
    assert whole[at] == t[..n][at] == t[at] == '\n';
    SpaceIsInGap(gap, c, at);
    assert line[..|USES|] == t[..|USES|] == whole[..|USES|] == USES;
    forall i | |USES| <= i < |line|
      ensures IsSpace(line[i])
    {
      assert line[i] == t[..n][i] == whole[i];
      SpaceIsInGap(gap, c, i);
    }
    assert line[0..] == line;
    assert DanglesAt(line, 0);
    assert Every(line[|USES|..], IsSpace);
    CalleeBehindLine(callees, line, rest);
  }

  lemma CalleeBehindLine(callees: seq<string>, line: string, rest: string)
    requires |line| >= |USES| && Every(line[|USES|..], IsSpace)
    requires PrefixAt(callees, line + "\n" + rest).Some?
    ensures StartsCallee(callees, rest)
  {
    var t, gap := line + "\n" + rest, line[|USES|..] + "\n";
    assert t[|USES|..] == gap + rest;
    RunOf(gap, rest, IsSpace);
    DropMore(t, |USES|, Run(gap + rest, IsSpace));
    DropMore(gap + rest, |gap|, Run(rest, IsSpace));
    assert (gap + rest)[|gap|..] == rest;
  }

  /** A match is found in a line of a text exactly when it is found in the line alone, and is pinned there too. */
  lemma PinInLine(callees: seq<string>, p: Pin, line: string, rest: string)
    requires AreCallees(callees) && IsPin(p) && !Joins(callees, line, rest)
    ensures PinAt(callees, line + "\n" + rest).Some? <==> PinAt(callees, line).Some?
    ensures PinAt(callees, line).Some? ==>
              PrefixAt(callees, line + "\n" + rest).Some?
              && (PinnedAt(callees, p, line + "\n" + rest) <==> PinnedAt(callees, p, line))
  {
    var t := line + "\n" + rest;
    PrefixInLine(callees, line, rest);
    MatchNeeds(callees, t);
    MatchNeeds(callees, line);
    if PinAt(callees, line).Some? {
      var n := PrefixAt(callees, line).value;
      FollowsInLine(line[n..], p, rest);
      assert t[n..] == line[n..] + "\n" + rest;
    }
  }

  lemma FollowsInLine(s: string, p: Pin, rest: string)
    requires IsPin(p)
    ensures Follows(s + "\n" + rest, p) <==> Follows(s, p)
  {
    var t, w := s + "\n" + rest, PinText(p);
    if |w| <= |s| {
      assert t[..|w|] == s[..|w|];
    } else if Follows(t, p) {
      StartsWithChar(t, w, |s|);
      PinTextChar(p, |s|);
    }
  }

  lemma PinTextChar(p: Pin, i: nat)
    requires IsPin(p) && i < |PinText(p)|
    ensures PinText(p)[i] != '\n' && !IsLineBreak(PinText(p)[i])
  {
    var w, n := PinText(p), |p.sha|;
    if i < n {
      assert w[i] == p.sha[i];
    } else if i >= n + 3 {
      assert w[i] == p.tag[i - n - 3];
    } else {
      assert w[i] == " # "[i - n];
    }
  }

  /** Whether a text is pinned shows line by line. */
  lemma PinnedByLine(callees: seq<string>, p: Pin, line: string, rest: string)
    requires AreCallees(callees) && IsPin(p) && !Joins(callees, line, rest)
    ensures AllPinned(callees, p, line + "\n" + rest) <==> AllPinned(callees, p, line) && AllPinned(callees, p, rest)
  {
    var t := line + "\n" + rest;
    var n := |line| + 1;
    forall i: nat | i <= |line|
      ensures t[i..] == line[i..] + "\n" + rest
      ensures PinAt(callees, t[i..]).Some? <==> PinAt(callees, line[i..]).Some?
      ensures PinAt(callees, line[i..]).Some? ==>
                PrefixAt(callees, t[i..]).Some? && (PinnedAt(callees, p, t[i..]) <==> PinnedAt(callees, p, line[i..]))
    {
      assert t[i..] == line[i..] + "\n" + rest;
      if Dangles(line[i..]) {
        DanglesFrom(line, i);
      }
      PinInLine(callees, p, line[i..], rest);
    }
    if AllPinned(callees, p, t) {
      PinnedFrom(callees, p, t, n);
      assert t[n..] == rest;
    }
    if AllPinned(callees, p, line) && AllPinned(callees, p, rest) {
      forall i | 0 <= i <= |t| && PinAt(callees, t[i..]).Some?
        ensures PinnedAt(callees, p, t[i..])
      {
        if i >= n {
          assert t[i..] == rest[i - n..];
        }
      }
    }
  }

  // ------------------------------------------------------------------- newlines

  lemma {:induction false} SplitLength(a: string, b: string, sep: char -> bool)
    ensures |Split(a + b, sep)| == |Split(a, sep)| + |Split(b, sep)| - 1
  {
    if a == "" {
      assert a + b == b;
    } else {
      assert (a + b)[1..] == a[1..] + b && (a + b)[0] == a[0];
      SplitLength(a[1..], b, sep);
    }
  }

  lemma RefIsOneLine(s: string)
    ensures Without(s[..RefAt(s)], IsNewline)
  {
    var r := Run(s, IsRefChar);
    RunTakes(s, IsRefChar);
    if r > 0 {
      NoSpaceNoNewline(s[..r]);
      CommentIsOneLine(s[r..]);
      TakeMore(s, r, CommentAt(s[r..]));
      WithoutJoins(s[..r], s[r..][..CommentAt(s[r..])], IsNewline);
    }
  }

  lemma NoSpaceNoNewline(s: string)
    requires forall i :: 0 <= i < |s| ==> IsBlank(s[i]) || !IsSpace(s[i])
    ensures Without(s, IsNewline)
  {}

  lemma CommentIsOneLine(s: string)
    ensures Without(s[..CommentAt(s)], IsNewline)
  {
    var b := Run(s, IsBlank);
    if CommentAt(s) > 0 {
      RunTakes(s, IsBlank);
      NoSpaceNoNewline(s[..b] + "#");
      assert s[..b + 1] == s[..b] + "#";
      WordIsOneLine(s[b + 1..]);
      TakeMore(s, b + 1, WordAt(s[b + 1..]));
      WithoutJoins(s[..b + 1], s[b + 1..][..WordAt(s[b + 1..])], IsNewline);
    }
  }

  lemma WordIsOneLine(s: string)
    ensures Without(s[..WordAt(s)], IsNewline)
  {
    var c := Run(s, IsBlank);
    var w := Run(s[c..], IsNonSpace);
    if w > 0 {
      RunTakes(s, IsBlank);
      RunTakes(s[c..], IsNonSpace);
      NoSpaceNoNewline(s[..c]);
      NoSpaceNoNewline(s[c..][..w]);
      TakeMore(s, c, w);
      WithoutJoins(s[..c], s[c..][..w], IsNewline);
    }
  }

  lemma PinIsOneLine(p: Pin)
    requires IsPin(p)
    ensures Without(PinText(p), IsNewline)
  {
    forall i | 0 <= i < |PinText(p)|
      ensures !IsNewline(PinText(p)[i])
    {
      PinTextChar(p, i);
    }
  }

  /** A bump adds no line and takes none away. */
  lemma {:induction false} BumpKeepsLineCount(callees: seq<string>, p: Pin, s: string)
    requires AreCallees(callees) && IsPin(p)
    ensures |Split(Bump(callees, p, s), IsNewline)| == |Split(s, IsNewline)|
    decreases |s|
  {
    if s != "" {
      match PinAt(callees, s) {
        case None =>
          BumpKeepsLineCount(callees, p, s[1..]);
          SplitLength([s[0]], Bump(callees, p, s[1..]), IsNewline);
          SplitLength([s[0]], s[1..], IsNewline);
          assert s == [s[0]] + s[1..];
        case Some(m) =>
          BumpKeepsLineCount(callees, p, s[m.end..]);
          MatchKeepsLineCount(callees, p, s, m);
      }
    }
  }

  lemma MatchKeepsLineCount(callees: seq<string>, p: Pin, s: string, m: Match)
    requires AreCallees(callees) && IsPin(p) && PinAt(callees, s) == Some(m)
    requires |Split(Bump(callees, p, s[m.end..]), IsNewline)| == |Split(s[m.end..], IsNewline)|
    ensures |Split(Bump(callees, p, s), IsNewline)| == |Split(s, IsNewline)|
  {
    var prefix, mid, rest := s[..m.prefix], s[m.prefix..][..m.end - m.prefix], s[m.end..];
    RefIsOneLine(s[m.prefix..]);
    PinIsOneLine(p);
    BumpAtMatch(callees, p, s, m, prefix, rest);
    MatchCut(s, m);
    SameLineCount(prefix, mid, rest, PinText(p), Bump(callees, p, rest));
  }

  lemma MatchCut(s: string, m: Match)
    requires m.prefix <= m.end <= |s|
    ensures s == s[..m.prefix] + (s[m.prefix..][..m.end - m.prefix] + s[m.end..])
  {
    DropMore(s, m.prefix, m.end - m.prefix);
    assert s[m.prefix..] == s[m.prefix..][..m.end - m.prefix] + s[m.end..];
    assert s == s[..m.prefix] + s[m.prefix..];
  }

  lemma SameLineCount(a: string, b: string, c: string, b': string, c': string)
    requires Without(b, IsNewline) && Without(b', IsNewline)
    requires |Split(c, IsNewline)| == |Split(c', IsNewline)|
    ensures |Split(a + (b + c), IsNewline)| == |Split(a + (b' + c'), IsNewline)|
  {
    SplitLength(a, b + c, IsNewline);
    SplitLength(a, b' + c', IsNewline);
    SplitLength(b, c, IsNewline);
    SplitLength(b', c', IsNewline);
    SplitWithout(b, IsNewline);
    SplitWithout(b', IsNewline);
  }
}
