/**
  The pins of a workflow (scripts/propagate.py, `_USES_RE` and `_AUTO_MERGE_USES_RE`): a call of
  one of the toolchain's workflows, the ref after its `@`, and the version comment after that.
  Substitution works on the characters of the whole text, as `re.sub` does.
 */
module Pins {
  import opened Wrappers
  import opened Seqs
  import opened Text

  // ------------------------------------------------------------------- runs of characters

  predicate IsBlank(c: char) {
    c == ' ' || c == '\t'
  }

  predicate IsNonSpace(c: char) {
    !IsSpace(c)
  }

  /** `[^\s#]`. */
  predicate IsRefChar(c: char) {
    !IsSpace(c) && c != '#'
  }

  /** How many characters a greedy `[...]*` takes. */
  function Run(s: string, p: char -> bool): (n: nat)
    ensures n <= |s|
  {
    if s != "" && p(s[0]) then 1 + Run(s[1..], p) else 0
  }

  ghost predicate Every(s: string, p: char -> bool) {
    forall i :: 0 <= i < |s| ==> p(s[i])
  }

  lemma {:induction false} RunTakes(s: string, p: char -> bool)
    ensures Every(s[..Run(s, p)], p)
    ensures Run(s, p) < |s| ==> !p(s[Run(s, p)])
  {
    if s != "" && p(s[0]) {
      RunTakes(s[1..], p);
      assert s[..Run(s, p)] == [s[0]] + s[1..][..Run(s[1..], p)];
    }
  }

  lemma RunStops(s: string, p: char -> bool)
    ensures s[Run(s, p)..] == "" || !p(s[Run(s, p)..][0])
  {
    RunTakes(s, p);
  }

  lemma {:induction false} RunOf(a: string, b: string, p: char -> bool)
    requires Every(a, p)
    ensures Run(a + b, p) == |a| + Run(b, p)
  {
    if a == "" {
      assert a + b == b;
    } else {
      assert (a + b)[1..] == a[1..] + b && (a + b)[0] == a[0];
      RunOf(a[1..], b, p);
    }
  }

  /** What follows `\s*` at the start of a text. */
  function AfterSpace(s: string): (r: string)
    ensures |r| <= |s|
  {
    s[Run(s, IsSpace)..]
  }

  lemma AfterSpaceOf(gap: string, rest: string)
    requires Every(gap, IsSpace) && (rest != "" ==> !IsSpace(rest[0]))
    ensures AfterSpace(gap + rest) == rest
  {
    RunOf(gap, rest, IsSpace);
    assert Run(rest, IsSpace) == 0;
  }

  // ------------------------------------------------------------------- what a pin is

  const USES := "uses:"

  /**
    What follows `uses:` and whitespace, up to the `@`: one of a few fixed texts, each with its
    only `@` at its end and without whitespace or a colon.
   */
  ghost predicate IsCallee(c: string) {
    && c != "" && c[|c| - 1] == '@'
    && (forall i :: 0 <= i < |c| - 1 ==> c[i] != '@')
    && (forall i :: 0 <= i < |c| ==> c[i] != ':' && !IsSpace(c[i]))
  }

  ghost predicate AreCallees(callees: seq<string>) {
    forall c <- callees :: IsCallee(c)
  }

  function CalleeAt(callees: seq<string>, s: string): (r: Option<nat>)
    ensures r.Some? ==> r.value <= |s|
  {
    if callees == [] then None
    else if StartsWith(s, callees[0]) then Some(|callees[0]|)
    else CalleeAt(callees[1..], s)
  }

  /** The length of group 1 of the pattern at the start of `s`: `uses:\s*<callee>`. */
  function PrefixAt(callees: seq<string>, s: string): (r: Option<nat>)
    ensures r.Some? ==> |USES| <= r.value <= |s|
  {
    if !StartsWith(s, USES) then None
    else
      var n := |USES| + Run(s[|USES|..], IsSpace);
      match CalleeAt(callees, s[n..])
      case None => None
      case Some(c) => Some(n + c)
  }

  /** The length of `[ \t]*[^\s]+` at the start of `s`, or 0. */
  function WordAt(s: string): (n: nat)
    ensures n <= |s|
  {
    var c := Run(s, IsBlank);
    var w := Run(s[c..], IsNonSpace);
    if w > 0 then c + w else 0
  }

  /** The length of `([ \t]*#[ \t]*[^\s]+)?` at the start of `s`. */
  function CommentAt(s: string): (n: nat)
    ensures n <= |s|
  {
    var b := Run(s, IsBlank);
    if b < |s| && s[b] == '#' && WordAt(s[b + 1..]) > 0 then b + 1 + WordAt(s[b + 1..]) else 0
  }

  /** A match at the start of a text: where group 1 ends, and where the match ends. */
  datatype Match = Match(prefix: nat, end: nat)

  /** The length of a ref and its comment at the start of `s`, or 0 when there is no ref. */
  function RefAt(s: string): (n: nat)
    ensures n <= |s|
  {
    var r := Run(s, IsRefChar);
    if r == 0 then 0 else r + CommentAt(s[r..])
  }

  function PinAt(callees: seq<string>, s: string): (r: Option<Match>)
    ensures r.Some? ==> |USES| <= r.value.prefix < r.value.end <= |s|
  {
    match PrefixAt(callees, s)
    case None => None
    case Some(n) => if RefAt(s[n..]) == 0 then None else Some(Match(n, n + RefAt(s[n..])))
  }

  // ------------------------------------------------------------------- substitution

  datatype Pin = Pin(sha: string, tag: string)

  /** A commit and a git tag: no whitespace and no colon, and no `#` in the commit. */
  ghost predicate IsPin(p: Pin) {
    && p.sha != "" && (forall i :: 0 <= i < |p.sha| ==> IsRefChar(p.sha[i]) && p.sha[i] != ':')
    && p.tag != "" && (forall i :: 0 <= i < |p.tag| ==> IsNonSpace(p.tag[i]) && p.tag[i] != ':')
  }

  function PinText(p: Pin): string {
    p.sha + " # " + p.tag
  }

  /** `_USES_RE.sub(...)`: every match keeps its group 1 and gets the new pin. */
  function Bump(callees: seq<string>, p: Pin, s: string): string
    decreases |s|
  {
    if s == "" then ""
    else
      match PinAt(callees, s)
      case Some(m) => s[..m.prefix] + (PinText(p) + Bump(callees, p, s[m.end..]))
      case None => [s[0]] + Bump(callees, p, s[1..])
  }

  /** `_USES_RE.search(s)`. */
  predicate HasPin(callees: seq<string>, s: string)
    decreases |s|
  {
    PinAt(callees, s).Some? || (s != "" && HasPin(callees, s[1..]))
  }

  /** How many of the matches are glued to an empty comment: a `#` follows, and nothing after it. */
  function Glued(callees: seq<string>, s: string): nat
    decreases |s|
  {
    if s == "" then 0
    else
      match PinAt(callees, s)
      case Some(m) => (if m.end < |s| && s[m.end] == '#' then 1 else 0) + Glued(callees, s[m.end..])
      case None => Glued(callees, s[1..])
  }

  // ------------------------------------------------------------------- the prefix

  lemma {:induction false} CalleeAtIs(callees: seq<string>, s: string)
    ensures CalleeAt(callees, s).Some? ==>
              exists c :: c in callees && StartsWith(s, c) && |c| == CalleeAt(callees, s).value
    ensures CalleeAt(callees, s).None? ==> forall c <- callees :: !StartsWith(s, c)
  {
    if callees != [] && !StartsWith(s, callees[0]) {
      CalleeAtIs(callees[1..], s);
    }
  }

  lemma StartsWithChar(s: string, w: string, i: nat)
    requires StartsWith(s, w) && i < |w|
    ensures s[i] == w[i]
  {
    assert s[..|w|][i] == s[i];
  }

  /** Two callees a text starts with are of one length: the first `@` ends both. */
  lemma OneCallee(c: string, d: string, s: string)
    requires IsCallee(c) && IsCallee(d) && StartsWith(s, c) && StartsWith(s, d)
    ensures |c| == |d|
  {
    var n := if |c| <= |d| then |c| else |d|;
    StartsWithChar(s, c, n - 1);
    StartsWithChar(s, d, n - 1);
  }

  /** A text that starts with a callee is found to start with one of that length. */
  lemma CalleeFound(callees: seq<string>, c: string, rest: string)
    requires AreCallees(callees) && c in callees
    ensures CalleeAt(callees, c + rest) == Some(|c|)
  {
    var s := c + rest;
    assert StartsWith(s, c);
    CalleeAtIs(callees, s);
    var d :| d in callees && StartsWith(s, d) && |d| == CalleeAt(callees, s).value;
    OneCallee(c, d, s);
  }

  /** A prefix taken apart: `uses:`, whitespace, a callee. */
  lemma PrefixParts(callees: seq<string>, s: string) returns (gap: string, c: string)
    requires AreCallees(callees) && PrefixAt(callees, s).Some?
    ensures Every(gap, IsSpace) && c in callees && IsCallee(c)
    ensures s[..PrefixAt(callees, s).value] == USES + gap + c
  {
    var tail := s[5..];
    gap := tail[..Run(tail, IsSpace)];
    RunTakes(tail, IsSpace);
    var rest := s[5 + |gap|..];
    CalleeAtIs(callees, rest);
    c :| c in callees && StartsWith(rest, c) && |c| == CalleeAt(callees, rest).value;
    assert s[..5 + |gap| + |c|] == s[..5] + s[5..][..|gap|] + s[5 + |gap|..][..|c|];
  }

  /** And put together. */
  lemma PrefixOf(callees: seq<string>, gap: string, c: string, rest: string)
    requires AreCallees(callees) && Every(gap, IsSpace) && c in callees
    ensures PrefixAt(callees, USES + gap + c + rest) == Some(|USES + gap + c|)
  {
    var s := USES + gap + c + rest;
    var tail := c + rest;
    assert s[..5] == USES && s[5..] == gap + tail && s[5 + |gap|..] == tail;
    assert tail[0] == c[0];
    RunOf(gap, tail, IsSpace);
    CalleeFound(callees, c, rest);
  }

  /** A prefix has its only colon at index 4 and ends in `@`. */
  lemma PrefixColon(callees: seq<string>, s: string)
    requires AreCallees(callees) && PrefixAt(callees, s).Some?
    ensures PrefixAt(callees, s).value > |USES|
    ensures s[PrefixAt(callees, s).value - 1] == '@'
    ensures forall i :: 0 <= i < PrefixAt(callees, s).value ==> (s[i] == ':' <==> i == 4)
  {
    var gap, c := PrefixParts(callees, s);
    var n := PrefixAt(callees, s).value;
    var whole := USES + gap + c;
    forall i | 0 <= i < n
      ensures s[i] == whole[i] && (whole[i] == ':' <==> i == 4)
    {
      assert s[..n][i] == s[i];
    }
    assert whole[n - 1] == c[|c| - 1];
  }

  /** Whether a text starts with a prefix shows in the prefix alone. */
  lemma PrefixLocal(callees: seq<string>, s: string, t: string)
    requires AreCallees(callees) && PrefixAt(callees, s).Some?
    requires PrefixAt(callees, s).value <= |t| && t[..PrefixAt(callees, s).value] == s[..PrefixAt(callees, s).value]
    ensures PrefixAt(callees, t) == PrefixAt(callees, s)
  {
    var n := PrefixAt(callees, s).value;
    var gap, c := PrefixParts(callees, s);
    assert t == USES + gap + c + t[n..];
    PrefixOf(callees, gap, c, t[n..]);
  }

  // ------------------------------------------------------------------- a text that starts with a pin

  lemma PinAfterPrefix(callees: seq<string>, prefix: string, tail: string)
    requires AreCallees(callees) && PrefixAt(callees, prefix) == Some(|prefix|) && RefAt(tail) != 0
    ensures PinAt(callees, prefix + tail) == Some(Match(|prefix|, |prefix| + RefAt(tail)))
  {
    var s := prefix + tail;
    assert s[..|prefix|] == prefix == prefix[..|prefix|];
    PrefixLocal(callees, prefix, s);
    assert s[|prefix|..] == tail;
  }

  /** A written pin reads back as one ref and comment, together with whatever is glued to its tag. */
  lemma RefOfPin(p: Pin, rest: string)
    requires IsPin(p)
    ensures RefAt(PinText(p) + rest) == |PinText(p)| + Run(rest, IsNonSpace) > 0
  {
    var comment := " # " + p.tag + rest;
    var t := PinText(p) + rest;
    assert t == p.sha + comment;
    RunOf(p.sha, comment, IsRefChar);
    assert Run(comment, IsRefChar) == 0;
    assert t[|p.sha|..] == comment;
    CommentOfTag(p.tag, rest);
  }

  lemma WordOfTag(tag: string, rest: string)
    requires tag != "" && Every(tag, IsNonSpace)
    ensures WordAt(" " + (tag + rest)) == 1 + |tag| + Run(rest, IsNonSpace)
  {
    var word := tag + rest;
    assert word[0] == tag[0];
    assert Run(word, IsBlank) == 0;
    RunOf(" ", word, IsBlank);
    assert (" " + word)[1..] == word;
    RunOf(tag, rest, IsNonSpace);
  }

  lemma CommentOfTag(tag: string, rest: string)
    requires tag != "" && Every(tag, IsNonSpace)
    ensures CommentAt(" # " + tag + rest) == 3 + |tag| + Run(rest, IsNonSpace)
  {
    var s, word := " # " + tag + rest, " " + (tag + rest);
    assert s == " " + ("#" + word) && Run("#" + word, IsBlank) == 0;
    RunOf(" ", "#" + word, IsBlank);
    assert s[1] == '#' && s[2..] == word;
    WordOfTag(tag, rest);
  }

  /** Any ref with a comment: the ref up to its `#` or whitespace, and the comment's one word, are taken whole. */
  lemma RefWithComment(ref: string, a: string, b: string, word: string, rest: string)
    requires ref != "" && Every(ref, IsRefChar) && Every(a, IsBlank) && Every(b, IsBlank)
    requires word != "" && Every(word, IsNonSpace) && (rest == "" || IsSpace(rest[0]))
    ensures RefAt(ref + (a + ("#" + (b + (word + rest))))) == |ref + (a + ("#" + (b + word)))|
  {
    var tail := b + (word + rest);
    var comment := a + ("#" + tail);
    assert ("#" + tail)[0] == '#' && !IsBlank('#');
    RunOf(a, "#" + tail, IsBlank);
    assert comment[|a|] == '#' && comment[|a| + 1..] == tail;
    assert (word + rest)[0] == word[0] && !IsBlank(word[0]);
    RunOf(b, word + rest, IsBlank);
    assert tail[|b|..] == word + rest;
    RunOf(word, rest, IsNonSpace);
    assert Run(rest, IsNonSpace) == 0;
    RefBefore(ref, comment);
  }

  lemma RefBefore(ref: string, comment: string)
    requires ref != "" && Every(ref, IsRefChar) && (comment == "" || !IsRefChar(comment[0]))
    ensures RefAt(ref + comment) == |ref| + CommentAt(comment)
  {
    RunOf(ref, comment, IsRefChar);
    assert (ref + comment)[|ref|..] == comment;
  }

  /** A ref without a comment is taken alone: behind it, and behind blanks, comes no `#`. */
  lemma RefWithoutComment(ref: string, a: string, rest: string)
    requires ref != "" && Every(ref, IsRefChar) && Every(a, IsBlank)
    requires rest == "" || (!IsBlank(rest[0]) && rest[0] != '#' && (a == "" ==> IsSpace(rest[0])))
    ensures RefAt(ref + (a + rest)) == |ref|
  {
    RunOf(a, rest, IsBlank);
    assert a != "" ==> (a + rest)[0] == a[0];
    assert a == "" ==> a + rest == rest;
    RefBefore(ref, a + rest);
  }

  /** Nothing, whitespace, or a `#` with nothing but whitespace right after it. */
  ghost predicate EndsMatch(rest: string) {
    || rest == "" || IsSpace(rest[0])
    || (rest[0] == '#' && (rest[1..] == "" || IsSpace(rest[1..][0])))
  }

  /** A word ends at whitespace or at the end; where there is none there is nothing or whitespace. */
  lemma WordEnds(s: string)
    ensures var rest := s[WordAt(s)..]; rest == "" || IsSpace(rest[0])
  {
    var c := Run(s, IsBlank);
    RunTakes(s, IsBlank);
    RunTakes(s[c..], IsNonSpace);
    if WordAt(s) > 0 {
      DropMore(s, c, WordAt(s) - c);
    } else {
      assert s[0..] == s;
      assert c > 0 ==> IsBlank(s[..c][0]);
      assert c == 0 ==> s[c..] == s;
    }
  }

  lemma CommentEndsMatch(u: string)
    requires u == "" || !IsRefChar(u[0])
    ensures EndsMatch(u[CommentAt(u)..])
  {
    var b := Run(u, IsBlank);
    RunTakes(u, IsBlank);
    if b < |u| && u[b] == '#' {
      WordEnds(u[b + 1..]);
    }
    if CommentAt(u) > 0 {
      DropMore(u, b + 1, WordAt(u[b + 1..]));
    } else {
      assert u[0..] == u;
      assert b > 0 ==> IsBlank(u[..b][0]);
    }
  }

  lemma RefEndsMatch(t: string)
    requires RefAt(t) != 0
    ensures EndsMatch(t[RefAt(t)..])
  {
    var r := Run(t, IsRefChar);
    RunStops(t, IsRefChar);
    CommentEndsMatch(t[r..]);
    DropMore(t, r, CommentAt(t[r..]));
  }

  /** What follows a match. */
  lemma AfterMatch(callees: seq<string>, s: string)
    requires PinAt(callees, s).Some?
    ensures EndsMatch(s[PinAt(callees, s).value.end..])
  {
    var n := PrefixAt(callees, s).value;
    RefEndsMatch(s[n..]);
    assert s[n + RefAt(s[n..])..] == s[n..][RefAt(s[n..])..];
  }

  // ------------------------------------------------------------------- substitution keeps the rest

  /** How far `Bump` leaves a text as it is: through the first prefix, or to the end. */
  function KeptBy(callees: seq<string>, s: string): (n: nat)
    ensures n <= |s|
    decreases |s|
  {
    if s == "" then 0
    else
      match PinAt(callees, s)
      case Some(m) => m.prefix
      case None => 1 + KeptBy(callees, s[1..])
  }

  ghost predicate ColonBefore(s: string, k: nat)
    requires k <= |s|
  {
    exists i :: 4 <= i < k && s[i] == ':'
  }

  /** `t` agrees with `s` for `k` characters, and entirely unless a colon comes before that. */
  ghost predicate Keeps(s: string, t: string, k: nat) {
    && k <= |s| && k <= |t| && t[..k] == s[..k]
    && (t == s || ColonBefore(s, k))
  }

  lemma KeepsOneMore(c: char, s: string, t: string, k: nat)
    requires Keeps(s, t, k)
    ensures Keeps([c] + s, [c] + t, 1 + k)
  {
    assert ([c] + t)[..1 + k] == [c] + t[..k];
    assert ([c] + s)[..1 + k] == [c] + s[..k];
    if t != s {
      var i :| 4 <= i < k && s[i] == ':';
      assert ([c] + s)[i + 1] == ':';
    }
  }

  lemma {:induction false} BumpKeeps(callees: seq<string>, p: Pin, s: string)
    requires AreCallees(callees)
    ensures Keeps(s, Bump(callees, p, s), KeptBy(callees, s))
    decreases |s|
  {
    if s != "" {
      match PinAt(callees, s) {
        case Some(m) =>
          PrefixColon(callees, s);
          assert s[4] == ':';
        case None =>
          BumpKeeps(callees, p, s[1..]);
          KeepsOneMore(s[0], s[1..], Bump(callees, p, s[1..]), KeptBy(callees, s[1..]));
          assert [s[0]] + s[1..] == s;
      }
    }
  }

  /** A match needs a prefix and one more character. */
  lemma MatchNeeds(callees: seq<string>, s: string)
    ensures PinAt(callees, s).Some?
       <==> PrefixAt(callees, s).Some? && PrefixAt(callees, s).value < |s| && IsRefChar(s[PrefixAt(callees, s).value])
  {
    if PrefixAt(callees, s).Some? {
      var n := PrefixAt(callees, s).value;
      assert n < |s| ==> s[n..][0] == s[n];
    }
  }

  lemma MatchLocal(callees: seq<string>, s: string, t: string, n: nat)
    requires AreCallees(callees) && n <= |s| && n <= |t| && s[..n] == t[..n]
    requires PinAt(callees, s).Some? && PrefixAt(callees, s).value < n
    ensures PinAt(callees, t).Some?
  {
    var k := PrefixAt(callees, s).value;
    assert s[..k] == s[..n][..k] == t[..n][..k] == t[..k];
    PrefixLocal(callees, s, t);
    MatchNeeds(callees, s);
    MatchNeeds(callees, t);
    assert s[k] == s[..n][k] == t[..n][k] == t[k];
  }

  /** A change behind a colon makes no match that starts before it. */
  lemma NoMatchByChange(callees: seq<string>, s: string, t: string, k: nat)
    requires AreCallees(callees) && k <= |s| && k <= |t| && s[..k] == t[..k]
    requires exists i :: 5 <= i < k && s[i] == ':'
    requires PinAt(callees, s).None?
    ensures PinAt(callees, t).None?
  {
    if PinAt(callees, t).Some? {
      PrefixColon(callees, t);
      var i :| 5 <= i < k && s[i] == ':';
      assert t[i] == t[..k][i] == s[..k][i];
      MatchLocal(callees, t, s, k);
    }
  }

  /** Where nothing matched, nothing matches after the rest has been substituted. */
  lemma NoNewMatch(callees: seq<string>, p: Pin, s: string)
    requires AreCallees(callees) && s != "" && PinAt(callees, s).None?
    ensures PinAt(callees, [s[0]] + Bump(callees, p, s[1..])).None?
  {
    BumpKeeps(callees, p, s[1..]);
    assert s == [s[0]] + s[1..];
    NoMatchWhenKept(callees, s[0], s[1..], Bump(callees, p, s[1..]), KeptBy(callees, s[1..]));
  }

  lemma NoMatchWhenKept(callees: seq<string>, c: char, rest: string, b: string, k: nat)
    requires AreCallees(callees) && PinAt(callees, [c] + rest).None? && Keeps(rest, b, k)
    ensures PinAt(callees, [c] + b).None?
  {
    if b != rest {
      var s, t := [c] + rest, [c] + b;
      assert t[..1 + k] == [c] + b[..k] == [c] + rest[..k] == s[..1 + k];
      var i :| 4 <= i < k && rest[i] == ':';
      assert s[i + 1] == ':';
      NoMatchByChange(callees, s, t, 1 + k);
    }
  }

  lemma NoMatchWithoutU(callees: seq<string>, s: string)
    requires s == "" || s[0] != 'u'
    ensures PinAt(callees, s).None?
  {
    if StartsWith(s, USES) {
      StartsWithChar(s, USES, 0);
    }
  }

  /** The first character stays, unless a match starts with it. */
  lemma BumpFirst(callees: seq<string>, p: Pin, s: string)
    requires s == "" || s[0] != 'u'
    ensures Bump(callees, p, s) == if s == "" then "" else [s[0]] + Bump(callees, p, s[1..])
  {
    NoMatchWithoutU(callees, s);
  }

  // ------------------------------------------------------------------- bumping twice

  /** `s` taken apart at a match that starts it. */
  lemma MatchParts(callees: seq<string>, s: string)
    requires AreCallees(callees) && PinAt(callees, s).Some?
    ensures var m := PinAt(callees, s).value;
            PrefixAt(callees, s[..m.prefix]) == Some(m.prefix)
  {
    var n := PinAt(callees, s).value.prefix;
    assert s[..n] == s[..n][..n];
    PrefixLocal(callees, s, s[..n]);
  }

  lemma BumpAtMatch(callees: seq<string>, q: Pin, s: string, m: Match, prefix: string, rest: string)
    requires PinAt(callees, s) == Some(m) && s[..m.prefix] == prefix && s[m.end..] == rest
    ensures Bump(callees, q, s) == prefix + (PinText(q) + Bump(callees, q, rest))
  {}

  lemma BumpAfterPrefix(callees: seq<string>, q: Pin, prefix: string, tail: string, n: nat)
    requires AreCallees(callees) && PrefixAt(callees, prefix) == Some(|prefix|) && n == RefAt(tail) > 0
    ensures Bump(callees, q, prefix + tail) == prefix + (PinText(q) + Bump(callees, q, tail[n..]))
  {
    PinAfterPrefix(callees, prefix, tail);
    DropBoth(prefix, tail, n);
    BumpAtMatch(callees, q, prefix + tail, Match(|prefix|, |prefix| + n), prefix, tail[n..]);
  }

  /** Bumping a text that starts with a written pin. */
  lemma BumpPinned(callees: seq<string>, q: Pin, prefix: string, p: Pin, rest: string)
    requires AreCallees(callees) && IsPin(p) && PrefixAt(callees, prefix) == Some(|prefix|)
    ensures Bump(callees, q, prefix + (PinText(p) + rest))
         == prefix + (PinText(q) + Bump(callees, q, rest[Run(rest, IsNonSpace)..]))
  {
    var tail := PinText(p) + rest;
    RefOfPin(p, rest);
    assert tail[RefAt(tail)..] == rest[Run(rest, IsNonSpace)..];
    BumpAfterPrefix(callees, q, prefix, tail, |PinText(p)| + Run(rest, IsNonSpace));
  }

  /** What follows a match, bumped: its first character stays. */
  lemma BumpedRest(callees: seq<string>, p: Pin, rest: string)
    requires EndsMatch(rest)
    ensures rest == "" || IsSpace(rest[0]) ==>
              && (Bump(callees, p, rest) == "" || IsSpace(Bump(callees, p, rest)[0]))
              && Run(Bump(callees, p, rest), IsNonSpace) == 0
    ensures rest != "" && rest[0] == '#' ==>
              && Bump(callees, p, rest) == "#" + Bump(callees, p, rest[1..])
              && Run(Bump(callees, p, rest), IsNonSpace) == 1
  {
    BumpFirst(callees, p, rest);
    if rest != "" && rest[0] == '#' {
      BumpFirst(callees, p, rest[1..]);
      var b := Bump(callees, p, rest[1..]);
      assert ("#" + b)[1..] == b;
      assert rest[1..] != "" ==> IsSpace(b[0]);
    }
  }

  /**
    The last bump wins: bumping to `p` and then to `q` is bumping to `q`, less one `#` for every
    match glued to an empty comment, which the second bump takes into the comment.
   */
  lemma {:induction false} BumpTwice(callees: seq<string>, p: Pin, q: Pin, s: string)
    requires AreCallees(callees) && IsPin(p)
    ensures |Bump(callees, q, Bump(callees, p, s))| + Glued(callees, s) == |Bump(callees, q, s)|
    ensures Glued(callees, s) == 0 ==> Bump(callees, q, Bump(callees, p, s)) == Bump(callees, q, s)
    decreases |s|
  {
    if s != "" {
      match PinAt(callees, s) {
        case None =>
          NoNewMatch(callees, p, s);
          BumpTwice(callees, p, q, s[1..]);
          var t := [s[0]] + Bump(callees, p, s[1..]);
          assert t[1..] == Bump(callees, p, s[1..]);
        case Some(m) =>
          BumpTwiceMatch(callees, p, q, s, m);
      }
    }
  }

  lemma {:induction false} BumpTwiceMatch(callees: seq<string>, p: Pin, q: Pin, s: string, m: Match)
    requires AreCallees(callees) && IsPin(p) && PinAt(callees, s) == Some(m)
    ensures |Bump(callees, q, Bump(callees, p, s))| + Glued(callees, s) == |Bump(callees, q, s)|
    ensures Glued(callees, s) == 0 ==> Bump(callees, q, Bump(callees, p, s)) == Bump(callees, q, s)
    decreases |s|, 0
  {
    var prefix, rest := s[..m.prefix], s[m.end..];
    MatchParts(callees, s);
    AfterMatch(callees, s);
    BumpedRest(callees, p, rest);
    var b := Bump(callees, p, rest);
    BumpPinned(callees, q, prefix, p, b);
    assert rest != "" ==> rest[0] == s[m.end];
    if rest != "" && rest[0] == '#' {
      NoMatchWithoutU(callees, rest);
      BumpTwice(callees, p, q, rest[1..]);
      assert b[1..] == Bump(callees, p, rest[1..]);
      BumpFirst(callees, q, rest);
    } else {
      BumpTwice(callees, p, q, rest);
      assert b[0..] == b;
    }
  }

  /** A second bump changes nothing exactly when no match is glued to an empty comment. */
  lemma BumpIsIdempotentExactly(callees: seq<string>, p: Pin, s: string)
    requires AreCallees(callees) && IsPin(p)
    ensures Bump(callees, p, Bump(callees, p, s)) == Bump(callees, p, s) <==> Glued(callees, s) == 0
  {
    BumpTwice(callees, p, p, s);
  }

  /** Such a match, `@o#` at the end of a text: the second bump takes the `#` into the comment. */
  lemma GluedPinIsEaten(callees: seq<string>, p: Pin, prefix: string)
    requires AreCallees(callees) && IsPin(p) && PrefixAt(callees, prefix) == Some(|prefix|)
    ensures Bump(callees, p, prefix + "o#") == prefix + (PinText(p) + "#")
    ensures Bump(callees, p, prefix + (PinText(p) + "#")) == prefix + (PinText(p) + "")
  {
    GluedRef();
    BumpAfterPrefix(callees, p, prefix, "o#", 1);
    BumpFirst(callees, p, "#");
    BumpGlued(callees, p, prefix);
  }

  lemma GluedRef()
    ensures RefAt("o#") == 1 && "o#"[1..] == "#"
  {
    assert "o#"[1..] == "#" && "#"[1..] == "";
    assert Run("#", IsRefChar) == 0 && CommentAt("#") == 0;
  }

  lemma BumpGlued(callees: seq<string>, p: Pin, prefix: string)
    requires AreCallees(callees) && IsPin(p) && PrefixAt(callees, prefix) == Some(|prefix|)
    ensures Bump(callees, p, prefix + (PinText(p) + "#")) == prefix + (PinText(p) + "")
  {
    RunOf("#", "", IsNonSpace);
    assert "#" + "" == "#" && "#"[1..] == "";
    BumpPinned(callees, p, prefix, p, "#");
  }

  // ------------------------------------------------------------------- the toolchain's workflows

  const REPOSITORY := "thyn-ai/security-toolchain/"
  const WORKFLOWS := REPOSITORY + ".github/workflows/"
  const GATE_FILES := ["security-full.yml", "security-full.yaml", "security-smoke.yml", "security-smoke.yaml"]
  const AUTO_MERGE_FILES := ["dependabot-auto-merge.yml", "dependabot-auto-merge.yaml"]

  predicate IsNameChar(c: char) {
    'a' <= c <= 'z' || 'A' <= c <= 'Z' || '0' <= c <= '9' || c == '_' || c == '.' || c == '-'
  }

  /** `[\w.-]+\.ya?ml` on the whole name. */
  predicate IsWorkflowFile(name: string) {
    && (forall i :: 0 <= i < |name| ==> IsNameChar(name[i]))
    && ((EndsWith(name, ".yml") && |name| > 4) || (EndsWith(name, ".yaml") && |name| > 5))
  }

  /** What `_USES_RE` and `_AUTO_MERGE_USES_RE` look for behind `uses:`, with `dir` the directory of the workflows. */
  function Callee(dir: string, name: string): string {
    dir + (name + "@")
  }

  function Callees(dir: string, names: seq<string>): seq<string> {
    MapSeq(names, name => Callee(dir, name))
  }

  predicate IsInCallee(c: char) {
    c != '@' && c != ':' && !IsSpace(c)
  }

  ghost predicate IsDirectory(dir: string) {
    dir != "" && Every(dir, IsInCallee)
  }

  ghost predicate AreFiles(names: seq<string>) {
    forall n <- names :: IsWorkflowFile(n)
  }

  lemma CalleeIs(dir: string, name: string)
    requires IsDirectory(dir) && IsWorkflowFile(name)
    ensures IsCallee(Callee(dir, name))
  {}

  lemma CalleesAre(dir: string, names: seq<string>)
    requires IsDirectory(dir) && AreFiles(names)
    ensures AreCallees(Callees(dir, names))
  {
    forall c <- Callees(dir, names)
      ensures IsCallee(c)
    {
      var i :| 0 <= i < |names| && Callee(dir, names[i]) == c;
      CalleeIs(dir, names[i]);
    }
  }

  lemma WorkflowsIsDirectory()
    ensures IsDirectory(WORKFLOWS)
  {
    RepositoryIsPlain();
    assert Every(".github/workflows/", IsInCallee);
  }

  lemma RepositoryIsPlain()
    ensures Every(REPOSITORY, IsInCallee)
  {}

  lemma FileIs(stem: string, ext: string)
    requires stem != "" && Every(stem, IsNameChar) && (ext == ".yml" || ext == ".yaml")
    ensures IsWorkflowFile(stem + ext)
  {
    assert (stem + ext)[|stem|..] == ext;
  }

  lemma FullFilesAre()
    ensures IsWorkflowFile("security-full.yml") && IsWorkflowFile("security-full.yaml")
  {
    var stem := "security-full";
    FileIs(stem, ".yml");
    FileIs(stem, ".yaml");
    assert stem + ".yml" == "security-full.yml" && stem + ".yaml" == "security-full.yaml";
  }

  lemma SmokeFilesAre()
    ensures IsWorkflowFile("security-smoke.yml") && IsWorkflowFile("security-smoke.yaml")
  {
    var stem := "security-smoke";
    FileIs(stem, ".yml");
    FileIs(stem, ".yaml");
    assert stem + ".yml" == "security-smoke.yml" && stem + ".yaml" == "security-smoke.yaml";
  }

  lemma GateFilesAre()
    ensures AreFiles(GATE_FILES)
  {
    FullFilesAre();
    SmokeFilesAre();
  }

  lemma AutoMergeFilesAre()
    ensures AreFiles(AUTO_MERGE_FILES)
  {
    var stem := "dependabot-auto-merge";
    assert Every(stem, IsNameChar);
    FileIs(stem, ".yml");
    FileIs(stem, ".yaml");
    assert stem + ".yml" == "dependabot-auto-merge.yml" && stem + ".yaml" == "dependabot-auto-merge.yaml";
  }

  lemma ToolchainCallees()
    ensures AreCallees(Callees(WORKFLOWS, GATE_FILES)) && AreCallees(Callees(WORKFLOWS, AUTO_MERGE_FILES))
  {
    WorkflowsIsDirectory();
    GateFilesAre();
    AutoMergeFilesAre();
    CalleesAre(WORKFLOWS, GATE_FILES);
    CalleesAre(WORKFLOWS, AUTO_MERGE_FILES);
  }
}
