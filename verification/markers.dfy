/**
  The managed block of a pre-commit configuration (scripts/propagate.py, `upsert_block`): the
  text between two marker lines is replaced, or the block is appended. Everything is done with
  character offsets, as the script does it.
 */
module Markers {
  import opened Wrappers
  import opened Text

  // ------------------------------------------------------------------- searching

  predicate OccursAt(s: string, word: string, i: int) {
    0 <= i && i + |word| <= |s| && s[i..i + |word|] == word
  }

  lemma OccursChar(s: string, word: string, i: int, n: int)
    requires OccursAt(s, word, i) && i <= n < i + |word|
    ensures s[n] == word[n - i]
  {
    assert s[i..i + |word|][n - i] == s[n];
  }

  ghost predicate Occurs(s: string, word: string) {
    exists i :: OccursAt(s, word, i)
  }

  function FindFrom(s: string, word: string, i: nat): (r: Option<nat>)
    requires i <= |s|
    ensures r.Some? ==> r.value + |word| <= |s|
    decreases |s| - i
  {
    if OccursAt(s, word, i) then Some(i)
    else if i == |s| then None
    else FindFrom(s, word, i + 1)
  }

  /** `s.find(word)`. */
  function Find(s: string, word: string): (r: Option<nat>)
    ensures r.Some? ==> r.value + |word| <= |s|
  {
    FindFrom(s, word, 0)
  }

  lemma {:induction false} FindFromIsFirst(s: string, word: string, i: nat)
    requires i <= |s|
    ensures FindFrom(s, word, i).Some? ==>
              i <= FindFrom(s, word, i).value && OccursAt(s, word, FindFrom(s, word, i).value)
    ensures FindFrom(s, word, i).Some? ==>
              forall k :: i <= k < FindFrom(s, word, i).value ==> !OccursAt(s, word, k)
    ensures FindFrom(s, word, i).None? ==> forall k :: i <= k ==> !OccursAt(s, word, k)
    decreases |s| - i
  {
    if !OccursAt(s, word, i) && i < |s| {
      FindFromIsFirst(s, word, i + 1);
    }
  }

  /** The first occurrence is found, wherever it is known to be. */
  lemma FindIs(s: string, word: string, i: nat)
    requires OccursAt(s, word, i) && forall k :: 0 <= k < i ==> !OccursAt(s, word, k)
    ensures Find(s, word) == Some(i)
  {
    FindFromIsFirst(s, word, 0);
  }

  /** `s.rfind("\n", 0, i) + 1`: where the line that `i` lies on starts. */
  function LineStart(s: string, i: nat): (r: nat)
    requires i <= |s|
    ensures r <= i
  {
    if i == 0 || s[i - 1] == '\n' then i else LineStart(s, i - 1)
  }

  /** One past the next newline at or after `i`, or the end of the text. */
  function LineEnd(s: string, i: nat): (r: nat)
    requires i <= |s|
    ensures i <= r <= |s|
    decreases |s| - i
  {
    if i == |s| then i else if s[i] == '\n' then i + 1 else LineEnd(s, i + 1)
  }

  lemma {:induction false} LineStartIs(s: string, i: nat, p: nat)
    requires p <= i <= |s| && (p == 0 || s[p - 1] == '\n') && Without(s[p..i], IsNewline)
    ensures LineStart(s, i) == p
  {
    if i > p {
      assert s[p..i][i - 1 - p] == s[i - 1];
      assert s[p..i - 1] == s[p..i][..i - 1 - p];
      LineStartIs(s, i - 1, p);
    }
  }

  lemma {:induction false} LineStartStarts(s: string, i: nat)
    requires i <= |s|
    ensures LineStart(s, i) == 0 || s[LineStart(s, i) - 1] == '\n'
    ensures forall k :: LineStart(s, i) <= k < i ==> s[k] != '\n'
  {
    if i > 0 && s[i - 1] != '\n' {
      LineStartStarts(s, i - 1);
    }
  }

  lemma {:induction false} LineEndIs(s: string, i: nat, e: nat)
    requires i < e <= |s| && s[e - 1] == '\n' && forall k :: i <= k < e - 1 ==> s[k] != '\n'
    ensures LineEnd(s, i) == e
    decreases |s| - i
  {
    if i < e - 1 {
      LineEndIs(s, i + 1, e);
    }
  }

  lemma {:induction false} LineEndEnds(s: string, i: nat)
    requires i <= |s|
    ensures forall k :: i <= k < LineEnd(s, i) - 1 ==> s[k] != '\n'
    ensures LineEnd(s, i) < |s| ==> i < LineEnd(s, i) && s[LineEnd(s, i) - 1] == '\n'
    decreases |s| - i
  {
    if i < |s| && s[i] != '\n' {
      LineEndEnds(s, i + 1);
    }
  }

  /** An offset between two newlines-ended pieces: the line ends no later than the piece. */
  lemma LineEndWithin(s: string, i: nat, n: nat)
    requires i < n <= |s| && s[n - 1] == '\n'
    ensures LineEnd(s, i) <= n
  {
    LineEndEnds(s, i);
  }

  // ------------------------------------------------------------------- the edit

  /** The script's fixed texts: the two markers, and the lines a configuration is given if it lacks them. */
  datatype Fixed = Fixed(
    begin: string, end: string, hookTypes: string, hookTypesValue: string, repos: string)

  const TOOLCHAIN := Fixed(
    "# thyn-security-toolchain:begin",
    "# thyn-security-toolchain:end",
    "default_install_hook_types:",
    " [pre-commit, pre-push]",
    "repos:")

  predicate IsHash(c: char) {
    c == '#'
  }

  ghost predicate IsMarker(word: string) {
    word != "" && word[0] == '#' && Without(word, IsNewline)
  }

  /** The markers are one line each and start with `#`; the added lines hold no `#`. */
  ghost predicate IsUsable(m: Fixed) {
    && IsMarker(m.begin) && IsMarker(m.end)
    && Without(m.hookTypes, IsHash) && Without(m.hookTypesValue, IsHash) && Without(m.repos, IsHash)
  }

  lemma ToolchainIsUsable()
    ensures IsUsable(TOOLCHAIN)
  {
    ToolchainMarkers();
    ToolchainLines();
  }

  lemma ToolchainMarkers()
    ensures IsMarker(TOOLCHAIN.begin) && IsMarker(TOOLCHAIN.end)
  {}

  lemma ToolchainLines()
    ensures Without(TOOLCHAIN.hookTypes, IsHash) && Without(TOOLCHAIN.hookTypesValue, IsHash)
    ensures Without(TOOLCHAIN.repos, IsHash)
  {}

  predicate HasLineStarting(s: string, word: string) {
    exists i: nat :: i <= |s| && (i == 0 || s[i - 1] == '\n') && OccursAt(s, word, i)
  }

  /** `s.rstrip("\n")`. */
  function RStripNewlines(s: string): string {
    if s != "" && s[|s| - 1] == '\n' then RStripNewlines(s[..|s| - 1]) else s
  }

  function HookTypesLine(m: Fixed): string {
    m.hookTypes + m.hookTypesValue + "\n"
  }

  function ReposLine(m: Fixed): string {
    m.repos + "\n"
  }

  /** What the appended block follows. */
  function Prepared(m: Fixed, text: string): string {
    var typed := if HasLineStarting(text, m.hookTypes) then text else HookTypesLine(m) + text;
    var listed := if HasLineStarting(typed, m.repos) then typed else RStripNewlines(typed) + "\n" + ReposLine(m);
    RStripNewlines(listed) + "\n"
  }

  /** `text[:start] + block + text[end:]`. */
  function Splice(text: string, start: nat, end: nat, block: string): string
    requires start <= |text| && end <= |text|
  {
    text[..start] + block + text[end..]
  }

  /** Where the line of the first BEGIN starts. */
  function BeginLine(m: Fixed, text: string): nat
    requires Find(text, m.begin).Some?
  {
    LineStart(text, Find(text, m.begin).value)
  }

  /** Where the line of the first END ends. */
  function EndLine(m: Fixed, text: string): nat
    requires Find(text, m.end).Some?
  {
    LineEnd(text, Find(text, m.end).value + |m.end|)
  }

  predicate HasBoth(m: Fixed, text: string) {
    Find(text, m.begin).Some? && Find(text, m.end).Some?
  }

  /** `upsert_block` on a text that exists. */
  function Upsert(m: Fixed, text: string, block: string): string {
    if HasBoth(m, text) then Splice(text, BeginLine(m, text), EndLine(m, text), block)
    else Prepared(m, text) + block
  }

  /** `upsert_block` as it is coded, reassigning `text`, `start` and `end`. */
  method UpsertBlock(m: Fixed, existing: string, block: string) returns (r: string)
    ensures r == Upsert(m, existing, block)
  {
    var text := existing;
    var begin, finish := Find(text, m.begin), Find(text, m.end);
    if begin.Some? && finish.Some? {
      var start := begin.value;
      start := LineStart(text, start);
      var end := finish.value + |m.end|;
      end := LineEnd(text, end);
      return text[..start] + block + text[end..];
    }
    if !HasLineStarting(text, m.hookTypes) {
      text := HookTypesLine(m) + text;
    }
    if !HasLineStarting(text, m.repos) {
      text := RStripNewlines(text) + "\n" + ReposLine(m);
    }
    return RStripNewlines(text) + "\n" + block;
  }

  // ------------------------------------------------------------------- markers and lines

  /** A rendered block: its first marker lines are its first and its last line. */
  ghost predicate IsBlock(m: Fixed, block: string) {
    var begin, end := Find(block, m.begin), Find(block, m.end);
    && begin.Some? && end.Some?
    && begin.value <= |block| && end.value + |m.end| < |block|
    && block[|block| - 1] == '\n'
    && Without(block[..begin.value], IsNewline)
    && Without(block[end.value + |m.end|..|block| - 1], IsNewline)
  }

  /** No marker straddles a line boundary: what starts before one ends before it. */
  lemma NoStraddle(a: string, b: string, word: string, i: int)
    requires EndsLine(a) && Without(word, IsNewline) && word != "" && i < |a|
    ensures OccursAt(a + b, word, i) <==> OccursAt(a, word, i)
  {
    if i + |word| <= |a| {
      OccursLeft(a, b, word, i);
    } else if OccursAt(a + b, word, i) {
      OccursChar(a + b, word, i, |a| - 1);
    }
  }

  lemma OccursLeft(a: string, b: string, word: string, i: int)
    requires i + |word| <= |a|
    ensures OccursAt(a + b, word, i) <==> OccursAt(a, word, i)
  {
    if 0 <= i {
      assert (a + b)[i..i + |word|] == a[i..i + |word|];
    }
  }

  lemma OccursRight(a: string, b: string, word: string, i: int)
    requires 0 <= i
    ensures OccursAt(a + b, word, |a| + i) <==> OccursAt(b, word, i)
  {
    if i + |word| <= |b| {
      assert (a + b)[|a| + i..|a| + i + |word|] == b[i..i + |word|];
    }
  }

  /** The first occurrence in a text whose first part holds one. */
  lemma FindWithin(a: string, b: string, word: string)
    requires Find(a, word).Some?
    ensures Find(a + b, word) == Find(a, word)
  {
    var i := Find(a, word).value;
    FindFromIsFirst(a, word, 0);
    forall k | 0 <= k <= i
      ensures OccursAt(a + b, word, k) <==> k == i
    {
      OccursLeft(a, b, word, k);
    }
    FindIs(a + b, word, i);
  }

  /** The first occurrence in a text whose first part ends a line and holds none. */
  lemma FindBehind(a: string, b: string, word: string)
    requires EndsLine(a) && Without(word, IsNewline) && word != ""
    requires !Occurs(a, word) && Find(b, word).Some?
    ensures Find(a + b, word) == Some(|a| + Find(b, word).value)
  {
    var i := Find(b, word).value;
    FindFromIsFirst(b, word, 0);
    OccursRight(a, b, word, i);
    forall k | 0 <= k < |a| + i
      ensures !OccursAt(a + b, word, k)
    {
      assert !OccursAt(a, word, k);
      if k < |a| {
        NoStraddle(a, b, word, k);
      } else {
        OccursRight(a, b, word, k - |a|);
      }
    }
    FindIs(a + b, word, |a| + i);
  }

  lemma FindAfter(a: string, b: string, c: string, word: string)
    requires EndsLine(a) && Without(word, IsNewline) && word != ""
    requires !Occurs(a, word) && Find(b, word).Some?
    ensures Find(a + b + c, word) == Some(|a| + Find(b, word).value)
  {
    FindBehind(a, b, word);
    FindWithin(a + b, c, word);
  }

  lemma FindNone(s: string, word: string)
    ensures Find(s, word).None? <==> !Occurs(s, word)
  {
    FindFromIsFirst(s, word, 0);
  }

  // ------------------------------------------------------------------- putting a block back

  /** The block in a text is found where it stands, whatever follows it. */
  lemma BeginFound(m: Fixed, before: string, block: string, after: string)
    requires IsUsable(m)
    requires EndsLine(before) && IsBlock(m, block) && !Occurs(before, m.begin)
    ensures Find(before + block + after, m.begin) == Some(|before| + Find(block, m.begin).value)
    ensures |before| + Find(block, m.begin).value <= |before + block + after|
    ensures LineStart(before + block + after, |before| + Find(block, m.begin).value) == |before|
  {
    FindAfter(before, block, after, m.begin);
    var b := Find(block, m.begin).value;
    var s := before + block + after;
    assert s[|before|..|before| + b] == block[..b];
    LineStartIs(s, |before| + b, |before|);
  }

  lemma EndFound(m: Fixed, before: string, block: string, after: string)
    requires IsUsable(m)
    requires EndsLine(before) && IsBlock(m, block) && !Occurs(before, m.end)
    ensures Find(before + block + after, m.end) == Some(|before| + Find(block, m.end).value)
    ensures |before| + Find(block, m.end).value + |m.end| <= |before + block + after|
    ensures LineEnd(before + block + after, |before| + Find(block, m.end).value + |m.end|) == |before| + |block|
  {
    FindAfter(before, block, after, m.end);
    var e := Find(block, m.end).value + |m.end|;
    var s := before + block + after;
    forall k | |before| + e <= k < |before| + |block| - 1
      ensures s[k] != '\n'
    {
      assert s[k] == block[k - |before|] == block[e..|block| - 1][k - |before| - e];
    }
    LineEndIs(s, |before| + e, |before| + |block|);
  }

  /**
    Where a managed block stands after lines that hold no marker, it is replaced: everything above
    its BEGIN line and everything below its END line is kept as it is.
   */
  lemma UpsertReplaces(m: Fixed, before: string, managed: string, after: string, block: string)
    requires IsUsable(m)
    requires EndsLine(before) && IsBlock(m, managed) && !Occurs(before, m.begin) && !Occurs(before, m.end)
    ensures Upsert(m, before + managed + after, block) == before + block + after
  {
    BeginFound(m, before, managed, after);
    EndFound(m, before, managed, after);
    UpsertAt(m, before + managed + after, block, |before|, |before + managed|);
    SpliceBetween(before, managed, after, block);
  }

  lemma UpsertAt(m: Fixed, text: string, block: string, start: nat, end: nat)
    requires HasBoth(m, text) && BeginLine(m, text) == start && EndLine(m, text) == end
    ensures end <= |text| && Upsert(m, text, block) == Splice(text, start, end, block)
  {}

  lemma SpliceBetween(a: string, b: string, c: string, block: string)
    ensures Splice(a + b + c, |a|, |a + b|, block) == a + block + c
  {
    var s := a + b + c;
    assert s[..|a|] == a && s[|a + b|..] == c;
  }

  // ------------------------------------------------------------------- a text that lacks a marker

  ghost predicate IsWordOfLine(word: string) {
    word != "" && Without(word, IsNewline)
  }

  /** The two lines that may be added are lines of different kinds. */
  ghost predicate HasOwnLines(m: Fixed) {
    && IsWordOfLine(m.hookTypes) && IsWordOfLine(m.repos) && Without(m.hookTypesValue, IsNewline)
    && !StartsWith(m.hookTypes + m.hookTypesValue, m.repos)
  }

  lemma ToolchainHasOwnLines()
    ensures HasOwnLines(TOOLCHAIN)
  {
    assert TOOLCHAIN.hookTypes[0] == 'd' && TOOLCHAIN.repos[0] == 'r';
    assert (TOOLCHAIN.hookTypes + TOOLCHAIN.hookTypesValue)[0] == TOOLCHAIN.hookTypes[0];
    StartsAlike(TOOLCHAIN.hookTypes + TOOLCHAIN.hookTypesValue, TOOLCHAIN.repos);
  }

  lemma StartsAlike(s: string, word: string)
    ensures word != "" && StartsWith(s, word) ==> s[0] == word[0]
  {
    if word != "" && StartsWith(s, word) {
      assert s[..|word|][0] == s[0];
    }
  }

  /** A line of the text starts, at `i`, with the word. */
  predicate StartsLineAt(s: string, word: string, i: nat) {
    i <= |s| && (i == 0 || s[i - 1] == '\n') && OccursAt(s, word, i)
  }

  lemma LinesStarting(s: string, word: string)
    ensures HasLineStarting(s, word) <==> exists i: nat :: StartsLineAt(s, word, i)
  {
    if i: nat :| StartsLineAt(s, word, i) {
      assert OccursAt(s, word, i);
    }
    if HasLineStarting(s, word) {
      var i: nat :| i <= |s| && (i == 0 || s[i - 1] == '\n') && OccursAt(s, word, i);
      assert StartsLineAt(s, word, i);
    }
  }

  /** Newlines at the end are no part of a word of a line. */
  lemma WordEndsWithin(s: string, t: string, word: string, i: nat)
    requires IsWordOfLine(word) && OccursAt(s, word, i)
    requires t <= s && forall k :: |t| <= k < |s| ==> s[k] == '\n'
    ensures i + |word| <= |t|
  {
    OccursChar(s, word, i, i + |word| - 1);
    assert !IsNewline(word[|word| - 1]);
  }

  lemma LineOfPrefix(s: string, t: string, more: string, word: string, i: nat)
    requires t <= s && StartsLineAt(s, word, i) && i + |word| <= |t|
    ensures StartsLineAt(t + more, word, i)
  {
    assert (t + more)[i..i + |word|] == t[i..i + |word|] == s[i..i + |word|];
    assert i > 0 ==> (t + more)[i - 1] == t[i - 1] == s[i - 1];
  }

  /** A line of a text is a line of what it is stripped to, whatever follows. */
  lemma LineKept(s: string, more: string, word: string, i: nat)
    requires IsWordOfLine(word) && StartsLineAt(s, word, i)
    ensures StartsLineAt(RStripNewlines(s) + more, word, i)
  {
    RStripNewlinesIsPrefix(s);
    WordEndsWithin(s, RStripNewlines(s), word, i);
    LineOfPrefix(s, RStripNewlines(s), more, word, i);
  }

  lemma LineBehind(line: string, text: string, word: string, i: nat)
    requires i > |line|
    ensures StartsLineAt(line + "\n" + text, word, i) <==> StartsLineAt(text, word, i - |line| - 1)
  {
    OccursBelow(line + "\n", text, word, i);
  }

  /** A line put in front starts no line of another kind. */
  lemma LineInFront(line: string, text: string, word: string)
    requires Without(line, IsNewline) && IsWordOfLine(word) && !StartsWith(line, word)
    ensures HasLineStarting(line + "\n" + text, word) <==> HasLineStarting(text, word)
  {
    var s, n := line + "\n" + text, |line| + 1;
    LinesStarting(s, word);
    LinesStarting(text, word);
    if i: nat :| StartsLineAt(s, word, i) {
      FrontIsNoLine(line, text, word, i);
      LineBehind(line, text, word, i);
    }
    if i: nat :| StartsLineAt(text, word, i) {
      LineBehind(line, text, word, n + i);
    }
  }

  lemma OccursBelow(a: string, b: string, word: string, i: nat)
    requires |a| <= i
    ensures OccursAt(a + b, word, i) <==> OccursAt(b, word, i - |a|)
    ensures |a| < i <= |a + b| ==> (a + b)[i - 1] == b[i - |a| - 1]
  {
    OccursRight(a, b, word, i - |a|);
  }

  lemma AtFront(line: string, text: string, word: string)
    requires IsWordOfLine(word)
    ensures OccursAt(line + "\n" + text, word, 0) ==> StartsWith(line, word)
  {
    var s := line + "\n" + text;
    if OccursAt(s, word, 0) {
      if |word| <= |line| {
        assert line[..|word|] == s[..|word|];
      } else {
        OccursChar(s, word, 0, |line|);
      }
    }
  }

  lemma NoBreakIn(line: string, rest: string)
    requires Without(line, IsNewline)
    ensures forall k :: 0 <= k < |line| ==> (line + rest)[k] != '\n'
  {
    forall k | 0 <= k < |line|
      ensures (line + rest)[k] != '\n'
    {
      assert !IsNewline(line[k]);
    }
  }

  lemma FrontIsNoLine(line: string, text: string, word: string, i: nat)
    requires Without(line, IsNewline) && IsWordOfLine(word) && !StartsWith(line, word)
    requires StartsLineAt(line + "\n" + text, word, i)
    ensures i > |line|
  {
    AtFront(line, text, word);
    assert line + "\n" + text == line + ("\n" + text);
    NoBreakIn(line, "\n" + text);
  }

  /** The line of the hook types, if a text has none. */
  function HooksInFront(m: Fixed, text: string): string {
    if HasLineStarting(text, m.hookTypes) then "" else m.hookTypes + m.hookTypesValue + "\n"
  }

  /** The line of the repositories, if a text has none. */
  function ReposBehind(m: Fixed, text: string): string {
    if HasLineStarting(text, m.repos) then "" else m.repos + "\n"
  }

  /**
    A configuration that lacks a marker is kept, up to the newlines at its end: the line of the hook
    types comes in front of it and `repos:` behind it, each exactly if none of its lines starts so,
    and then the block. Both lines are there afterwards.
   */
  lemma UpsertAppends(m: Fixed, text: string, block: string)
    requires HasOwnLines(m) && !HasBoth(m, text)
    ensures Upsert(m, text, block)
         == RStripNewlines(HooksInFront(m, text) + text) + "\n" + ReposBehind(m, text) + block
    ensures HasLineStarting(Upsert(m, text, block), m.hookTypes) && HasLineStarting(Upsert(m, text, block), m.repos)
  {
    var typed := HooksInFront(m, text) + text;
    TypedLists(m, text);
    PreparedIs(m, text);
    var behind := ReposBehind(m, text) + block;
    Rejoin(RStripNewlines(typed) + "\n", ReposBehind(m, text), block);
    LineStays(typed, behind, m.hookTypes);
    if HasLineStarting(text, m.repos) {
      LineStays(typed, behind, m.repos);
    } else {
      Rejoin(m.repos, "\n", block);
      LastLineStarts(RStripNewlines(typed) + "\n", m.repos, "\n" + block);
    }
  }

  lemma PreparedIs(m: Fixed, text: string)
    requires HasOwnLines(m)
    ensures Prepared(m, text) == RStripNewlines(HooksInFront(m, text) + text) + "\n" + ReposBehind(m, text)
  {
    var typed := HooksInFront(m, text) + text;
    TypedLists(m, text);
    var kept := RStripNewlines(typed) + "\n";
    if HasLineStarting(text, m.repos) {
      assert kept + "" == kept;
    } else {
      StripsOne(kept, m.repos);
    }
  }

  lemma LineStays(s: string, tail: string, word: string)
    requires IsWordOfLine(word) && HasLineStarting(s, word)
    ensures HasLineStarting(RStripNewlines(s) + "\n" + tail, word)
  {
    LinesStarting(s, word);
    var i: nat :| StartsLineAt(s, word, i);
    LineKept(s, "\n" + tail, word, i);
    assert RStripNewlines(s) + ("\n" + tail) == RStripNewlines(s) + "\n" + tail;
    LinesStarting(RStripNewlines(s) + "\n" + tail, word);
  }

  lemma LastLineStarts(kept: string, word: string, tail: string)
    requires kept != "" && kept[|kept| - 1] == '\n'
    ensures HasLineStarting(kept + (word + tail), word)
  {
    var s := kept + (word + tail);
    assert s[|kept|..|kept| + |word|] == word;
    assert OccursAt(s, word, |kept|);
  }

  /** With the line in front the hook types are there, and `repos:` is listed as it was. */
  lemma TypedLists(m: Fixed, text: string)
    requires HasOwnLines(m)
    ensures var typed := HooksInFront(m, text) + text;
            && typed == (if HasLineStarting(text, m.hookTypes) then text else HookTypesLine(m) + text)
            && HasLineStarting(typed, m.hookTypes)
            && (HasLineStarting(typed, m.repos) <==> HasLineStarting(text, m.repos))
  {
    if HasLineStarting(text, m.hookTypes) {
      assert "" + text == text;
    } else {
      var line := m.hookTypes + m.hookTypesValue;
      WithoutJoins(m.hookTypes, m.hookTypesValue, IsNewline);
      LineInFront(line, text, m.repos);
      var typed := line + "\n" + text;
      assert typed[0..|m.hookTypes|] == m.hookTypes;
      assert OccursAt(typed, m.hookTypes, 0);
    }
  }

  // ------------------------------------------------------------------- when a second run changes nothing

  /** No marker at all, or both with the END line not above the BEGIN line. */
  ghost predicate WellMarked(m: Fixed, text: string) {
    if HasBoth(m, text) then BeginLine(m, text) < EndLine(m, text)
    else Find(text, m.begin).None? && Find(text, m.end).None?
  }

  lemma {:induction false} RStripNewlinesIsPrefix(s: string)
    ensures RStripNewlines(s) <= s
    ensures forall k :: |RStripNewlines(s)| <= k < |s| ==> s[k] == '\n'
  {
    if s != "" && s[|s| - 1] == '\n' {
      RStripNewlinesIsPrefix(s[..|s| - 1]);
    }
  }

  /** Stripping newlines and ending the line neither adds nor loses a one-line word. */
  lemma OccursAfterStrip(s: string, word: string)
    requires Without(word, IsNewline) && word != ""
    ensures Occurs(RStripNewlines(s) + "\n", word) <==> Occurs(s, word)
  {
    RStripNewlinesIsPrefix(s);
    var t := RStripNewlines(s);
    if Occurs(t + "\n", word) {
      var i :| OccursAt(t + "\n", word, i);
      if i + |word| > |t| {
        OccursChar(t + "\n", word, i, |t|);
      }
      assert (t + "\n")[i..i + |word|] == s[i..i + |word|];
      assert OccursAt(s, word, i);
    }
    if Occurs(s, word) {
      var i :| OccursAt(s, word, i);
      if i + |word| > |t| {
        OccursChar(s, word, i, i + |word| - 1);
      }
      assert (t + "\n")[i..i + |word|] == s[i..i + |word|];
      assert OccursAt(t + "\n", word, i);
    }
  }

  lemma OccursJoined(a: string, b: string, word: string)
    requires EndsLine(a) && Without(word, IsNewline) && word != ""
    ensures Occurs(a + b, word) <==> Occurs(a, word) || Occurs(b, word)
  {
    if Occurs(a + b, word) {
      var i :| OccursAt(a + b, word, i);
      if i < |a| {
        NoStraddle(a, b, word, i);
      } else {
        OccursRight(a, b, word, i - |a|);
      }
    }
    if Occurs(a, word) {
      var i :| OccursAt(a, word, i);
      OccursLeft(a, b, word, i);
    }
    if Occurs(b, word) {
      var i :| OccursAt(b, word, i);
      OccursRight(a, b, word, i);
    }
  }

  /** The lines the script adds hold no marker. */
  lemma AddedLinesHoldNoMarker(m: Fixed, word: string)
    requires IsUsable(m) && IsMarker(word)
    ensures !Occurs(HookTypesLine(m), word) && !Occurs(ReposLine(m), word)
  {
    WithoutJoins(m.hookTypes + m.hookTypesValue, "\n", IsHash);
    WithoutJoins(m.hookTypes, m.hookTypesValue, IsHash);
    WithoutJoins(m.repos, "\n", IsHash);
    NoHashNoMarker(HookTypesLine(m), word);
    NoHashNoMarker(ReposLine(m), word);
  }

  lemma NoHashNoMarker(s: string, word: string)
    requires Without(s, IsHash) && IsMarker(word)
    ensures !Occurs(s, word)
  {
    forall i
      ensures !OccursAt(s, word, i)
    {
      if OccursAt(s, word, i) {
        OccursChar(s, word, i, i);
      }
    }
  }

  lemma PreparedKeepsMarkers(m: Fixed, text: string, word: string)
    requires IsUsable(m) && IsMarker(word)
    ensures EndsLine(Prepared(m, text)) && (Occurs(Prepared(m, text), word) <==> Occurs(text, word))
  {
    AddedLinesHoldNoMarker(m, word);
    OccursJoined(HookTypesLine(m), text, word);
    var typed := if HasLineStarting(text, m.hookTypes) then text else HookTypesLine(m) + text;
    OccursAfterStrip(typed, word);
    OccursJoined(RStripNewlines(typed) + "\n", ReposLine(m), word);
    var listed := if HasLineStarting(typed, m.repos) then typed else RStripNewlines(typed) + "\n" + ReposLine(m);
    OccursAfterStrip(listed, word);
  }

  /** What the edit keeps before the block ends a line and holds no BEGIN. */
  lemma KeptHoldsNoBegin(m: Fixed, text: string)
    requires IsUsable(m) && Find(text, m.begin).Some?
    ensures EndsLine(text[..BeginLine(m, text)]) && !Occurs(text[..BeginLine(m, text)], m.begin)
  {
    FindFromIsFirst(text, m.begin, 0);
    LineStartStarts(text, Find(text, m.begin).value);
    var n := BeginLine(m, text);
    var before, rest := text[..n], text[n..];
    assert text == before + rest;
    forall k
      ensures !OccursAt(before, m.begin, k)
    {
      if k + |m.begin| <= n {
        OccursLeft(before, rest, m.begin, k);
      }
    }
  }

  /** It holds no END either, exactly when the END line is not above the BEGIN line. */
  lemma KeptHoldsEndExactly(m: Fixed, text: string)
    requires IsUsable(m) && HasBoth(m, text)
    ensures Occurs(text[..BeginLine(m, text)], m.end) <==> EndLine(m, text) <= BeginLine(m, text)
  {
    var n := BeginLine(m, text);
    LineStartStarts(text, Find(text, m.begin).value);
    FindFromIsFirst(text, m.end, 0);
    WordAboveExactly(text, m.end, Find(text, m.end).value, n);
  }

  /** A one-line word that occurs first at `end` occurs above the line at `n` exactly when its line does. */
  lemma WordAboveExactly(text: string, word: string, end: nat, n: nat)
    requires OccursAt(text, word, end) && (forall k :: 0 <= k < end ==> !OccursAt(text, word, k))
    requires Without(word, IsNewline) && word != "" && n <= |text| && (n == 0 || text[n - 1] == '\n')
    ensures Occurs(text[..n], word) <==> LineEnd(text, end + |word|) <= n
  {
    FirstAboveExactly(text, n, word, end);
    if end + |word| <= n {
      OccursEndsBefore(text, word, end, n);
      LineEndWithin(text, end + |word|, n);
    }
  }

  /** It occurs above a place of a text exactly when its first occurrence ends above it. */
  lemma FirstAboveExactly(text: string, n: nat, word: string, end: nat)
    requires n <= |text| && OccursAt(text, word, end) && (forall k :: 0 <= k < end ==> !OccursAt(text, word, k))
    ensures Occurs(text[..n], word) <==> end + |word| <= n
  {
    var a, b := text[..n], text[n..];
    assert text == a + b;
    if end + |word| <= n {
      OccursLeft(a, b, word, end);
    }
    if k :| OccursAt(a, word, k) {
      OccursLeft(a, b, word, k);
    }
  }

  /** A one-line word that ends where a line starts would end in a newline. */
  lemma OccursEndsBefore(text: string, word: string, i: nat, n: nat)
    requires OccursAt(text, word, i) && Without(word, IsNewline) && word != ""
    requires n <= |text| && (n == 0 || text[n - 1] == '\n')
    ensures i + |word| != n
  {
    OccursChar(text, word, i, i + |word| - 1);
  }

  lemma WellMarkedIsStable(m: Fixed, text: string, block: string)
    requires IsUsable(m) && IsBlock(m, block) && WellMarked(m, text)
    ensures Upsert(m, Upsert(m, text, block), block) == Upsert(m, text, block)
  {
    if HasBoth(m, text) {
      KeptHoldsNoBegin(m, text);
      KeptHoldsEndExactly(m, text);
      UpsertReplaces(m, text[..BeginLine(m, text)], block, text[EndLine(m, text)..], block);
    } else {
      FindNone(text, m.begin);
      FindNone(text, m.end);
      PreparedKeepsMarkers(m, text, m.begin);
      PreparedKeepsMarkers(m, text, m.end);
      UpsertReplaces(m, Prepared(m, text), block, "", block);
      assert Prepared(m, text) + block + "" == Prepared(m, text) + block;
    }
  }

  /** A BEGIN that survives before the block pulls the cut up to its own line. */
  lemma StrayBegin(m: Fixed, before: string, block: string)
    requires IsUsable(m)
    requires EndsLine(before) && IsBlock(m, block) && Occurs(before, m.begin) && !Occurs(before, m.end)
    ensures |Upsert(m, before + block, block)| < |before + block|
  {
    var text := before + block;
    assert before + block + "" == text;
    FindNone(before, m.begin);
    FindWithin(before, block, m.begin);
    EndFound(m, before, block, "");
    assert BeginLine(m, text) < |before| && EndLine(m, text) == |text|;
  }

  /** An END before the block is the first one, and its line ends before the block. */
  lemma EndLineAbove(m: Fixed, before: string, rest: string)
    requires IsUsable(m) && EndsLine(before) && Occurs(before, m.end)
    ensures Find(before, m.end).Some? && Find(before + rest, m.end) == Find(before, m.end)
    ensures EndLine(m, before + rest) == EndLine(m, before) <= |before|
  {
    FindNone(before, m.end);
    FindWithin(before, rest, m.end);
    EndIsAbove(m, before);
    LineEndKeeps(before, rest, Find(before, m.end).value + |m.end|);
  }

  lemma EndIsAbove(m: Fixed, before: string)
    requires IsUsable(m) && EndsLine(before) && Find(before, m.end).Some?
    ensures Find(before, m.end).value + |m.end| < |before|
  {
    FindFromIsFirst(before, m.end, 0);
    OccursEndsBefore(before, m.end, Find(before, m.end).value, |before|);
  }

  lemma LineEndKeeps(a: string, b: string, i: nat)
    requires i < |a| && EndsLine(a)
    ensures LineEnd(a + b, i) == LineEnd(a, i) <= |a|
  {
    LineEndWithin(a, i, |a|);
    LineEndEnds(a, i);
    LineEndIs(a + b, i, LineEnd(a, i));
  }

  /** An END that survives before the block leaves the block in the text a second time. */
  lemma StrayEnd(m: Fixed, before: string, block: string, after: string)
    requires IsUsable(m)
    requires EndsLine(before) && IsBlock(m, block) && !Occurs(before, m.begin) && Occurs(before, m.end)
    ensures Find(before, m.end).Some?
    ensures |Upsert(m, before + block + after, block)|
         == |before| + |block| + |before + block + after| - EndLine(m, before)
  {
    Rejoin(before, block, after);
    EndLineAbove(m, before, block + after);
    BeginFound(m, before, block, after);
    var text := before + block + after;
    assert BeginLine(m, text) == |before| && EndLine(m, text) == EndLine(m, before);
    UpsertLength(m, text, block);
  }

  lemma UpsertLength(m: Fixed, text: string, block: string)
    requires HasBoth(m, text)
    ensures |Upsert(m, text, block)| == BeginLine(m, text) + |block| + |text| - EndLine(m, text)
  {
    SpliceLength(text, BeginLine(m, text), EndLine(m, text), block);
  }

  lemma SpliceLength(text: string, start: nat, end: nat, block: string)
    requires start <= |text| && end <= |text|
    ensures |Splice(text, start, end, block)| == start + |block| + |text| - end
  {}

  /** The END line above the BEGIN line: the text between them is doubled again and again. */
  lemma EndAboveGrows(m: Fixed, text: string, block: string)
    requires IsUsable(m) && IsBlock(m, block) && HasBoth(m, text) && EndLine(m, text) <= BeginLine(m, text)
    ensures Upsert(m, Upsert(m, text, block), block) != Upsert(m, text, block)
  {
    var n, e := BeginLine(m, text), EndLine(m, text);
    var before, after := text[..n], text[e..];
    KeptHoldsNoBegin(m, text);
    KeptHoldsEndExactly(m, text);
    assert text == before + text[n..];
    EndLineAbove(m, before, text[n..]);
    StrayEnd(m, before, block, after);
    assert block != "";
  }

  /** Only one of the two markers: the next run takes the new block's other one with it. */
  lemma LoneMarkerGrows(m: Fixed, text: string, block: string)
    requires IsUsable(m) && IsBlock(m, block)
    requires Find(text, m.begin).Some? != Find(text, m.end).Some?
    ensures Upsert(m, Upsert(m, text, block), block) != Upsert(m, text, block)
  {
    var before := Prepared(m, text);
    FindNone(text, m.begin);
    FindNone(text, m.end);
    PreparedKeepsMarkers(m, text, m.begin);
    PreparedKeepsMarkers(m, text, m.end);
    assert Upsert(m, text, block) == before + block == before + block + "";
    if Find(text, m.begin).Some? {
      StrayBegin(m, before, block);
    } else {
      StrayEnd(m, before, block, "");
      EndLineAbove(m, before, "");
    }
  }

  /**
    A second run changes nothing exactly when the text it first ran on has no marker, or has both
    and the first END line does not lie above the first BEGIN line.
   */
  lemma UpsertIsIdempotentExactly(m: Fixed, text: string, block: string)
    requires IsUsable(m)
    requires IsBlock(m, block)
    ensures Upsert(m, Upsert(m, text, block), block) == Upsert(m, text, block) <==> WellMarked(m, text)
  {
    if WellMarked(m, text) {
      WellMarkedIsStable(m, text, block);
    } else {
      if HasBoth(m, text) {
        EndAboveGrows(m, text, block);
      } else {
        LoneMarkerGrows(m, text, block);
      }
    }
  }

  /** A text that is a lone BEGIN line: the second run takes the text below it for the block. */
  lemma LoneBeginIsNotStable(m: Fixed, block: string, k: nat)
    requires IsUsable(m) && IsBlock(m, block)
    requires Without(m.begin[1..], IsHash)
    requires k < |m.begin| && k < |m.end| && m.begin[k] != m.end[k]
    ensures Upsert(m, Upsert(m, m.begin, block), block) != Upsert(m, m.begin, block)
  {
    forall i
      ensures !OccursAt(m.begin, m.end, i)
    {
      if OccursAt(m.begin, m.end, i) {
        HashIsFirst(m.begin, i);
        OccursChar(m.begin, m.end, i, i);
        OccursChar(m.begin, m.end, i, i + k);
      }
    }
    FindIs(m.begin, m.begin, 0);
    FindNone(m.begin, m.end);
    UpsertIsIdempotentExactly(m, m.begin, block);
  }

  lemma HashIsFirst(s: string, i: nat)
    requires i < |s| && Without(s[1..], IsHash)
    ensures IsHash(s[i]) ==> i == 0
  {
    if i > 0 {
      assert s[1..][i - 1] == s[i];
    }
  }

  lemma ToolchainLoneBeginIsNotStable(block: string)
    requires IsBlock(TOOLCHAIN, block)
    ensures Upsert(TOOLCHAIN, Upsert(TOOLCHAIN, TOOLCHAIN.begin, block), block)
         != Upsert(TOOLCHAIN, TOOLCHAIN.begin, block)
  {
    ToolchainIsUsable();
    ToolchainMarkersDiffer();
    LoneBeginIsNotStable(TOOLCHAIN, block, 26);
  }

  lemma ToolchainMarkersDiffer()
    ensures |TOOLCHAIN.begin| > 26 && |TOOLCHAIN.end| > 26 && TOOLCHAIN.begin[26] != TOOLCHAIN.end[26]
    ensures Without(TOOLCHAIN.begin[1..], IsHash)
  {
    ToolchainBegin();
    assert TOOLCHAIN.begin[26] == 'b';
    assert TOOLCHAIN.end[26] == 'e';
  }

  lemma ToolchainBegin()
    ensures Without(TOOLCHAIN.begin[1..], IsHash)
  {
    BeginHasNoHash();
    assert TOOLCHAIN.begin[1..] == BEGIN_TEXT;
  }

  const BEGIN_TEXT := " thyn-security-toolchain:begin"

  lemma BeginHasNoHash()
    ensures Without(BEGIN_TEXT, IsHash)
  {}

  // ------------------------------------------------------------------- a new configuration

  /** `re.sub(r"\n{3,}", "\n\n", s)`, with `run` newlines just written. */
  function Squeeze(s: string, run: nat): string {
    if s == "" then ""
    else if s[0] == '\n' then (if run < 2 then "\n" else "") + Squeeze(s[1..], run + 1)
    else [s[0]] + Squeeze(s[1..], 0)
  }

  /** Two newlines at most in a row, with `run` of them in front. */
  ghost predicate IsSqueezed(s: string, run: nat) {
    s == "" || (if s[0] == '\n' then run < 2 && IsSqueezed(s[1..], run + 1) else IsSqueezed(s[1..], 0))
  }

  /** No three newlines in a row. */
  lemma {:induction false} SqueezedExactly(s: string, run: nat)
    ensures IsSqueezed(s, run)
       <==> && (forall i :: 0 <= i < |s| - 2 ==> !(s[i] == '\n' && s[i + 1] == '\n' && s[i + 2] == '\n'))
            && (run >= 1 ==> |s| < 2 || s[0] != '\n' || s[1] != '\n')
            && (run >= 2 ==> s == "" || s[0] != '\n')
  {
    if s != "" {
      var t := s[1..];
      SqueezedExactly(t, if s[0] == '\n' then run + 1 else 0);
      if forall i :: 0 <= i < |s| - 2 ==> !(s[i] == '\n' && s[i + 1] == '\n' && s[i + 2] == '\n') {
        forall i | 0 <= i < |t| - 2
          ensures !(t[i] == '\n' && t[i + 1] == '\n' && t[i + 2] == '\n')
        {
          assert t[i] == s[i + 1] && t[i + 1] == s[i + 2] && t[i + 2] == s[i + 3];
        }
      }
      if forall i :: 0 <= i < |t| - 2 ==> !(t[i] == '\n' && t[i + 1] == '\n' && t[i + 2] == '\n') {
        forall i | 1 <= i < |s| - 2
          ensures !(s[i] == '\n' && s[i + 1] == '\n' && s[i + 2] == '\n')
        {
          assert t[i - 1] == s[i] && t[i] == s[i + 1] && t[i + 1] == s[i + 2];
        }
      }
    }
  }

  predicate IsText(c: char) {
    c != '\n'
  }

  /** The characters that are no newlines. */
  function TextOf(s: string): string {
    if s == "" then "" else (if IsText(s[0]) then [s[0]] else "") + TextOf(s[1..])
  }

  /** Squeezing leaves no three newlines in a row, changes nothing where there are none, and drops no text. */
  lemma {:induction false} SqueezeExactly(s: string, run: nat)
    ensures IsSqueezed(Squeeze(s, run), run)
    ensures IsSqueezed(s, run) ==> Squeeze(s, run) == s
    ensures TextOf(Squeeze(s, run)) == TextOf(s)
  {
    if s != "" {
      var rest := Squeeze(s[1..], if s[0] == '\n' then run + 1 else 0);
      SqueezeExactly(s[1..], if s[0] == '\n' then run + 1 else 0);
      assert s == [s[0]] + s[1..];
      assert ([s[0]] + rest)[1..] == rest;
      if s[0] == '\n' && run >= 2 {
        StillSqueezed(rest, run);
        assert Squeeze(s, run) == "" + rest == rest;
      } else {
        assert Squeeze(s, run) == [s[0]] + rest;
      }
    }
  }

  /** Behind more newlines no more fit. */
  lemma {:induction false} StillSqueezed(s: string, run: nat)
    requires IsSqueezed(s, run + 1)
    ensures IsSqueezed(s, run)
  {
    if s != "" && s[0] == '\n' {
      StillSqueezed(s[1..], run + 1);
    }
  }

  /** `upsert_block` without a text: the template up to its hooks, the extra hooks, the block. */
  function Create(head: string, extra: string, block: string): string {
    var rendered := head + RStripNewlines(extra) + "\n" + RStripNewlines(block) + "\n";
    RStripNewlines(Squeeze(rendered, 0)) + "\n"
  }

  lemma {:induction false} SqueezeJoins(a: string, b: string, run: nat)
    requires b != "" && b[0] != '\n'
    ensures Squeeze(a + b, run) == Squeeze(a, run) + Squeeze(b, 0)
  {
    if a == "" {
      assert a + b == b;
    } else {
      assert (a + b)[1..] == a[1..] + b && (a + b)[0] == a[0];
      SqueezeJoins(a[1..], b, if a[0] == '\n' then run + 1 else 0);
    }
  }

  lemma {:induction false} SqueezeEndsLine(s: string, run: nat)
    requires s != "" && s[|s| - 1] == '\n'
    ensures EndsLine(Squeeze(s, run))
    ensures run < 2 ==> Squeeze(s, run) != ""
  {
    if |s| > 1 {
      SqueezeEndsLine(s[1..], if s[0] == '\n' then run + 1 else 0);
    } else {
      assert s[1..] == "";
    }
  }

  /** A word at the start of a text is its first character and a word behind it. */
  lemma OccursCons(c: char, s: string, word: string)
    requires word != ""
    ensures OccursAt([c] + s, word, 0) <==> word[0] == c && OccursAt(s, word[1..], 0)
  {
    var t := [c] + s;
    assert word == [word[0]] + word[1..];
    if |word| <= |t| {
      assert t[0..|word|] == [c] + s[0..|word| - 1];
    }
  }

  lemma {:induction false} SqueezePrefix(s: string, run: nat, word: string)
    requires run < 2 && Without(word, IsNewline) && OccursAt(Squeeze(s, run), word, 0)
    ensures OccursAt(s, word, 0)
    decreases |word|
  {
    if word != "" {
      OccursChar(Squeeze(s, run), word, 0, 0);
      OccursCons(s[0], Squeeze(s[1..], 0), word);
      SqueezePrefix(s[1..], 0, word[1..]);
      OccursCons(s[0], s[1..], word);
      assert s == [s[0]] + s[1..];
    }
  }

  lemma OccursBehind(a: string, b: string, word: string)
    requires Occurs(b, word)
    ensures Occurs(a + b, word)
  {
    var k :| OccursAt(b, word, k);
    OccursRight(a, b, word, k);
  }

  /** Squeezing newlines makes no one-line word appear. */
  lemma {:induction false} SqueezeAddsNothing(s: string, run: nat, word: string, i: int)
    requires Without(word, IsNewline) && word != "" && OccursAt(Squeeze(s, run), word, i)
    ensures Occurs(s, word)
  {
    var next := if s[0] == '\n' then run + 1 else 0;
    var rest := Squeeze(s[1..], next);
    assert s == [s[0]] + s[1..];
    if s[0] == '\n' && run >= 2 {
      assert "" + rest == rest;
      SqueezeAddsNothing(s[1..], next, word, i);
      OccursBehind([s[0]], s[1..], word);
    } else if i == 0 {
      OccursCons(s[0], rest, word);
      SqueezePrefix(s[1..], next, word[1..]);
      OccursCons(s[0], s[1..], word);
    } else {
      OccursRight([s[0]], rest, word, i - 1);
      SqueezeAddsNothing(s[1..], next, word, i - 1);
      OccursBehind([s[0]], s[1..], word);
    }
  }

  /** Text before a block that does not start with a newline: squeezed, the block stays whole. */
  ghost predicate IsCompact(block: string) {
    block != "" && block[0] != '\n' && Squeeze(block, 0) == block
  }

  /** A block ends in one newline, so stripping newlines and ending the line gives it back. */
  lemma StrippedBlock(m: Fixed, x: string, block: string)
    requires IsUsable(m) && IsBlock(m, block)
    ensures RStripNewlines(block) + "\n" == block
    ensures RStripNewlines(x + block) + "\n" == x + block
  {
    var init := block[..|block| - 1];
    LastLineHasText(m, block);
    assert block == init + "\n";
    StripsOne("", init);
    assert "" + init == init;
    StripsOne(x, init);
  }

  lemma StripsOne(x: string, init: string)
    requires init != "" && init[|init| - 1] != '\n'
    ensures RStripNewlines(x + (init + "\n")) == x + init
    ensures x + init + "\n" == x + (init + "\n")
  {
    var s := x + (init + "\n");
    assert s[..|s| - 1] == x + init;
    assert (x + init)[|x + init| - 1] == init[|init| - 1];
  }

  /** The last line of a block is not empty: it ends no sooner than the END marker. */
  lemma LastLineHasText(m: Fixed, block: string)
    requires IsUsable(m) && IsBlock(m, block)
    ensures |block| >= 2 && block[|block| - 1] == '\n' && block[|block| - 2] != '\n'
  {
    var e := Find(block, m.end).value;
    FindFromIsFirst(block, m.end, 0);
    if e + |m.end| == |block| - 1 {
      OccursChar(block, m.end, e, |block| - 2);
    } else {
      assert block[e + |m.end|..|block| - 1][|block| - 2 - e - |m.end|] == block[|block| - 2];
    }
  }

  /** A configuration made from the template is its text up to the hooks, squeezed, and the block. */
  lemma CreateIs(m: Fixed, head: string, extra: string, block: string)
    requires IsUsable(m) && IsBlock(m, block) && IsCompact(block)
    ensures Create(head, extra, block) == Squeeze(head + RStripNewlines(extra) + "\n", 0) + block
  {
    var a := head + RStripNewlines(extra) + "\n";
    StrippedBlock(m, Squeeze(a, 0), block);
    assert a + RStripNewlines(block) + "\n" == a + (RStripNewlines(block) + "\n");
    SqueezeJoins(a, block, 0);
  }

  /** Run again on the configuration it made, the script changes nothing. */
  lemma CreatedIsStable(m: Fixed, head: string, extra: string, block: string)
    requires IsUsable(m) && IsBlock(m, block) && IsCompact(block)
    requires forall word | word == m.begin || word == m.end :: !Occurs(head + RStripNewlines(extra) + "\n", word)
    ensures Upsert(m, Create(head, extra, block), block) == Create(head, extra, block)
  {
    var a := head + RStripNewlines(extra) + "\n";
    CreateIs(m, head, extra, block);
    SqueezeEndsLine(a, 0);
    var x := Squeeze(a, 0);
    forall word, i | word == m.begin || word == m.end
      ensures !OccursAt(x, word, i)
    {
      if OccursAt(x, word, i) {
        SqueezeAddsNothing(a, 0, word, i);
      }
    }
    UpsertReplaces(m, x, block, "", block);
    assert x + block + "" == x + block;
  }
}
