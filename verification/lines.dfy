/** Text as lines ended by newlines and a last line without one, and searches over lines. */
module Lines {
  import opened Wrappers
  import opened Text

  /** The lines of a text that end in a newline. */
  function LinesOf(text: string): seq<string> {
    Split(text, IsNewline)[..|Split(text, IsNewline)| - 1]
  }

  /** What follows the last newline. */
  function LastOf(text: string): string {
    Split(text, IsNewline)[|Split(text, IsNewline)| - 1]
  }

  ghost predicate AreLines(lines: seq<string>) {
    forall line <- lines :: Without(line, IsNewline)
  }

  lemma {:induction false} UnlinesSplit(lines: seq<string>, last: string)
    requires AreLines(lines) && Without(last, IsNewline)
    ensures Split(Unlines(lines) + last, IsNewline) == lines + [last]
  {
    if lines == [] {
      assert Unlines(lines) + last == last;
      SplitWithout(last, IsNewline);
    } else {
      var rest := Unlines(lines[1..]) + last;
      UnlinesSplit(lines[1..], last);
      SplitWithout(lines[0], IsNewline);
      SplitAround(lines[0], '\n', rest, IsNewline);
      assert Unlines(lines) + last == lines[0] + "\n" + rest;
      assert lines + [last] == [lines[0]] + (lines[1..] + [last]);
    }
  }

  /** Lines and a last line are the lines and the last line of their text. */
  lemma LinesOfUnlines(lines: seq<string>, last: string)
    requires AreLines(lines) && Without(last, IsNewline)
    ensures LinesOf(Unlines(lines) + last) == lines && LastOf(Unlines(lines) + last) == last
  {
    UnlinesSplit(lines, last);
  }

  lemma {:induction false} JoinIsUnlines(pieces: seq<string>)
    requires pieces != []
    ensures Join(pieces) == Unlines(pieces[..|pieces| - 1]) + pieces[|pieces| - 1]
  {
    if |pieces| == 1 {
      assert pieces[..0] == [];
    } else {
      var init := pieces[..|pieces| - 1];
      JoinIsUnlines(pieces[1..]);
      assert pieces[1..][..|pieces| - 2] == init[1..] && init[0] == pieces[0];
    }
  }

  /** A text is its lines and its last line. */
  lemma TextIsLines(text: string)
    ensures AreLines(LinesOf(text)) && Without(LastOf(text), IsNewline)
    ensures Unlines(LinesOf(text)) + LastOf(text) == text
  {
    SplitPieces(text, IsNewline);
    JoinSplit(text);
    JoinIsUnlines(Split(text, IsNewline));
  }

  /** An edit of the lines that end in a newline. */
  function OnLines(edit: seq<string> -> seq<string>, text: string): string {
    Unlines(edit(LinesOf(text))) + LastOf(text)
  }

  lemma EditedLines(edit: seq<string> -> seq<string>, text: string)
    requires AreLines(edit(LinesOf(text)))
    ensures LinesOf(OnLines(edit, text)) == edit(LinesOf(text)) && LastOf(OnLines(edit, text)) == LastOf(text)
  {
    TextIsLines(text);
    LinesOfUnlines(edit(LinesOf(text)), LastOf(text));
  }

  ghost predicate Have(lines: seq<string>, q: string -> bool) {
    forall line <- lines :: q(line)
  }

  lemma HaveFirst(lines: seq<string>, q: string -> bool)
    requires lines != []
    ensures Have(lines, q) <==> q(lines[0]) && Have(lines[1..], q)
  {
    assert forall line :: line in lines <==> line == lines[0] || line in lines[1..];
  }

  // ------------------------------------------------------------------- searching

  /** The first line in a range that `p` holds of, or the end of the range. */
  function FirstAt(lines: seq<string>, from: nat, to: nat, p: string -> bool): (r: nat)
    requires from <= to <= |lines|
    ensures from <= r <= to
    decreases |lines| - from
  {
    if from == to || p(lines[from]) then from else FirstAt(lines, from + 1, to, p)
  }

  lemma {:induction false} FirstAtIsFirst(lines: seq<string>, from: nat, to: nat, p: string -> bool)
    requires from <= to <= |lines|
    ensures forall i :: from <= i < FirstAt(lines, from, to, p) ==> !p(lines[i])
    ensures FirstAt(lines, from, to, p) < to ==> p(lines[FirstAt(lines, from, to, p)])
    decreases |lines| - from
  {
    if from < to && !p(lines[from]) {
      FirstAtIsFirst(lines, from + 1, to, p);
    }
  }

  lemma FirstAtIs(lines: seq<string>, from: nat, to: nat, p: string -> bool, n: nat)
    requires from <= n <= to <= |lines|
    requires forall i :: from <= i < n ==> !p(lines[i])
    requires n < to ==> p(lines[n])
    ensures FirstAt(lines, from, to, p) == n
  {
    FirstAtIsFirst(lines, from, to, p);
  }

  /** `x` put in at a line. */
  function InsertAt(lines: seq<string>, at: nat, x: seq<string>): seq<string>
    requires at <= |lines|
  {
    lines[..at] + x + lines[at..]
  }

  lemma InsertedAt(lines: seq<string>, at: nat, x: seq<string>, i: nat)
    requires at <= |lines| && i < |lines| + |x|
    ensures InsertAt(lines, at, x)[i]
         == if i < at then lines[i] else if i < at + |x| then x[i - at] else lines[i - |x|]
  {}

  /** An insertion behind what a search found does not change what it finds. */
  lemma FirstAtStays(lines: seq<string>, from: nat, to: nat, p: string -> bool, at: nat, x: seq<string>)
    requires from <= to <= |lines| && FirstAt(lines, from, to, p) < at <= to
    ensures FirstAt(InsertAt(lines, at, x), from, to + |x|, p) == FirstAt(lines, from, to, p)
  {
    FirstAtIsFirst(lines, from, to, p);
    FirstAtIs(InsertAt(lines, at, x), from, to + |x|, p, FirstAt(lines, from, to, p));
  }

  /** An insertion of lines that a search passes over moves what it finds. */
  lemma FirstAtShifts(lines: seq<string>, from: nat, to: nat, p: string -> bool, at: nat, x: seq<string>)
    requires from <= to <= |lines| && from <= at <= FirstAt(lines, from, to, p)
    requires forall i :: 0 <= i < |x| ==> !p(x[i])
    ensures FirstAt(InsertAt(lines, at, x), from, to + |x|, p) == FirstAt(lines, from, to, p) + |x|
  {
    var n := FirstAt(lines, from, to, p);
    FirstAtIsFirst(lines, from, to, p);
    forall i | from <= i < n + |x|
      ensures !p(InsertAt(lines, at, x)[i])
    {
      InsertedAt(lines, at, x, i);
    }
    FirstAtIs(InsertAt(lines, at, x), from, to + |x|, p, n + |x|);
  }

  /** A search finds no later line than one that it looks for. */
  lemma FirstAtLe(lines: seq<string>, from: nat, to: nat, p: string -> bool, i: nat)
    requires from <= i < to <= |lines| && p(lines[i])
    ensures FirstAt(lines, from, to, p) <= i
  {
    FirstAtIsFirst(lines, from, to, p);
  }

  lemma InsertNothing(lines: seq<string>, at: nat)
    requires at <= |lines|
    ensures InsertAt(lines, at, []) == lines
  {}

  // ------------------------------------------------------------------- patterns anchored at a line start

  /**
    `re.search` for a pattern that starts with `^`: `at` matches at the start of a text, and
    `atStart` says whether the text starts at the start of a line.
   */
  function AtLineStart<T>(at: string -> Option<T>, s: string, atStart: bool): Option<T>
    decreases |s|
  {
    if atStart && at(s).Some? then at(s)
    else if s == "" then None
    else AtLineStart(at, s[1..], s[0] == '\n')
  }
}
