/**
  Baseline files (thyn_security_toolchain/gate.py): known finding keys, one a line, under a
  header of comments. What is rendered has to read back.
 */
module Baseline {
  import opened Wrappers
  import opened Text

  ghost predicate OneLine(s: string) {
    Without(s, IsLineBreak)
  }

  /** The comment lines on top; the tool, commit and run they name must not break them. */
  type Header = seq<string>

  ghost predicate IsComment(line: string) {
    OneLine(line) && line != "" && line[0] == '#'
  }

  ghost predicate HeaderFits(h: Header) {
    forall line <- h :: IsComment(line)
  }

  /** `render_baseline`: the header, a blank line, the sorted keys, each line ended by a newline. */
  function Render(h: Header, keys: seq<string>): string {
    Unlines(h + [""] + SortUnique(keys))
  }

  predicate IsEntry(line: string) {
    line != "" && line[0] != '#'
  }

  /** The keys some lines hold: comments and blank lines hold none. */
  ghost function KeysOf(lines: seq<string>): set<string> {
    set raw | raw in lines && IsEntry(RStrip(raw)) :: RStrip(raw)
  }

  /** What `read_baseline` finds in a text. The lines are those of `str.splitlines`. */
  ghost function Keys(text: string): set<string> {
    KeysOf(Split(text, IsLineBreak))
  }

  /** `read_baseline`: no file is no baseline, which is not the same as an empty one. */
  method ReadBaseline(file: Option<string>) returns (keys: Option<set<string>>)
    ensures keys == if file.Some? then Some(Keys(file.value)) else None
  {
    if file.None? {
      return None;
    }
    var lines := Split(file.value, IsLineBreak);
    var found: set<string> := {};
    var i := 0;
    while i < |lines|
      invariant 0 <= i <= |lines|
      invariant found == KeysOf(lines[..i])
    {
      var line := RStrip(lines[i]);
      OneMoreLine(lines, i);
      if IsEntry(line) {
        found := found + {line};
      }
      i := i + 1;
    }
    assert lines[..i] == lines;
    return Some(found);
  }

  lemma OneMoreLine(lines: seq<string>, i: nat)
    requires i < |lines|
    ensures KeysOf(lines[..i + 1])
         == KeysOf(lines[..i]) + if IsEntry(RStrip(lines[i])) then {RStrip(lines[i])} else {}
  {
    assert lines[..i + 1] == lines[..i] + [lines[i]];
    assert forall raw :: raw in lines[..i + 1] <==> raw in lines[..i] || raw == lines[i];
  }

  lemma KeysOfJoins(a: seq<string>, b: seq<string>)
    ensures KeysOf(a + b) == KeysOf(a) + KeysOf(b)
  {
    assert forall raw :: raw in a + b <==> raw in a || raw in b;
  }

  // ------------------------------------------------------------------- rendered, then read

  /** What reading makes of one rendered line: a line break inside it splits it. */
  ghost function Readback(line: string): set<string> {
    KeysOf(Split(line, IsLineBreak))
  }

  ghost function ReadbackAll(lines: seq<string>): set<string> {
    set line, key | line in lines && key in Readback(line) :: key
  }

  lemma {:induction false} KeysOfUnlines(lines: seq<string>)
    ensures Keys(Unlines(lines)) == ReadbackAll(lines)
  {
    if lines == [] {
      BlankHoldsNothing();
    } else {
      var rest := Unlines(lines[1..]);
      KeysOfUnlines(lines[1..]);
      assert Unlines(lines) == lines[0] + ['\n'] + rest;
      SplitAround(lines[0], '\n', rest, IsLineBreak);
      KeysOfJoins(Split(lines[0], IsLineBreak), Split(rest, IsLineBreak));
      forall key
        ensures key in ReadbackAll(lines) <==> key in Readback(lines[0]) || key in ReadbackAll(lines[1..])
      {
        assert forall line :: line in lines <==> line == lines[0] || line in lines[1..];
      }
    }
  }

  lemma BlankHoldsNothing()
    ensures Readback("") == {}
  {
    assert RStrip("") == "";
  }

  lemma CommentHoldsNothing(line: string)
    requires IsComment(line)
    ensures Readback(line) == {}
  {
    SplitWithout(line, IsLineBreak);
    RStripDrops(line);
  }

  /** Reading a rendered baseline, whatever the keys: each key reads back as its own lines do. */
  lemma RenderedReads(h: Header, keys: seq<string>)
    requires HeaderFits(h)
    ensures Keys(Render(h, keys)) == ReadbackAll(keys)
  {
    var body := SortUnique(keys);
    KeysOfUnlines(h + [""] + body);
    SortUniqueSorts(keys);
    BlankHoldsNothing();
    forall line | line in h + [""]
      ensures Readback(line) == {}
    {
      if line in h {
        CommentHoldsNothing(line);
      }
    }
    assert forall line :: line in h + [""] + body <==> line in h + [""] || line in Elements(body);
    assert forall line :: line in keys <==> line in Elements(keys);
  }

  /** A key that is its own baseline line. */
  ghost predicate Plain(key: string) {
    OneLine(key) && RStrip(key) == key && IsEntry(key)
  }

  /** Read as a comment, or as more than one line. */
  ghost predicate IsUnreadable(key: string) {
    StartsWith(key, "#") || !OneLine(key)
  }

  /** That is all that can go wrong with a key that is stripped and not blank. */
  lemma StrippedIsPlainExactly(key: string)
    requires IsStripped(key) && key != ""
    ensures Plain(key) <==> !IsUnreadable(key)
  {
    StripIsStripped(key);
  }

  /** A key on one line that starts with `#` is never read back. */
  lemma HashKeyIsLost(h: Header, key: string)
    requires HeaderFits(h) && StartsWith(key, "#") && OneLine(key)
    ensures Keys(Render(h, [key])) == {}
  {
    RenderedReads(h, [key]);
    CommentHoldsNothing(key);
    assert forall line :: line in [key] <==> line == key;
  }

  lemma PlainReadsBack(key: string)
    requires Plain(key)
    ensures Readback(key) == {key}
  {
    SplitWithout(key, IsLineBreak);
  }

  /** Whatever is read is plain: a key that is not plain is never read back. */
  lemma ReadIsPlain(line: string, key: string)
    requires key in Readback(line)
    ensures Plain(key)
  {
    var pieces := Split(line, IsLineBreak);
    SplitPieces(line, IsLineBreak);
    var raw :| raw in pieces && IsEntry(RStrip(raw)) && RStrip(raw) == key;
    RStripDrops(raw);
    var i :| 0 <= i < |pieces| && pieces[i] == raw;
    StripTwice(raw);
  }

  lemma StripTwice(s: string)
    ensures RStrip(RStrip(s)) == RStrip(s)
  {
    RStripDrops(s);
  }

  /** A rendered key reads back exactly when it is plain. */
  lemma KeyReadsBackExactly(h: Header, keys: seq<string>, key: string)
    requires HeaderFits(h) && key in keys
    ensures key in Keys(Render(h, keys)) <==> Plain(key)
  {
    RenderedReads(h, keys);
    if Plain(key) {
      PlainReadsBack(key);
    }
    if key in ReadbackAll(keys) {
      var line :| line in keys && key in Readback(line);
      ReadIsPlain(line, key);
    }
  }

  /** Reading a rendered baseline returns exactly the key set if and only if every key is plain. */
  lemma RoundTripExactly(h: Header, keys: seq<string>)
    requires HeaderFits(h)
    ensures Keys(Render(h, keys)) == Elements(keys) <==> forall key <- keys :: Plain(key)
  {
    RenderedReads(h, keys);
    if forall key <- keys :: Plain(key) {
      forall key | key in keys
        ensures Readback(key) == {key}
      {
        PlainReadsBack(key);
      }
    } else {
      var key :| key in keys && !Plain(key);
      KeyReadsBackExactly(h, keys, key);
      assert key in Elements(keys);
    }
  }

  /** The order and the repetitions of the keys do not show in the file. */
  lemma RenderDependsOnSet(h: Header, a: seq<string>, b: seq<string>)
    requires Elements(a) == Elements(b)
    ensures Render(h, a) == Render(h, b)
  {
    SortUniqueSorts(a);
    SortUniqueSorts(b);
    AscendingIsUnique(SortUnique(a), SortUnique(b));
  }

  // ------------------------------------------------------------------- shrinking by hand

  /** `after` is `before` with the lines deleted that hold one of the `gone` keys. */
  ghost predicate LinesDeleted(before: string, after: string, gone: set<string>) {
    var pieces := Split(before, IsLineBreak);
    var rest := Split(after, IsLineBreak);
    && (forall raw <- rest :: raw == "" || (raw in pieces && RStrip(raw) !in gone))
    && (forall raw <- pieces :: RStrip(raw) in gone || raw in rest)
  }

  lemma DeletingLinesDeletesKeys(before: string, after: string, gone: set<string>)
    requires LinesDeleted(before, after, gone)
    ensures Keys(after) == Keys(before) - gone
  {
    var pieces := Split(before, IsLineBreak);
    var rest := Split(after, IsLineBreak);
    forall key
      ensures key in Keys(after) <==> key in Keys(before) && key !in gone
    {
      if key in Keys(after) {
        var raw :| raw in rest && IsEntry(RStrip(raw)) && RStrip(raw) == key;
        assert RStrip("") == "";
      }
      if key in Keys(before) && key !in gone {
        var raw :| raw in pieces && IsEntry(RStrip(raw)) && RStrip(raw) == key;
        assert raw in rest;
      }
    }
  }
}
