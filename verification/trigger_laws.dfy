/**
  The two insertions of scripts/propagate.py together: putting a `merge_group` entry into a text
  whose permissions are complete leaves them complete, although the entry may land above, inside or
  below a `permissions:` block, and may copy one.
 */
module TriggerLaws {
  import opened Wrappers
  import opened Seqs
  import opened Text
  import opened Pins
  import opened Lines
  import opened Permissions
  import opened Trigger

  /** The text with the entry put in. */
  function Placed(lines: seq<string>, p: Place): seq<string>
    requires p.at <= |lines|
  {
    InsertAt(lines, p.at, Entry(p))
  }

  /**
    What is deeper than something deeper is deeper, so the line behind the place is no deeper than
    anything nested before it.
   */
  lemma BehindIsNotDeeper(lines: seq<string>, p: Place, j: nat)
    requires Fits(lines, p) && p.pull < j < p.at < |lines|
    ensures !IsDeeper(lines[p.at], Indent(lines[j]))
  {
    assert IsDeeper(lines[j], p.indent);
    if IsDeeper(lines[p.at], Indent(lines[j])) {
      NestedIndent(lines[j], p.indent);
      DeeperThanDeeper(lines[p.at], Indent(lines[j]), p.indent);
    }
  }

  lemma NestedIndent(line: string, indent: string)
    requires IsDeeper(line, indent)
    ensures |indent| < |Indent(line)| && Indent(line)[..|indent|] == indent
  {
    assert Indent(line)[..|indent|] == line[..|indent|];
  }

  lemma DeeperThanDeeper(line: string, inner: string, outer: string)
    requires IsDeeper(line, inner) && |outer| <= |inner| && inner[..|outer|] == outer
    ensures IsDeeper(line, outer)
  {
    assert line[..|outer|] == line[..|inner|][..|outer|];
  }

  lemma NoHeaderNoBlock(lines: seq<string>, k: nat, next: string)
    requires k < |lines| && (k + 1 < |lines| ==> lines[k + 1] == next)
    requires k + 1 < |lines| ==> !IsHeader(lines[k]) || !IsDeeper(next, Indent(lines[k]))
    ensures !BlockAt(lines, k)
  {}

  /** No block starts with the last line before the place. */
  lemma NoBlockAtSeam(lines: seq<string>, p: Place)
    requires Fits(lines, p)
    ensures !BlockAt(lines, p.at - 1)
  {
    if p.at < |lines| {
      if p.pull < p.at - 1 {
        BehindIsNotDeeper(lines, p, p.at - 1);
      }
      NoHeaderNoBlock(lines, p.at - 1, lines[p.at]);
    }
  }

  lemma LastNested(lines: seq<string>, p: Place)
    requires Fits(lines, p)
    ensures !IsHeader(lines[p.at - 1]) || |p.indent| < |Indent(lines[p.at - 1])|
  {
    if p.pull < p.at - 1 {
      NestedIndent(lines[p.at - 1], p.indent);
    }
  }

  lemma NoBlockAbove(lines: seq<string>, k: nat, indent: string)
    requires k + 1 < |lines| && IsHead(lines[k + 1], indent)
    requires !IsHeader(lines[k]) || |indent| < |Indent(lines[k])|
    ensures !BlockAt(lines, k)
  {}

  /** Nor does one after the edit. */
  lemma NoBlockAtEntry(lines: seq<string>, at: nat, x: seq<string>, indent: string)
    requires 0 < at <= |lines| && x != [] && IsHead(x[0], indent)
    requires !IsHeader(lines[at - 1]) || |indent| < |Indent(lines[at - 1])|
    ensures !BlockAt(InsertAt(lines, at, x), at - 1)
  {
    InsertedAt(lines, at, x, at - 1);
    InsertedAt(lines, at, x, at);
    NoBlockAbove(InsertAt(lines, at, x), at - 1, indent);
  }

  /** A block that starts within the entry was copied whole. */
  lemma BlockInEntry(lines: seq<string>, p: Place, k: nat) returns (j: nat)
    requires Fits(lines, p) && p.at <= k < p.at + |Entry(p)| && BlockAt(Placed(lines, p), k)
    ensures j + 1 < p.at && BlockAt(lines, j)
  {
    var r, i := Placed(lines, p), k - p.at;
    InsertedAt(lines, p.at, Entry(p), k);
    InsertedAt(lines, p.at, Entry(p), k + 1);
    EntryHead(p);
    j := EntryLine(lines, p, i);
    if i + 1 == |Entry(p)| {
      BehindIsNotDeeper(lines, p, j);
    }
  }

  /** Behind the entry blocks start where they did. */
  lemma BlocksBehind(lines: seq<string>, at: nat, x: seq<string>, k: nat)
    requires at <= k <= |lines|
    ensures BlockAt(InsertAt(lines, at, x), k + |x|) <==> BlockAt(lines, k)
  {
    var r := InsertAt(lines, at, x);
    assert |r| == |lines| + |x|;
    if k + 1 < |lines| {
      InsertedAt(lines, at, x, k + |x|);
      InsertedAt(lines, at, x, k + 1 + |x|);
    }
  }

  /** The first block stays where it is if it starts above the place, and moves with its lines otherwise. */
  lemma FirstBlockAfter(lines: seq<string>, p: Place)
    requires Fits(lines, p)
    ensures var k := FirstBlock(lines, 0);
            FirstBlock(Placed(lines, p), 0) == if k < p.at then k else k + |Entry(p)|
    ensures FirstBlock(lines, 0) < p.at ==> FirstBlock(lines, 0) + 1 < p.at
  {
    var k, x := FirstBlock(lines, 0), Entry(p);
    FirstBlockIsFirst(lines, 0);
    NoBlockAtSeam(lines, p);
    if k < p.at {
      FirstBlockStays(lines, p.at, x, k);
    } else {
      forall i | 0 <= i < k + |x|
        ensures !BlockAt(Placed(lines, p), i)
      {
        NoBlockBefore(lines, p, i);
      }
      BlocksBehind(lines, p.at, x, k);
      FirstBlockIs(Placed(lines, p), k + |x|);
    }
  }

  lemma NoBlockBefore(lines: seq<string>, p: Place, i: nat)
    requires Fits(lines, p) && p.at <= FirstBlock(lines, 0) && i < FirstBlock(lines, 0) + |Entry(p)|
    ensures !BlockAt(Placed(lines, p), i)
  {
    FirstBlockIsFirst(lines, 0);
    if i + 1 < p.at {
      BlocksBefore(lines, p.at, Entry(p), i);
    } else if i + 1 == p.at {
      EntryHead(p);
      LastNested(lines, p);
      NoBlockAtEntry(lines, p.at, Entry(p), p.indent);
    } else if i < p.at + |Entry(p)| {
      if BlockAt(Placed(lines, p), i) {
        var j := BlockInEntry(lines, p, i);
      }
    } else {
      BlocksBehind(lines, p.at, Entry(p), i - |Entry(p)|);
    }
  }

  // ------------------------------------------------------------------- the lines of the block

  /** An entry that lands inside a block belongs to the block: its lines are deep enough. */
  lemma EntryInBlock(lines: seq<string>, p: Place, k: nat, i: nat)
    requires Fits(lines, p) && BlockAt(lines, k) && k + 1 < p.at < BlockEnd(lines, k) && i < |Entry(p)|
    ensures IsDeeper(Entry(p)[i], Indent(lines[k]))
  {
    var outer := Indent(lines[k]);
    BlockEndEnds(lines, k);
    IndentAbove(lines, p, outer);
    EntryHead(p);
    if i == 0 {
      IndentIsBlank(Entry(p)[0]);
      HeadIsDeeper(Entry(p)[0], p.indent, outer);
    } else {
      var j := EntryLine(lines, p, i);
      DeeperThanDeeper(lines[j], p.indent, outer);
    }
  }

  lemma HeadIsDeeper(line: string, indent: string, outer: string)
    requires IsHead(line, indent) && |outer| < |indent| && indent[..|outer|] == outer
    ensures IsDeeper(line, outer)
  {
    IndentIsBlank(line);
    assert line[..|outer|] == line[..|indent|][..|outer|];
  }

  /** The lines on both sides of the place are in the block, so the block lies less deep than the entries of `on:`. */
  lemma IndentAbove(lines: seq<string>, p: Place, outer: string)
    requires Fits(lines, p) && p.at < |lines|
    requires IsDeeper(lines[p.at - 1], outer) && IsDeeper(lines[p.at], outer)
    ensures |outer| < |p.indent| && p.indent[..|outer|] == outer
  {
    var line := lines[p.at - 1];
    NestedIndent(line, outer);
    if p.at - 1 > p.pull {
      NestedIndent(line, p.indent);
    }
    assert |p.indent| <= |Indent(line)| && Indent(line)[..|p.indent|] == p.indent;
    if |p.indent| <= |outer| {
      assert outer[..|p.indent|] == Indent(line)[..|outer|][..|p.indent|];
      DeeperThanDeeper(lines[p.at], outer, p.indent);
    } else {
      assert p.indent[..|outer|] == Indent(line)[..|p.indent|][..|outer|];
    }
  }

  /** The block keeps its lines. */
  lemma BlockKeepsLines(lines: seq<string>, p: Place, k: nat, i: nat)
    requires Fits(lines, p) && BlockAt(lines, k) && k + 1 < p.at && BlockAt(Placed(lines, p), k)
    requires k < i < BlockEnd(lines, k)
    ensures lines[i] in Placed(lines, p)[k + 1..BlockEnd(Placed(lines, p), k)]
  {
    var r, x := Placed(lines, p), Entry(p);
    var n := if i < p.at then i else i + |x|;
    PlacedIsDeeper(lines, p, k, i, n);
    BlockEndEnds(r, k);
    assert r[k] == lines[k];
    InsertedAt(lines, p.at, x, n);
    assert r[k + 1..BlockEnd(r, k)][n - k - 1] == lines[i];
  }

  lemma PlacedIsDeeper(lines: seq<string>, p: Place, k: nat, i: nat, n: nat)
    requires Fits(lines, p) && BlockAt(lines, k) && k + 1 < p.at
    requires k < i < BlockEnd(lines, k) && n == (if i < p.at then i else i + |Entry(p)|)
    ensures forall j :: k < j <= n ==> IsDeeper(Placed(lines, p)[j], Indent(lines[k]))
  {
    var r, x := Placed(lines, p), Entry(p);
    BlockEndEnds(lines, k);
    forall j | k < j <= n
      ensures IsDeeper(r[j], Indent(lines[k]))
    {
      InsertedAt(lines, p.at, x, j);
      if p.at <= j < p.at + |x| {
        EntryInBlock(lines, p, k, j - p.at);
      }
    }
  }

  /** A block below the place keeps its lines. */
  lemma BlockMoves(lines: seq<string>, at: nat, x: seq<string>, k: nat)
    requires at <= k && BlockAt(lines, k) && BlockAt(InsertAt(lines, at, x), k + |x|)
    ensures InsertAt(lines, at, x)[k + |x| + 1..BlockEnd(InsertAt(lines, at, x), k + |x|)]
         == lines[k + 1..BlockEnd(lines, k)]
  {
    var r, e := InsertAt(lines, at, x), BlockEnd(lines, k);
    assert r[k + |x|..] == lines[k..];
    LinesBehind(lines, at, x);
    BlockEndEnds(lines, k);
    forall i | k + |x| < i < e + |x|
      ensures IsDeeper(r[i], Indent(r[k + |x|]))
    {
      assert r[i] == lines[i - |x|];
    }
    BlockEndIs(r, k + |x|, e + |x|);
  }

  lemma LinesBehind(lines: seq<string>, at: nat, x: seq<string>)
    requires at <= |lines|
    ensures forall i :: at + |x| <= i < |lines| + |x| ==> InsertAt(lines, at, x)[i] == lines[i - |x|]
  {}

  lemma MoreIsPresent(small: seq<string>, big: seq<string>, needs: seq<string>)
    requires GrantsAll(small, needs) && forall line <- small :: line in big
    ensures GrantsAll(big, needs)
  {
    forall need <- needs
      ensures IsPresent(big, BeforeColon(need))
    {
      var line :| line in small && Grants(line, BeforeColon(need));
      assert line in big;
    }
  }

  /** Adding the trigger keeps the permissions complete. */
  lemma TriggerKeepsComplete(needs: seq<string>, lines: seq<string>)
    requires IsComplete(needs, lines)
    ensures IsComplete(needs, AddTrigger(lines))
  {
    if PlaceOf(CallerPatterns(), lines).Some? {
      var p := PlaceOf(CallerPatterns(), lines).value;
      PlaceFits(lines, p);
      PlacedKeepsComplete(needs, lines, p);
    }
  }

  lemma PlacedKeepsComplete(needs: seq<string>, lines: seq<string>, p: Place)
    requires Fits(lines, p) && IsComplete(needs, lines)
    ensures IsComplete(needs, Placed(lines, p))
  {
    var k := FirstBlock(lines, 0);
    FirstBlockAfter(lines, p);
    FirstBlockIsFirst(lines, 0);
    if k < p.at {
      FirstBlockStays(lines, p.at, Entry(p), k);
      BlockAboveGrants(needs, lines, p, k);
    } else {
      MovedIsComplete(needs, lines, p.at, Entry(p), k);
    }
  }

  lemma MovedIsComplete(needs: seq<string>, lines: seq<string>, at: nat, x: seq<string>, k: nat)
    requires IsComplete(needs, lines) && k == FirstBlock(lines, 0) && at <= k
    requires FirstBlock(InsertAt(lines, at, x), 0) == k + |x|
    ensures IsComplete(needs, InsertAt(lines, at, x))
  {
    BlocksBehind(lines, at, x, k);
    if BlockAt(lines, k) {
      BlockMoves(lines, at, x, k);
    }
  }

  lemma BlockAboveGrants(needs: seq<string>, lines: seq<string>, p: Place, k: nat)
    requires Fits(lines, p) && BlockAt(lines, k) && k + 1 < p.at && BlockAt(Placed(lines, p), k)
    requires GrantsAll(lines[k + 1..BlockEnd(lines, k)], needs)
    ensures GrantsAll(Placed(lines, p)[k + 1..BlockEnd(Placed(lines, p), k)], needs)
  {
    var e := BlockEnd(lines, k);
    var body, after := lines[k + 1..e], Placed(lines, p)[k + 1..BlockEnd(Placed(lines, p), k)];
    forall line | line in body
      ensures line in after
    {
      var i :| 0 <= i < |body| && body[i] == line;
      BlockKeepsLines(lines, p, k, k + 1 + i);
    }
    MoreIsPresent(body, after, needs);
  }
}
