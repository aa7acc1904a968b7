/**
  The string operations of Python's `str` that the toolchain relies on, with the laws the other
  modules use. Whitespace and line breaks are Python's: `str.isspace`, and the separators of
  `str.splitlines`.
 */
module Text {
  import opened Seqs

  predicate IsSpace(c: char) {
    var n := c as int;
    || 9 <= n <= 13 || 28 <= n <= 32 || n == 0x85 || n == 0xA0 || n == 0x1680
    || 0x2000 <= n <= 0x200A || n == 0x2028 || n == 0x2029 || n == 0x202F || n == 0x205F || n == 0x3000
  }

  predicate IsLineBreak(c: char) {
    var n := c as int;
    10 <= n <= 13 || 28 <= n <= 30 || n == 0x85 || n == 0x2028 || n == 0x2029
  }

  predicate IsNewline(c: char) {
    c == '\n'
  }

  ghost predicate Without(s: string, p: char -> bool) {
    forall i :: 0 <= i < |s| ==> !p(s[i])
  }

  predicate IsNonEmpty(s: string) {
    s != ""
  }

  /** The upper case of a character, as long as it is ASCII; ligatures and the sharp s make more than one. */
  function UpperChar(c: char): (r: string)
    ensures r != ""
  {
    var n := c as int;
    if 'a' <= c <= 'z' then [(n - 32) as char]
    else if n == 0x131 then "I"
    else if n == 0x17F then "S"
    else if n == 0xDF then "SS"
    else if n == 0xFB00 then "FF"
    else if n == 0xFB01 then "FI"
    else if n == 0xFB02 then "FL"
    else if n == 0xFB03 then "FFI"
    else if n == 0xFB04 then "FFL"
    else if n == 0xFB05 || n == 0xFB06 then "ST"
    else [c]
  }

  /**
    `str.upper`, as exact as a comparison with an ASCII word needs: the characters whose upper
    case is not ASCII stand for themselves, and so does every upper-case character.
   */
  function Upper(s: string): string {
    if s == "" then "" else UpperChar(s[0]) + Upper(s[1..])
  }

  /** Nothing, or lines that are all ended. */
  ghost predicate EndsLine(s: string) {
    s == "" || s[|s| - 1] == '\n'
  }

  lemma Rejoin(a: string, b: string, c: string)
    ensures a + b + c == a + (b + c)
  {}

  lemma WithoutJoins(a: string, b: string, p: char -> bool)
    ensures Without(a + b, p) <==> Without(a, p) && Without(b, p)
  {
    if Without(a + b, p) {
      forall i | 0 <= i < |b|
        ensures !p(b[i])
      {
        assert (a + b)[|a| + i] == b[i];
      }
      forall i | 0 <= i < |a|
        ensures !p(a[i])
      {
        assert (a + b)[i] == a[i];
      }
    }
  }

  // ------------------------------------------------------------------- stripping

  function LStrip(s: string): (r: string)
    ensures |r| <= |s|
  {
    if s != "" && IsSpace(s[0]) then LStrip(s[1..]) else s
  }

  function RStrip(s: string): string {
    if s != "" && IsSpace(s[|s| - 1]) then RStrip(s[..|s| - 1]) else s
  }

  lemma {:induction false} LStripDrops(s: string)
    ensures |LStrip(s)| <= |s| && LStrip(s) == s[|s| - |LStrip(s)|..]
    ensures LStrip(s) != "" ==> !IsSpace(LStrip(s)[0])
    ensures forall i :: 0 <= i < |s| - |LStrip(s)| ==> IsSpace(s[i])
  {
    if s != "" && IsSpace(s[0]) {
      LStripDrops(s[1..]);
    }
  }

  lemma {:induction false} RStripDrops(s: string)
    ensures RStrip(s) <= s
    ensures RStrip(s) != "" ==> !IsSpace(RStrip(s)[|RStrip(s)| - 1])
    ensures forall i :: |RStrip(s)| <= i < |s| ==> IsSpace(s[i])
  {
    if s != "" && IsSpace(s[|s| - 1]) {
      RStripDrops(s[..|s| - 1]);
    }
  }

  function Strip(s: string): string {
    RStrip(LStrip(s))
  }

  predicate IsStripped(s: string) {
    s != "" ==> !IsSpace(s[0]) && !IsSpace(s[|s| - 1])
  }

  lemma StripIsStripped(s: string)
    ensures IsStripped(Strip(s))
    ensures IsStripped(s) <==> Strip(s) == s
    ensures RStrip(Strip(s)) == Strip(s)
  {
    var l := LStrip(s);
    var r := Strip(s);
    LStripDrops(s);
    RStripDrops(l);
    if r != "" {
      assert r[0] == l[0];
    }
  }

  /** A character that is no whitespace survives stripping. */
  lemma StripKeepsText(s: string, i: nat)
    requires i < |s| && !IsSpace(s[i])
    ensures Strip(s) != ""
  {
    LStripDrops(s);
    RStripDrops(LStrip(s));
  }

  predicate StartsWith(s: string, prefix: string) {
    |prefix| <= |s| && s[..|prefix|] == prefix
  }

  predicate EndsWith(s: string, suffix: string) {
    |suffix| <= |s| && s[|s| - |suffix|..] == suffix
  }

  // ------------------------------------------------------------------- splitting

  /** The pieces between separators; there is always at least one. */
  function Split(s: string, sep: char -> bool): (r: seq<string>)
    ensures r != []
  {
    if s == "" then [""]
    else if sep(s[0]) then [""] + Split(s[1..], sep)
    else OnFirst(s[0], Split(s[1..], sep))
  }

  /** The pieces with a character put in front of the first. */
  function OnFirst(c: char, pieces: seq<string>): (r: seq<string>)
    requires pieces != []
    ensures r != []
  {
    [[c] + pieces[0]] + pieces[1..]
  }

  lemma OnFirstJoins(c: char, a: seq<string>, b: seq<string>)
    requires a != []
    ensures OnFirst(c, a + b) == OnFirst(c, a) + b
  {}

  lemma {:induction false} SplitWithout(s: string, sep: char -> bool)
    requires Without(s, sep)
    ensures Split(s, sep) == [s]
  {
    if s != "" {
      SplitWithout(s[1..], sep);
      assert [s[0]] + s[1..] == s;
    }
  }

  lemma {:induction false} SplitPieces(s: string, sep: char -> bool)
    ensures forall i :: 0 <= i < |Split(s, sep)| ==> Without(Split(s, sep)[i], sep)
  {
    if s != "" {
      SplitPieces(s[1..], sep);
      var r := Split(s[1..], sep);
      assert Without(r[0], sep);
    }
  }

  /** Splitting works piece by piece around a separator. */
  lemma {:induction false} SplitAround(a: string, c: char, b: string, sep: char -> bool)
    requires sep(c)
    ensures Split(a + [c] + b, sep) == Split(a, sep) + Split(b, sep)
  {
    if a == "" {
      assert a + [c] + b == [c] + b;
      assert ([c] + b)[1..] == b;
    } else {
      var whole := a + [c] + b;
      assert whole[1..] == a[1..] + [c] + b && whole[0] == a[0];
      SplitAround(a[1..], c, b, sep);
      if sep(a[0]) {
        assert [""] + (Split(a[1..], sep) + Split(b, sep)) == [""] + Split(a[1..], sep) + Split(b, sep);
      } else {
        OnFirstJoins(a[0], Split(a[1..], sep), Split(b, sep));
      }
    }
  }

  /** Pieces joined by newlines: `"\n".join(pieces)`. */
  function Join(pieces: seq<string>): string
    requires pieces != []
  {
    if |pieces| == 1 then pieces[0] else pieces[0] + "\n" + Join(pieces[1..])
  }

  lemma {:induction false} JoinSplit(s: string)
    ensures Join(Split(s, IsNewline)) == s
  {
    if s != "" {
      JoinSplit(s[1..]);
      var r := Split(s[1..], IsNewline);
      if IsNewline(s[0]) {
        assert ([""] + r)[1..] == r;
        assert Join([""] + r) == "" + "\n" + Join(r);
        assert s == "\n" + s[1..];
      } else {
        var q := OnFirst(s[0], r);
        assert q[1..] == r[1..];
        if |r| == 1 {
          assert Join(q) == [s[0]] + s[1..];
        } else {
          assert Join(q) == [s[0]] + r[0] + "\n" + Join(r[1..]) == [s[0]] + (r[0] + "\n" + Join(r[1..]));
        }
        assert s == [s[0]] + s[1..];
      }
    }
  }

  lemma {:induction false} SplitJoin(pieces: seq<string>)
    requires pieces != [] && forall i :: 0 <= i < |pieces| ==> Without(pieces[i], IsNewline)
    ensures Split(Join(pieces), IsNewline) == pieces
  {
    SplitWithout(pieces[0], IsNewline);
    if |pieces| > 1 {
      SplitJoin(pieces[1..]);
      SplitAround(pieces[0], '\n', Join(pieces[1..]), IsNewline);
      assert pieces == [pieces[0]] + pieces[1..];
    }
  }

  /** Every line followed by a newline. */
  function Unlines(lines: seq<string>): string {
    if lines == [] then "" else lines[0] + "\n" + Unlines(lines[1..])
  }

  lemma {:induction false} UnlinesSplits(a: seq<string>, b: seq<string>)
    ensures Unlines(a + b) == Unlines(a) + Unlines(b)
  {
    if a == [] {
      assert a + b == b;
    } else {
      UnlinesSplits(a[1..], b);
      assert (a + b)[1..] == a[1..] + b && (a + b)[0] == a[0];
      Rejoin(a[0] + "\n", Unlines(a[1..]), Unlines(b));
    }
  }

  lemma {:induction false} UnlinesEndsLine(lines: seq<string>)
    ensures EndsLine(Unlines(lines)) && (lines == [] <==> Unlines(lines) == "")
  {
    if lines != [] {
      UnlinesEndsLine(lines[1..]);
    }
  }

  // ------------------------------------------------------------------- order

  /** Python's order on strings: by code point, a prefix first. */
  predicate LexLe(a: string, b: string) {
    a == "" || (b != "" && (a[0] < b[0] || (a[0] == b[0] && LexLe(a[1..], b[1..]))))
  }

  predicate LexLt(a: string, b: string) {
    a != b && LexLe(a, b)
  }

  lemma {:induction false} LexTotal(a: string, b: string)
    ensures LexLe(a, b) || LexLe(b, a)
    ensures LexLe(a, b) && LexLe(b, a) ==> a == b
  {
    if a != "" && b != "" && a[0] == b[0] {
      LexTotal(a[1..], b[1..]);
      assert a == [a[0]] + a[1..] && b == [b[0]] + b[1..];
    }
  }

  lemma {:induction false} LexTransitive(a: string, b: string, c: string)
    requires LexLe(a, b) && LexLe(b, c)
    ensures LexLe(a, c)
  {
    if a != "" && a[0] == b[0] == c[0] {
      LexTransitive(a[1..], b[1..], c[1..]);
    }
  }

  lemma LexReflexive(a: string)
    ensures LexLe(a, a)
  {
    LexTotal(a, a);
  }

  ghost predicate Ascending(s: seq<string>) {
    forall i, j :: 0 <= i < j < |s| ==> LexLt(s[i], s[j])
  }

  ghost function Elements<T>(s: seq<T>): set<T> {
    set x | x in s
  }

  lemma EmptyElements<T>(s: seq<T>)
    ensures s == [] <==> Elements(s) == {}
  {
    if s != [] {
      assert s[0] in Elements(s);
    }
  }

  lemma JoinElements<T>(a: seq<T>, b: seq<T>)
    ensures Elements(a + b) == Elements(a) + Elements(b)
  {
    assert forall x :: x in a + b <==> x in a || x in b;
  }

  /** A strictly ascending sequence is determined by its elements. */
  lemma {:induction false} AscendingIsUnique(a: seq<string>, b: seq<string>)
    requires Ascending(a) && Ascending(b) && Elements(a) == Elements(b)
    ensures a == b
  {
    if a == [] || b == [] {
      EmptyElements(a);
      EmptyElements(b);
    } else {
      assert a[0] in Elements(b) && b[0] in Elements(a);
      LexTotal(a[0], b[0]);
      assert a[0] == b[0];
      forall x
        ensures x in a[1..] <==> x in b[1..]
      {
        assert x in a[1..] <==> x in Elements(a) && x != a[0] by { TailElements(a, x); }
        assert x in b[1..] <==> x in Elements(b) && x != b[0] by { TailElements(b, x); }
      }
      AscendingIsUnique(a[1..], b[1..]);
      assert a == [a[0]] + a[1..] && b == [b[0]] + b[1..];
    }
  }

  lemma TailElements(s: seq<string>, x: string)
    requires s != [] && Ascending(s)
    ensures x in s[1..] <==> x in Elements(s) && x != s[0]
  {
    if x in s[1..] {
      var i :| 0 <= i < |s[1..]| && s[1..][i] == x;
      assert s[i + 1] == x && LexLt(s[0], s[i + 1]);
    }
  }

  /** Insertion into a strictly ascending sequence. */
  function Insert(s: seq<string>, k: string): (r: seq<string>)
    ensures r != []
  {
    if s == [] then [k]
    else if s[0] == k then s
    else if LexLe(k, s[0]) then [k] + s
    else [s[0]] + Insert(s[1..], k)
  }

  lemma LexLtTransitive(a: string, b: string, c: string)
    requires LexLt(a, b) && LexLt(b, c)
    ensures LexLt(a, c)
  {
    LexTransitive(a, b, c);
    LexTotal(a, b);
  }

  lemma ConsAscends(x: string, s: seq<string>)
    requires Ascending(s) && (s != [] ==> LexLt(x, s[0]))
    ensures Ascending([x] + s)
  {
    forall j | 0 <= j < |s|
      ensures LexLt(x, s[j])
    {
      if j > 0 {
        LexLtTransitive(x, s[0], s[j]);
      }
    }
  }

  lemma {:induction false} InsertElements(s: seq<string>, k: string)
    ensures Elements(Insert(s, k)) == Elements(s) + {k}
  {
    if s == [] {
    } else if s[0] == k {
      assert k in Elements(s);
    } else if LexLe(k, s[0]) {
      JoinElements([k], s);
    } else {
      InsertElements(s[1..], k);
      assert s == [s[0]] + s[1..];
      JoinElements([s[0]], s[1..]);
      JoinElements([s[0]], Insert(s[1..], k));
    }
  }

  lemma {:induction false} InsertAscends(s: seq<string>, k: string)
    requires Ascending(s)
    ensures Ascending(Insert(s, k))
    ensures Elements(Insert(s, k)) == Elements(s) + {k}
    ensures Insert(s, k)[0] == if s != [] && LexLe(s[0], k) then s[0] else k
  {
    InsertElements(s, k);
    if s == [] {
    } else if s[0] == k {
      LexReflexive(k);
    } else if LexLe(k, s[0]) {
      LexTotal(k, s[0]);
      ConsAscends(k, s);
    } else {
      LexTotal(k, s[0]);
      InsertAscends(s[1..], k);
      ConsAscends(s[0], Insert(s[1..], k));
    }
  }

  /** `sorted(set(keys))`. */
  function SortUnique(keys: seq<string>): seq<string> {
    if keys == [] then [] else Insert(SortUnique(keys[..|keys| - 1]), keys[|keys| - 1])
  }

  lemma {:induction false} SortUniqueSorts(keys: seq<string>)
    ensures Ascending(SortUnique(keys))
    ensures Elements(SortUnique(keys)) == Elements(keys)
  {
    if keys != [] {
      SortUniqueSorts(keys[..|keys| - 1]);
      InsertAscends(SortUnique(keys[..|keys| - 1]), keys[|keys| - 1]);
      assert keys == keys[..|keys| - 1] + [keys[|keys| - 1]];
    }
  }

  lemma {:induction false} SortedSeqExists(s: set<string>) returns (r: seq<string>)
    ensures Ascending(r) && Elements(r) == s
  {
    if s == {} {
      r := [];
    } else {
      var x :| x in s;
      var rest := SortedSeqExists(s - {x});
      InsertAscends(rest, x);
      r := Insert(rest, x);
    }
  }

  /** `sorted(s)` for a set. */
  ghost function Sorted(s: set<string>): (r: seq<string>)
    ensures Ascending(r) && Elements(r) == s
  {
    assert exists r :: Ascending(r) && Elements(r) == s by { var r := SortedSeqExists(s); }
    var r :| Ascending(r) && Elements(r) == s;
    r
  }

  method SortSet(s: set<string>) returns (r: seq<string>)
    ensures r == Sorted(s)
  {
    r := [];
    var rest := s;
    while rest != {}
      invariant rest <= s
      invariant Ascending(r) && Elements(r) == s - rest
      decreases rest
    {
      var x :| x in rest;
      InsertAscends(r, x);
      r := Insert(r, x);
      rest := rest - {x};
    }
    AscendingIsUnique(r, Sorted(s));
  }
}
