/**
  Findings and their keys (thyn_security_toolchain/gate.py). A key has to match its own line in
  a baseline file, whatever the scanner put into a snippet, so it is built from normalised text.
 */
module Findings {
  import opened Wrappers
  import opened Text

  datatype Severity = LOW | MEDIUM | HIGH | CRITICAL

  function Rank(s: Severity): nat {
    match s
    case LOW => 1
    case MEDIUM => 2
    case HIGH => 3
    case CRITICAL => 4
  }

  datatype Tool = Gitleaks | Opengrep | Osv | Trivy

  datatype Finding = Finding(
    tool: Tool, key: string, severity: Severity, path: string, line: Option<int>, message: string, rule: string)
  {
    predicate Blocking() {
      Rank(severity) >= Rank(HIGH)
    }
  }

  /** The dataclass constructor: `__post_init__` strips the key. */
  function NewFinding(
      tool: Tool, key: string, severity: Severity, path: string, line: Option<int>, message: string, rule: string)
    : Finding
  {
    Finding(tool, Strip(key), severity, path, line, message, rule)
  }

  // ------------------------------------------------------------------- normalised text

  /** `re.sub(r"\s+", " ", s)`. */
  function Collapse(s: string): string
    decreases |s|
  {
    if s == "" then ""
    else if IsSpace(s[0]) then " " + Collapse(LStrip(s))
    else [s[0]] + Collapse(s[1..])
  }

  function Take(s: string, n: nat): string {
    if |s| <= n then s else s[..n]
  }

  /** `_norm_ws`. */
  function NormWs(text: string, limit: nat): string {
    RStrip(Take(Strip(Collapse(text)), limit))
  }

  /** No whitespace but single spaces between words. */
  ghost predicate SingleSpaced(s: string) {
    && IsStripped(s)
    && LooselySpaced(s)
  }

  ghost predicate LooselySpaced(s: string) {
    && (forall i :: 0 <= i < |s| && IsSpace(s[i]) ==> s[i] == ' ')
    && (forall i, j :: 0 <= i && j == i + 1 && j < |s| && IsSpace(s[i]) ==> !IsSpace(s[j]))
  }

  ghost predicate Canonical(s: string, limit: nat) {
    |s| <= limit && SingleSpaced(s)
  }

  lemma {:induction false} CollapseSpacing(s: string)
    ensures LooselySpaced(Collapse(s))
    ensures Collapse(s) == "" <==> s == ""
    ensures s != "" ==> (IsSpace(Collapse(s)[0]) <==> IsSpace(s[0]))
    decreases |s|
  {
    if s != "" {
      if IsSpace(s[0]) {
        LStripDrops(s);
        CollapseSpacing(LStrip(s));
      } else {
        CollapseSpacing(s[1..]);
      }
    }
  }

  lemma {:induction false} CollapseFixes(s: string)
    requires LooselySpaced(s)
    ensures Collapse(s) == s
    decreases |s|
  {
    if s != "" {
      if IsSpace(s[0]) {
        assert s[1..] != "" ==> !IsSpace(s[1..][0]);
        assert LStrip(s) == LStrip(s[1..]) == s[1..];
        CollapseFixes(s[1..]);
        assert s == " " + s[1..];
      } else {
        CollapseFixes(s[1..]);
        assert s == [s[0]] + s[1..];
      }
    }
  }

  lemma SliceSpacing(s: string, lo: nat, hi: nat)
    requires LooselySpaced(s) && lo <= hi <= |s|
    ensures LooselySpaced(s[lo..hi])
  {
    forall i, j | 0 <= i && j == i + 1 && j < hi - lo && IsSpace(s[lo..hi][i])
      ensures !IsSpace(s[lo..hi][j])
    {
      assert s[lo..hi][i] == s[lo + i] && s[lo..hi][j] == s[lo + j];
    }
  }

  /**
    A normalised text is within its limit, has no whitespace at either end and none inside but
    single spaces; and exactly the texts of that form are left as they are. So normalising twice
    is normalising once.
   */
  lemma NormWsIsCanonical(text: string, limit: nat)
    ensures Canonical(NormWs(text, limit), limit)
    ensures NormWs(text, limit) == text <==> Canonical(text, limit)
    ensures NormWs(NormWs(text, limit), limit) == NormWs(text, limit)
  {
    CanonicalResult(text, limit);
    CanonicalResult(NormWs(text, limit), limit);
    if Canonical(text, limit) {
      CanonicalFixed(text, limit);
    }
    CanonicalFixed(NormWs(text, limit), limit);
  }

  /** What every prefix of a loosely spaced text that starts with a word still has. */
  ghost predicate WordFirst(s: string) {
    LooselySpaced(s) && (s != "" ==> !IsSpace(s[0]))
  }

  lemma PrefixWordFirst(s: string, p: string)
    requires WordFirst(s) && p <= s
    ensures WordFirst(p)
  {
    SliceSpacing(s, 0, |p|);
    assert p == s[0..|p|];
  }

  lemma StripWordFirst(s: string)
    requires LooselySpaced(s)
    ensures WordFirst(LStrip(s))
  {
    SliceSpacing(s, |s| - |LStrip(s)|, |s|);
    assert LStrip(s) == s[|s| - |LStrip(s)|..|s|];
  }

  /** The cut and the trim after it keep the form. */
  lemma CutIsCanonical(l: string, limit: nat)
    requires WordFirst(l)
    ensures Canonical(RStrip(Take(RStrip(l), limit)), limit)
  {
    var t := RStrip(l);
    PrefixWordFirst(l, t);
    PrefixWordFirst(t, Take(t, limit));
    PrefixWordFirst(Take(t, limit), RStrip(Take(t, limit)));
  }

  lemma CanonicalResult(text: string, limit: nat)
    ensures Canonical(NormWs(text, limit), limit)
  {
    CollapseSpacing(text);
    var c := Collapse(text);
    StripWordFirst(c);
    var l := LStrip(c);
    CutIsCanonical(l, limit);
  }

  lemma CanonicalFixed(text: string, limit: nat)
    requires Canonical(text, limit)
    ensures NormWs(text, limit) == text
  {
    CollapseFixes(text);
    StripIsStripped(text);
    assert RStrip(text) == text;
  }

  // ------------------------------------------------------------------- words

  function WordEnd(s: string): (n: nat)
    ensures n <= |s|
    ensures forall i :: 0 <= i < n ==> !IsSpace(s[i])
    ensures n < |s| ==> IsSpace(s[n])
  {
    if s == "" || IsSpace(s[0]) then 0 else 1 + WordEnd(s[1..])
  }

  /** `s.split()`. */
  function Words(s: string): seq<string>
    decreases |s|
  {
    var t := LStrip(s);
    if t == "" then [] else [t[..WordEnd(t)]] + Words(t[WordEnd(t)..])
  }

  function Unwords(words: seq<string>): string {
    if words == [] then ""
    else if |words| == 1 then words[0]
    else words[0] + " " + Unwords(words[1..])
  }

  lemma {:induction false} CollapseWord(t: string, n: nat)
    requires n <= |t| && forall i :: 0 <= i < n ==> !IsSpace(t[i])
    ensures Collapse(t) == t[..n] + Collapse(t[n..])
    decreases n
  {
    if n > 0 {
      CollapseWord(t[1..], n - 1);
      assert t[1..][n - 1..] == t[n..];
      assert [t[0]] + (t[1..][..n - 1] + Collapse(t[n..])) == t[..n] + Collapse(t[n..]);
    } else {
      assert t[n..] == t;
    }
  }

  lemma {:induction false} RStripKeeps(a: string, b: string)
    requires RStrip(b) != ""
    ensures RStrip(a + b) == a + RStrip(b)
    decreases |b|
  {
    if b != "" && IsSpace(b[|b| - 1]) {
      assert (a + b)[..|a + b| - 1] == a + b[..|b| - 1];
      RStripKeeps(a, b[..|b| - 1]);
    }
  }

  lemma RStripWord(w: string)
    requires w != "" && !IsSpace(w[|w| - 1])
    ensures RStrip(w) == w && RStrip(w + " ") == w
  {
    assert (w + " ")[..|w|] == w;
    assert RStrip(w + " ") == RStrip((w + " ")[..|w|]);
  }

  /** Behind the first word, the rest follows a single space. */
  lemma CollapseBehindWord(t: string)
    requires t != "" && !IsSpace(t[0])
    ensures var w, rest := t[..WordEnd(t)], t[WordEnd(t)..];
            && w != "" && !IsSpace(w[|w| - 1])
            && Words(t) == [w] + Words(rest)
            && Collapse(t) == if rest == "" then w else (w + " ") + Collapse(LStrip(rest))
  {
    CollapseWord(t, WordEnd(t));
    assert LStrip(t) == t;
  }

  lemma WordsBehindSpace(s: string)
    ensures Words(s) == Words(LStrip(s))
    ensures Words(s) == [] <==> LStrip(s) == ""
  {
    LStripDrops(s);
    assert LStrip(LStrip(s)) == LStrip(s);
  }

  lemma {:induction false} UnwordsFromWord(t: string)
    requires t != "" && !IsSpace(t[0])
    ensures RStrip(Collapse(t)) == Unwords(Words(t)) != ""
    decreases |t|
  {
    var w, rest := t[..WordEnd(t)], t[WordEnd(t)..];
    var u := LStrip(rest);
    CollapseBehindWord(t);
    RStripWord(w);
    WordsBehindSpace(rest);
    assert Words(t)[1..] == Words(rest);
    if u == "" {
      assert rest != "" ==> Collapse(t) == w + " ";
    } else {
      LStripDrops(rest);
      UnwordsFromWord(u);
      RStripKeeps(w + " ", Collapse(u));
    }
  }

  lemma LStripSpace(c: string)
    ensures LStrip(" " + c) == LStrip(c)
  {
    assert (" " + c)[1..] == c;
  }

  lemma LStripCollapse(s: string)
    requires LStrip(s) != ""
    ensures LStrip(Collapse(s)) == Collapse(LStrip(s))
  {
    CollapseSpacing(LStrip(s));
    if IsSpace(s[0]) {
      LStripSpace(Collapse(LStrip(s)));
    }
  }

  /** Normalised text is the words with single spaces between them: layout never changes a key. */
  lemma StripCollapseIsUnwords(s: string)
    ensures Strip(Collapse(s)) == Unwords(Words(s))
  {
    var t := LStrip(s);
    LStripDrops(s);
    if t != "" {
      UnwordsFromWord(t);
      LStripCollapse(s);
      assert LStrip(t) == t;
    } else if s != "" {
      assert Collapse(s) == " " + Collapse("") == " ";
      assert LStrip(" ") == LStrip(" "[1..]) == "";
    }
  }

  lemma NormWsDependsOnWords(a: string, b: string, limit: nat)
    requires Words(a) == Words(b)
    ensures NormWs(a, limit) == NormWs(b, limit)
  {
    StripCollapseIsUnwords(a);
    StripCollapseIsUnwords(b);
  }

  /** The cut comes at the limit, or one character before it where it falls behind a space. */
  lemma NormWsCutsAtLimit(text: string, limit: nat)
    ensures var all := Unwords(Words(text));
            && NormWs(text, limit) <= all
            && (|all| <= limit ==> NormWs(text, limit) == all)
            && (|all| > limit ==> limit <= |NormWs(text, limit)| + 1 <= limit + 1)
  {
    StripCollapseIsUnwords(text);
    var all := Unwords(Words(text));
    CollapseSpacing(text);
    StripWordFirst(Collapse(text));
    PrefixIsLoose(LStrip(Collapse(text)));
    StripIsStripped(Collapse(text));
    assert Strip(all) == all;
    StripIsStripped(all);
    if |all| <= limit {
      assert RStrip(all) == all;
    } else {
      CutIsShort(all, limit);
    }
  }

  lemma PrefixIsLoose(l: string)
    requires WordFirst(l)
    ensures WordFirst(RStrip(l))
  {
    RStripDrops(l);
    PrefixWordFirst(l, RStrip(l));
  }

  lemma CutIsShort(all: string, limit: nat)
    requires WordFirst(all) && limit < |all|
    ensures RStrip(all[..limit]) <= all && limit <= |RStrip(all[..limit])| + 1 <= limit + 1
  {
    var cut := all[..limit];
    RStripDrops(cut);
    if limit > 0 && IsSpace(cut[limit - 1]) {
      assert limit > 1;
      assert !IsSpace(cut[limit - 2]);
      assert RStrip(cut) == RStrip(cut[..limit - 1]) == cut[..limit - 1];
    } else {
      assert RStrip(cut) == cut;
    }
  }

  // ------------------------------------------------------------------- the parts of a key

  predicate IsColon(c: char) {
    c == ':'
  }

  /** A part of a key: stripped, and with no colon to be taken for a separator. */
  ghost predicate IsPart(s: string) {
    s != "" && IsStripped(s) && Without(s, IsColon)
  }

  lemma SeparatorFirst(a: string, b: string, i: nat)
    requires Without(a, IsColon) && i < |a + " ::" + b|
    ensures (a + " ::" + b)[i] == ':' ==> i > |a|
  {
    if i < |a| {
      assert (a + " ::" + b)[i] == a[i] && !IsColon(a[i]);
    } else if i == |a| {
      assert (a + " ::" + b)[i] == ' ';
    }
  }

  /** What stands around the first separator. */
  lemma SameAroundExactly(a: string, b: string, c: string, d: string)
    requires Without(a, IsColon) && Without(c, IsColon)
    ensures a + " ::" + b == c + " ::" + d <==> a == c && b == d
  {
    var s, t := a + " ::" + b, c + " ::" + d;
    assert s[|a| + 1] == ':' && t[|c| + 1] == ':';
    if s == t {
      SeparatorFirst(a, b, |c| + 1);
      SeparatorFirst(c, d, |a| + 1);
      assert s[..|a|] == a && t[..|c|] == c && s[|a| + 3..] == b && t[|c| + 3..] == d;
    }
  }

  lemma SamePartsExactly(a: string, b: string, c: string, d: string)
    requires Without(a, IsColon) && Without(c, IsColon)
    ensures a + " :: " + b == c + " :: " + d <==> a == c && b == d
  {
    assert a + " :: " + b == a + " ::" + (" " + b) && c + " :: " + d == c + " ::" + (" " + d);
    SameAroundExactly(a, " " + b, c, " " + d);
    assert (" " + b)[1..] == b && (" " + d)[1..] == d;
  }

  lemma JoinedIsStripped(a: string, b: string)
    requires a != "" && b != "" && !IsSpace(a[0]) && !IsSpace(b[|b| - 1])
    ensures Strip(a + " :: " + b) == a + " :: " + b
  {
    var s := a + " :: " + b;
    assert s[0] == a[0] && s[|s| - 1] == b[|b| - 1];
    StripIsStripped(s);
  }

  lemma EndsAtSeparator(a: string)
    requires a != "" && !IsSpace(a[0])
    ensures Strip(a + " :: ") == a + " ::"
  {
    var s, t := a + " :: ", a + " ::";
    assert s[0] == a[0] && t[0] == a[0] && t[|t| - 1] == ':';
    assert LStrip(s) == s;
    assert s[..|s| - 1] == t && s[|s| - 1] == ' ';
    assert RStrip(s) == RStrip(t) == t;
  }

  /** A key of two parts and a text, which may be empty. */
  lemma ThreePartKey(a: string, b: string, text: string)
    requires IsPart(a) && IsPart(b) && IsStripped(text)
    ensures Strip(a + " :: " + b + " :: " + text)
         == a + " :: " + (b + " ::" + if text == "" then "" else " " + text)
  {
    var lead := a + " :: " + b;
    assert lead[0] == a[0];
    if text == "" {
      assert lead + " :: " + text == lead + " :: ";
      EndsAtSeparator(lead);
      assert lead + " ::" == a + " :: " + (b + " ::" + "");
    } else {
      JoinedIsStripped(lead, text);
      assert lead + " :: " + text == a + " :: " + (b + " ::" + (" " + text));
    }
  }

  lemma SameKeyExactly(a: string, b: string, text: string, a': string, b': string, text': string)
    requires IsPart(a) && IsPart(b) && IsStripped(text) && IsPart(a') && IsPart(b') && IsStripped(text')
    ensures Strip(a + " :: " + b + " :: " + text) == Strip(a' + " :: " + b' + " :: " + text')
       <==> a == a' && b == b' && text == text'
  {
    ThreePartKey(a, b, text);
    ThreePartKey(a', b', text');
    var more, more' := if text == "" then "" else " " + text, if text' == "" then "" else " " + text';
    SamePartsExactly(a, b + " ::" + more, a', b' + " ::" + more');
    SameAroundExactly(b, more, b', more');
    assert more != "" ==> more[1..] == text;
    assert more' != "" ==> more'[1..] == text';
  }
}
