/**
  A workflow taken apart at its pins (scripts/propagate.py, `_USES_RE.sub`): the refs the pattern
  takes, and the text around them, which a bump keeps.
 */
module PinPieces {
  import opened Wrappers
  import opened Text
  import opened Pins

  /** The text behind a match, which takes at least one character. */
  function Tail(s: string, m: Match): (r: string)
    requires s != ""
    ensures |r| < |s|
  {
    if 0 < m.end <= |s| then s[m.end..] else s[1..]
  }

  /** The text before the ref of a match, and the ref with its comment. */
  function Head(s: string, m: Match): string {
    if m.prefix <= |s| then s[..m.prefix] else ""
  }

  function Ref(s: string, m: Match): string {
    if m.prefix <= m.end <= |s| then s[m.prefix..m.end] else ""
  }

  /** The text around the refs, with `at` the match at the start of a text: one piece more than there are refs. */
  function Kept(at: string -> Option<Match>, s: string): (r: seq<string>)
    ensures r != []
    decreases |s|
  {
    if s == "" then [""]
    else
      match at(s)
      case Some(m) => [Head(s, m)] + Kept(at, Tail(s, m))
      case None => OnFirst(s[0], Kept(at, s[1..]))
  }

  /** The refs, each with its comment. */
  function Refs(at: string -> Option<Match>, s: string): seq<string>
    decreases |s|
  {
    if s == "" then []
    else
      match at(s)
      case Some(m) => [Ref(s, m)] + Refs(at, Tail(s, m))
      case None => Refs(at, s[1..])
  }

  /** Pieces with refs between them. */
  function Weave(kept: seq<string>, refs: seq<string>): string
    requires |kept| == |refs| + 1
  {
    if refs == [] then kept[0] else kept[0] + (refs[0] + Weave(kept[1..], refs[1..]))
  }

  function Repeated(s: string, n: nat): seq<string> {
    seq(n, _ => s)
  }

  function PinBy(callees: seq<string>): string -> Option<Match> {
    s => PinAt(callees, s)
  }

  // ------------------------------------------------------------------- pieces and refs

  lemma {:induction false} OneMorePiece(at: string -> Option<Match>, s: string)
    ensures |Kept(at, s)| == |Refs(at, s)| + 1
    decreases |s|
  {
    if s != "" {
      match at(s) {
        case None => OneMorePiece(at, s[1..]);
        case Some(m) => OneMorePiece(at, Tail(s, m));
      }
    }
  }

  lemma WeaveOnFirst(c: char, kept: seq<string>, refs: seq<string>)
    requires |kept| == |refs| + 1
    ensures Weave(OnFirst(c, kept), refs) == [c] + Weave(kept, refs)
  {
    assert OnFirst(c, kept)[1..] == kept[1..];
    if refs != [] {
      var rest := refs[0] + Weave(kept[1..], refs[1..]);
      assert [c] + kept[0] + rest == [c] + (kept[0] + rest);
    }
  }

  lemma WeaveCons(piece: string, ref: string, kept: seq<string>, refs: seq<string>)
    requires |kept| == |refs| + 1
    ensures Weave([piece] + kept, [ref] + refs) == piece + (ref + Weave(kept, refs))
  {
    assert ([piece] + kept)[1..] == kept && ([ref] + refs)[1..] == refs;
  }

  ghost predicate IsMatcher(at: string -> Option<Match>) {
    forall s :: at(s).Some? ==> at(s).value.prefix < at(s).value.end <= |s|
  }

  lemma MatchParts3(s: string, m: Match)
    requires m.prefix < m.end <= |s|
    ensures s == Head(s, m) + (Ref(s, m) + Tail(s, m))
  {}

  lemma WeaveMatch(s: string, m: Match, kept: seq<string>, refs: seq<string>)
    requires m.prefix < m.end <= |s| && |kept| == |refs| + 1 && Weave(kept, refs) == Tail(s, m)
    ensures Weave([Head(s, m)] + kept, [Ref(s, m)] + refs) == s
  {
    WeaveCons(Head(s, m), Ref(s, m), kept, refs);
    MatchParts3(s, m);
  }

  /** A text is its pieces with its refs between them. */
  lemma {:induction false} PiecesMakeText(at: string -> Option<Match>, s: string)
    requires IsMatcher(at)
    ensures |Kept(at, s)| == |Refs(at, s)| + 1
    ensures Weave(Kept(at, s), Refs(at, s)) == s
    decreases |s|
  {
    OneMorePiece(at, s);
    if s != "" {
      match at(s) {
        case None =>
          PiecesMakeText(at, s[1..]);
          WeaveOnFirst(s[0], Kept(at, s[1..]), Refs(at, s[1..]));
          assert [s[0]] + s[1..] == s;
        case Some(m) =>
          PiecesMakeText(at, Tail(s, m));
          WeaveMatch(s, m, Kept(at, Tail(s, m)), Refs(at, Tail(s, m)));
      }
    }
  }

  // ------------------------------------------------------------------- the bump, piece by piece

  lemma PinsMatch(callees: seq<string>)
    ensures IsMatcher(PinBy(callees))
  {}

  lemma BumpAtPin(callees: seq<string>, p: Pin, s: string, m: Match)
    requires PinAt(callees, s) == Some(m)
    ensures Bump(callees, p, s) == Head(s, m) + (PinText(p) + Bump(callees, p, Tail(s, m)))
  {
    BumpAtMatch(callees, p, s, m, s[..m.prefix], s[m.end..]);
  }

  lemma BumpAtNone(callees: seq<string>, p: Pin, s: string)
    requires s != "" && PinAt(callees, s).None?
    ensures Bump(callees, p, s) == [s[0]] + Bump(callees, p, s[1..])
  {}

  /** A bump puts the pin in place of every ref and changes nothing else. */
  lemma {:induction false} BumpChangesOnlyRefs(callees: seq<string>, p: Pin, at: string -> Option<Match>, s: string)
    requires at == PinBy(callees)
    ensures |Kept(at, s)| == |Refs(at, s)| + 1
    ensures Bump(callees, p, s) == Weave(Kept(at, s), Repeated(PinText(p), |Refs(at, s)|))
    decreases |s|
  {
    OneMorePiece(at, s);
    if s != "" {
      match at(s) {
        case None =>
          BumpAtNone(callees, p, s);
          BumpChangesOnlyRefs(callees, p, at, s[1..]);
          WeaveOnFirst(s[0], Kept(at, s[1..]), Repeated(PinText(p), |Refs(at, s[1..])|));
        case Some(m) =>
          BumpAtPin(callees, p, s, m);
          BumpChangesOnlyRefs(callees, p, at, Tail(s, m));
          RepeatedMore(PinText(p), |Refs(at, Tail(s, m))|);
          OneMorePiece(at, Tail(s, m));
          WeaveCons(Head(s, m), PinText(p), Kept(at, Tail(s, m)), Repeated(PinText(p), |Refs(at, Tail(s, m))|));
      }
    }
  }

  lemma RepeatedMore(s: string, n: nat)
    ensures Repeated(s, n + 1) == [s] + Repeated(s, n)
  {}

  /** A text and its bump are the same pieces, woven with the refs of the one and with the pin. */
  lemma BumpKeepsTheRest(callees: seq<string>, p: Pin, s: string)
    ensures var kept, refs := Kept(PinBy(callees), s), Refs(PinBy(callees), s);
            && |kept| == |refs| + 1 && s == Weave(kept, refs)
            && Bump(callees, p, s) == Weave(kept, Repeated(PinText(p), |refs|))
  {
    PinsMatch(callees);
    PiecesMakeText(PinBy(callees), s);
    BumpChangesOnlyRefs(callees, p, PinBy(callees), s);
  }
}
