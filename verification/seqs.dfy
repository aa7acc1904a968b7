/** Filtering and mapping of sequences, as the comprehensions and loops of the toolchain do it. */
module Seqs {

  /** `[x for x in s if keep(x)]`. */
  function KeepIf<T>(s: seq<T>, keep: T -> bool): seq<T> {
    if s == [] then []
    else KeepIf(s[..|s| - 1], keep) + if keep(s[|s| - 1]) then [s[|s| - 1]] else []
  }

  function CountIf<T>(s: seq<T>, p: T -> bool): nat {
    if s == [] then 0 else CountIf(s[..|s| - 1], p) + if p(s[|s| - 1]) then 1 else 0
  }

  function MapSeq<T, U>(s: seq<T>, f: T -> U): (r: seq<U>)
    ensures |r| == |s| && forall i :: 0 <= i < |s| ==> r[i] == f(s[i])
  {
    seq(|s|, i requires 0 <= i < |s| => f(s[i]))
  }

  /** `[y for x in s for y in f(x)]`. */
  function FlatMap<T, U>(s: seq<T>, f: T -> seq<U>): seq<U> {
    if s == [] then [] else FlatMap(s[..|s| - 1], f) + f(s[|s| - 1])
  }

  lemma {:induction false} FlatMapJoins<T, U>(a: seq<T>, b: seq<T>, f: T -> seq<U>)
    ensures FlatMap(a + b, f) == FlatMap(a, f) + FlatMap(b, f)
  {
    if b == [] {
      assert a + b == a;
    } else {
      FlatMapJoins(a, b[..|b| - 1], f);
      assert (a + b)[..|a + b| - 1] == a + b[..|b| - 1];
    }
  }

  lemma {:induction false} FlatMapHas<T, U>(s: seq<T>, f: T -> seq<U>, y: U)
    ensures y in FlatMap(s, f) <==> exists x :: x in s && y in f(x)
  {
    if s != [] {
      FlatMapHas(s[..|s| - 1], f, y);
      assert s == s[..|s| - 1] + [s[|s| - 1]];
    }
  }

  lemma MapSeqStep<T, U>(s: seq<T>, i: nat, f: T -> U)
    requires i < |s|
    ensures MapSeq(s[..i + 1], f) == MapSeq(s[..i], f) + [f(s[i])]
  {}

  lemma MapSeqHas<T, U>(s: seq<T>, f: T -> U, y: U)
    ensures y in MapSeq(s, f) <==> exists x :: x in s && y == f(x)
  {
    if x :| x in s && y == f(x) {
      var i :| 0 <= i < |s| && s[i] == x;
      assert MapSeq(s, f)[i] == y;
    }
    if y in MapSeq(s, f) {
      var i :| 0 <= i < |s| && MapSeq(s, f)[i] == y;
      assert s[i] in s;
    }
  }

  function SumOf<T>(s: seq<T>, f: T -> nat): nat {
    if s == [] then 0 else SumOf(s[..|s| - 1], f) + f(s[|s| - 1])
  }

  lemma SumOfStep<T>(s: seq<T>, i: nat, f: T -> nat)
    requires i < |s|
    ensures SumOf(s[..i + 1], f) == SumOf(s[..i], f) + f(s[i])
  {
    assert s[..i + 1][..i] == s[..i];
  }

  lemma {:induction false} SumOfZero<T>(s: seq<T>, f: T -> nat)
    ensures SumOf(s, f) == 0 <==> forall x <- s :: f(x) == 0
  {
    if s != [] {
      SumOfZero(s[..|s| - 1], f);
      assert s == s[..|s| - 1] + [s[|s| - 1]];
    }
  }

  lemma KeepIfStep<T>(s: seq<T>, i: nat, keep: T -> bool)
    requires i < |s|
    ensures KeepIf(s[..i + 1], keep) == KeepIf(s[..i], keep) + if keep(s[i]) then [s[i]] else []
  {
    assert s[..i + 1][..i] == s[..i];
  }

  lemma CountIfStep<T>(s: seq<T>, i: nat, p: T -> bool)
    requires i < |s|
    ensures CountIf(s[..i + 1], p) == CountIf(s[..i], p) + if p(s[i]) then 1 else 0
  {
    assert s[..i + 1][..i] == s[..i];
  }

  lemma All<T>(s: seq<T>)
    ensures s[..|s|] == s
  {}

  lemma {:induction false} KeepIfLength<T>(s: seq<T>, keep: T -> bool)
    ensures |KeepIf(s, keep)| == CountIf(s, keep) <= |s|
    ensures |KeepIf(s, keep)| == |s| <==> KeepIf(s, keep) == s
    ensures KeepIf(s, keep) == s <==> forall x <- s :: keep(x)
  {
    if s != [] {
      var init, last := s[..|s| - 1], s[|s| - 1];
      KeepIfLength(init, keep);
      assert s == init + [last];
      assert forall x :: x in s <==> x in init || x == last;
    }
  }

  lemma {:induction false} KeepIfHas<T>(s: seq<T>, keep: T -> bool, x: T)
    ensures x in KeepIf(s, keep) <==> x in s && keep(x)
  {
    if s != [] {
      KeepIfHas(s[..|s| - 1], keep, x);
      assert s == s[..|s| - 1] + [s[|s| - 1]];
    }
  }

  /** Rising places in `s`: those that `keep` holds at, each once. */
  ghost predicate Picks<T>(s: seq<T>, keep: T -> bool, at: seq<nat>) {
    && (forall i, j :: 0 <= i < j < |at| ==> at[i] < at[j])
    && (forall i :: 0 <= i < |at| ==> at[i] < |s|)
    && (forall k: nat :: k < |s| ==> (k in at <==> keep(s[k])))
  }

  /** What is kept, by the places it is kept from. */
  lemma {:induction false} KeepIfPicks<T>(s: seq<T>, keep: T -> bool) returns (at: seq<nat>)
    ensures Picks(s, keep, at) && |KeepIf(s, keep)| == |at|
    ensures forall i :: 0 <= i < |at| ==> KeepIf(s, keep)[i] == s[at[i]]
  {
    at := [];
    if s != [] {
      var n: nat := |s| - 1;
      var init := KeepIfPicks(s[..n], keep);
      at := init + if keep(s[n]) then [n] else [];
      forall k: nat | k < |s|
        ensures k in at <==> keep(s[k])
      {
        assert k < n ==> s[..n][k] == s[k];
        assert n !in init;
      }
    }
  }

  /** What was kept is kept again. */
  lemma KeepIfAgain<T>(s: seq<T>, keep: T -> bool)
    ensures KeepIf(KeepIf(s, keep), keep) == KeepIf(s, keep)
  {
    forall x | x in KeepIf(s, keep)
      ensures keep(x)
    {
      KeepIfHas(s, keep, x);
    }
    KeepIfLength(KeepIf(s, keep), keep);
  }

  lemma {:induction false} KeepIfJoins<T>(a: seq<T>, b: seq<T>, keep: T -> bool)
    ensures KeepIf(a + b, keep) == KeepIf(a, keep) + KeepIf(b, keep)
  {
    if b == [] {
      assert a + b == a;
    } else {
      KeepIfJoins(a, b[..|b| - 1], keep);
      assert (a + b)[..|a + b| - 1] == a + b[..|b| - 1];
    }
  }

  /** A map that does not change what is kept commutes with the filter. */
  lemma {:induction false} KeepIfOfMap<T, U>(s: seq<T>, f: T -> U, keep: T -> bool, keep': U -> bool)
    requires forall x <- s :: keep'(f(x)) == keep(x)
    ensures KeepIf(MapSeq(s, f), keep') == MapSeq(KeepIf(s, keep), f)
  {
    if s != [] {
      var init, last := s[..|s| - 1], s[|s| - 1];
      assert s == init + [last];
      KeepIfOfMap(init, f, keep, keep');
      assert MapSeq(s, f)[..|s| - 1] == MapSeq(init, f);
      assert MapSeq(s, f)[|s| - 1] == f(last);
    }
  }

  lemma {:induction false} CountIfAgrees<T>(s: seq<T>, p: T -> bool, q: T -> bool)
    requires forall x <- s :: p(x) == q(x)
    ensures CountIf(s, p) == CountIf(s, q)
  {
    if s != [] {
      CountIfAgrees(s[..|s| - 1], p, q);
      assert s == s[..|s| - 1] + [s[|s| - 1]];
    }
  }

  /** Counting by two conditions that never hold together. */
  lemma {:induction false} CountIfSplits<T>(s: seq<T>, p: T -> bool, a: T -> bool, b: T -> bool)
    requires forall x <- s :: (p(x) <==> a(x) || b(x)) && !(a(x) && b(x))
    ensures CountIf(s, p) == CountIf(s, a) + CountIf(s, b)
  {
    if s != [] {
      CountIfSplits(s[..|s| - 1], p, a, b);
      assert s == s[..|s| - 1] + [s[|s| - 1]];
    }
  }

  function One(holds: bool): nat {
    if holds then 1 else 0
  }

  /** Counting by conditions that balance entry by entry. */
  lemma {:induction false} CountIfBalances<T>(s: seq<T>, a: T -> bool, b: T -> bool, c: T -> bool, d: T -> bool)
    requires forall x <- s :: One(a(x)) + One(b(x)) == One(c(x)) + One(d(x))
    ensures CountIf(s, a) + CountIf(s, b) == CountIf(s, c) + CountIf(s, d)
  {
    if s != [] {
      CountIfBalances(s[..|s| - 1], a, b, c, d);
      assert s == s[..|s| - 1] + [s[|s| - 1]];
    }
  }

  lemma {:induction false} SumOfBalances<T>(s: seq<T>, a: T -> nat, b: T -> nat, c: T -> nat, d: T -> nat)
    requires forall x <- s :: a(x) + b(x) == c(x) + d(x)
    ensures SumOf(s, a) + SumOf(s, b) == SumOf(s, c) + SumOf(s, d)
  {
    if s != [] {
      SumOfBalances(s[..|s| - 1], a, b, c, d);
      assert s == s[..|s| - 1] + [s[|s| - 1]];
    }
  }

  lemma {:induction false} CountIfNot<T>(s: seq<T>, p: T -> bool, q: T -> bool)
    requires forall x <- s :: q(x) == !p(x)
    ensures CountIf(s, p) + CountIf(s, q) == |s|
  {
    if s != [] {
      CountIfNot(s[..|s| - 1], p, q);
      assert s == s[..|s| - 1] + [s[|s| - 1]];
    }
  }

  lemma {:induction false} CountIfZero<T>(s: seq<T>, p: T -> bool)
    ensures CountIf(s, p) == 0 <==> forall x <- s :: !p(x)
  {
    if s != [] {
      CountIfZero(s[..|s| - 1], p);
      assert s == s[..|s| - 1] + [s[|s| - 1]];
    }
  }

  // ------------------------------------------------------------------- first occurrences

  function Itself<T>(x: T): T {
    x
  }

  predicate KeyIn<T, K(==)>(s: seq<T>, key: T -> K, k: K) {
    exists i :: 0 <= i < |s| && key(s[i]) == k
  }

  /** The entries that are not preceded by an entry of the same key. */
  function FirstBy<T, K(==)>(s: seq<T>, key: T -> K): seq<T> {
    if s == [] then []
    else
      FirstBy(s[..|s| - 1], key) + if KeyIn(s[..|s| - 1], key, key(s[|s| - 1])) then [] else [s[|s| - 1]]
  }

  ghost predicate NoDuplicates<T>(s: seq<T>) {
    forall i, j :: 0 <= i < j < |s| ==> s[i] != s[j]
  }

  lemma FirstByStep<T, K>(s: seq<T>, i: nat, key: T -> K)
    requires i < |s|
    ensures FirstBy(s[..i + 1], key) == FirstBy(s[..i], key) + if KeyIn(s[..i], key, key(s[i])) then [] else [s[i]]
  {
    assert s[..i + 1][..i] == s[..i];
  }

  /** `x` stands at `i` in `s`, and no earlier entry has its key. */
  ghost predicate IsFirst<T, K>(s: seq<T>, key: T -> K, x: T, i: int) {
    0 <= i < |s| && s[i] == x && !KeyIn(s[..i], key, key(x))
  }

  ghost predicate HasFirst<T, K>(s: seq<T>, key: T -> K, x: T) {
    exists i :: IsFirst(s, key, x, i)
  }

  ghost predicate FirstBefore<T, K>(s: seq<T>, key: T -> K, x: T, y: T) {
    exists i, j :: IsFirst(s, key, x, i) && IsFirst(s, key, y, j) && i < j
  }

  /**
    What is kept is, of each key, the first entry, in the order of those first entries; no key
    is kept twice and none is lost.
   */
  lemma {:induction false} FirstByKeepsFirsts<T, K>(s: seq<T>, key: T -> K)
    ensures forall i :: 0 <= i < |FirstBy(s, key)| ==> HasFirst(s, key, FirstBy(s, key)[i])
    ensures forall i, j :: 0 <= i < j < |FirstBy(s, key)| ==>
              FirstBefore(s, key, FirstBy(s, key)[i], FirstBy(s, key)[j])
    ensures forall k :: KeyIn(FirstBy(s, key), key, k) <==> KeyIn(s, key, k)
  {
    if s != [] {
      var init, last := s[..|s| - 1], s[|s| - 1];
      FirstByKeepsFirsts(init, key);
      var kept, all := FirstBy(init, key), FirstBy(s, key);
      forall x, i | IsFirst(init, key, x, i)
        ensures IsFirst(s, key, x, i)
      {
        assert init[..i] == s[..i];
      }
      if !KeyIn(init, key, key(last)) {
        assert IsFirst(s, key, last, |init|);
      }
      forall i | 0 <= i < |kept|
        ensures HasFirst(s, key, kept[i])
      {
        assert HasFirst(init, key, kept[i]);
      }
      forall i, j | 0 <= i < j < |all|
        ensures FirstBefore(s, key, all[i], all[j])
      {
        assert HasFirst(init, key, kept[i]);
        if j < |kept| {
          assert FirstBefore(init, key, kept[i], kept[j]);
        }
      }
      forall k
        ensures KeyIn(all, key, k) <==> KeyIn(s, key, k)
      {
        KeyInJoins(init, [last], key, k);
        assert s == init + [last];
        if KeyIn(init, key, key(last)) {
          assert all == kept;
        } else {
          KeyInJoins(kept, [last], key, k);
        }
      }
    }
  }

  lemma KeyInJoins<T, K>(a: seq<T>, b: seq<T>, key: T -> K, k: K)
    ensures KeyIn(a + b, key, k) <==> KeyIn(a, key, k) || KeyIn(b, key, k)
  {
    if i :| 0 <= i < |a| && key(a[i]) == k {
      assert (a + b)[i] == a[i];
    }
    if i :| 0 <= i < |b| && key(b[i]) == k {
      assert (a + b)[|a| + i] == b[i];
    }
  }

  lemma KeyInStep<T, K>(s: seq<T>, i: nat, key: T -> K)
    requires i < |s|
    ensures forall k :: KeyIn(s[..i + 1], key, k) <==> KeyIn(s[..i], key, k) || k == key(s[i])
  {
    assert s[..i + 1] == s[..i] + [s[i]];
    forall k
      ensures KeyIn(s[..i + 1], key, k) <==> KeyIn(s[..i], key, k) || k == key(s[i])
    {
      KeyInJoins(s[..i], [s[i]], key, k);
      assert KeyIn([s[i]], key, k) <==> key([s[i]][0]) == k;
    }
  }

  lemma FirstByDistinct<T, K>(s: seq<T>, key: T -> K)
    ensures forall i, j :: 0 <= i < j < |FirstBy(s, key)| ==> key(FirstBy(s, key)[i]) != key(FirstBy(s, key)[j])
  {
    FirstByKeepsFirsts(s, key);
    var kept := FirstBy(s, key);
    forall i, j | 0 <= i < j < |kept|
      ensures key(kept[i]) != key(kept[j])
    {
      assert FirstBefore(s, key, kept[i], kept[j]);
      var k, l :| IsFirst(s, key, kept[i], k) && IsFirst(s, key, kept[j], l) && k < l;
      assert s[..l][k] == kept[i];
    }
  }

  // ------------------------------------------------------------------- slices

  lemma DropMore<T>(s: seq<T>, i: nat, n: nat)
    requires i + n <= |s|
    ensures s[i..][n..] == s[i + n..]
  {}

  lemma TakeMore<T>(s: seq<T>, i: nat, n: nat)
    requires i + n <= |s|
    ensures s[..i + n] == s[..i] + s[i..][..n]
  {}

  lemma DropBoth<T>(a: seq<T>, b: seq<T>, n: nat)
    requires n <= |b|
    ensures (a + b)[..|a|] == a && (a + b)[|a| + n..] == b[n..]
  {}
}
