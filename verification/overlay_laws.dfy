/** What overlay resolution promises, for every registry, cyclic or not. */
module OverlayLaws {
  import opened Wrappers
  import opened Seqs
  import opened Overlays

  // ------------------------------------------------------------------- reachability

  ghost predicate IsChain(overlays: Registry, chain: seq<string>) {
    && chain != []
    && forall i :: 0 <= i < |chain| - 1 ==> chain[i + 1] in Parents(overlays, chain[i])
  }

  /** `to` is `from` or an overlay reached from it along `extends`. */
  ghost predicate Reaches(overlays: Registry, from: string, to: string) {
    exists chain :: IsChain(overlays, chain) && chain[0] == from && chain[|chain| - 1] == to
  }

  /** Some overlay of `starts` is or reaches `to`. */
  ghost predicate ReachedFrom(overlays: Registry, starts: seq<string>, to: string) {
    exists p :: p in starts && Reaches(overlays, p, to)
  }

  lemma ReachesSelf(overlays: Registry, name: string)
    ensures Reaches(overlays, name, name)
  {
    assert IsChain(overlays, [name]);
  }

  lemma ReachesParent(overlays: Registry, from: string, to: string, parent: string)
    requires Reaches(overlays, from, to) && parent in Parents(overlays, to)
    ensures Reaches(overlays, from, parent)
  {
    var chain :| IsChain(overlays, chain) && chain[0] == from && chain[|chain| - 1] == to;
    assert IsChain(overlays, chain + [parent]);
  }

  lemma ReachesFromChild(overlays: Registry, child: string, parent: string, to: string)
    requires parent in Parents(overlays, child) && Reaches(overlays, parent, to)
    ensures Reaches(overlays, child, to)
  {
    var chain :| IsChain(overlays, chain) && chain[0] == parent && chain[|chain| - 1] == to;
    assert IsChain(overlays, [child] + chain);
  }

  lemma {:induction false} ChainStaysInside(overlays: Registry, chain: seq<string>, inside: set<string>)
    requires IsChain(overlays, chain) && chain[0] in inside
    requires forall m <- inside, p <- Parents(overlays, m) :: p in inside
    ensures chain[|chain| - 1] in inside
  {
    if |chain| > 1 {
      ChainStaysInside(overlays, chain[1..], inside);
    }
  }

  lemma ReachesStaysInside(overlays: Registry, from: string, to: string, inside: set<string>)
    requires Reaches(overlays, from, to) && from in inside
    requires forall m <- inside, p <- Parents(overlays, m) :: p in inside
    ensures to in inside
  {
    var chain :| IsChain(overlays, chain) && chain[0] == from && chain[|chain| - 1] == to;
    ChainStaysInside(overlays, chain, inside);
  }

  lemma ReachesTransitive(overlays: Registry, a: string, b: string, c: string)
    requires Reaches(overlays, a, b) && Reaches(overlays, b, c)
    ensures Reaches(overlays, a, c)
  {
    var ab :| IsChain(overlays, ab) && ab[0] == a && ab[|ab| - 1] == b;
    var bc :| IsChain(overlays, bc) && bc[0] == b && bc[|bc| - 1] == c;
    var ac := ab + bc[1..];
    assert IsChain(overlays, ac) by {
      forall i | 0 <= i < |ac| - 1
        ensures ac[i + 1] in Parents(overlays, ac[i])
      {
        if i >= |ab| - 1 {
          assert ac[i] == bc[i - (|ab| - 1)] && ac[i + 1] == bc[i + 1 - (|ab| - 1)];
        }
      }
    }
  }

  // ------------------------------------------------------------------- success

  /** `fresh` is what a walk that started with `seen` added: everything it finished, once each. */
  ghost predicate Explored(overlays: Registry, seen: set<string>, r: WalkResult) {
    && r.Done?
    && NoDuplicates(r.order)
    && (forall m :: m in r.order <==> m in r.seen - seen)
    && (forall m <- r.seen - seen :: WellFormed(overlays, m))
    && (forall m <- r.seen - seen, p <- Parents(overlays, m) :: p in r.seen)
  }

  lemma JoinExplored(overlays: Registry, seen: set<string>, a: WalkResult, b: WalkResult)
    requires Explored(overlays, seen, a) && Explored(overlays, a.seen, b)
    requires seen <= a.seen <= b.seen
    ensures Explored(overlays, seen, Before(a.order, b))
  {
    var ab := a.order + b.order;
    forall m
      ensures m in ab <==> m in b.seen - seen
    {
      assert m in ab <==> m in a.order || m in b.order;
    }
    forall i, j | 0 <= i < j < |ab|
      ensures ab[i] != ab[j]
    {
      assert i < |a.order| ==> ab[i] in a.order;
      assert j >= |a.order| ==> ab[j] in b.order;
    }
  }

  /** Finishing an overlay after its parents adds it to what was explored. */
  lemma FinishExplored(overlays: Registry, name: string, seen: set<string>, r: WalkResult)
    requires Explored(overlays, seen + {name}, r) && name !in seen && name in r.seen
    requires WellFormed(overlays, name) && forall p <- Parents(overlays, name) :: p in r.seen
    ensures Explored(overlays, seen, Done(r.seen, r.order + [name]))
  {
    var order := r.order + [name];
    forall m
      ensures m in order <==> m in r.seen - seen
    {
      assert m in order <==> m in r.order || m == name;
    }
    forall i, j | 0 <= i < j < |order|
      ensures order[i] != order[j]
    {
      assert order[i] in r.order;
    }
  }

  lemma {:induction false} WalkExplores(overlays: Registry, name: string, seen: set<string>)
    requires name in overlays && Walk(overlays, name, seen).Done?
    ensures Explored(overlays, seen, Walk(overlays, name, seen))
    ensures name in Walk(overlays, name, seen).seen
    ensures forall m | m in Walk(overlays, name, seen).seen && m !in seen :: Reaches(overlays, name, m)
    decreases |overlays.Keys - seen|, 0
  {
    if name !in seen {
      FewerUnseen(overlays, seen, seen + {name}, name);
      var parents := Parents(overlays, name);
      var r := WalkAll(overlays, name, parents, seen + {name});
      WalkAllExplores(overlays, name, parents, seen + {name});
      NoMoreUnseen(overlays, seen + {name}, r.seen);
      FinishExplored(overlays, name, seen, r);
      ReachesSelf(overlays, name);
      forall m | m in r.seen && m !in seen + {name}
        ensures Reaches(overlays, name, m)
      {
        assert ReachedFrom(overlays, parents, m);
        var p :| p in parents && Reaches(overlays, p, m);
        ReachesFromChild(overlays, name, p, m);
      }
    }
  }

  lemma {:induction false} WalkAllExplores(overlays: Registry, child: string, parents: seq<string>, seen: set<string>)
    requires WalkAll(overlays, child, parents, seen).Done?
    ensures Explored(overlays, seen, WalkAll(overlays, child, parents, seen))
    ensures forall p <- parents :: p in overlays && p in WalkAll(overlays, child, parents, seen).seen
    ensures forall m | m in WalkAll(overlays, child, parents, seen).seen && m !in seen ::
              ReachedFrom(overlays, parents, m)
    decreases |overlays.Keys - seen|, |parents| + 1
  {
    if parents != [] {
      var step := Walk(overlays, parents[0], seen);
      WalkExplores(overlays, parents[0], seen);
      NoMoreUnseen(overlays, seen, step.seen);
      WalkAllExplores(overlays, child, parents[1..], step.seen);
      var rest := WalkAll(overlays, child, parents[1..], step.seen);
      JoinExplored(overlays, seen, step, rest);
      forall m | m in rest.seen && m !in seen
        ensures ReachedFrom(overlays, parents, m)
      {
        if m in step.seen {
          assert parents[0] in parents && Reaches(overlays, parents[0], m);
        } else {
          assert ReachedFrom(overlays, parents[1..], m);
          var p :| p in parents[1..] && Reaches(overlays, p, m);
          assert p in parents;
        }
      }
    }
  }

  lemma {:induction false} WalkSucceeds(overlays: Registry, name: string, seen: set<string>)
    requires name in overlays
    requires forall m | Reaches(overlays, name, m) :: WellFormed(overlays, m)
    ensures Walk(overlays, name, seen).Done?
    decreases |overlays.Keys - seen|, 0
  {
    if name !in seen {
      ReachesSelf(overlays, name);
      FewerUnseen(overlays, seen, seen + {name}, name);
      forall p, m | p in Parents(overlays, name) && Reaches(overlays, p, m)
        ensures WellFormed(overlays, m)
      {
        ReachesFromChild(overlays, name, p, m);
      }
      WalkAllSucceeds(overlays, name, Parents(overlays, name), seen + {name});
    }
  }

  lemma {:induction false} WalkAllSucceeds(overlays: Registry, child: string, parents: seq<string>, seen: set<string>)
    requires forall p <- parents :: p in overlays
    requires forall p, m | p in parents && Reaches(overlays, p, m) :: WellFormed(overlays, m)
    ensures WalkAll(overlays, child, parents, seen).Done?
    decreases |overlays.Keys - seen|, |parents| + 1
  {
    if parents != [] {
      WalkSucceeds(overlays, parents[0], seen);
      NoMoreUnseen(overlays, seen, Walk(overlays, parents[0], seen).seen);
      WalkAllSucceeds(overlays, child, parents[1..], Walk(overlays, parents[0], seen).seen);
    }
  }

  /** The overlays that contribute to a successful resolution, in the order they contribute. */
  function Contributors(overlays: Registry, name: string): seq<string>
    requires Resolve(overlays, name).Ok?
  {
    Walk(overlays, name, {}).order
  }

  /** From the top, the overlays finished are exactly the overlays reached, once each. */
  lemma ContributorsAreReached(overlays: Registry, name: string)
    requires Resolve(overlays, name).Ok?
    ensures NoDuplicates(Contributors(overlays, name))
    ensures forall m :: m in Contributors(overlays, name) <==> Reaches(overlays, name, m)
    ensures forall m :: Reaches(overlays, name, m) ==> WellFormed(overlays, m)
  {
    WalkExplores(overlays, name, {});
    var r := Walk(overlays, name, {});
    forall m | Reaches(overlays, name, m)
      ensures m in r.seen
    {
      ReachesStaysInside(overlays, name, m, r.seen);
    }
  }

  /** Resolution succeeds exactly on a known name whose reachable overlays are all well formed. */
  lemma ResolveSucceedsExactly(overlays: Registry, name: string)
    ensures Resolve(overlays, name).Ok?
       <==> name in overlays && forall m | Reaches(overlays, name, m) :: WellFormed(overlays, m)
  {
    if Resolve(overlays, name).Ok? {
      ContributorsAreReached(overlays, name);
    } else if name in overlays && forall m | Reaches(overlays, name, m) :: WellFormed(overlays, m) {
      WalkSucceeds(overlays, name, {});
    }
  }

  // ------------------------------------------------------------------- contents

  lemma {:induction false} GatherHas(overlays: Registry, order: seq<string>, field: FieldName, v: string)
    ensures v in Gather(overlays, order, field) <==> exists m :: m in order && v in Entries(overlays, m, field)
  {
    if order != [] {
      GatherHas(overlays, order[1..], field, v);
      assert forall m :: m in order <==> m == order[0] || m in order[1..];
    }
  }

  /** The entries kept are distinct and are the first occurrences, in their order. */
  lemma FirstOccurrencesAreFirst(values: seq<string>)
    ensures NoDuplicates(FirstOccurrences(values))
    ensures forall v :: v in FirstOccurrences(values) <==> v in values
    ensures forall i, j :: 0 <= i < j < |FirstOccurrences(values)| ==>
              FirstBefore(values, Itself<string>, FirstOccurrences(values)[i], FirstOccurrences(values)[j])
  {
    FirstByDistinct(values, Itself<string>);
    FirstByKeepsFirsts(values, Itself<string>);
    AppendNewIsFirstOccurrences(values);
  }

  function Resolved(overlays: Registry, name: string, field: FieldName): seq<string>
    requires Resolve(overlays, name).Ok? && field != Extends
  {
    if field == Packs then Resolve(overlays, name).value.0 else Resolve(overlays, name).value.1
  }

  /** The packs and the excluded rules are duplicate free and are the union over reachable overlays. */
  lemma ResolvedIsUnion(overlays: Registry, name: string, field: FieldName)
    requires Resolve(overlays, name).Ok? && field != Extends
    ensures NoDuplicates(Resolved(overlays, name, field))
    ensures forall v :: v in Resolved(overlays, name, field)
                   <==> exists m :: Reaches(overlays, name, m) && v in Entries(overlays, m, field)
  {
    ContributorsAreReached(overlays, name);
    var order := Contributors(overlays, name);
    FirstOccurrencesAreFirst(Gather(overlays, order, field));
    forall v
      ensures v in Resolved(overlays, name, field)
         <==> exists m :: Reaches(overlays, name, m) && v in Entries(overlays, m, field)
    {
      GatherHas(overlays, order, field, v);
    }
  }

  /** Whatever an overlay resolves to, every overlay that reaches it resolves to no less. */
  lemma AncestorsAreIncluded(overlays: Registry, child: string, ancestor: string, field: FieldName)
    requires Resolve(overlays, child).Ok? && Reaches(overlays, child, ancestor) && field != Extends
    ensures Resolve(overlays, ancestor).Ok?
    ensures forall v <- Resolved(overlays, ancestor, field) :: v in Resolved(overlays, child, field)
  {
    ContributorsAreReached(overlays, child);
    forall m | Reaches(overlays, ancestor, m)
      ensures Reaches(overlays, child, m) && WellFormed(overlays, m)
    {
      ReachesTransitive(overlays, child, ancestor, m);
    }
    ReachesSelf(overlays, ancestor);
    ResolveSucceedsExactly(overlays, ancestor);
    ResolvedIsUnion(overlays, child, field);
    ResolvedIsUnion(overlays, ancestor, field);
  }

  // ------------------------------------------------------------------- order on acyclic graphs

  /** No overlay reached from `name` is its own ancestor. */
  ghost predicate Acyclic(overlays: Registry, name: string) {
    forall m, p | Reaches(overlays, name, m) && p in Parents(overlays, m) :: !Reaches(overlays, p, m)
  }

  /** Every overlay of `order` has its parents among `done` or earlier in `order`. */
  ghost predicate ParentsFirst(overlays: Registry, done: set<string>, order: seq<string>) {
    forall i | 0 <= i < |order| :: Settled(Parents(overlays, order[i]), done, order[..i])
  }

  ghost predicate Settled(parents: seq<string>, done: set<string>, earlier: seq<string>) {
    forall p <- parents :: p in done || p in earlier
  }

  /** Every overlay still being visited has a parent that is or reaches `name`. */
  ghost predicate Awaits(overlays: Registry, seen: set<string>, done: set<string>, name: string) {
    forall g | g in seen && g !in done :: ReachedFrom(overlays, Parents(overlays, g), name)
  }

  lemma NotReachedFromOwnParents(overlays: Registry, top: string, name: string)
    requires Acyclic(overlays, top) && Reaches(overlays, top, name)
    ensures !ReachedFrom(overlays, Parents(overlays, name), name)
  {}

  lemma {:induction false} WalkOrdersParents(
      overlays: Registry, top: string, name: string, seen: set<string>, done: set<string>)
    requires name in overlays && Walk(overlays, name, seen).Done?
    requires Acyclic(overlays, top) && Reaches(overlays, top, name)
    requires done <= seen && (name in seen ==> name in done)
    requires Awaits(overlays, seen, done, name)
    ensures ParentsFirst(overlays, done, Walk(overlays, name, seen).order)
    ensures name in done || name in Walk(overlays, name, seen).order
    decreases |overlays.Keys - seen|, 0
  {
    if name !in seen {
      FewerUnseen(overlays, seen, seen + {name}, name);
      var parents := Parents(overlays, name);
      forall q | q in parents
        ensures Awaits(overlays, seen + {name}, done, q)
      {
        forall g | g in seen + {name} && g !in done
          ensures ReachedFrom(overlays, Parents(overlays, g), q)
        {
          if g == name {
            ReachesSelf(overlays, q);
            assert q in Parents(overlays, g) && Reaches(overlays, q, q);
          } else {
            var p :| p in Parents(overlays, g) && Reaches(overlays, p, name);
            ReachesParent(overlays, p, name, q);
          }
        }
      }
      forall q | q in parents
        ensures Reaches(overlays, top, q)
      {
        ReachesParent(overlays, top, name, q);
      }
      WalkAllOrdersParents(overlays, top, name, parents, seen + {name}, done);
      var order := WalkAll(overlays, name, parents, seen + {name}).order;
      assert (order + [name])[..|order|] == order;
      assert forall i :: 0 <= i < |order| ==> (order + [name])[..i] == order[..i];
    }
  }

  lemma {:induction false} WalkAllOrdersParents(
      overlays: Registry, top: string, child: string, parents: seq<string>, seen: set<string>, done: set<string>)
    requires WalkAll(overlays, child, parents, seen).Done?
    requires Acyclic(overlays, top) && forall q <- parents :: Reaches(overlays, top, q)
    requires done <= seen
    requires forall q <- parents :: Awaits(overlays, seen, done, q)
    ensures ParentsFirst(overlays, done, WalkAll(overlays, child, parents, seen).order)
    ensures forall q <- parents :: q in done || q in WalkAll(overlays, child, parents, seen).order
    decreases |overlays.Keys - seen|, |parents| + 1
  {
    if parents != [] {
      var q := parents[0];
      assert q in parents;
      NotReachedFromOwnParents(overlays, top, q);
      WalkOrdersParents(overlays, top, q, seen, done);
      WalkExplores(overlays, q, seen);
      var step := Walk(overlays, q, seen);
      NoMoreUnseen(overlays, seen, step.seen);
      var finished := set m | m in step.order;
      forall p | p in parents[1..]
        ensures Awaits(overlays, step.seen, done + finished, p)
      {
        assert Awaits(overlays, seen, done, p);
      }
      WalkAllOrdersParents(overlays, top, child, parents[1..], step.seen, done + finished);
      var rest := WalkAll(overlays, child, parents[1..], step.seen).order;
      JoinParentsFirst(overlays, done, step.order, rest);
    }
  }

  lemma JoinParentsFirst(overlays: Registry, done: set<string>, a: seq<string>, b: seq<string>)
    requires ParentsFirst(overlays, done, a)
    requires ParentsFirst(overlays, done + (set m | m in a), b)
    ensures ParentsFirst(overlays, done, a + b)
  {
    var ab := a + b;
    forall i | 0 <= i < |ab|
      ensures Settled(Parents(overlays, ab[i]), done, ab[..i])
    {
      if i < |a| {
        assert ab[..i] == a[..i];
      } else {
        assert ab[..i] == a + b[..i - |a|];
        assert ab[i] == b[i - |a|];
        forall p <- Parents(overlays, ab[i])
          ensures p in done || p in ab[..i]
        {
          assert p in done + (set m | m in a) || p in b[..i - |a|];
        }
      }
    }
  }

  lemma {:induction false} ChainRunsBackwards(overlays: Registry, order: seq<string>, chain: seq<string>, i: nat)
    requires ParentsFirst(overlays, {}, order) && NoDuplicates(order)
    requires IsChain(overlays, chain) && |chain| > 1 && i < |order| && order[i] == chain[0]
    ensures chain[|chain| - 1] in order[..i]
    decreases |chain|
  {
    assert chain[0 + 1] in Parents(overlays, order[i]);
    var k :| 0 <= k < i && order[k] == chain[1];
    if |chain| > 2 {
      ChainRunsBackwards(overlays, order, chain[1..], k);
    }
  }

  /** On an acyclic graph every ancestor contributes before every overlay it is an ancestor of. */
  lemma AncestorsContributeFirst(overlays: Registry, name: string, i: nat, ancestor: string)
    requires Resolve(overlays, name).Ok? && Acyclic(overlays, name)
    requires i < |Contributors(overlays, name)|
    requires Reaches(overlays, Contributors(overlays, name)[i], ancestor)
    requires ancestor != Contributors(overlays, name)[i]
    ensures ancestor in Contributors(overlays, name)[..i]
  {
    var order := Contributors(overlays, name);
    ReachesSelf(overlays, name);
    WalkOrdersParents(overlays, name, name, {}, {});
    ContributorsAreReached(overlays, name);
    var chain :| IsChain(overlays, chain) && chain[0] == order[i] && chain[|chain| - 1] == ancestor;
    ChainRunsBackwards(overlays, order, chain, i);
  }

  // ------------------------------------------------------------------- aliases

  /** `alias` declares nothing of its own and extends one known overlay. */
  ghost predicate IsAlias(overlays: Registry, alias: string, target: string) {
    && target in overlays
    && alias in overlays
    && WellFormed(overlays, alias)
    && Parents(overlays, alias) == [target]
    && Entries(overlays, alias, Packs) == []
    && Entries(overlays, alias, ExcludeRules) == []
  }

  function Omit(order: seq<string>, name: string): seq<string> {
    if order == [] then []
    else (if order[0] == name then [] else [order[0]]) + Omit(order[1..], name)
  }

  lemma {:induction false} OmitSplits(a: seq<string>, b: seq<string>, name: string)
    ensures Omit(a + b, name) == Omit(a, name) + Omit(b, name)
  {
    if a == [] {
      assert a + b == b;
    } else {
      assert (a + b)[1..] == a[1..] + b;
      OmitSplits(a[1..], b, name);
    }
  }

  lemma {:induction false} AliasContributesNothing(
      overlays: Registry, order: seq<string>, alias: string, field: FieldName)
    requires alias in overlays && Entries(overlays, alias, field) == []
    ensures Gather(overlays, order, field) == Gather(overlays, Omit(order, alias), field)
  {
    if order != [] {
      AliasContributesNothing(overlays, order[1..], alias, field);
      var rest := Omit(order[1..], alias);
      if order[0] == alias {
        assert Omit(order, alias) == [] + rest == rest;
      } else {
        assert Omit(order, alias)[1..] == rest;
      }
    }
  }

  /** `a` ran with the alias already seen, `b` did not need to; otherwise they agree. */
  ghost predicate AgreeBut(alias: string, a: WalkResult, b: WalkResult) {
    match (a, b)
    case (Fail(e), Fail(f)) => e == f
    case (Done(s, o), Done(t, p)) => s == t + {alias} && Omit(o, alias) == Omit(p, alias)
    case _ => false
  }

  /** Where the target has been seen, walking the alias contributes the alias alone. */
  lemma AliasWalkAgrees(overlays: Registry, alias: string, target: string, seen: set<string>)
    requires IsAlias(overlays, alias, target) && alias in overlays && target in seen && alias !in seen
    ensures AgreeBut(alias, Walk(overlays, alias, seen + {alias}), Walk(overlays, alias, seen))
  {
    FewerUnseen(overlays, seen, seen + {alias}, alias);
    var inner := WalkAll(overlays, alias, [target], seen + {alias});
    assert Walk(overlays, target, seen + {alias}) == Done(seen + {alias}, []);
    assert inner == Done(seen + {alias}, []) by {
      assert [target][1..] == [];
      assert WalkAll(overlays, alias, [], seen + {alias}) == Done(seen + {alias}, []);
    }
  }

  lemma {:induction false} WalksAgree(
      overlays: Registry, alias: string, target: string, name: string, seen: set<string>)
    requires IsAlias(overlays, alias, target) && name in overlays && target in seen
    ensures AgreeBut(alias, Walk(overlays, name, seen + {alias}), Walk(overlays, name, seen))
    decreases |overlays.Keys - seen|, 0
  {
    if name in seen {
    } else if name == alias {
      AliasWalkAgrees(overlays, alias, target, seen);
    } else if OverlayField(overlays, name, Extends).Ok? {
      FewerUnseen(overlays, seen, seen + {name}, name);
      var parents := OverlayField(overlays, name, Extends).value;
      WalkAllsAgree(overlays, alias, target, name, parents, seen + {name});
      assert seen + {name} + {alias} == seen + {alias} + {name};
      var a := WalkAll(overlays, name, parents, seen + {alias} + {name});
      var b := WalkAll(overlays, name, parents, seen + {name});
      if a.Done? {
        OmitSplits(a.order, [name], alias);
        OmitSplits(b.order, [name], alias);
      }
    }
  }

  lemma {:induction false} WalkAllsAgree(
      overlays: Registry, alias: string, target: string, child: string, parents: seq<string>, seen: set<string>)
    requires IsAlias(overlays, alias, target) && target in seen
    ensures AgreeBut(alias, WalkAll(overlays, child, parents, seen + {alias}), WalkAll(overlays, child, parents, seen))
    decreases |overlays.Keys - seen|, |parents| + 1
  {
    if parents != [] && parents[0] in overlays {
      WalksAgree(overlays, alias, target, parents[0], seen);
      var a, b := Walk(overlays, parents[0], seen + {alias}), Walk(overlays, parents[0], seen);
      if a.Done? {
        NoMoreUnseen(overlays, seen, b.seen);
        WalkAllsAgree(overlays, alias, target, child, parents[1..], b.seen);
        var a', b' := WalkAll(overlays, child, parents[1..], a.seen), WalkAll(overlays, child, parents[1..], b.seen);
        if a'.Done? {
          OmitSplits(a.order, a'.order, alias);
          OmitSplits(b.order, b'.order, alias);
        }
      }
    }
  }

  /**
    An alias resolves to exactly what its target resolves to, ordered entries and errors alike,
    on every graph. The two walks start from different roots; where the graph leads back to the
    alias, only the walk from the target visits it a second time.
   */
  lemma AliasResolvesToTarget(overlays: Registry, alias: string, target: string)
    requires IsAlias(overlays, alias, target)
    ensures Resolve(overlays, alias) == Resolve(overlays, target)
  {
    if alias != target {
      var a := WalkAll(overlays, alias, [target], {alias});
      assert {} + {alias} == {alias};
      var inner := Walk(overlays, target, {alias});
      assert a == inner by {
        assert [target][1..] == [];
        if inner.Done? {
          assert WalkAll(overlays, alias, [], inner.seen) == Done(inner.seen, []);
          assert inner.order + [] == inner.order;
        }
      }
      // One step of the walk from the target puts it in both `seen` sets.
      if OverlayField(overlays, target, Extends).Ok? {
        var parents := OverlayField(overlays, target, Extends).value;
        WalkAllsAgree(overlays, alias, target, target, parents, {target});
        assert {alias} + {target} == {target} + {alias} && {} + {target} == {target};
        var x := WalkAll(overlays, target, parents, {target} + {alias});
        var y := WalkAll(overlays, target, parents, {target});
        if x.Done? {
          OmitSplits(x.order, [target], alias);
          OmitSplits(y.order, [target], alias);
        }
      }
      var b := Walk(overlays, target, {});
      assert AgreeBut(alias, inner, b);
      if inner.Done? {
        OmitSplits(inner.order, [alias], alias);
        assert Omit([alias], alias) == [] + Omit([alias][1..], alias) == [];
        var order := Walk(overlays, alias, {}).order;
        assert order == inner.order + [alias];
        assert Omit(order, alias) == Omit(b.order, alias);
        AliasContributesNothing(overlays, order, alias, Packs);
        AliasContributesNothing(overlays, b.order, alias, Packs);
        AliasContributesNothing(overlays, order, alias, ExcludeRules);
        AliasContributesNothing(overlays, b.order, alias, ExcludeRules);
      }
    }
  }
}
