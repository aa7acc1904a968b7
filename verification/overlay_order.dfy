/**
  In what order overlays contribute (thyn_security_toolchain/hooks.py, `resolve_overlay`), for every
  registry, cyclic or not: an overlay resolves to what its parents resolve to, parent after parent,
  followed by its own entries, less the repetitions. Where the graph leads back to the overlay, its
  parents find it empty.
 */
module OverlayOrder {
  import opened Wrappers
  import opened Seqs
  import opened Overlays
  import opened OverlayLaws

  // ------------------------------------------------------------------- the equation

  /** The registry as an overlay's parents see it: the overlay itself has nothing to give. */
  function Cut(overlays: Registry, name: string): Registry {
    overlays[name := Object(Falsy, Falsy, Falsy)]
  }

  function ValuesOf(field: Field): seq<string> {
    match field
    case Strings(values) => values
    case _ => []
  }

  type Resolution = Result<(seq<string>, seq<string>), ScanError>

  /** What the parents resolve to, one after the other, or the first error among them. */
  function ParentsResolved(overlays: Registry, child: string, parents: seq<string>): Resolution {
    if parents == [] then Ok(([], []))
    else if parents[0] !in overlays then Err(UnknownParent(child, parents[0]))
    else
      match Resolve(overlays, parents[0])
      case Err(e) => Err(e)
      case Ok(first) =>
        match ParentsResolved(overlays, child, parents[1..])
        case Err(e) => Err(e)
        case Ok(rest) => Ok((first.0 + rest.0, first.1 + rest.1))
  }

  /** The parents' entries and then the overlay's own, each once, or the first defect. */
  function Unfolded(overlays: Registry, name: string): Resolution {
    if name !in overlays then Err(UnknownOverlay(name))
    else
      match overlays[name]
      case NotAnObject => Err(SpecNotAnObject(name))
      case Object(parents, packs, excludeRules) =>
        if parents.Malformed? then Err(FieldNotStrings(name, Extends))
        else
          match ParentsResolved(Cut(overlays, name), name, ValuesOf(parents))
          case Err(e) => Err(e)
          case Ok(inherited) =>
            if packs.Malformed? then Err(FieldNotStrings(name, Packs))
            else if excludeRules.Malformed? then Err(FieldNotStrings(name, ExcludeRules))
            else
              Ok((FirstOccurrences(inherited.0 + ValuesOf(packs)),
                  FirstOccurrences(inherited.1 + ValuesOf(excludeRules))))
  }

  // ------------------------------------------------------------------- appending

  lemma {:induction false} AppendKeeps(acc: seq<string>, values: seq<string>, v: string)
    ensures v in AppendNew(acc, values) <==> v in acc || v in values
    decreases |values|
  {
    if values != [] {
      AppendKeeps(if values[0] in acc then acc else acc + [values[0]], values[1..], v);
    }
  }

  lemma {:induction false} AppendKnown(acc: seq<string>, values: seq<string>)
    requires forall v <- values :: v in acc
    ensures AppendNew(acc, values) == acc
    decreases |values|
  {
    if values != [] {
      assert values[0] in values;
      AppendKnown(acc, values[1..]);
    }
  }

  /** Appending the first occurrences is appending all of them. */
  lemma {:induction false} AppendFirsts(acc: seq<string>, values: seq<string>)
    ensures AppendNew(acc, FirstOccurrences(values)) == AppendNew(acc, values)
  {
    if values != [] {
      var init, last := values[..|values| - 1], values[|values| - 1];
      var kept := FirstOccurrences(init);
      assert values == init + [last];
      AppendFirsts(acc, init);
      AppendNewSplits(acc, init, [last]);
      assert KeyIn(init, Itself<string>, last) <==> last in init;
      if last in init {
        AppendKeeps(acc, init, last);
        AppendKnown(AppendNew(acc, init), [last]);
        assert FirstOccurrences(values) == kept + [] == kept;
      } else {
        AppendNewSplits(acc, kept, [last]);
      }
    }
  }

  // ------------------------------------------------------------------- a walk that has seen more

  function Outside(seen: set<string>): string -> bool {
    m => m !in seen
  }

  /** What was seen beyond `less` is well formed and leads nowhere but into what was seen. */
  ghost predicate IsClosed(overlays: Registry, less: set<string>, more: set<string>) {
    less <= more && forall m <- more - less :: LeadsInto(overlays, m, more)
  }

  ghost predicate LeadsInto(overlays: Registry, m: string, seen: set<string>) {
    WellFormed(overlays, m) && forall p <- Parents(overlays, m) :: p in seen
  }

  /** The walk that has seen more fails alike, or finishes what the other one does, less what it had seen. */
  ghost predicate Restricts(more: set<string>, a: WalkResult, b: WalkResult) {
    match (a, b)
    case (Fail(e), Fail(f)) => e == f
    case (Done(s, o), Done(t, q)) => t == more + s && q == KeepIf(o, Outside(more))
    case _ => false
  }

  lemma {:induction false} WalkStaysInside(overlays: Registry, name: string, less: set<string>, more: set<string>)
    requires IsClosed(overlays, less, more) && name in more && name in overlays
    ensures Walk(overlays, name, less).Done? && Walk(overlays, name, less).seen <= more
    decreases |overlays.Keys - less|, 0
  {
    if name !in less {
      FewerUnseen(overlays, less, less + {name}, name);
      assert LeadsInto(overlays, name, more);
      WalkAllStaysInside(overlays, name, Parents(overlays, name), less + {name}, more);
    }
  }

  lemma {:induction false} WalkAllStaysInside(
      overlays: Registry, child: string, parents: seq<string>, less: set<string>, more: set<string>)
    requires IsClosed(overlays, less, more) && forall p <- parents :: p in more && p in overlays
    ensures WalkAll(overlays, child, parents, less).Done? && WalkAll(overlays, child, parents, less).seen <= more
    decreases |overlays.Keys - less|, |parents| + 1
  {
    if parents != [] {
      assert parents[0] in parents;
      WalkStaysInside(overlays, parents[0], less, more);
      var step := Walk(overlays, parents[0], less);
      NoMoreUnseen(overlays, less, step.seen);
      WalkAllStaysInside(overlays, child, parents[1..], step.seen, more);
    }
  }

  /** More seen on both sides. */
  lemma ClosedStays(overlays: Registry, less: set<string>, more: set<string>, seen: set<string>)
    requires IsClosed(overlays, less, more)
    ensures IsClosed(overlays, less + seen, more + seen)
  {
    forall m | m in more + seen - (less + seen)
      ensures LeadsInto(overlays, m, more + seen)
    {
      assert LeadsInto(overlays, m, more);
    }
  }

  lemma InsideIsOmitted(overlays: Registry, name: string, less: set<string>, more: set<string>)
    requires IsClosed(overlays, less, more) && name in more && name in overlays
    ensures Restricts(more, Walk(overlays, name, less), Walk(overlays, name, more))
  {
    WalkStaysInside(overlays, name, less, more);
    WalkExplores(overlays, name, less);
    var order := Walk(overlays, name, less).order;
    forall m | m in KeepIf(order, Outside(more))
      ensures false
    {
      KeepIfHas(order, Outside(more), m);
    }
    assert KeepIf(order, Outside(more)) == [] || KeepIf(order, Outside(more))[0] in KeepIf(order, Outside(more));
  }

  lemma {:induction false} WalkRestricts(overlays: Registry, name: string, less: set<string>, more: set<string>)
    requires IsClosed(overlays, less, more) && name in overlays
    ensures Restricts(more, Walk(overlays, name, less), Walk(overlays, name, more))
    decreases |overlays.Keys - less|, 0
  {
    if name in more {
      InsideIsOmitted(overlays, name, less, more);
    } else if OverlayField(overlays, name, Extends).Ok? {
      FewerUnseen(overlays, less, less + {name}, name);
      FewerUnseen(overlays, more, more + {name}, name);
      var parents := OverlayField(overlays, name, Extends).value;
      ClosedStays(overlays, less, more, {name});
      WalkAllRestricts(overlays, name, parents, less + {name}, more + {name});
      WalkAllAddsNew(overlays, name, parents, less + {name});
      FinishRestricts(
        overlays, name, less, more, WalkAll(overlays, name, parents, less + {name}),
        WalkAll(overlays, name, parents, more + {name}));
    }
  }

  lemma FinishRestricts(
      overlays: Registry, name: string, less: set<string>, more: set<string>, a: WalkResult, b: WalkResult)
    requires name in overlays && name !in more && Restricts(more + {name}, a, b)
    requires a.Done? ==> name in a.seen && name !in a.order
    ensures Restricts(more, Finish(overlays, name, a), Finish(overlays, name, b))
  {
    if a.Done? {
      KeepIfJoins(a.order, [name], Outside(more));
      assert KeepIf([name], Outside(more)) == [name] by {
        KeepIfStep([name], 0, Outside(more));
        All([name]);
      }
      SameKept(a.order, Outside(more), Outside(more + {name}));
    }
  }

  lemma {:induction false} SameKept(s: seq<string>, p: string -> bool, q: string -> bool)
    requires forall x <- s :: p(x) == q(x)
    ensures KeepIf(s, p) == KeepIf(s, q)
  {
    if s != [] {
      SameKept(s[..|s| - 1], p, q);
      assert s == s[..|s| - 1] + [s[|s| - 1]];
    }
  }

  lemma {:induction false} WalkAllRestricts(
      overlays: Registry, child: string, parents: seq<string>, less: set<string>, more: set<string>)
    requires IsClosed(overlays, less, more)
    ensures Restricts(more, WalkAll(overlays, child, parents, less), WalkAll(overlays, child, parents, more))
    decreases |overlays.Keys - less|, |parents| + 1
  {
    if parents == [] {
      assert more + less == more;
    } else if parents[0] in overlays {
      WalkRestricts(overlays, parents[0], less, more);
      var a := Walk(overlays, parents[0], less);
      if a.Fail? {
        WalkAllFails(overlays, child, parents, less);
        WalkAllFails(overlays, child, parents, more);
      } else {
        NoMoreUnseen(overlays, less, a.seen);
        ClosedStays(overlays, less, more, a.seen);
        assert less + a.seen == a.seen;
        WalkAllRestricts(overlays, child, parents[1..], a.seen, more + a.seen);
        WalkAllAddsNew(overlays, child, parents[1..], a.seen);
        JoinRestricts(
          more, a, WalkAll(overlays, child, parents[1..], a.seen),
          WalkAll(overlays, child, parents[1..], more + a.seen));
        WalkAllSteps(overlays, child, parents, less);
        WalkAllSteps(overlays, child, parents, more);
      }
    }
  }

  lemma WalkAllFails(overlays: Registry, child: string, parents: seq<string>, seen: set<string>)
    requires parents != [] && parents[0] in overlays && Walk(overlays, parents[0], seen).Fail?
    ensures WalkAll(overlays, child, parents, seen) == Walk(overlays, parents[0], seen)
  {}

  lemma WalkAllSteps(overlays: Registry, child: string, parents: seq<string>, seen: set<string>)
    requires parents != [] && parents[0] in overlays && Walk(overlays, parents[0], seen).Done?
    ensures var step := Walk(overlays, parents[0], seen);
            WalkAll(overlays, child, parents, seen)
            == Before(step.order, WalkAll(overlays, child, parents[1..], step.seen))
  {}

  lemma WalkAllAddsNew(overlays: Registry, child: string, parents: seq<string>, seen: set<string>)
    ensures var r := WalkAll(overlays, child, parents, seen);
            r.Done? ==> seen <= r.seen && forall m <- r.order :: m !in seen
  {
    if WalkAll(overlays, child, parents, seen).Done? {
      WalkAllExplores(overlays, child, parents, seen);
    }
  }

  lemma JoinRestricts(more: set<string>, a: WalkResult, b: WalkResult, c: WalkResult)
    requires a.Done? && Restricts(more + a.seen, b, c)
    requires b.Done? ==> a.seen <= b.seen && forall m <- b.order :: m !in a.seen
    ensures Restricts(more, Before(a.order, b), Before(KeepIf(a.order, Outside(more)), c))
  {
    if b.Done? {
      KeepIfJoins(a.order, b.order, Outside(more));
      SameKept(b.order, Outside(more), Outside(more + a.seen));
    }
  }

  // ------------------------------------------------------------------- what the parents contribute

  /** Everything that the overlays of `seen` declare is there already. */
  ghost predicate IsKnown(overlays: Registry, seen: set<string>, field: FieldName, acc: seq<string>) {
    forall m <- seen, v <- Entries(overlays, m, field) :: v in acc
  }

  lemma {:induction false} KnownIsOmitted(
      overlays: Registry, seen: set<string>, field: FieldName, acc: seq<string>, order: seq<string>)
    requires IsKnown(overlays, seen, field, acc)
    ensures AppendNew(acc, Gather(overlays, KeepIf(order, Outside(seen)), field))
         == AppendNew(acc, Gather(overlays, order, field))
  {
    if order != [] {
      var init, last := order[..|order| - 1], order[|order| - 1];
      var kept := KeepIf(init, Outside(seen));
      assert order == init + [last];
      KnownIsOmitted(overlays, seen, field, acc, init);
      GatherJoins(overlays, init, [last], field, acc);
      if last in seen {
        assert KeepIf(order, Outside(seen)) == kept + [] == kept;
        KnownAddsNothing(overlays, seen, field, acc, Gather(overlays, init, field), last);
      } else {
        GatherJoins(overlays, kept, [last], field, acc);
      }
    }
  }

  lemma KnownAddsNothing(
      overlays: Registry, seen: set<string>, field: FieldName, acc: seq<string>, values: seq<string>, m: string)
    requires IsKnown(overlays, seen, field, acc) && m in seen
    ensures AppendNew(AppendNew(acc, values), Gather(overlays, [m], field)) == AppendNew(acc, values)
  {
    GatherOne(overlays, m, field);
    forall v | v in Entries(overlays, m, field)
      ensures v in AppendNew(acc, values)
    {
      AppendKeeps(acc, values, v);
    }
    AppendKnown(AppendNew(acc, values), Entries(overlays, m, field));
  }

  lemma GatherOne(overlays: Registry, m: string, field: FieldName)
    ensures Gather(overlays, [m], field) == Entries(overlays, m, field)
  {
    assert [m][1..] == [];
    assert Gather(overlays, [m], field) == Entries(overlays, m, field) + Gather(overlays, [], field);
  }

  /** Nothing stands open: what was seen is well formed, with its parents. */
  ghost predicate AllSettled(overlays: Registry, seen: set<string>) {
    IsClosed(overlays, {}, seen)
  }

  lemma SettledJoins(overlays: Registry, seen: set<string>, alone: WalkResult)
    requires AllSettled(overlays, seen) && Explored(overlays, {}, alone)
    ensures AllSettled(overlays, seen + alone.seen)
  {
    forall m | m in seen + alone.seen
      ensures LeadsInto(overlays, m, seen + alone.seen)
    {
      if m in seen {
        assert LeadsInto(overlays, m, seen);
      } else {
        assert m in alone.seen - {};
      }
    }
  }

  /** The walk of an overlay that resolves, with what came before it. */
  lemma ParentIsWalked(overlays: Registry, name: string, seen: set<string>)
    requires name in overlays && AllSettled(overlays, seen) && Resolve(overlays, name).Ok?
    ensures var alone, r := Walk(overlays, name, {}), Walk(overlays, name, seen);
            && alone.Done? && r.Done? && AllSettled(overlays, r.seen)
            && r.seen == seen + alone.seen && r.order == KeepIf(alone.order, Outside(seen))
            && forall m :: m in alone.order <==> m in alone.seen
  {
    WalkRestricts(overlays, name, {}, seen);
    WalkExplores(overlays, name, {});
    SettledJoins(overlays, seen, Walk(overlays, name, {}));
    assert Walk(overlays, name, {}).seen - {} == Walk(overlays, name, {}).seen;
  }

  function Inherited(overlays: Registry, child: string, parents: seq<string>, field: FieldName): seq<string>
    requires ParentsResolved(overlays, child, parents).Ok? && field != Extends
  {
    var r := ParentsResolved(overlays, child, parents).value;
    if field == Packs then r.0 else r.1
  }

  /** One parent, walked with what came before it, adds what it resolves to by itself. */
  lemma ParentContributes(overlays: Registry, name: string, seen: set<string>, field: FieldName, acc: seq<string>)
    requires name in overlays && AllSettled(overlays, seen) && field != Extends
    requires IsKnown(overlays, seen, field, acc) && Resolve(overlays, name).Ok?
    ensures var r := Walk(overlays, name, seen);
            && r.Done? && AllSettled(overlays, r.seen)
            && AppendNew(acc, Gather(overlays, r.order, field)) == AppendNew(acc, Resolved(overlays, name, field))
            && IsKnown(overlays, r.seen, field, AppendNew(acc, Resolved(overlays, name, field)))
  {
    var alone, r := Walk(overlays, name, {}), Walk(overlays, name, seen);
    ParentIsWalked(overlays, name, seen);
    KnownIsOmitted(overlays, seen, field, acc, alone.order);
    AppendFirsts(acc, Gather(overlays, alone.order, field));
    forall m, v | m in r.seen && v in Entries(overlays, m, field)
      ensures v in AppendNew(acc, Resolved(overlays, name, field))
    {
      AppendKeeps(acc, Gather(overlays, alone.order, field), v);
      GatherHas(overlays, alone.order, field, v);
    }
  }

  lemma {:induction false} ParentsFailAlike(overlays: Registry, child: string, parents: seq<string>, seen: set<string>)
    requires AllSettled(overlays, seen)
    ensures match (WalkAll(overlays, child, parents, seen), ParentsResolved(overlays, child, parents))
            case (Fail(e), Err(f)) => e == f
            case (Done(_, _), Ok(_)) => true
            case _ => false
  {
    if parents != [] && parents[0] in overlays {
      WalkRestricts(overlays, parents[0], {}, seen);
      if Resolve(overlays, parents[0]).Ok? {
        ParentIsWalked(overlays, parents[0], seen);
        ParentsFailAlike(overlays, child, parents[1..], Walk(overlays, parents[0], seen).seen);
      }
    }
  }

  lemma {:induction false} ParentsContribute(
      overlays: Registry, child: string, parents: seq<string>, seen: set<string>, field: FieldName, acc: seq<string>)
    requires AllSettled(overlays, seen) && IsKnown(overlays, seen, field, acc) && field != Extends
    requires ParentsResolved(overlays, child, parents).Ok?
    ensures WalkAll(overlays, child, parents, seen).Done?
    ensures AppendNew(acc, Gather(overlays, WalkAll(overlays, child, parents, seen).order, field))
         == AppendNew(acc, Inherited(overlays, child, parents, field))
  {
    ParentsFailAlike(overlays, child, parents, seen);
    if parents != [] {
      var step := Walk(overlays, parents[0], seen);
      ParentContributes(overlays, parents[0], seen, field, acc);
      var first := Resolved(overlays, parents[0], field);
      ParentsContribute(overlays, child, parents[1..], step.seen, field, AppendNew(acc, first));
      var rest := WalkAll(overlays, child, parents[1..], step.seen).order;
      GatherJoins(overlays, step.order, rest, field, acc);
      AppendNewSplits(acc, first, Inherited(overlays, child, parents[1..], field));
    }
  }

  // ------------------------------------------------------------------- the overlay being visited is empty

  /** In the cut registry the overlay may be visited, for nothing; elsewhere the walks agree. */
  lemma {:induction false} CutWalkAgrees(overlays: Registry, name: string, m: string, seen: set<string>)
    requires name in overlays && m in overlays
    ensures AgreeBut(name, Walk(overlays, m, seen + {name}), Walk(Cut(overlays, name), m, seen))
    decreases |overlays.Keys - seen|, 0
  {
    var cut := Cut(overlays, name);
    assert cut.Keys == overlays.Keys;
    if m == name {
      CutIsEmpty(overlays, name, seen);
    } else if m !in seen && OverlayField(overlays, m, Extends).Ok? {
      FewerUnseen(overlays, seen, seen + {m}, m);
      var parents := OverlayField(overlays, m, Extends).value;
      CutWalkAllAgrees(overlays, name, m, parents, seen + {m});
      assert seen + {m} + {name} == seen + {name} + {m};
      FinishAgrees(
        overlays, name, m, WalkAll(overlays, m, parents, seen + {name} + {m}), WalkAll(cut, m, parents, seen + {m}));
    }
  }

  lemma CutIsEmpty(overlays: Registry, name: string, seen: set<string>)
    requires name in overlays
    ensures AgreeBut(name, Done(seen + {name}, []), Walk(Cut(overlays, name), name, seen))
  {
    var cut := Cut(overlays, name);
    if name !in seen {
      FewerUnseen(cut, seen, seen + {name}, name);
      assert WalkAll(cut, name, [], seen + {name}) == Done(seen + {name}, []);
      OmitOne(name);
      assert [] + [name] == [name];
    }
  }

  lemma OmitOne(name: string)
    ensures Omit([name], name) == []
  {
    assert [name][1..] == [];
    assert Omit([name], name) == [] + Omit([], name);
  }

  lemma FinishAgrees(overlays: Registry, name: string, m: string, a: WalkResult, b: WalkResult)
    requires name in overlays && m in overlays && m != name && AgreeBut(name, a, b)
    ensures AgreeBut(name, Finish(overlays, m, a), Finish(Cut(overlays, name), m, b))
  {
    if a.Done? {
      OmitSplits(a.order, [m], name);
      OmitSplits(b.order, [m], name);
    }
  }

  lemma {:induction false} CutWalkAllAgrees(
      overlays: Registry, name: string, child: string, parents: seq<string>, seen: set<string>)
    requires name in overlays
    ensures AgreeBut(
              name, WalkAll(overlays, child, parents, seen + {name}),
              WalkAll(Cut(overlays, name), child, parents, seen))
    decreases |overlays.Keys - seen|, |parents| + 1
  {
    if parents != [] && parents[0] in overlays {
      CutWalkAgrees(overlays, name, parents[0], seen);
      var a, b := Walk(overlays, parents[0], seen + {name}), Walk(Cut(overlays, name), parents[0], seen);
      if a.Done? {
        NoMoreUnseen(overlays, seen, b.seen);
        CutWalkAllAgrees(overlays, name, child, parents[1..], b.seen);
        BeforeAgrees(
          name, a, b, WalkAll(overlays, child, parents[1..], a.seen),
          WalkAll(Cut(overlays, name), child, parents[1..], b.seen));
      }
    }
  }

  lemma BeforeAgrees(name: string, a: WalkResult, b: WalkResult, a': WalkResult, b': WalkResult)
    requires a.Done? && b.Done? && AgreeBut(name, a, b) && AgreeBut(name, a', b')
    ensures AgreeBut(name, Before(a.order, a'), Before(b.order, b'))
  {
    if a'.Done? {
      OmitSplits(a.order, a'.order, name);
      OmitSplits(b.order, b'.order, name);
    }
  }

  lemma {:induction false} CutGathers(overlays: Registry, name: string, order: seq<string>, field: FieldName)
    requires name in overlays && name !in order
    ensures Gather(Cut(overlays, name), order, field) == Gather(overlays, order, field)
  {
    if order != [] {
      assert order[0] in order;
      CutGathers(overlays, name, order[1..], field);
    }
  }

  lemma {:induction false} OmitAbsent(order: seq<string>, name: string)
    requires name !in order
    ensures Omit(order, name) == order
  {
    if order != [] {
      OmitAbsent(order[1..], name);
    }
  }

  // ------------------------------------------------------------------- the equation holds

  /** What the walk of the parents gathers is what they inherit in the cut registry. */
  lemma ParentsGather(overlays: Registry, name: string, parents: seq<string>, field: FieldName)
    requires name in overlays && field != Extends
    requires ParentsResolved(Cut(overlays, name), name, parents).Ok?
    ensures var r := WalkAll(overlays, name, parents, {name});
            && r.Done?
            && AppendNew([], Gather(overlays, r.order, field))
               == AppendNew([], Inherited(Cut(overlays, name), name, parents, field))
  {
    var cut := Cut(overlays, name);
    CutWalkAllAgrees(overlays, name, name, parents, {});
    assert {} + {name} == {name};
    ParentsContribute(cut, name, parents, {}, field, []);
    var a, b := WalkAll(overlays, name, parents, {name}).order, WalkAll(cut, name, parents, {}).order;
    WalkAllExplores(overlays, name, parents, {name});
    OmitAbsent(a, name);
    AliasContributesNothing(cut, b, name, field);
    CutGathers(overlays, name, a, field);
  }

  lemma ParentsFail(overlays: Registry, name: string, parents: seq<string>)
    requires name in overlays
    ensures match (WalkAll(overlays, name, parents, {name}), ParentsResolved(Cut(overlays, name), name, parents))
            case (Fail(e), Err(f)) => e == f
            case (Done(_, _), Ok(_)) => true
            case _ => false
  {
    CutWalkAllAgrees(overlays, name, name, parents, {});
    assert {} + {name} == {name};
    ParentsFailAlike(Cut(overlays, name), name, parents, {});
  }

  /** With its parents walked, an overlay's own entries come last. */
  lemma OwnComesLast(
      overlays: Registry, name: string, order: seq<string>, inherited: seq<string>, field: FieldName)
    requires name in overlays
    requires AppendNew([], Gather(overlays, order, field)) == AppendNew([], inherited)
    ensures FirstOccurrences(Gather(overlays, order + [name], field))
         == FirstOccurrences(inherited + Entries(overlays, name, field))
  {
    GatherJoins(overlays, order, [name], field, []);
    GatherOne(overlays, name, field);
    AppendNewSplits([], inherited, Entries(overlays, name, field));
    AppendNewIsFirstOccurrences(Gather(overlays, order + [name], field));
    AppendNewIsFirstOccurrences(inherited + Entries(overlays, name, field));
  }

  lemma WalkOfTop(overlays: Registry, name: string, parents: seq<string>)
    requires name in overlays && OverlayField(overlays, name, Extends) == Ok(parents)
    ensures Walk(overlays, name, {}) == Finish(overlays, name, WalkAll(overlays, name, parents, {name}))
  {
    assert {} + {name} == {name};
  }

  /** What a finished walk resolves to. */
  lemma ResolveIsFinish(overlays: Registry, name: string, r: WalkResult)
    requires name in overlays && Walk(overlays, name, {}) == Finish(overlays, name, r)
    ensures r.Fail? ==> Resolve(overlays, name) == Err(r.error)
    ensures r.Done? && WellTyped(overlays, name) ==>
              Resolve(overlays, name)
              == Ok((FirstOccurrences(Gather(overlays, r.order + [name], Packs)),
                     FirstOccurrences(Gather(overlays, r.order + [name], ExcludeRules))))
    ensures r.Done? && !WellTyped(overlays, name) ==>
              Resolve(overlays, name)
              == Err(if OverlayField(overlays, name, Packs).Err? then OverlayField(overlays, name, Packs).error
                     else OverlayField(overlays, name, ExcludeRules).error)
  {}

  ghost predicate WellTyped(overlays: Registry, name: string)
    requires name in overlays
  {
    OverlayField(overlays, name, Packs).Ok? && OverlayField(overlays, name, ExcludeRules).Ok?
  }

  /** The equation in terms of the fields as they are read. */
  lemma UnfoldedFails(overlays: Registry, name: string, parents: seq<string>)
    requires name in overlays && OverlayField(overlays, name, Extends) == Ok(parents)
    ensures var r := ParentsResolved(Cut(overlays, name), name, parents);
            && (r.Err? ==> Unfolded(overlays, name) == Err(r.error))
            && (r.Ok? && !WellTyped(overlays, name) ==>
                  Unfolded(overlays, name)
                  == Err(if OverlayField(overlays, name, Packs).Err? then OverlayField(overlays, name, Packs).error
                         else OverlayField(overlays, name, ExcludeRules).error))
  {}

  lemma UnfoldedSums(overlays: Registry, name: string, parents: seq<string>)
    requires name in overlays && OverlayField(overlays, name, Extends) == Ok(parents) && WellTyped(overlays, name)
    requires ParentsResolved(Cut(overlays, name), name, parents).Ok?
    ensures var inherited := ParentsResolved(Cut(overlays, name), name, parents).value;
            Unfolded(overlays, name)
            == Ok((FirstOccurrences(inherited.0 + Entries(overlays, name, Packs)),
                   FirstOccurrences(inherited.1 + Entries(overlays, name, ExcludeRules))))
  {}

  /** Resolution unfolds: on every graph, to the same entries in the same order or to the same error. */
  lemma ResolveUnfolds(overlays: Registry, name: string)
    ensures Resolve(overlays, name) == Unfolded(overlays, name)
  {
    if name in overlays && OverlayField(overlays, name, Extends).Ok? {
      ParentsUnfold(overlays, name, OverlayField(overlays, name, Extends).value);
    }
  }

  lemma ParentsUnfold(overlays: Registry, name: string, parents: seq<string>)
    requires name in overlays && OverlayField(overlays, name, Extends) == Ok(parents)
    ensures Resolve(overlays, name) == Unfolded(overlays, name)
  {
    WalkOfTop(overlays, name, parents);
    ResolveIsFinish(overlays, name, WalkAll(overlays, name, parents, {name}));
    ParentsFail(overlays, name, parents);
    UnfoldedFails(overlays, name, parents);
    if ParentsResolved(Cut(overlays, name), name, parents).Ok? && WellTyped(overlays, name) {
      UnfoldedSums(overlays, name, parents);
      UnfoldsBy(overlays, name, parents, Packs);
      UnfoldsBy(overlays, name, parents, ExcludeRules);
    }
  }

  lemma UnfoldsBy(overlays: Registry, name: string, parents: seq<string>, field: FieldName)
    requires name in overlays && field != Extends
    requires ParentsResolved(Cut(overlays, name), name, parents).Ok?
    ensures var r := WalkAll(overlays, name, parents, {name});
            && r.Done?
            && FirstOccurrences(Gather(overlays, r.order + [name], field))
               == FirstOccurrences(
                    Inherited(Cut(overlays, name), name, parents, field) + Entries(overlays, name, field))
  {
    ParentsGather(overlays, name, parents, field);
    OwnComesLast(
      overlays, name, WalkAll(overlays, name, parents, {name}).order,
      Inherited(Cut(overlays, name), name, parents, field), field);
  }

  // ------------------------------------------------------------------- without a cycle through the overlay

  lemma {:induction false} CutWalksAlike(overlays: Registry, name: string, m: string, seen: set<string>)
    requires name in overlays && m in overlays && !Reaches(overlays, m, name)
    ensures Walk(Cut(overlays, name), m, seen) == Walk(overlays, m, seen)
    decreases |overlays.Keys - seen|, 0
  {
    ReachesSelf(overlays, m);
    assert Cut(overlays, name).Keys == overlays.Keys;
    if m !in seen && OverlayField(overlays, m, Extends).Ok? {
      FewerUnseen(overlays, seen, seen + {m}, m);
      forall p | p in Parents(overlays, m)
        ensures !Reaches(overlays, p, name)
      {
        if Reaches(overlays, p, name) {
          ReachesFromChild(overlays, m, p, name);
        }
      }
      var parents := Parents(overlays, m);
      CutWalksAllAlike(overlays, name, m, parents, seen + {m});
      WalkFinishes(overlays, m, parents, seen);
      WalkFinishes(Cut(overlays, name), m, parents, seen);
      FinishAlike(overlays, name, m, WalkAll(overlays, m, parents, seen + {m}));
    }
  }

  lemma WalkFinishes(overlays: Registry, m: string, parents: seq<string>, seen: set<string>)
    requires m in overlays && m !in seen && OverlayField(overlays, m, Extends) == Ok(parents)
    ensures Walk(overlays, m, seen) == Finish(overlays, m, WalkAll(overlays, m, parents, seen + {m}))
  {}

  lemma FinishAlike(overlays: Registry, name: string, m: string, r: WalkResult)
    requires m in overlays && m != name
    ensures Finish(Cut(overlays, name), m, r) == Finish(overlays, m, r)
  {}

  lemma {:induction false} CutWalksAllAlike(
      overlays: Registry, name: string, child: string, parents: seq<string>, seen: set<string>)
    requires name in overlays && forall p <- parents :: !Reaches(overlays, p, name)
    ensures WalkAll(Cut(overlays, name), child, parents, seen) == WalkAll(overlays, child, parents, seen)
    decreases |overlays.Keys - seen|, |parents| + 1
  {
    if parents != [] && parents[0] in overlays {
      CutWalksAlike(overlays, name, parents[0], seen);
      var r := Walk(overlays, parents[0], seen);
      if r.Done? {
        NoMoreUnseen(overlays, seen, r.seen);
        CutWalksAllAlike(overlays, name, child, parents[1..], r.seen);
      }
    }
  }

  /** What does not lead back to the overlay resolves alike without it. */
  lemma CutResolvesAlike(overlays: Registry, name: string, m: string)
    requires name in overlays && m in overlays && !Reaches(overlays, m, name)
    ensures Resolve(Cut(overlays, name), m) == Resolve(overlays, m)
  {
    CutWalksAlike(overlays, name, m, {});
    if Resolve(overlays, m).Ok? {
      WalkExplores(overlays, m, {});
      var order := Walk(overlays, m, {}).order;
      CutGathers(overlays, name, order, Packs);
      CutGathers(overlays, name, order, ExcludeRules);
    }
  }

  lemma {:induction false} CutParentsAlike(overlays: Registry, name: string, child: string, parents: seq<string>)
    requires name in overlays && forall p <- parents :: !Reaches(overlays, p, name)
    ensures ParentsResolved(Cut(overlays, name), child, parents) == ParentsResolved(overlays, child, parents)
  {
    if parents != [] && parents[0] in overlays {
      CutResolvesAlike(overlays, name, parents[0]);
      CutParentsAlike(overlays, name, child, parents[1..]);
    }
  }

  /** An overlay that none of its parents lead back to is the sum of them, in their order, and its own. */
  lemma ResolvesToSum(overlays: Registry, name: string, field: FieldName)
    requires Resolve(overlays, name).Ok? && field != Extends
    requires !ReachedFrom(overlays, Parents(overlays, name), name)
    ensures ParentsResolved(overlays, name, Parents(overlays, name)).Ok?
    ensures Resolved(overlays, name, field)
         == FirstOccurrences(
              Inherited(overlays, name, Parents(overlays, name), field) + Entries(overlays, name, field))
  {
    ResolveUnfolds(overlays, name);
    CutParentsAlike(overlays, name, name, Parents(overlays, name));
  }

  // ------------------------------------------------------------------- siblings

  /** One of some parents brings the entry. */
  ghost predicate Brings(overlays: Registry, parents: seq<string>, field: FieldName, v: string)
    requires field != Extends
  {
    exists p :: p in parents && Resolve(overlays, p).Ok? && v in Resolved(overlays, p, field)
  }

  lemma InheritedFirst(overlays: Registry, child: string, parents: seq<string>, field: FieldName)
    requires parents != [] && field != Extends && ParentsResolved(overlays, child, parents).Ok?
    ensures Resolve(overlays, parents[0]).Ok? && ParentsResolved(overlays, child, parents[1..]).Ok?
    ensures Inherited(overlays, child, parents, field)
         == Resolved(overlays, parents[0], field) + Inherited(overlays, child, parents[1..], field)
  {}

  lemma {:induction false} InheritedHas(
      overlays: Registry, child: string, parents: seq<string>, field: FieldName, v: string)
    requires ParentsResolved(overlays, child, parents).Ok? && field != Extends
    ensures v in Inherited(overlays, child, parents, field) <==> Brings(overlays, parents, field, v)
  {
    if parents != [] {
      InheritedFirst(overlays, child, parents, field);
      InheritedHas(overlays, child, parents[1..], field, v);
      assert forall p :: p in parents <==> p == parents[0] || p in parents[1..];
    }
  }

  lemma ParentsSplit(overlays: Registry, child: string, p: string, rest: seq<string>)
    ensures ParentsResolved(overlays, child, [p] + rest).Ok?
       <==> p in overlays && Resolve(overlays, p).Ok? && ParentsResolved(overlays, child, rest).Ok?
  {
    assert ([p] + rest)[1..] == rest;
  }

  lemma {:induction false} InheritedSplits(
      overlays: Registry, child: string, a: seq<string>, b: seq<string>, field: FieldName)
    requires ParentsResolved(overlays, child, a + b).Ok? && field != Extends
    ensures ParentsResolved(overlays, child, a).Ok? && ParentsResolved(overlays, child, b).Ok?
    ensures Inherited(overlays, child, a + b, field)
         == Inherited(overlays, child, a, field) + Inherited(overlays, child, b, field)
  {
    if a == [] {
      assert a + b == b;
    } else {
      assert (a + b)[1..] == a[1..] + b && (a + b)[0] == a[0];
      assert a == [a[0]] + a[1..] && a + b == [a[0]] + (a[1..] + b);
      ParentsSplit(overlays, child, a[0], a[1..] + b);
      ParentsSplit(overlays, child, a[0], a[1..]);
      InheritedFirst(overlays, child, a + b, field);
      InheritedSplits(overlays, child, a[1..], b, field);
      InheritedFirst(overlays, child, a, field);
      SumSplits(Resolved(overlays, a[0], field), Inherited(overlays, child, a[1..], field),
                Inherited(overlays, child, b, field));
    }
  }

  lemma SumSplits(a: seq<string>, b: seq<string>, c: seq<string>)
    ensures a + (b + c) == a + b + c
  {}

  lemma {:induction false} FirstsOfMore(a: seq<string>, b: seq<string>)
    ensures FirstOccurrences(a) <= FirstOccurrences(a + b)
  {
    if b == [] {
      assert a + b == a;
    } else {
      FirstsOfMore(a, b[..|b| - 1]);
      assert (a + b)[..|a + b| - 1] == a + b[..|b| - 1];
    }
  }

  /** `x` stands before `y`. */
  ghost predicate StandsBefore(s: seq<string>, x: string, y: string) {
    exists i, j :: 0 <= i < j < |s| && s[i] == x && s[j] == y
  }

  lemma FirstsKeepOrder(a: seq<string>, b: seq<string>, x: string, y: string)
    requires x in a && y !in a && y in b
    ensures StandsBefore(FirstOccurrences(a + b), x, y)
  {
    FirstsOfMore(a, b);
    AppendNewIsFirstOccurrences(a);
    AppendNewIsFirstOccurrences(a + b);
    var firsts, all := FirstOccurrences(a), FirstOccurrences(a + b);
    assert x in firsts && y in a + b && y in all;
    var i :| 0 <= i < |firsts| && firsts[i] == x;
    var j :| 0 <= j < |all| && all[j] == y;
    PrefixHas(firsts, all, j);
  }

  lemma PrefixHas(a: seq<string>, b: seq<string>, j: nat)
    requires a <= b && j < |b|
    ensures j < |a| ==> b[j] in a
  {
    if j < |a| {
      assert b[j] == a[j];
    }
  }

  /**
    The parents of an overlay count in the order in which they are listed: what a parent brings stands
    before what only a later one brings, and all of it before what only the overlay itself declares.
   */
  lemma SiblingsKeepOrder(overlays: Registry, name: string, field: FieldName, i: nat, x: string, y: string)
    requires Resolve(overlays, name).Ok? && field != Extends
    requires !ReachedFrom(overlays, Parents(overlays, name), name)
    requires i <= |Parents(overlays, name)| && y in Resolved(overlays, name, field)
    requires Brings(overlays, Parents(overlays, name)[..i], field, x)
    requires !Brings(overlays, Parents(overlays, name)[..i], field, y)
    ensures StandsBefore(Resolved(overlays, name, field), x, y)
  {
    var first, rest := SumFrom(overlays, name, field, i);
    InheritedHas(overlays, name, Parents(overlays, name)[..i], field, x);
    InheritedHas(overlays, name, Parents(overlays, name)[..i], field, y);
    SplitAtSibling(first, rest, x, y);
  }

  lemma SumFrom(overlays: Registry, name: string, field: FieldName, i: nat)
    returns (first: seq<string>, rest: seq<string>)
    requires Resolve(overlays, name).Ok? && field != Extends
    requires !ReachedFrom(overlays, Parents(overlays, name), name) && i <= |Parents(overlays, name)|
    ensures ParentsResolved(overlays, name, Parents(overlays, name)[..i]).Ok?
    ensures first == Inherited(overlays, name, Parents(overlays, name)[..i], field)
    ensures Resolved(overlays, name, field) == FirstOccurrences(first + rest)
  {
    var parents := Parents(overlays, name);
    var a, b := parents[..i], parents[i..];
    ResolvesToSum(overlays, name, field);
    assert parents == a + b;
    InheritedSplits(overlays, name, a, b, field);
    first := Inherited(overlays, name, a, field);
    rest := Inherited(overlays, name, b, field) + Entries(overlays, name, field);
    SumSplits(first, Inherited(overlays, name, b, field), Entries(overlays, name, field));
  }

  lemma SplitAtSibling(first: seq<string>, rest: seq<string>, x: string, y: string)
    requires x in first && y !in first && y in FirstOccurrences(first + rest)
    ensures StandsBefore(FirstOccurrences(first + rest), x, y)
  {
    AppendNewIsFirstOccurrences(first + rest);
    FirstsKeepOrder(first, rest, x, y);
  }
}
