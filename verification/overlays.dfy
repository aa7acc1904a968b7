/**
  Opengrep overlay resolution (thyn_security_toolchain/hooks.py).

  An overlay names rule packs and excluded rules, and may extend other overlays. Resolution
  is a depth-first walk of the `extends` graph, which is hand written and may be cyclic. The
  walk is modelled twice: as the function `Walk`, which yields the order in which overlays
  contribute, and as the class `OverlayWalk`, whose method mutates the shared `seen`, `packs`
  and `excludes` exactly as the nested `visit` does.
 */
module Overlays {
  import opened Wrappers
  import opened Seqs

  /** A JSON value found under a list-valued key: absent or falsy, a list of strings, or neither. */
  datatype Field = Falsy | Strings(values: seq<string>) | Malformed

  datatype Spec = NotAnObject | Object(parents: Field, packs: Field, excludeRules: Field)

  datatype FieldName = Extends | Packs | ExcludeRules

  datatype ScanError =
    | UnknownOverlay(name: string)
    | SpecNotAnObject(name: string)
    | FieldNotStrings(name: string, field: FieldName)
    | UnknownParent(child: string, parent: string)

  type Registry = map<string, Spec>

  function Select(spec: Spec, field: FieldName): Field
    requires spec.Object?
  {
    match field
    case Extends => spec.parents
    case Packs => spec.packs
    case ExcludeRules => spec.excludeRules
  }

  /** `_overlay_field`: one field of an overlay, or the defect that makes it unusable. */
  function OverlayField(overlays: Registry, name: string, field: FieldName): (r: Result<seq<string>, ScanError>)
    requires name in overlays
  {
    match overlays[name]
    case NotAnObject => Err(SpecNotAnObject(name))
    case Object(_, _, _) =>
      match Select(overlays[name], field)
      case Falsy => Ok([])
      case Strings(values) => Ok(values)
      case Malformed => Err(FieldNotStrings(name, field))
  }

  /** The entries of a field, empty where the field cannot be read. */
  function Entries(overlays: Registry, name: string, field: FieldName): seq<string> {
    if name in overlays && OverlayField(overlays, name, field).Ok?
    then OverlayField(overlays, name, field).value
    else []
  }

  function Parents(overlays: Registry, name: string): seq<string> {
    Entries(overlays, name, Extends)
  }

  predicate WellFormed(overlays: Registry, name: string) {
    && name in overlays
    && OverlayField(overlays, name, Extends).Ok?
    && OverlayField(overlays, name, Packs).Ok?
    && OverlayField(overlays, name, ExcludeRules).Ok?
    && forall parent <- Parents(overlays, name) :: parent in overlays
  }

  // ------------------------------------------------------------------- the walk as a function

  /** Either the first error met, or the grown `seen` and the overlays finished, oldest first. */
  datatype WalkResult = Fail(error: ScanError) | Done(seen: set<string>, order: seq<string>)

  function Before(order: seq<string>, r: WalkResult): WalkResult {
    match r
    case Fail(_) => r
    case Done(seen, later) => Done(seen, order + later)
  }

  function Finish(overlays: Registry, name: string, r: WalkResult): WalkResult
    requires name in overlays
  {
    match r
    case Fail(_) => r
    case Done(seen, order) =>
      match OverlayField(overlays, name, Packs)
      case Err(e) => Fail(e)
      case Ok(_) =>
        match OverlayField(overlays, name, ExcludeRules)
        case Err(e) => Fail(e)
        case Ok(_) => Done(seen, order + [name])
  }

  function Walk(overlays: Registry, name: string, seen: set<string>): (r: WalkResult)
    requires name in overlays
    ensures r.Done? ==> seen <= r.seen
    decreases |overlays.Keys - seen|, 0
  {
    if name in seen then Done(seen, [])
    else
      match OverlayField(overlays, name, Extends)
      case Err(e) => Fail(e)
      case Ok(parents) =>
        FewerUnseen(overlays, seen, seen + {name}, name);
        Finish(overlays, name, WalkAll(overlays, name, parents, seen + {name}))
  }

  function WalkAll(overlays: Registry, child: string, parents: seq<string>, seen: set<string>): (r: WalkResult)
    ensures r.Done? ==> seen <= r.seen
    decreases |overlays.Keys - seen|, |parents| + 1
  {
    if parents == [] then Done(seen, [])
    else if parents[0] !in overlays then Fail(UnknownParent(child, parents[0]))
    else
      match Walk(overlays, parents[0], seen)
      case Fail(e) => Fail(e)
      case Done(seen', order) =>
        NoMoreUnseen(overlays, seen, seen');
        Before(order, WalkAll(overlays, child, parents[1..], seen'))
  }

  lemma NoMoreUnseen(overlays: Registry, seen: set<string>, seen': set<string>)
    requires seen <= seen'
    ensures |overlays.Keys - seen'| <= |overlays.Keys - seen|
  {
    Subset(overlays.Keys - seen', overlays.Keys - seen);
  }

  lemma FewerUnseen(overlays: Registry, seen: set<string>, seen': set<string>, name: string)
    requires seen + {name} <= seen' && name in overlays && name !in seen
    ensures |overlays.Keys - seen'| < |overlays.Keys - seen|
  {
    Subset(overlays.Keys - seen', overlays.Keys - seen - {name});
  }

  lemma Subset<T>(a: set<T>, b: set<T>)
    requires a <= b
    ensures |a| <= |b|
  {
    assert a + (b - a) == b;
  }

  /** Values appended one at a time unless already present, as both inner loops of `visit` do. */
  function AppendNew(acc: seq<string>, values: seq<string>): seq<string>
    decreases |values|
  {
    if values == [] then acc
    else AppendNew(if values[0] in acc then acc else acc + [values[0]], values[1..])
  }

  /** The entries that are not preceded by an equal entry. */
  function FirstOccurrences(values: seq<string>): seq<string> {
    FirstBy(values, Itself<string>)
  }

  function Gather(overlays: Registry, order: seq<string>, field: FieldName): seq<string> {
    if order == [] then []
    else Entries(overlays, order[0], field) + Gather(overlays, order[1..], field)
  }

  /** What `resolve_overlay` returns or raises. */
  function Resolve(overlays: Registry, name: string): Result<(seq<string>, seq<string>), ScanError> {
    if name !in overlays then Err(UnknownOverlay(name))
    else
      match Walk(overlays, name, {})
      case Fail(e) => Err(e)
      case Done(_, order) =>
        Ok((FirstOccurrences(Gather(overlays, order, Packs)),
            FirstOccurrences(Gather(overlays, order, ExcludeRules))))
  }

  // ------------------------------------------------------------------- the walk as it is coded

  class OverlayWalk {
    const overlays: Registry
    var packs: seq<string>
    var excludes: seq<string>
    var seen: set<string>

    constructor (overlays: Registry)
      ensures this.overlays == overlays
      ensures packs == [] && excludes == [] && seen == {}
    {
      this.overlays := overlays;
      packs, excludes, seen := [], [], {};
    }

    /** Returns the error raised, if any; on success the three fields have grown as `Walk` says. */
    method Visit(name: string) returns (error: Option<ScanError>)
      requires name in overlays
      modifies this
      ensures match Walk(overlays, name, old(seen))
              case Fail(e) => error == Some(e)
              case Done(seen', order) =>
                && error == None
                && seen == seen'
                && packs == AppendNew(old(packs), Gather(overlays, order, Packs))
                && excludes == AppendNew(old(excludes), Gather(overlays, order, ExcludeRules))
      decreases |overlays.Keys - seen|
    {
      if name in seen {
        return None;
      }
      ghost var walk := Walk(overlays, name, seen);
      seen := seen + {name};
      FewerUnseen(overlays, old(seen), seen, name);
      var parents := OverlayField(overlays, name, Extends);
      if parents.Err? {
        return Some(parents.error);
      }
      ghost var all := WalkAll(overlays, name, parents.value, seen);
      ghost var order: seq<string> := [];
      var i := 0;
      while i < |parents.value|
        invariant 0 <= i <= |parents.value|
        invariant old(seen) + {name} <= seen
        invariant all == Before(order, WalkAll(overlays, name, parents.value[i..], seen))
        invariant packs == AppendNew(old(packs), Gather(overlays, order, Packs))
        invariant excludes == AppendNew(old(excludes), Gather(overlays, order, ExcludeRules))
      {
        var parent := parents.value[i];
        if parent !in overlays {
          return Some(UnknownParent(name, parent));
        }
        FewerUnseen(overlays, old(seen), seen, name);
        ghost var step := Walk(overlays, parent, seen);
        ghost var before, packs0, excludes0 := order, packs, excludes;
        var failed := Visit(parent);
        if failed.Some? {
          return failed;
        }
        order := order + step.order;
        GatherJoins(overlays, before, step.order, Packs, old(packs));
        GatherJoins(overlays, before, step.order, ExcludeRules, old(excludes));
        assert parents.value[i..][1..] == parents.value[i + 1..];
        BeforeJoins(before, step.order, WalkAll(overlays, name, parents.value[i + 1..], seen));
        i := i + 1;
      }
      assert all == Done(seen, order) by { assert order + [] == order; }
      error := AddOwn(name);
      GatherJoins(overlays, order, [name], Packs, old(packs));
      GatherJoins(overlays, order, [name], ExcludeRules, old(excludes));
    }

    /** The overlay's own entries, once its parents have contributed theirs. */
    method AddOwn(name: string) returns (error: Option<ScanError>)
      requires name in overlays
      modifies this`packs, this`excludes
      ensures OverlayField(overlays, name, Packs).Err? ==> error == Some(OverlayField(overlays, name, Packs).error)
      ensures OverlayField(overlays, name, Packs).Ok? && OverlayField(overlays, name, ExcludeRules).Err? ==>
                error == Some(OverlayField(overlays, name, ExcludeRules).error)
      ensures OverlayField(overlays, name, Packs).Ok? && OverlayField(overlays, name, ExcludeRules).Ok? ==>
                && error == None
                && packs == AppendNew(old(packs), Gather(overlays, [name], Packs))
                && excludes == AppendNew(old(excludes), Gather(overlays, [name], ExcludeRules))
    {
      var own := OverlayField(overlays, name, Packs);
      if own.Err? {
        return Some(own.error);
      }
      packs := AppendMissing(packs, own.value);
      var rules := OverlayField(overlays, name, ExcludeRules);
      if rules.Err? {
        return Some(rules.error);
      }
      excludes := AppendMissing(excludes, rules.value);
      assert Gather(overlays, [name], Packs) == own.value + [] == own.value;
      assert Gather(overlays, [name], ExcludeRules) == rules.value + [] == rules.value;
      return None;
    }
  }

  /** The loop over an overlay's own entries: each is appended unless it is there already. */
  method AppendMissing(acc: seq<string>, values: seq<string>) returns (r: seq<string>)
    ensures r == AppendNew(acc, values)
  {
    r := acc;
    var i := 0;
    while i < |values|
      invariant 0 <= i <= |values|
      invariant AppendNew(r, values[i..]) == AppendNew(acc, values)
    {
      assert values[i..][1..] == values[i + 1..];
      if values[i] !in r {
        r := r + [values[i]];
      }
      i := i + 1;
    }
  }

  method ResolveOverlay(overlays: Registry, name: string) returns (r: Result<(seq<string>, seq<string>), ScanError>)
    ensures r == Resolve(overlays, name)
  {
    if name !in overlays {
      return Err(UnknownOverlay(name));
    }
    var walk := new OverlayWalk(overlays);
    var error := walk.Visit(name);
    if error.Some? {
      return Err(error.value);
    }
    ghost var order := Walk(overlays, name, {}).order;
    AppendNewIsFirstOccurrences(Gather(overlays, order, Packs));
    AppendNewIsFirstOccurrences(Gather(overlays, order, ExcludeRules));
    return Ok((walk.packs, walk.excludes));
  }

  lemma BeforeJoins(a: seq<string>, b: seq<string>, r: WalkResult)
    ensures Before(a, Before(b, r)) == Before(a + b, r)
  {
    if r.Done? {
      assert a + (b + r.order) == a + b + r.order;
    }
  }

  lemma {:induction false} AppendNewSplits(acc: seq<string>, a: seq<string>, b: seq<string>)
    ensures AppendNew(acc, a + b) == AppendNew(AppendNew(acc, a), b)
    decreases |a|
  {
    if a == [] {
      assert a + b == b;
    } else {
      assert (a + b)[1..] == a[1..] + b;
      AppendNewSplits(if a[0] in acc then acc else acc + [a[0]], a[1..], b);
    }
  }

  lemma {:induction false} GatherSplits(overlays: Registry, a: seq<string>, b: seq<string>, field: FieldName)
    ensures Gather(overlays, a + b, field) == Gather(overlays, a, field) + Gather(overlays, b, field)
  {
    if a == [] {
      assert a + b == b;
    } else {
      assert (a + b)[1..] == a[1..] + b;
      GatherSplits(overlays, a[1..], b, field);
    }
  }

  lemma GatherJoins(overlays: Registry, a: seq<string>, b: seq<string>, field: FieldName, acc: seq<string>)
    ensures AppendNew(acc, Gather(overlays, a + b, field))
         == AppendNew(AppendNew(acc, Gather(overlays, a, field)), Gather(overlays, b, field))
  {
    GatherSplits(overlays, a, b, field);
    AppendNewSplits(acc, Gather(overlays, a, field), Gather(overlays, b, field));
  }

  lemma {:induction false} AppendNewIsFirstOccurrences(values: seq<string>)
    ensures AppendNew([], values) == FirstOccurrences(values)
    ensures forall v :: v in FirstOccurrences(values) <==> v in values
  {
    if values != [] {
      var init, last := values[..|values| - 1], values[|values| - 1];
      assert values == init + [last];
      AppendNewSplits([], init, [last]);
      AppendNewIsFirstOccurrences(init);
      var kept := AppendNew([], init);
      assert KeyIn(init, Itself<string>, last) <==> last in init;
      assert AppendNew(kept, [last]) == AppendNew(if last in kept then kept else kept + [last], []);
    }
  }
}
