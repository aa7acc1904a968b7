/**
  `rules_path` (thyn_security_toolchain/fetch.py), one installer at a time, crashed and started
  again at any step: in the middle of a download, of the extraction, of deleting the old
  directory, or between the rename and the completeness marker.
 */
module RulesInstaller {
  import opened Wrappers
  import opened Download
  import opened Archive

  /** The lock entry of a rules bundle, and the marker text written when it is installed. */
  datatype Bundle<!D> = Bundle(hash: Bytes -> D, sha256: D, decode: Bytes -> Option<seq<Member>>, stamp: Bytes)

  const MARKER: RelPath := [".complete"]

  datatype Installer =
    | Start
    | Fetching
    | Extracting(members: seq<Member>, next: nat, staging: Tree)
    | Deleting(members: seq<Member>, staging: Tree)              // inside rmtree(target)
    | Swapping(members: seq<Member>, staging: Tree)              // before os.replace
    | Marking                                                    // before marker.write_text
    | Stamping                                                   // the marker is created, still empty
    | Returned
    | Failed

  datatype Event =
    | LookUp(offline: bool)
    | Fetch(tarball: Option<Bytes>)   // `download_verified` returned a tarball, or raised
    | ExtractNext
    | CheckTarget                     // does the target directory exist?
    | Delete(path: RelPath)           // one step of rmtree
    | DeleteTop                       // its last step: the directory itself
    | Swap(ok: bool)
    | CreateMarker(ok: bool)
    | WriteMarker(ok: bool)
    | CrashAndRestart                 // at any time; a new installer starts from the beginning

  /** The target directory, absent or with what lies below it, and the running installer. */
  datatype State = State(target: Option<Tree>, installer: Installer)

  predicate HasMarker(target: Option<Tree>) {
    target.Some? && MARKER in target.value && target.value[MARKER].File?
  }

  /** rmtree empties directories before it removes them. */
  predicate IsLeaf(tree: Tree, path: RelPath) {
    path in tree && forall q <- tree :: !(path < q)
  }

  function Next<D(==)>(bundle: Bundle<D>, s: State, e: Event): State {
    match (s.installer, e)
    case (_, CrashAndRestart) => s.(installer := Start)
    case (Start, LookUp(offline)) =>
      s.(installer := if HasMarker(s.target) then Returned else if offline then Failed else Fetching)
    case (Fetching, Fetch(tarball)) =>
      if tarball.None? || bundle.hash(tarball.value) != bundle.sha256 then s.(installer := Failed)
      else
        (match bundle.decode(tarball.value)
         case None => s.(installer := Failed)
         case Some(members) => s.(installer := Extracting(members, 0, map[])))
    case (Extracting(members, next, staging), ExtractNext) =>
      if next >= |members| then s
      else
        (match ExtractMember(staging, members[next])
         case None => s.(installer := Failed)
         case Some(tree) => s.(installer := Extracting(members, next + 1, tree)))
    case (Extracting(members, next, staging), CheckTarget) =>
      if next < |members| then s
      else if s.target.Some? then s.(installer := Deleting(members, staging))
      else s.(installer := Swapping(members, staging))
    case (Deleting(members, staging), Delete(path)) =>
      if s.target.Some? && IsLeaf(s.target.value, path) then s.(target := Some(s.target.value - {path})) else s
    case (Deleting(members, staging), DeleteTop) =>
      if s.target == Some(map[]) then State(None, Swapping(members, staging)) else s
    case (Swapping(members, staging), Swap(ok)) =>
      if ok && s.target.None? then State(Some(staging), Marking) else s.(installer := Failed)
    case (Marking, CreateMarker(ok)) =>
      if ok && s.target.Some? && !(MARKER in s.target.value && s.target.value[MARKER].Folder?)
      then State(Some(s.target.value[MARKER := File([])]), Stamping)
      else s.(installer := Failed)
    case (Stamping, WriteMarker(ok)) =>
      if ok && s.target.Some? then State(Some(s.target.value[MARKER := File(bundle.stamp)]), Returned)
      else s.(installer := Failed)
    case _ => s
  }

  function Run<D(==)>(bundle: Bundle<D>, s: State, events: seq<Event>): State {
    if events == [] then s
    else Next(bundle, Run(bundle, s, events[..|events| - 1]), events[|events| - 1])
  }

  // ------------------------------------------------------------------- safety

  ghost predicate IsLocked<D>(bundle: Bundle<D>, members: seq<Member>) {
    exists tarball :: bundle.hash(tarball) == bundle.sha256 && bundle.decode(tarball) == Some(members)
  }

  /** `target` is the whole extraction of a digest-checked tarball, its marker aside. */
  ghost predicate IsComplete<D>(bundle: Bundle<D>, target: Tree) {
    exists members :: IsLocked(bundle, members) && Extract(members).Some?
                   && target - {MARKER} == Extract(members).value - {MARKER}
  }

  ghost predicate Safe<D>(bundle: Bundle<D>, s: State) {
    && (HasMarker(s.target) ==> IsComplete(bundle, s.target.value))
    && match s.installer
       case Start => true
       case Failed => true
       case Returned => HasMarker(s.target)
       case Fetching => !HasMarker(s.target)
       case Extracting(members, next, staging) =>
         && !HasMarker(s.target) && IsLocked(bundle, members)
         && next <= |members| && Extract(members[..next]) == Some(staging)
       case Deleting(members, staging) =>
         !HasMarker(s.target) && IsLocked(bundle, members) && Extract(members) == Some(staging)
       case Swapping(members, staging) =>
         !HasMarker(s.target) && IsLocked(bundle, members) && Extract(members) == Some(staging)
       case Marking => s.target.Some? && IsComplete(bundle, s.target.value)
       case Stamping => s.target.Some? && IsComplete(bundle, s.target.value)
  }

  lemma MarkerIsNotContent<D>(bundle: Bundle<D>, target: Tree, node: Node)
    requires IsComplete(bundle, target)
    ensures IsComplete(bundle, target[MARKER := node])
  {
    assert target[MARKER := node] - {MARKER} == target - {MARKER};
  }

  lemma StepIsSafe<D>(bundle: Bundle<D>, s: State, e: Event)
    requires Safe(bundle, s)
    ensures Safe(bundle, Next(bundle, s, e))
  {
    match (s.installer, e)
    case (Fetching, Fetch(Some(tarball))) =>
      if bundle.hash(tarball) == bundle.sha256 && bundle.decode(tarball).Some? {
        assert bundle.decode(tarball).value[..0] == [];
      }
    case (Extracting(members, next, staging), ExtractNext) =>
      if next < |members| {
        assert members[..next + 1][..next] == members[..next];
      }
    case (Extracting(members, next, staging), CheckTarget) =>
      if next == |members| {
        assert members[..next] == members;
      }
    case (Swapping(members, staging), Swap(true)) =>
      assert Extract(members).value - {MARKER} == staging - {MARKER};
    case (Marking, CreateMarker(true)) =>
      MarkerIsNotContent(bundle, s.target.value, File([]));
    case (Stamping, WriteMarker(true)) =>
      MarkerIsNotContent(bundle, s.target.value, File(bundle.stamp));
    case _ =>
  }

  lemma {:induction false} EveryRunIsSafe<D>(bundle: Bundle<D>, s: State, events: seq<Event>)
    requires Safe(bundle, s)
    ensures Safe(bundle, Run(bundle, s, events))
  {
    if events != [] {
      EveryRunIsSafe(bundle, s, events[..|events| - 1]);
      StepIsSafe(bundle, Run(bundle, s, events[..|events| - 1]), events[|events| - 1]);
    }
  }

  /**
    From an empty cache, after any events and crashes: the marker is there only if the target
    directory is the full extraction of a digest-checked tarball, path by path what the last
    accepted member there wrote; and an installer that has returned left the marker there.
   */
  lemma MarkerMeansComplete<D>(bundle: Bundle<D>, events: seq<Event>)
    ensures var s := Run(bundle, State(None, Start), events);
            && (s.installer == Returned ==> HasMarker(s.target))
            && (HasMarker(s.target) ==>
                  exists members :: IsLocked(bundle, members) && Consistent(members)
                    && forall p | p != MARKER ::
                         && (FileAt(s.target.value, p) == LastWriter(members, p))
                         && (p in s.target.value && s.target.value[p].Folder? <==> FolderNeeded(members, p)))
  {
    EveryRunIsSafe(bundle, State(None, Start), events);
    var s := Run(bundle, State(None, Start), events);
    if HasMarker(s.target) {
      var target := s.target.value;
      var members :| IsLocked(bundle, members) && Extract(members).Some?
                  && target - {MARKER} == Extract(members).value - {MARKER};
      ExtractExactly(members);
      var tree := Extract(members).value;
      forall p | p != MARKER
        ensures FileAt(target, p) == LastWriter(members, p)
        ensures p in target && target[p].Folder? <==> FolderNeeded(members, p)
      {
        assert p in target <==> p in target - {MARKER};
        assert p in tree <==> p in tree - {MARKER};
        assert p in target ==> target[p] == (target - {MARKER})[p] == (tree - {MARKER})[p] == tree[p];
      }
    }
  }

  function FileAt(tree: Tree, p: RelPath): Option<Bytes> {
    if p in tree && tree[p].File? then Some(tree[p].content) else None
  }
}
