/**
  That `rules_path` gets done (thyn_security_toolchain/fetch.py): whatever crashes have left behind, an
  installer that is started again and meets no failure returns with the whole bundle in place.
 */
module RulesProgress {
  import opened Wrappers
  import opened Download
  import opened Archive
  import opened RulesInstaller

  /** What an installer meets that is online, is sent this tarball, and is stopped by nothing. */
  predicate IsSmooth(e: Event, tarball: Bytes) {
    match e
    case LookUp(offline) => !offline
    case Fetch(reply) => reply == Some(tarball)
    case Swap(ok) => ok
    case CreateMarker(ok) => ok
    case WriteMarker(ok) => ok
    case CrashAndRestart => false
    case _ => true
  }

  ghost predicate AreSmooth(events: seq<Event>, tarball: Bytes) {
    forall e <- events :: IsSmooth(e, tarball)
  }

  lemma {:induction false} RunJoins<D>(bundle: Bundle<D>, s: State, a: seq<Event>, b: seq<Event>)
    ensures Run(bundle, s, a + b) == Run(bundle, Run(bundle, s, a), b)
  {
    if b == [] {
      assert a + b == a;
    } else {
      var init := b[..|b| - 1];
      RunJoins(bundle, s, a, init);
      assert (a + b)[..|a + b| - 1] == a + init;
    }
  }

  lemma RunOne<D>(bundle: Bundle<D>, s: State, e: Event)
    ensures Run(bundle, s, [e]) == Next(bundle, s, e)
  {
    assert [e][..0] == [];
    assert Run(bundle, s, []) == s;
  }

  lemma RunThen<D>(bundle: Bundle<D>, s: State, events: seq<Event>, e: Event)
    ensures Run(bundle, s, events + [e]) == Next(bundle, Run(bundle, s, events), e)
  {
    RunJoins(bundle, s, events, [e]);
    RunOne(bundle, Run(bundle, s, events), e);
  }

  // ------------------------------------------------------------------- the steps on the way

  lemma PrefixExtracts(members: seq<Member>, n: nat)
    requires n <= |members| && Extract(members).Some?
    ensures Extract(members[..n]).Some?
  {
    if Extract(members[..n]).None? {
      ExtractFailsEarly(members, n);
    }
  }

  /** Member after member, the staging directory becomes the extraction. */
  lemma {:induction false} Extracts<D>(bundle: Bundle<D>, target: Option<Tree>, members: seq<Member>, n: nat)
    returns (events: seq<Event>)
    requires n <= |members| && Extract(members).Some?
    ensures Extract(members[..n]).Some? && forall e <- events :: e == ExtractNext
    ensures Run(bundle, State(target, Extracting(members, 0, map[])), events)
         == State(target, Extracting(members, n, Extract(members[..n]).value))
  {
    PrefixExtracts(members, n);
    if n == 0 {
      events := [];
    } else {
      var init := Extracts(bundle, target, members, n - 1);
      events := init + [ExtractNext];
      assert members[..n][..n - 1] == members[..n - 1];
      RunThen(bundle, State(target, Extracting(members, 0, map[])), init, ExtractNext);
    }
  }

  /** A path of the greatest length has nothing below it. */
  lemma {:induction false} LeafExists(tree: Tree, paths: set<RelPath>) returns (leaf: RelPath)
    requires paths != {} && paths <= tree.Keys
    ensures leaf in paths && forall q <- paths :: |q| <= |leaf|
    decreases paths
  {
    var path :| path in paths;
    leaf := path;
    if paths != {path} {
      var other := LeafExists(tree, paths - {path});
      if |other| > |path| {
        leaf := other;
      }
    }
  }

  /** Leaf after leaf, an old directory is gone. */
  lemma {:induction false} Deletes<D>(bundle: Bundle<D>, members: seq<Member>, staging: Tree, tree: Tree)
    returns (events: seq<Event>)
    ensures forall e <- events :: e.Delete? || e.DeleteTop?
    ensures Run(bundle, State(Some(tree), Deleting(members, staging)), events)
         == State(None, Swapping(members, staging))
    decreases |tree|
  {
    var s := State(Some(tree), Deleting(members, staging));
    if tree == map[] {
      events := [DeleteTop];
      RunOne(bundle, s, DeleteTop);
    } else {
      var leaf := LeafExists(tree, tree.Keys);
      var less := tree - {leaf};
      assert less.Keys == tree.Keys - {leaf};
      var rest := Deletes(bundle, members, staging, less);
      events := [Delete(leaf)] + rest;
      RunOne(bundle, s, Delete(leaf));
      RunJoins(bundle, s, [Delete(leaf)], rest);
    }
  }

  /** From a finished extraction to the swap, with or without an old directory. */
  lemma Clears<D>(bundle: Bundle<D>, target: Option<Tree>, members: seq<Member>, staging: Tree)
    returns (events: seq<Event>)
    ensures forall e <- events :: e.CheckTarget? || e.Delete? || e.DeleteTop?
    ensures Run(bundle, State(target, Extracting(members, |members|, staging)), events)
         == State(None, Swapping(members, staging))
  {
    var s := State(target, Extracting(members, |members|, staging));
    RunOne(bundle, s, CheckTarget);
    if target.Some? {
      var rest := Deletes(bundle, members, staging, target.value);
      events := [CheckTarget] + rest;
      RunJoins(bundle, s, [CheckTarget], rest);
    } else {
      events := [CheckTarget];
    }
  }

  /** From the swap to the marker. */
  lemma Finishes<D>(bundle: Bundle<D>, members: seq<Member>, staging: Tree)
    requires !(MARKER in staging && staging[MARKER].Folder?)
    ensures Run(bundle, State(None, Swapping(members, staging)), [Swap(true), CreateMarker(true), WriteMarker(true)])
         == State(Some(staging[MARKER := File(bundle.stamp)]), Returned)
  {
    var s := State(None, Swapping(members, staging));
    RunOne(bundle, s, Swap(true));
    RunThen(bundle, s, [Swap(true)], CreateMarker(true));
    RunThen(bundle, s, [Swap(true)] + [CreateMarker(true)], WriteMarker(true));
    assert [Swap(true)] + [CreateMarker(true)] + [WriteMarker(true)]
        == [Swap(true), CreateMarker(true), WriteMarker(true)];
    assert staging[MARKER := File([])][MARKER := File(bundle.stamp)] == staging[MARKER := File(bundle.stamp)];
  }

  // ------------------------------------------------------------------- progress

  /** The tarball is the locked one, and its extraction leaves room for the marker. */
  ghost predicate Installs<D>(bundle: Bundle<D>, tarball: Bytes, members: seq<Member>) {
    && bundle.hash(tarball) == bundle.sha256 && bundle.decode(tarball) == Some(members)
    && Consistent(members) && !FolderNeeded(members, MARKER)
  }

  /** Without a marker the installer fetches, extracts, clears, swaps and stamps. */
  lemma FreshInstall<D>(bundle: Bundle<D>, target: Option<Tree>, tarball: Bytes, members: seq<Member>)
    returns (events: seq<Event>)
    requires Installs(bundle, tarball, members) && !HasMarker(target)
    ensures AreSmooth(events, tarball) && Extract(members).Some?
    ensures Run(bundle, State(target, Start), events)
         == State(Some(Extract(members).value[MARKER := File(bundle.stamp)]), Returned)
  {
    ExtractExactly(members);
    var s, staging := State(target, Start), Extract(members).value;
    var lead := [LookUp(false)] + [Fetch(Some(tarball))];
    RunOne(bundle, s, LookUp(false));
    RunThen(bundle, s, [LookUp(false)], Fetch(Some(tarball)));
    var extracts := Extracts(bundle, target, members, |members|);
    assert members[..|members|] == members;
    RunJoins(bundle, s, lead, extracts);
    var clears := Clears(bundle, target, members, staging);
    RunJoins(bundle, s, lead + extracts, clears);
    var last := [Swap(true), CreateMarker(true), WriteMarker(true)];
    Finishes(bundle, members, staging);
    RunJoins(bundle, s, lead + extracts + clears, last);
    events := lead + extracts + clears + last;
  }

  /**
    From any state at all, after a crash and a restart, there is a run without a failure to a return
    with the marker: at once if it is there, and else with the extraction of the tarball sent in place.
   */
  lemma InstallerFinishes<D>(bundle: Bundle<D>, s: State, tarball: Bytes, members: seq<Member>)
    returns (events: seq<Event>)
    requires Installs(bundle, tarball, members)
    ensures AreSmooth(events, tarball) && Extract(members).Some?
    ensures var r := Run(bundle, s, [CrashAndRestart] + events);
            && r.installer == Returned
            && r.target == if HasMarker(s.target) then s.target
                           else Some(Extract(members).value[MARKER := File(bundle.stamp)])
  {
    ExtractExactly(members);
    RunOne(bundle, s, CrashAndRestart);
    if HasMarker(s.target) {
      events := [LookUp(false)];
      RunOne(bundle, State(s.target, Start), LookUp(false));
    } else {
      events := FreshInstall(bundle, s.target, tarball, members);
    }
    RunJoins(bundle, s, [CrashAndRestart], events);
  }

  /** A complete bundle is returned as it is, and offline nothing is fetched. */
  lemma LookUpDecides<D>(bundle: Bundle<D>, s: State, offline: bool)
    requires s.installer == Start
    ensures Next(bundle, s, LookUp(offline)).target == s.target
    ensures Next(bundle, s, LookUp(offline)).installer == Returned <==> HasMarker(s.target)
    ensures Next(bundle, s, LookUp(offline)).installer == Failed <==> !HasMarker(s.target) && offline
  {}

  // ------------------------------------------------------------------- and only then

  /** Some tarball installs. */
  ghost predicate CanInstall<D>(bundle: Bundle<D>) {
    exists tarball, members :: Installs(bundle, tarball, members)
  }

  /** What a marker takes to be written. */
  ghost predicate IsEarned<D>(bundle: Bundle<D>, s: State) {
    && (HasMarker(s.target) || s.installer == Stamping || s.installer == Returned ==> CanInstall(bundle))
    && (s.installer == Marking ==>
          exists members :: IsLocked(bundle, members) && Extract(members).Some?
                         && s.target == Some(Extract(members).value))
  }

  lemma LockedInstalls<D>(bundle: Bundle<D>, members: seq<Member>)
    requires IsLocked(bundle, members) && Extract(members).Some?
    ensures !(MARKER in Extract(members).value && Extract(members).value[MARKER].Folder?) ==> CanInstall(bundle)
  {
    ExtractExactly(members);
    var tarball :| bundle.hash(tarball) == bundle.sha256 && bundle.decode(tarball) == Some(members);
    if !FolderNeeded(members, MARKER) {
      assert Installs(bundle, tarball, members);
    }
  }

  lemma StepIsEarned<D>(bundle: Bundle<D>, s: State, e: Event)
    requires Safe(bundle, s) && IsEarned(bundle, s)
    ensures IsEarned(bundle, Next(bundle, s, e))
  {
    if s.installer.Swapping? && e == Swap(true) {
      LockedInstalls(bundle, s.installer.members);
    } else if s.installer.Marking? && e == CreateMarker(true) {
      var members :| IsLocked(bundle, members) && Extract(members).Some? && s.target == Some(Extract(members).value);
      LockedInstalls(bundle, members);
    }
  }

  lemma {:induction false} RunIsEarned<D>(bundle: Bundle<D>, s: State, events: seq<Event>)
    requires Safe(bundle, s) && IsEarned(bundle, s)
    ensures IsEarned(bundle, Run(bundle, s, events))
  {
    if events != [] {
      var init := events[..|events| - 1];
      RunIsEarned(bundle, s, init);
      EveryRunIsSafe(bundle, s, init);
      StepIsEarned(bundle, Run(bundle, s, init), events[|events| - 1]);
    }
  }

  /**
    From the empty cache some run returns exactly if some tarball with the locked digest asks for no
    path as file and as folder, and for no folder in the place of the marker.
   */
  lemma ReturnsExactly<D>(bundle: Bundle<D>)
    ensures (exists events :: Run(bundle, State(None, Start), events).installer == Returned) <==> CanInstall(bundle)
  {
    var empty := State(None, Start);
    if events :| Run(bundle, empty, events).installer == Returned {
      RunIsEarned(bundle, empty, events);
    }
    if CanInstall(bundle) {
      var tarball, members :| Installs(bundle, tarball, members);
      var events := FreshInstall(bundle, None, tarball, members);
      assert Run(bundle, empty, events).installer == Returned;
    }
  }
}
