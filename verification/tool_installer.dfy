/**
  `tool_path` (thyn_security_toolchain/fetch.py) run by any number of processes at once over one
  cache. Each process works in a temporary directory of its own; the only thing they share is
  the cached tool path. Every read, rename and mode change is a step of its own, a process may
  crash between any two steps, and network and disk answer as they like.
 */
module ToolInstaller {
  import opened Wrappers
  import opened Download
  import opened Archive

  const ATTEMPTS := 3

  /** The lock entry of a tool: its digest, and the member to take if the asset is a tarball. */
  datatype Asset<!D> = Asset(hash: Bytes -> D, sha256: D, member: Option<string>, decode: Bytes -> Option<seq<Member>>)

  /** What a download installs as; `None` when the tarball is unreadable or lacks the member. */
  function Payload<D>(asset: Asset<D>, download: Bytes): Option<Bytes> {
    if asset.member.None? then Some(download)
    else
      match asset.decode(download)
      case None => None
      case Some(members) => SingleMember(members, asset.member.value)
  }

  datatype Executable = Executable(content: Bytes, mode755: bool)

  datatype Process =
    | Start
    | Connecting(attempt: nat)
    | Receiving(attempt: nat, digested: Bytes, part: Bytes)
    | Downloaded(download: Bytes)
    | Unpacked(binary: Executable)
    | Ready(binary: Executable)
    | Returned
    | Failed
    | Crashed

  datatype Event =
    | LookUp(offline: bool)        // is the target there? if not, go on unless offline
    | Connect(reply: Option<Fault>)
    | Read(chunk: Chunk)
    | Hang(fault: Fault)           // reading or writing raises; uncaught if the clean-up raises too
    | EndOfBody(renames: bool, removes: bool, cleans: bool)   // as in a reply of `Download`
    | Unpack(ok: bool)
    | ChangeMode(ok: bool)
    | Publish(ok: bool)
    | Crash

  datatype State = State(target: Option<Executable>, processes: map<nat, Process>)

  function ProcessOf(s: State, pid: nat): Process {
    if pid in s.processes then s.processes[pid] else Start
  }

  /** After a caught fault: another attempt, or the error that ends `download_verified`. */
  function RetryOrFail(attempt: nat): Process {
    if attempt < ATTEMPTS then Connecting(attempt + 1) else Failed
  }

  function AfterFault(attempt: nat, fault: Fault): Process {
    if fault == Caught then RetryOrFail(attempt) else Failed
  }

  /** The process after one of its events; an event it is not waiting for leaves it as it is. */
  function Advance<D(==)>(asset: Asset<D>, target: Option<Executable>, p: Process, e: Event): Process {
    match (p, e)
    case (Start, LookUp(offline)) =>
      if target.Some? then Returned else if offline then Failed else Connecting(1)
    case (Connecting(attempt), Connect(None)) => Receiving(attempt, [], [])
    case (Connecting(attempt), Connect(Some(fault))) => AfterFault(attempt, fault)
    case (Receiving(attempt, digested, part), Read(chunk)) => Receiving(attempt, digested + chunk, part + chunk)
    case (Receiving(attempt, _, _), Hang(fault)) => AfterFault(attempt, fault)
    case (Receiving(attempt, digested, part), EndOfBody(renames, removes, cleans)) =>
      if asset.hash(digested) != asset.sha256 && removes then Failed
      else if asset.hash(digested) == asset.sha256 && renames then Downloaded(part)
      else if cleans then RetryOrFail(attempt)
      else Failed
    case (Downloaded(download), Unpack(ok)) =>
      var payload := Payload(asset, download);
      if ok && payload.Some? then Unpacked(Executable(payload.value, false)) else Failed
    case (Unpacked(binary), ChangeMode(ok)) =>
      if ok then Ready(binary.(mode755 := true)) else Failed
    case (Ready(_), Publish(ok)) => if ok then Returned else Failed
    case (Returned, _) => p
    case (Failed, _) => p
    case (_, Crash) => Crashed
    case _ => p
  }

  /** Only the rename over the target touches what the processes share. */
  function TargetAfter(target: Option<Executable>, p: Process, e: Event): Option<Executable> {
    if p.Ready? && e == Publish(true) then Some(p.binary) else target
  }

  function Step<D(==)>(asset: Asset<D>, s: State, pid: nat, e: Event): State {
    var p := ProcessOf(s, pid);
    State(TargetAfter(s.target, p, e), s.processes[pid := Advance(asset, s.target, p, e)])
  }

  /** The state after a schedule: any process may take the next step. */
  function Run<D(==)>(asset: Asset<D>, s: State, schedule: seq<(nat, Event)>): State {
    if schedule == [] then s
    else
      var last := schedule[|schedule| - 1];
      Step(asset, Run(asset, s, schedule[..|schedule| - 1]), last.0, last.1)
  }

  // ------------------------------------------------------------------- safety

  ghost predicate IsPayload<D>(asset: Asset<D>, content: Bytes) {
    exists download :: asset.hash(download) == asset.sha256 && Payload(asset, download) == Some(content)
  }

  /** The cached tool, if there is one, is executable and comes out of a digest-checked download. */
  ghost predicate TargetIsGenuine<D>(asset: Asset<D>, s: State) {
    s.target.Some? ==> s.target.value.mode755 && IsPayload(asset, s.target.value.content)
  }

  ghost predicate ProcessIsSound<D>(asset: Asset<D>, s: State, p: Process) {
    match p
    case Connecting(attempt) => 1 <= attempt <= ATTEMPTS
    case Receiving(attempt, digested, part) => 1 <= attempt <= ATTEMPTS && digested == part
    case Downloaded(download) => asset.hash(download) == asset.sha256
    case Unpacked(binary) => IsPayload(asset, binary.content)
    case Ready(binary) => binary.mode755 && IsPayload(asset, binary.content)
    case Returned => s.target.Some?
    case _ => true
  }

  ghost predicate Safe<D>(asset: Asset<D>, s: State) {
    TargetIsGenuine(asset, s) && forall pid :: ProcessIsSound(asset, s, ProcessOf(s, pid))
  }

  lemma StepIsSafe<D>(asset: Asset<D>, s: State, pid: nat, e: Event)
    requires Safe(asset, s)
    ensures Safe(asset, Step(asset, s, pid, e))
    ensures s.target.Some? ==> Step(asset, s, pid, e).target.Some?
  {
    var s' := Step(asset, s, pid, e);
    var p := ProcessOf(s, pid);
    assert ProcessIsSound(asset, s, p);
    forall q: nat
      ensures ProcessIsSound(asset, s', ProcessOf(s', q))
    {
      assert ProcessIsSound(asset, s, ProcessOf(s, q));
      if q == pid && p.Downloaded? && ProcessOf(s', q).Unpacked? {
        assert asset.hash(p.download) == asset.sha256;
        assert Payload(asset, p.download) == Some(ProcessOf(s', q).binary.content);
      }
    }
  }

  /**
    Whatever the schedule, the replies and the crashes: whenever the cached tool path exists it
    holds the payload of a download with the locked digest and is executable; a process that
    has returned can rely on it; and once there it is never missing again.
   */
  lemma {:induction false} EveryRunIsSafe<D>(asset: Asset<D>, s: State, schedule: seq<(nat, Event)>, upTo: nat)
    requires Safe(asset, s) && upTo <= |schedule|
    ensures Safe(asset, Run(asset, s, schedule))
    ensures Run(asset, s, schedule[..upTo]).target.Some? ==> Run(asset, s, schedule).target.Some?
    decreases |schedule|
  {
    if upTo == |schedule| {
      assert schedule[..upTo] == schedule;
    }
    if schedule != [] {
      var n := |schedule| - 1;
      var upTo' := if upTo == |schedule| then n else upTo;
      assert upTo' == upTo ==> schedule[..n][..upTo] == schedule[..upTo];
      EveryRunIsSafe(asset, s, schedule[..n], upTo');
      StepIsSafe(asset, Run(asset, s, schedule[..n]), schedule[n].0, schedule[n].1);
    }
  }

  /** The empty cache is a safe start. */
  lemma EmptyCacheIsSafe<D>(asset: Asset<D>)
    ensures Safe(asset, State(None, map[]))
  {}

  /** If only one download has the locked digest, what is installed never changes. */
  lemma InstalledToolIsStable<D>(asset: Asset<D>, s: State, schedule: seq<(nat, Event)>, upTo: nat)
    requires Safe(asset, s) && upTo <= |schedule|
    requires forall a, b :: asset.hash(a) == asset.sha256 && asset.hash(b) == asset.sha256 ==> a == b
    requires Run(asset, s, schedule[..upTo]).target.Some?
    ensures Run(asset, s, schedule).target == Run(asset, s, schedule[..upTo]).target
  {
    EveryRunIsSafe(asset, s, schedule[..upTo], 0);
    EveryRunIsSafe(asset, s, schedule, upTo);
  }

  // ------------------------------------------------------------------- progress

  /** What the lock entry asks to be taken out of a download: all of it, or the first member that fits. */
  ghost predicate IsTakenOut<D>(asset: Asset<D>, download: Bytes, content: Bytes) {
    match asset.member
    case None => content == download
    case Some(name) =>
      exists members: seq<Member>, i: nat ::
        && asset.decode(download) == Some(members) && IsFirstWithName(members, name, i)
        && content == members[i].content
  }

  /** The member at `i` is the first regular one with this base name and no `..` on its path. */
  ghost predicate IsFirstWithName(members: seq<Member>, name: string, i: nat) {
    i < |members| && HasName(members[i], name) && forall j :: 0 <= j < i ==> !HasName(members[j], name)
  }

  ghost predicate HasName(m: Member, name: string) {
    m.kind == Regular && (exists folders :: m.parts == folders + [name]) && forall part <- m.parts :: part != ".."
  }

  lemma NamedIsCandidate(m: Member, name: string)
    ensures HasName(m, name) <==> IsCandidate(m, name)
  {
    if IsCandidate(m, name) {
      assert m.parts == m.parts[..|m.parts| - 1] + [name];
    }
  }

  lemma PayloadIsTakenOut<D>(asset: Asset<D>, download: Bytes, content: Bytes)
    ensures Payload(asset, download) == Some(content) <==> IsTakenOut(asset, download, content)
  {
    if asset.member.Some? && asset.decode(download).Some? {
      var name, members := asset.member.value, asset.decode(download).value;
      forall m
        ensures HasName(m, name) <==> IsCandidate(m, name)
      {
        NamedIsCandidate(m, name);
      }
      if SingleMember(members, name).Some? {
        var k: nat :| k < |members| && IsCandidate(members[k], name)
                   && SingleMember(members, name).value == members[k].content
                   && forall j :: 0 <= j < k ==> !IsCandidate(members[j], name);
        assert IsFirstWithName(members, name, k);
        forall i | IsFirstWithName(members, name, i)
          ensures i == k
        {}
      }
    }
  }

  /** One process alone takes these steps. */
  function Alone(pid: nat, events: seq<Event>): seq<(nat, Event)> {
    if events == [] then [] else Alone(pid, events[..|events| - 1]) + [(pid, events[|events| - 1])]
  }

  /** What became of the target and of the process, after steps of its own. */
  ghost predicate StandsAt<D>(
      asset: Asset<D>, s: State, pid: nat, events: seq<Event>, target: Option<Executable>, p: Process)
  {
    var r := Run(asset, s, Alone(pid, events));
    r.target == target && ProcessOf(r, pid) == p
  }

  lemma StepAlone<D>(
      asset: Asset<D>, s: State, pid: nat, events: seq<Event>, target: Option<Executable>, p: Process, e: Event)
    requires StandsAt(asset, s, pid, events, target, p)
    ensures StandsAt(asset, s, pid, events + [e], TargetAfter(target, p, e), Advance(asset, target, p, e))
  {
    var all := events + [e];
    assert all[..|all| - 1] == events;
    var schedule := Alone(pid, all);
    assert schedule[..|schedule| - 1] == Alone(pid, events);
  }

  /** `failures` refused connections, each caught, and then one that is answered. */
  lemma {:induction false} Connects<D>(asset: Asset<D>, s: State, pid: nat, failures: nat) returns (events: seq<Event>)
    requires s.target == None && ProcessOf(s, pid) == Start && failures < ATTEMPTS
    ensures StandsAt(asset, s, pid, events, None, Connecting(failures + 1))
  {
    if failures == 0 {
      assert Alone(pid, []) == [] && Run(asset, s, []) == s;
      StepAlone(asset, s, pid, [], None, Start, LookUp(false));
      events := [] + [LookUp(false)];
    } else {
      var init := Connects(asset, s, pid, failures - 1);
      StepAlone(asset, s, pid, init, None, Connecting(failures), Connect(Some(Caught)));
      events := init + [Connect(Some(Caught))];
    }
  }

  lemma {:induction false} Receives<D>(
      asset: Asset<D>, s: State, pid: nat, before: seq<Event>, attempt: nat, chunks: seq<Chunk>)
    returns (events: seq<Event>)
    requires StandsAt(asset, s, pid, before, None, Receiving(attempt, [], []))
    ensures StandsAt(asset, s, pid, events, None, Receiving(attempt, Concat(chunks), Concat(chunks)))
  {
    events := before;
    if chunks != [] {
      var init, last := chunks[..|chunks| - 1], chunks[|chunks| - 1];
      var some := Receives(asset, s, pid, before, attempt, init);
      StepAlone(asset, s, pid, some, None, Receiving(attempt, Concat(init), Concat(init)), Read(last));
      events := some + [Read(last)];
    }
  }

  lemma Unpacks<D>(
      asset: Asset<D>, s: State, pid: nat, before: seq<Event>, n: nat, download: Bytes, content: Bytes)
    returns (events: seq<Event>)
    requires StandsAt(asset, s, pid, before, None, Receiving(n, download, download))
    requires asset.hash(download) == asset.sha256 && Payload(asset, download) == Some(content)
    ensures StandsAt(asset, s, pid, events, None, Unpacked(Executable(content, false)))
  {
    StepAlone(asset, s, pid, before, None, Receiving(n, download, download), EndOfBody(true, true, true));
    events := before + [EndOfBody(true, true, true)];
    StepAlone(asset, s, pid, events, None, Downloaded(download), Unpack(true));
    events := events + [Unpack(true)];
  }

  lemma Publishes<D>(asset: Asset<D>, s: State, pid: nat, before: seq<Event>, content: Bytes)
    returns (events: seq<Event>)
    requires StandsAt(asset, s, pid, before, None, Unpacked(Executable(content, false)))
    ensures StandsAt(asset, s, pid, events, Some(Executable(content, true)), Returned)
  {
    StepAlone(asset, s, pid, before, None, Unpacked(Executable(content, false)), ChangeMode(true));
    events := before + [ChangeMode(true)];
    StepAlone(asset, s, pid, events, None, Ready(Executable(content, true)), Publish(true));
    events := events + [Publish(true)];
  }

  /**
    Where no tool is cached, a process that is online installs it: fewer than three attempts may fail,
    and the next one brings a download with the locked digest; what the lock entry asks for is taken
    out of it and published as an executable.
   */
  lemma ProcessInstalls<D>(
      asset: Asset<D>, s: State, pid: nat, failures: nat, chunks: seq<Chunk>, content: Bytes)
    returns (events: seq<Event>)
    requires s.target == None && ProcessOf(s, pid) == Start && failures < ATTEMPTS
    requires asset.hash(Concat(chunks)) == asset.sha256 && IsTakenOut(asset, Concat(chunks), content)
    ensures StandsAt(asset, s, pid, events, Some(Executable(content, true)), Returned)
  {
    PayloadIsTakenOut(asset, Concat(chunks), content);
    events := Connects(asset, s, pid, failures);
    StepAlone(asset, s, pid, events, None, Connecting(failures + 1), Connect(None));
    events := Receives(asset, s, pid, events + [Connect(None)], failures + 1, chunks);
    events := Unpacks(asset, s, pid, events, failures + 1, Concat(chunks), content);
    events := Publishes(asset, s, pid, events, content);
  }

  /** A cached tool is returned as it is, and offline nothing is fetched. */
  lemma LookUpDecides<D>(asset: Asset<D>, s: State, pid: nat, offline: bool)
    requires ProcessOf(s, pid) == Start
    ensures Step(asset, s, pid, LookUp(offline)).target == s.target
    ensures ProcessOf(Step(asset, s, pid, LookUp(offline)), pid) == Returned <==> s.target.Some?
    ensures ProcessOf(Step(asset, s, pid, LookUp(offline)), pid) == Failed <==> s.target.None? && offline
  {}
}
