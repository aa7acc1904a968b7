/**
  What a release changes in a repository (scripts/propagate.py, `plan`): at most three files, none
  outside the paths a mirrored repository allows, and nothing once the changes are in place.
 */
module Plan {
  import opened Wrappers
  import opened Text
  import opened Pins
  import opened Pinned
  import opened Permissions
  import opened Workflow
  import opened WorkflowLaws
  import opened AutoMerge
  import opened Templates
  import Lines
  import Markers

  /** Where the three files of a repository are. */
  datatype Paths = Paths(config: string, workflow: string, autoMerge: string)

  const REPOSITORY_PATHS := Paths(
    ".pre-commit-config.yaml", ".github/workflows/security.yml", ".github/workflows/dependabot-auto-merge.yml")

  ghost predicate AreDistinct(paths: Paths) {
    paths.config != paths.workflow && paths.config != paths.autoMerge && paths.workflow != paths.autoMerge
  }

  lemma RepositoryPathsAreDistinct()
    ensures AreDistinct(REPOSITORY_PATHS)
  {
    assert REPOSITORY_PATHS.config[1] == 'p' && REPOSITORY_PATHS.workflow[1] == 'g';
    assert REPOSITORY_PATHS.autoMerge[1] == 'g';
    assert REPOSITORY_PATHS.workflow[18] == 's' && REPOSITORY_PATHS.autoMerge[18] == 'd';
  }

  /** A release, with the templates rendered for one repository. */
  datatype Release = Release(
    pin: Pin, marks: Markers.Fixed, block: string, newConfig: string,
    gate: seq<string>, needs: seq<string>, newWorkflow: string,
    autoMerge: seq<string>, newAutoMerge: bool -> string)

  /** What the fleet file says of a repository. */
  datatype Settings = Settings(adoptsAutoMerge: bool, majors: bool, safe: seq<string>)

  datatype Change = Change(path: string, text: string)

  type Files = map<string, string>

  function Lookup(files: Files, path: string): Option<string> {
    if path in files then Some(files[path]) else None
  }

  // ------------------------------------------------------------------- the plan

  function NewConfig(r: Release, existing: Option<string>): string {
    match existing
    case None => r.newConfig
    case Some(text) => Markers.Upsert(r.marks, text, r.block)
  }

  function NewWorkflow(r: Release, existing: Option<string>): string {
    UpsertWorkflow(r.gate, r.needs, r.pin, existing, r.newWorkflow)
  }

  function NewAutoMerge(r: Release, s: Settings, existing: Option<string>): string {
    UpsertAutoMerge(r.autoMerge, existing, s.majors, r.newAutoMerge)
  }

  function ChangeTo(files: Files, path: string, text: string): seq<Change> {
    if Lookup(files, path) == Some(text) then [] else [Change(path, text)]
  }

  function Changes(paths: Paths, r: Release, s: Settings, files: Files): seq<Change> {
    ChangeTo(files, paths.config, NewConfig(r, Lookup(files, paths.config)))
    + ChangeTo(files, paths.workflow, NewWorkflow(r, Lookup(files, paths.workflow)))
    + (if s.adoptsAutoMerge
       then ChangeTo(files, paths.autoMerge, NewAutoMerge(r, s, Lookup(files, paths.autoMerge)))
       else [])
  }

  /** A path may be written if nothing is said about safe paths, or it is below one. */
  predicate IsSafe(path: string, safe: seq<string>) {
    safe == [] || exists i :: 0 <= i < |safe| && StartsWith(path, safe[i])
  }

  /** Planning fails with the first path that may not be written. */
  function PlanOf(paths: Paths, r: Release, s: Settings, files: Files): Result<seq<Change>, string> {
    Checked(Changes(paths, r, s, files), s.safe, 0)
  }

  function Checked(changes: seq<Change>, safe: seq<string>, i: nat): Result<seq<Change>, string>
    requires i <= |changes|
    decreases |changes| - i
  {
    if i == |changes| then Ok(changes)
    else if IsSafe(changes[i].path, safe) then Checked(changes, safe, i + 1)
    else Err(changes[i].path)
  }

  /** `plan` as it is coded: changes are appended, then checked one by one. */
  method MakePlan(paths: Paths, r: Release, s: Settings, files: Files)
    returns (result: Result<seq<Change>, string>)
    ensures result == PlanOf(paths, r, s, files)
  {
    var changes := [];
    changes := AppendChange(changes, files, paths.config, NewConfig(r, Lookup(files, paths.config)));
    changes := AppendChange(changes, files, paths.workflow, NewWorkflow(r, Lookup(files, paths.workflow)));
    if s.adoptsAutoMerge {
      changes := AppendChange(changes, files, paths.autoMerge, NewAutoMerge(r, s, Lookup(files, paths.autoMerge)));
    }
    assert changes == Changes(paths, r, s, files);
    result := CheckPlan(changes, s.safe);
  }

  method AppendChange(changes: seq<Change>, files: Files, path: string, text: string) returns (r: seq<Change>)
    ensures r == changes + ChangeTo(files, path, text)
  {
    r := changes;
    if Lookup(files, path) != Some(text) {
      r := r + [Change(path, text)];
    }
  }

  method CheckPlan(changes: seq<Change>, safe: seq<string>) returns (result: Result<seq<Change>, string>)
    ensures result == Checked(changes, safe, 0)
  {
    var i := 0;
    while i < |changes|
      invariant 0 <= i <= |changes|
      invariant Checked(changes, safe, 0) == Checked(changes, safe, i)
    {
      if !IsSafe(changes[i].path, safe) {
        return Err(changes[i].path);
      }
      i := i + 1;
    }
    result := Ok(changes);
  }

  /** Every change written. */
  function Apply(files: Files, changes: seq<Change>): Files
    decreases |changes|
  {
    if changes == [] then files
    else Apply(files[changes[0].path := changes[0].text], changes[1..])
  }

  // ------------------------------------------------------------------- what a plan touches

  lemma {:induction false} CheckedExactly(changes: seq<Change>, safe: seq<string>, i: nat)
    requires i <= |changes|
    ensures Checked(changes, safe, i).Ok? <==> forall j :: i <= j < |changes| ==> IsSafe(changes[j].path, safe)
    ensures Checked(changes, safe, i).Ok? ==> Checked(changes, safe, i).value == changes
    ensures Checked(changes, safe, i).Err? ==>
              exists k :: i <= k < |changes| && changes[k].path == Checked(changes, safe, i).error
                       && !IsSafe(changes[k].path, safe) && forall j :: i <= j < k ==> IsSafe(changes[j].path, safe)
    decreases |changes| - i
  {
    if i < |changes| && IsSafe(changes[i].path, safe) {
      CheckedExactly(changes, safe, i + 1);
    }
  }

  /** Nothing is said about safe paths, or one that is named starts this one. */
  ghost predicate MayWrite(path: string, safe: seq<string>) {
    safe == [] || exists prefix <- safe :: prefix <= path
  }

  lemma MayWriteExactly(path: string, safe: seq<string>)
    ensures IsSafe(path, safe) <==> MayWrite(path, safe)
  {
    if prefix :| prefix in safe && prefix <= path {
      var i :| 0 <= i < |safe| && safe[i] == prefix;
      assert StartsWith(path, safe[i]);
    }
    if i :| 0 <= i < |safe| && StartsWith(path, safe[i]) {
      assert safe[i] in safe && safe[i] <= path;
    }
  }

  /**
    A plan is made exactly when every file that would change may be written, and then it is those
    changes; else planning names the first one that may not.
   */
  lemma PlanIsMadeExactly(paths: Paths, r: Release, s: Settings, files: Files)
    ensures PlanOf(paths, r, s, files).Ok?
       <==> forall c <- Changes(paths, r, s, files) :: MayWrite(c.path, s.safe)
    ensures PlanOf(paths, r, s, files).Ok? ==> PlanOf(paths, r, s, files).value == Changes(paths, r, s, files)
    ensures PlanOf(paths, r, s, files).Err? ==>
              exists i :: IsFirstRefused(Changes(paths, r, s, files), s.safe, i, PlanOf(paths, r, s, files).error)
  {
    CheckedExactly(Changes(paths, r, s, files), s.safe, 0);
    forall path
      ensures IsSafe(path, s.safe) <==> MayWrite(path, s.safe)
    {
      MayWriteExactly(path, s.safe);
    }
    var changes := Changes(paths, r, s, files);
    if PlanOf(paths, r, s, files).Err? {
      var k :| 0 <= k < |changes| && changes[k].path == PlanOf(paths, r, s, files).error
            && !IsSafe(changes[k].path, s.safe) && forall j :: 0 <= j < k ==> IsSafe(changes[j].path, s.safe);
      assert IsFirstRefused(changes, s.safe, k, changes[k].path);
    }
  }

  ghost predicate IsFirstRefused(changes: seq<Change>, safe: seq<string>, i: int, path: string) {
    && 0 <= i < |changes| && changes[i].path == path && !MayWrite(path, safe)
    && forall j :: 0 <= j < i ==> MayWrite(changes[j].path, safe)
  }

  lemma {:induction false} ApplyJoins(files: Files, a: seq<Change>, b: seq<Change>)
    ensures Apply(files, a + b) == Apply(Apply(files, a), b)
    decreases |a|
  {
    if a == [] {
      assert a + b == b;
    } else {
      assert (a + b)[1..] == a[1..] + b && (a + b)[0] == a[0];
      ApplyJoins(files[a[0].path := a[0].text], a[1..], b);
    }
  }

  /** Applying one file's change leaves that file with its new text, and the others alone. */
  lemma ChangedTo(before: Files, files: Files, path: string, text: string)
    requires Lookup(files, path) == Lookup(before, path)
    ensures var after := Apply(files, ChangeTo(before, path, text));
            && Lookup(after, path) == Some(text)
            && forall other :: other != path ==> Lookup(after, other) == Lookup(files, other)
  {
    if Lookup(before, path) != Some(text) {
      var c := Change(path, text);
      assert [c][1..] == [];
      assert Apply(files, [c]) == files[path := text];
    }
  }

  /** With the plan applied each file is what it was planned to be, and no other file has changed. */
  lemma AppliedPlan(paths: Paths, r: Release, s: Settings, files: Files)
    requires AreDistinct(paths)
    ensures var after := Apply(files, Changes(paths, r, s, files));
            && Lookup(after, paths.config) == Some(NewConfig(r, Lookup(files, paths.config)))
            && Lookup(after, paths.workflow) == Some(NewWorkflow(r, Lookup(files, paths.workflow)))
            && (s.adoptsAutoMerge ==>
                  Lookup(after, paths.autoMerge) == Some(NewAutoMerge(r, s, Lookup(files, paths.autoMerge))))
            && (!s.adoptsAutoMerge ==> Lookup(after, paths.autoMerge) == Lookup(files, paths.autoMerge))
            && forall other :: other !in {paths.config, paths.workflow, paths.autoMerge} ==>
                 Lookup(after, other) == Lookup(files, other)
  {
    var a := ChangeTo(files, paths.config, NewConfig(r, Lookup(files, paths.config)));
    var b := ChangeTo(files, paths.workflow, NewWorkflow(r, Lookup(files, paths.workflow)));
    var one, two := Apply(files, a), Apply(Apply(files, a), b);
    ChangedTo(files, files, paths.config, NewConfig(r, Lookup(files, paths.config)));
    ChangedTo(files, one, paths.workflow, NewWorkflow(r, Lookup(files, paths.workflow)));
    ApplyJoins(files, a, b);
    if s.adoptsAutoMerge {
      var c := ChangeTo(files, paths.autoMerge, NewAutoMerge(r, s, Lookup(files, paths.autoMerge)));
      ChangedTo(files, two, paths.autoMerge, NewAutoMerge(r, s, Lookup(files, paths.autoMerge)));
      ApplyJoins(files, a + b, c);
    } else {
      assert a + b + [] == a + b;
    }
  }

  // ------------------------------------------------------------------- planning again

  /** A release as the script prepares it: templates that are already what the edits would make of them. */
  ghost predicate IsReady(r: Release) {
    && IsPin(r.pin) && AreCallees(r.gate) && AreNeeds(r.needs) && IsSettled(r.gate, r.needs, r.pin, r.newWorkflow)
    && Markers.IsUsable(r.marks) && Markers.IsBlock(r.marks, r.block)
    && Markers.Upsert(r.marks, r.newConfig, r.block) == r.newConfig
    && ShowsChoice(r.autoMerge, r.newAutoMerge)
  }

  /** The configuration, if there is one, has its markers in order. */
  ghost predicate ConfigIsFine(r: Release, existing: Option<string>) {
    existing.Some? ==> Markers.WellMarked(r.marks, existing.value)
  }

  /** The caller that is planned has a pin, and all its pins are the release's. */
  ghost predicate WorkflowIsFine(r: Release, existing: Option<string>) {
    HasPin(r.gate, NewWorkflow(r, existing)) && AllPinned(r.gate, r.pin, NewWorkflow(r, existing))
  }

  lemma ConfigAgain(r: Release, existing: Option<string>)
    requires IsReady(r)
    ensures NewConfig(r, Some(NewConfig(r, existing))) == NewConfig(r, existing) <==> ConfigIsFine(r, existing)
  {
    if existing.Some? {
      Markers.UpsertIsIdempotentExactly(r.marks, existing.value, r.block);
    }
  }

  lemma WorkflowAgain(r: Release, existing: Option<string>)
    requires IsReady(r)
    ensures NewWorkflow(r, Some(NewWorkflow(r, existing))) == NewWorkflow(r, existing) <==> WorkflowIsFine(r, existing)
  {
    UpsertIsStableExactly(r.gate, r.needs, r.pin, existing, r.newWorkflow);
  }

  /**
    The same, said of the caller that is there: where no inserted line can tear a call, it is a pin
    glued to an empty comment that spoils it, and nothing else.
   */
  lemma WorkflowIsFineExactly(r: Release, existing: Option<string>)
    requires IsReady(r)
    requires existing.Some? && HasPin(r.gate, existing.value) ==>
               IsUndisturbed(r.gate, r.needs, r.pin, existing.value)
    ensures WorkflowIsFine(r, existing)
       <==> existing.Some? && HasPin(r.gate, existing.value) ==> Glued(r.gate, existing.value) == 0
  {
    if existing.Some? && HasPin(r.gate, existing.value) {
      UndisturbedIsPinnedExactly(r.gate, r.needs, r.pin, existing.value);
    }
  }

  /** Nothing is planned exactly when every file is what it should be. */
  lemma PlanIsEmptyExactly(paths: Paths, r: Release, s: Settings, files: Files)
    ensures PlanOf(paths, r, s, files) == Ok([])
       <==> && Lookup(files, paths.config) == Some(NewConfig(r, Lookup(files, paths.config)))
            && Lookup(files, paths.workflow) == Some(NewWorkflow(r, Lookup(files, paths.workflow)))
            && (s.adoptsAutoMerge ==>
                  Lookup(files, paths.autoMerge) == Some(NewAutoMerge(r, s, Lookup(files, paths.autoMerge))))
  {
    PlanIsMadeExactly(paths, r, s, files);
  }

  /**
    With a plan applied, planning again finds nothing to do, for whatever files there were: exactly
    when the configuration had its markers in order and the planned caller has its pins in order.
   */
  lemma PlanIsFixpointExactly(paths: Paths, r: Release, s: Settings, files: Files)
    requires AreDistinct(paths) && IsReady(r)
    ensures PlanOf(paths, r, s, Apply(files, Changes(paths, r, s, files))) == Ok([])
       <==> ConfigIsFine(r, Lookup(files, paths.config)) && WorkflowIsFine(r, Lookup(files, paths.workflow))
  {
    AppliedPlan(paths, r, s, files);
    PlanIsEmptyExactly(paths, r, s, Apply(files, Changes(paths, r, s, files)));
    ConfigAgain(r, Lookup(files, paths.config));
    WorkflowAgain(r, Lookup(files, paths.workflow));
    AutoMergeIsStable(r.autoMerge, Lookup(files, paths.autoMerge), s.majors, s.majors, r.newAutoMerge);
  }

  // ------------------------------------------------------------------- a release made from the templates

  /** The templates of a release, each with what is filled in taken out. */
  datatype Sources = Sources(
    configHead: string, extra: string, caller: Caller,
    autoMerge: Caller, majorsIndent: string, afterMajors: string)

  /** What `render_block` and the three templates make of a release. */
  ghost predicate IsMadeFrom(r: Release, t: Sources) {
    && r.newConfig == Markers.Create(t.configHead, t.extra, r.block)
    && r.newWorkflow == CallerText(t.caller, r.pin)
    && forall b :: r.newAutoMerge(b)
                   == CallerText(t.autoMerge, r.pin) + (t.majorsIndent + ChoiceLine(MAJORS, Word(b), t.afterMajors))
  }

  /** The configuration's template: no marker above the block, and the block is one with its markers in place. */
  ghost predicate ConfigIsSound(r: Release, t: Sources) {
    && Markers.IsUsable(r.marks) && Markers.IsBlock(r.marks, r.block) && Markers.IsCompact(r.block)
    && forall word | word == r.marks.begin || word == r.marks.end ::
         !Markers.Occurs(t.configHead + Markers.RStripNewlines(t.extra) + "\n", word)
  }

  /** The auto-merge template: a pin, and one majors line behind it. */
  ghost predicate AutoMergeIsSound(r: Release, t: Sources) {
    && HasPrefix(r.autoMerge, t.autoMerge) && Every(t.majorsIndent, IsBlank)
    && HasNoKey(CallerText(t.autoMerge, r.pin), MAJORS)
    && EndsLine(CallerText(t.autoMerge, r.pin))
  }

  lemma AutoMergeShowsChoice(r: Release, t: Sources)
    requires IsPin(r.pin) && AreCallees(r.autoMerge) && IsMadeFrom(r, t) && AutoMergeIsSound(r, t)
    ensures ShowsChoice(r.autoMerge, r.newAutoMerge)
  {
    forall b
      ensures HasPin(r.autoMerge, r.newAutoMerge(b))
    {
      CallerHasPin(
        r.autoMerge, t.autoMerge, r.pin, t.majorsIndent + ChoiceLine(MAJORS, Word(b), t.afterMajors));
    }
    TemplateShowsChoice(
      r.autoMerge, CallerText(t.autoMerge, r.pin), t.majorsIndent, t.afterMajors, r.newAutoMerge);
  }

  /** A release made from sound templates is ready. */
  lemma ReleaseIsReady(r: Release, t: Sources, k: nat, e: nat, on: nat, m: nat)
    requires IsPin(r.pin) && AreCallees(r.gate) && AreCallees(r.autoMerge) && AreNeeds(r.needs)
    requires IsMadeFrom(r, t) && ConfigIsSound(r, t) && AutoMergeIsSound(r, t)
    requires IsCaller(r.gate, t.caller, r.pin)
    requires Lists(r.needs, Lines.LinesOf(r.newWorkflow), k, e) && Listens(Lines.LinesOf(r.newWorkflow), on, m)
    ensures IsReady(r)
  {
    Markers.CreatedIsStable(r.marks, t.configHead, t.extra, r.block);
    CallerIsSettled(r.gate, r.needs, t.caller, r.pin, k, e, on, m);
    AutoMergeShowsChoice(r, t);
  }

  /** Into a repository without the three files one plan brings them, and the next plan is empty. */
  lemma NewRepositoryIsFixpoint(r: Release, s: Settings, files: Files)
    requires IsReady(r)
    requires Lookup(files, REPOSITORY_PATHS.config).None? && Lookup(files, REPOSITORY_PATHS.workflow).None?
    ensures PlanOf(REPOSITORY_PATHS, r, s, Apply(files, Changes(REPOSITORY_PATHS, r, s, files))) == Ok([])
  {
    RepositoryPathsAreDistinct();
    PlanIsFixpointExactly(REPOSITORY_PATHS, r, s, files);
  }
}
