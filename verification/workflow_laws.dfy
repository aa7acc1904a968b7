/**
  What `upsert_workflow` guarantees as a whole (scripts/propagate.py, `upsert_workflow`;
  thyn_security_toolchain/verify.py, `caller_pins`): run on its own output it changes nothing, the
  permissions are complete, and the pins read back as the pins written.
 */
module WorkflowLaws {
  import opened Wrappers
  import opened Text
  import opened Pins
  import opened Pinned
  import opened PinLines
  import opened PinReader
  import opened Lines
  import opened Permissions
  import opened Trigger
  import opened TriggerLaws
  import opened Workflow
  import opened Seams

  /** A caller with nothing left to do: every pin is `p`, the permissions and the triggers are complete. */
  ghost predicate IsSettled(callees: seq<string>, needs: seq<string>, p: Pin, text: string) {
    HasPin(callees, text) && AllPinned(callees, p, text) && NothingToInsert(needs, text)
  }

  lemma SettledIsStable(callees: seq<string>, needs: seq<string>, p: Pin, text: string, rendered: string)
    requires AreCallees(callees) && AreNeeds(needs) && IsPin(p) && IsSettled(callees, needs, p, text)
    ensures UpsertWorkflow(callees, needs, p, Some(text), rendered) == text
  {
    PinnedIsStable(callees, p, text);
    NothingToInsertIsStable(needs, text);
  }

  /** Permissions and triggers are complete after any run. */
  lemma CompletedIsComplete(needs: seq<string>, text: string)
    requires AreNeeds(needs)
    ensures IsComplete(needs, LinesOf(Completed(needs, text)))
    ensures PlaceOf(CallerPatterns(), LinesOf(Completed(needs, text))).None?
  {
    CompletedLines(needs, text);
    CarryCompletes(needs, LinesOf(text));
    TriggerKeepsComplete(needs, Carry(needs, LinesOf(text)));
    TriggeredIsDone(Carry(needs, LinesOf(text)));
  }

  /** When the two insertions give back as many lines as they got, they changed nothing. */
  lemma NothingInserted(needs: seq<string>, text: string)
    requires AreNeeds(needs) && |LinesOf(Completed(needs, text))| == |LinesOf(text)|
    ensures Completed(needs, text) == text
  {
    CompletedLines(needs, text);
    var at, x := CarryInserts(needs, LinesOf(text));
    var at', y := TriggerInserts(Carry(needs, LinesOf(text)));
    assert |LinesOf(text)| + |x| + |y| == |LinesOf(text)|;
    InsertNothing(LinesOf(text), at);
    InsertNothing(Carry(needs, LinesOf(text)), at');
    TextIsLines(text);
    TextIsLines(Completed(needs, text));
  }

  /** A text that a bump and the insertions give back is pinned. */
  lemma StableIsPinned(callees: seq<string>, needs: seq<string>, p: Pin, text: string)
    requires AreCallees(callees) && AreNeeds(needs) && IsPin(p) && Completed(needs, Bump(callees, p, text)) == text
    ensures AllPinned(callees, p, text)
  {
    BumpKeepsLineCount(callees, p, text);
    NothingInserted(needs, Bump(callees, p, text));
    BumpIsIdempotentExactly(callees, p, text);
    BumpedIsPinnedExactly(callees, p, text);
  }

  /**
    Run on its own output `upsert_workflow` changes nothing exactly when that output has a pin and
    all its pins are the new one; permissions and triggers never stand in the way.
   */
  lemma UpsertIsStableExactly(
    callees: seq<string>, needs: seq<string>, p: Pin, existing: Option<string>, rendered: string)
    requires AreCallees(callees) && AreNeeds(needs) && IsPin(p) && IsSettled(callees, needs, p, rendered)
    ensures var once := UpsertWorkflow(callees, needs, p, existing, rendered);
            UpsertWorkflow(callees, needs, p, Some(once), rendered) == once
            <==> HasPin(callees, once) && AllPinned(callees, p, once)
  {
    var once := UpsertWorkflow(callees, needs, p, existing, rendered);
    if existing.Some? && HasPin(callees, existing.value) {
      CompletedIsComplete(needs, Bump(callees, p, existing.value));
    }
    if HasPin(callees, once) {
      if AllPinned(callees, p, once) {
        SettledIsStable(callees, needs, p, once, rendered);
      } else if Completed(needs, Bump(callees, p, once)) == once {
        StableIsPinned(callees, needs, p, once);
      }
    }
  }

  /** The two insertions have nothing to add. */
  ghost predicate NothingToInsert(needs: seq<string>, text: string) {
    IsComplete(needs, LinesOf(text)) && PlaceOf(CallerPatterns(), LinesOf(text)).None?
  }

  lemma NothingToInsertIsStable(needs: seq<string>, text: string)
    requires AreNeeds(needs) && NothingToInsert(needs, text)
    ensures Completed(needs, text) == text
  {
    CompletedLines(needs, text);
    CompleteIsStable(needs, LinesOf(text));
    TextIsLines(text);
    TextIsLines(Completed(needs, text));
  }

  /** Neither insertion tears a call of the bumped caller, or makes one. */
  ghost predicate IsUndisturbed(callees: seq<string>, needs: seq<string>, p: Pin, text: string) {
    KeepsCalls(callees, needs, Bump(callees, p, text))
  }

  /**
    Seen on the caller itself: it is enough that none of its lines are entangled, or that nothing is
    to be inserted.
   */
  lemma UnentangledIsUndisturbed(callees: seq<string>, needs: seq<string>, p: Pin, text: string)
    requires AreCallees(callees) && AreNeeds(needs) && IsPin(p)
    requires !Entangled(callees, text) || NothingToInsert(needs, Bump(callees, p, text))
    ensures IsUndisturbed(callees, needs, p, text)
  {
    if NothingToInsert(needs, Bump(callees, p, text)) {
      CompleteIsStable(needs, LinesOf(Bump(callees, p, text)));
    } else {
      BumpKeepsApart(callees, p, text);
      ApartKeepsCalls(callees, needs, Bump(callees, p, text));
    }
  }

  lemma UndisturbedIsPinnedExactly(callees: seq<string>, needs: seq<string>, p: Pin, text: string)
    requires AreCallees(callees) && AreNeeds(needs) && IsPin(p)
    requires HasPin(callees, text) && IsUndisturbed(callees, needs, p, text)
    ensures var once := Completed(needs, Bump(callees, p, text));
            HasPin(callees, once) && (AllPinned(callees, p, once) <==> Glued(callees, text) == 0)
  {
    BumpedIsPinnedExactly(callees, p, text);
    BumpedHasPin(callees, p, text);
    CompletedIsPinnedExactly(callees, needs, p, Bump(callees, p, text));
  }

  /**
    For a caller whose calls no inserted line can tear: a second run changes nothing exactly when
    no pin is glued to an empty comment.
   */
  lemma UpsertIsIdempotentExactly(
    callees: seq<string>, needs: seq<string>, p: Pin, text: string, rendered: string)
    requires AreCallees(callees) && AreNeeds(needs) && IsPin(p) && IsSettled(callees, needs, p, rendered)
    requires HasPin(callees, text) && IsUndisturbed(callees, needs, p, text)
    ensures var once := UpsertWorkflow(callees, needs, p, Some(text), rendered);
            UpsertWorkflow(callees, needs, p, Some(once), rendered) == once <==> Glued(callees, text) == 0
  {
    UpsertIsStableExactly(callees, needs, p, Some(text), rendered);
    UndisturbedIsPinnedExactly(callees, needs, p, text);
  }

  /** A file that is there, has a pin, glues none, and has none that is torn; or no such file. */
  ghost predicate IsPlain(callees: seq<string>, needs: seq<string>, p: Pin, existing: Option<string>) {
    existing.Some? && HasPin(callees, existing.value) ==>
      Glued(callees, existing.value) == 0 && IsUndisturbed(callees, needs, p, existing.value)
  }

  /** What `upsert_workflow` leaves is settled. */
  lemma UpsertSettles(callees: seq<string>, needs: seq<string>, p: Pin, existing: Option<string>, rendered: string)
    requires AreCallees(callees) && AreNeeds(needs) && IsPin(p)
    requires IsPlain(callees, needs, p, existing) && IsSettled(callees, needs, p, rendered)
    ensures IsSettled(callees, needs, p, UpsertWorkflow(callees, needs, p, existing, rendered))
  {
    if existing.Some? && HasPin(callees, existing.value) {
      UndisturbedIsPinnedExactly(callees, needs, p, existing.value);
      CompletedIsComplete(needs, Bump(callees, p, existing.value));
    }
  }

  /** After a bump the lines are those of the bumped text with two runs of lines put in. */
  lemma UpsertOnlyInserts(callees: seq<string>, needs: seq<string>, p: Pin, text: string, rendered: string)
    returns (at: nat, added: seq<string>, at': nat, entry: seq<string>)
    requires AreNeeds(needs) && HasPin(callees, text)
    ensures var lines := LinesOf(Bump(callees, p, text));
            && at <= |lines| && at' <= |InsertAt(lines, at, added)|
            && LinesOf(UpsertWorkflow(callees, needs, p, Some(text), rendered))
               == InsertAt(InsertAt(lines, at, added), at', entry)
    ensures LastOf(UpsertWorkflow(callees, needs, p, Some(text), rendered)) == LastOf(Bump(callees, p, text))
    ensures exists indent :: Every(indent, IsBlank) && AreAdded(added, indent, needs)
    ensures at <= |LinesOf(Bump(callees, p, text))| && IsCarried(needs, LinesOf(Bump(callees, p, text)), at, added)
    ensures entry == [] || exists indent :: IsMergeGroup(entry[0], indent)
  {
    CompletedLines(needs, Bump(callees, p, text));
    at, added, at', entry := EditsInsert(needs, LinesOf(Bump(callees, p, text)));
  }

  lemma EditsInsert(needs: seq<string>, lines: seq<string>)
    returns (at: nat, added: seq<string>, at': nat, entry: seq<string>)
    requires AreNeeds(needs)
    ensures at <= |lines| && at' <= |InsertAt(lines, at, added)|
    ensures AddTrigger(Carry(needs, lines)) == InsertAt(InsertAt(lines, at, added), at', entry)
    ensures exists indent :: Every(indent, IsBlank) && AreAdded(added, indent, needs)
    ensures IsCarried(needs, lines, at, added)
    ensures entry == [] || exists indent :: IsMergeGroup(entry[0], indent)
  {
    at, added := CarryInserts(needs, lines);
    at', entry := TriggerInserts(Carry(needs, lines));
  }

  /** Every call of the gate in the file that `upsert_workflow` leaves reads back as the pin it was given. */
  lemma UpsertedPinsReadBack(
    dir: string, names: seq<string>, needs: seq<string>, p: Pin, existing: Option<string>, rendered: string, c: Call)
    requires IsDirectory(dir) && AreFiles(names) && AreNeeds(needs) && IsPin(p)
    requires IsPlain(Callees(dir, names), needs, p, existing) && IsSettled(Callees(dir, names), needs, p, rendered)
    requires c in CallerPins(dir, UpsertWorkflow(Callees(dir, names), needs, p, existing, rendered)) && c.name in names
    ensures c.ref == p.sha && c.comment == Some(p.tag)
  {
    CalleesAre(dir, names);
    UpsertSettles(Callees(dir, names), needs, p, existing, rendered);
    PinsReadBack(dir, names, p, UpsertWorkflow(Callees(dir, names), needs, p, existing, rendered), c);
  }

  /** And no pin in it is missed, on a line that is no comment and unless it lies inside an earlier call. */
  lemma UpsertedPinIsRead(
    dir: string, names: seq<string>, needs: seq<string>, p: Pin, existing: Option<string>, rendered: string,
    line: string, j: nat) returns (c: Call)
    requires IsDirectory(dir) && AreFiles(names) && AreNeeds(needs) && IsPin(p)
    requires IsPlain(Callees(dir, names), needs, p, existing) && IsSettled(Callees(dir, names), needs, p, rendered)
    requires line in Split(UpsertWorkflow(Callees(dir, names), needs, p, existing, rendered), IsLineBreak)
    requires !IsYamlComment(line)
    requires j <= |line| && PinAt(Callees(dir, names), line[j..]).Some? && IsReached(dir, line, j)
    ensures c in CallerPins(dir, UpsertWorkflow(Callees(dir, names), needs, p, existing, rendered))
    ensures c in Calls(dir, line)
    ensures NoCallBefore(dir, line, j) ==> Calls(dir, line)[0] == c
    ensures OnlyUsesAt(line, j) ==> Calls(dir, line) == [c]
    ensures c.name in names && c.ref == p.sha && c.comment == Some(p.tag)
  {
    CalleesAre(dir, names);
    UpsertSettles(Callees(dir, names), needs, p, existing, rendered);
    c := PinIsRead(dir, names, p, UpsertWorkflow(Callees(dir, names), needs, p, existing, rendered), line, j);
  }
}
