// The outcome of one task mutation or deletion against a document store, a git and other writers that may
// do anything, and the recovery marker over whole runs.
module MutationOutcomes {
  import opened Text

  // The meaning of a task document (serialisation and the order of tags do not matter).
  type Doc(==, !new)

  // One task: what the store holds, what the file holds, what HEAD holds; None is absent or unreadable.
  datatype Target = Target(db: Option<Doc>, disk: Option<Doc>, head: Option<Doc>) {
    predicate Agrees() { db.Some? && db == disk }

    // The file is as committed.
    predicate Clean() { disk == head }
  }

  datatype State = State(target: Target, marker: bool)

  // ----- what the store, git and other writers do; every value is possible -----

  datatype CaptureStatus = Failed | Replied(written: bool)

  // A command of the store leaves any document in the database and any in the file.
  datatype Effect = Effect(db: Option<Doc>, disk: Option<Doc>)

  // The file and HEAD when git is asked for the target's status: whatever the commit took in, and
  // whatever another writer did to the file since it was read back.
  datatype Committed = Committed(disk: Option<Doc>, head: Option<Doc>)

  datatype Replies = Replies(
    before: Target,                               // after reconciliation, preflight commit and sync
    stopsBeforeCapture: bool,                     // some check before the capture fails
    capture: Effect, captureStatus: CaptureStatus,
    firstRead: bool,                              // the page and the file can be read back
    committed: Committed, commitSucceeds: bool,
    statusReads: bool, sameBytes: bool,           // git status and head answer; the bytes are as committed
    sync: Effect, syncSucceeds: bool, secondRead: bool,
    markerWritten: bool)

  datatype Outcome =
    | AppliedAndCommitted
    | AppliedUncommitted
    | DbUpdatedDiskFailed
    | RecoveryRequired
    | Blocked       // a recovery marker is present
    | Stopped       // an error before the capture began, or escaping a deletion
    | NotApplied

  // A deletion: the store's delete, git rm with its commit, and the reads of the page.
  datatype DeleteReplies = DeleteReplies(
    missingReads: bool, before: Target, stopsBeforeDelete: bool,
    deleted: Effect, deleteSucceeds: bool,
    removed: Committed, removeSucceeds: bool, headReads: bool, lastReads: bool)

  class Engine {
    var target: Target
    var marker: bool

    constructor (target: Target)
      ensures this.target == target && !marker
    {
      this.target, marker := target, false;
    }

    ghost function Value(): State
      reads this
    {
      State(target, marker)
    }

    // Read back the page and the file: they agree with each other, and with the intended document if one
    // is given.
    method VerifyReadback(readable: bool, expected: Option<Doc>) returns (ok: bool)
      ensures ok <==> readable && target.Agrees() && (expected.Some? ==> target.db == expected)
    {
      if !readable || target.db.None? || target.disk.None? { return false; }
      if target.db.value != target.disk.value { return false; }
      if expected.Some? && target.db.value != expected.value { return false; }
      return true;
    }

    method WriteRecoveryMarker(written: bool)
      modifies this`marker
      ensures marker == (old(marker) || written)
    {
      if written { marker := true; }
    }

    method Suffer(effect: Effect)
      modifies this`target
      ensures target == old(target).(db := effect.db, disk := effect.disk)
    {
      target := Target(effect.db, effect.disk, target.head);
    }

    // A full sync from the file, then a read-back without an intended document.
    method RecoverFromDiskFailure(r: Replies) returns (outcome: Outcome)
      modifies this
      ensures target == old(target).(db := r.sync.db, disk := r.sync.disk)
      ensures outcome == DbUpdatedDiskFailed || outcome == RecoveryRequired
      ensures outcome == DbUpdatedDiskFailed <==> Recovered(r)
      ensures marker == (old(marker) || (outcome == RecoveryRequired && r.markerWritten))
    {
      Suffer(r.sync);
      if !r.syncSucceeds {
        WriteRecoveryMarker(r.markerWritten);
        return RecoveryRequired;
      }
      var ok := VerifyReadback(r.secondRead, None);
      if !ok {
        WriteRecoveryMarker(r.markerWritten);
        return RecoveryRequired;
      }
      return DbUpdatedDiskFailed;
    }

    method HandlePostCapture(intended: Doc, r: Replies) returns (outcome: Outcome)
      requires r.captureStatus.Replied?
      modifies this
      ensures outcome in {AppliedAndCommitted, AppliedUncommitted, DbUpdatedDiskFailed, RecoveryRequired}
      ensures outcome == AppliedAndCommitted <==> Verified(old(target), intended, r) && CleanAfterCommit(r)
      ensures outcome == AppliedUncommitted <==> Verified(old(target), intended, r) && !CleanAfterCommit(r)
      ensures outcome == DbUpdatedDiskFailed <==> !Verified(old(target), intended, r) && Recovered(r)
      ensures Verified(old(target), intended, r) ==> target == Target(Some(intended), r.committed.disk, r.committed.head)
      ensures !Verified(old(target), intended, r) ==> target == old(target).(db := r.sync.db, disk := r.sync.disk)
      ensures marker == (old(marker) || (outcome == RecoveryRequired && r.markerWritten))
    {
      if !r.captureStatus.written {
        outcome := RecoverFromDiskFailure(r);
        return;
      }
      var ok := VerifyReadback(r.firstRead, Some(intended));
      if !ok {
        outcome := RecoverFromDiskFailure(r);
        return;
      }
      target := Target(target.db, r.committed.disk, r.committed.head);
      if !r.commitSucceeds { return AppliedUncommitted; }
      if !r.statusReads { return AppliedUncommitted; }
      if !target.Clean() || !r.sameBytes { return AppliedUncommitted; }
      return AppliedAndCommitted;
    }

    method ReconcileAfterCaptureFailure(intended: Doc, r: Replies) returns (outcome: Outcome)
      modifies this
      ensures outcome == AppliedUncommitted || outcome == RecoveryRequired
      ensures outcome == AppliedUncommitted <==> r.firstRead && target.db == target.disk == Some(intended)
      ensures target == old(target)
      ensures marker == (old(marker) || (outcome == RecoveryRequired && r.markerWritten))
    {
      var ok := VerifyReadback(r.firstRead, Some(intended));
      if ok { return AppliedUncommitted; }
      WriteRecoveryMarker(r.markerWritten);
      return RecoveryRequired;
    }

    // One mutation, from the marker check to its result.
    method Mutate(intended: Doc, r: Replies) returns (outcome: Outcome)
      modifies this
      ensures MutationStep(old(Value()), intended, r, outcome, Value())
    {
      if marker { return Blocked; }
      target := r.before;
      if r.stopsBeforeCapture { return Stopped; }
      Suffer(r.capture);
      if r.captureStatus.Failed? {
        outcome := ReconcileAfterCaptureFailure(intended, r);
      } else {
        outcome := HandlePostCapture(intended, r);
      }
    }

    // One deletion.  Here recovery is reported without a marker.
    method Delete(r: DeleteReplies) returns (outcome: Outcome)
      modifies this`target
      ensures DeletionStep(old(Value()), r, outcome, Value())
    {
      if marker { return Blocked; }
      if target.disk.None? {
        return if r.missingReads && target.db.None? then NotApplied else Stopped;
      }
      if !target.Clean() { return Stopped; }
      target := r.before;
      if r.stopsBeforeDelete { return Stopped; }
      Suffer(r.deleted);
      if !r.deleteSucceeds { return Stopped; }
      target := target.(disk := r.removed.disk, head := r.removed.head);
      if !r.removeSucceeds { return RecoveryRequired; }
      if !r.headReads { return AppliedUncommitted; }
      if !r.lastReads { return Stopped; }
      return if target.db.Some? then RecoveryRequired else AppliedAndCommitted;
    }

    method ClearMarker()
      modifies this`marker
      ensures !marker
    {
      marker := false;
    }
  }

  // ----- what an outcome promises -----

  // The read-back after the capture found the intended document in the database and in the file.
  predicate Verified(captured: Target, intended: Doc, r: Replies) {
    r.captureStatus == Replied(true) && r.firstRead && captured.db == captured.disk == Some(intended)
  }

  // Git committed and its status then shows the target clean.
  predicate CleanAfterCommit(r: Replies) {
    r.commitSucceeds && r.statusReads && r.sameBytes && r.committed.disk == r.committed.head
  }

  // Whatever everyone else did, the result says the truth about the database, and about the file as git
  // last saw it.
  ghost predicate Sound(outcome: Outcome, intended: Doc, target: Target) {
    match outcome
    case AppliedAndCommitted => target.db == Some(intended) && target.Clean()
    case AppliedUncommitted => target.db == Some(intended)
    case DbUpdatedDiskFailed => target.Agrees()
    case _ => true
  }

  // The mutation got past its guards and captured.
  predicate Captured(s: State, r: Replies) { !s.marker && !r.stopsBeforeCapture }

  // The full sync ran, and afterwards the page and the file can be read back and agree.
  predicate Recovered(r: Replies) {
    r.syncSucceeds && r.secondRead && r.sync.db.Some? && r.sync.db == r.sync.disk
  }

  // Exactly when each result is reported, and what the mutation leaves.  A capture that failed is only
  // read back; one that replied is committed if it is verified, else synced from the file.
  ghost predicate MutationStep(s: State, intended: Doc, r: Replies, outcome: Outcome, s': State) {
    var captured := Target(r.capture.db, r.capture.disk, r.before.head);
    var verified := Captured(s, r) && Verified(captured, intended, r);
    var asIntended := r.firstRead && r.capture.db == r.capture.disk == Some(intended);
    && (outcome == Blocked <==> s.marker)
    && (outcome == Stopped <==> !s.marker && r.stopsBeforeCapture)
    && (outcome == AppliedAndCommitted <==> verified && CleanAfterCommit(r))
    && (outcome == AppliedUncommitted <==>
          (verified && !CleanAfterCommit(r)) || (Captured(s, r) && r.captureStatus.Failed? && asIntended))
    && (outcome == DbUpdatedDiskFailed <==> Captured(s, r) && r.captureStatus.Replied? && !verified && Recovered(r))
    && (outcome == RecoveryRequired <==>
          && Captured(s, r)
          && if r.captureStatus.Failed? then !asIntended else !verified && !Recovered(r))
    && outcome != NotApplied
    && s'.target == (
         if s.marker then s.target
         else if r.stopsBeforeCapture then r.before
         else if r.captureStatus.Failed? then captured
         else if verified then Target(Some(intended), r.committed.disk, r.committed.head)
         else Target(r.sync.db, r.sync.disk, r.before.head))
    && s'.marker == (s.marker || (outcome == RecoveryRequired && r.markerWritten))
  }

  // Every result is sound.
  lemma MutationIsSound(s: State, intended: Doc, r: Replies, outcome: Outcome, s': State)
    requires MutationStep(s, intended, r, outcome, s')
    ensures Sound(outcome, intended, s'.target)
  {
  }

  // applied_and_committed means that database, file and HEAD all hold the intended document exactly when
  // nobody changed the file between its read-back and the commit's status check.
  lemma AgreementExact(s: State, intended: Doc, r: Replies, s': State)
    requires MutationStep(s, intended, r, AppliedAndCommitted, s')
    ensures s'.target.db == s'.target.disk == s'.target.head == Some(intended) <==> r.committed.disk == r.capture.disk
  {
  }

  // Where it falls short: another writer's text in the file is committed in place of the one read back.
  lemma OverwrittenFileIsCommitted(intended: Doc, other: Doc) returns (s: State, r: Replies, s': State)
    requires intended != other
    ensures MutationStep(s, intended, r, AppliedAndCommitted, s') && s'.target.disk == s'.target.head == Some(other)
  {
    var now := Some(intended);
    s := State(Target(None, None, None), false);
    r := Replies(s.target, false, Effect(now, now), Replied(true), true, Committed(Some(other), Some(other)), true, true, true,
                 Effect(None, None), false, false, false);
    s' := State(Target(now, Some(other), Some(other)), false);
  }

  // ----- deletions -----

  // The deletion got past its guards: the file exists and is clean, and nothing stopped it.
  predicate Begun(s: State, r: DeleteReplies) {
    !s.marker && s.target.disk.Some? && s.target.Clean() && !r.stopsBeforeDelete
  }

  // Exactly when each result is reported, and what is then true.
  ghost predicate DeletionStep(s: State, r: DeleteReplies, outcome: Outcome, s': State) {
    && s'.marker == s.marker
    && (outcome == Blocked <==> s.marker)
    && (outcome == NotApplied <==> !s.marker && s.target.disk.None? && s.target.db.None? && r.missingReads)
    && (outcome == RecoveryRequired <==>
          Begun(s, r) && r.deleteSucceeds && (!r.removeSucceeds || (r.headReads && r.lastReads && r.deleted.db.Some?)))
    && (outcome == AppliedAndCommitted <==>
          Begun(s, r) && r.deleteSucceeds && r.removeSucceeds && r.headReads && r.lastReads && r.deleted.db.None?)
    && (outcome == AppliedUncommitted <==> Begun(s, r) && r.deleteSucceeds && r.removeSucceeds && !r.headReads)
    && outcome != DbUpdatedDiskFailed
    && s'.target == (
         if s.marker || s.target.disk.None? || !s.target.Clean() then s.target
         else if r.stopsBeforeDelete then r.before
         else if !r.deleteSucceeds then Target(r.deleted.db, r.deleted.disk, r.before.head)
         else Target(r.deleted.db, r.removed.disk, r.removed.head))
  }

  // A deletion that reports recovery can happen: git rm fails after the store's delete.
  lemma DeletionRecoveryReached(doc: Doc) returns (s: State, r: DeleteReplies, s': State)
    ensures DeletionStep(s, r, RecoveryRequired, s') && !s'.marker
  {
    var there := Target(Some(doc), Some(doc), Some(doc));
    s := State(there, false);
    r := DeleteReplies(true, there, false, Effect(None, Some(doc)), true, Committed(Some(doc), Some(doc)), false, true, true);
    s' := State(Target(None, Some(doc), Some(doc)), false);
  }

  // ----- runs -----

  datatype Event =
    | Mutation(intended: Doc, replies: Replies, outcome: Outcome)
    | Deletion(deleteReplies: DeleteReplies, result: Outcome)
    | OperatorClears
    | OutsideEdit(target: Target)

  ghost predicate Step(s: State, e: Event, s': State) {
    match e
    case Mutation(intended, r, outcome) => MutationStep(s, intended, r, outcome, s')
    case Deletion(r, outcome) => DeletionStep(s, r, outcome, s')
    case OperatorClears => s' == s.(marker := false)
    case OutsideEdit(target) => s' == s.(target := target)
  }

  ghost predicate Run(ss: seq<State>, es: seq<Event>) {
    && |ss| == |es| + 1 && !ss[0].marker
    && forall i | 0 <= i < |es| :: Step(ss[i], es[i], ss[i + 1])
  }

  predicate ReportsRecovery(e: Event) {
    (e.Mutation? && e.outcome == RecoveryRequired) || (e.Deletion? && e.result == RecoveryRequired)
  }

  // A capture that reported recovery and whose marker was written.
  predicate AsksRecovery(e: Event) {
    e.Mutation? && e.outcome == RecoveryRequired && e.replies.markerWritten
  }

  predicate IsBlocked(e: Event) {
    (e.Mutation? && e.outcome == Blocked) || (e.Deletion? && e.result == Blocked)
  }

  // A marker is present exactly when some capture asked for recovery, its marker was written, and no
  // operator cleared it since.
  lemma {:induction false} MarkerExact(ss: seq<State>, es: seq<Event>, j: nat)
    requires Run(ss, es) && j < |ss|
    ensures ss[j].marker <==> exists i | 0 <= i < j :: AsksRecovery(es[i]) && NotCleared(es, i, j)
  {
    hide Sound, Verified, CleanAfterCommit, Begun, Recovered;
    if j > 0 {
      MarkerExact(ss, es, j - 1);
      assert Step(ss[j - 1], es[j - 1], ss[j]);
      if ss[j].marker && ss[j - 1].marker {
        var i :| 0 <= i < j - 1 && AsksRecovery(es[i]) && NotCleared(es, i, j - 1);
        assert NotCleared(es, i, j);
      } else if ss[j].marker {
        assert AsksRecovery(es[j - 1]) && NotCleared(es, j - 1, j);
      }
      forall i | 0 <= i < j && AsksRecovery(es[i]) && NotCleared(es, i, j) ensures ss[j].marker {
        if i < j - 1 { assert NotCleared(es, i, j - 1); }
      }
    }
  }

  predicate NotCleared(es: seq<Event>, i: nat, j: nat)
    requires i < j <= |es|
  {
    forall k | i < k < j :: !es[k].OperatorClears?
  }

  // A mutation or deletion is blocked exactly then, and blocked ones touch nothing.
  lemma BlockedExact(ss: seq<State>, es: seq<Event>, j: nat)
    requires Run(ss, es) && j < |es| && (es[j].Mutation? || es[j].Deletion?)
    ensures IsBlocked(es[j]) <==> exists i | 0 <= i < j :: AsksRecovery(es[i]) && NotCleared(es, i, j)
    ensures IsBlocked(es[j]) ==> ss[j + 1] == ss[j]
  {
    hide Sound, Verified, CleanAfterCommit, Begun, Recovered;
    MarkerExact(ss, es, j);
    assert Step(ss[j], es[j], ss[j + 1]);
  }

  // Of the recovery reports of steps that were not blocked themselves, exactly those of captures whose
  // marker was written block the next step; no deletion's does.
  lemma RecoveryBlocksNext(ss: seq<State>, es: seq<Event>, i: nat)
    requires Run(ss, es) && i + 1 < |es| && ReportsRecovery(es[i])
    requires es[i + 1].Mutation? || es[i + 1].Deletion?
    ensures IsBlocked(es[i + 1]) <==> es[i].Mutation? && es[i].replies.markerWritten
    ensures es[i].Deletion? ==> !IsBlocked(es[i + 1])
  {
    hide Sound, Verified, CleanAfterCommit, Begun, Recovered;
    assert Step(ss[i], es[i], ss[i + 1]);
    assert Step(ss[i + 1], es[i + 1], ss[i + 2]);
  }

  // The last result of a run is still true of the task as long as only blocked steps followed it.
  lemma {:induction false} LastResultHolds(ss: seq<State>, es: seq<Event>, i: nat, j: nat)
    requires Run(ss, es) && i < j < |ss| && es[i].Mutation?
    requires forall k | i < k < j :: es[k].OperatorClears? || IsBlocked(es[k])
    ensures Sound(es[i].outcome, es[i].intended, ss[j].target)
  {
    hide Sound, Verified, CleanAfterCommit, Begun, Recovered;
    assert Step(ss[j - 1], es[j - 1], ss[j]);
    if i + 1 < j {
      LastResultHolds(ss, es, i, j - 1);
    } else {
      MutationIsSound(ss[i], es[i].intended, es[i].replies, es[i].outcome, ss[j]);
    }
  }
}
