/** Any number of calls on the two stores, succeeding, failing or cut short: what holds between them. */
module Session {
  import opened Wrappers
  import opened Text
  import opened Vault
  import opened Protocol
  import opened Guarantees
  import opened Blocklist
  import opened Store
  import opened LanceWriter
  import opened Deletion
  import opened Scheduler
  import opened WritePath

  /** One call of the application, with what the outside answers during it. */
  datatype Call =
    | Persist(capture: Capture, io: Io)
    | Tick(world: World, tickMs: nat)
    | Drain(worlds: nat -> World, drainMs: nat)
    | Erase(scope: DeleteScope, canRead: bool, lanceWorks: bool, canDelete: bool)
    | Reindex(canDrop: bool, canReset: bool, rounds: nat -> World, reindexMs: int)

  /** Embedders return one vector for each text, and the clock is not at its zero. */
  ghost predicate IsPossible(call: Call) {
    match call
    case Persist(_, _) => true
    case Tick(w, _) => Honest(w)
    case Drain(ws, now) => now != 0 && forall i :: Honest(ws(i))
    case Erase(_, _, _, _) => true
    case Reindex(_, _, ws, now) => now != 0 && forall i :: Honest(ws(i))
  }

  /** Capturing and flushing only. */
  predicate OnlyCaptures(call: Call) {
    call.Persist? || call.Tick? || call.Drain?
  }

  /** SQLite goes through whenever Lance has: the call stops in no window. It may fail before. */
  ghost predicate StopsInNoWindow(call: Call) {
    match call
    case Persist(_, _) => true
    case Tick(w, _) => w.canStamp
    case Drain(ws, _) => AllStamp(ws)
    case Erase(_, _, _, canDelete) => canDelete
    case Reindex(_, canReset, ws, _) => canReset && AllStamp(ws)
  }

  // ----- the effects of calls ------------------------------------------------------------

  ghost predicate AreCaptureSteps(steps: seq<Step>) {
    forall i | 0 <= i < |steps| :: CaptureStep(steps[i])
  }

  /** No stop, and no stamp of 0. */
  ghost predicate AreQuiet(steps: seq<Step>) {
    forall i | 0 <= i < |steps| :: !steps[i].Stop? && (steps[i].Stamp? ==> steps[i].nowMs != 0)
  }

  ghost predicate HasNoWrites(steps: seq<Step>) {
    forall i | 0 <= i < |steps| :: !steps[i].Insert? && !steps[i].Merge?
  }

  lemma NoWritesAreWritten(u: Unicode, s: System, steps: seq<Step>)
    requires HasNoWrites(steps)
    ensures WrittenByWritePath(u, s, steps)
  {
  }

  lemma FlushRunEffects(steps: seq<Step>, nowMs: int, stops: bool)
    requires FlushRun(steps, nowMs, stops)
    ensures AreCaptureSteps(steps) && HasNoWrites(steps)
    ensures !stops && nowMs != 0 ==> AreQuiet(steps)
  {
    assert forall i | 0 <= i < |steps| :: IsFlushStep(steps[i], nowMs, stops);
  }

  lemma WroteKinds(u: Unicode, t: Truth, steps: seq<Step>, after: Truth)
    requires Wrote(u, t, steps, after)
    ensures AreCaptureSteps(steps) && AreQuiet(steps)
  {
    hide FromWritePath, StepWrites;
  }

  lemma WroteIsARun(u: Unicode, v: Vault, steps: seq<Step>, after: Truth)
    requires Wrote(u, v.truth, steps, after)
    ensures Path(System(v, Idle), steps, System(v.(truth := after), Idle))
    ensures WrittenByWritePath(u, System(v, Idle), steps)
    ensures AreCaptureSteps(steps) && AreQuiet(steps)
  {
    hide FromWritePath, AreCaptureSteps, AreQuiet, StepWrites, Path, WrittenByWritePath;
    var s := System(v, Idle);
    WroteKinds(u, v.truth, steps, after);
    if steps == [] {
      PathStarts(s);
      NoWritesAreWritten(u, s, steps);
    } else {
      assert steps == [steps[0]];
      assert StepWrites(System(Vault(v.truth, v.index, v.dim), Idle), steps[0], after);
      OneWriteIsARun(u, v, steps[0], after);
    }
  }

  lemma OneWriteIsARun(u: Unicode, v: Vault, step: Step, after: Truth)
    requires StepWrites(System(v, Idle), step, after) && FromWritePath(u, v.truth, step)
    ensures Path(System(v, Idle), [step], System(v.(truth := after), Idle))
    ensures WrittenByWritePath(u, System(v, Idle), [step])
  {
    hide FromWritePath, Enabled, Do;
    var s := System(v, Idle);
    PathStarts(s);
    PathExtends(s, [], s, step);
    assert [] + [step] == [step] && [step][..0] == [];
  }

  lemma DeleteStepsAre(ids: set<string>, resolves: bool, lanceWorks: bool, canDelete: bool)
    ensures HasNoWrites(DeleteSteps(ids, resolves, lanceWorks, canDelete))
    ensures canDelete ==> AreQuiet(DeleteSteps(ids, resolves, lanceWorks, canDelete))
  {
  }

  lemma RebuildStepsAre(steps: seq<Step>, canDrop: bool, canReset: bool, nowMs: int, stops: bool)
    requires DropSteps(canDrop, canReset) <= steps
    requires FlushRun(steps[|DropSteps(canDrop, canReset)|..], nowMs, stops)
    ensures HasNoWrites(steps)
    ensures canReset && !stops && nowMs != 0 ==> AreQuiet(steps)
  {
    var first := DropSteps(canDrop, canReset);
    var more := steps[|first|..];
    FlushRunEffects(more, nowMs, stops);
    assert steps == first + more;
  }

  lemma {:induction false} WrittenJoins(u: Unicode, s: System, a: seq<Step>, mid: System, b: seq<Step>, s': System)
    requires Path(s, a, mid) && Path(mid, b, s')
    requires WrittenByWritePath(u, s, a) && WrittenByWritePath(u, mid, b)
    ensures WrittenByWritePath(u, s, a + b)
  {
    hide FromWritePath;
    var all := a + b;
    forall i | 0 <= i < |all| && Exec(s, all[..i]).Some?
      ensures FromWritePath(u, Exec(s, all[..i]).value.vault.truth, all[i])
    {
      if i < |a| {
        assert all[..i] == a[..i];
      } else {
        var k := i - |a|;
        assert all[..i] == a + b[..k];
        PrefixRuns(mid, b, s', k);
        PathJoins(s, a, mid, b[..k], Exec(mid, b[..k]).value);
      }
    }
  }

  // ----- what holds between calls ----------------------------------------------------------

  /** The stores as a run from nothing has left them, through the write path. */
  ghost predicate Reached(u: Unicode, dim: nat, steps: seq<Step>, s: System) {
    Path(Fresh(dim), steps, s) && s.phase.Idle? && WrittenByWritePath(u, Fresh(dim), steps)
  }

  lemma ReachedJoins(u: Unicode, dim: nat, steps: seq<Step>, mid: System, more: seq<Step>, s: System)
    requires Reached(u, dim, steps, mid) && Path(mid, more, s) && s.phase.Idle? && WrittenByWritePath(u, mid, more)
    ensures Reached(u, dim, steps + more, s)
  {
    PathJoins(Fresh(dim), steps, mid, more, s);
    WrittenJoins(u, Fresh(dim), steps, mid, more, s);
  }

  lemma QuietIsOrderly(u: Unicode, dim: nat, steps: seq<Step>, s: System)
    requires Reached(u, dim, steps, s) && AreQuiet(steps)
    ensures OrderlyRun(Fresh(dim), steps)
  {
    WritePathInsertsOneChunk(u, Fresh(dim), steps, s);
  }

  /** The guarantees, once for every reachable state. */
  lemma ReachedIsSound(u: Unicode, dim: nat, steps: seq<Step>, s: System)
    requires Reached(u, dim, steps, s)
    ensures Consistent(s.vault.truth) && NoOrphans(s.vault) && CleanVault(s.vault)
    ensures AreCaptureSteps(steps) ==> StampedAreIndexed(s.vault)
    ensures AreQuiet(steps) ==> Exact(s.vault)
  {
    hide Path, WrittenByWritePath, NoOrphans, CleanVault, Exact, HasJoinRow;
    NeverOrphans(dim, steps, s);
    SecretsNeverReachDisk(u, dim, steps, s);
    if AreCaptureSteps(steps) {
      WritePathInsertsOneChunk(u, Fresh(dim), steps, s);
      forall c | c in Stamped(s.vault.truth) ensures HasJoinRow(s.vault, c) {
        AtLeastOnceWithRecord(dim, steps, s, c);
      }
    }
    if AreQuiet(steps) {
      QuietIsOrderly(u, dim, steps, s);
      ExactlyOnce(dim, steps, s);
    }
  }

  /** A crash inside any call, after any of its effects, leaves a reachable state too: the next calls
      start from it, and all of the above holds there. */
  lemma CrashedIsReached(u: Unicode, dim: nat, steps: seq<Step>, s: System, i: nat)
    requires Reached(u, dim, steps, s) && i <= |steps|
    ensures exists crashed :: Reached(u, dim, steps[..i] + [Stop], crashed)
                              && crashed.vault == Exec(Fresh(dim), steps[..i]).value.vault
    ensures AreCaptureSteps(steps) ==> AreCaptureSteps(steps[..i] + [Stop])
  {
    hide FromWritePath;
    CrashAnywhere(Fresh(dim), steps, s, i);
    var crashed :| Path(Fresh(dim), steps[..i] + [Stop], crashed) && crashed.phase.Idle?
                   && crashed.vault == Exec(Fresh(dim), steps[..i]).value.vault;
    var shorter := steps[..i] + [Stop];
    assert forall k | 0 <= k < i :: shorter[..k] == steps[..k] && shorter[k] == steps[k];
    assert shorter[i] == Stop;
    assert Reached(u, dim, shorter, crashed) by {
      forall k | 0 <= k < |shorter| && Exec(Fresh(dim), shorter[..k]).Some?
        ensures FromWritePath(u, Exec(Fresh(dim), shorter[..k]).value.vault.truth, shorter[k])
      {
        if k == i {
          StopIsFromAnywhere(u, Exec(Fresh(dim), shorter[..k]).value.vault.truth);
        }
      }
    }
  }

  lemma StopIsFromAnywhere(u: Unicode, t: Truth)
    ensures FromWritePath(u, t, Stop)
  {
  }

  // ----- calls -------------------------------------------------------------------------------

  method PerformPersist(scheduler: CaptureScheduler, web: Web, b: Blocklist, capture: Capture, io: Io)
    returns (ghost steps: seq<Step>)
    requires Consistent(scheduler.store.Contents())
    modifies scheduler.store
    ensures Path(System(old(scheduler.Sees()), Idle), steps, System(scheduler.Sees(), Idle))
    ensures WrittenByWritePath(web.unicode, System(old(scheduler.Sees()), Idle), steps)
    ensures AreCaptureSteps(steps) && AreQuiet(steps)
  {
    hide Path, WrittenByWritePath, Wrote, AreCaptureSteps, AreQuiet, Consistent, IsRefused, RefusedFirstFor, IsStored;
    hide IsContinued, NewBlocklist, OwnerLists, NothingContinues, SomethingContinues, MergedNewest, InsertOf;
    ghost var v := scheduler.Sees();
    var r, into, more := PersistCapture(scheduler.store, web, b, capture, io);
    steps := more;
    WroteIsARun(web.unicode, v, steps, scheduler.store.Contents());
  }

  method PerformErase(scheduler: CaptureScheduler, web: Web, scope: DeleteScope, canRead: bool, lanceWorks: bool,
                      canDelete: bool)
    returns (ghost steps: seq<Step>)
    requires Consistent(scheduler.store.Contents())
    modifies scheduler.store, scheduler.writer
    ensures Path(System(old(scheduler.Sees()), Idle), steps, System(scheduler.Sees(), Idle))
    ensures HasNoWrites(steps) && (canDelete ==> AreQuiet(steps))
  {
    hide Path, AreQuiet, HasNoWrites, Consistent, DeleteSteps, InScope, ValidScope, Deleted, Rows;
    hide IndexWithoutRecords, HasHost, PlainDomain, IsGone, EndsWith, Labels;
    ghost var v := scheduler.Sees();
    var r, more := DeleteEverywhere(scheduler.store, scheduler.writer, web, scope, canRead, lanceWorks, canDelete);
    steps := more;
    DeleteStepsAre(InScope(v.truth, web, scope), ValidScope(web, scope) && canRead, lanceWorks, canDelete);
  }

  /** One call, whatever becomes of it: its effects are a run, of the kinds its contract names. */
  method Perform(scheduler: CaptureScheduler, web: Web, b: Blocklist, call: Call) returns (ghost steps: seq<Step>)
    requires Consistent(scheduler.store.Contents()) && IsPossible(call)
    modifies scheduler, scheduler.store, scheduler.writer
    ensures Path(System(old(scheduler.Sees()), Idle), steps, System(scheduler.Sees(), Idle))
    ensures WrittenByWritePath(web.unicode, System(old(scheduler.Sees()), Idle), steps)
    ensures OnlyCaptures(call) ==> AreCaptureSteps(steps)
    ensures StopsInNoWindow(call) ==> AreQuiet(steps)
  {
    hide Path, WrittenByWritePath, AreCaptureSteps, AreQuiet, HasNoWrites, FlushRun, FlushSteps, Honest, Consistent;
    hide AllStamp, DropSteps, StampedAreIndexed, StampedAt, Exact, Cooperates, AfterFlush, Pending, IsBatch, AllReset;
    hide RebuildWorks, AllAnswer, BatchesFor, DrainWorks, Rows;
    ghost var v := scheduler.Sees();
    match call {
      case Persist(capture, io) =>
        steps := PerformPersist(scheduler, web, b, capture, io);
      case Tick(w, now) =>
        var r, batch, more := scheduler.TickFlush(w, now);
        steps := more;
        TickStepsAre(w, v, batch, StampFor(now), steps, r.NotDue?);
        NoWritesAreWritten(web.unicode, System(v, Idle), steps);
      case Drain(worlds, now) =>
        var r, done, more := scheduler.FlushOnShutdown(worlds, now);
        steps := more;
        FlushRunEffects(steps, StampFor(now), !AllStamp(worlds));
        NoWritesAreWritten(web.unicode, System(v, Idle), steps);
      case Erase(scope, canRead, lanceWorks, canDelete) =>
        steps := PerformErase(scheduler, web, scope, canRead, lanceWorks, canDelete);
        NoWritesAreWritten(web.unicode, System(v, Idle), steps);
      case Reindex(canDrop, canReset, worlds, now) =>
        var r, done, more := scheduler.writer.Rebuild(scheduler.store, canDrop, canReset, worlds, now);
        steps := more;
        RebuildStepsAre(steps, canDrop, canReset, now, !AllStamp(worlds));
        NoWritesAreWritten(web.unicode, System(v, Idle), steps);
    }
  }

  lemma TickStepsAre(w: World, v: Vault, batch: seq<string>, stamp: int, steps: seq<Step>, notDue: bool)
    requires forall c | c in batch :: c in v.truth.chunks
    requires steps == if notDue then [] else FlushSteps(w, v, batch, stamp)
    ensures AreCaptureSteps(steps) && HasNoWrites(steps)
    ensures w.canStamp && (notDue || stamp != 0) ==> AreQuiet(steps)
  {
    hide FlushSteps;
    if !notDue {
      FlushStepsAreARun(w, v, batch, stamp, !w.canStamp);
      FlushRunEffects(steps, stamp, !w.canStamp);
    }
  }

  /** Any calls in any order, each succeeding or failing anywhere. What a crash cuts short is covered too:
      it leaves a state that is `Reached`, from which a session may start again. */
  method RunSession(scheduler: CaptureScheduler, web: Web, b: Blocklist, calls: seq<Call>, ghost before: seq<Step>)
    returns (ghost steps: seq<Step>)
    requires Reached(web.unicode, scheduler.writer.dim, before, System(scheduler.Sees(), Idle))
    requires forall call | call in calls :: IsPossible(call)
    modifies scheduler, scheduler.store, scheduler.writer
    ensures before <= steps && Reached(web.unicode, scheduler.writer.dim, steps, System(scheduler.Sees(), Idle))
    ensures NoOrphans(scheduler.Sees()) && CleanVault(scheduler.Sees())
    ensures AreCaptureSteps(before) && (forall call | call in calls :: OnlyCaptures(call)) ==>
              StampedAreIndexed(scheduler.Sees())
    ensures AreQuiet(before) && (forall call | call in calls :: StopsInNoWindow(call)) ==> Exact(scheduler.Sees())
  {
    hide Reached, IsPossible, StopsInNoWindow, AreQuiet, AreCaptureSteps, OnlyCaptures, NoOrphans, CleanVault, Exact;
    hide StampedAreIndexed, Path, WrittenByWritePath, Consistent;
    steps := before;
    ghost var dim := scheduler.writer.dim;
    ReachedIsSound(web.unicode, dim, steps, System(scheduler.Sees(), Idle));
    var n := 0;
    while n < |calls|
      invariant n <= |calls| && before <= steps
      invariant Reached(web.unicode, dim, steps, System(scheduler.Sees(), Idle))
      invariant Consistent(scheduler.Sees().truth)
      invariant AreCaptureSteps(before) && (forall call | call in calls :: OnlyCaptures(call)) ==>
                  AreCaptureSteps(steps)
      invariant AreQuiet(before) && (forall call | call in calls :: StopsInNoWindow(call)) ==> AreQuiet(steps)
    {
      ghost var mid := System(scheduler.Sees(), Idle);
      var call := calls[n];
      assert call in calls;
      ghost var more := Perform(scheduler, web, b, call);
      ReachedJoins(web.unicode, dim, steps, mid, more, System(scheduler.Sees(), Idle));
      KindsJoin(steps, more);
      steps := steps + more;
      ReachedIsSound(web.unicode, dim, steps, System(scheduler.Sees(), Idle));
      n := n + 1;
    }
    ReachedIsSound(web.unicode, dim, steps, System(scheduler.Sees(), Idle));
  }

  lemma KindsJoin(a: seq<Step>, b: seq<Step>)
    ensures AreCaptureSteps(a) && AreCaptureSteps(b) ==> AreCaptureSteps(a + b)
    ensures AreQuiet(a) && AreQuiet(b) ==> AreQuiet(a + b)
  {
  }

  /** A new store and a new writer are where every session starts. */
  lemma FreshIsReached(u: Unicode, dim: nat)
    ensures Reached(u, dim, [], Fresh(dim)) && AreCaptureSteps([]) && AreQuiet([])
  {
  }
}
