/** What the protocol guarantees over every run, and exactly where each guarantee ends. */
module Guarantees {
  import opened Wrappers
  import opened Vault
  import opened Protocol

  function Fresh(dim: nat): System {
    System(Vault(Truth(map[], map[]), Missing, dim), Idle)
  }

  // ----- at least once, and no orphans -----------------------------------------

  lemma {:induction false} RunKeepsInvariant(s: System, lost: set<string>, steps: seq<Step>, s': System)
    requires Invariant(s, lost) && Path(s, steps, s')
    ensures Invariant(s', Lost(lost, s, steps))
  {
    if steps == [] {
    } else {
      var n := |steps| - 1;
      var mid := Exec(s, steps[..n]).value;
      RunKeepsInvariant(s, lost, steps[..n], mid);
      StepKeepsInvariant(mid, Lost(lost, s, steps[..n]), steps[n]);
    }
  }

  /** Whatever stops in the middle of whatever operation, no Lance row outlives its chunk or record. */
  lemma NeverOrphans(dim: nat, steps: seq<Step>, s': System)
    requires Path(Fresh(dim), steps, s')
    ensures NoOrphans(s'.vault)
    ensures Consistent(s'.vault.truth)
  {
    RunKeepsInvariant(Fresh(dim), {}, steps, s');
  }

  /** A stamped chunk is in the index with its present text exactly when no interrupted deletion or
      rebuild has removed its rows. */
  lemma StampedIsIndexedIff(dim: nat, steps: seq<Step>, s': System, c: string)
    requires Path(Fresh(dim), steps, s') && c in Stamped(s'.vault.truth)
    ensures HasCurrentRow(s'.vault, c) <==> c !in Lost({}, Fresh(dim), steps)
  {
    RunKeepsInvariant(Fresh(dim), {}, steps, s');
    if c in Lost({}, Fresh(dim), steps) {
      assert !HasAnyRow(s'.vault, c);
      assert forall i | 0 <= i < |Rows(s'.vault.index)| :: Rows(s'.vault.index)[i].chunkId != c;
    }
  }

  /** A stop right after the Lance half of a deletion, or right after the drop of a rebuild. */
  ghost predicate StopsInWindow(steps: seq<Step>, i: nat)
    requires i < |steps|
  {
    i > 0 && steps[i].Stop? && (steps[i - 1].DeleteRows? || steps[i - 1].Drop?)
  }

  ghost predicate WindowsComplete(steps: seq<Step>) {
    forall i: nat | i < |steps| :: !StopsInWindow(steps, i)
  }

  lemma {:induction false} PhaseNamesLastStep(s: System, steps: seq<Step>, s': System)
    requires s.phase.Idle? && Path(s, steps, s')
    ensures s'.phase.RowsDeleted? ==> steps != [] && steps[|steps| - 1] == DeleteRows(s'.phase.ids)
    ensures s'.phase.Dropped? ==> steps != [] && steps[|steps| - 1] == Drop
  {
  }

  /** Lost chunks belong to the deletion or the rebuild that is under way. */
  ghost predicate LossContained(s: System, lost: set<string>) {
    && (s.phase.RowsDeleted? ==>
          forall c | c in lost ::
            c in s.vault.truth.chunks && s.vault.truth.chunks[c].recordId in s.phase.ids)
    && (s.phase.Idle? || s.phase.Added? ==> lost == {})
  }

  lemma StepContainsLoss(s: System, lost: set<string>, step: Step)
    requires Enabled(s, step) && LossContained(s, lost)
    requires step.Stop? ==> s.phase.Idle? || s.phase.Added?
    ensures LossContained(Do(s, step), LostAfter(lost, s, step))
  {
  }

  /** Only those two windows lose rows. */
  lemma {:induction false} CompleteWindowsLoseNothing(s: System, steps: seq<Step>, s': System)
    requires s.phase.Idle? && Path(s, steps, s') && WindowsComplete(steps)
    ensures LossContained(s', Lost({}, s, steps))
  {
    hide LossContained, LostAfter, Enabled, Do;
    if steps == [] {
      NothingLost(s);
    } else {
      var n := |steps| - 1;
      var front, mid := steps[..n], Exec(s, steps[..n]).value;
      assert forall i: nat | i < n :: StopsInWindow(front, i) ==> StopsInWindow(steps, i);
      CompleteWindowsLoseNothing(s, front, mid);
      PhaseNamesLastStep(s, front, mid);
      assert !StopsInWindow(steps, n);
      StepContainsLoss(mid, Lost({}, s, front), steps[n]);
    }
  }

  lemma NothingLost(s: System)
    requires s.phase.Idle?
    ensures LossContained(s, {})
  {
  }

  ghost predicate CaptureStep(step: Step) {
    step.Insert? || step.Merge? || step.CreateTable? || step.AddRows? || step.Stamp? || step.Stop?
  }

  /** Capturing, merging and flushing, stopped anywhere and any number of times, never leave a stamped
      chunk without a row of its present text: the stamp follows the Lance commit. */
  lemma AtLeastOnce(dim: nat, steps: seq<Step>, s': System, c: string)
    requires Path(Fresh(dim), steps, s')
    requires forall i | 0 <= i < |steps| :: CaptureStep(steps[i])
    requires c in Stamped(s'.vault.truth)
    ensures HasCurrentRow(s'.vault, c)
  {
    var s := Fresh(dim);
    CompleteWindowsLoseNothing(s, steps, s');
    PhaseNamesLastStep(s, steps, s');
    StampedIsIndexedIff(dim, steps, s', c);
  }

  // ----- one-chunk records -----------------------------------------------------

  /** Every record has at most one chunk, as the capture write path leaves it. */
  ghost predicate OneChunkEach(t: Truth) {
    forall c, d | c in t.chunks && d in t.chunks && t.chunks[c].recordId == t.chunks[d].recordId :: c == d
  }

  ghost predicate OneChunkInserts(steps: seq<Step>) {
    forall i | 0 <= i < |steps| && steps[i].Insert? :: |steps[i].chunks| <= 1
  }

  ghost predicate HasJoinRow(v: Vault, c: string) {
    && c in v.truth.chunks && v.truth.chunks[c].recordId in v.truth.records
    && JoinRow(v.truth, c, v.dim) in Rows(v.index)
  }

  ghost predicate JoinInvariant(s: System, lost: set<string>) {
    && OneChunkEach(s.vault.truth)
    && (forall c | c in Stamped(s.vault.truth) && c !in lost :: HasJoinRow(s.vault, c))
    && (s.phase.Added? ==> forall c | c in s.phase.batch :: HasJoinRow(s.vault, c))
  }

  lemma InsertKeepsJoinRows(s: System, lost: set<string>, step: Step)
    requires Invariant(s, lost) && JoinInvariant(s, lost) && Enabled(s, step)
    requires step.Insert? && |step.chunks| <= 1
    ensures JoinInvariant(Do(s, step), lost)
  {
    WithChunksContents(s.vault.truth.chunks, step.id, step.chunks);
  }

  lemma AddRowsKeepsJoinRows(s: System, lost: set<string>, step: Step)
    requires Invariant(s, lost) && JoinInvariant(s, lost) && Enabled(s, step) && step.AddRows?
    ensures JoinInvariant(Do(s, step), lost)
  {
    var v, v', batch := s.vault, Do(s, step).vault, step.batch;
    forall c | c in batch ensures HasJoinRow(v', c) {
      var i :| 0 <= i < |batch| && batch[i] == c;
      assert JoinRows(v.truth, batch, v.dim)[i] == JoinRow(v'.truth, c, v.dim);
    }
  }

  lemma StepKeepsJoinRows(s: System, lost: set<string>, step: Step)
    requires Invariant(s, lost) && JoinInvariant(s, lost) && Enabled(s, step)
    requires step.Insert? ==> |step.chunks| <= 1
    ensures JoinInvariant(Do(s, step), LostAfter(lost, s, step))
  {
    var v, v' := s.vault, Do(s, step).vault;
    match step
    case Insert(id, record, cs) => InsertKeepsJoinRows(s, lost, step);
    case Merge(rid, cid, incoming, text) =>
    case AddRows(batch) => AddRowsKeepsJoinRows(s, lost, step);
    case Stamp(now) =>
      forall c | c in Stamped(v'.truth) && c !in lost ensures HasJoinRow(v', c) {
        assert c in s.phase.batch || c in Stamped(v.truth);
      }
    case DeleteRows(ids) =>
      forall c | c in Stamped(v'.truth) && c !in LostAfter(lost, s, step) ensures HasJoinRow(v', c) {
        WithoutRecordsMembers(Rows(v.index), ids, JoinRow(v.truth, c, v.dim));
      }
    case DeleteRecords =>
    case CreateTable =>
    case Drop =>
    case Reset =>
    case Stop =>
  }

  lemma {:induction false} RunKeepsJoinRows(s: System, steps: seq<Step>, s': System)
    requires Invariant(s, {}) && JoinInvariant(s, {}) && Path(s, steps, s') && OneChunkInserts(steps)
    ensures JoinInvariant(s', Lost({}, s, steps))
  {
    if steps == [] {
    } else {
      var n := |steps| - 1;
      var mid := Exec(s, steps[..n]).value;
      assert steps[n].Insert? ==> |steps[n].chunks| <= 1;
      assert forall i | 0 <= i < n :: steps[..n][i] == steps[i];
      RunKeepsJoinRows(s, steps[..n], mid);
      RunKeepsInvariant(s, {}, steps[..n], mid);
      StepKeepsJoinRows(mid, Lost({}, s, steps[..n]), steps[n]);
    }
  }

  /** For one-chunk records the row of `AtLeastOnce` also carries the record's present fields. */
  lemma AtLeastOnceWithRecord(dim: nat, steps: seq<Step>, s': System, c: string)
    requires Path(Fresh(dim), steps, s') && OneChunkInserts(steps)
    requires forall i | 0 <= i < |steps| :: CaptureStep(steps[i])
    requires c in Stamped(s'.vault.truth)
    ensures HasJoinRow(s'.vault, c)
    ensures exists r | r in Rows(s'.vault.index) :: RowSays(s'.vault.truth, r, c, s'.vault.dim)
  {
    var s := Fresh(dim);
    CompleteWindowsLoseNothing(s, steps, s');
    PhaseNamesLastStep(s, steps, s');
    RunKeepsJoinRows(s, steps, s');
    JoinRowSays(s'.vault, c);
  }

  lemma JoinRowSays(v: Vault, c: string)
    requires HasJoinRow(v, c)
    ensures exists r | r in Rows(v.index) :: RowSays(v.truth, r, c, v.dim)
  {
    assert RowSays(v.truth, JoinRow(v.truth, c, v.dim), c, v.dim);
  }

  // ----- exactly once ------------------------------------------------------------

  ghost predicate IsJoinOf(v: Vault, ids: set<string>, r: Row) {
    && r.chunkId in ids && r.chunkId in v.truth.chunks
    && v.truth.chunks[r.chunkId].recordId in v.truth.records
    && r == JoinRow(v.truth, r.chunkId, v.dim)
  }

  /** The index holds the join of each chunk of `ids` once, and nothing else. */
  ghost predicate HoldsOnce(v: Vault, ids: set<string>) {
    forall r: Row :: multiset(Rows(v.index))[r] == (if IsJoinOf(v, ids, r) then 1 else 0)
  }

  ghost predicate Exact(v: Vault) {
    HoldsOnce(v, Stamped(v.truth))
  }

  lemma RepeatedElement<T>(xs: seq<T>, i: nat, j: nat)
    requires i < j < |xs| && xs[i] == xs[j]
    ensures multiset(xs)[xs[i]] >= 2
  {
    assert xs == xs[..j] + xs[j..];
    assert xs[..j][i] == xs[i] && xs[j..][0] == xs[i];
    assert xs[i] in multiset(xs[..j]) && xs[i] in multiset(xs[j..]);
  }

  lemma ExactMembers(v: Vault)
    requires Consistent(v.truth) && Exact(v)
    ensures forall c | c in Stamped(v.truth) :: JoinRow(v.truth, c, v.dim) in Rows(v.index)
    ensures forall r | r in Rows(v.index) :: IsJoinOf(v, Stamped(v.truth), r)
  {
    var rows := Rows(v.index);
    forall r | r in rows ensures IsJoinOf(v, Stamped(v.truth), r) {
      assert r in multiset(rows);
    }
    forall c | c in Stamped(v.truth) ensures JoinRow(v.truth, c, v.dim) in rows {
      assert multiset(rows)[JoinRow(v.truth, c, v.dim)] == 1;
      assert JoinRow(v.truth, c, v.dim) in multiset(rows);
    }
  }

  /** `Exact` is a bijection: as many rows as stamped chunks, one per chunk, each its join. */
  lemma ExactIsBijection(v: Vault)
    requires Consistent(v.truth) && Exact(v)
    ensures |Rows(v.index)| == |Stamped(v.truth)|
    ensures forall i, j | 0 <= i < j < |Rows(v.index)| :: Rows(v.index)[i].chunkId != Rows(v.index)[j].chunkId
    ensures forall c | c in Stamped(v.truth) :: JoinRow(v.truth, c, v.dim) in Rows(v.index)
    ensures forall c | c in Pending(v.truth) :: !HasAnyRow(v, c)
  {
    ExactMembers(v);
    ExactIsDistinct(v);
    var rows := Rows(v.index);
    assert forall i | 0 <= i < |rows| :: rows[i] in rows;
    var ids := seq(|rows|, i requires 0 <= i < |rows| => rows[i].chunkId);
    assert Elements(ids) == Stamped(v.truth) by {
      forall c | c in Stamped(v.truth) ensures c in Elements(ids) {
        var i :| 0 <= i < |rows| && rows[i] == JoinRow(v.truth, c, v.dim);
        assert ids[i] == c;
      }
      assert forall i | 0 <= i < |rows| :: ids[i] in Stamped(v.truth);
    }
    DistinctSize(ids);
  }

  lemma ExactIsDistinct(v: Vault)
    requires Consistent(v.truth) && Exact(v)
    ensures forall i, j | 0 <= i < j < |Rows(v.index)| :: Rows(v.index)[i].chunkId != Rows(v.index)[j].chunkId
  {
    ExactMembers(v);
    var rows := Rows(v.index);
    assert forall i | 0 <= i < |rows| :: rows[i] in rows;
    forall i, j | 0 <= i < j < |rows| ensures rows[i].chunkId != rows[j].chunkId {
      if rows[i].chunkId == rows[j].chunkId {
        assert IsJoinOf(v, Stamped(v.truth), rows[i]) && IsJoinOf(v, Stamped(v.truth), rows[j]);
        RepeatedElement(rows, i, j);
      }
    }
  }

  /** Exactness, said for every phase an operation passes through. */
  ghost predicate ExactInPhase(s: System) {
    var v := s.vault;
    match s.phase
    case Idle => Exact(v)
    case Added(batch) => HoldsOnce(v, Stamped(v.truth) + Elements(batch))
    case RowsDeleted(ids) => HoldsOnce(v, set c | c in Stamped(v.truth) && v.truth.chunks[c].recordId !in ids)
    case Dropped => Rows(v.index) == []
  }

  /** A merge rewrites record fields that only rows of sibling chunks carry. */
  ghost predicate HasStampedSibling(t: Truth, rid: string) {
    exists c | c in Stamped(t) :: t.chunks[c].recordId == rid
  }

  lemma SameJoins(v: Vault, v': Vault, ids: set<string>)
    requires Rows(v'.index) == Rows(v.index) && v'.dim == v.dim && HoldsOnce(v, ids)
    requires forall c | c in ids ::
      (c in v.truth.chunks && v.truth.chunks[c].recordId in v.truth.records) <==>
      (c in v'.truth.chunks && v'.truth.chunks[c].recordId in v'.truth.records)
    requires forall c | c in ids && c in v.truth.chunks && v.truth.chunks[c].recordId in v.truth.records ::
      JoinRow(v'.truth, c, v.dim) == JoinRow(v.truth, c, v.dim)
    ensures HoldsOnce(v', ids)
  {
    forall r: Row ensures multiset(Rows(v'.index))[r] == (if IsJoinOf(v', ids, r) then 1 else 0) {
      assert IsJoinOf(v', ids, r) <==> IsJoinOf(v, ids, r);
    }
  }

  lemma InsertKeepsExact(s: System, id: string, record: Record, cs: seq<NewChunk>)
    requires Consistent(s.vault.truth) && ExactInPhase(s) && Enabled(s, Insert(id, record, cs))
    ensures ExactInPhase(Do(s, Insert(id, record, cs)))
  {
    var v, v' := s.vault, Do(s, Insert(id, record, cs)).vault;
    WithChunksContents(v.truth.chunks, id, cs);
    assert Stamped(v'.truth) == Stamped(v.truth);
    SameJoins(v, v', Stamped(v.truth));
  }

  /** Merging into a record keeps exactness exactly when no stamped chunk of that record could go
      stale: this is why only pending one-chunk records may be merged. */
  lemma MergeKeepsExactIff(s: System, rid: string, cid: string, incoming: Record, text: string)
    requires Consistent(s.vault.truth) && s.phase.Idle? && Exact(s.vault)
    requires Enabled(s, Merge(rid, cid, incoming, text))
    ensures Exact(Do(s, Merge(rid, cid, incoming, text)).vault)
       <==> !HasStampedSibling(s.vault.truth, rid)
            || incoming.capturedAtMs == s.vault.truth.records[rid].capturedAtMs
  {
    var v, v' := s.vault, Do(s, Merge(rid, cid, incoming, text)).vault;
    assert Stamped(v'.truth) == Stamped(v.truth);
    if !HasStampedSibling(v.truth, rid) || incoming.capturedAtMs == v.truth.records[rid].capturedAtMs {
      SameJoins(v, v', Stamped(v.truth));
    } else {
      var c :| c in Stamped(v.truth) && v.truth.chunks[c].recordId == rid;
      var r := JoinRow(v.truth, c, v.dim);
      assert multiset(Rows(v.index))[r] == 1;
      assert !IsJoinOf(v', Stamped(v'.truth), r);
    }
  }

  lemma AddRowsKeepsExact(s: System, batch: seq<string>)
    requires Consistent(s.vault.truth) && ExactInPhase(s) && Enabled(s, AddRows(batch))
    ensures ExactInPhase(Do(s, AddRows(batch)))
  {
    var v, v' := s.vault, Do(s, AddRows(batch)).vault;
    forall r: Row
      ensures multiset(Rows(v'.index))[r]
           == (if IsJoinOf(v', Stamped(v'.truth) + Elements(batch), r) then 1 else 0)
    {
      JoinRowsCount(v.truth, batch, v.dim, r);
      assert multiset(Rows(v'.index))[r] == multiset(Rows(v.index))[r] + multiset(JoinRows(v.truth, batch, v.dim))[r];
    }
  }

  lemma StampKeepsExact(s: System, nowMs: int)
    requires nowMs != 0 && PhaseFacts(s) && ExactInPhase(s) && Enabled(s, Stamp(nowMs))
    ensures ExactInPhase(Do(s, Stamp(nowMs)))
  {
    var v, v' := s.vault, Do(s, Stamp(nowMs)).vault;
    var ids := Stamped(v.truth) + Elements(s.phase.batch);
    assert forall c :: c in Elements(s.phase.batch) <==> c in s.phase.batch;
    assert Stamped(v'.truth) == ids;
    SameJoins(v, v', ids);
  }

  lemma DeletionKeepsExact(s: System, step: Step)
    requires Consistent(s.vault.truth) && ExactInPhase(s) && Enabled(s, step)
    requires step.DeleteRows? || step.DeleteRecords?
    ensures ExactInPhase(Do(s, step))
  {
    var v, v' := s.vault, Do(s, step).vault;
    if step.DeleteRows? {
      var rest := set c | c in Stamped(v.truth) && v.truth.chunks[c].recordId !in step.ids;
      forall r: Row ensures multiset(Rows(v'.index))[r] == (if IsJoinOf(v', rest, r) then 1 else 0) {
        WithoutRecordsCount(Rows(v.index), step.ids, r);
      }
    } else {
      var rest := set c | c in Stamped(v.truth) && v.truth.chunks[c].recordId !in s.phase.ids;
      assert Stamped(v'.truth) == rest;
      SameJoins(v, v', rest);
    }
  }

  /** The stops after which the index and the stamps disagree. */
  ghost predicate HarmfulStop(s: System) {
    match s.phase
    case Idle => false
    case Added(batch) => batch != []
    case RowsDeleted(ids) => exists c | c in Stamped(s.vault.truth) :: s.vault.truth.chunks[c].recordId in ids
    case Dropped => Stamped(s.vault.truth) != {}
  }

  /** Stopping between two effects keeps exactness exactly when nothing was in flight: the duplicate
      window between the Lance commit and the stamp, and the two loss windows, are the only ones. */
  lemma StopKeepsExactIff(s: System)
    requires Consistent(s.vault.truth) && PhaseFacts(s) && ExactInPhase(s)
    ensures Exact(Do(s, Stop).vault) <==> !HarmfulStop(s)
  {
    var v := s.vault;
    match s.phase
    case Idle =>
    case Added(batch) =>
      if batch == [] {
        assert Stamped(v.truth) + Elements(batch) == Stamped(v.truth);
      } else {
        assert batch[0] in batch;
        var r := JoinRow(v.truth, batch[0], v.dim);
        assert multiset(Rows(v.index))[r] == 1;
        assert !IsJoinOf(v, Stamped(v.truth), r);
      }
    case RowsDeleted(ids) =>
      var rest := set c | c in Stamped(v.truth) && v.truth.chunks[c].recordId !in ids;
      if HarmfulStop(s) {
        var c :| c in Stamped(v.truth) && v.truth.chunks[c].recordId in ids;
        var r := JoinRow(v.truth, c, v.dim);
        assert !IsJoinOf(v, rest, r) && IsJoinOf(v, Stamped(v.truth), r);
      } else {
        assert rest == Stamped(v.truth);
      }
    case Dropped =>
      if c :| c in Stamped(v.truth) {
        var r := JoinRow(v.truth, c, v.dim);
        assert multiset(Rows(v.index))[r] == 0 && IsJoinOf(v, Stamped(v.truth), r);
      }
  }

  /** The step keeps exactness: no stop in a window, no stamp of 0, at most one chunk a record. */
  ghost predicate Orderly(s: System, step: Step) {
    && (step.Stop? ==> !HarmfulStop(s))
    && (step.Stamp? ==> step.nowMs != 0)
    && (step.Insert? ==> |step.chunks| <= 1)
  }

  lemma StepKeepsExact(s: System, step: Step)
    requires Consistent(s.vault.truth) && PhaseFacts(s) && ExactInPhase(s) && OneChunkEach(s.vault.truth)
    requires Enabled(s, step) && Orderly(s, step)
    ensures ExactInPhase(Do(s, step))
  {
    var v, v' := s.vault, Do(s, step).vault;
    match step
    case Insert(id, record, cs) => InsertKeepsExact(s, id, record, cs);
    case Merge(rid, cid, incoming, text) => MergeKeepsExactIff(s, rid, cid, incoming, text);
    case CreateTable => SameJoins(v, v', Stamped(v.truth));
    case AddRows(batch) => AddRowsKeepsExact(s, batch);
    case Stamp(now) => StampKeepsExact(s, now);
    case DeleteRows(_) => DeletionKeepsExact(s, step);
    case DeleteRecords => DeletionKeepsExact(s, step);
    case Drop =>
    case Reset => assert Stamped(v'.truth) == {};
    case Stop => StopKeepsExactIff(s);
  }

  ghost predicate OrderlyRun(s: System, steps: seq<Step>) {
    forall i | 0 <= i < |steps| && Exec(s, steps[..i]).Some? :: Orderly(Exec(s, steps[..i]).value, steps[i])
  }

  lemma {:induction false} RunKeepsExact(s: System, steps: seq<Step>, s': System)
    requires Invariant(s, {}) && JoinInvariant(s, {}) && ExactInPhase(s)
    requires Path(s, steps, s') && OrderlyRun(s, steps)
    ensures ExactInPhase(s')
    ensures OneChunkEach(s'.vault.truth)
  {
    hide Enabled, Do, ExactInPhase, Orderly, OneChunkEach, Consistent, PhaseFacts, NoOrphans, Accounted;
    if steps == [] {
    } else {
      var n := |steps| - 1;
      var front, mid := steps[..n], Exec(s, steps[..n]).value;
      assert forall i | 0 <= i < n :: front[..i] == steps[..i] && front[i] == steps[i];
      RunKeepsExact(s, front, mid);
      RunKeepsInvariant(s, {}, front, mid);
      InvariantHolds(mid, Lost({}, s, front));
      assert Orderly(mid, steps[n]);
      StepKeepsExact(mid, steps[n]);
      OrderlyStepKeepsOneChunk(mid, steps[n]);
    }
  }

  lemma InvariantHolds(s: System, lost: set<string>)
    requires Invariant(s, lost)
    ensures Consistent(s.vault.truth) && PhaseFacts(s)
  {
  }

  lemma OrderlyStepKeepsOneChunk(s: System, step: Step)
    requires Consistent(s.vault.truth) && OneChunkEach(s.vault.truth) && Enabled(s, step) && Orderly(s, step)
    ensures OneChunkEach(Do(s, step).vault.truth)
  {
    StepKeepsOneChunk(s, step);
  }

  lemma StepKeepsOneChunk(s: System, step: Step)
    requires Consistent(s.vault.truth) && OneChunkEach(s.vault.truth) && Enabled(s, step)
    requires step.Insert? ==> |step.chunks| <= 1
    ensures OneChunkEach(Do(s, step).vault.truth)
  {
    if step.Insert? {
      WithChunksContents(s.vault.truth.chunks, step.id, step.chunks);
    }
  }

  /** Over every run of captures, merges, flushes, deletions and rebuilds that stops in no window, the
      index is in bijection with the stamped chunks whenever no operation is under way. */
  lemma ExactlyOnce(dim: nat, steps: seq<Step>, s': System)
    requires Path(Fresh(dim), steps, s') && OrderlyRun(Fresh(dim), steps) && s'.phase.Idle?
    ensures Exact(s'.vault)
  {
    RunKeepsExact(Fresh(dim), steps, s');
  }

  // ----- how many rows a chunk can have ------------------------------------------------

  function RowsOf(rows: seq<Row>, c: string): nat {
    if rows == [] then 0 else (if rows[0].chunkId == c then 1 else 0) + RowsOf(rows[1..], c)
  }

  lemma {:induction false} RowsOfConcat(a: seq<Row>, b: seq<Row>, c: string)
    ensures RowsOf(a + b, c) == RowsOf(a, c) + RowsOf(b, c)
  {
    if a == [] {
      assert a + b == b;
    } else {
      assert (a + b)[1..] == a[1..] + b;
      RowsOfConcat(a[1..], b, c);
    }
  }

  lemma {:induction false} NoRowsOf(rows: seq<Row>, c: string)
    requires forall i | 0 <= i < |rows| :: rows[i].chunkId != c
    ensures RowsOf(rows, c) == 0
  {
    if rows == [] {
    } else {
      NoRowsOf(rows[1..], c);
    }
  }

  lemma {:induction false} DeletingAddsNoRows(rows: seq<Row>, ids: set<string>, c: string)
    ensures RowsOf(WithoutRecords(rows, ids), c) <= RowsOf(rows, c)
  {
    if rows == [] {
    } else {
      DeletingAddsNoRows(rows[1..], ids, c);
      RowsOfConcat(if rows[0].recordId in ids then [] else [rows[0]], WithoutRecords(rows[1..], ids), c);
    }
  }

  lemma {:induction false} BatchAddsOneRow(t: Truth, ids: seq<string>, dim: nat, c: string)
    requires Distinct(ids)
    requires forall i | 0 <= i < |ids| :: ids[i] in t.chunks && t.chunks[ids[i]].recordId in t.records
    ensures RowsOf(JoinRows(t, ids, dim), c) == if c in ids then 1 else 0
  {
    if ids == [] {
    } else {
      var n := |ids| - 1;
      BatchAddsOneRow(t, ids[..n], dim, c);
      assert JoinRows(t, ids, dim) == JoinRows(t, ids[..n], dim) + [JoinRow(t, ids[n], dim)];
      RowsOfConcat(JoinRows(t, ids[..n], dim), [JoinRow(t, ids[n], dim)], c);
      assert c in ids <==> c in ids[..n] || c == ids[n];
    }
  }

  /** The effect leaves the chunk pending although its row has just been added: a stop in the duplicate
      window, or a stamp of 0. */
  ghost predicate Repeats(s: System, step: Step, c: string) {
    s.phase.Added? && c in s.phase.batch && (step.Stop? || (step.Stamp? && step.nowMs == 0))
  }

  ghost function RepeatsIn(s: System, steps: seq<Step>, c: string): nat
    requires Exec(s, steps).Some?
  {
    if steps == [] then 0
    else
      var n := |steps| - 1;
      RepeatsIn(s, steps[..n], c) + if Repeats(Exec(s, steps[..n]).value, steps[n], c) then 1 else 0
  }

  /** The one row a chunk is meant to have: it is stamped, or about to be. */
  ghost function Owed(s: System, c: string): nat {
    if c in Stamped(s.vault.truth) || (s.phase.Added? && c in s.phase.batch) then 1 else 0
  }

  lemma DeletionBoundsRows(s: System, step: Step, c: string, n: nat)
    requires NoOrphans(s.vault) && PhaseFacts(s) && Enabled(s, step) && (step.DeleteRows? || step.DeleteRecords?)
    requires RowsOf(Rows(s.vault.index), c) <= n + Owed(s, c)
    ensures RowsOf(Rows(Do(s, step).vault.index), c) <= n + Owed(Do(s, step), c)
  {
    var v, rows := s.vault, Rows(s.vault.index);
    if step.DeleteRows? {
      DeletingAddsNoRows(rows, step.ids, c);
    } else if c in v.truth.chunks && v.truth.chunks[c].recordId in s.phase.ids {
      assert forall i | 0 <= i < |rows| :: RowHasOwner(v, rows[i]);
      NoRowsOf(rows, c);
    }
  }

  lemma AddRowsBoundsRows(s: System, batch: seq<string>, c: string, n: nat)
    requires Enabled(s, AddRows(batch)) && RowsOf(Rows(s.vault.index), c) <= n + Owed(s, c)
    ensures RowsOf(Rows(Do(s, AddRows(batch)).vault.index), c) <= n + Owed(Do(s, AddRows(batch)), c)
  {
    var v := s.vault;
    BatchAddsOneRow(v.truth, batch, v.dim, c);
    RowsOfConcat(Rows(v.index), JoinRows(v.truth, batch, v.dim), c);
    if c in batch {
      assert c in Pending(v.truth);
    }
  }

  lemma InsertBoundsRows(s: System, step: Step, c: string, n: nat)
    requires Enabled(s, step) && step.Insert? && RowsOf(Rows(s.vault.index), c) <= n + Owed(s, c)
    ensures RowsOf(Rows(Do(s, step).vault.index), c) <= n + Owed(Do(s, step), c)
  {
    WithChunksContents(s.vault.truth.chunks, step.id, step.chunks);
  }

  lemma StepBoundsRows(s: System, lost: set<string>, step: Step, c: string, n: nat)
    requires Invariant(s, lost) && Enabled(s, step)
    requires RowsOf(Rows(s.vault.index), c) <= n + Owed(s, c)
    ensures RowsOf(Rows(Do(s, step).vault.index), c)
         <= n + (if Repeats(s, step, c) then 1 else 0) + Owed(Do(s, step), c)
  {
    match step
    case Insert(_, _, _) => InsertBoundsRows(s, step, c, n);
    case AddRows(batch) => AddRowsBoundsRows(s, batch, c, n);
    case DeleteRows(_) => DeletionBoundsRows(s, step, c, n);
    case DeleteRecords => DeletionBoundsRows(s, step, c, n);
    case Merge(_, _, _, _) =>
    case CreateTable =>
    case Stamp(_) =>
    case Drop =>
    case Reset =>
    case Stop =>
  }

  lemma {:induction false} RunBoundsRows(s: System, steps: seq<Step>, s': System, c: string)
    requires Invariant(s, {}) && Path(s, steps, s') && RowsOf(Rows(s.vault.index), c) <= Owed(s, c)
    ensures RowsOf(Rows(s'.vault.index), c) <= RepeatsIn(s, steps, c) + Owed(s', c)
  {
    hide Invariant, Owed, Repeats, Enabled, Do, RowsOf;
    if steps == [] {
    } else {
      var n := |steps| - 1;
      var front, mid := steps[..n], Exec(s, steps[..n]).value;
      RunBoundsRows(s, front, mid, c);
      RunKeepsInvariant(s, {}, front, mid);
      StepBoundsRows(mid, Lost({}, s, front), steps[n], c, RepeatsIn(s, front, c));
    }
  }

  /** Over every run, a chunk has at most one row more than the times it was stopped between the Lance
      commit and the stamp, or stamped with 0; and while it is pending, at most that many. */
  lemma RowsAreBounded(dim: nat, steps: seq<Step>, s': System, c: string)
    requires Path(Fresh(dim), steps, s') && s'.phase.Idle?
    ensures var repeats := RepeatsIn(Fresh(dim), steps, c);
            RowsOf(Rows(s'.vault.index), c) <= repeats + if c in Stamped(s'.vault.truth) then 1 else 0
  {
    RunBoundsRows(Fresh(dim), steps, s', c);
  }

  lemma StepCountsRows(s: System, lost: set<string>, step: Step, c: string, n: nat)
    requires Invariant(s, lost) && Enabled(s, step) && CaptureStep(step)
    requires RowsOf(Rows(s.vault.index), c) == n + Owed(s, c)
    ensures RowsOf(Rows(Do(s, step).vault.index), c)
         == n + (if Repeats(s, step, c) then 1 else 0) + Owed(Do(s, step), c)
  {
    match step
    case Insert(_, _, _) => WithChunksContents(s.vault.truth.chunks, step.id, step.chunks);
    case AddRows(batch) =>
      var v := s.vault;
      BatchAddsOneRow(v.truth, batch, v.dim, c);
      RowsOfConcat(Rows(v.index), JoinRows(v.truth, batch, v.dim), c);
      assert c in batch ==> c in Pending(v.truth);
    case Merge(_, _, _, _) =>
    case CreateTable =>
    case Stamp(_) =>
    case Stop =>
  }

  lemma {:induction false} RunCountsRows(s: System, steps: seq<Step>, s': System, c: string)
    requires Invariant(s, {}) && Path(s, steps, s') && RowsOf(Rows(s.vault.index), c) == Owed(s, c)
    requires forall i | 0 <= i < |steps| :: CaptureStep(steps[i])
    ensures RowsOf(Rows(s'.vault.index), c) == RepeatsIn(s, steps, c) + Owed(s', c)
  {
    hide Invariant, Owed, Repeats, Enabled, Do, RowsOf, CaptureStep;
    if steps == [] {
    } else {
      var n := |steps| - 1;
      var front, mid := steps[..n], Exec(s, steps[..n]).value;
      RunCountsRows(s, front, mid, c);
      RunKeepsInvariant(s, {}, front, mid);
      StepCountsRows(mid, Lost({}, s, front), steps[n], c, RepeatsIn(s, front, c));
    }
  }

  /** While nothing is deleted or dropped the count is exact: a row for a stamp that stands, and one for each of
      those stops and stamps. */
  lemma CaptureRowsAreCounted(dim: nat, steps: seq<Step>, s': System, c: string)
    requires Path(Fresh(dim), steps, s') && s'.phase.Idle?
    requires forall i | 0 <= i < |steps| :: CaptureStep(steps[i])
    ensures RowsOf(Rows(s'.vault.index), c)
         == RepeatsIn(Fresh(dim), steps, c) + if c in Stamped(s'.vault.truth) then 1 else 0
  {
    RunCountsRows(Fresh(dim), steps, s', c);
  }
}
