/**
 The single Lance writer: batched flush, deletion and rebuild. The table and the store are updated in
 place; each method also reports, as ghost data, the run of durable effects it performed, and states
 which effects those are. `Session` composes them.
 */
module LanceWriter {
  import opened Wrappers
  import opened Vault
  import opened Protocol
  import opened Guarantees
  import opened Blocklist
  import opened Store

  datatype FlushError =
    | StoreFailed(error: StoreError)
    | EmbedFailed
    | WrongDimension(chunkId: string, got: nat, expected: nat)
    | LanceFailed

  datatype FlushReport = FlushReport(written: nat, batchWasFull: bool)

  datatype RebuildReport = RebuildReport(chunks: nat, batches: nat)

  /** How the outside behaves during one flush: which calls succeed, and the length of the vector the
      embedder returns for each text, if it answers at all. */
  datatype World = World(
    canRead: bool,
    embed: seq<string> -> Option<seq<nat>>,
    canOpen: bool,
    canCreate: bool,
    canIndex: bool,
    canAdd: bool,
    canStamp: bool)

  /** The embedder's contract: one vector for each text. */
  ghost predicate Honest(w: World) {
    forall texts :: w.embed(texts).Some? ==> |w.embed(texts).value| == |texts|
  }

  function TextsOf(t: Truth, batch: seq<string>): seq<string>
    requires forall c | c in batch :: c in t.chunks
  {
    seq(|batch|, i requires 0 <= i < |batch| => t.chunks[batch[i]].text)
  }

  /** The embedder answers for the batch, with vectors of the right length. */
  ghost predicate Embeds(w: World, v: Vault, batch: seq<string>)
    requires forall c | c in batch :: c in v.truth.chunks
  {
    && w.embed(TextsOf(v.truth, batch)).Some?
    && forall n | n in w.embed(TextsOf(v.truth, batch)).value :: n == v.dim
  }

  predicate Creates(w: World) {
    w.canCreate && w.canIndex
  }

  predicate Opens(w: World, ix: Index) {
    w.canOpen && (ix.Missing? ==> Creates(w))
  }

  /** Everything a nonempty flush needs from the outside. */
  ghost predicate Cooperates(w: World, v: Vault, batch: seq<string>)
    requires forall c | c in batch :: c in v.truth.chunks
  {
    w.canRead && (batch != [] ==> Embeds(w, v, batch) && Opens(w, v.index) && w.canAdd && w.canStamp)
  }

  /** The table is created if it is missing; its indexes may fail after that. */
  function OpenSteps(w: World, ix: Index): seq<Step> {
    if ix.Missing? && w.canOpen && w.canCreate then [CreateTable] else []
  }

  /** Lance commits first; a stamp that fails is a stop in between. */
  function CommitSteps(w: World, batch: seq<string>, nowMs: int): seq<Step> {
    if !w.canAdd then []
    else if w.canStamp then [AddRows(batch), Stamp(nowMs)]
    else [AddRows(batch), Stop]
  }

  /** The durable effects of one flush, however it ends. */
  ghost function FlushSteps(w: World, v: Vault, batch: seq<string>, nowMs: int): seq<Step>
    requires forall c | c in batch :: c in v.truth.chunks
  {
    if !w.canRead || batch == [] || !Embeds(w, v, batch) then []
    else OpenSteps(w, v.index) + if Opens(w, v.index) then CommitSteps(w, batch, nowMs) else []
  }

  /** Effects of flushes that stamp with `nowMs`; `stops` says whether one may stop before the stamp. */
  ghost predicate FlushRun(steps: seq<Step>, nowMs: int, stops: bool) {
    forall i | 0 <= i < |steps| :: IsFlushStep(steps[i], nowMs, stops)
  }

  ghost predicate IsFlushStep(step: Step, nowMs: int, stops: bool) {
    step.CreateTable? || step.AddRows? || step == Stamp(nowMs) || (stops && step.Stop?)
  }

  lemma FlushStepsAreARun(w: World, v: Vault, batch: seq<string>, nowMs: int, stops: bool)
    requires forall c | c in batch :: c in v.truth.chunks
    requires w.canStamp || stops
    ensures FlushRun(FlushSteps(w, v, batch, nowMs), nowMs, stops)
  {
  }

  lemma FlushRunsJoin(a: seq<Step>, b: seq<Step>, nowMs: int, stops: bool)
    requires FlushRun(a, nowMs, stops) && FlushRun(b, nowMs, stops)
    ensures FlushRun(a + b, nowMs, stops)
  {
  }

  /** The durable effects of the start of a rebuild. */
  function DropSteps(canDrop: bool, canReset: bool): seq<Step> {
    if !canDrop then [] else if canReset then [Drop, Reset] else [Drop, Stop]
  }

  /** Every stamped chunk has its row, as it is now. */
  ghost predicate StampedAreIndexed(v: Vault) {
    forall c | c in Stamped(v.truth) :: HasJoinRow(v, c)
  }

  lemma ExactIsIndexed(v: Vault)
    requires Consistent(v.truth) && Exact(v)
    ensures StampedAreIndexed(v)
  {
    ExactMembers(v);
  }

  /** A failed flush keeps the truth and only adds rows. */
  lemma MoreRowsStayIndexed(v: Vault, v': Vault)
    requires StampedAreIndexed(v) && v'.truth == v.truth && v'.dim == v.dim && Rows(v.index) <= Rows(v'.index)
    ensures StampedAreIndexed(v')
  {
    forall c | c in Stamped(v'.truth) ensures HasJoinRow(v', c) {
      assert HasJoinRow(v, c);
      var i :| 0 <= i < |Rows(v.index)| && Rows(v.index)[i] == JoinRow(v.truth, c, v.dim);
      assert Rows(v'.index)[i] == Rows(v.index)[i];
    }
  }

  lemma FlushKeepsIndexed(v: Vault, batch: seq<string>, nowMs: int)
    requires Consistent(v.truth) && forall i | 0 <= i < |batch| :: batch[i] in v.truth.chunks
    requires StampedAreIndexed(v)
    ensures StampedAreIndexed(AfterFlush(v, batch, nowMs))
  {
    if batch != [] {
      var v' := AfterFlush(v, batch, nowMs);
      forall c | c in Stamped(v'.truth) ensures HasJoinRow(v', c) {
        if c in Elements(batch) {
          var i :| 0 <= i < |batch| && batch[i] == c;
          assert Rows(v'.index)[|Rows(v.index)| + i] == JoinRow(v'.truth, c, v.dim);
        } else {
          assert HasJoinRow(v, c);
        }
      }
    }
  }

  ghost function AfterFlush(v: Vault, batch: seq<string>, nowMs: int): Vault
    requires Consistent(v.truth) && forall i | 0 <= i < |batch| :: batch[i] in v.truth.chunks
  {
    if batch == [] then v
    else v.(index := Table(Rows(v.index) + JoinRows(v.truth, batch, v.dim)),
            truth := StampedAt(v.truth, Elements(batch), nowMs))
  }

  /** One row more for each chunk of the batch, in its order, and the stamp on just those chunks. */
  ghost predicate IsFlushed(v: Vault, v': Vault, batch: seq<string>, nowMs: int) {
    && |Rows(v'.index)| == |Rows(v.index)| + |batch| && Rows(v.index) <= Rows(v'.index)
    && (forall i | 0 <= i < |batch| :: RowSays(v.truth, Rows(v'.index)[|Rows(v.index)| + i], batch[i], v.dim))
    && v'.truth.records == v.truth.records && v'.truth.chunks.Keys == v.truth.chunks.Keys
    && forall c | c in v.truth.chunks ::
         v'.truth.chunks[c] == if c in batch then v.truth.chunks[c].(flushedAtMs := nowMs) else v.truth.chunks[c]
  }

  lemma AfterFlushIs(v: Vault, batch: seq<string>, nowMs: int)
    requires Consistent(v.truth) && forall i | 0 <= i < |batch| :: batch[i] in v.truth.chunks
    ensures IsFlushed(v, AfterFlush(v, batch, nowMs), batch, nowMs)
  {
    hide Consistent;
    assert forall c :: c in batch <==> c in Elements(batch);
    RowsAreSaid(v, batch);
  }

  lemma RowsAreSaid(v: Vault, batch: seq<string>)
    requires Consistent(v.truth) && forall i | 0 <= i < |batch| :: batch[i] in v.truth.chunks
    ensures var rows := Rows(v.index) + JoinRows(v.truth, batch, v.dim);
            && Rows(v.index) <= rows
            && forall i | 0 <= i < |batch| :: RowSays(v.truth, rows[|Rows(v.index)| + i], batch[i], v.dim)
  {
  }

  lemma BatchIsOldestFirst(t: Truth, batch: seq<string>, read: bool)
    requires Consistent(t) && (read ==> IsBatch(t, batch))
    ensures read ==> OldestFirst(t, 256, batch)
  {
    hide OldestFirst, Selects, FlushKey;
    if read {
      SelectionIsOldestFirst(t, FLUSH_BATCH_SIZE, batch);
    }
  }

  lemma PendingAfterStamp(t: Truth, ids: set<string>, nowMs: int)
    requires nowMs != 0
    ensures Pending(StampedAt(t, ids, nowMs)) == Pending(t) - ids
  {
  }

  lemma BatchWithinPending(t: Truth, batch: seq<string>)
    requires IsBatch(t, batch)
    ensures Elements(batch) <= Pending(t)
    ensures |Pending(t) - Elements(batch)| == |Pending(t)| - |batch|
  {
    DistinctSize(batch);
    var rest := Pending(t) - Elements(batch);
    assert Pending(t) == rest + Elements(batch);
  }

  /** What one successful flush does to the backlog, whatever the index held before. */
  lemma FlushShrinksPending(v: Vault, batch: seq<string>, nowMs: int)
    requires Consistent(v.truth) && IsBatch(v.truth, batch) && nowMs != 0
    ensures var after := AfterFlush(v, batch, nowMs).truth;
            && after == StampedAt(v.truth, Elements(batch), nowMs)
            && |Pending(after)| == |Pending(v.truth)| - |batch|
  {
    if batch == [] {
      assert StampedAt(v.truth, Elements(batch), nowMs).chunks == v.truth.chunks;
    }
    PendingAfterStamp(v.truth, Elements(batch), nowMs);
    BatchWithinPending(v.truth, batch);
  }

  lemma FlushKeepsExact(v: Vault, batch: seq<string>, nowMs: int)
    requires Consistent(v.truth) && IsBatch(v.truth, batch) && nowMs != 0 && Exact(v)
    ensures Exact(AfterFlush(v, batch, nowMs))
  {
    if batch != [] {
      var ready := System(v.(index := Table(Rows(v.index))), Idle);
      SameJoins(v, ready.vault, Stamped(v.truth));
      AddRowsKeepsExact(ready, batch);
      var added := Do(ready, AddRows(batch));
      var after := Do(added, Stamp(nowMs));
      SameJoins(added.vault, after.vault, Stamped(v.truth) + Elements(batch));
      assert Stamped(after.vault.truth) == Stamped(v.truth) + Elements(batch);
      assert after.vault == AfterFlush(v, batch, nowMs);
    }
  }

  /** A stamp of 0 leaves every chunk pending and still adds its row again. */
  lemma ZeroStampKeepsPending(v: Vault, batch: seq<string>)
    requires Consistent(v.truth) && IsBatch(v.truth, batch)
    ensures AfterFlush(v, batch, 0).truth == v.truth
    ensures |Rows(AfterFlush(v, batch, 0).index)| == |Rows(v.index)| + |batch|
  {
    assert StampedAt(v.truth, Elements(batch), 0).chunks == v.truth.chunks;
  }

  /** Successive successful flushes with one stamp: a drain loop, seen from outside. */
  ghost predicate FlushSeries(vs: seq<Vault>, batches: seq<seq<string>>, nowMs: int) {
    && |vs| == |batches| + 1
    && (forall i | 0 <= i < |vs| :: Consistent(vs[i].truth))
    && (forall i | 0 <= i < |batches| :: FlushedTo(vs[i], batches[i], nowMs, vs[i + 1]))
  }

  ghost predicate FlushedTo(v: Vault, batch: seq<string>, nowMs: int, v': Vault)
    requires Consistent(v.truth)
  {
    IsBatch(v.truth, batch) && v' == AfterFlush(v, batch, nowMs)
  }

  lemma FrontSeries(vs: seq<Vault>, batches: seq<seq<string>>, nowMs: int)
    requires FlushSeries(vs, batches, nowMs) && batches != []
    ensures FlushSeries(vs[..|batches|], batches[..|batches| - 1], nowMs)
  {
    var front, fewer := vs[..|batches|], batches[..|batches| - 1];
    forall i | 0 <= i < |fewer| ensures FlushedTo(front[i], fewer[i], nowMs, front[i + 1]) {
      assert FlushedTo(vs[i], batches[i], nowMs, vs[i + 1]);
    }
  }

  /** The drain that passes 0, as the benchmark does, never writes an empty batch and so never ends,
      unless there was nothing to write; meanwhile it grows the index without bound. */
  lemma {:induction false} ZeroStampNeverDrains(vs: seq<Vault>, batches: seq<seq<string>>)
    requires FlushSeries(vs, batches, 0) && Pending(vs[0].truth) != {}
    ensures forall i | 0 <= i < |batches| :: batches[i] != []
    ensures vs[|batches|].truth == vs[0].truth
    ensures |Rows(vs[|batches|].index)| >= |Rows(vs[0].index)| + |batches|
  {
    if batches == [] {
    } else {
      var n := |batches| - 1;
      var front := vs[..n + 1];
      FrontSeries(vs, batches, 0);
      ZeroStampNeverDrains(front, batches[..n]);
      assert FlushedTo(vs[n], batches[n], 0, vs[n + 1]);
      ZeroStampKeepsPending(vs[n], batches[n]);
      assert batches[n] != [];
      assert forall i | 0 <= i < n :: batches[i] == batches[..n][i];
    }
  }

  /** With any other stamp the series ends: after ceil(pending / 256) flushes nothing is pending. */
  lemma {:induction false} NonzeroStampDrains(vs: seq<Vault>, batches: seq<seq<string>>, nowMs: int)
    requires FlushSeries(vs, batches, nowMs) && nowMs != 0
    ensures var left := |Pending(vs[0].truth)| - FLUSH_BATCH_SIZE * |batches|;
            |Pending(vs[|batches|].truth)| == if left > 0 then left else 0
  {
    if batches == [] {
    } else {
      var n := |batches| - 1;
      var front := vs[..n + 1];
      FrontSeries(vs, batches, nowMs);
      NonzeroStampDrains(front, batches[..n], nowMs);
      assert FlushedTo(vs[n], batches[n], nowMs, vs[n + 1]);
      FlushShrinksPending(vs[n], batches[n], nowMs);
    }
  }

  lemma StampTwice(t: Truth, a: set<string>, b: set<string>, nowMs: int)
    ensures StampedAt(StampedAt(t, a, nowMs), b, nowMs) == StampedAt(t, a + b, nowMs)
  {
    assert StampedAt(StampedAt(t, a, nowMs), b, nowMs).chunks == StampedAt(t, a + b, nowMs).chunks;
  }

  lemma StampKeepsConsistent(t: Truth, ids: set<string>, nowMs: int)
    requires Consistent(t)
    ensures Consistent(StampedAt(t, ids, nowMs))
  {
  }

  /** Where a drain that started at `v0` stands after `batches` flushes of `written` chunks. */
  ghost predicate Draining(v0: Vault, done: set<string>, v: Vault, report: RebuildReport, nowMs: int) {
    && Consistent(v.truth) && done <= Pending(v0.truth)
    && v.truth == StampedAt(v0.truth, done, nowMs)
    && report.chunks + |Pending(v.truth)| == |Pending(v0.truth)|
    && report.chunks <= report.batches * FLUSH_BATCH_SIZE < report.chunks + FLUSH_BATCH_SIZE
    && (Pending(v.truth) != {} ==> report.chunks == report.batches * FLUSH_BATCH_SIZE)
    && (Exact(v0) ==> Exact(v)) && (StampedAreIndexed(v0) ==> StampedAreIndexed(v))
  }

  lemma DrainStarts(v0: Vault, nowMs: int)
    requires Consistent(v0.truth)
    ensures Draining(v0, {}, v0, RebuildReport(0, 0), nowMs)
  {
    assert StampedAt(v0.truth, {}, nowMs).chunks == v0.truth.chunks;
  }

  lemma DrainRound(v0: Vault, done: set<string>, v: Vault, report: RebuildReport, nowMs: int, batch: seq<string>)
    requires Draining(v0, done, v, report, nowMs) && nowMs != 0
    requires IsBatch(v.truth, batch) && batch != []
    ensures Draining(v0, done + Elements(batch), AfterFlush(v, batch, nowMs),
                     RebuildReport(report.chunks + |batch|, report.batches + 1), nowMs)
    ensures |Pending(AfterFlush(v, batch, nowMs).truth)| < |Pending(v.truth)|
  {
    FlushShrinksPending(v, batch, nowMs);
    StampTwice(v0.truth, done, Elements(batch), nowMs);
    StampKeepsConsistent(v.truth, Elements(batch), nowMs);
    PendingAfterStamp(v0.truth, done, nowMs);
    BatchWithinPending(v.truth, batch);
    if Exact(v0) {
      FlushKeepsExact(v, batch, nowMs);
    }
    if StampedAreIndexed(v0) {
      FlushKeepsIndexed(v, batch, nowMs);
    }
  }

  lemma DrainEnds(v0: Vault, done: set<string>, v: Vault, report: RebuildReport, nowMs: int)
    requires Draining(v0, done, v, report, nowMs) && Pending(v.truth) == {}
    requires nowMs != 0 || Pending(v0.truth) == {}
    ensures v.truth == StampedAt(v0.truth, Pending(v0.truth), nowMs)
    ensures done == Pending(v0.truth) && report.chunks == |Pending(v0.truth)|
    ensures report.batches == (|Pending(v0.truth)| + FLUSH_BATCH_SIZE - 1) / FLUSH_BATCH_SIZE
    ensures Exact(v0) ==> Exact(v)
  {
    if nowMs != 0 {
      PendingAfterStamp(v0.truth, done, nowMs);
      assert done == Pending(v0.truth);
    } else {
      assert done == {};
    }
  }

  // ----- when a drain succeeds --------------------------------------------------------------

  /** The embedder answers, and with vectors of the right length. */
  ghost predicate Answers(w: World, dim: nat) {
    forall texts :: AnswersFor(w, dim, texts)
  }

  ghost predicate AnswersFor(w: World, dim: nat, texts: seq<string>) {
    w.embed(texts).Some? && forall n | n in w.embed(texts).value :: n == dim
  }

  /** Everything a nonempty flush into an existing table needs, besides the embedder. */
  predicate Flushes(w: World) {
    w.canRead && w.canOpen && w.canAdd && w.canStamp
  }

  lemma CooperatesIff(w: World, v: Vault, batch: seq<string>)
    requires Answers(w, v.dim) && forall c | c in batch :: c in v.truth.chunks
    ensures Cooperates(w, v, batch) <==>
              w.canRead && (batch != [] ==> Flushes(w) && (v.index.Missing? ==> Creates(w)))
  {
    assert AnswersFor(w, v.dim, TextsOf(v.truth, batch));
  }

  /** The first `n` rounds of a drain go through: the first of them creates the table if there is none. */
  ghost predicate RoundsWork(ix: Index, worlds: nat -> World, n: nat) {
    (forall i: nat | i < n :: Flushes(worlds(i))) && (n > 0 && ix.Missing? ==> Creates(worlds(0)))
  }

  /** A drain of `n` batches: every round, and the read that finds nothing left. */
  ghost predicate DrainWorks(ix: Index, worlds: nat -> World, n: nat) {
    RoundsWork(ix, worlds, n) && worlds(n).canRead
  }

  /** A rebuild of `n` batches: the drop, the reset and the drain. */
  ghost predicate RebuildWorks(canDrop: bool, canReset: bool, worlds: nat -> World, n: nat) {
    canDrop && canReset && DrainWorks(Missing, worlds, n)
  }

  function BatchesFor(chunks: nat): nat {
    (chunks + FLUSH_BATCH_SIZE - 1) / FLUSH_BATCH_SIZE
  }

  ghost predicate AllStamp(worlds: nat -> World) {
    forall i: nat :: worlds(i).canStamp
  }

  ghost predicate AllAnswer(worlds: nat -> World, dim: nat) {
    forall i: nat :: Answers(worlds(i), dim)
  }

  /** Where a drain from `v0` stands after `report.batches` rounds. */
  ghost predicate Rebuilding(v0: Vault, done: set<string>, v: Vault, report: RebuildReport, nowMs: int,
                             worlds: nat -> World) {
    && Draining(v0, done, v, report, nowMs) && v.dim == v0.dim
    && (v.index.Missing? <==> v0.index.Missing? && report.batches == 0)
    && (AllAnswer(worlds, v.dim) ==> RoundsWork(v0.index, worlds, report.batches))
  }

  lemma RebuildStarts(v0: Vault, nowMs: int, worlds: nat -> World)
    requires Consistent(v0.truth)
    ensures Rebuilding(v0, {}, v0, RebuildReport(0, 0), nowMs, worlds)
  {
    DrainStarts(v0, nowMs);
  }

  lemma RebuildStands(v0: Vault, done: set<string>, v: Vault, report: RebuildReport, nowMs: int,
                      worlds: nat -> World)
    requires Rebuilding(v0, done, v, report, nowMs, worlds)
    ensures Consistent(v.truth) && done <= Pending(v0.truth) && v.truth == StampedAt(v0.truth, done, nowMs)
    ensures Consistent(v0.truth) && Exact(v0) ==> StampedAreIndexed(v)
    ensures StampedAreIndexed(v0) ==> StampedAreIndexed(v)
  {
    if Consistent(v0.truth) && Exact(v0) {
      ExactIsIndexed(v0);
    }
  }

  lemma RebuildRound(v0: Vault, done: set<string>, v: Vault, report: RebuildReport, nowMs: int,
                     worlds: nat -> World, batch: seq<string>)
    requires Rebuilding(v0, done, v, report, nowMs, worlds) && batch != []
    requires nowMs != 0 || Pending(v0.truth) == {}
    requires worlds(report.batches).canRead ==> IsBatch(v.truth, batch)
    requires (forall c | c in batch :: c in v.truth.chunks) && Cooperates(worlds(report.batches), v, batch)
    ensures Rebuilding(v0, done + Elements(batch), AfterFlush(v, batch, nowMs),
                       RebuildReport(report.chunks + |batch|, report.batches + 1), nowMs, worlds)
    ensures |Pending(AfterFlush(v, batch, nowMs).truth)| < |Pending(v.truth)|
  {
    hide Draining, Pending, StampedAt, Exact, Honest, Embeds;
    NothingPendingNoBatch(v0, done, v, report, nowMs, batch);
    BatchIsHeld(v.truth, batch);
    DrainRound(v0, done, v, report, nowMs, batch);
    if AllAnswer(worlds, v.dim) {
      CooperatesIff(worlds(report.batches), v, batch);
    }
  }

  lemma NothingPendingNoBatch(v0: Vault, done: set<string>, v: Vault, report: RebuildReport, nowMs: int,
                              batch: seq<string>)
    requires Draining(v0, done, v, report, nowMs) && IsBatch(v.truth, batch) && batch != []
    ensures Pending(v0.truth) != {}
  {
    assert batch[0] in Pending(v.truth) && |Pending(v.truth)| > 0;
    assert |Pending(v0.truth)| >= |Pending(v.truth)|;
  }

  lemma BatchIsHeld(t: Truth, batch: seq<string>)
    requires IsBatch(t, batch)
    ensures forall c | c in batch :: c in t.chunks
  {
    assert forall i | 0 <= i < |batch| :: batch[i] in Pending(t);
  }

  /** An empty batch: the rebuild is complete. */
  lemma RebuildEnds(v0: Vault, done: set<string>, v: Vault, report: RebuildReport, nowMs: int,
                    worlds: nat -> World)
    requires Rebuilding(v0, done, v, report, nowMs, worlds)
    requires worlds(report.batches).canRead ==> IsBatch(v.truth, [])
    requires Cooperates(worlds(report.batches), v, []) && (nowMs != 0 || Pending(v0.truth) == {})
    ensures AfterFlush(v, [], nowMs) == v
    ensures v.truth == StampedAt(v0.truth, Pending(v0.truth), nowMs) && (Exact(v0) ==> Exact(v))
    ensures report == RebuildReport(|Pending(v0.truth)|, BatchesFor(|Pending(v0.truth)|))
    ensures done == Pending(v0.truth)
    ensures AllAnswer(worlds, v.dim) ==> DrainWorks(v0.index, worlds, BatchesFor(|Pending(v0.truth)|))
    ensures Pending(v.truth) == {}
  {
    assert Pending(v.truth) == {};
    DrainEnds(v0, done, v, report, nowMs);
  }

  lemma RebuildNeeds(canDrop: bool, canReset: bool, worlds: nat -> World, n: nat)
    ensures RebuildWorks(canDrop, canReset, worlds, n) <==>
              canDrop && canReset && DrainWorks(Missing, worlds, n)
  {
  }

  /** A round fails only where the rebuild was bound to fail. */
  lemma RebuildFails(v0: Vault, done: set<string>, v: Vault, report: RebuildReport, nowMs: int,
                     worlds: nat -> World, batch: seq<string>)
    requires Rebuilding(v0, done, v, report, nowMs, worlds) && (nowMs != 0 || Pending(v0.truth) == {})
    requires worlds(report.batches).canRead ==>
               IsBatch(v.truth, batch) && !Cooperates(worlds(report.batches), v, batch)
    ensures AllAnswer(worlds, v.dim) ==> !DrainWorks(v0.index, worlds, BatchesFor(|Pending(v0.truth)|))
  {
    var w, n := worlds(report.batches), BatchesFor(|Pending(v0.truth)|);
    if AllAnswer(worlds, v.dim) && DrainWorks(v0.index, worlds, n) {
      if Pending(v.truth) == {} {
        DrainEnds(v0, done, v, report, nowMs);
      } else {
        assert report.batches < n && Flushes(w);
      }
      CooperatesIff(w, v, batch);
      assert false;
    }
  }

  /** The first vector of another length, or the number of vectors. */
  method FirstWrong(lengths: seq<nat>, dim: nat) returns (n: nat)
    ensures n <= |lengths|
    ensures forall i | 0 <= i < n :: lengths[i] == dim
    ensures n < |lengths| ==> lengths[n] != dim && lengths[n] in lengths
  {
    n := 0;
    while n < |lengths|
      invariant n <= |lengths|
      invariant forall i | 0 <= i < n :: lengths[i] == dim
    {
      if lengths[n] != dim {
        return;
      }
      n := n + 1;
    }
  }

  function RowsFor(pending: seq<PendingChunk>, vectors: seq<nat>): seq<Row>
    requires |vectors| == |pending|
  {
    seq(|pending|, i requires 0 <= i < |pending| =>
      Row(pending[i].chunkId, pending[i].recordId, pending[i].ord, pending[i].text,
          pending[i].source, pending[i].capturedAtMs, vectors[i]))
  }

  lemma RowsForBatch(t: Truth, pending: seq<PendingChunk>, vectors: seq<nat>, dim: nat)
    requires Consistent(t) && vectors == seq(|pending|, _ => dim)
    requires forall i | 0 <= i < |pending| :: pending[i].chunkId in t.chunks
    requires forall i | 0 <= i < |pending| :: pending[i] == PendingOf(t, pending[i].chunkId)
    ensures forall c | c in PendingIds(pending) :: c in t.chunks && t.chunks[c].recordId in t.records
    ensures RowsFor(pending, vectors) == JoinRows(t, PendingIds(pending), dim)
  {
  }

  class LanceWriter {
    var table: Index
    const dim: nat

    constructor (dim: nat)
      ensures table == Missing && this.dim == dim
    {
      this.dim := dim;
      table := Missing;
    }

    ghost function Sees(store: Store): Vault
      reads this, store
    {
      Vault(store.Contents(), table, dim)
    }

    /** Creating the table and creating its cheap indexes are two Lance calls; the second may fail
        after the first has taken effect. */
    method OpenOrCreateTable(w: World) returns (isOpen: bool)
      modifies this
      ensures isOpen <==> w.canOpen && (old(table).Missing? ==> w.canCreate && w.canIndex)
      ensures table == if old(table).Missing? && w.canOpen && w.canCreate then Table([]) else old(table)
    {
      if !w.canOpen {
        return false;
      }
      if table.Table? {
        return true;
      }
      if !w.canCreate {
        return false;
      }
      table := Table([]);
      return w.canIndex;
    }

    /** The two commits of a flush, Lance first. */
    method AddThenStamp(store: Store, ids: seq<string>, rows: seq<Row>, w: World, nowMs: int)
      returns (r: Result<(), FlushError>, ghost steps: seq<Step>)
      requires Consistent(store.Contents()) && table.Table? && IsBatch(store.Contents(), ids)
      requires forall c | c in ids :: c in store.chunks && store.chunks[c].recordId in store.records
      requires rows == JoinRows(store.Contents(), ids, dim)
      modifies this, store
      ensures r.Success? <==> w.canAdd && w.canStamp
      ensures table == if w.canAdd then Table(Rows(old(table)) + rows) else old(table)
      ensures store.Contents() == if w.canAdd && w.canStamp then StampedAt(old(store.Contents()), Elements(ids), nowMs)
                                  else old(store.Contents())
      ensures r.Failure? ==> r.error.LanceFailed? || r.error.StoreFailed?
      ensures steps == CommitSteps(w, ids, nowMs)
      ensures Path(System(old(Sees(store)), Idle), steps, System(Sees(store), Idle))
    {
      hide Path, Selects, Consistent;
      ghost var before := System(Sees(store), Idle);
      steps := [];
      PathStarts(before);
      if !w.canAdd {
        return Failure(LanceFailed), steps;
      }
      table := Table(table.rows + rows);
      ghost var added := System(Sees(store), Added(ids));
      assert Do(before, AddRows(ids)) == added;
      PathExtends(before, steps, before, AddRows(ids));
      steps := steps + [AddRows(ids)];
      var stamped := store.MarkChunksFlushed(ids, nowMs, w.canStamp);
      if stamped.Failure? {
        PathExtends(before, steps, added, Stop);
        steps := steps + [Stop];
        return Failure(StoreFailed(stamped.error)), steps;
      }
      PathExtends(before, steps, added, Stamp(nowMs));
      steps := steps + [Stamp(nowMs)];
      return Success(()), steps;
    }

    /** The batch and the lengths of its vectors. Nothing durable happens. */
    method ReadAndEmbed(store: Store, w: World)
      returns (r: Result<(seq<PendingChunk>, seq<nat>), FlushError>, ghost batch: seq<string>)
      requires Consistent(store.Contents()) && Honest(w)
      ensures if w.canRead then IsBatch(store.Contents(), batch) else batch == []
      ensures forall c | c in batch :: c in store.Contents().chunks
      ensures r.Success? <==> w.canRead && (batch != [] ==> Embeds(w, Sees(store), batch))
      ensures r.Success? ==>
                && batch == PendingIds(r.value.0) && r.value.1 == seq(|batch|, _ => dim)
                && (forall i | 0 <= i < |batch| :: r.value.0[i] == PendingOf(store.Contents(), batch[i]))
      ensures r.Failure? ==> !r.error.LanceFailed? && (r.error.StoreFailed? ==> !w.canRead)
    {
      hide Selects, FlushKey;
      batch := [];
      var read := store.PendingChunks(FLUSH_BATCH_SIZE, w.canRead);
      if read.Failure? {
        return Failure(StoreFailed(read.error)), batch;
      }
      var pending := read.value;
      batch := PendingIds(pending);
      if |pending| == 0 {
        return Success((pending, [])), batch;
      }
      var texts := seq(|pending|, i requires 0 <= i < |pending| => pending[i].text);
      assert texts == TextsOf(store.Contents(), batch);
      var vectors := w.embed(texts);
      if vectors.None? {
        return Failure(EmbedFailed), batch;
      }
      var wrong := FirstWrong(vectors.value, dim);
      if wrong < |pending| {
        return Failure(WrongDimension(pending[wrong].chunkId, vectors.value[wrong], dim)), batch;
      }
      assert vectors.value == seq(|batch|, _ => dim);
      return Success((pending, vectors.value)), batch;
    }

    /** Reads a batch, embeds it, commits it to Lance and only then stamps it in SQLite. */
    method FlushOnce(store: Store, w: World, nowMs: int)
      returns (r: Result<FlushReport, FlushError>, ghost batch: seq<string>, ghost steps: seq<Step>)
      requires Consistent(store.Contents()) && Honest(w)
      modifies this, store
      ensures if w.canRead then IsBatch(old(store.Contents()), batch) else batch == []
      ensures w.canRead ==> OldestFirst(old(store.Contents()), 256, batch)
      ensures forall c | c in batch :: c in old(store.Contents()).chunks
      ensures r.Success? ==> IsFlushed(old(Sees(store)), Sees(store), batch, nowMs)
      ensures r.Success? <==> Cooperates(w, old(Sees(store)), batch)
      ensures r.Success? ==>
                && Sees(store) == AfterFlush(old(Sees(store)), batch, nowMs)
                && r.value == FlushReport(|batch|, |batch| == FLUSH_BATCH_SIZE)
      ensures r.Failure? ==> store.Contents() == old(store.Contents())
      ensures r.Failure? && !r.error.LanceFailed? && !r.error.StoreFailed? ==> table == old(table)
      ensures Rows(old(table)) <= Rows(table)
      ensures steps == FlushSteps(w, old(Sees(store)), batch, nowMs)
      ensures Path(System(old(Sees(store)), Idle), steps, System(Sees(store), Idle))
    {
      hide Path, Distinct, Selects, FlushKey, Embeds, Honest, StampedAt, Pending, IsFlushed, OldestFirst;
      ghost var v := Sees(store);
      ghost var s := System(v, Idle);
      PathStarts(s);
      steps := [];
      var read, ids := ReadAndEmbed(store, w);
      batch := ids;
      BatchIsOldestFirst(v.truth, batch, w.canRead);
      AfterFlushIs(v, batch, nowMs);
      if read.Failure? {
        return Failure(read.error), batch, steps;
      }
      var (pending, vectors) := read.value;
      if |pending| == 0 {
        return Success(FlushReport(0, false)), batch, steps;
      }

      var isOpen := OpenOrCreateTable(w);
      if table != v.index {
        PathExtends(s, steps, s, CreateTable);
        assert steps + [CreateTable] == OpenSteps(w, v.index);
        assert Do(s, CreateTable) == System(Sees(store), Idle);
      }
      steps := OpenSteps(w, v.index);
      if !isOpen {
        return Failure(LanceFailed), batch, steps;
      }
      ghost var ready := System(Sees(store), Idle);
      var rows := RowsFor(pending, vectors);
      RowsForBatch(v.truth, pending, vectors, dim);
      var committed, more := AddThenStamp(store, PendingIds(pending), rows, w, nowMs);
      PathJoins(s, steps, ready, more, System(Sees(store), Idle));
      steps := steps + more;
      if committed.Failure? {
        return Failure(committed.error), batch, steps;
      }
      return Success(FlushReport(|pending|, |pending| == FLUSH_BATCH_SIZE)), batch, steps;
    }

    /** Removes the derived rows of the given records; a missing table is a successful no-op. */
    method DeleteRecords(recordIds: seq<string>, lanceWorks: bool) returns (r: Result<nat, FlushError>)
      modifies this
      ensures r.Success? <==> lanceWorks || recordIds == []
      ensures r.Success? ==> table == IndexWithoutRecords(old(table), Elements(recordIds))
      ensures r.Success? ==> r.value == |Rows(old(table))| - |Rows(table)|
      ensures r.Failure? ==> table == old(table)
    {
      if recordIds == [] {
        KeepAll(Rows(table));
        assert Elements(recordIds) == {};
        return Success(0);
      }
      if !lanceWorks {
        return Failure(LanceFailed);
      }
      if table.Missing? {
        return Success(0);
      }
      var kept := WithoutRecords(table.rows, Elements(recordIds));
      var deleted := |table.rows| - |kept|;
      table := Table(kept);
      return Success(deleted);
    }

    method DropAndReset(store: Store, canDrop: bool, canReset: bool)
      returns (r: Result<(), FlushError>, ghost steps: seq<Step>)
      modifies this, store
      ensures r.Success? <==> canDrop && canReset
      ensures table == if canDrop then Missing else old(table)
      ensures store.Contents() == if canDrop && canReset then AllReset(old(store.Contents())) else old(store.Contents())
      ensures steps == DropSteps(canDrop, canReset)
      ensures Path(System(old(Sees(store)), Idle), steps, System(Sees(store), Idle))
    {
      hide Path, AllReset;
      ghost var s := System(Sees(store), Idle);
      steps := [];
      PathStarts(s);
      if !canDrop {
        return Failure(LanceFailed), steps;
      }
      table := Missing;
      ghost var dropped := System(Sees(store), Dropped);
      PathExtends(s, steps, s, Drop);
      steps := steps + [Drop];
      var reset := store.ResetFlushState(canReset);
      if reset.Failure? {
        PathExtends(s, steps, dropped, Stop);
        steps := steps + [Stop];
        return Failure(StoreFailed(reset.error)), steps;
      }
      PathExtends(s, steps, dropped, Reset);
      steps := steps + [Reset];
      return Success(()), steps;
    }

    /** Drops the table, resets every stamp and flushes until nothing is pending. However it ends, the
        records and the texts are untouched; once the reset is done, what is stamped is indexed. */
    method Rebuild(store: Store, canDrop: bool, canReset: bool, worlds: nat -> World, nowMs: int)
      returns (r: Result<RebuildReport, FlushError>, ghost done: set<string>, ghost steps: seq<Step>)
      requires Consistent(store.Contents()) && forall i :: Honest(worlds(i))
      requires nowMs != 0 || store.chunks == map[]
      modifies this, store
      ensures r.Success? ==>
                && canDrop && canReset && Exact(Sees(store)) && done == old(store.chunks.Keys)
                && r.value == RebuildReport(|old(store.chunks)|, BatchesFor(|old(store.chunks)|))
      ensures AllAnswer(worlds, dim) ==>
                (r.Success? <==> RebuildWorks(canDrop, canReset, worlds, BatchesFor(|old(store.chunks)|)))
      ensures !canDrop ==> Sees(store) == old(Sees(store))
      ensures canDrop && !canReset ==> Sees(store) == old(Sees(store)).(index := Missing)
      ensures canDrop && canReset ==>
                && done <= old(store.chunks.Keys) && StampedAreIndexed(Sees(store))
                && store.Contents() == StampedAt(AllReset(old(store.Contents())), done, nowMs)
      ensures DropSteps(canDrop, canReset) <= steps
      ensures FlushRun(steps[|DropSteps(canDrop, canReset)|..], nowMs, !AllStamp(worlds))
      ensures Path(System(old(Sees(store)), Idle), steps, System(Sees(store), Idle))
    {
      hide Rebuilding, DrainWorks, AllAnswer, AllStamp, Honest, Cooperates, Exact, Path, Selects, Consistent, StampedAt;
      hide Pending, AfterFlush, AllReset, RebuildWorks, BatchesFor, Draining, Elements, FlushSteps, FlushRun, DropSteps;
      hide StampedAreIndexed, IsFlushed, OldestFirst;
      ghost var s := System(Sees(store), Idle);
      ghost var t := store.Contents();
      ghost var flushes: seq<Step> := [];
      NoFlushes(nowMs, !AllStamp(worlds));
      var started, first := DropAndReset(store, canDrop, canReset);
      done, steps := {}, first;
      assert steps[|first|..] == [] && first + flushes == first;
      if started.Failure? {
        RebuildNeeds(canDrop, canReset, worlds, BatchesFor(|t.chunks|));
        return Failure(started.error), done, steps;
      }

      ghost var v0 := Sees(store);
      ResetIsExact(t, dim, nowMs);
      RebuildNeeds(canDrop, canReset, worlds, BatchesFor(|t.chunks|));
      RebuildStarts(v0, nowMs, worlds);
      var report := RebuildReport(0, 0);
      while true
        invariant Rebuilding(v0, done, Sees(store), report, nowMs, worlds)
        invariant Path(s, steps, System(Sees(store), Idle))
        invariant steps == first + flushes && FlushRun(flushes, nowMs, !AllStamp(worlds))
        decreases |Pending(store.Contents())|
      {
        ghost var v := Sees(store);
        RebuildStands(v0, done, v, report, nowMs, worlds);
        var flush, batch, more := FlushOnce(store, worlds(report.batches), nowMs);
        PathJoins(s, steps, System(v, Idle), more, System(Sees(store), Idle));
        RoundIsAFlushRun(worlds, report.batches, v, batch, nowMs);
        FlushRunsJoin(flushes, more, nowMs, !AllStamp(worlds));
        assert (first + flushes) + more == first + (flushes + more);
        flushes := flushes + more;
        steps := steps + more;
        assert steps[|first|..] == flushes;
        if flush.Failure? {
          RebuildFails(v0, done, v, report, nowMs, worlds, batch);
          MoreRowsStayIndexed(v, Sees(store));
          return Failure(flush.error), done, steps;
        }
        if flush.value.written == 0 {
          assert batch == [];
          RebuildEnds(v0, done, v, report, nowMs, worlds);
          return Success(report), done, steps;
        }
        RebuildRound(v0, done, v, report, nowMs, worlds, batch);
        done := done + Elements(batch);
        report := RebuildReport(report.chunks + flush.value.written, report.batches + 1);
      }
    }
  }

  lemma NoFlushes(nowMs: int, stops: bool)
    ensures FlushRun([], nowMs, stops)
  {
  }

  lemma RoundIsAFlushRun(worlds: nat -> World, n: nat, v: Vault, batch: seq<string>, nowMs: int)
    requires forall c | c in batch :: c in v.truth.chunks
    ensures FlushRun(FlushSteps(worlds(n), v, batch, nowMs), nowMs, !AllStamp(worlds))
  {
    FlushStepsAreARun(worlds(n), v, batch, nowMs, !AllStamp(worlds));
  }

  lemma {:induction false} KeepAll(rows: seq<Row>)
    ensures WithoutRecords(rows, {}) == rows
  {
    if rows == [] {
    } else {
      KeepAll(rows[1..]);
    }
  }

  /** Without a table and without stamps, the index is exact and everything is pending. */
  lemma ResetIsExact(t: Truth, dim: nat, nowMs: int)
    requires Consistent(t)
    ensures var v := Vault(AllReset(t), Missing, dim);
            && Consistent(v.truth) && Exact(v)
            && Pending(v.truth) == t.chunks.Keys
            && |Pending(v.truth)| == |t.chunks|
            && StampedAt(v.truth, t.chunks.Keys, nowMs) == StampedAt(t, t.chunks.Keys, nowMs)
  {
    var v := Vault(AllReset(t), Missing, dim);
    assert Stamped(v.truth) == {};
    assert Pending(v.truth) == t.chunks.Keys;
    assert StampedAt(v.truth, t.chunks.Keys, nowMs).chunks == StampedAt(t, t.chunks.Keys, nowMs).chunks;
  }
}
