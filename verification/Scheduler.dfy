/** The capture owner's flushing: a bounded cadence while it runs, a full drain before it stops. */
module Scheduler {
  import opened Wrappers
  import opened Arithmetic
  import opened Vault
  import opened Protocol
  import opened Guarantees
  import opened Store
  import opened LanceWriter

  const I64_MAX: nat := 0x7FFF_FFFF_FFFF_FFFF

  /** `i64::try_from(now).unwrap_or(i64::MAX)`. */
  function StampFor(nowMs: nat): (stamp: int)
    ensures stamp == 0 <==> nowMs == 0
    ensures 0 <= stamp <= nowMs && stamp < 0x8000_0000_0000_0000
    ensures stamp < nowMs ==> stamp == 0x7FFF_FFFF_FFFF_FFFF
  {
    if nowMs <= I64_MAX then nowMs else I64_MAX
  }

  datatype FlushTickOutcome = NotDue | Flushed(report: FlushReport) | Failed(error: FlushError)

  /** Opening a scheduler refuses an interval of zero. */
  type Interval = ms: nat | ms > 0 witness 1

  class CaptureScheduler {
    const store: Store
    const writer: LanceWriter
    const flushIntervalMs: Interval
    var lastSuccessfulFlushMs: nat

    constructor (store: Store, writer: LanceWriter, startedAtMs: nat, flushIntervalMs: Interval)
      ensures this.store == store && this.writer == writer && this.flushIntervalMs == flushIntervalMs
      ensures lastSuccessfulFlushMs == startedAtMs
    {
      this.store := store;
      this.writer := writer;
      this.flushIntervalMs := flushIntervalMs;
      lastSuccessfulFlushMs := startedAtMs;
    }

    ghost function Sees(): Vault
      reads this, store, writer
    {
      writer.Sees(store)
    }

    /** The flushing half of a tick. Successive cadence flushes are at least the interval apart,
        however the clock behaves. */
    method TickFlush(w: World, nowMs: nat)
      returns (r: FlushTickOutcome, ghost batch: seq<string>, ghost steps: seq<Step>)
      requires Consistent(store.Contents()) && Honest(w)
      modifies this, store, writer
      ensures forall c | c in batch :: c in old(store.Contents()).chunks
      ensures r.Flushed? ==> Cooperates(w, old(Sees()), batch)
      ensures r.Failed? ==> !Cooperates(w, old(Sees()), batch)
      ensures r.NotDue? <==> SaturatingSub(nowMs, old(lastSuccessfulFlushMs)) < flushIntervalMs
      ensures r.NotDue? ==> Sees() == old(Sees()) && batch == []
      ensures r.Flushed? ==>
                IsBatch(old(store.Contents()), batch)
                && Sees() == AfterFlush(old(Sees()), batch, StampFor(nowMs))
                && r.report == FlushReport(|batch|, |batch| == FLUSH_BATCH_SIZE)
      ensures r.Flushed? ==>
                lastSuccessfulFlushMs == nowMs
                && nowMs >= old(lastSuccessfulFlushMs) + flushIntervalMs
      ensures !r.Flushed? ==> lastSuccessfulFlushMs == old(lastSuccessfulFlushMs)
      ensures r.Failed? ==>
                store.Contents() == old(store.Contents()) && Rows(old(writer.table)) <= Rows(writer.table)
      ensures steps == if r.NotDue? then [] else FlushSteps(w, old(Sees()), batch, StampFor(nowMs))
      ensures Path(System(old(Sees()), Idle), steps, System(Sees(), Idle))
    {
      if SaturatingSub(nowMs, lastSuccessfulFlushMs) < flushIntervalMs {
        return NotDue, [], [];
      }
      var report, flushed, more := writer.FlushOnce(store, w, StampFor(nowMs));
      match report {
        case Success(flush) =>
          lastSuccessfulFlushMs := nowMs;
          return Flushed(flush), flushed, more;
        case Failure(error) =>
          return Failed(error), flushed, more;
      }
    }

    /** Flushes until nothing is pending. The count is the backlog it found; a failure leaves what is
        not yet flushed pending, and what is stamped indexed if it was before. */
    method FlushOnShutdown(worlds: nat -> World, nowMs: nat)
      returns (r: Result<nat, FlushError>, ghost done: set<string>, ghost steps: seq<Step>)
      requires Consistent(store.Contents()) && forall i :: Honest(worlds(i))
      requires nowMs != 0 || Pending(store.Contents()) == {}
      modifies this, store, writer
      ensures done <= Pending(old(store.Contents()))
      ensures store.Contents() == StampedAt(old(store.Contents()), done, StampFor(nowMs))
      ensures r.Success? ==>
                && done == Pending(old(store.Contents()))
                && r.value == |Pending(old(store.Contents()))|
                && Pending(store.Contents()) == {}
                && lastSuccessfulFlushMs == nowMs
                && (Exact(old(Sees())) ==> Exact(Sees()))
      ensures AllAnswer(worlds, writer.dim) ==>
                (r.Success? <==> DrainWorks(old(writer.table), worlds, BatchesFor(|Pending(old(store.Contents()))|)))
      ensures StampedAreIndexed(old(Sees())) ==> StampedAreIndexed(Sees())
      ensures r.Failure? ==> lastSuccessfulFlushMs == old(lastSuccessfulFlushMs)
      ensures FlushRun(steps, StampFor(nowMs), !AllStamp(worlds))
      ensures Path(System(old(Sees()), Idle), steps, System(Sees(), Idle))
    {
      hide Path, FlushRun, FlushSteps, AllStamp, StampedAreIndexed, Draining, Cooperates, Honest, Selects, Exact;
      hide StampedAt, AfterFlush, Consistent, Pending, Rebuilding, AllAnswer, DrainWorks, BatchesFor, IsFlushed;
      hide OldestFirst, Elements;
      ghost var v0 := Sees();
      ghost var s := System(v0, Idle);
      var stamp := StampFor(nowMs);
      done, steps := {}, [];
      RebuildStarts(v0, stamp, worlds);
      PathStarts(s);
      NoFlushes(stamp, !AllStamp(worlds));
      var written: nat, round: nat := 0, 0;
      ghost var report := RebuildReport(0, 0);
      while true
        invariant Rebuilding(v0, done, Sees(), report, stamp, worlds)
        invariant report == RebuildReport(written, round)
        invariant lastSuccessfulFlushMs == old(lastSuccessfulFlushMs)
        invariant Path(s, steps, System(Sees(), Idle)) && FlushRun(steps, stamp, !AllStamp(worlds))
        decreases |Pending(store.Contents())|
      {
        ghost var v := Sees();
        RebuildStands(v0, done, v, report, stamp, worlds);
        var flush, batch, more := writer.FlushOnce(store, worlds(round), stamp);
        PathJoins(s, steps, System(v, Idle), more, System(Sees(), Idle));
        RoundIsAFlushRun(worlds, round, v, batch, stamp);
        FlushRunsJoin(steps, more, stamp, !AllStamp(worlds));
        steps := steps + more;
        if flush.Failure? {
          RebuildFails(v0, done, v, report, stamp, worlds, batch);
          if StampedAreIndexed(v0) {
            MoreRowsStayIndexed(v, Sees());
          }
          return Failure(flush.error), done, steps;
        }
        written := written + flush.value.written;
        if flush.value.written == 0 {
          assert batch == [];
          lastSuccessfulFlushMs := nowMs;
          RebuildEnds(v0, done, v, report, stamp, worlds);
          return Success(written), done, steps;
        }
        RebuildRound(v0, done, v, report, stamp, worlds, batch);
        done := done + Elements(batch);
        report := RebuildReport(report.chunks + flush.value.written, report.batches + 1);
        round := round + 1;
      }
    }
  }
}
