/** The capture worker's loop: pause, resume, cadence, shutdown, and the drain on the way out. */
module CaptureWorker {
  import opened Sampling
  import opened Wrappers
  import opened Arithmetic

  datatype Command = SetPaused(paused: bool) | Shutdown

  datatype Received = Got(command: Command) | Disconnected | Nothing

  /** One turn of the loop: the clock in milliseconds, the input idle time in nanoseconds, and what the
      command channel gave. A blocking receive that has not returned is a turn that received nothing. */
  datatype Turn = Turn(nowMs: nat, idle: nat, received: Received)

  datatype Event = Ticked(nowMs: nat, idle: nat) | Acknowledged(paused: bool) | Drained

  datatype Report = Report(ticks: nat, shutdownFlushedChunks: nat)

  datatype DrainError = DrainError

  const NANOS_PER_MILLI: nat := 1_000_000

  function Since(nowMs: nat, lastMs: nat): nat {
    SaturatingSub(nowMs, lastMs) * NANOS_PER_MILLI
  }

  // ----- what a run means -----------------------------------------------------------

  predicate Ends(t: Turn) {
    t.received.Disconnected? || t.received == Got(Shutdown)
  }

  /** The last pause command before turn `n` was a pause. */
  predicate PausedAt(turns: seq<Turn>, n: nat)
    requires n <= |turns|
  {
    n > 0 && match turns[n - 1].received
             case Got(SetPaused(paused)) => paused
             case _ => PausedAt(turns, n - 1)
  }

  predicate TicksAt(p: SamplingPolicy, turns: seq<Turn>, n: nat)
    requires n < |turns|
    decreases n, 1
  {
    !PausedAt(turns, n) && Decide(p, turns[n].idle, Since(turns[n].nowMs, LastTick(p, turns, n))).CaptureNow?
  }

  /** The time of the last tick before turn `n`, zero if there was none. */
  function LastTick(p: SamplingPolicy, turns: seq<Turn>, n: nat): nat
    requires n <= |turns|
    decreases n, 0
  {
    if n == 0 then 0 else if TicksAt(p, turns, n - 1) then turns[n - 1].nowMs else LastTick(p, turns, n - 1)
  }

  function TickEvents(p: SamplingPolicy, turns: seq<Turn>, n: nat): seq<Event>
    requires n < |turns|
  {
    if TicksAt(p, turns, n) then [Ticked(turns[n].nowMs, turns[n].idle)] else []
  }

  function AnswerEvents(r: Received): seq<Event> {
    match r
    case Got(SetPaused(paused)) => [Acknowledged(paused)]
    case Nothing => []
    case _ => [Drained]
  }

  function EventsOf(p: SamplingPolicy, turns: seq<Turn>, n: nat): seq<Event>
    requires n < |turns|
  {
    TickEvents(p, turns, n) + AnswerEvents(turns[n].received)
  }

  /** Everything the outside sees of the first `n` turns. */
  function Trace(p: SamplingPolicy, turns: seq<Turn>, n: nat): seq<Event>
    requires n <= |turns|
  {
    if n == 0 then [] else Trace(p, turns, n - 1) + EventsOf(p, turns, n - 1)
  }

  /** No turn before `n` ends the loop. */
  ghost predicate Running(turns: seq<Turn>, n: nat)
    requires n <= |turns|
  {
    forall i | 0 <= i < n :: !Ends(turns[i])
  }

  function CountTicks(trace: seq<Event>): nat {
    if trace == [] then 0
    else CountTicks(trace[..|trace| - 1]) + if trace[|trace| - 1].Ticked? then 1 else 0
  }

  lemma CountAppend(trace: seq<Event>, e: Event)
    ensures CountTicks(trace + [e]) == CountTicks(trace) + if e.Ticked? then 1 else 0
  {
    assert (trace + [e])[..|trace|] == trace;
  }

  /** One more turn. */
  lemma Turned(p: SamplingPolicy, turns: seq<Turn>, n: nat)
    requires n < |turns|
    ensures Trace(p, turns, n + 1) == (Trace(p, turns, n) + TickEvents(p, turns, n)) + AnswerEvents(turns[n].received)
    ensures LastTick(p, turns, n + 1) == if TicksAt(p, turns, n) then turns[n].nowMs else LastTick(p, turns, n)
    ensures PausedAt(turns, n + 1) == (match turns[n].received
                                       case Got(SetPaused(paused)) => paused
                                       case _ => PausedAt(turns, n))
  {
    hide Decide, Since;
  }

  lemma NothingYet(p: SamplingPolicy, turns: seq<Turn>)
    ensures Trace(p, turns, 0) == [] && LastTick(p, turns, 0) == 0 && !PausedAt(turns, 0) && CountTicks([]) == 0
  {
  }

  // ----- the loop --------------------------------------------------------------------

  /** Runs until a turn ends the loop or the readings given are used up. */
  method RunCaptureLoop(p: SamplingPolicy, turns: seq<Turn>, drain: Option<nat>)
    returns (used: nat, trace: seq<Event>, report: Option<Result<Report, DrainError>>)
    ensures used <= |turns| && trace == Trace(p, turns, used)
    ensures report.None? ==> used == |turns| && Running(turns, used)
    ensures report.Some? ==> used > 0 && Running(turns, used - 1) && Ends(turns[used - 1])
    ensures report.Some? ==>
              report.value == match drain
                              case Some(flushed) => Success(Report(CountTicks(trace), flushed))
                              case None => Failure(DrainError)
  {
    hide CountTicks, Decide, Since, Trace, LastTick, PausedAt;
    var ticks, paused, lastCaptureMs := 0, false, 0;
    used, trace, report := 0, [], None;
    NothingYet(p, turns);
    while used < |turns|
      invariant used <= |turns| && Running(turns, used)
      invariant paused == PausedAt(turns, used) && lastCaptureMs == LastTick(p, turns, used)
      invariant trace == Trace(p, turns, used) && ticks == CountTicks(trace)
    {
      var turn := turns[used];
      Turned(p, turns, used);
      if !paused {
        match Decide(p, turn.idle, Since(turn.nowMs, lastCaptureMs)) {
          case CaptureNow =>
            CountAppend(trace, Ticked(turn.nowMs, turn.idle));
            trace := trace + [Ticked(turn.nowMs, turn.idle)];
            ticks := ticks + 1;
            lastCaptureMs := turn.nowMs;
          case Wait(_) =>
          case DeepIdle =>
        }
      }
      assert trace == Trace(p, turns, used) + TickEvents(p, turns, used);
      assert lastCaptureMs == LastTick(p, turns, used + 1);
      used := used + 1;
      match turn.received {
        case Got(SetPaused(next)) =>
          CountAppend(trace, Acknowledged(next));
          paused := next;
          trace := trace + [Acknowledged(next)];
        case Nothing =>
        case _ =>
          CountAppend(trace, Drained);
          trace := trace + [Drained];
          report := Some(if drain.Some? then Success(Report(ticks, drain.value)) else Failure(DrainError));
          return;
      }
    }
  }

  // ----- what holds of every run -------------------------------------------------------

  /** The scheduler is drained exactly once, as the last thing that happens, and only if the loop ended. */
  lemma {:induction false} DrainedOnceAndLast(p: SamplingPolicy, turns: seq<Turn>, n: nat)
    requires n <= |turns| && (n > 0 ==> Running(turns, n - 1))
    ensures forall i | 0 <= i < |Trace(p, turns, n)| ::
              Trace(p, turns, n)[i].Drained? <==> i == |Trace(p, turns, n)| - 1 && n > 0 && Ends(turns[n - 1])
  {
    if n == 0 {
    } else {
      DrainedOnceAndLast(p, turns, n - 1);
    }
  }

  /** Where a trace stands: paused after an acknowledged pause until an acknowledged resume. */
  predicate PausedIn(trace: seq<Event>, n: nat)
    requires n <= |trace|
  {
    n > 0 && match trace[n - 1]
             case Acknowledged(paused) => paused
             case _ => PausedIn(trace, n - 1)
  }

  lemma {:induction false} PausedInPrefix(a: seq<Event>, b: seq<Event>, n: nat)
    requires n <= |a| <= |b| && a <= b
    ensures PausedIn(a, n) == PausedIn(b, n)
  {
    if n == 0 {
    } else {
      assert a[n - 1] == b[n - 1];
      PausedInPrefix(a, b, n - 1);
    }
  }

  ghost predicate NeverTicksWhilePaused(trace: seq<Event>) {
    forall i | 0 <= i < |trace| && trace[i].Ticked? :: !PausedIn(trace, i)
  }

  lemma PauseAppend(trace: seq<Event>, more: seq<Event>)
    requires |more| <= 1 && NeverTicksWhilePaused(trace)
    requires more != [] && more[0].Ticked? ==> !PausedIn(trace, |trace|)
    ensures NeverTicksWhilePaused(trace + more)
    ensures PausedIn(trace + more, |trace + more|) ==
              if more != [] && more[0].Acknowledged? then more[0].paused else PausedIn(trace, |trace|)
  {
    var longer := trace + more;
    PausedInPrefix(trace, longer, |trace|);
    if more == [] {
      assert longer == trace;
    } else {
      assert longer[|trace|] == more[0];
      forall i | 0 <= i < |trace| && longer[i].Ticked? ensures !PausedIn(longer, i) {
        assert trace[i].Ticked?;
        PausedInPrefix(trace, longer, i);
      }
    }
  }

  lemma {:induction false} PauseHolds(p: SamplingPolicy, turns: seq<Turn>, n: nat)
    requires n <= |turns|
    ensures NeverTicksWhilePaused(Trace(p, turns, n))
    ensures PausedIn(Trace(p, turns, n), |Trace(p, turns, n)|) == PausedAt(turns, n)
  {
    hide NeverTicksWhilePaused, PausedIn, Decide;
    if n == 0 {
      NothingPaused();
    } else {
      PauseHolds(p, turns, n - 1);
      var earlier := Trace(p, turns, n - 1);
      var ticked, answered := TickEvents(p, turns, n - 1), AnswerEvents(turns[n - 1].received);
      PauseAppend(earlier, ticked);
      PauseAppend(earlier + ticked, answered);
      assert Trace(p, turns, n) == (earlier + ticked) + answered;
    }
  }

  lemma NothingPaused()
    ensures NeverTicksWhilePaused([]) && !PausedIn([], 0)
  {
  }

  lemma {:induction false} PausedSince(trace: seq<Event>, i: nat, j: nat)
    requires i < j <= |trace| && trace[i] == Acknowledged(true) && !PausedIn(trace, j)
    ensures exists k | i < k < j :: trace[k] == Acknowledged(false)
  {
    if trace[j - 1] != Acknowledged(false) {
      PausedSince(trace, i, j - 1);
    }
  }

  /** No tick between an acknowledged pause and the next acknowledged resume. */
  lemma PauseUntilResume(p: SamplingPolicy, turns: seq<Turn>, n: nat, i: nat, j: nat)
    requires n <= |turns| && i < j < |Trace(p, turns, n)|
    requires Trace(p, turns, n)[i] == Acknowledged(true) && Trace(p, turns, n)[j].Ticked?
    ensures exists k | i < k < j :: Trace(p, turns, n)[k] == Acknowledged(false)
  {
    hide Trace;
    PauseHolds(p, turns, n);
    PausedSince(Trace(p, turns, n), i, j);
  }

  /** The time of the last tick among the first `n` events, zero if there is none. */
  function LastTickedIn(trace: seq<Event>, n: nat): nat
    requires n <= |trace|
  {
    if n == 0 then 0 else if trace[n - 1].Ticked? then trace[n - 1].nowMs else LastTickedIn(trace, n - 1)
  }

  lemma {:induction false} LastTickedInPrefix(a: seq<Event>, b: seq<Event>, n: nat)
    requires n <= |a| <= |b| && a <= b
    ensures LastTickedIn(a, n) == LastTickedIn(b, n)
  {
    if n == 0 {
    } else {
      assert a[n - 1] == b[n - 1];
      LastTickedInPrefix(a, b, n - 1);
    }
  }

  lemma LastTickedAppend(trace: seq<Event>, more: seq<Event>)
    requires |more| <= 1
    ensures LastTickedIn(trace + more, |trace + more|) ==
              if more != [] && more[0].Ticked? then more[0].nowMs else LastTickedIn(trace, |trace|)
  {
    LastTickedInPrefix(trace, trace + more, |trace|);
    if more == [] {
      assert trace + more == trace;
    }
  }

  lemma {:induction false} LastTickIsSeen(p: SamplingPolicy, turns: seq<Turn>, n: nat)
    requires n <= |turns|
    ensures LastTick(p, turns, n) == LastTickedIn(Trace(p, turns, n), |Trace(p, turns, n)|)
  {
    hide Decide, Since, PausedAt, LastTickedIn;
    if n == 0 {
      NothingTicked();
    } else {
      LastTickIsSeen(p, turns, n - 1);
      var earlier := Trace(p, turns, n - 1);
      var ticked, answered := TickEvents(p, turns, n - 1), AnswerEvents(turns[n - 1].received);
      LastTickedAppend(earlier, ticked);
      LastTickedAppend(earlier + ticked, answered);
      assert Trace(p, turns, n) == (earlier + ticked) + answered;
    }
  }

  lemma NothingTicked()
    ensures LastTickedIn([], 0) == 0
  {
  }

  /** A turn ticks exactly when the events so far do not stand at a pause, the input is not deep-idle, and the
      forced interval or the one for this idle time has passed since the last tick among them, or since zero. */
  lemma TicksIff(p: SamplingPolicy, turns: seq<Turn>, n: nat)
    requires n < |turns|
    ensures var trace, turn := Trace(p, turns, n), turns[n];
            var since := (if turn.nowMs > LastTickedIn(trace, |trace|) then turn.nowMs - LastTickedIn(trace, |trace|)
                          else 0) * 1_000_000;
            EventsOf(p, turns, n) ==
              (if !PausedIn(trace, |trace|) && turn.idle < p.deepIdleAfter
                  && (since >= p.forcedCaptureAfter
                      || since >= if turn.idle >= p.idleAfter then p.idleInterval else p.activeInterval)
               then [Ticked(turn.nowMs, turn.idle)] else [])
              + (match turn.received
                 case Got(SetPaused(paused)) => [Acknowledged(paused)]
                 case Got(Shutdown) => [Drained]
                 case Disconnected => [Drained]
                 case Nothing => [])
  {
    hide Trace, PausedIn, LastTickedIn, PausedAt, LastTick, Decide;
    LastTickIsSeen(p, turns, n);
    PauseHolds(p, turns, n);
    CapturesIff(p, turns[n].idle, Since(turns[n].nowMs, LastTick(p, turns, n)));
  }

  /** Every tick happened while the input was not deep-idle. */
  lemma {:induction false} NoTickWhileDeepIdle(p: SamplingPolicy, turns: seq<Turn>, n: nat)
    requires n <= |turns|
    ensures forall e | e in Trace(p, turns, n) && e.Ticked? :: e.idle < p.deepIdleAfter
  {
    if n == 0 {
    } else {
      NoTickWhileDeepIdle(p, turns, n - 1);
    }
  }

  ghost predicate ClockRises(turns: seq<Turn>) {
    forall i, j | 0 <= i < j < |turns| :: turns[i].nowMs <= turns[j].nowMs
  }

  /** Any two ticks of a trace are at least `spacing` nanoseconds apart. */
  ghost predicate Spaced(trace: seq<Event>, spacing: nat) {
    forall i, j | 0 <= i < j < |trace| && trace[i].Ticked? && trace[j].Ticked? :: Apart(trace[i], trace[j], spacing)
  }

  ghost predicate Apart(a: Event, b: Event, spacing: nat)
    requires a.Ticked? && b.Ticked?
  {
    b.nowMs >= a.nowMs && (b.nowMs - a.nowMs) * NANOS_PER_MILLI >= spacing
  }

  ghost predicate TicksUpTo(trace: seq<Event>, lastMs: nat) {
    forall e | e in trace && e.Ticked? :: e.nowMs <= lastMs
  }

  /** Whatever the input idle time, a capture comes at least `spacing` after the last one. */
  ghost predicate Paces(p: SamplingPolicy, spacing: nat) {
    forall idle: nat | idle < p.deepIdleAfter :: Min(Interval(p, idle), p.forcedCaptureAfter) >= spacing
  }

  lemma TickIsSpaced(p: SamplingPolicy, turns: seq<Turn>, n: nat, spacing: nat)
    requires n < |turns| && TicksAt(p, turns, n) && Paces(p, spacing)
    ensures Since(turns[n].nowMs, LastTick(p, turns, n)) >= spacing
    ensures spacing > 0 ==> turns[n].nowMs > LastTick(p, turns, n)
  {
    CapturesIff(p, turns[n].idle, Since(turns[n].nowMs, LastTick(p, turns, n)));
    assert Min(Interval(p, turns[n].idle), p.forcedCaptureAfter) >= spacing;
  }

  lemma {:induction false} LastTickIsPast(p: SamplingPolicy, turns: seq<Turn>, n: nat)
    requires n < |turns| && ClockRises(turns)
    ensures LastTick(p, turns, n) <= turns[n].nowMs
  {
    if n == 0 {
    } else {
      LastTickIsPast(p, turns, n - 1);
    }
  }

  ghost predicate AtMostOneTick(trace: seq<Event>) {
    forall i, j | 0 <= i < |trace| && 0 <= j < |trace| && trace[i].Ticked? && trace[j].Ticked? :: i == j
  }

  ghost predicate ComesAfter(trace: seq<Event>, lastMs: nat, spacing: nat) {
    forall e | e in trace && e.Ticked? :: e.nowMs >= lastMs && (e.nowMs - lastMs) * NANOS_PER_MILLI >= spacing
  }

  lemma SpacedAppend(trace: seq<Event>, more: seq<Event>, lastMs: nat, nextMs: nat, spacing: nat)
    requires Spaced(trace, spacing) && TicksUpTo(trace, lastMs)
    requires AtMostOneTick(more) && ComesAfter(more, lastMs, spacing) && TicksUpTo(more, nextMs) && lastMs <= nextMs
    ensures Spaced(trace + more, spacing) && TicksUpTo(trace + more, nextMs)
  {
    var longer := trace + more;
    forall i, j | 0 <= i < j < |longer| && longer[i].Ticked? && longer[j].Ticked?
      ensures Apart(longer[i], longer[j], spacing)
    {
      if j >= |trace| {
        assert longer[j] == more[j - |trace|] && longer[j] in more;
        if i < |trace| {
          assert trace[i] in trace;
        }
      } else {
        assert Apart(trace[i], trace[j], spacing);
      }
    }
  }

  lemma StepIsSpaced(p: SamplingPolicy, turns: seq<Turn>, n: nat, spacing: nat)
    requires n < |turns| && Paces(p, spacing) && (spacing > 0 || ClockRises(turns))
    ensures AtMostOneTick(EventsOf(p, turns, n))
    ensures ComesAfter(EventsOf(p, turns, n), LastTick(p, turns, n), spacing)
    ensures TicksUpTo(EventsOf(p, turns, n), LastTick(p, turns, n + 1))
    ensures LastTick(p, turns, n) <= LastTick(p, turns, n + 1)
  {
    hide Paces, Decide;
    if TicksAt(p, turns, n) {
      TickIsSpaced(p, turns, n, spacing);
      if ClockRises(turns) {
        LastTickIsPast(p, turns, n);
      }
    }
  }

  lemma {:induction false} TicksArePaced(p: SamplingPolicy, turns: seq<Turn>, n: nat, spacing: nat)
    requires n <= |turns| && Paces(p, spacing) && (spacing > 0 || ClockRises(turns))
    ensures Spaced(Trace(p, turns, n), spacing) && TicksUpTo(Trace(p, turns, n), LastTick(p, turns, n))
  {
    hide Paces, EventsOf, LastTick, AtMostOneTick, ComesAfter, ClockRises, Apart;
    if n == 0 {
    } else {
      TicksArePaced(p, turns, n - 1, spacing);
      StepIsSpaced(p, turns, n - 1, spacing);
      SpacedAppend(Trace(p, turns, n - 1), EventsOf(p, turns, n - 1), LastTick(p, turns, n - 1), LastTick(p, turns, n),
                   spacing);
    }
  }

  /** Ticks are spaced whatever the clock does if the spacing is positive, and with a clock that does not
      run backwards in any case. */
  lemma TicksAreSpaced(p: SamplingPolicy, turns: seq<Turn>, n: nat)
    requires n <= |turns| && (Spacing(p) > 0 || ClockRises(turns))
    ensures Spaced(Trace(p, turns, n), Spacing(p))
  {
    assert Paces(p, Spacing(p));
    TicksArePaced(p, turns, n, Spacing(p));
  }

  // ----- what the start check allows ---------------------------------------------------

  const MIN_CAPTURE_INTERVAL: nat := 2_000 * NANOS_PER_MILLI

  /** What starting a worker checks. */
  predicate Startable(p: SamplingPolicy) {
    p.activeInterval >= MIN_CAPTURE_INTERVAL
  }

  /** Two ticks of the run fall into one millisecond. */
  ghost predicate Bursts(p: SamplingPolicy, turns: seq<Turn>) {
    var trace := Trace(p, turns, |turns|);
    exists i, j | 0 <= i < j < |trace| :: SameInstant(trace[i], trace[j])
  }

  predicate SameInstant(a: Event, b: Event) {
    a.Ticked? && b.Ticked? && a.nowMs == b.nowMs
  }

  /** A policy under which captures need not wait: there is no forced interval, or no idle interval and
      a way to be idle without being deep-idle. */
  predicate HasZeroWait(p: SamplingPolicy) {
    p.deepIdleAfter > 0 && (p.forcedCaptureAfter == 0 || (p.idleInterval == 0 && p.idleAfter < p.deepIdleAfter))
  }

  lemma ZeroWaitBursts(p: SamplingPolicy, nowMs: nat)
    requires HasZeroWait(p)
    ensures var turn := Turn(nowMs, if p.forcedCaptureAfter == 0 then 0 else p.idleAfter, Nothing);
            Bursts(p, [turn, turn])
  {
    var turn := Turn(nowMs, if p.forcedCaptureAfter == 0 then 0 else p.idleAfter, Nothing);
    var turns := [turn, turn];
    assert TicksAt(p, turns, 0) && TicksAt(p, turns, 1);
    assert Trace(p, turns, 1) == [Ticked(nowMs, turn.idle)];
    assert Trace(p, turns, 2) == [Ticked(nowMs, turn.idle), Ticked(nowMs, turn.idle)];
    assert SameInstant(Trace(p, turns, 2)[0], Trace(p, turns, 2)[1]);
  }

  lemma PositiveWaitsNeverBurst(p: SamplingPolicy, turns: seq<Turn>)
    requires Startable(p) && !HasZeroWait(p)
    ensures !Bursts(p, turns)
  {
    hide Trace;
    assert Paces(p, 1);
    TicksArePaced(p, turns, |turns|, 1);
    var trace := Trace(p, turns, |turns|);
    forall i, j | 0 <= i < j < |trace| ensures !SameInstant(trace[i], trace[j]) {
      assert trace[i].Ticked? && trace[j].Ticked? ==> Apart(trace[i], trace[j], 1);
    }
  }

  /** The start check bounds the active interval only. Under a policy it accepts, some run ticks twice in
      one millisecond exactly when the policy has a zero wait. */
  lemma StartCheckAdmitsBurstsIff(p: SamplingPolicy)
    requires Startable(p)
    ensures (exists turns :: Bursts(p, turns)) <==> HasZeroWait(p)
    ensures p.activeInterval >= 2_000_000_000
  {
    if HasZeroWait(p) {
      ZeroWaitBursts(p, 0);
    } else {
      forall turns ensures !Bursts(p, turns) {
        PositiveWaitsNeverBurst(p, turns);
      }
    }
  }
}
