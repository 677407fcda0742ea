/** The fixed-window limiter in front of the server, and what it bounds over any stretch of time. */
module RateWindow {
  import opened Arithmetic

  /** Instants are nanoseconds on a monotonic clock. */
  const SECOND: nat := 1_000_000_000
  const U64_SIZE: nat := 0x1_0000_0000_0000_0000

  /** The clock as one call reads it: once to measure the window, again if it starts a new one. */
  datatype Request = Request(readAt: nat, restartAt: nat)

  /** The current window and the number of calls it has seen. */
  datatype Window = Window(start: nat, seen: nat)

  predicate Restarts(w: Window, r: Request) {
    SaturatingSub(r.readAt, w.start) / SECOND >= 1
  }

  function Next(w: Window, r: Request): Window {
    if Restarts(w, r) then Window(r.restartAt, 1) else Window(w.start, w.seen + 1)
  }

  /** The counter is a 64-bit word. */
  predicate Admits(w: Window, r: Request, perSecond: nat) {
    (if Restarts(w, r) then 0 else w.seen) % U64_SIZE < perSecond
  }

  /** The instant of a call is its last clock reading. */
  function At(w: Window, r: Request): nat {
    if Restarts(w, r) then r.restartAt else r.readAt
  }

  class Limiter {
    var windowStart: nat
    var count: nat
    ghost var window: Window

    constructor (now: nat)
      ensures Valid() && window == Window(now, 0)
    {
      windowStart, count, window := now, 0, Window(now, 0);
    }

    ghost predicate Valid()
      reads this
    {
      windowStart == window.start && count == window.seen % U64_SIZE
    }

    method Allow(perSecond: nat, r: Request) returns (allowed: bool)
      requires Valid()
      modifies this
      ensures Valid() && window == Next(old(window), r)
      ensures allowed <==> Admits(old(window), r, perSecond)
    {
      window := Next(window, r);
      if SaturatingSub(r.readAt, windowStart) / SECOND >= 1 {
        windowStart := r.restartAt;
        count := 0;
      }
      allowed := count < perSecond;
      count := (count + 1) % U64_SIZE;
    }
  }

  // ----- runs ------------------------------------------------------------------------

  function WindowAt(first: Window, rs: seq<Request>, n: nat): Window
    requires n <= |rs|
  {
    if n == 0 then first else Next(WindowAt(first, rs, n - 1), rs[n - 1])
  }

  function InstantOf(first: Window, rs: seq<Request>, n: nat): nat
    requires n < |rs|
  {
    At(WindowAt(first, rs, n), rs[n])
  }

  /** The clock does not run backwards, from the limiter's creation on. */
  ghost predicate ClockRises(first: Window, rs: seq<Request>) {
    forall n | 0 <= n < |rs| ::
      && rs[n].readAt <= rs[n].restartAt
      && LastReading(first, rs, n) <= rs[n].readAt
  }

  /** No window sees so many calls that its counter wraps. */
  ghost predicate CounterHolds(first: Window, rs: seq<Request>) {
    forall n | 0 <= n <= |rs| :: WindowAt(first, rs, n).seen <= U64_SIZE
  }

  /** How many of the first `n` requests were admitted at an instant in `[a, b)`. */
  function AdmittedIn(first: Window, rs: seq<Request>, perSecond: nat, n: nat, a: nat, b: nat): nat
    requires n <= |rs|
  {
    if n == 0 then 0
    else
      AdmittedIn(first, rs, perSecond, n - 1, a, b)
      + if Admits(WindowAt(first, rs, n - 1), rs[n - 1], perSecond) && a <= InstantOf(first, rs, n - 1) < b
        then 1 else 0
  }

  // ----- the bound --------------------------------------------------------------------

  /** How many windows before the one that starts at `start` can have admitted anything from `a` on. */
  function WindowsBefore(start: nat, a: nat): nat {
    if start <= a then 0 else (start - a - 1) / SECOND + 1
  }

  lemma AnotherWindow(start: nat, next: nat, a: nat)
    requires next >= start + SECOND && next > a
    ensures WindowsBefore(next, a) >= WindowsBefore(start, a) + 1
  {
  }

  lemma WindowsWithin(start: nat, a: nat, seconds: nat)
    requires start < a + seconds * SECOND && seconds >= 1
    ensures WindowsBefore(start, a) <= seconds
  {
  }

  /** What the windows up to the current one can have admitted from `a` on. */
  function Budget(w: Window, perSecond: nat, a: nat): nat {
    WindowsBefore(w.start, a) * perSecond + Min(w.seen, perSecond)
  }

  lemma LeastBudget(w: Window, perSecond: nat, a: nat, seconds: nat)
    requires w.start < a + seconds * SECOND && seconds >= 1
    ensures Budget(w, perSecond, a) <= (seconds + 1) * perSecond
  {
    WindowsWithin(w.start, a, seconds);
    Times(WindowsBefore(w.start, a), seconds, perSecond);
  }

  lemma InstantInWindow(w: Window, r: Request, last: nat)
    requires w.start <= last <= r.readAt <= r.restartAt
    ensures last <= At(w, r) && Next(w, r).start <= At(w, r) < Next(w, r).start + SECOND
  {
  }

  /** Admitted calls never exceed the budget of the windows that could have admitted them. */
  lemma BudgetStep(w: Window, r: Request, perSecond: nat, a: nat, admitted: nat, last: nat)
    requires w.start <= last <= r.readAt <= r.restartAt && last < w.start + SECOND
    requires Next(w, r).seen <= U64_SIZE && admitted <= Budget(w, perSecond, a) && (last < a ==> admitted == 0)
    ensures var now := At(w, r);
            && admitted + (if Admits(w, r, perSecond) && a <= now then 1 else 0) <= Budget(Next(w, r), perSecond, a)
            && (now < a ==> admitted == 0)
  {
    InstantInWindow(w, r, last);
    if Restarts(w, r) {
      assert r.restartAt >= w.start + SECOND;
      if r.restartAt > a {
        AnotherWindow(w.start, r.restartAt, a);
        Times(WindowsBefore(w.start, a) + 1, WindowsBefore(r.restartAt, a), perSecond);
        assert (WindowsBefore(w.start, a) + 1) * perSecond == WindowsBefore(w.start, a) * perSecond + perSecond;
      } else {
        assert admitted == 0;
      }
    }
  }

  function LastReading(first: Window, rs: seq<Request>, n: nat): nat
    requires n <= |rs|
  {
    if n == 0 then first.start else InstantOf(first, rs, n - 1)
  }

  lemma {:induction false} BudgetHolds(first: Window, rs: seq<Request>, perSecond: nat, n: nat, a: nat, seconds: nat)
    requires ClockRises(first, rs) && CounterHolds(first, rs) && first.seen == 0 && n <= |rs| && seconds >= 1
    ensures var b, w, last := a + seconds * SECOND, WindowAt(first, rs, n), LastReading(first, rs, n);
            var admitted := AdmittedIn(first, rs, perSecond, n, a, b);
            && w.start <= last < w.start + SECOND
            && admitted <= (seconds + 1) * perSecond
            && (last < a ==> admitted == 0)
            && (last < b ==> admitted <= Budget(w, perSecond, a))
  {
    hide Budget, Admits, At, Next;
    var b := a + seconds * SECOND;
    Times(0, seconds + 1, perSecond);
    if n == 0 {
      NothingSpent(first, perSecond, a);
    } else {
      BudgetHolds(first, rs, perSecond, n - 1, a, seconds);
      var w, r, last := WindowAt(first, rs, n - 1), rs[n - 1], LastReading(first, rs, n - 1);
      assert last <= r.readAt <= r.restartAt;
      InstantInWindow(w, r, last);
      if InstantOf(first, rs, n - 1) < b {
        assert WindowAt(first, rs, n).seen <= U64_SIZE;
        BudgetStep(w, r, perSecond, a, AdmittedIn(first, rs, perSecond, n - 1, a, b), last);
        LeastBudget(WindowAt(first, rs, n), perSecond, a, seconds);
      }
    }
  }

  lemma NothingSpent(w: Window, perSecond: nat, a: nat)
    requires w.seen == 0
    ensures 0 <= Budget(w, perSecond, a)
  {
    Times(0, WindowsBefore(w.start, a), perSecond);
  }

  /** Any stretch of `seconds` whole seconds admits at most one second's worth more than its length. */
  lemma AdmissionsAreBounded(first: Window, rs: seq<Request>, perSecond: nat, a: nat, seconds: nat)
    requires ClockRises(first, rs) && CounterHolds(first, rs) && first.seen == 0 && seconds >= 1
    ensures AdmittedIn(first, rs, perSecond, |rs|, a, a + seconds * 1_000_000_000) <= (seconds + 1) * perSecond
  {
    BudgetHolds(first, rs, perSecond, |rs|, a, seconds);
  }

  // ----- the bound is reached -----------------------------------------------------------

  lemma {:induction false} EarlierRequestsStay(first: Window, rs: seq<Request>, r: Request, perSecond: nat, n: nat,
                                               a: nat, b: nat)
    requires n <= |rs|
    ensures WindowAt(first, rs + [r], n) == WindowAt(first, rs, n)
    ensures n < |rs| ==> InstantOf(first, rs + [r], n) == InstantOf(first, rs, n)
    ensures AdmittedIn(first, rs + [r], perSecond, n, a, b) == AdmittedIn(first, rs, perSecond, n, a, b)
  {
    if n == 0 {
    } else {
      EarlierRequestsStay(first, rs, r, perSecond, n - 1, a, b);
    }
  }

  /** A run so far: the clock never ran backwards, no counter wrapped, and everything in the stretch was admitted. */
  ghost predicate Bursting(first: Window, rs: seq<Request>, perSecond: nat, a: nat, b: nat, w: Window, last: nat,
                           admitted: nat) {
    && ClockRises(first, rs) && CounterHolds(first, rs)
    && WindowAt(first, rs, |rs|) == w && LastReading(first, rs, |rs|) == last
    && AdmittedIn(first, rs, perSecond, |rs|, a, b) == admitted
  }

  lemma LongerRunHolds(first: Window, rs: seq<Request>, r: Request)
    requires ClockRises(first, rs) && CounterHolds(first, rs)
    requires LastReading(first, rs, |rs|) <= r.readAt <= r.restartAt
    requires Next(WindowAt(first, rs, |rs|), r).seen <= U64_SIZE
    ensures ClockRises(first, rs + [r]) && CounterHolds(first, rs + [r])
  {
    hide Next, At;
    var longer := rs + [r];
    forall n | 0 <= n < |longer|
      ensures longer[n].readAt <= longer[n].restartAt && LastReading(first, longer, n) <= longer[n].readAt
    {
      EarlierRequestsStay(first, rs, r, 0, n, 0, 0);
      if n > 0 {
        EarlierRequestsStay(first, rs, r, 0, n - 1, 0, 0);
      }
      assert longer[n] == if n < |rs| then rs[n] else r;
    }
    forall n | 0 <= n <= |longer| ensures WindowAt(first, longer, n).seen <= U64_SIZE {
      EarlierRequestsStay(first, rs, r, 0, if n < |longer| then n else |rs|, 0, 0);
      assert longer[|rs|] == r;
    }
  }

  lemma OneMoreRequest(first: Window, rs: seq<Request>, perSecond: nat, a: nat, b: nat, w: Window, last: nat,
                       admitted: nat, t: nat)
    requires Bursting(first, rs, perSecond, a, b, w, last, admitted)
    requires last <= t && a <= t < b
    requires t >= w.start + SECOND || w.seen < perSecond
    requires perSecond <= U64_SIZE && perSecond > 0
    ensures Bursting(first, rs + [Request(t, t)], perSecond, a, b, Next(w, Request(t, t)), t, admitted + 1)
  {
    hide Next, At, Admits, ClockRises, CounterHolds;
    var r := Request(t, t);
    RoomIsAdmitted(w, r, perSecond);
    LongerRunHolds(first, rs, r);
    EarlierRequestsStay(first, rs, r, perSecond, |rs|, a, b);
    assert (rs + [r])[|rs|] == r;
  }

  lemma RoomIsAdmitted(w: Window, r: Request, perSecond: nat)
    requires r.readAt == r.restartAt && 0 < perSecond <= U64_SIZE
    requires r.readAt >= w.start + SECOND || w.seen < perSecond
    ensures Admits(w, r, perSecond) && At(w, r) == r.readAt && Next(w, r).seen <= U64_SIZE
  {
  }

  function Group(t: nat, n: nat): seq<Request> {
    if n == 0 then [] else Group(t, n - 1) + [Request(t, t)]
  }

  /** A whole rate's worth of requests at one instant, in a window that has room for it. */
  lemma {:induction false} GroupBursts(first: Window, rs: seq<Request>, perSecond: nat, a: nat, b: nat, w: Window,
                                       last: nat, admitted: nat, t: nat, n: nat)
    requires Bursting(first, rs, perSecond, a, b, w, last, admitted) && 0 < n <= perSecond <= U64_SIZE
    requires last <= t && a <= t < b
    requires t >= w.start + SECOND || (w.seen == 0 && t >= w.start)
    ensures Bursting(first, rs + Group(t, n), perSecond, a, b, Window(if t >= w.start + SECOND then t else w.start, n),
                     t, admitted + n)
  {
    if n == 1 {
      OneMoreRequest(first, rs, perSecond, a, b, w, last, admitted, t);
      assert Group(t, 1) == [Request(t, t)];
    } else {
      GroupBursts(first, rs, perSecond, a, b, w, last, admitted, t, n - 1);
      var front := rs + Group(t, n - 1);
      var current := Window(if t >= w.start + SECOND then t else w.start, n - 1);
      OneMoreRequest(first, front, perSecond, a, b, current, t, admitted + (n - 1), t);
      assert front + [Request(t, t)] == rs + Group(t, n);
    }
  }

  /** One rate's worth at the end of the first window, then one at the start of each of the next. */
  function Bursts(perSecond: nat, seconds: nat): seq<Request> {
    if seconds == 0 then Group(SECOND - 1, perSecond)
    else Bursts(perSecond, seconds - 1) + Group(seconds * SECOND, perSecond)
  }

  lemma {:induction false} BurstsAreAdmitted(perSecond: nat, seconds: nat, all: nat)
    requires seconds <= all && 1 <= all && 0 < perSecond <= U64_SIZE
    ensures var last := if seconds == 0 then SECOND - 1 else seconds * SECOND;
            Bursting(Window(0, 0), Bursts(perSecond, seconds), perSecond, SECOND - 1, SECOND - 1 + all * SECOND,
                     Window(if seconds == 0 then 0 else last, perSecond), last, (seconds + 1) * perSecond)
  {
    hide Bursting;
    var a, b := SECOND - 1, SECOND - 1 + all * SECOND;
    if seconds == 0 {
      NothingYet(perSecond, a, b);
      GroupBursts(Window(0, 0), [], perSecond, a, b, Window(0, 0), 0, 0, SECOND - 1, perSecond);
      assert [] + Group(SECOND - 1, perSecond) == Group(SECOND - 1, perSecond);
    } else {
      BurstsAreAdmitted(perSecond, seconds - 1, all);
      var last := if seconds == 1 then SECOND - 1 else (seconds - 1) * SECOND;
      var w := Window(if seconds == 1 then 0 else last, perSecond);
      Times(seconds, all, SECOND);
      assert seconds * SECOND == (seconds - 1) * SECOND + SECOND;
      GroupBursts(Window(0, 0), Bursts(perSecond, seconds - 1), perSecond, a, b, w, last, seconds * perSecond,
                  seconds * SECOND, perSecond);
      assert (seconds + 1) * perSecond == seconds * perSecond + perSecond;
    }
  }

  lemma NothingYet(perSecond: nat, a: nat, b: nat)
    ensures Bursting(Window(0, 0), [], perSecond, a, b, Window(0, 0), 0, 0)
  {
  }

  /** The bound is tight for every rate and every number of seconds. */
  lemma BoundIsReached(perSecond: nat, seconds: nat)
    requires perSecond <= U64_SIZE && seconds >= 1
    ensures var first, rs := Window(0, 0), Bursts(perSecond, seconds);
            && ClockRises(first, rs) && CounterHolds(first, rs)
            && AdmittedIn(first, rs, perSecond, |rs|, SECOND - 1, SECOND - 1 + seconds * SECOND)
               == (seconds + 1) * perSecond
  {
    if perSecond == 0 {
      NoBursts(seconds);
    } else {
      BurstsAreAdmitted(perSecond, seconds, seconds);
    }
  }

  lemma {:induction false} NoBursts(seconds: nat)
    ensures Bursts(0, seconds) == []
  {
    if seconds == 0 {
    } else {
      NoBursts(seconds - 1);
    }
  }

  // ----- a counter that wraps -------------------------------------------------------------

  /** The admissions among the first `n` calls of a window: the counter starts over every 2^64 calls. */
  function AdmittedOf(n: nat, perSecond: nat): nat {
    if n == 0 then 0 else AdmittedOf(n - 1, perSecond) + if (n - 1) % U64_SIZE < perSecond then 1 else 0
  }

  lemma {:induction false} GroupAdmits(t: nat, n: nat, perSecond: nat)
    ensures |Group(t, n)| == n && WindowAt(Window(t, 0), Group(t, n), n) == Window(t, n)
    ensures AdmittedIn(Window(t, 0), Group(t, n), perSecond, n, t, t + SECOND) == AdmittedOf(n, perSecond)
  {
    if n == 0 {
    } else {
      GroupAdmits(t, n - 1, perSecond);
      EarlierRequestsStay(Window(t, 0), Group(t, n - 1), Request(t, t), perSecond, n - 1, t, t + SECOND);
    }
  }

  lemma {:induction false} BeforeTheWrap(n: nat, perSecond: nat)
    requires n <= U64_SIZE
    ensures AdmittedOf(n, perSecond) == Min(n, perSecond)
  {
    if n == 0 {
    } else {
      BeforeTheWrap(n - 1, perSecond);
      assert (n - 1) % U64_SIZE == n - 1;
    }
  }

  lemma {:induction false} AfterTheWrap(n: nat, perSecond: nat)
    requires n > U64_SIZE && 0 < perSecond <= U64_SIZE
    ensures AdmittedOf(n, perSecond) > perSecond
  {
    if n == U64_SIZE + 1 {
      BeforeTheWrap(U64_SIZE, perSecond);
      assert (n - 1) % U64_SIZE == 0;
    } else {
      AfterTheWrap(n - 1, perSecond);
    }
  }

  /** A window admits more than its rate exactly when it sees more than 2^64 calls, which `CounterHolds`
      excludes. */
  lemma WindowExceedsIff(t: nat, n: nat, perSecond: nat)
    requires 0 < perSecond <= U64_SIZE
    ensures |Group(t, n)| == n
    ensures AdmittedIn(Window(t, 0), Group(t, n), perSecond, n, t, t + 1_000_000_000) > perSecond
       <==> n > 0x1_0000_0000_0000_0000
  {
    GroupAdmits(t, n, perSecond);
    if n <= U64_SIZE {
      BeforeTheWrap(n, perSecond);
    } else {
      AfterTheWrap(n, perSecond);
    }
  }
}
