/** The two deduplication windows, each against the full history of what it observed. */
module Dedup {
  import opened Wrappers
  import opened Arithmetic

  // ----- semantic window -----------------------------------------------------------

  datatype Observation = Observation(signature: nat, atMs: nat)

  /** The specification: an earlier observation of the signature lies within the window. */
  ghost predicate SeenWithin(history: seq<Observation>, signature: nat, nowMs: nat, windowMs: nat) {
    exists i | 0 <= i < |history| :: history[i].signature == signature && nowMs - history[i].atMs <= windowMs
  }

  ghost predicate Nondecreasing(history: seq<Observation>) {
    forall i, j | 0 <= i < j < |history| :: history[i].atMs <= history[j].atMs
  }

  /** What one call does to the pruned map. */
  function Retained(seen: map<nat, nat>, nowMs: nat, windowMs: nat): map<nat, nat> {
    map s | s in seen && SaturatingSub(nowMs, seen[s]) <= windowMs :: seen[s]
  }

  /** Observation `i` is the last of its signature. */
  ghost predicate IsLast(history: seq<Observation>, i: nat)
    requires i < |history|
  {
    forall j | i < j < |history| :: history[j].signature != history[i].signature
  }

  /** No later call, whatever its signature, found observation `i` out of the window. */
  ghost predicate Survives(history: seq<Observation>, windowMs: nat, i: nat)
    requires i < |history|
  {
    forall k | i < k < |history| :: history[k].atMs - history[i].atMs <= windowMs
  }

  ghost predicate IsKept(history: seq<Observation>, windowMs: nat, i: nat)
    requires i < |history|
  {
    IsLast(history, i) && Survives(history, windowMs, i)
  }

  /** What the window answers, for every clock: the last earlier observation of the signature was never out
      of the window, and is not now. */
  ghost predicate Skips(history: seq<Observation>, signature: nat, nowMs: nat, windowMs: nat) {
    exists i: nat | i < |history| :: SkipsFor(history, signature, nowMs, windowMs, i)
  }

  ghost predicate SkipsFor(history: seq<Observation>, signature: nat, nowMs: nat, windowMs: nat, i: nat)
    requires i < |history|
  {
    history[i].signature == signature && IsKept(history, windowMs, i) && nowMs - history[i].atMs <= windowMs
  }

  /** The map holds exactly the observations that are kept. */
  ghost predicate Mirrors(seen: map<nat, nat>, history: seq<Observation>, windowMs: nat) {
    && (forall s | s in seen :: HoldsKept(history, windowMs, s, seen[s]))
    && (forall i: nat | i < |history| :: KeptIsHeld(seen, history, windowMs, i))
  }

  ghost predicate HoldsKept(history: seq<Observation>, windowMs: nat, s: nat, at: nat) {
    exists i: nat | i < |history| :: history[i] == Observation(s, at) && IsKept(history, windowMs, i)
  }

  ghost predicate KeptIsHeld(seen: map<nat, nat>, history: seq<Observation>, windowMs: nat, i: nat)
    requires i < |history|
  {
    IsKept(history, windowMs, i) ==>
      history[i].signature in seen && seen[history[i].signature] == history[i].atMs
  }

  /** For every clock, the pruned map answers as the history says. */
  lemma WindowAnswersAsHistory(seen: map<nat, nat>, history: seq<Observation>, s: nat, nowMs: nat, windowMs: nat)
    requires Mirrors(seen, history, windowMs)
    ensures s in Retained(seen, nowMs, windowMs) <==> Skips(history, s, nowMs, windowMs)
  {
    hide IsKept;
    if s in Retained(seen, nowMs, windowMs) {
      assert HoldsKept(history, windowMs, s, seen[s]);
      var i: nat :| i < |history| && history[i] == Observation(s, seen[s]) && IsKept(history, windowMs, i);
      assert SkipsFor(history, s, nowMs, windowMs, i);
    }
    if Skips(history, s, nowMs, windowMs) {
      var i: nat :| i < |history| && SkipsFor(history, s, nowMs, windowMs, i);
      assert KeptIsHeld(seen, history, windowMs, i);
    }
  }

  /** One more observation: the new one is kept, and of the others those of another signature that are
      within the window now. */
  lemma KeptAfter(history: seq<Observation>, now: Observation, windowMs: nat, i: nat)
    requires i <= |history|
    ensures IsKept(history + [now], windowMs, i) <==>
              i == |history|
              || (IsKept(history, windowMs, i) && history[i].signature != now.signature
                  && now.atMs - history[i].atMs <= windowMs)
  {
    var longer := history + [now];
    assert forall j | 0 <= j < |history| :: longer[j] == history[j];
    assert longer[|history|] == now;
  }

  lemma WindowStaysAMirror(seen: map<nat, nat>, history: seq<Observation>, now: Observation, windowMs: nat)
    requires Mirrors(seen, history, windowMs)
    ensures Mirrors(Retained(seen, now.atMs, windowMs)[now.signature := now.atMs], history + [now], windowMs)
  {
    hide IsKept;
    var longer, next := history + [now], Retained(seen, now.atMs, windowMs)[now.signature := now.atMs];
    forall s | s in next ensures HoldsKept(longer, windowMs, s, next[s]) {
      if s == now.signature {
        KeptAfter(history, now, windowMs, |history|);
        assert longer[|history|] == Observation(s, next[s]);
      } else {
        assert HoldsKept(history, windowMs, s, seen[s]);
        var i: nat :| i < |history| && history[i] == Observation(s, seen[s]) && IsKept(history, windowMs, i);
        KeptAfter(history, now, windowMs, i);
        assert longer[i] == history[i];
      }
    }
    forall i: nat | i < |longer| ensures KeptIsHeld(next, longer, windowMs, i) {
      KeptAfter(history, now, windowMs, i);
      assert i < |history| ==> longer[i] == history[i] && KeptIsHeld(seen, history, windowMs, i);
    }
  }

  /** Every skip is justified: an observation within the window, for every clock. */
  lemma SkipsAreSeen(history: seq<Observation>, s: nat, nowMs: nat, windowMs: nat)
    ensures Skips(history, s, nowMs, windowMs) ==> SeenWithin(history, s, nowMs, windowMs)
  {
  }

  lemma {:induction false} LastOfSignature(history: seq<Observation>, i: nat) returns (last: nat)
    requires i < |history|
    ensures i <= last < |history| && history[last].signature == history[i].signature && IsLast(history, last)
    decreases |history| - i
  {
    if IsLast(history, i) {
      last := i;
    } else {
      var j :| i < j < |history| && history[j].signature == history[i].signature;
      last := LastOfSignature(history, j);
    }
  }

  /** With a clock that does not run backwards the window skips exactly what was seen within it. */
  lemma RisingClockSkipsIffSeen(history: seq<Observation>, s: nat, nowMs: nat, windowMs: nat)
    requires Nondecreasing(history + [Observation(s, nowMs)])
    ensures Skips(history, s, nowMs, windowMs) <==> SeenWithin(history, s, nowMs, windowMs)
  {
    SkipsAreSeen(history, s, nowMs, windowMs);
    var longer := history + [Observation(s, nowMs)];
    assert forall i | 0 <= i < |history| :: longer[i] == history[i];
    if SeenWithin(history, s, nowMs, windowMs) {
      var i :| 0 <= i < |history| && history[i].signature == s && nowMs - history[i].atMs <= windowMs;
      var last := LastOfSignature(history, i);
      assert longer[i].atMs <= longer[last].atMs;
      assert forall k | last < k < |history| :: longer[k].atMs <= longer[|history|].atMs;
      assert SkipsFor(history, s, nowMs, windowMs, last);
    }
  }

  /** With one that does, it forgets: an observation of another content from more than a window ahead
      drops what the clock, stepped back, still has within the window. */
  lemma BackwardClockForgets(windowMs: nat)
    requires windowMs > 0
    ensures var history := [Observation(1, 0), Observation(2, windowMs + 1)];
            SeenWithin(history, 1, windowMs, windowMs) && !Skips(history, 1, windowMs, windowMs)
  {
    var history := [Observation(1, 0), Observation(2, windowMs + 1)];
    assert history[0].signature == 1 && windowMs - history[0].atMs <= windowMs;
    forall i: nat | i < |history| ensures !SkipsFor(history, 1, windowMs, windowMs, i) {
      assert history[1].atMs - history[0].atMs > windowMs;
    }
  }

  class SemanticDedupWindow {
    var seenAtMs: map<nat, nat>
    ghost var history: seq<Observation>

    constructor ()
      ensures history == [] && seenAtMs == map[]
    {
      seenAtMs, history := map[], [];
    }

    ghost predicate Valid(windowMs: nat)
      reads this
    {
      Mirrors(seenAtMs, history, windowMs)
    }

    method ShouldSkip(signature: nat, nowMs: nat, windowMs: nat) returns (skip: bool)
      requires Valid(windowMs)
      modifies this
      ensures Valid(windowMs) && history == old(history) + [Observation(signature, nowMs)]
      ensures seenAtMs == Retained(old(seenAtMs), nowMs, windowMs)[signature := nowMs]
      ensures skip <==> Skips(old(history), signature, nowMs, windowMs)
      ensures Nondecreasing(history) ==> (skip <==> SeenWithin(old(history), signature, nowMs, windowMs))
    {
      hide Mirrors, SeenWithin, Skips, Nondecreasing;
      WindowAnswersAsHistory(seenAtMs, history, signature, nowMs, windowMs);
      WindowStaysAMirror(seenAtMs, history, Observation(signature, nowMs), windowMs);
      if Nondecreasing(history + [Observation(signature, nowMs)]) {
        RisingClockSkipsIffSeen(history, signature, nowMs, windowMs);
      }
      seenAtMs := Retained(seenAtMs, nowMs, windowMs);
      history := history + [Observation(signature, nowMs)];
      if signature in seenAtMs && SaturatingSub(nowMs, seenAtMs[signature]) <= windowMs {
        seenAtMs := seenAtMs[signature := nowMs];
        return true;
      }
      seenAtMs := seenAtMs[signature := nowMs];
      return false;
    }
  }

  // ----- perceptual window -----------------------------------------------------------

  const HASH_HISTORY: nat := 3
  const MAX_RGB_DISTANCE: nat := 24
  const LOOP_MAX_RGB_DISTANCE: nat := 20

  /** A difference hash as bits, and the average colour. */
  datatype Signature = Signature(hash: seq<bool>, rgb: (nat, nat, nat))

  function Hamming(a: seq<bool>, b: seq<bool>): nat {
    if a == [] || b == [] then 0 else (if a[0] != b[0] then 1 else 0) + Hamming(a[1..], b[1..])
  }

  function AbsDiff(a: nat, b: nat): nat {
    if a < b then b - a else a - b
  }

  function RgbDistance(a: (nat, nat, nat), b: (nat, nat, nat)): nat {
    AbsDiff(a.0, b.0) + AbsDiff(a.1, b.1) + AbsDiff(a.2, b.2)
  }

  predicate Near(a: Signature, b: Signature, hashBelow: nat, rgbAtMost: nat) {
    Hamming(a.hash, b.hash) < hashBelow && RgbDistance(a.rgb, b.rgb) <= rgbAtMost
  }

  function LoopThreshold(threshold: nat): nat {
    if threshold <= 2 then 1 else threshold - 1
  }

  /** The last `n` observations. */
  function Suffix<T>(history: seq<T>, n: nat): seq<T> {
    if |history| <= n then history else history[|history| - n..]
  }

  lemma SuffixSlides<T>(history: seq<T>, x: T, n: nat)
    requires n > 0
    ensures var longer := Suffix(history, n) + [x];
            Suffix(history + [x], n) == if |longer| > n then longer[1..] else longer
  {
  }

  /** Redundant against a stretch of history: close to its end, or a little closer to anything in it. */
  predicate Redundant(stretch: seq<Signature>, s: Signature, threshold: nat) {
    || (stretch != [] && Near(s, stretch[|stretch| - 1], threshold, MAX_RGB_DISTANCE))
    || NearAny(stretch, s, LoopThreshold(threshold))
  }

  predicate NearAny(stretch: seq<Signature>, s: Signature, hashBelow: nat) {
    exists p | p in stretch :: Near(s, p, hashBelow, LOOP_MAX_RGB_DISTANCE)
  }

  function LastThree(history: seq<Signature>): seq<Signature> {
    if |history| > 3 then history[|history| - 3..] else history
  }

  lemma SuffixIsLastThree(history: seq<Signature>)
    ensures Suffix(history, HASH_HISTORY) == LastThree(history)
  {
  }

  class PerceptualDeduper {
    const threshold: nat
    var last: Option<Signature>
    var recent: seq<Signature>
    ghost var history: seq<Signature>

    constructor (threshold: nat)
      ensures Valid() && history == [] && this.threshold == threshold
    {
      this.threshold := threshold;
      last, recent, history := None, [], [];
    }

    /** `last` and `recent` are the end of everything observed, skipped or not. */
    ghost predicate Valid()
      reads this
    {
      recent == Suffix(history, HASH_HISTORY) && last == Last(history)
    }

    /** The answer depends on the last three observations only. */
    method ShouldSkip(signature: Signature) returns (duplicate: bool)
      requires Valid()
      modifies this
      ensures Valid() && history == old(history) + [signature]
      ensures duplicate <==> Redundant(Suffix(old(history), HASH_HISTORY), signature, threshold)
      ensures duplicate <==> Redundant(LastThree(old(history)), signature, threshold)
    {
      hide Near, NearAny, Redundant, Suffix, Last, LastThree;
      SuffixIsLastThree(history);
      SuffixSlides(history, signature, HASH_HISTORY);
      LastOfSuffix(history, signature, HASH_HISTORY);
      RedundantByEnd(recent, signature, threshold);
      duplicate := last.Some? && Near(signature, last.value, threshold, MAX_RGB_DISTANCE);
      if !duplicate {
        duplicate := NearAny(recent, signature, LoopThreshold(threshold));
      }
      history := history + [signature];
      last := Some(signature);
      recent := recent + [signature];
      if |recent| > HASH_HISTORY {
        recent := recent[1..];
      }
    }
  }

  function Last<T>(history: seq<T>): Option<T> {
    if history == [] then None else Some(history[|history| - 1])
  }

  lemma LastOfSuffix<T>(history: seq<T>, x: T, n: nat)
    requires n > 0
    ensures Last(Suffix(history, n)) == Last(history) && Last(history + [x]) == Some(x)
  {
  }

  lemma RedundantByEnd(stretch: seq<Signature>, s: Signature, threshold: nat)
    ensures Redundant(stretch, s, threshold) <==>
              || (Last(stretch).Some? && Near(s, Last(stretch).value, threshold, MAX_RGB_DISTANCE))
              || NearAny(stretch, s, LoopThreshold(threshold))
  {
  }

  lemma HammingAt(a: seq<bool>, b: seq<bool>, k: nat)
    requires k <= |a| && k <= |b|
    ensures Hamming(a[k..], b[k..]) == if k == |a| || k == |b| then 0
                                       else (if a[k] != b[k] then 1 else 0) + Hamming(a[k + 1..], b[k + 1..])
  {
    if k < |a| && k < |b| {
      assert a[k..][1..] == a[k + 1..] && b[k..][1..] == b[k + 1..];
    }
  }

  lemma {:induction false} HammingFrom(a: seq<bool>, b: seq<bool>, k: nat)
    requires k <= |a| && k <= |b|
    ensures Hamming(a[k..], b[k..]) == |set i | k <= i < |a| && i < |b| && a[i] != b[i]|
    decreases |a| - k
  {
    hide Hamming;
    var differing := set i | k <= i < |a| && i < |b| && a[i] != b[i];
    HammingAt(a, b, k);
    if k == |a| || k == |b| {
      assert differing == {};
    } else {
      HammingFrom(a, b, k + 1);
      var later := set i | k + 1 <= i < |a| && i < |b| && a[i] != b[i];
      assert differing == later + if a[k] != b[k] then {k} else {};
    }
  }

  /** The difference of two hashes is the number of places where they differ, as far as both go. */
  lemma HammingIs(a: seq<bool>, b: seq<bool>)
    ensures Hamming(a, b) == |set i | 0 <= i < |a| && i < |b| && a[i] != b[i]|
  {
    HammingFrom(a, b, 0);
    assert a[0..] == a && b[0..] == b;
  }

  /** Within `threshold` bits and 24 of colour of the last frame, or within one bit less, but never less than
      one, and 20 of colour of any of the stretch. */
  lemma RedundantIff(stretch: seq<Signature>, s: Signature, threshold: nat)
    ensures Redundant(stretch, s, threshold) <==>
              || (stretch != [] && Hamming(s.hash, stretch[|stretch| - 1].hash) < threshold
                  && ColourGap(s.rgb, stretch[|stretch| - 1].rgb) <= 24)
              || exists p | p in stretch :: Hamming(s.hash, p.hash) < (if threshold > 2 then threshold - 1 else 1)
                                            && ColourGap(s.rgb, p.rgb) <= 20
  {
    hide Hamming;
  }

  /** The distances of the three colours, added up. */
  function ColourGap(a: (nat, nat, nat), b: (nat, nat, nat)): int {
    (if a.0 >= b.0 then a.0 - b.0 else b.0 - a.0) + (if a.1 >= b.1 then a.1 - b.1 else b.1 - a.1)
    + (if a.2 >= b.2 then a.2 - b.2 else b.2 - a.2)
  }

  lemma {:induction false} HammingSelf(a: seq<bool>)
    ensures Hamming(a, a) == 0
  {
    if a == [] {
    } else {
      HammingSelf(a[1..]);
    }
  }

  /** A frame identical to one of the last three is always redundant, so an A-B-A loop is caught. */
  lemma RepeatIsRedundant(history: seq<Signature>, s: Signature, threshold: nat)
    requires s in Suffix(history, HASH_HISTORY)
    ensures Redundant(Suffix(history, HASH_HISTORY), s, threshold)
  {
    HammingSelf(s.hash);
    assert Near(s, s, LoopThreshold(threshold), LOOP_MAX_RGB_DISTANCE);
  }

  /** From a threshold of 1 on, the loop test asks more of a frame than the test against the last one,
      so on a one-frame history it adds nothing; at threshold 0 it is the only test that can fire. */
  lemma LoopTestIsStricterIff(threshold: nat)
    ensures threshold >= 1 <==>
              forall s, p: Signature :: Near(s, p, LoopThreshold(threshold), LOOP_MAX_RGB_DISTANCE)
                                        ==> Near(s, p, threshold, MAX_RGB_DISTANCE)
  {
    if threshold == 0 {
      var s := Signature([], (0, 0, 0));
      assert Near(s, s, LoopThreshold(0), LOOP_MAX_RGB_DISTANCE) && !Near(s, s, 0, MAX_RGB_DISTANCE);
    }
  }
}
