/** When to capture, from the time since the last input and the time since the last capture. */
module Sampling {
  import opened Arithmetic

  /** Durations in nanoseconds. */
  datatype SamplingPolicy = SamplingPolicy(activeInterval: nat, idleInterval: nat, idleAfter: nat,
                                           deepIdleAfter: nat, forcedCaptureAfter: nat)

  datatype Decision = CaptureNow | Wait(duration: nat) | DeepIdle

  function Interval(p: SamplingPolicy, idle: nat): nat {
    if idle >= p.idleAfter then p.idleInterval else p.activeInterval
  }

  function Decide(p: SamplingPolicy, idle: nat, since: nat): Decision {
    if idle >= p.deepIdleAfter then DeepIdle
    else if since >= p.forcedCaptureAfter then CaptureNow
    else
      var interval := Interval(p, idle);
      if interval >= since && interval - since != 0 then Wait(interval - since) else CaptureNow
  }

  /** No two captures are closer than this. */
  function Spacing(p: SamplingPolicy): nat {
    Min(Min(p.activeInterval, p.idleInterval), p.forcedCaptureAfter)
  }

  /** The exact moment of capture, in one inequality. */
  lemma CapturesIff(p: SamplingPolicy, idle: nat, since: nat)
    ensures Decide(p, idle, since).DeepIdle? <==> idle >= p.deepIdleAfter
    ensures Decide(p, idle, since).CaptureNow? <==>
              && idle < p.deepIdleAfter
              && (since >= p.forcedCaptureAfter
                  || since >= if idle >= p.idleAfter then p.idleInterval else p.activeInterval)
  {
  }

  /** Waiting out the proposed time always ends in a capture. It is the shortest such time exactly when the
      interval in force does not exceed the forced one; otherwise the forced capture comes late. */
  lemma WaitIsLeastIff(p: SamplingPolicy, idle: nat, since: nat)
    requires Decide(p, idle, since).Wait?
    ensures var wait := Decide(p, idle, since).duration;
            && wait > 0
            && Decide(p, idle, since + wait) == CaptureNow
            && ((forall later: nat | since <= later < since + wait :: Decide(p, idle, later) != CaptureNow)
                <==> Interval(p, idle) <= p.forcedCaptureAfter)
  {
    if Interval(p, idle) > p.forcedCaptureAfter {
      assert Decide(p, idle, p.forcedCaptureAfter) == CaptureNow;
    }
  }
}
