/** One capture opportunity at a time: metadata, privacy gate, admission, frame, both dedup windows, sink. */
module Pipeline {
  import opened Wrappers
  import opened Dedup

  datatype CaptureContext = CaptureContext(appName: string, windowTitle: string, url: Option<string>, observedAtMs: nat)

  datatype Gate = Allow | Deny(reason: SkipReason)

  datatype Surface = SkipFrame | UrlOnly | Normal

  datatype Frame = Frame(signature: Option<Signature>, capturedAtMs: nat)

  datatype Grab = Grabbed(frame: Frame) | PermissionOrTool | GrabFailed

  datatype Recognition = Recognized(text: string, lowSignal: bool) | NotRecognized

  datatype SinkReply = Accepted | Withheld | Broken

  /** What the world answers during one tick. A stage that is not reached leaves its answer unused. */
  datatype Tick = Tick(context: Option<CaptureContext>, gate: Gate, grab: Grab, recognition: Recognition,
                       reply: SinkReply)

  datatype SkipReason =
    | MetadataUnavailable | PreCapturePrivacy | PrivateBrowsing | AdmissionPolicy | PerceptualDuplicate
    | MissingPerceptualSignature | LowSignal | SemanticDuplicate | FinalPrivacy
    | ScreenRecordingOrCaptureUnavailable | CaptureFailed | OcrFailed | PersistenceFailed

  datatype Outcome = Stored | UrlOnlyStored | Skipped(reason: SkipReason) | Failed(reason: SkipReason)

  datatype SinkCall = PersistCapture(context: CaptureContext, frame: Frame, text: string)
                    | PersistUrlOnly(context: CaptureContext)

  /** The admission table and the content hash are foreign to the ordering of the stages. */
  datatype Settings = Settings(classify: CaptureContext -> Surface, hash: (string, string, string) -> nat,
                               windowMs: nat)

  const PERCEPTUAL_THRESHOLD: nat := 5

  // ----- what a run means, over full histories ----------------------------------------

  predicate Admitted(x: Tick) {
    x.context.Some? && x.gate.Allow?
  }

  predicate SeesFrame(s: Settings, x: Tick) {
    && Admitted(x) && s.classify(x.context.value).Normal?
    && x.grab.Grabbed? && x.grab.frame.signature.Some?
  }

  predicate FreshFrame(s: Settings, perceived: seq<Signature>, x: Tick) {
    && SeesFrame(s, x)
    && !Redundant(Suffix(perceived, HASH_HISTORY), x.grab.frame.signature.value, PERCEPTUAL_THRESHOLD)
  }

  function UrlOf(c: CaptureContext): string {
    if c.url.Some? then c.url.value else ""
  }

  /** What a tick gives to the semantic window, if it gets that far. */
  function ContentAfter(s: Settings, perceived: seq<Signature>, x: Tick): Option<Observation> {
    if !Admitted(x) then None
    else
      var c := x.context.value;
      match s.classify(c)
      case SkipFrame => None
      case UrlOnly => Some(Observation(s.hash(c.appName, c.windowTitle, UrlOf(c)), c.observedAtMs))
      case Normal =>
        if FreshFrame(s, perceived, x) && x.recognition.Recognized? && !x.recognition.lowSignal then
          Some(Observation(s.hash(c.appName, c.windowTitle, x.recognition.text), x.grab.frame.capturedAtMs))
        else None
  }

  /** The semantic window lets the observation pass. */
  ghost predicate Unseen(s: Settings, observed: seq<Observation>, o: Observation) {
    !Skips(observed, o.signature, o.atMs, s.windowMs)
  }

  /** The sink call a tick makes if it passes every stage. */
  function CallOf(s: Settings, x: Tick): SinkCall
    requires x.context.Some?
    requires s.classify(x.context.value).Normal? ==> x.grab.Grabbed? && x.recognition.Recognized?
  {
    if s.classify(x.context.value).Normal? then
      PersistCapture(x.context.value, x.grab.frame, x.recognition.text)
    else PersistUrlOnly(x.context.value)
  }

  function Delivery(reply: SinkReply, stored: Outcome): Outcome {
    match reply
    case Accepted => stored
    case Withheld => Skipped(FinalPrivacy)
    case Broken => Failed(PersistenceFailed)
  }

  /** The outcome of a tick, given the full histories of both windows. */
  ghost function Verdict(s: Settings, perceived: seq<Signature>, observed: seq<Observation>, x: Tick): Outcome {
    if x.context.None? then Failed(MetadataUnavailable)
    else if x.gate.Deny? then Skipped(x.gate.reason)
    else
      var content := ContentAfter(s, perceived, x);
      if content.Some? then
        if !Unseen(s, observed, content.value) then Skipped(SemanticDuplicate)
        else Delivery(x.reply, if s.classify(x.context.value).Normal? then Stored else UrlOnlyStored)
      else if s.classify(x.context.value).SkipFrame? then Skipped(AdmissionPolicy)
      else if x.grab.PermissionOrTool? then Failed(ScreenRecordingOrCaptureUnavailable)
      else if x.grab.GrabFailed? then Failed(CaptureFailed)
      else if x.grab.frame.signature.None? then Skipped(MissingPerceptualSignature)
      else if !FreshFrame(s, perceived, x) then Skipped(PerceptualDuplicate)
      else if x.recognition.NotRecognized? then Failed(OcrFailed)
      else Skipped(LowSignal)
  }

  /** The signatures given to the perceptual window before tick `n`. */
  function Perceived(s: Settings, xs: seq<Tick>, n: nat): seq<Signature>
    requires n <= |xs|
  {
    if n == 0 then []
    else Perceived(s, xs, n - 1) + PerceivedIn(s, xs[n - 1])
  }

  function PerceivedIn(s: Settings, x: Tick): seq<Signature> {
    if SeesFrame(s, x) then [x.grab.frame.signature.value] else []
  }

  function Content(s: Settings, xs: seq<Tick>, n: nat): Option<Observation>
    requires n < |xs|
  {
    ContentAfter(s, Perceived(s, xs, n), xs[n])
  }

  /** The observations given to the semantic window before tick `n`. */
  function Observed(s: Settings, xs: seq<Tick>, n: nat): seq<Observation>
    requires n <= |xs|
  {
    if n == 0 then [] else Observed(s, xs, n - 1) + ObservedIn(Content(s, xs, n - 1))
  }

  function ObservedIn(content: Option<Observation>): seq<Observation> {
    if content.Some? then [content.value] else []
  }

  /** Tick `n` passes every stage. */
  ghost predicate Offered(s: Settings, xs: seq<Tick>, n: nat)
    requires n < |xs|
  {
    Content(s, xs, n).Some? && Unseen(s, Observed(s, xs, n), Content(s, xs, n).value)
  }

  /** The calls the sink receives before tick `n`. */
  ghost function Calls(s: Settings, xs: seq<Tick>, n: nat): seq<SinkCall>
    requires n <= |xs|
  {
    if n == 0 then []
    else Calls(s, xs, n - 1) + (if Offered(s, xs, n - 1) then [CallOf(s, xs[n - 1])] else [])
  }

  /** The outcome of tick `n` of a run, as a function of the run's inputs. */
  ghost function Terminal(s: Settings, xs: seq<Tick>, n: nat): Outcome
    requires n < |xs|
  {
    Verdict(s, Perceived(s, xs, n), Observed(s, xs, n), xs[n])
  }

  ghost predicate ClockRises(s: Settings, xs: seq<Tick>) {
    Nondecreasing(Observed(s, xs, |xs|))
  }

  // ----- a run only looks back --------------------------------------------------------

  lemma {:induction false} LaterTicksChangeNothing(s: Settings, xs: seq<Tick>, x: Tick, n: nat)
    requires n <= |xs|
    ensures Perceived(s, xs + [x], n) == Perceived(s, xs, n)
    ensures Observed(s, xs + [x], n) == Observed(s, xs, n)
    ensures Calls(s, xs + [x], n) == Calls(s, xs, n)
    ensures n < |xs| ==> Terminal(s, xs + [x], n) == Terminal(s, xs, n)
    ensures n < |xs| ==> Content(s, xs + [x], n) == Content(s, xs, n)
  {
    hide Redundant, Suffix, Skips;
    if n == 0 {
    } else {
      LaterTicksChangeNothing(s, xs, x, n - 1);
    }
    assert n < |xs| ==> (xs + [x])[n] == xs[n];
  }

  lemma OneMoreTick(s: Settings, xs: seq<Tick>, x: Tick)
    ensures var longer, n := xs + [x], |xs|;
            && Perceived(s, longer, n + 1) == Perceived(s, xs, n) + PerceivedIn(s, x)
            && Content(s, longer, n) == ContentAfter(s, Perceived(s, xs, n), x)
            && Observed(s, longer, n + 1) == Observed(s, xs, n) + ObservedIn(Content(s, longer, n))
            && Calls(s, longer, n + 1) == Calls(s, xs, n) + (if Offered(s, longer, n) then [CallOf(s, x)] else [])
            && Observed(s, longer, n) == Observed(s, xs, n) && Perceived(s, longer, n) == Perceived(s, xs, n)
            && Terminal(s, longer, n) == Verdict(s, Perceived(s, xs, n), Observed(s, xs, n), x)
  {
    hide ContentAfter, Verdict, PerceivedIn, Unseen;
    LaterTicksChangeNothing(s, xs, x, |xs|);
    assert (xs + [x])[|xs|] == x;
  }

  lemma {:induction false} ObservedGrows(s: Settings, xs: seq<Tick>, m: nat, n: nat)
    requires m <= n <= |xs|
    ensures Observed(s, xs, m) <= Observed(s, xs, n)
  {
    if m < n {
      ObservedGrows(s, xs, m, n - 1);
    }
  }

  lemma PrefixIsNondecreasing(a: seq<Observation>, b: seq<Observation>)
    requires a <= b && Nondecreasing(b)
    ensures Nondecreasing(a)
  {
    assert forall i | 0 <= i < |a| :: a[i] == b[i];
  }

  /** Calls and outcomes are what the run's inputs say. */
  ghost predicate MatchesRun(s: Settings, xs: seq<Tick>, calls: seq<SinkCall>, outcomes: seq<Outcome>) {
    && |outcomes| == |xs| && calls == Calls(s, xs, |xs|)
    && forall n | 0 <= n < |xs| :: outcomes[n] == Terminal(s, xs, n)
  }

  lemma RunExtends(s: Settings, xs: seq<Tick>, x: Tick, calls: seq<SinkCall>, outcomes: seq<Outcome>,
                   callsAfter: seq<SinkCall>, outcome: Outcome)
    requires MatchesRun(s, xs, calls, outcomes) && outcome == Terminal(s, xs + [x], |xs|)
    requires callsAfter == calls + if Offered(s, xs + [x], |xs|) then [CallOf(s, x)] else []
    ensures MatchesRun(s, xs + [x], callsAfter, outcomes + [outcome])
  {
    hide Terminal, Offered, CallOf;
    var longer := xs + [x];
    LaterTicksChangeNothing(s, xs, x, |xs|);
    forall n | 0 <= n < |xs| ensures Terminal(s, longer, n) == Terminal(s, xs, n) {
      LaterTicksChangeNothing(s, xs, x, n);
    }
  }

  // ----- what the window lets pass -----------------------------------------------------

  ghost predicate SameContent(s: Settings, xs: seq<Tick>, i: nat, j: nat)
    requires i < |xs| && j < |xs|
  {
    var a, b := Content(s, xs, i), Content(s, xs, j);
    a.Some? && b.Some? && a.value.signature == b.value.signature
  }

  /** How much later tick `j` observed something than tick `i` did. */
  function Gap(s: Settings, xs: seq<Tick>, i: nat, j: nat): int
    requires i < |xs| && j < |xs| && Content(s, xs, i).Some? && Content(s, xs, j).Some?
  {
    Content(s, xs, j).value.atMs - Content(s, xs, i).value.atMs
  }

  /** Tick `k` observed something, whatever it was, more than a window after tick `i` did. */
  ghost predicate Outruns(s: Settings, xs: seq<Tick>, i: nat, k: nat)
    requires i < |xs| && k < |xs| && Content(s, xs, i).Some?
  {
    Content(s, xs, k).Some? && Gap(s, xs, i, k) > s.windowMs
  }

  /** The place of a tick's observation in every later history. */
  lemma ObservationStays(s: Settings, xs: seq<Tick>, i: nat, j: nat)
    requires i < j <= |xs| && Content(s, xs, i).Some?
    ensures |Observed(s, xs, i)| < |Observed(s, xs, j)|
    ensures Observed(s, xs, j)[|Observed(s, xs, i)|] == Content(s, xs, i).value
  {
    hide Content;
    ObservedGrows(s, xs, i + 1, j);
    assert Observed(s, xs, i + 1)[|Observed(s, xs, i)|] == Content(s, xs, i).value;
  }

  /** Every entry of the history comes from a tick. */
  lemma {:induction false} ObservedAt(s: Settings, xs: seq<Tick>, n: nat, m: nat) returns (k: nat)
    requires n <= |xs| && m < |Observed(s, xs, n)|
    ensures k < n && Content(s, xs, k) == Some(Observed(s, xs, n)[m]) && |Observed(s, xs, k)| == m
  {
    hide Content;
    if m < |Observed(s, xs, n - 1)| {
      k := ObservedAt(s, xs, n - 1, m);
    } else {
      k := n - 1;
    }
  }

  lemma LaterEntryIsLaterTick(s: Settings, xs: seq<Tick>, i: nat, j: nat, m: nat) returns (k: nat)
    requires i < j <= |xs| && |Observed(s, xs, i)| < m < |Observed(s, xs, j)|
    ensures i < k < j && Content(s, xs, k) == Some(Observed(s, xs, j)[m])
  {
    hide Content, Observed;
    k := ObservedAt(s, xs, j, m);
    if k <= i {
      ObservedGrows(s, xs, k, i);
    }
  }

  /** The last observation of a content decides: it survives in the window exactly when no tick since
      outran it. */
  lemma LastObservationDecides(s: Settings, xs: seq<Tick>, i: nat, j: nat)
    requires i < j < |xs| && SameContent(s, xs, i, j) && forall k | i < k < j :: !SameContent(s, xs, k, j)
    ensures var history, m := Observed(s, xs, j), |Observed(s, xs, i)|;
            && m < |history| && history[m] == Content(s, xs, i).value && IsLast(history, m)
            && (Survives(history, s.windowMs, m) <==> forall k | i < k < j :: !Outruns(s, xs, i, k))
  {
    hide Content, Observed;
    var history, m := Observed(s, xs, j), |Observed(s, xs, i)|;
    ObservationStays(s, xs, i, j);
    forall p | m < p < |history| ensures history[p].signature != history[m].signature {
      var k := LaterEntryIsLaterTick(s, xs, i, j, p);
      assert !SameContent(s, xs, k, j);
    }
    if forall k | i < k < j :: !Outruns(s, xs, i, k) {
      forall p | m < p < |history| ensures history[p].atMs - history[m].atMs <= s.windowMs {
        var k := LaterEntryIsLaterTick(s, xs, i, j, p);
        assert !Outruns(s, xs, i, k);
      }
    }
    forall k | i < k < j && Outruns(s, xs, i, k) ensures !Survives(history, s.windowMs, m) {
      ObservationStays(s, xs, k, j);
      ObservedGrows(s, xs, i + 1, k);
      ObservationStays(s, xs, i, i + 1);
      assert history[|Observed(s, xs, k)|].atMs - history[m].atMs > s.windowMs;
    }
  }

  lemma OnlyLastCanSkip(history: seq<Observation>, o: Observation, windowMs: nat, m: nat)
    requires m < |history| && history[m].signature == o.signature && IsLast(history, m)
    ensures Skips(history, o.signature, o.atMs, windowMs) <==>
              Survives(history, windowMs, m) && o.atMs - history[m].atMs <= windowMs
  {
    forall i: nat | i < |history| && SkipsFor(history, o.signature, o.atMs, windowMs, i) ensures i == m {
    }
    if Survives(history, windowMs, m) && o.atMs - history[m].atMs <= windowMs {
      assert SkipsFor(history, o.signature, o.atMs, windowMs, m);
    }
  }

  /** For every clock, and whatever became of the earlier observation, a failed write included: the next
      observation of a content is offered to the sink exactly when it, or any tick in between, comes more
      than a window after the earlier one. Otherwise it is a duplicate, so a write that failed is not
      retried. */
  lemma NextObservationIsOfferedIff(s: Settings, xs: seq<Tick>, i: nat, j: nat)
    requires i < j < |xs| && SameContent(s, xs, i, j) && forall k | i < k < j :: !SameContent(s, xs, k, j)
    ensures Offered(s, xs, j) <==> Gap(s, xs, i, j) > s.windowMs || exists k | i < k < j :: Outruns(s, xs, i, k)
    ensures Terminal(s, xs, j) == Skipped(SemanticDuplicate) <==> !Offered(s, xs, j)
  {
    hide Content, Observed, Skips, Survives, IsLast, Terminal;
    LastObservationDecides(s, xs, i, j);
    OnlyLastCanSkip(Observed(s, xs, j), Content(s, xs, j).value, s.windowMs, |Observed(s, xs, i)|);
    EndsAsDuplicateIff(s, xs, j);
  }

  lemma EndsAsDuplicateIff(s: Settings, xs: seq<Tick>, n: nat)
    requires n < |xs| && Content(s, xs, n).Some?
    ensures Terminal(s, xs, n) == Skipped(SemanticDuplicate) <==> !Offered(s, xs, n)
  {
    hide Observed, Perceived, FreshFrame, Unseen;
  }

  /** The first observation of a content is always offered. */
  lemma FirstObservationIsOffered(s: Settings, xs: seq<Tick>, j: nat)
    requires j < |xs| && Content(s, xs, j).Some? && forall k | 0 <= k < j :: !SameContent(s, xs, k, j)
    ensures Offered(s, xs, j)
  {
    hide Content, Observed;
    var history := Observed(s, xs, j);
    forall m: nat | m < |history| ensures history[m].signature != Content(s, xs, j).value.signature {
      var k := ObservedAt(s, xs, j, m);
      assert !SameContent(s, xs, k, j);
    }
  }

  /** The text of a tick, or its URL, hashes to this signature. */
  predicate UsesSignature(s: Settings, x: Tick, signature: nat) {
    && x.context.Some?
    && var c := x.context.value;
       || s.hash(c.appName, c.windowTitle, UrlOf(c)) == signature
       || (x.recognition.Recognized? && s.hash(c.appName, c.windowTitle, x.recognition.text) == signature)
  }

  /** New text in a fresh frame reaches the sink: where the hash tells it from the texts and URLs of all earlier
      ticks, an admitted tick with a recognized text calls the sink with it. */
  lemma NewTextIsOffered(s: Settings, xs: seq<Tick>, n: nat, c: CaptureContext, frame: Frame, text: string)
    requires n < |xs| && xs[n].context == Some(c) && xs[n].gate.Allow? && s.classify(c).Normal?
    requires xs[n].grab == Grabbed(frame) && frame.signature.Some?
    requires !Redundant(Suffix(Perceived(s, xs, n), 3), frame.signature.value, 5)
    requires xs[n].recognition == Recognized(text, false)
    requires forall k | 0 <= k < n :: !UsesSignature(s, xs[k], s.hash(c.appName, c.windowTitle, text))
    ensures Offered(s, xs, n) && CallOf(s, xs[n]) == PersistCapture(c, frame, text)
    ensures Content(s, xs, n) == Some(Observation(s.hash(c.appName, c.windowTitle, text), frame.capturedAtMs))
  {
    hide Redundant, Suffix, Perceived, Observed;
    forall k | 0 <= k < n ensures !SameContent(s, xs, k, n) {
    }
    FirstObservationIsOffered(s, xs, n);
  }

  /** So does a page of which only the URL is kept. */
  lemma NewUrlIsOffered(s: Settings, xs: seq<Tick>, n: nat, c: CaptureContext)
    requires n < |xs| && xs[n].context == Some(c) && xs[n].gate.Allow? && s.classify(c).UrlOnly?
    requires var url := if c.url.Some? then c.url.value else "";
             forall k | 0 <= k < n :: !UsesSignature(s, xs[k], s.hash(c.appName, c.windowTitle, url))
    ensures Offered(s, xs, n) && CallOf(s, xs[n]) == PersistUrlOnly(c)
    ensures var url := if c.url.Some? then c.url.value else "";
            Content(s, xs, n) == Some(Observation(s.hash(c.appName, c.windowTitle, url), c.observedAtMs))
  {
    hide Redundant, Suffix, Perceived, Observed;
    forall k | 0 <= k < n ensures !SameContent(s, xs, k, n) {
    }
    FirstObservationIsOffered(s, xs, n);
  }

  // ----- what a tick answers -----------------------------------------------------------

  /** The sink was not called, for a duplicate; or it was, and the outcome is its reply. */
  predicate AnswersFor(call: SinkCall, reply: SinkReply, stored: Outcome, outcome: Outcome, called: seq<SinkCall>) {
    if called == [] then outcome == Skipped(SemanticDuplicate)
    else
      && called == [call]
      && match reply
         case Accepted => outcome == stored
         case Withheld => outcome == Skipped(FinalPrivacy)
         case Broken => outcome == Failed(PersistenceFailed)
  }

  /** The stages in their order: the first that stops the tick names the outcome. */
  predicate AnswersAs(s: Settings, perceived: seq<Signature>, x: Tick, outcome: Outcome, called: seq<SinkCall>) {
    match x.context
    case None => outcome == Failed(MetadataUnavailable) && called == []
    case Some(c) =>
      if x.gate.Deny? then outcome == Skipped(x.gate.reason) && called == []
      else
        match s.classify(c)
        case SkipFrame => outcome == Skipped(AdmissionPolicy) && called == []
        case UrlOnly => AnswersFor(PersistUrlOnly(c), x.reply, UrlOnlyStored, outcome, called)
        case Normal =>
          match x.grab
          case PermissionOrTool => outcome == Failed(ScreenRecordingOrCaptureUnavailable) && called == []
          case GrabFailed => outcome == Failed(CaptureFailed) && called == []
          case Grabbed(frame) =>
            if frame.signature.None? then outcome == Skipped(MissingPerceptualSignature) && called == []
            else if Redundant(Suffix(perceived, 3), frame.signature.value, 5) then
              outcome == Skipped(PerceptualDuplicate) && called == []
            else
              match x.recognition
              case NotRecognized => outcome == Failed(OcrFailed) && called == []
              case Recognized(text, lowSignal) =>
                if lowSignal then outcome == Skipped(LowSignal) && called == []
                else AnswersFor(PersistCapture(c, frame, text), x.reply, Stored, outcome, called)
  }

  lemma TickAnswers(s: Settings, xs: seq<Tick>, n: nat)
    requires n < |xs|
    ensures AnswersAs(s, Perceived(s, xs, n), xs[n], Terminal(s, xs, n),
                      if Offered(s, xs, n) then [CallOf(s, xs[n])] else [])
  {
    hide Redundant, Suffix, Skips, Perceived, Observed;
  }

  // ----- stored content is spaced ------------------------------------------------------

  lemma HistoryRises(s: Settings, xs: seq<Tick>, j: nat)
    requires j < |xs| && ClockRises(s, xs) && Content(s, xs, j).Some?
    ensures Nondecreasing(Observed(s, xs, j) + [Content(s, xs, j).value])
  {
    hide Content;
    ObservedGrows(s, xs, j + 1, |xs|);
    PrefixIsNondecreasing(Observed(s, xs, j + 1), Observed(s, xs, |xs|));
  }

  /** With a clock that does not run backwards, an offer comes more than a window after every earlier
      observation of the same content. */
  lemma OffersAreSpaced(s: Settings, xs: seq<Tick>, i: nat, j: nat)
    requires i < j < |xs| && ClockRises(s, xs) && Offered(s, xs, j) && SameContent(s, xs, i, j)
    ensures Gap(s, xs, i, j) > s.windowMs
  {
    hide Content, Observed, Skips, Nondecreasing;
    var now, history := Content(s, xs, j).value, Observed(s, xs, j);
    HistoryRises(s, xs, j);
    RisingClockSkipsIffSeen(history, now.signature, now.atMs, s.windowMs);
    ObservationStays(s, xs, i, j);
    assert history[|Observed(s, xs, i)|].signature == now.signature;
  }

  ghost predicate WasStored(s: Settings, xs: seq<Tick>, n: nat)
    requires n < |xs|
  {
    Terminal(s, xs, n) == Stored || Terminal(s, xs, n) == UrlOnlyStored
  }

  /** Then two stored outcomes with the same semantic signature are more than the window apart. */
  lemma StoredApart(s: Settings, xs: seq<Tick>, i: nat, j: nat)
    requires i < j < |xs| && ClockRises(s, xs) && WasStored(s, xs, i) && WasStored(s, xs, j)
    ensures Offered(s, xs, i) && Offered(s, xs, j)
    ensures SameContent(s, xs, i, j) ==> Gap(s, xs, i, j) > s.windowMs
  {
    hide Unseen, Observed, Perceived, FreshFrame;
    if SameContent(s, xs, i, j) {
      OffersAreSpaced(s, xs, i, j);
    }
  }

  // ----- withheld ticks do not interfere -------------------------------------------------

  /** The run without the ticks whose metadata was missing or whose gate denied capture. */
  function Allowed(xs: seq<Tick>, n: nat): (r: seq<Tick>)
    requires n <= |xs|
    ensures |r| <= n
  {
    if n == 0 then [] else Allowed(xs, n - 1) + (if Admitted(xs[n - 1]) then [xs[n - 1]] else [])
  }

  /** Two runs that agree so far and see the same tick next agree afterwards. */
  lemma SamePastSameStep(s: Settings, xs: seq<Tick>, n: nat, ys: seq<Tick>, m: nat)
    requires n < |xs| && m < |ys| && xs[n] == ys[m]
    requires Perceived(s, xs, n) == Perceived(s, ys, m) && Observed(s, xs, n) == Observed(s, ys, m)
    requires Calls(s, xs, n) == Calls(s, ys, m)
    ensures Perceived(s, xs, n + 1) == Perceived(s, ys, m + 1) && Observed(s, xs, n + 1) == Observed(s, ys, m + 1)
    ensures Calls(s, xs, n + 1) == Calls(s, ys, m + 1)
  {
    assert Content(s, xs, n) == Content(s, ys, m);
  }

  lemma WithheldTickAddsNothing(s: Settings, xs: seq<Tick>, n: nat)
    requires n < |xs| && !Admitted(xs[n])
    ensures Perceived(s, xs, n + 1) == Perceived(s, xs, n) && Observed(s, xs, n + 1) == Observed(s, xs, n)
    ensures Calls(s, xs, n + 1) == Calls(s, xs, n)
  {
  }

  /** A tick withheld before capture leaves nothing behind: the sink receives the calls it would have
      received had the tick never happened. */
  lemma {:induction false} WithheldTicksDoNotInterfere(s: Settings, xs: seq<Tick>, n: nat)
    requires n <= |xs|
    ensures var kept := Allowed(xs, n);
            && Perceived(s, kept, |kept|) == Perceived(s, xs, n)
            && Observed(s, kept, |kept|) == Observed(s, xs, n)
            && Calls(s, kept, |kept|) == Calls(s, xs, n)
  {
    hide Perceived, Observed, Calls, Terminal, Content, ContentAfter, Verdict, Unseen, CallOf, Admitted, SeesFrame;
    if n == 0 {
      NoTicksNoTrace(s, xs);
      NoTicksNoTrace(s, []);
    } else {
      WithheldTicksDoNotInterfere(s, xs, n - 1);
      var before, x := Allowed(xs, n - 1), xs[n - 1];
      if Admitted(x) {
        assert Allowed(xs, n) == before + [x];
        LaterTicksChangeNothing(s, before, x, |before|);
        SamePastSameStep(s, before + [x], |before|, xs, n - 1);
      } else {
        assert Allowed(xs, n) == before;
        WithheldTickAddsNothing(s, xs, n - 1);
      }
    }
  }

  lemma NoTicksNoTrace(s: Settings, xs: seq<Tick>)
    ensures Perceived(s, xs, 0) == [] && Observed(s, xs, 0) == [] && Calls(s, xs, 0) == []
  {
  }

  // ----- counters ----------------------------------------------------------------------

  datatype Category = StoredCategory | UrlOnlyCategory | SkipCategory(reason: SkipReason)

  function CategoryOf(o: Outcome): Category {
    match o
    case Stored => StoredCategory
    case UrlOnlyStored => UrlOnlyCategory
    case Skipped(reason) => SkipCategory(reason)
    case Failed(reason) => SkipCategory(reason)
  }

  function Count(outcomes: seq<Outcome>, c: Category): nat {
    if outcomes == [] then 0
    else Count(outcomes[..|outcomes| - 1], c) + (if CategoryOf(outcomes[|outcomes| - 1]) == c then 1 else 0)
  }

  lemma CountOneMore(outcomes: seq<Outcome>, o: Outcome)
    ensures forall c :: Count(outcomes + [o], c) == Count(outcomes, c) + if CategoryOf(o) == c then 1 else 0
  {
    assert (outcomes + [o])[..|outcomes|] == outcomes;
  }

  function Categories(): seq<Category> {
    [StoredCategory, UrlOnlyCategory, SkipCategory(MetadataUnavailable), SkipCategory(PreCapturePrivacy),
     SkipCategory(PrivateBrowsing), SkipCategory(AdmissionPolicy), SkipCategory(PerceptualDuplicate),
     SkipCategory(MissingPerceptualSignature), SkipCategory(LowSignal), SkipCategory(SemanticDuplicate),
     SkipCategory(FinalPrivacy), SkipCategory(ScreenRecordingOrCaptureUnavailable), SkipCategory(CaptureFailed),
     SkipCategory(OcrFailed), SkipCategory(PersistenceFailed)]
  }

  /** The sum of the first `k` counters. */
  function Sum(counters: Category -> nat, k: nat): nat
    requires k <= |Categories()|
  {
    if k == 0 then 0 else Sum(counters, k - 1) + counters(Categories()[k - 1])
  }

  lemma {:induction false} SumBumps(before: Category -> nat, after: Category -> nat, c: Category, k: nat, at: nat)
    requires k <= |Categories()| && at < |Categories()| && Categories()[at] == c
    requires forall d :: after(d) == before(d) + (if d == c then 1 else 0)
    ensures Sum(after, k) == Sum(before, k) + (if at < k then 1 else 0)
  {
    if k == 0 {
    } else {
      SumBumps(before, after, c, k - 1, at);
    }
  }

  lemma EveryCategoryIsListed(c: Category) returns (at: nat)
    ensures at < |Categories()| && Categories()[at] == c
  {
    at := match c
      case StoredCategory => 0
      case UrlOnlyCategory => 1
      case SkipCategory(reason) =>
        match reason
        case MetadataUnavailable => 2
        case PreCapturePrivacy => 3
        case PrivateBrowsing => 4
        case AdmissionPolicy => 5
        case PerceptualDuplicate => 6
        case MissingPerceptualSignature => 7
        case LowSignal => 8
        case SemanticDuplicate => 9
        case FinalPrivacy => 10
        case ScreenRecordingOrCaptureUnavailable => 11
        case CaptureFailed => 12
        case OcrFailed => 13
        case PersistenceFailed => 14;
  }

  lemma {:induction false} SumOfNothing(k: nat)
    requires k <= |Categories()|
    ensures Sum(c => Count([], c), k) == 0
  {
    if k == 0 {
    } else {
      SumOfNothing(k - 1);
    }
  }

  /** Every tick is counted exactly once. */
  lemma {:induction false} CountersSumToTicks(outcomes: seq<Outcome>)
    ensures Sum(c => Count(outcomes, c), |Categories()|) == |outcomes|
  {
    if outcomes == [] {
      SumOfNothing(|Categories()|);
    } else {
      var earlier, last := outcomes[..|outcomes| - 1], outcomes[|outcomes| - 1];
      CountersSumToTicks(earlier);
      var at := EveryCategoryIsListed(CategoryOf(last));
      SumBumps(c => Count(earlier, c), c => Count(outcomes, c), CategoryOf(last), |Categories()|, at);
    }
  }

  // ----- the pipeline ----------------------------------------------------------------

  class CapturePipeline {
    const settings: Settings
    const perceptual: PerceptualDeduper
    const semantic: SemanticDedupWindow
    var stored: nat
    var urlOnlyStored: nat
    var skipped: map<SkipReason, nat>
    /** Every call the sink received. */
    var calls: seq<SinkCall>
    ghost var ticks: seq<Tick>
    ghost var outcomes: seq<Outcome>

    constructor (settings: Settings)
      ensures Valid() && this.settings == settings && ticks == [] && outcomes == [] && calls == []
      ensures fresh(perceptual) && fresh(semantic)
    {
      this.settings := settings;
      perceptual := new PerceptualDeduper(PERCEPTUAL_THRESHOLD);
      semantic := new SemanticDedupWindow();
      stored, urlOnlyStored, skipped, calls, ticks, outcomes := 0, 0, map[], [], [], [];
    }

    function SkipCount(reason: SkipReason): nat
      reads this
    {
      if reason in skipped then skipped[reason] else 0
    }

    ghost predicate CountersAgree()
      reads this
    {
      forall c :: Counter(c) == Count(outcomes, c)
    }

    ghost predicate WindowsAgree()
      reads this, perceptual, semantic
    {
      && perceptual.Valid() && semantic.Valid(settings.windowMs)
      && perceptual.threshold == PERCEPTUAL_THRESHOLD
      && perceptual.history == Perceived(settings, ticks, |ticks|)
      && semantic.history == Observed(settings, ticks, |ticks|)
    }

    ghost predicate Valid()
      reads this, perceptual, semantic
    {
      CountersAgree() && WindowsAgree() && MatchesRun(settings, ticks, calls, outcomes)
    }

    /** The counter of a category. */
    function Counter(c: Category): nat
      reads this
    {
      match c
      case StoredCategory => stored
      case UrlOnlyCategory => urlOnlyStored
      case SkipCategory(reason) => SkipCount(reason)
    }

    method Record(outcome: Outcome)
      requires CountersAgree()
      modifies `stored, `urlOnlyStored, `skipped, `outcomes
      ensures CountersAgree() && outcomes == old(outcomes) + [outcome]
    {
      hide Count;
      CountOneMore(outcomes, outcome);
      outcomes := outcomes + [outcome];
      match outcome {
        case Stored => stored := stored + 1;
        case UrlOnlyStored => urlOnlyStored := urlOnlyStored + 1;
        case Skipped(reason) => skipped := skipped[reason := SkipCount(reason) + 1];
        case Failed(reason) => skipped := skipped[reason := SkipCount(reason) + 1];
      }
    }

    /** The last stages of both persistence paths. */
    method Offer(content: Observation, call: SinkCall, reply: SinkReply, whenStored: Outcome) returns (outcome: Outcome)
      requires semantic.Valid(settings.windowMs)
      modifies `calls, semantic
      ensures semantic.Valid(settings.windowMs) && semantic.history == old(semantic.history) + [content]
      ensures var unseen := Unseen(settings, old(semantic.history), content);
                && outcome == (if unseen then Delivery(reply, whenStored) else Skipped(SemanticDuplicate))
                && calls == old(calls) + (if unseen then [call] else [])
    {
      hide Mirrors, Skips, Nondecreasing, SeenWithin;
      var skip := semantic.ShouldSkip(content.signature, content.atMs, settings.windowMs);
      if skip {
        return Skipped(SemanticDuplicate);
      }
      calls := calls + [call];
      return Delivery(reply, whenStored);
    }

    method RunTickInner(x: Tick) returns (outcome: Outcome)
      requires WindowsAgree()
      modifies `calls, perceptual, semantic
      ensures perceptual.Valid() && semantic.Valid(settings.windowMs)
      ensures perceptual.history == old(perceptual.history) + PerceivedIn(settings, x)
      ensures semantic.history == old(semantic.history) + ObservedIn(ContentAfter(settings, old(perceptual.history), x))
      ensures outcome == Verdict(settings, old(perceptual.history), old(semantic.history), x)
      ensures !Admitted(x) ==> calls == old(calls)
      ensures var content := ContentAfter(settings, old(perceptual.history), x);
                calls == old(calls) + if content.Some? && Unseen(settings, old(semantic.history), content.value)
                                      then [CallOf(settings, x)] else []
    {
      hide Redundant, Suffix, Skips, Mirrors, Nondecreasing, Perceived, Observed;
      if x.context.None? {
        return Failed(MetadataUnavailable);
      }
      var context := x.context.value;
      if x.gate.Deny? {
        return Skipped(x.gate.reason);
      }
      match settings.classify(context) {
        case SkipFrame => return Skipped(AdmissionPolicy);
        case UrlOnly =>
          var key := settings.hash(context.appName, context.windowTitle, UrlOf(context));
          outcome := Offer(Observation(key, context.observedAtMs), PersistUrlOnly(context), x.reply, UrlOnlyStored);
          return;
        case Normal =>
      }
      match x.grab {
        case PermissionOrTool => return Failed(ScreenRecordingOrCaptureUnavailable);
        case GrabFailed => return Failed(CaptureFailed);
        case Grabbed(_) =>
      }
      var frame := x.grab.frame;
      if frame.signature.None? {
        return Skipped(MissingPerceptualSignature);
      }
      var duplicate := perceptual.ShouldSkip(frame.signature.value);
      if duplicate {
        return Skipped(PerceptualDuplicate);
      }
      if x.recognition.NotRecognized? {
        return Failed(OcrFailed);
      }
      if x.recognition.lowSignal {
        return Skipped(LowSignal);
      }
      var text := x.recognition.text;
      outcome := Offer(Observation(settings.hash(context.appName, context.windowTitle, text), frame.capturedAtMs),
                       PersistCapture(context, frame, text), x.reply, Stored);
    }

    /** One capture opportunity. Whatever happens, both windows, the sink and the counters end where the
        full history says they should. */
    method RunTick(x: Tick) returns (outcome: Outcome)
      requires Valid()
      modifies this, perceptual, semantic
      ensures Valid() && ticks == old(ticks) + [x] && outcomes == old(outcomes) + [outcome]
      ensures outcome == Terminal(settings, ticks, |old(ticks)|)
      ensures exists called :: calls == old(calls) + called
                               && AnswersAs(settings, old(perceptual.history), x, outcome, called)
      ensures calls == old(calls) + if Offered(settings, ticks, |old(ticks)|) then [CallOf(settings, x)] else []
      ensures !Admitted(x) ==> calls == old(calls)
    {
      hide Verdict, ContentAfter, Count, PerceivedIn, CallOf, Unseen, MatchesRun, Terminal, Calls;
      hide Content, Nondecreasing, Mirrors, Suffix, Redundant, Perceived, Observed, Last, AnswersAs;
      ghost var before, sunk, ended := ticks, calls, outcomes;
      outcome := RunTickInner(x);
      Record(outcome);
      ticks := ticks + [x];
      OneMoreTick(settings, before, x);
      TickAnswers(settings, ticks, |before|);
      ghost var called := calls[|sunk|..];
      assert calls == sunk + called && AnswersAs(settings, old(perceptual.history), x, outcome, called);
      RunExtends(settings, before, x, sunk, ended, calls, outcome);
    }
  }
}
