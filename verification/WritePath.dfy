/** The narrow handoff from captured text to SQLite truth: gate, redact, merge into a pending record or
    insert a new one-chunk record. */
module WritePath {
  import opened Wrappers
  import opened Text
  import opened Vault
  import opened Protocol
  import opened Guarantees
  import opened Blocklist
  import opened SafetyGate
  import opened Story
  import opened Continuity
  import opened Store

  datatype Capture = Capture(
    recordId: string, sessionId: string, chunkId: string, source: string, appName: string,
    bundleId: Option<string>, url: Option<string>, windowTitle: string, ocrText: string,
    capturedAtMs: int, createdAtMs: int)

  datatype PersistOutcome =
    | Stored(recordId: string, redactionCount: nat)
    | MergedInto(recordId: string, redactionCount: nat)
    | Skipped(reason: Reason)

  /** Which SQLite transactions go through during one call. */
  datatype Io = Io(canSelect: bool, canMerge: bool, canInsert: bool)

  const I64_MIN: int := -0x8000_0000_0000_0000

  function RecentAfter(capturedAtMs: int): int {
    if capturedAtMs - MERGE_WINDOW_MS < I64_MIN then I64_MIN else capturedAtMs - MERGE_WINDOW_MS
  }

  function SafetyContext(c: Capture, text: Option<string>): Context {
    Context(Some(c.appName), c.bundleId, c.url, Some(c.windowTitle), text)
  }

  /** The text that may be stored for an OCR text. */
  function StoredText(ocr: string): string {
    if ContainsSecret(ocr, SECRET_PATTERNS) then Redacted(ocr, SECRET_PATTERNS) else ocr
  }

  function RedactionCount(ocr: string): nat {
    if ContainsSecret(ocr, SECRET_PATTERNS) then CountSecret(Lines(ocr), |Lines(ocr)|, SECRET_PATTERNS) else 0
  }

  function RecordFor(web: Web, c: Capture): Record {
    Record(c.sessionId, c.source, c.appName, c.bundleId,
           if c.url.Some? then web.sanitize(c.url.value) else None,
           c.windowTitle, c.capturedAtMs, c.createdAtMs)
  }

  function IncomingRecord(r: Record, text: string): ContinuityRecord {
    ContinuityRecord(r.appName, r.url, r.windowTitle, text, r.windowTitle, text, r.capturedAtMs)
  }

  function CandidateRecord(c: Candidate): ContinuityRecord {
    ContinuityRecord(c.appName, c.url, c.windowTitle, c.text, c.windowTitle, c.text, c.capturedAtMs)
  }

  predicate Continues(web: Web, c: Capture, candidate: Candidate) {
    ShouldMerge(web.unicode, IncomingRecord(RecordFor(web, c), StoredText(c.ocrText)),
                CandidateRecord(candidate), 0.0).Some?
  }

  /** The reason applies to the capture's app, bundle, URL and title. */
  ghost predicate RefusedFor(reason: Reason, web: Web, b: Blocklist, c: Capture) {
    Refuses(reason, Context(Some(c.appName), c.bundleId, c.url, Some(c.windowTitle), None), b, web)
  }

  /** It is the first that does. */
  ghost predicate RefusedFirstFor(reason: Reason, web: Web, b: Blocklist, c: Capture) {
    && RefusedFor(reason, web, b, c)
    && forall earlier | AskedAt(earlier) < AskedAt(reason) :: !RefusedFor(earlier, web, b, c)
  }

  ghost predicate IsRefused(web: Web, b: Blocklist, c: Capture) {
    exists reason :: RefusedFor(reason, web, b, c)
  }

  /** An entry of the owner's lists names the capture's app or covers its host. */
  ghost predicate OwnerLists(web: Web, apps: seq<string>, domains: seq<string>, c: Capture) {
    || (exists entry | entry in apps :: NamesApp(web.unicode, entry, LowerAscii(c.appName)))
    || (exists h | HostFromUrl(web, Or(c.url)) == Some(h) :: AnyCovers(web, h, domains))
  }

  lemma OwnerListsIff(web: Web, apps: seq<string>, domains: seq<string>, c: Capture)
    ensures RefusedFor(UserBlocklist, web, NewBlocklist(web, apps, domains), c) <==> OwnerLists(web, apps, domains, c)
  {
    hide BlocksApp, BlocksUrl, NewBlocklist, NamesApp, AnyCovers, HostFromUrl;
    BlocksAppIff(web, apps, domains, LowerAscii(c.appName));
    BlocksUrlIff(web, apps, domains, Or(c.url));
  }

  lemma GateAnswersIff(web: Web, b: Blocklist, c: Capture)
    ensures var answer := Evaluate(SafetyContext(c, None), b, web);
            && (answer.SkipStorage? <==> IsRefused(web, b, c))
            && (answer.SkipStorage? ==> RefusedFirstFor(answer.reason, web, b, c))
  {
    hide Evaluate, Refuses;
    var context := SafetyContext(c, None);
    GateSkipsIff(context, b, web);
    assert forall reason :: RefusedFor(reason, web, b, c) == Refuses(reason, context, b, web);
    assert forall reason :: FirstRefusal(reason, context, b, web) ==> RefusedFirstFor(reason, web, b, c);
  }

  /** What of the OCR text is stored: all of it if it is clean, else each clean line and the marker for each
      other line, which are counted. */
  ghost predicate KeepsText(ocr: string, text: string, redactionCount: nat) {
    if Clean(ocr, SECRET_PATTERNS) then text == ocr && redactionCount == 0
    else IsRedaction(ocr, text, SECRET_PATTERNS) && redactionCount == |DirtyLines(ocr, SECRET_PATTERNS)|
  }

  lemma StoredTextKeeps(ocr: string)
    ensures KeepsText(ocr, StoredText(ocr), RedactionCount(ocr))
  {
    hide ContainsSecret, Redacted, CountSecret, Lines, IsRedaction, DirtyLines;
    RedactedIs(ocr, SECRET_PATTERNS);
  }

  /** The record has the capture's fields, and its URL sanitized. */
  ghost predicate SaysCapture(web: Web, c: Capture, r: Record) {
    && r.sessionId == c.sessionId && r.source == c.source && r.appName == c.appName && r.bundleId == c.bundleId
    && r.url == (if c.url.Some? then web.sanitize(c.url.value) else None)
    && r.windowTitle == c.windowTitle && r.capturedAtMs == c.capturedAtMs && r.createdAtMs == c.createdAtMs
  }

  /** The capture is a new record with one pending chunk of its text, and nothing else has changed. */
  ghost predicate IsStored(web: Web, c: Capture, was: Truth, now: Truth, redactionCount: nat) {
    && c.recordId !in was.records && now.records.Keys == was.records.Keys + {c.recordId}
    && (forall x | x in was.records :: now.records[x] == was.records[x])
    && c.chunkId !in was.chunks && now.chunks.Keys == was.chunks.Keys + {c.chunkId}
    && (forall x | x in was.chunks :: now.chunks[x] == was.chunks[x])
    && SaysCapture(web, c, now.records[c.recordId])
    && var chunk := now.chunks[c.chunkId];
       && chunk.recordId == c.recordId && chunk.ord == 0 && chunk.flushedAtMs == 0
       && KeepsText(c.ocrText, chunk.text, redactionCount)
  }

  /** The capture is in the record's pending chunk: the record refreshed, the text told on. */
  ghost predicate IsContinued(web: Web, c: Capture, was: Truth, now: Truth, rid: string, id: string,
                              redactionCount: nat) {
    && id in was.chunks && was.chunks[id].flushedAtMs == 0 && was.chunks[id].recordId == rid
    && (exists incoming :: SaysCapture(web, c, incoming) && IsRefreshed(was.records, now.records, rid, incoming))
    && (exists text :: KeepsText(c.ocrText, text, redactionCount) && ToldOn(web.unicode, was, now, id, text))
  }

  ghost predicate ToldOn(u: Unicode, was: Truth, now: Truth, id: string, text: string)
    requires id in was.chunks
  {
    IsRetold(was.chunks, now.chunks, id, MergedStory(u, was.chunks[id].text, text, 6400))
  }

  lemma InsertStores(web: Web, c: Capture, was: Truth, now: Truth)
    requires Wrote(web.unicode, was, [InsertOf(web, c)], now)
    ensures IsStored(web, c, was, now, RedactionCount(c.ocrText))
  {
    hide KeepsText, StoredText, RedactionCount, FromWritePath;
    var cs := [NewChunk(c.chunkId, 0, StoredText(c.ocrText))];
    assert StepWrites(System(Vault(was, Missing, 0), Idle), InsertOf(web, c), now);
    WithChunksContents(was.chunks, c.recordId, cs);
    assert ChunkIds(cs) == {c.chunkId};
    StoredTextKeeps(c.ocrText);
  }

  lemma MergeContinues(web: Web, c: Capture, was: Truth, now: Truth, id: string, steps: seq<Step>)
    requires MergedWith(web, c, was, id, steps) && Wrote(web.unicode, was, steps, now)
    ensures id in was.chunks && IsContinued(web, c, was, now, was.chunks[id].recordId, id, RedactionCount(c.ocrText))
  {
    hide KeepsText, StoredText, RedactionCount, FromWritePath, MergedStory, Continues;
    var incoming, text := RecordFor(web, c), StoredText(c.ocrText);
    assert StepWrites(System(Vault(was, Missing, 0), Idle), steps[0], now);
    StoredTextKeeps(c.ocrText);
    assert SaysCapture(web, c, incoming);
    assert IsRefreshed(was.records, now.records, was.chunks[id].recordId, incoming);
    assert ToldOn(web.unicode, was, now, id, text);
  }

  /** What persisting a capture may write, seen as one durable step. */
  ghost predicate FromWritePath(u: Unicode, t: Truth, step: Step) {
    match step
    case Insert(_, _, cs) => |cs| == 1 && cs[0].ord == 0 && exists ocr: string :: cs[0].text == StoredText(ocr)
    case Merge(_, cid, _, text) =>
      cid in t.chunks
      && exists ocr: string :: text == MergedStory(u, t.chunks[cid].text, StoredText(ocr), MAX_STORY_CHARS)
    case _ => true
  }

  /** The run the method performed, whatever the index holds meanwhile. */
  ghost predicate Wrote(u: Unicode, before: Truth, steps: seq<Step>, after: Truth) {
    && |steps| <= 1
    && (steps == [] ==> after == before)
    && (steps != [] ==>
          && (steps[0].Insert? || steps[0].Merge?)
          && FromWritePath(u, before, steps[0])
          && forall ix, dim :: StepWrites(System(Vault(before, ix, dim), Idle), steps[0], after))
  }

  ghost predicate StepWrites(s: System, step: Step, after: Truth) {
    Enabled(s, step) && Do(s, step) == System(s.vault.(truth := after), Idle)
  }

  /** The gate, twice: on the metadata alone, then with the text. */
  method FilterText(web: Web, b: Blocklist, c: Capture) returns (r: Result<(string, nat), Reason>)
    ensures r.Failure? <==> IsRefused(web, b, c)
    ensures r.Failure? ==> RefusedFirstFor(r.error, web, b, c)
    ensures r.Success? ==> KeepsText(c.ocrText, r.value.0, r.value.1)
    ensures r.Success? ==> r.value == (StoredText(c.ocrText), RedactionCount(c.ocrText))
  {
    hide MetadataVerdict, ContainsSecret, Redacted, CountSecret, Lines, IsRedaction, DirtyLines, Refuses, KeepsText;
    GateAnswersIff(web, b, c);
    StoredTextKeeps(c.ocrText);
    TextNeverSkips(SafetyContext(c, None), b, web, c.ocrText);
    match Evaluate(SafetyContext(c, None), b, web) {
      case SkipStorage(reason) => return Failure(reason);
      case _ =>
    }
    match Evaluate(SafetyContext(c, Some(c.ocrText)), b, web) {
      case Allow => return Success((c.ocrText, 0));
      case Redact(_) =>
        var text, count := RedactSecretLinesMatching(c.ocrText, SECRET_PATTERNS);
        return Success((text, count));
      case SkipStorage(_) => assert false;
    }
  }

  /** A candidate that continues the capture, merged in place. */
  ghost predicate MergedWith(web: Web, c: Capture, t: Truth, id: string, steps: seq<Step>) {
    && id in RecentPending(t, RecentAfter(c.capturedAtMs))
    && Continues(web, c, CandidateOf(t, id))
    && steps == [Merge(t.chunks[id].recordId, id, RecordFor(web, c),
                       MergedStory(web.unicode, t.chunks[id].text, StoredText(c.ocrText), MAX_STORY_CHARS))]
  }

  lemma MergeWrites(u: Unicode, t: Truth, rid: string, cid: string, incoming: Record, ocr: string)
    requires CanMerge(t, rid, cid)
    ensures var text := MergedStory(u, t.chunks[cid].text, StoredText(ocr), MAX_STORY_CHARS);
            Wrote(u, t, [Merge(rid, cid, incoming, text)], Merged(t, rid, cid, incoming, text))
  {
    hide MergedStory, StoredText;
    var text := MergedStory(u, t.chunks[cid].text, StoredText(ocr), MAX_STORY_CHARS);
    var step := Merge(rid, cid, incoming, text);
    assert FromWritePath(u, t, step);
    forall ix, dim ensures StepWrites(System(Vault(t, ix, dim), Idle), step, Merged(t, rid, cid, incoming, text)) {
    }
  }

  /** The candidate as it was selected from the truth `t`. */
  ghost predicate IsRecent(t: Truth, c: Capture, candidate: Candidate) {
    && candidate.chunkId in RecentPending(t, RecentAfter(c.capturedAtMs))
    && candidate == CandidateOf(t, candidate.chunkId)
  }

  lemma InsertWrites(u: Unicode, t: Truth, id: string, record: Record, chunkId: string, ocr: string)
    requires CanInsert(t, id, [NewChunk(chunkId, 0, StoredText(ocr))])
    ensures var cs := [NewChunk(chunkId, 0, StoredText(ocr))];
            Wrote(u, t, [Insert(id, record, cs)], Inserted(t, id, record, cs))
  {
    hide StoredText, Inserted;
    var cs := [NewChunk(chunkId, 0, StoredText(ocr))];
    var step := Insert(id, record, cs);
    assert FromWritePath(u, t, step);
    forall ix, dim ensures StepWrites(System(Vault(t, ix, dim), Idle), step, Inserted(t, id, record, cs)) {
    }
  }

  /** Merges into one candidate. The candidate was selected from the present truth, so its chunk is still
      pending and the guarded update finds it. */
  method MergeInto(store: Store, web: Web, c: Capture, candidate: Candidate, canMerge: bool)
    returns (r: Result<bool, StoreError>, ghost steps: seq<Step>)
    requires IsRecent(store.Contents(), c, candidate) && Continues(web, c, candidate)
    modifies store
    ensures r.Success? <==> canMerge
    ensures r.Success? ==> r.value && MergedWith(web, c, old(store.Contents()), candidate.chunkId, steps)
    ensures r.Failure? ==> steps == [] && store.Contents() == old(store.Contents())
    ensures Wrote(web.unicode, old(store.Contents()), steps, store.Contents())
  {
    hide Continues, RecordFor, MergedStory, StoredText, Wrote;
    ghost var t := store.Contents();
    var record := RecordFor(web, c);
    var merged := MergeStoryText(web.unicode, candidate.text, StoredText(c.ocrText), MAX_STORY_CHARS);
    assert CanMerge(t, candidate.recordId, candidate.chunkId);
    r := store.MergePendingCapture(candidate, record, merged, canMerge);
    if r.Failure? {
      NothingWritten(web.unicode, t);
      return r, [];
    }
    steps := [Merge(candidate.recordId, candidate.chunkId, record, merged)];
    MergeWrites(web.unicode, t, candidate.recordId, candidate.chunkId, record, c.ocrText);
  }

  lemma NothingWritten(u: Unicode, t: Truth)
    ensures Wrote(u, t, [], t)
  {
  }

  ghost predicate AllRecent(t: Truth, c: Capture, candidates: seq<Candidate>) {
    forall i | 0 <= i < |candidates| :: IsRecent(t, c, candidates[i])
  }

  /** None of the first `n` candidates continues the capture. */
  ghost predicate NoneBefore(web: Web, c: Capture, candidates: seq<Candidate>, n: int) {
    forall i | 0 <= i < n && i < |candidates| :: !Continues(web, c, candidates[i])
  }

  /** The merge went into candidate `n`, the first that continues the capture. */
  ghost predicate MergedFirst(web: Web, c: Capture, t: Truth, candidates: seq<Candidate>, n: nat, rid: string,
                              steps: seq<Step>) {
    && n < |candidates| && candidates[n].recordId == rid
    && NoneBefore(web, c, candidates, n) && MergedWith(web, c, t, candidates[n].chunkId, steps)
  }

  /** Merges into the first candidate that continues the capture, if there is one. */
  method MergeIntoFirst(store: Store, web: Web, c: Capture, candidates: seq<Candidate>, canMerge: bool)
    returns (r: Result<Option<string>, StoreError>, ghost chosen: nat, ghost steps: seq<Step>)
    requires AllRecent(store.Contents(), c, candidates)
    modifies store
    ensures forall rid | r == Success(Some(rid)) ::
              canMerge && MergedFirst(web, c, old(store.Contents()), candidates, chosen, rid, steps)
    ensures r == Success(None) ==> NoneBefore(web, c, candidates, |candidates|)
    ensures r.Failure? ==> !canMerge && !NoneBefore(web, c, candidates, |candidates|)
    ensures r.Failure? || r == Success(None) ==> steps == [] && store.Contents() == old(store.Contents())
    ensures Wrote(web.unicode, old(store.Contents()), steps, store.Contents())
  {
    hide Continues, MergedWith, Wrote, IsRecent;
    steps := [];
    NothingWritten(web.unicode, store.Contents());
    var n := 0;
    while n < |candidates|
      invariant 0 <= n <= |candidates|
      invariant store.Contents() == old(store.Contents()) && steps == []
      invariant NoneBefore(web, c, candidates, n)
    {
      if Continues(web, c, candidates[n]) {
        var merged, more := MergeInto(store, web, c, candidates[n], canMerge);
        if merged.Failure? {
          return Failure(merged.error), n, more;
        }
        if merged.value {
          return Success(Some(candidates[n].recordId)), n, more;
        }
      }
      n := n + 1;
    }
    return Success(None), n, steps;
  }

  /** The candidates of the last 45 minutes, newest first, and the merge into the first that fits. */
  method MergeIntoNewest(store: Store, web: Web, c: Capture, io: Io)
    returns (r: Result<Option<string>, StoreError>, ghost into: string, ghost steps: seq<Step>)
    requires Consistent(store.Contents())
    modifies store
    ensures forall rid | r == Success(Some(rid)) ::
              io.canMerge && MergedNewest(web, c, old(store.Contents()), into, rid, steps)
    ensures r == Success(None) ==> NothingContinues(web, c, old(store.Contents()))
    ensures r.Failure? ==> !io.canSelect || (!io.canMerge && SomethingContinues(web, c, old(store.Contents())))
    ensures r.Success? ==> io.canSelect
    ensures r.Failure? || r == Success(None) ==> steps == [] && store.Contents() == old(store.Contents())
    ensures Wrote(web.unicode, old(store.Contents()), steps, store.Contents())
  {
    hide *;
    into, steps := "", [];
    ghost var t := store.Contents();
    NothingWritten(web.unicode, t);
    var selected := store.PendingContinuityCandidates(RecentAfter(c.capturedAtMs), 64, io.canSelect);
    if selected.Failure? {
      return Failure(selected.error), into, steps;
    }
    var candidates := selected.value;
    NewestAre(c, t, candidates);
    SelectedAreRecent(t, c, candidates);
    var merged, chosen, more := MergeIntoFirst(store, web, c, candidates, io.canMerge);
    if merged.Failure? {
      SomeContinues(web, c, t, candidates);
    } else {
      if merged.value.Some? {
        ChosenIsNewest(web, c, t, candidates, chosen, merged.value.value, more);
        into := candidates[chosen].chunkId;
      } else {
        NoneContinues(web, c, t, candidates);
      }
    }
    return merged, into, more;
  }

  lemma OwnerComesFirst(web: Web, b: Blocklist, c: Capture)
    ensures forall apps, domains | b == NewBlocklist(web, apps, domains) && OwnerLists(web, apps, domains, c) ::
              IsRefused(web, b, c) && forall reason :: RefusedFirstFor(reason, web, b, c) ==> reason == UserBlocklist
  {
    hide NewBlocklist, OwnerLists, RefusedFor;
    forall apps, domains | b == NewBlocklist(web, apps, domains) && OwnerLists(web, apps, domains, c)
      ensures IsRefused(web, b, c) && forall reason :: RefusedFirstFor(reason, web, b, c) ==> reason == UserBlocklist
    {
      OwnerListsIff(web, apps, domains, c);
    }
  }

  lemma NewestContinues(web: Web, c: Capture, was: Truth, now: Truth, id: string, rid: string, steps: seq<Step>)
    requires MergedNewest(web, c, was, id, rid, steps) && Wrote(web.unicode, was, steps, now)
    ensures IsContinued(web, c, was, now, rid, id, RedactionCount(c.ocrText))
  {
    hide MergedWith, Wrote, IsContinued, IsNewest, PickedAfterUnrelated;
    MergeContinues(web, c, was, now, id, steps);
  }

  lemma NoRoom(t: Truth, id: string, chunk: NewChunk)
    ensures CanInsert(t, id, [chunk]) <==> id !in t.records && chunk.id !in t.chunks
  {
    assert [chunk][0] == chunk;
  }

  /** The capture as a new record with one chunk. */
  ghost function InsertOf(web: Web, c: Capture): Step {
    Insert(c.recordId, RecordFor(web, c), [NewChunk(c.chunkId, 0, StoredText(c.ocrText))])
  }

  lemma InsertIs(web: Web, c: Capture)
    ensures InsertOf(web, c)
            == Insert(c.recordId, RecordFor(web, c), [NewChunk(c.chunkId, 0, StoredText(c.ocrText))])
  {
  }

  method PersistCapture(store: Store, web: Web, b: Blocklist, c: Capture, io: Io)
    returns (r: Result<PersistOutcome, StoreError>, ghost into: string, ghost steps: seq<Step>)
    requires Consistent(store.Contents())
    modifies store
    ensures r.Success? && r.value.Skipped? ==> RefusedFirstFor(r.value.reason, web, b, c)
    ensures r.Success? && r.value.Stored? ==>
              && r.value.recordId == c.recordId
              && IsStored(web, c, old(store.Contents()), store.Contents(), r.value.redactionCount)
              && steps == [InsertOf(web, c)] && NothingContinues(web, c, old(store.Contents()))
    ensures r.Success? && r.value.MergedInto? ==>
              && IsContinued(web, c, old(store.Contents()), store.Contents(), r.value.recordId, into,
                             r.value.redactionCount)
              && MergedNewest(web, c, old(store.Contents()), into, r.value.recordId, steps)
    ensures IsRefused(web, b, c) <==> r.Success? && r.value.Skipped?
    ensures r.Success? && r.value.Stored? ==> io.canSelect && io.canInsert
    ensures r.Success? && r.value.MergedInto? ==> io.canSelect && io.canMerge
    ensures forall apps, domains | b == NewBlocklist(web, apps, domains) && OwnerLists(web, apps, domains, c) ::
              r == Success(Skipped(UserBlocklist))
    ensures r.Failure? || r.value.Skipped? ==> steps == [] && store.Contents() == old(store.Contents())
    ensures r.Failure? ==>
              || !io.canSelect
              || (!io.canMerge && SomethingContinues(web, c, old(store.Contents())))
              || (NothingContinues(web, c, old(store.Contents()))
                  && (!io.canInsert || c.recordId in old(store.Contents()).records
                      || c.chunkId in old(store.Contents()).chunks))
    ensures Wrote(web.unicode, old(store.Contents()), steps, store.Contents())
  {
    hide *;
    into, steps := "", [];
    ghost var t := store.Contents();
    NothingWritten(web.unicode, t);
    OwnerComesFirst(web, b, c);
    var filtered := FilterText(web, b, c);
    if filtered.Failure? {
      return Success(Skipped(filtered.error)), into, steps;
    }
    var (text, redactionCount) := filtered.value;

    var merged, target, more := MergeIntoNewest(store, web, c, io);
    into, steps := target, more;
    if merged.Failure? {
      return Failure(merged.error), into, steps;
    }
    if merged.value.Some? {
      NewestContinues(web, c, t, store.Contents(), into, merged.value.value, steps);
      return Success(MergedInto(merged.value.value, redactionCount)), into, steps;
    }
    var chunks := [NewChunk(c.chunkId, 0, text)];
    var inserted := store.InsertCapture(c.recordId, RecordFor(web, c), chunks, io.canInsert);
    if inserted.Failure? {
      NoRoom(t, c.recordId, NewChunk(c.chunkId, 0, text));
      return Failure(inserted.error), into, steps;
    }
    InsertIs(web, c);
    steps := [InsertOf(web, c)];
    InsertWrites(web.unicode, t, c.recordId, RecordFor(web, c), c.chunkId, c.ocrText);
    InsertStores(web, c, t, store.Contents());
    return Success(Stored(c.recordId, redactionCount)), into, steps;
  }

  /** Recent is within 45 minutes before the capture, as far back as 64-bit times go. */
  lemma NewestAreRecent(c: Capture, t: Truth, picked: seq<string>)
    requires IsNewest(c, t, picked)
    ensures var after := c.capturedAtMs - 2_700_000;
            NewestFirst(t, if after < -0x8000_0000_0000_0000 then -0x8000_0000_0000_0000 else after, 64, picked)
  {
    hide NewestFirst, Selects, RecentPending, CandidateKey;
    SelectionIsNewestFirst(t, RecentAfter(c.capturedAtMs), 64, picked);
  }

  ghost predicate Unrelated(web: Web, c: Capture, t: Truth, id: string) {
    id in t.chunks && t.chunks[id].recordId in t.records && !Continues(web, c, CandidateOf(t, id))
  }

  ghost predicate AllUnrelated(web: Web, c: Capture, t: Truth, picked: seq<string>, n: int) {
    forall i | 0 <= i < n && i < |picked| :: Unrelated(web, c, t, picked[i])
  }

  /** The newest 64 pending captures of the last 45 minutes, newest first; the order of equal times is open. */
  ghost predicate IsNewest(c: Capture, t: Truth, picked: seq<string>) {
    Selects(RecentPending(t, RecentAfter(c.capturedAtMs)), CandidateKey(t), 64, picked)
  }

  /** None of the newest 64 continues this capture. */
  ghost predicate NothingContinues(web: Web, c: Capture, t: Truth) {
    exists picked :: IsNewest(c, t, picked) && AllUnrelated(web, c, t, picked, |picked|)
  }

  /** One of the newest 64 does. */
  ghost predicate SomethingContinues(web: Web, c: Capture, t: Truth) {
    exists picked, n: nat :: IsNewest(c, t, picked) && n < |picked| && ContinuesAt(web, c, t, picked[n])
  }

  ghost predicate ContinuesAt(web: Web, c: Capture, t: Truth, id: string) {
    id in t.chunks && t.chunks[id].recordId in t.records && Continues(web, c, CandidateOf(t, id))
  }

  lemma SomeContinues(web: Web, c: Capture, t: Truth, candidates: seq<Candidate>)
    requires Selected(t, c, candidates) && !NoneBefore(web, c, candidates, |candidates|)
    ensures SomethingContinues(web, c, t)
  {
    hide Continues, IsNewest;
    var i: nat :| i < |candidates| && Continues(web, c, candidates[i]);
    assert IsRecent(t, c, candidates[i]);
    RecentIsUnrelated(web, c, t, candidates[i]);
    assert ContinuesAt(web, c, t, CandidateIds(candidates)[i]);
  }

  /** The merge went into chunk `id` of record `rid`, the first of the newest 64 that this capture continues. */
  ghost predicate MergedNewest(web: Web, c: Capture, t: Truth, id: string, rid: string, steps: seq<Step>) {
    && MergedWith(web, c, t, id, steps) && id in t.chunks && t.chunks[id].recordId == rid
    && exists picked, n: nat :: IsNewest(c, t, picked) && PickedAfterUnrelated(web, c, t, picked, n, id)
  }

  ghost predicate PickedAfterUnrelated(web: Web, c: Capture, t: Truth, picked: seq<string>, n: nat, id: string) {
    n < |picked| && picked[n] == id && AllUnrelated(web, c, t, picked, n)
  }

  lemma NewerHasLesserKey(t: Truth, a: string, b: string)
    requires IsNewer(t, a, b)
    ensures !KeyAtMost(CandidateKey(t)(b), CandidateKey(t)(a))
  {
  }

  /** What comes before a picked id in the order was picked before it. */
  lemma PickedBefore(from: set<string>, key: string -> SortKey, limit: nat, picked: seq<string>, chosen: nat,
                     other: string)
    returns (i: nat)
    requires Selects(from, key, limit, picked) && chosen < |picked| && other in from
    requires !KeyAtMost(key(picked[chosen]), key(other))
    ensures i < chosen && picked[i] == other
  {
    assert other in picked;
    i :| 0 <= i < |picked| && picked[i] == other;
  }

  /** No newer recent pending capture continues this one: the merge goes to the newest that does. */
  lemma NewerDoNotContinue(web: Web, c: Capture, t: Truth, id: string, rid: string, steps: seq<Step>, other: string)
    requires MergedNewest(web, c, t, id, rid, steps)
    requires other in RecentPending(t, RecentAfter(c.capturedAtMs)) && IsNewer(t, other, id)
    ensures Unrelated(web, c, t, other)
  {
    hide MergedWith, Unrelated, RecentPending, CandidateKey, KeyAtMost, RecentAfter, Selects, IsNewer;
    var picked, n: nat :| IsNewest(c, t, picked) && PickedAfterUnrelated(web, c, t, picked, n, id);
    NewerHasLesserKey(t, other, id);
    var i := PickedBefore(RecentPending(t, RecentAfter(c.capturedAtMs)), CandidateKey(t), 64, picked, n, other);
  }

  /** With at most 64 recent pending captures, "none of the newest 64" is "none". */
  lemma SmallBacklogIsCovered(web: Web, c: Capture, t: Truth, id: string)
    requires NothingContinues(web, c, t) && id in RecentPending(t, RecentAfter(c.capturedAtMs))
    requires |RecentPending(t, RecentAfter(c.capturedAtMs))| <= 64
    ensures Unrelated(web, c, t, id)
  {
    hide Unrelated, RecentPending, CandidateKey, RecentAfter, Selects;
    var picked :| IsNewest(c, t, picked) && AllUnrelated(web, c, t, picked, |picked|);
    AllSelected(RecentPending(t, RecentAfter(c.capturedAtMs)), CandidateKey(t), picked);
  }

  lemma AllSelected(from: set<string>, key: string -> SortKey, picked: seq<string>)
    requires Selects(from, key, 64, picked) && |from| <= 64
    ensures Elements(picked) == from
  {
    assert Selects(from, key, |from|, picked);
    SelectsAll(from, key, picked);
  }

  /** With more, an older one is out of reach: a capture with 64 newer ones pending is never merged into,
      whatever it says. */
  lemma BeyondTheNewest64(web: Web, c: Capture, t: Truth, id: string, rid: string, steps: seq<Step>, newer: set<string>)
    requires newer <= RecentPending(t, RecentAfter(c.capturedAtMs)) && |newer| >= 64
    requires forall other | other in newer :: IsNewer(t, other, id)
    ensures !MergedNewest(web, c, t, id, rid, steps)
  {
    hide MergedWith, Unrelated, RecentPending, CandidateKey, KeyAtMost, RecentAfter, IsNewer;
    if MergedNewest(web, c, t, id, rid, steps) {
      var picked, n: nat :| IsNewest(c, t, picked) && PickedAfterUnrelated(web, c, t, picked, n, id);
      forall other | other in newer ensures other in Elements(picked[..n]) {
        NewerHasLesserKey(t, other, id);
        var i := PickedBefore(RecentPending(t, RecentAfter(c.capturedAtMs)), CandidateKey(t), 64, picked, n, other);
        assert picked[..n][i] == other;
      }
      SubsetIsSmaller(newer, Elements(picked[..n]));
      DistinctSize(picked[..n]);
    }
  }

  lemma SubsetIsSmaller(a: set<string>, b: set<string>)
    requires a <= b
    ensures |a| <= |b|
  {
    assert b == a + (b - a);
    assert |b| == |a| + |b - a|;
  }

  lemma NewestAre(c: Capture, t: Truth, candidates: seq<Candidate>)
    requires Selects(RecentPending(t, RecentAfter(c.capturedAtMs)), CandidateKey(t), 64, CandidateIds(candidates))
    ensures IsNewest(c, t, CandidateIds(candidates))
  {
  }

  ghost predicate Selected(t: Truth, c: Capture, candidates: seq<Candidate>) {
    IsNewest(c, t, CandidateIds(candidates)) && AllRecent(t, c, candidates)
  }

  lemma SelectedAreRecent(t: Truth, c: Capture, candidates: seq<Candidate>)
    requires IsNewest(c, t, CandidateIds(candidates))
    requires Consistent(t)
    requires forall i | 0 <= i < |candidates| ::
      candidates[i].chunkId in t.chunks && candidates[i] == CandidateOf(t, candidates[i].chunkId)
    ensures Selected(t, c, candidates) && AllRecent(t, c, candidates)
  {
    hide RecentPending, CandidateKey, RecentAfter;
    assert forall i | 0 <= i < |candidates| :: CandidateIds(candidates)[i] == candidates[i].chunkId;
  }

  lemma RecentIsUnrelated(web: Web, c: Capture, t: Truth, candidate: Candidate)
    requires IsRecent(t, c, candidate)
    ensures candidate.chunkId in t.chunks && t.chunks[candidate.chunkId].recordId == candidate.recordId
    ensures !Continues(web, c, candidate) ==> Unrelated(web, c, t, candidate.chunkId)
  {
    hide Continues;
  }

  lemma NoneBeforeIsUnrelated(web: Web, c: Capture, t: Truth, candidates: seq<Candidate>, n: nat)
    requires AllRecent(t, c, candidates) && NoneBefore(web, c, candidates, n)
    ensures AllUnrelated(web, c, t, CandidateIds(candidates), n)
  {
    hide Unrelated, IsRecent, Continues;
    forall i | 0 <= i < n && i < |candidates| ensures Unrelated(web, c, t, candidates[i].chunkId) {
      RecentIsUnrelated(web, c, t, candidates[i]);
    }
  }

  lemma ChosenIsNewest(web: Web, c: Capture, t: Truth, candidates: seq<Candidate>, chosen: nat, rid: string,
                       steps: seq<Step>)
    requires Selected(t, c, candidates) && MergedFirst(web, c, t, candidates, chosen, rid, steps)
    ensures chosen < |candidates| && MergedNewest(web, c, t, candidates[chosen].chunkId, rid, steps)
  {
    hide MergedWith, AllUnrelated, IsNewest, Continues, IsRecent, NoneBefore;
    RecentIsUnrelated(web, c, t, candidates[chosen]);
    NoneBeforeIsUnrelated(web, c, t, candidates, chosen);
    assert PickedAfterUnrelated(web, c, t, CandidateIds(candidates), chosen, candidates[chosen].chunkId);
  }

  lemma NoneContinues(web: Web, c: Capture, t: Truth, candidates: seq<Candidate>)
    requires Selected(t, c, candidates) && NoneBefore(web, c, candidates, |candidates|)
    ensures NothingContinues(web, c, t)
  {
    hide AllUnrelated, IsNewest, NoneBefore, AllRecent;
    NoneBeforeIsUnrelated(web, c, t, candidates, |candidates|);
    assert |CandidateIds(candidates)| == |candidates|;
  }

  /** A capture continues another exactly when both have substance and one anchor, in one app or within 45
      minutes at one place, and the tokens they share, by title, by the first 1000 characters and by the whole
      text, weigh enough. */
  lemma ContinuesIff(web: Web, c: Capture, x: Candidate, title: real, head: real, whole: real)
    requires IsShare(TokenSet(web.unicode, Head(StoredText(c.ocrText))), TokenSet(web.unicode, Head(x.text)), head)
    requires IsShare(TokenSet(web.unicode, c.windowTitle), TokenSet(web.unicode, x.windowTitle), title)
    requires IsShare(TokenSet(web.unicode, StoredText(c.ocrText)), TokenSet(web.unicode, x.text), whole)
    ensures var u, text := web.unicode, StoredText(c.ocrText);
            var url := if c.url.Some? then web.sanitize(c.url.value) else None;
            var a := ContinuityRecord(c.appName, url, c.windowTitle, text, c.windowTitle, text, c.capturedAtMs);
            var b := ContinuityRecord(x.appName, x.url, x.windowTitle, x.text, x.windowTitle, x.text, x.capturedAtMs);
            Continues(web, c, x) <==> TellOneStory(u, a, b, 0.68 * title + 0.20 * head + 0.12 * whole)
  {
    hide ShouldMerge, KeyOf, StoredText, TellOneStory, Lexical, TokenSet, IsShare, Head;
    var a, b := IncomingRecord(RecordFor(web, c), StoredText(c.ocrText)), CandidateRecord(x);
    MergesWithoutVectorIff(web.unicode, a, b);
    LexicalIs(web.unicode, a, b, title, title, head, whole);
  }

  /** A merge on the write path always joins two captures with the same anchor. */
  lemma MergesAreAnchored(web: Web, c: Capture, candidate: Candidate)
    requires Continues(web, c, candidate)
    ensures var incoming := IncomingRecord(RecordFor(web, c), StoredText(c.ocrText));
            var key := KeyOf(web.unicode, incoming);
            && key.Some? && key == KeyOf(web.unicode, CandidateRecord(candidate))
            && !key.value.SnippetKey?
  {
    hide ShouldMerge, KeyOf, StoredText, EligibleForStoryMerge, AllowsCrossAppMerge, ScoreCandidate, Lexical, RecordFor;
    var incoming := IncomingRecord(RecordFor(web, c), StoredText(c.ocrText));
    MergesWithoutVectorIff(web.unicode, incoming, CandidateRecord(candidate));
    StoryIff(web.unicode, incoming, CandidateRecord(candidate),
             Lexical(web.unicode, incoming, CandidateRecord(candidate)));
    NoSnippetAnchors(web.unicode, incoming);
  }

  /** "The same host" of a merge is the host up to its first colon: hosts without a colon are the same
      host, ignoring ASCII case; of IPv6 hosts only the first group is. */
  lemma MergedUrlsShareCutHost(web: Web, c: Capture, candidate: Candidate, x: WebUrl, y: WebUrl)
    requires Continues(web, c, candidate) && IsWritten(x) && IsWritten(y)
    requires RecordFor(web, c).url == Some(Written(x)) && candidate.url == Some(Written(y))
    ensures SameCutUrl(x, y)
    ensures ':' !in x.host && ':' !in y.host ==> LowerAscii(x.host) == LowerAscii(y.host)
  {
    hide Continues, IsWritten, Written, LowerAscii, SameCutUrl, KeyOfWritten, StoredText, RecordFor, KeyOf;
    MergesAreAnchored(web, c, candidate);
    KeyOfUrl(web.unicode, IncomingRecord(RecordFor(web, c), StoredText(c.ocrText)), x);
    KeyOfUrl(web.unicode, CandidateRecord(candidate), y);
    SameKeyIff(x, y);
    if ':' !in x.host && ':' !in y.host {
      PlainHostsAgree(x, y);
    }
  }

  lemma PlainHostsAgree(x: WebUrl, y: WebUrl)
    requires IsWritten(x) && IsWritten(y) && SameCutUrl(x, y) && ':' !in x.host && ':' !in y.host
    ensures LowerAscii(x.host) == LowerAscii(y.host)
  {
    hide LowerAscii, PathSegments, Written, CutHost;
    CutHostIsSolid(x.host);
    CutHostIsSolid(y.host);
  }

  // ----- a record keeps its anchor ----------------------------------------------------------

  /** The anchor key of a stored record: its texts have no part in it. */
  function RecordKey(u: Unicode, r: Record): Option<AnchorKey> {
    KeyOf(u, IncomingRecord(r, ""))
  }

  /** A merge brings a record of the same anchor. */
  ghost predicate IsAnchored(u: Unicode, t: Truth, step: Step) {
    step.Merge? ==>
      && step.recordId in t.records && RecordKey(u, step.incoming).Some?
      && RecordKey(u, step.incoming) == RecordKey(u, t.records[step.recordId])
  }

  lemma MergedWithIsAnchored(web: Web, c: Capture, t: Truth, id: string, steps: seq<Step>)
    requires MergedWith(web, c, t, id, steps)
    ensures |steps| == 1 && IsAnchored(web.unicode, t, steps[0])
  {
    hide Continues, KeyOf, StoredText, MergedStory;
    var candidate := CandidateOf(t, id);
    var record := t.records[t.chunks[id].recordId];
    MergesAreAnchored(web, c, candidate);
    var incoming := RecordFor(web, c);
    KeyReads(web.unicode, IncomingRecord(incoming, StoredText(c.ocrText)), IncomingRecord(incoming, ""));
    KeyReads(web.unicode, CandidateRecord(candidate), IncomingRecord(record, ""));
  }

  lemma StepKeepsKey(u: Unicode, s: System, step: Step, id: string)
    requires Enabled(s, step) && IsAnchored(u, s.vault.truth, step)
    requires id in s.vault.truth.records && id in Do(s, step).vault.truth.records
    ensures RecordKey(u, Do(s, step).vault.truth.records[id]) == RecordKey(u, s.vault.truth.records[id])
  {
    hide KeyOf;
  }

  ghost predicate AnchoredRun(u: Unicode, s: System, steps: seq<Step>) {
    forall i: nat | i < |steps| :: AnchoredAt(u, s, steps, i)
  }

  ghost predicate AnchoredAt(u: Unicode, s: System, steps: seq<Step>, i: nat)
    requires i < |steps|
  {
    var before := Exec(s, steps[..i]);
    before.Some? ==> IsAnchored(u, before.value.vault.truth, steps[i])
  }

  /** The record is there before and after every step of the run. */
  ghost predicate Lasts(s: System, steps: seq<Step>, id: string) {
    forall i | 0 <= i <= |steps| && Exec(s, steps[..i]).Some? :: id in Exec(s, steps[..i]).value.vault.truth.records
  }

  /** However many captures merge into a record, over any run with any crashes, it keeps the anchor it was
      inserted with: merging never drifts. */
  lemma {:induction false} RunKeepsKey(u: Unicode, s: System, steps: seq<Step>, s': System, id: string)
    requires Path(s, steps, s') && AnchoredRun(u, s, steps) && Lasts(s, steps, id)
    ensures id in s.vault.truth.records && id in s'.vault.truth.records
    ensures RecordKey(u, s'.vault.truth.records[id]) == RecordKey(u, s.vault.truth.records[id])
  {
    hide RecordKey, IsAnchored, Enabled, Do;
    assert steps[..|steps|] == steps && steps[..0] == [];
    if steps == [] {
    } else {
      var n := |steps| - 1;
      var front, mid := steps[..n], Exec(s, steps[..n]).value;
      assert forall i | 0 <= i <= n :: front[..i] == steps[..i];
      assert forall i: nat | i < n :: AnchoredAt(u, s, steps, i) ==> AnchoredAt(u, s, front, i);
      assert AnchoredAt(u, s, steps, n);
      RunKeepsKey(u, s, front, mid, id);
      StepKeepsKey(u, mid, steps[n], id);
    }
  }

  // ----- secrets never reach disk ---------------------------------------------------------

  ghost predicate CleanVault(v: Vault) {
    && (forall c | c in v.truth.chunks :: Clean(v.truth.chunks[c].text, SECRET_PATTERNS))
    && (forall i | 0 <= i < |Rows(v.index)| :: Clean(Rows(v.index)[i].text, SECRET_PATTERNS))
  }

  lemma StoredTextIsClean(ocr: string)
    ensures Clean(StoredText(ocr), SECRET_PATTERNS)
  {
    hide Redacted, ContainsSecret;
    RedactionIsClean(ocr);
  }

  lemma AddRowsKeepsClean(v: Vault, batch: seq<string>)
    requires CleanVault(v) && IsBatch(v.truth, batch)
    requires forall c | c in batch :: v.truth.chunks[c].recordId in v.truth.records
    ensures CleanVault(v.(index := Table(Rows(v.index) + JoinRows(v.truth, batch, v.dim))))
  {
    hide Clean;
    var rows := Rows(v.index) + JoinRows(v.truth, batch, v.dim);
    forall i | 0 <= i < |rows| ensures Clean(rows[i].text, SECRET_PATTERNS) {
      var kept := |Rows(v.index)|;
      if i >= kept {
        assert batch[i - kept] in batch;
        assert rows[i] == JoinRow(v.truth, batch[i - kept], v.dim);
      }
    }
  }

  lemma DeleteRowsKeepsClean(v: Vault, ids: set<string>)
    requires CleanVault(v)
    ensures CleanVault(v.(index := IndexWithoutRecords(v.index, ids)))
  {
    hide Clean;
    var rows := Rows(IndexWithoutRecords(v.index, ids));
    forall i | 0 <= i < |rows| ensures Clean(rows[i].text, SECRET_PATTERNS) {
      WithoutRecordsMembers(Rows(v.index), ids, rows[i]);
      assert rows[i] in Rows(v.index);
    }
  }

  lemma StepKeepsClean(u: Unicode, s: System, step: Step)
    requires CleanVault(s.vault) && Enabled(s, step) && FromWritePath(u, s.vault.truth, step)
    ensures CleanVault(Do(s, step).vault)
  {
    hide Clean, StoredText, MergedStory;
    var v := s.vault;
    match step
    case Insert(id, record, cs) =>
      var ocr: string :| cs[0].text == StoredText(ocr);
      StoredTextIsClean(ocr);
      WithChunksContents(v.truth.chunks, id, cs);
      assert ChunkIds(cs) == {cs[0].id};
    case Merge(rid, cid, incoming, text) =>
      var ocr: string :| text == MergedStory(u, v.truth.chunks[cid].text, StoredText(ocr), MAX_STORY_CHARS);
      StoredTextIsClean(ocr);
      BuiltInPatternsAreRobust();
      StoryIsClean(u, v.truth.chunks[cid].text, StoredText(ocr), MAX_STORY_CHARS, SECRET_PATTERNS);
    case AddRows(batch) => AddRowsKeepsClean(v, batch);
    case DeleteRows(ids) => DeleteRowsKeepsClean(v, ids);
    case _ =>
  }

  ghost predicate WrittenByWritePath(u: Unicode, s: System, steps: seq<Step>) {
    forall i | 0 <= i < |steps| && Exec(s, steps[..i]).Some? ::
      FromWritePath(u, Exec(s, steps[..i]).value.vault.truth, steps[i])
  }

  lemma {:induction false} RunKeepsClean(u: Unicode, s: System, steps: seq<Step>, s': System)
    requires CleanVault(s.vault) && Path(s, steps, s') && WrittenByWritePath(u, s, steps)
    ensures CleanVault(s'.vault)
  {
    hide CleanVault, FromWritePath, Enabled, Do;
    if steps == [] {
    } else {
      var n := |steps| - 1;
      var front, mid := steps[..n], Exec(s, steps[..n]).value;
      assert forall i | 0 <= i < n :: front[..i] == steps[..i] && front[i] == steps[i];
      RunKeepsClean(u, s, front, mid);
      StepKeepsClean(u, mid, steps[n]);
    }
  }

  /** Over every run of captures, merges, flushes, deletions, rebuilds and crashes, no chunk text
      in SQLite and no row text in Lance ever holds a built-in secret pattern. */
  lemma SecretsNeverReachDisk(u: Unicode, dim: nat, steps: seq<Step>, s': System)
    requires Path(Fresh(dim), steps, s') && WrittenByWritePath(u, Fresh(dim), steps)
    ensures CleanVault(s'.vault)
  {
    RunKeepsClean(u, Fresh(dim), steps, s');
  }

  /** Captures leave one-chunk records, which is what the exactly-once guarantee asks of a run. */
  lemma WritePathInsertsOneChunk(u: Unicode, s: System, steps: seq<Step>, s': System)
    requires Path(s, steps, s') && WrittenByWritePath(u, s, steps)
    ensures OneChunkInserts(steps)
  {
    forall i | 0 <= i < |steps| && steps[i].Insert? ensures |steps[i].chunks| <= 1 {
      PrefixRuns(s, steps, s', i);
      assert FromWritePath(u, Exec(s, steps[..i]).value.vault.truth, steps[i]);
    }
  }

  // ----- record fields are not redacted -------------------------------------------------------

  ghost predicate CleanFields(r: Record) {
    && Clean(r.appName, SECRET_PATTERNS) && Clean(r.windowTitle, SECRET_PATTERNS)
    && (r.url.Some? ==> Clean(r.url.value, SECRET_PATTERNS))
  }

  /** The fields a capture hands on: app name, title, and what is left of the URL. */
  ghost predicate CleanCapture(web: Web, c: Capture) {
    && Clean(c.appName, SECRET_PATTERNS) && Clean(c.windowTitle, SECRET_PATTERNS)
    && (c.url.Some? && web.sanitize(c.url.value).Some? ==> Clean(web.sanitize(c.url.value).value, SECRET_PATTERNS))
  }

  /** Redaction is for texts. Whether by insert or by merge, a stored record's fields are clean exactly when
      the capture's app name, title and sanitized URL are. */
  lemma StoredFieldsAreCleanIff(web: Web, c: Capture, s: System, step: Step, id: string)
    requires Enabled(s, step)
    requires (step.Insert? && step.id == id && step.record == RecordFor(web, c))
             || (step.Merge? && step.recordId == id && step.incoming == RecordFor(web, c))
    ensures id in Do(s, step).vault.truth.records
    ensures CleanFields(Do(s, step).vault.truth.records[id]) <==> CleanCapture(web, c)
  {
    hide Clean;
  }

  /** The gate lets this capture through, and its title goes to disk as it is. */
  lemma TitlesAreNotRedacted(web: Web, c: Capture)
    requires c.appName == "x" && c.windowTitle == "ghp_" && c.bundleId.None? && c.url.None?
    requires HostFromUrl(web, "").None?
    ensures !IsRefused(web, Blocklist([], []), c)
    ensures !CleanCapture(web, c)
  {
    hide HostFromUrl, Contains, MatchesDomainSuffix, MatchesDomainLabel, BlocksApp, BlocksUrl, Clean, IsRefused;
    GateAnswersIff(web, Blocklist([], []), c);
    assert LowerAscii("x") == "x" && LowerAscii("ghp_") == "ghp_" && LowerAscii("") == "";
    EmptyListBlocksNothing(web, "x");
    NoHostNoSite(web);
    LongerIsNotContained("x", PASSWORD_MANAGER_NAMES);
    LongerIsNotContained("", AUTH_INDICATORS);
    LongerIsNotContained("ghp_", ["incognito", "private"]);
    assert "incognito" in ["incognito", "private"] && "private" in ["incognito", "private"];
    TokenIsNoLogin();
    assert "ghp_" in SECRET_PATTERNS;
    PatternIsDirty("ghp_", SECRET_PATTERNS);
  }

  /** Stored into an empty vault, such a capture leaves a record that holds a secret pattern. */
  lemma DirtyTitleIsStored(web: Web, c: Capture, dim: nat)
    requires c.appName == "x" && c.windowTitle == "ghp_" && c.bundleId.None? && c.url.None?
    requires HostFromUrl(web, "").None?
    ensures var s, step := Fresh(dim),
                           Insert(c.recordId, RecordFor(web, c), [NewChunk(c.chunkId, 0, StoredText(c.ocrText))]);
            && Enabled(s, step) && FromWritePath(web.unicode, s.vault.truth, step)
            && c.recordId in Do(s, step).vault.truth.records
            && !CleanFields(Do(s, step).vault.truth.records[c.recordId])
  {
    hide HostFromUrl, CleanCapture, CleanFields, StoredText, RecordFor, IsRefused;
    var s, step := Fresh(dim), Insert(c.recordId, RecordFor(web, c), [NewChunk(c.chunkId, 0, StoredText(c.ocrText))]);
    TitlesAreNotRedacted(web, c);
    StoredFieldsAreCleanIff(web, c, s, step, c.recordId);
  }

  lemma EmptyListBlocksNothing(web: Web, app: string)
    ensures !BlocksApp(Blocklist([], []), web.unicode, app) && !BlocksUrl(Blocklist([], []), web, "")
  {
  }

  lemma NoHostNoSite(web: Web)
    requires HostFromUrl(web, "").None?
    ensures !MatchesDomainSuffix(web, "", FINANCIAL_DOMAINS) && !MatchesDomainLabel(web, "", MEDICAL_DOMAIN_MARKERS)
  {
  }

  lemma LongerIsNotContained(hay: string, needles: seq<string>)
    requires forall i | 0 <= i < |needles| :: |needles[i]| > |hay|
    ensures forall n | n in needles :: !Contains(hay, n)
    ensures !ContainsAny(hay, needles)
  {
  }

  lemma TokenIsNoLogin()
    ensures !ContainsAny("ghp_", AUTH_INDICATORS)
  {
    forall n | n in AUTH_INDICATORS ensures !Contains("ghp_", n) {
      assert 'a' in n || 'o' in n || 's' in n;
      MissingLetter("ghp_", n, if 'a' in n then 'a' else if 'o' in n then 'o' else 's');
    }
  }
}
