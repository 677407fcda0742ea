# FNDR: a verified model of the capture-to-memory core

FNDR captures what is on the owner's screen, filters it, and keeps it in two local stores: SQLite holds the
truth (records and their text chunks) and Lance holds a derived index of embedded rows. This project models the
parts whose correctness depends on ordering, state and history, and proves what they promise over every run.

- **Two stores, one protocol** (`Vault`, `Protocol`, `Guarantees`, `Store`, `LanceWriter`, `Deletion`, `Scheduler`,
  `Session`).
  `Protocol` is a machine of durable effects (insert, merge, create table, add rows, stamp, delete rows, delete
  records, drop, reset) in which the process may stop between any two effects of one operation. The classes `Store`
  and `LanceWriter` update their state in place and hand back, as ghost data, exactly the effects they performed, on
  success and on every failure. `Session` composes any calls, each succeeding or failing anywhere, and states the
  guarantees once for what they leave behind, crashes included.
- **What may be stored** (`Text`, `Blocklist`, `SafetyGate`, `Story`, `Continuity`, `WritePath`). The privacy gate,
  line redaction, anchors and merge scores, the deterministic merge of two texts, and `PersistCapture`, which
  composes them over the store.
- **The model-worker queue** (`ModelWorker`): submitters, a priority queue, one worker, lazy load, idle unload,
  shutdown, each as atomic sections.
- **The capture loop** (`NativeSampling`, `Dedup`, `Pipeline`, `Sampling`, `CaptureWorker`): index arithmetic of the
  frame sample, both dedup windows against full histories, one tick with its counters, and the worker loop driven by
  arbitrary clock, idle and command readings.
- **Smaller cores** (`RateWindow`, `Downloader`, `Sentences`): the fixed-window limiter, the resumable verified
  download over any number of interrupted attempts, and sentence splitting with budgeted packing.

`Wrappers` and `Arithmetic` hold shared helpers. Methods follow the source's loops and mutations and are proved
against functions; what the source promises is then proved of those functions and of whole runs. What each function
computes is also stated without its name, by positions in a text, entries of a map, quantifiers and literal limits: what
a merge writes (`Store.MergePendingCapture`, `WritePath.PersistCapture`), what the gate refuses (`GateSkipsIff`), what a
segment, a token, a line or a sentence is (`SegmentsAre`, `TokensAre`, `LinesSpellText`, `SentencesAre`), which host a
URL has (`HostOfUrl`, `PlainDomainStays`), what a flush takes (`SelectionIsOldestFirst`) and what a tick or a turn
answers (`TickAnswers`, `TicksIff`).

## Assumptions

An embedder that answers returns one vector for each text (`Honest`); a Lance call that returns an error has changed
nothing; a SQLite transaction commits whole or not at all; foreign keys hold (`Consistent`); URL parsing, Unicode
lower-casing and the alphanumeric test, SHA-256, the content hash and the admission table are parameters of which
nothing is assumed except what `Text.Unicode` states. Clocks are nondecreasing only where a contract says so.

## What the proofs found

- A stamp of 0 is the pending marker. `flush_on_shutdown` and `rebuild` drain for every other stamp; the drain in
  `crates/fndr-bench/src/lib.rs:233-237` passes 0 and never ends once anything is pending (`ZeroStampNeverDrains`).
- The crash window documented between the Lance commit and the stamp is one of three. A stop between the Lance half
  and the SQLite half of a deletion, and one between the drop and the reset of a rebuild, leave stamped chunks
  without rows (`StopKeepsExactIff`, `StampedIsIndexedIff`). Rebuilding repairs all three, from any index contents.
- Merging in place is safe because captures have one chunk. For a record with a stamped sibling chunk a merge that
  moves the capture time makes the sibling's row stale (`MergeKeepsExactIff`).
- An owner's patterns redact every text exactly when none matches the marker and each pattern with a line feed in it
  has a line that itself holds a pattern (`PolicyRedactsIff`). A pattern such as "secret", which is in the marker, or
  one of two lines defeats redaction (`MarkerDefeatsRedaction`, `LineFeedDefeatsRedaction`); no built-in one does.
- Redaction is for texts. A record's app name, title and sanitized URL are stored as they are, so they are free of
  secret patterns exactly when the capture's were (`StoredFieldsAreCleanIff`); a title "ghp_" passes the gate and goes
  to disk (`TitlesAreNotRedacted`).
- The anchor host is the host up to its first colon, so it is the host exactly when the host has no colon
  (`AnchorHostIsCut`). Of a bracketed IPv6 address only the first group is left: captures of [2001:db8::1] and
  [2001:4860::8888] share their anchors (`IPv6HostsCollide`, `UrlsShareAnchorIff`) and merge if they differ in
  nothing else (`DifferentHostsMergeIff`).
- The comment at `crates/fndr-memory/src/continuity.rs:107-109` says that an anchor never uses a query or fragment. It
  leaves them out exactly when the URL has a path or no segment follows their first slash (`AnchorLeavesQueryOutIff`):
  the one path segment in the anchor of `https://a.com?x=/secret` is "secret" (`SecretInAnchor`). The write path hands
  on sanitized URLs only, which have neither.
- A merge looks at the newest 64 pending captures of 45 minutes. While the backlog is larger, as in an embedder outage,
  an older capture is never merged into, whatever it says (`SmallBacklogIsCovered`, `BeyondTheNewest64`).
- On the write path the second gate evaluation never skips (`TextNeverSkips`) and snippet anchors never occur
  (`NoSnippetAnchors`); in sentence splitting the fallback to the whole block never runs (`SentenceOfNonBlank`).
- The semantic window skips exactly when the last earlier observation of the content was within the window of every
  later call and is of this one (`WindowAnswersAsHistory`). A clock that steps back can make it forget: content seen at
  0, other content seen at w + 1, the first again at w, and it is not skipped (`BackwardClockForgets`). With a
  nondecreasing clock that cannot happen (`RisingClockSkipsIffSeen`).
- An observation occupies the semantic window whatever became of it. After a failed write the next observation of the
  same content is offered to the sink exactly when it, or an observation in between, comes more than a window later
  (`NextObservationIsOfferedIff`).
- Starting the worker checks the active interval only. An accepted policy can capture twice in one millisecond exactly
  when it has no forced interval, or no idle interval and an idle range below the deep-idle one, and deep idle does not
  begin at once (`StartCheckAdmitsBurstsIff`).
- While crashes repeat, a chunk gathers at most one row for each stop between the Lance commit and the stamp, and one
  more (`RowsAreBounded`); while nothing is deleted or dropped it gathers exactly those (`CaptureRowsAreCounted`).
- Evidence described as capped at `max_chars` may exceed it by up to two characters (`EvidenceOverrunsIff`): asked for
  13 characters of "Reviewed it. Decided too." it returns 15 (`CompressionOverruns`).
- The limiter's counter is a 64-bit word: a window admits more than its rate exactly when it sees more than 2^64 calls
  (`WindowExceedsIff`).
- The part file is named by replacing the extension, so two destinations with one stem share it. A part file of foreign
  bytes is harmless: it costs at most one failed attempt (`TwoAttemptsSuffice`).

## Model

| member | source | states |
|---|---|---|
| Guarantees.AtLeastOnce | crates/fndr-store/src/lance_writer.rs:125-200 | over every run of captures, merges and flushes, stopped anywhere, each stamped chunk has a Lance row with its present id, record, order and text |
| Guarantees.AtLeastOnceWithRecord | crates/fndr-memory/src/write_path.rs:107-122 | for the one-chunk records captures write, some row has the chunk's id, record, order and text and the record's present source and capture time |
| Guarantees.StampedIsIndexedIff | crates/fndr-store/src/lance_writer.rs:188-261 | over every run at all, a stamped chunk is currently indexed exactly when no interrupted deletion or rebuild took its rows away |
| Guarantees.CompleteWindowsLoseNothing | crates/fndr-store/src/deletion.rs:25-40 | the only two windows that lose rows are after the Lance half of a deletion and after the drop of a rebuild |
| Guarantees.NeverOrphans | crates/fndr-store/src/deletion.rs:31-35 | whatever stops inside whatever operation, every Lance row's chunk and record still exist in SQLite |
| Guarantees.RowsAreBounded | crates/fndr-store/src/lance_writer.rs:188-194 | over every run a chunk has at most as many rows as it was stopped between the commit and the stamp or stamped with 0, plus one once it is stamped |
| Guarantees.CaptureRowsAreCounted | crates/fndr-store/src/lance_writer.rs:188-194 | over every run of captures, merges and flushes, stopped anywhere, a chunk has exactly that many rows |
| Guarantees.ExactlyOnce | crates/fndr-store/src/lance_writer.rs:188-261 | over every run that stops in no window, the index holds the join of each stamped chunk once and nothing else |
| Guarantees.ExactIsBijection | crates/fndr-store/src/lance_writer.rs:168-200 | that exactness means as many rows as stamped chunks, one per chunk, and no row for a pending chunk |
| Guarantees.MergeKeepsExactIff | crates/fndr-store/src/store.rs:379-412 | a merge keeps the index exact if and only if the record has no stamped chunk or keeps its capture time |
| Guarantees.StopKeepsExactIff | crates/fndr-store/src/lance_writer.rs:190-194 | a stop keeps the index exact if and only if no batch was unstamped, no deletion half done and no dropped table still had stamped chunks |
| Guarantees.StepKeepsExact | crates/fndr-store/src/lance_writer.rs:125-261 | every single effect outside those windows keeps exactness, phase by phase |
| Guarantees.RunKeepsExact | crates/fndr-store/src/lance_writer.rs:125-261 | and so does every run of them, from any exact state |
| Guarantees.RunKeepsInvariant | crates/fndr-store/src/lance_writer.rs:125-261 | every run keeps foreign keys, row ownership and the account of stamped chunks |
| Protocol.CrashAnywhere | crates/fndr-store/src/lance_writer.rs:188-194 | a crash after any effect of an operation, and a restart from what is on disk, is again a run, so every guarantee about runs covers it |
| Protocol.StepKeepsInvariant | crates/fndr-store/src/lance_writer.rs:125-261 | each durable effect keeps them, including a stop between two effects |
| Vault.WithoutRecordsCount | crates/fndr-store/src/lance_writer.rs:207-229 | deleting by record removes every copy of the rows of those records and no copy of any other row |
| Vault.JoinRowsCount | crates/fndr-store/src/lance_writer.rs:168-188 | a batch adds the join of each of its chunks once |
| Vault.SelectionIsOldestFirst | crates/fndr-store/src/store.rs:323-344 | a limited selection of pending chunks is ordered by capture time, then chunk order, and leaves out none that was captured before one in it |
| Store.Store.InsertCapture | crates/fndr-store/src/store.rs:272-303 | a capture commits with all its chunks pending and nothing else changed, or on any taken key nothing changes |
| Store.Store.PendingChunks | crates/fndr-store/src/store.rs:323-344 | the oldest pending chunks, at most the limit, in capture and chunk order, each with its present text and record fields |
| Store.Store.PendingContinuityCandidates | crates/fndr-store/src/store.rs:349-374 | the newest pending first chunks of records captured at or after a time, at most 64, each with its present fields |
| Store.SelectionIsNewestFirst | crates/fndr-store/src/store.rs:349-374 | no such chunk that is left out is newer than one picked, and fewer than the limit leaves out none |
| Store.Store.MergePendingCapture | crates/fndr-store/src/store.rs:379-412 | exactly when the chunk is the record's and still pending, the chunk gets the text and keeps record, order and stamp, the record gets app, bundle, URL, title and time and keeps session, source and creation time, and nothing else changes; otherwise false and no change |
| Store.Store.MarkChunksFlushed | crates/fndr-store/src/store.rs:456-470 | exactly the named chunks get the stamp, and nothing else changes |
| Store.Store.ResetFlushState | crates/fndr-store/src/store.rs:473-477 | every chunk becomes pending again, and the answer is how many there are |
| Store.Store.RecordIdsForDelete | crates/fndr-store/src/store.rs:483-541 | a scope resolves, exactly when it is well formed and readable, to the records it covers, once each and in id order: those listed, those in the closed range, those whose hosts end with the labels of a plain domain, or all; a reversed range or an empty domain is refused |
| Store.DomainScopeIff | crates/fndr-store/src/store.rs:515-536 | a plain domain covers a record whose URL parses exactly when the lower-cased host ends with its labels, and none without a URL |
| Store.SortIds | crates/fndr-store/src/store.rs:498-499 | the ids of a set in code point order, each once |
| Store.Store.DeleteRecords | crates/fndr-store/src/store.rs:546-554 | the records and their chunks go and all others stay as they are, the answer is how many of the distinct ids existed |
| Store.SelectOrdered | crates/fndr-store/src/store.rs:323-344 | an ordered, limited selection: distinct, sorted, and nothing left out precedes anything picked |
| LanceWriter.LanceWriter.OpenOrCreateTable | crates/fndr-store/src/lance_writer.rs:90-120 | opening keeps the rows; creating may succeed and still report an error from its indexes |
| LanceWriter.LanceWriter.FlushOnce | crates/fndr-store/src/lance_writer.rs:125-200 | succeeds exactly when every outside call cooperates; then the oldest 256 pending chunks have one row more each, with their present fields, and the stamp, and nothing else changes; succeeding or failing, its effects are exactly `FlushSteps`, a failure leaves SQLite as it was, and no row is ever lost |
| LanceWriter.LanceWriter.ReadAndEmbed | crates/fndr-store/src/lance_writer.rs:130-149 | the oldest pending chunks with a vector of the right length each, exactly when the read and the embedder answer so; a store error means that the read failed, and Lance is not called |
| LanceWriter.LanceWriter.AddThenStamp | crates/fndr-store/src/lance_writer.rs:186-194 | Lance commits first: nothing, or the rows and the stamp, or the rows and a stop; both stores are stated for each |
| LanceWriter.LanceWriter.DeleteRecords | crates/fndr-store/src/lance_writer.rs:207-229 | the rows of the records go, the answer counts them, a missing table is a success |
| LanceWriter.LanceWriter.Rebuild | crates/fndr-store/src/lance_writer.rs:235-261 | from any index contents, success leaves an exact index, every chunk stamped, chunks = number of chunks and batches = ceil(chunks / 256); with an embedder that answers it succeeds exactly when the drop, the reset, each of those batches and the final read do; a failure never touches a record or a text: the truth is as it was, or reset and stamped for the chunks done, each of which has its row |
| LanceWriter.LanceWriter.DropAndReset | crates/fndr-store/src/lance_writer.rs:241-246 | the table goes before the stamps: nothing, or both, or the drop and a stop; both stores are stated for each |
| LanceWriter.RebuildFails | crates/fndr-store/src/lance_writer.rs:248-259 | a round fails only where the whole rebuild was bound to |
| LanceWriter.NonzeroStampDrains | crates/fndr-store/src/lance_writer.rs:246-259 | with a nonzero stamp, k flushes leave exactly pending - 256 k chunks pending, or none |
| LanceWriter.ZeroStampNeverDrains | crates/fndr-bench/src/lib.rs:233-237 | with a stamp of 0 no flush is ever empty, nothing leaves the backlog and the index grows with every round |
| LanceWriter.FlushKeepsExact | crates/fndr-store/src/lance_writer.rs:125-200 | a completed flush keeps an exact index exact |
| LanceWriter.FlushKeepsIndexed | crates/fndr-store/src/lance_writer.rs:186-194 | a completed flush keeps every stamped chunk indexed by its present row |
| LanceWriter.AfterFlushIs | crates/fndr-store/src/lance_writer.rs:168-200 | a completed flush appends the rows of its batch in order and stamps just those chunks |
| LanceWriter.DrainRound | crates/fndr-store/src/lance_writer.rs:246-259 | each round of a drain lowers the backlog and keeps the account of chunks and batches |
| LanceWriter.DrainEnds | crates/fndr-store/src/lance_writer.rs:246-259 | when the backlog is empty, the count is the initial backlog and the batches are its ceiling |
| LanceWriter.ResetIsExact | crates/fndr-store/src/lance_writer.rs:239-245 | dropping the table and resetting every stamp is an exact state, whatever came before |
| Deletion.DeleteEverywhere | crates/fndr-store/src/deletion.rs:25-40 | succeeds exactly when the scope is well formed, SQLite answers, and Lance does or nothing is in scope; then the scope is gone from both stores, by plain domain every record whose host ends with its labels and no other, and both counts are right; a failure leaves SQLite as it was and the index as it was or without the rows in scope, and the effects are exactly `DeleteSteps` |
| Deletion.DeletionRemovesExactly | crates/fndr-store/src/deletion.rs:31-39 | nothing of the scope remains, row, record or chunk, and everything else is untouched with its multiplicity |
| Deletion.RebuildCannotResurrect | crates/fndr-store/src/lance_writer.rs:231-261 | an exact index has no row of a record the truth lacks |
| Scheduler.CaptureScheduler.TickFlush | crates/fndr-shell/src/capture_scheduler.rs:104-136 | a flush happens exactly when due, succeeds exactly when every outside call cooperates, and then adds and stamps one batch; successful ones are at least the interval apart, and a failure keeps the old time, the truth and every row; the effects are those of one flush, or none |
| Scheduler.CaptureScheduler.FlushOnShutdown | crates/fndr-shell/src/capture_scheduler.rs:116-126 | the drain ends with nothing pending and returns the initial backlog; with an embedder that answers it succeeds exactly when each of ceil(pending / 256) batches and the final read do; a failure stamps only what was flushed; either way stamped chunks stay indexed, and every effect is one of a flush |
| Scheduler.StampFor | crates/fndr-shell/src/capture_scheduler.rs:138-145 | the stamp is 0 only for a clock of 0, and saturates |
| Session.Perform | crates/fndr-store/src/lance_writer.rs:125-261 | any one call, persist, flush tick, drain, deletion or rebuild, whatever becomes of it, performs a run of write-path steps: of capture steps unless it deletes or rebuilds, and without a stop if SQLite goes through whenever Lance has |
| Session.RunSession | crates/fndr-shell/src/capture_scheduler.rs:104-136 | after any calls in any order, each succeeding or failing anywhere: no orphan rows and no secret patterns; every stamped chunk indexed by its present row if nothing was deleted or rebuilt; an exact index if no call stopped in a window |
| Session.ReachedIsSound | crates/fndr-store/src/lance_writer.rs:188-261 | those guarantees of every state that any run through the write path reaches |
| Session.CrashedIsReached | crates/fndr-store/src/lance_writer.rs:188-194 | a crash after any effect of any call leaves such a state, from which a session starts again |
| Session.FreshIsReached | crates/fndr-store/src/lance_writer.rs:188-194 | and a session may start from a new store and a new writer |
| Blocklist.MatchesIffLabelSuffix | crates/fndr-privacy/src/blocklist.rs:60-65 | the byte-level suffix test holds exactly when the suffix's labels end the host's labels |
| Blocklist.LabelsAfterDot | crates/fndr-privacy/src/blocklist.rs:58-65 | the labels come in order, those before a dot and those after it |
| Blocklist.OneLabel | crates/fndr-privacy/src/blocklist.rs:58-65 | and a host without a dot is one label |
| Blocklist.MatchingIsPartialOrder | crates/fndr-privacy/src/blocklist.rs:60-65 | matching is reflexive, antisymmetric and transitive |
| Blocklist.BlocksUrlIff | crates/fndr-privacy/src/blocklist.rs:146-153 | a list blocks exactly the hosts that end with the labels of one of its entries |
| Blocklist.HostOfUrl | crates/fndr-privacy/src/blocklist.rs:67-72 | the host of a URL is the one the parser finds, lower-cased, and without one the text is read as a domain |
| Blocklist.PlainDomainStays | crates/fndr-privacy/src/blocklist.rs:47-56 | a trimmed lower-case domain without leading dot, slash or colon is stored as it is |
| Blocklist.DomainOfEntry | crates/fndr-privacy/src/blocklist.rs:47-56 | leading dots and a path or port behind such a domain are dropped |
| Blocklist.DomainOfUrl | crates/fndr-privacy/src/blocklist.rs:47-56 | a pasted URL stands for its host |
| Blocklist.BlocksParsedUrlIff | crates/fndr-privacy/src/blocklist.rs:146-153 | a list of plain domains blocks a URL that parses exactly when one of them ends the labels of its host |
| Blocklist.BlocksUnparsedUrlIff | crates/fndr-privacy/src/blocklist.rs:146-153 | and a text that does not parse exactly when one ends its own labels |
| Blocklist.BlocksAppIff | crates/fndr-privacy/src/blocklist.rs:114-137 | a list blocks an app exactly when the tokens of an entry are a run of the tokens of its name |
| Blocklist.TokensAreWords | crates/fndr-privacy/src/blocklist.rs:36-41 | of a name that lower-casing leaves alone, the tokens are its words |
| Blocklist.DeletionSelectsCovered | crates/fndr-privacy/src/blocklist.rs:77-82 | deleting by domain covers exactly the hosts that end with its labels |
| Blocklist.DeletionSelectsBlocked | crates/fndr-store/src/store.rs:515-536 | deleting a domain selects exactly the URLs that blocking it refuses |
| SafetyGate.TextNeverSkips | crates/fndr-privacy/src/safety_gate.rs:195-257 | adding text to an allowed context can only turn the answer into a redaction |
| SafetyGate.GateSkipsIff | crates/fndr-privacy/src/safety_gate.rs:196-257 | the gate skips exactly when the owner's lists, FNDR's own bundle, a password manager, a private window, a financial host, a medical label or a login word applies, and names the first of them that does |
| SafetyGate.SecretsAreThese | crates/fndr-privacy/src/safety_gate.rs:51-65 | a text is clean exactly when none of the 13 patterns occurs in it, ignoring ASCII case |
| Text.LowerAsciiLetters | crates/fndr-privacy/src/safety_gate.rs:306-311 | lower-casing changes the 26 capital letters and nothing else |
| SafetyGate.MarkerIsClean | crates/fndr-privacy/src/safety_gate.rs:272-287 | the redaction marker holds none of the built-in patterns |
| SafetyGate.JoinIsCleanIff | crates/fndr-privacy/src/safety_gate.rs:272-287 | where no pattern contains a line feed, a joined text is clean exactly when its lines are |
| SafetyGate.TextIsCleanIffLines | crates/fndr-privacy/src/safety_gate.rs:272-311 | where no pattern contains a line feed, deciding on the whole text and redacting by lines agree, and the count is 0 exactly for a clean text |
| SafetyGate.LinesSpellText | crates/fndr-privacy/src/safety_gate.rs:274-276 | the lines of a text, each with its ending, are the text |
| SafetyGate.RedactSecretLinesMatching | crates/fndr-privacy/src/safety_gate.rs:272-287 | the loop keeps each clean line, puts the marker for each other one, and counts those |
| SafetyGate.RedactionIsCleanIff | crates/fndr-privacy/src/safety_gate.rs:265-287 | for patterns without a line feed, redaction of a text leaves it clean exactly when there was nothing to redact or the marker is clean |
| SafetyGate.PolicyRedactsIff | crates/fndr-privacy/src/safety_gate.rs:125-149 | a policy's patterns, as it normalizes them, redact every text exactly when the marker is clean and each pattern with a line feed has a line that holds a pattern |
| SafetyGate.NormalizedWordsAreNormal | crates/fndr-privacy/src/safety_gate.rs:132-138 | stored patterns are nonempty, lower case, and end in no line break |
| SafetyGate.MarkerDefeatsRedaction | crates/fndr-privacy/src/safety_gate.rs:265-287 | under the policy "secret" every redacted line still matches |
| SafetyGate.LineFeedDefeatsRedaction | crates/fndr-privacy/src/safety_gate.rs:272-287 | under any policy of one two-line pattern, the pattern itself is returned unredacted |
| SafetyGate.CleanLinesDefeatRedaction | crates/fndr-privacy/src/safety_gate.rs:272-287 | under any policy, a pattern with no line that holds a pattern comes out whole for some text |
| SafetyGate.RedactionIsClean | crates/fndr-privacy/src/safety_gate.rs:259-287 | with the built-in patterns it always does |
| SafetyGate.BulletJoinIsClean | crates/fndr-memory/src/continuity.rs:203-240 | joining two clean texts with a bullet completes no pattern |
| Story.MergeStoryText | crates/fndr-memory/src/continuity.rs:203-240 | the loop over segments computes the merged story, never longer than the limit |
| Story.StoryIsClean | crates/fndr-memory/src/continuity.rs:203-240 | merging two clean texts, with its trims, bullets and truncation, stays clean |
| Story.StoryKeepsExisting | crates/fndr-memory/src/continuity.rs:203-240 | the stored text stays the beginning of the story unless the incoming text already says all of it |
| Story.SelfMergeIsIdentity | crates/fndr-memory/src/continuity.rs:214-216 | merging a text with itself gives the trimmed text within the limit |
| Story.StoryTellsEverySegment | crates/fndr-memory/src/continuity.rs:203-240 | unless the merged story filled up: it is the incoming text; or the existing one, which said all of the incoming; or the existing one and segments of the incoming, bulleted, where each stretch of at least 12 bytes between breaks stands word for word or its normal form lies in that of the existing text followed by those of the segments taken |
| Story.SegmentsAre | crates/fndr-memory/src/continuity.rs:222-225 | the segments are exactly the trimmed stretches between line feeds and ends of sentences that have at least 12 bytes |
| Story.SegmentsAtBreak | crates/fndr-memory/src/continuity.rs:222-225 | they come in the order of the text: those before a break, then those after it |
| Story.SegmentsOfStretch | crates/fndr-memory/src/continuity.rs:222-225 | a text without a break is one segment if it has 12 bytes, else none |
| Story.NormalFormIs | crates/fndr-memory/src/continuity.rs:398-403 | the normal form is the lower-cased words in order with single spaces, and is empty only without words |
| Text.TrimTakesSpace | crates/fndr-memory/src/continuity.rs:204-205 | trimming takes whitespace from the ends and nothing else |
| Text.WhitespaceIs | crates/fndr-memory/src/continuity.rs:398-403 | whitespace is the 25 characters of the White_Space property |
| Story.StoryIsBulleted | crates/fndr-memory/src/continuity.rs:222-239 | the story is the existing text and the segments taken, bulleted, in their order |
| Continuity.RenderIsInjective | crates/fndr-memory/src/continuity.rs:110-127 | anchor strings decode uniquely |
| Continuity.SameAnchorIff | crates/fndr-memory/src/continuity.rs:110-127 | equal anchors mean equal hosts and first three path segments, or equal app key and leading tokens |
| Continuity.TitleKeyIs | crates/fndr-memory/src/continuity.rs:122-127 | without a host the anchor is the first eight title tokens from 8 bytes on, else the first eight snippet tokens from 10 |
| Continuity.AppKeyIs | crates/fndr-memory/src/continuity.rs:307-329 | an app key is the runs of letters and digits of the lower-cased name, or "unknown" |
| Continuity.TokensAre | crates/fndr-memory/src/continuity.rs:349-356 | the tokens are exactly the whole runs of letters and digits of the lower-cased text with more than two bytes that are no stop words |
| Continuity.TokensAtBreak | crates/fndr-memory/src/continuity.rs:331-338 | and they come in the order of the text |
| Continuity.OverlapIsShare | crates/fndr-memory/src/continuity.rs:340-347 | the overlap is the one number that, times all tokens, gives the common ones |
| Continuity.LexicalIs | crates/fndr-memory/src/continuity.rs:137-146 | the lexical score is 0.42, 0.26, 0.20 and 0.12 of the shares of snippets, titles, the first 1000 characters and shadows |
| Continuity.LexicalInUnit | crates/fndr-memory/src/continuity.rs:137-168 | the lexical score is symmetric and lies in [0, 1] |
| Continuity.ShouldMergeIsSymmetric | crates/fndr-memory/src/continuity.rs:173-188 | the decision and its score do not depend on which record came first |
| Continuity.MergesWithoutVectorIff | crates/fndr-memory/src/continuity.rs:173-198 | with similarity 0 a pair merges exactly when both have 36 bytes of text or 18 of snippet, share an anchor, are of one app or within 45 minutes and at one URL or of lexical score 0.52, and overlap by 3/7 (URL) or 13/21 (app): the other two arms are unreachable |
| Continuity.MergesWithVectorIff | crates/fndr-memory/src/continuity.rs:173-198 | with any similarity: substance, app or time and place, and the thresholds with and without an anchor, where the bound of 0.82 on the similarity never decides |
| Continuity.NoSnippetAnchors | crates/fndr-memory/src/write_path.rs:65-105 | a record whose snippet is its title never gets a snippet anchor |
| Continuity.AnchorHostIsCut | crates/fndr-memory/src/continuity.rs:282-288 | for any scheme, credentials, port and path the anchor host is the host up to its first colon, and is the host exactly when it has no colon |
| Continuity.UrlsShareAnchorIff | crates/fndr-memory/src/continuity.rs:110-127 | two URLs share an anchor exactly when the hosts agree up to the first colon, ignoring ASCII case, and the leading path segments agree |
| Continuity.AnchorLeavesQueryOutIff | crates/fndr-memory/src/continuity.rs:107-121 | the anchor keeps the leading path segments, and leaves out query and fragment exactly when there is a path or no segment follows their first slash |
| Continuity.AnchorHasThree | crates/fndr-memory/src/continuity.rs:290-305 | an anchor has the first three path segments |
| Continuity.SegmentsAtSlash | crates/fndr-memory/src/continuity.rs:290-305 | the path segments come in order, those before a slash and those after it |
| Continuity.EffectiveUrlIs | crates/fndr-memory/src/continuity.rs:269-280 | URLs are compared lower-cased without scheme, closing slashes, query and fragment |
| Continuity.AnchorRepeatsQuery | crates/fndr-memory/src/continuity.rs:107-121 | without a path, a word that the query holds after a slash becomes a segment of the anchor |
| Continuity.SecretInAnchor | crates/fndr-memory/src/continuity.rs:107-121 | for one, the segments of https://a.com?x=/secret are "secret" |
| Continuity.IPv6HostsCollide | crates/fndr-memory/src/continuity.rs:282-288 | bracketed addresses with one first group are cut alike, whatever follows |
| Continuity.DifferentHostsMergeIff | crates/fndr-memory/src/continuity.rs:173-198 | captures that differ in their URLs only merge exactly when those cut hosts and segments agree |
| WritePath.FilterText | crates/fndr-memory/src/write_path.rs:55-82 | a capture is refused exactly when a reason applies to its app, bundle, URL or title, for the first that does; otherwise a clean text is kept whole, and of any other each clean line and the marker for each other line |
| WritePath.MergeInto | crates/fndr-memory/src/write_path.rs:97-104 | the guarded update of a selected candidate always finds it: one merge of exactly the merged story, or an error and no change |
| WritePath.MergeIntoFirst | crates/fndr-memory/src/write_path.rs:85-105 | merges into the first candidate that continues the capture; none before it does, or none at all |
| WritePath.MergeIntoNewest | crates/fndr-memory/src/write_path.rs:85-105 | the merge goes to the first, newest first, of the newest 64 recent pending captures that this one continues; without a merge, and without an error, none of those 64 does |
| WritePath.PersistCapture | crates/fndr-memory/src/write_path.rs:55-129 | the outcome says what is in the store: skipped for the first reason that applies, always for an owner's entry, and nothing changed; a new record of the capture's fields with one pending chunk of the text kept, when none of the newest 64 recent pending captures continues; or the newest that does, its record refreshed and its chunk holding the merged story; an error only where SQLite refused or a key was taken |
| WritePath.OwnerListsIff | crates/fndr-privacy/src/safety_gate.rs:210-212 | the owner's lists refuse exactly the captures whose app an entry names or whose host an entry covers |
| WritePath.ContinuesIff | crates/fndr-memory/src/write_path.rs:85-98 | when a capture continues another, by the shares of their title and text tokens |
| WritePath.NewestAreRecent | crates/fndr-memory/src/write_path.rs:93-94 | the candidates are the newest 64 pending captures of the 45 minutes before |
| WritePath.NewerDoNotContinue | crates/fndr-memory/src/write_path.rs:85-105 | no recent pending capture newer than the one merged into continues this one |
| WritePath.SmallBacklogIsCovered | crates/fndr-memory/src/write_path.rs:85-105 | with at most 64 recent pending captures, an insert means that none of them continues |
| WritePath.BeyondTheNewest64 | crates/fndr-memory/src/write_path.rs:85-105 | a capture with 64 newer ones pending is never merged into |
| WritePath.MergesAreAnchored | crates/fndr-memory/src/write_path.rs:85-105 | every merge joins records of one anchor key: the same cut host and first path segments, or the same app key and title tokens |
| WritePath.MergedUrlsShareCutHost | crates/fndr-memory/src/write_path.rs:85-105 | merged URLs agree in the host up to its first colon, hence in the host where neither has one |
| WritePath.RunKeepsKey | crates/fndr-memory/src/write_path.rs:97-104 | over any run of anchored merges, with any crashes, a record keeps the anchor it was inserted with |
| WritePath.MergedWithIsAnchored | crates/fndr-memory/src/write_path.rs:97-104 | the write path's merges are such merges |
| WritePath.StepKeepsClean | crates/fndr-memory/src/write_path.rs:65-123 | each durable effect of the system keeps both stores free of secret patterns |
| WritePath.SecretsNeverReachDisk | crates/fndr-memory/src/write_path.rs:65-123 | over every run, no chunk text in SQLite and no row text in Lance ever holds a built-in secret pattern, ignoring ASCII case |
| WritePath.StoredFieldsAreCleanIff | crates/fndr-memory/src/write_path.rs:73-83 | a stored record's fields are free of secret patterns exactly when the capture's app name, title and sanitized URL are |
| WritePath.TitlesAreNotRedacted | crates/fndr-memory/src/write_path.rs:60-83 | the gate allows a capture whose title is a secret pattern, and hands the title on |
| WritePath.DirtyTitleIsStored | crates/fndr-memory/src/write_path.rs:107-122 | stored, that capture leaves a record with a secret pattern in its title |
| WritePath.WritePathInsertsOneChunk | crates/fndr-memory/src/write_path.rs:107-122 | captures leave one-chunk records, which the exactly-once guarantee needs |
| ModelWorker.TopIsServedFirst | crates/fndr-inference/src/model_worker.rs:58-67 | popping the greatest job leaves the rest of the stable order by priority |
| ModelWorker.ServiceOrderIsComplete | crates/fndr-inference/src/model_worker.rs:58-67 | the service order holds each queued job once and nothing else |
| ModelWorker.ServiceOrderIsSorted | crates/fndr-inference/src/model_worker.rs:58-67 | the service order is strictly descending in the job order |
| ModelWorker.ModelWorker.DrawNumber | crates/fndr-inference/src/model_worker.rs:108-110 | a call begins with a fresh number; every number is in exactly one place, and unanswered ones have a call in progress |
| ModelWorker.ModelWorker.Push | crates/fndr-inference/src/model_worker.rs:111-120 | the job moves from its submitter to the queue |
| ModelWorker.ModelWorker.Pop | crates/fndr-inference/src/model_worker.rs:202-212 | the worker takes the greatest queued job, whatever the order of the pushes |
| ModelWorker.ModelWorker.Serve | crates/fndr-inference/src/model_worker.rs:223-237 | the job is answered once; a failed load answers only its own job |
| ModelWorker.ModelWorker.IdleTimeout | crates/fndr-inference/src/model_worker.rs:213-219 | the idle unload changes nothing but the model |
| ModelWorker.ModelWorker.ServeAll | crates/fndr-inference/src/model_worker.rs:194-239 | with no further submissions the answers come in the stable order, from any queue state |
| ModelWorker.ModelWorker.Return | crates/fndr-inference/src/model_worker.rs:121-123 | a call returns with the answer to its own job, and only then |
| ModelWorker.ModelWorker.Shutdown | crates/fndr-inference/src/model_worker.rs:184-192 | once every submit call has returned, as dropping the handle needs, the queue is empty and every number ever drawn has its answer |
| NativeSampling.ProductsFit | crates/fndr-capture/src/dedup.rs:49-67 | for any word size, once the guards pass no unchecked product overflows and all bytes read are in bounds |
| NativeSampling.SamplesAreDistinct | crates/fndr-capture/src/dedup.rs:56-66 | two samples never read the same pixel |
| NativeSampling.SamplesReachTheCorners | crates/fndr-capture/src/dedup.rs:56-66 | the corners of the sample are the corners of the frame |
| NativeSampling.FromNativeRgba | crates/fndr-capture/src/dedup.rs:49-67 | a sample exists exactly when the frame is at least 9 by 8, its four bytes a pixel fit a machine word and are there; then byte c of sample (x, y) is that of pixel (x(w-1)/8, y(h-1)/7) |
| Dedup.SemanticDedupWindow.ShouldSkip | crates/fndr-capture/src/dedup.rs:134-147 | for every clock the pruned map skips exactly when the last earlier observation of the content was never out of the window; with a clock that does not run backwards, exactly what the full history has within the window |
| Dedup.WindowAnswersAsHistory | crates/fndr-capture/src/dedup.rs:134-147 | for every clock, a map that mirrors the history answers as it says |
| Dedup.WindowStaysAMirror | crates/fndr-capture/src/dedup.rs:134-147 | pruning and recording keep it a mirror, for every clock |
| Dedup.RisingClockSkipsIffSeen | crates/fndr-capture/src/dedup.rs:134-147 | with a clock that does not run backwards, skipping means that the content was seen within the window |
| Dedup.SkipsAreSeen | crates/fndr-capture/src/dedup.rs:134-147 | for every clock, nothing is skipped that was not seen within the window |
| Dedup.BackwardClockForgets | crates/fndr-capture/src/dedup.rs:134-147 | after one step back the window does not skip content that was seen within it |
| Dedup.PerceptualDeduper.ShouldSkip | crates/fndr-capture/src/dedup.rs:96-116 | the answer is a function of the last three observations, skipped or not |
| Dedup.RedundantIff | crates/fndr-capture/src/dedup.rs:96-110 | redundant is within the threshold of bits and 24 of colour of the last frame, or one bit less, at least one, and 20 of colour of any of the three |
| Dedup.HammingIs | crates/fndr-capture/src/dedup.rs:69-71 | the distance of two hashes is the number of places where they differ |
| Dedup.RepeatIsRedundant | crates/fndr-capture/src/dedup.rs:104-110 | a frame equal to one of the last three is always redundant, at any threshold |
| Dedup.LoopTestIsStricterIff | crates/fndr-capture/src/dedup.rs:97-110 | the loop test implies the test against the last frame exactly for thresholds of at least 1 |
| Pipeline.CapturePipeline.RunTick | crates/fndr-capture/src/pipeline.rs:260-342 | for every clock, every tick ends as the history of the run's inputs says, the first stage that stops it names the outcome, it calls the sink exactly when that history offers it, and a tick the gate or the admission table denied calls nothing |
| Pipeline.CapturePipeline.RunTickInner | crates/fndr-capture/src/pipeline.rs:266-342 | for every clock, a tick gives each window exactly what reaches its stage, and calls the sink exactly when its content passed them all |
| Pipeline.CapturePipeline.Record | crates/fndr-capture/src/pipeline.rs:188-202 | the counters agree with the outcomes, category by category |
| Pipeline.CountersSumToTicks | crates/fndr-capture/src/pipeline.rs:188-202 | after n ticks the counters sum to n |
| Pipeline.StoredApart | crates/fndr-capture/src/pipeline.rs:322-362 | with nondecreasing times, two stored outcomes of the same content are more than the window apart |
| Pipeline.OffersAreSpaced | crates/fndr-capture/src/pipeline.rs:322-362 | with nondecreasing times, an offer to the sink is more than a window after every earlier observation of its content |
| Pipeline.NextObservationIsOfferedIff | crates/fndr-capture/src/pipeline.rs:322-340 | for every clock, after any observation, a failed write included, the next one of its content is offered exactly when it, or an observation in between, comes more than the window later, and is a semantic duplicate otherwise |
| Pipeline.FirstObservationIsOffered | crates/fndr-capture/src/pipeline.rs:322-340 | the first observation of a content is always offered |
| Pipeline.NewTextIsOffered | crates/fndr-capture/src/pipeline.rs:300-340 | an admitted tick with a fresh frame and a recognized text whose hash differs from those of all earlier ticks calls the sink with that text |
| Pipeline.NewUrlIsOffered | crates/fndr-capture/src/pipeline.rs:345-362 | and so does a page of which only the URL is kept |
| Pipeline.TickAnswers | crates/fndr-capture/src/pipeline.rs:266-342 | the stages in order, each with its outcome |
| Pipeline.WithheldTicksDoNotInterfere | crates/fndr-capture/src/pipeline.rs:266-275 | ticks withheld before capture leave no trace: the sink receives what it would have received without them |
| Sampling.CapturesIff | crates/fndr-capture/src/sampling.rs:72-88 | deep idle never captures; otherwise a capture happens exactly when the forced interval or the one for this idle time has passed |
| Sampling.WaitIsLeastIff | crates/fndr-capture/src/sampling.rs:72-88 | waiting as told always ends in a capture, and is the shortest wait exactly when the interval is within the forced one |
| CaptureWorker.RunCaptureLoop | crates/fndr-shell/src/capture_worker.rs:192-292 | for any readings the loop produces the specified trace, ends exactly at a shutdown or disconnect, reports the tick calls, and passes on a drain error |
| CaptureWorker.TicksIff | crates/fndr-shell/src/capture_worker.rs:206-263 | a turn ticks exactly when the events so far do not stand at a pause, input is not deep-idle, and the forced interval or the one for this idle time has passed since the last tick among them |
| CaptureWorker.DrainedOnceAndLast | crates/fndr-shell/src/capture_worker.rs:269-292 | the scheduler is drained exactly once, last, and only if the loop ended |
| CaptureWorker.PauseUntilResume | crates/fndr-shell/src/capture_worker.rs:206-217 | no tick between an acknowledged pause and the next acknowledged resume, in running and in ended runs |
| CaptureWorker.NoTickWhileDeepIdle | crates/fndr-shell/src/capture_worker.rs:219-263 | every tick happened while input was not deep-idle |
| CaptureWorker.TicksAreSpaced | crates/fndr-shell/src/capture_worker.rs:219-228 | any two ticks are at least min(active, idle, forced) apart: for any clock if that is positive, otherwise for a nondecreasing one |
| CaptureWorker.StartCheckAdmitsBurstsIff | crates/fndr-shell/src/capture_worker.rs:152-154 | under a policy the start check accepts, some run ticks twice in one millisecond exactly when a forced interval of 0, or an idle interval of 0 that idling can reach, leaves a zero wait |
| RateWindow.Limiter.Allow | crates/fndr-mcp/src/auth.rs:63-70 | the 64-bit counter and the window start always stand for the window and the calls it has seen |
| RateWindow.AdmissionsAreBounded | crates/fndr-mcp/src/auth.rs:63-70 | any k whole seconds (k >= 1) admit at most (k + 1) N requests |
| RateWindow.BudgetHolds | crates/fndr-mcp/src/auth.rs:63-70 | at every point of a run the admissions since an instant stay within the windows that can have made them |
| RateWindow.BoundIsReached | crates/fndr-mcp/src/auth.rs:63-70 | the bound is tight: for every N and every k some run admits (k + 1) N requests in k seconds |
| RateWindow.WindowExceedsIff | crates/fndr-mcp/src/auth.rs:63-70 | a window admits more than its rate exactly when it sees more than 2^64 calls |
| Downloader.Disk.DownloadVerified | crates/fndr-downloader/src/lib.rs:58-129 | for every server and every cut, the files and the outcome of one attempt |
| Downloader.DestinationIsVerified | crates/fndr-downloader/src/lib.rs:105-128 | over any attempts with any servers, the destination only ever changes to bytes of the pinned size and hash |
| Downloader.PartStaysAPrefix | crates/fndr-downloader/src/lib.rs:68-103 | with honest servers the part file is always a prefix of the body |
| Downloader.CompletedAttemptLandsTheBody | crates/fndr-downloader/src/lib.rs:58-129 | a completed attempt lands exactly the body, after any interrupted ones |
| Downloader.TwoAttemptsSuffice | crates/fndr-downloader/src/lib.rs:58-129 | from any files at all two undisturbed attempts land the body; one is enough exactly when nothing is resumed or a true prefix is |
| Downloader.ResumesIff | crates/fndr-downloader/src/lib.rs:68-80 | an attempt resumes exactly when the part file is neither missing, empty nor complete |
| Downloader.NothingReceivedIsLost | crates/fndr-downloader/src/lib.rs:92-103 | an interrupted attempt keeps the part it resumed and everything received |
| Downloader.FailuresLeave | crates/fndr-downloader/src/lib.rs:76-128 | a failed attempt leaves the destination, and a part file only if it was interrupted or the server did not answer |
| Sentences.SplitBlockIntoSentences | crates/fndr-textsignal/src/cleanup.rs:551-579 | the buffer loop cuts at the first break that leaves 12 characters, again and again |
| Sentences.SentencesAre | crates/fndr-textsignal/src/cleanup.rs:551-579 | the first sentence ends at the first line end, or terminator before a space, line end or the end, that has 12 characters before it, and so on; where none does, the text is one sentence |
| Sentences.SplittingKeepsInk | crates/fndr-textsignal/src/cleanup.rs:551-579 | the sentences have the block's non-whitespace characters in order |
| Sentences.SentencesAreLong | crates/fndr-textsignal/src/cleanup.rs:551-579 | every sentence is trimmed and every one but the last has at least 12 characters |
| Sentences.SentenceOfNonBlank | crates/fndr-textsignal/src/cleanup.rs:575-577 | a block that is not blank has a sentence, so the fallback is dead |
| Sentences.TextKeepsInk | crates/fndr-textsignal/src/cleanup.rs:674-690 | over all blocks of a text, too, only whitespace is lost |
| Sentences.BlocksAtGap | crates/fndr-textsignal/src/cleanup.rs:679-679 | a blank line separates blocks |
| Sentences.RankSalientSpans | crates/fndr-textsignal/src/cleanup.rs:674-707 | the nested loops rank exactly the first 64 sentences with a positive score |
| Sentences.ConsideredAre | crates/fndr-textsignal/src/cleanup.rs:678-699 | at most the first 64 positive sentences are considered |
| Sentences.RankingSorts | crates/fndr-textsignal/src/cleanup.rs:701-706 | ranking is by descending score and keeps every span |
| Sentences.RankingIsStable | crates/fndr-textsignal/src/cleanup.rs:701-706 | equal scores keep their reading order |
| Sentences.Pack | crates/fndr-textsignal/src/cleanup.rs:725-741 | the packing loop keeps every text that fits whole and cuts only the next |
| Sentences.EvidenceOverrunsIff | crates/fndr-textsignal/src/cleanup.rs:725-741 | the result is at most max_chars + 2 long, and exceeds max_chars exactly when the whole texts leave one or two characters and another text follows |
| Sentences.EvidenceIsPrefix | crates/fndr-textsignal/src/cleanup.rs:725-741 | the evidence is the beginning of the ranked texts joined with bullets, as much as the budget has room for |
| Sentences.CompressToSalientEvidence | crates/fndr-textsignal/src/cleanup.rs:713-741 | the whole function: empty, the head of the text, or the packed ranking, within that bound |
| Sentences.TwoSentencesOverrun | crates/fndr-textsignal/src/cleanup.rs:713-741 | whatever the positive scores, two sentences one character shorter than the budget overrun it by two |
| Sentences.CompressionOverruns | crates/fndr-textsignal/src/cleanup.rs:713-741 | for one, 15 characters of "Reviewed it. Decided too." where 13 were asked for |

## Left out

- Floating point: scores are exact rationals; f32 rounding at the thresholds is not modelled, and span scores and line quality are an arbitrary real-valued function.
- Embedding vectors: the model keeps their length only; retrieval, FTS5 ranking, snippets and result merging are decided by libraries.
- Concurrent processes on one store: a call of one writer is not interleaved with another writer's statements. Stops inside an operation are modelled, interleavings are not.
- Machine words: the worker's sequence number, the tick counters and the capture counters are unbounded. The rate limiter's 64-bit counter and the frame sampler's word size are modelled.
- RateWindow.AdmissionsAreBounded: asks that no single window sees more than 2^64 calls, because the counter wraps there and admits again (see `WindowExceedsIff`); the same holds of RateWindow.BudgetHolds.
- LanceWriter.LanceWriter.Rebuild: asks for a nonzero stamp unless there is no chunk, because a stamp of 0 would never end (see `ZeroStampNeverDrains`); the same holds of Scheduler.CaptureScheduler.FlushOnShutdown.
- Session.Perform: asks the same of a drain or rebuild among the calls, and an honest embedder of each call that embeds.
- Scheduler.CaptureScheduler.TickFlush: the flushing half of a tick; the capture half is `Pipeline.CapturePipeline.RunTick`, and the adapters between the pipeline's sink and the store are not modelled.
- Story.SelfMergeIsIdentity: covers merging a text with itself; merging the same incoming text twice into another text is not stated.
- Continuity.MergesWithoutVectorIff: overlaps are exact; an f32 overlap that rounds across 3/7 or 13/21 may decide otherwise.
- ModelWorker: the mutex, the condition variable and the reply channels are atomic steps; a lost wake-up only delays a step and is not modelled.
- CaptureWorker: status events to the shell and the start-up handshake are not modelled; a blocking receive is a sequence of turns that received nothing.
- Downloader: a failing remove, rename or directory creation is not modelled; a destination that already has the extension `part` would be its own part file and is excluded by keeping the two files apart.
- Dedup: the hash of a frame is a bit sequence; computing it from pixels belongs to a library. `average_rgb` is an input.
- Blocklist: `sanitize_url_for_storage` and the URL parser are parameters; trailing dots and port handling inside parsed URLs are theirs.
- SafetyGate: of the owner's replaceable policy the secret patterns are modelled; `Evaluate` uses the built-in lists for everything else.
- Session identifiers and keys, bearer tokens, origin checks, schemas, the HTTP server, the user interface, Vision and ScreenCaptureKit adapters: easy members or foreign code.
