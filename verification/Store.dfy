/**
 The system of record. Each method is one SQLite transaction: it commits whole, or it returns an
 error and changes nothing. `commits` says whether SQLite lets the statement through.
 */
module Store {
  import opened Wrappers
  import opened Vault
  import opened Blocklist
  import Text

  datatype StoreError = Sqlite | InvalidDeleteScope

  datatype PendingChunk = PendingChunk(
    chunkId: string, recordId: string, ord: int, text: string, source: string, capturedAtMs: int)

  datatype Candidate = Candidate(
    recordId: string, chunkId: string, appName: string, url: Option<string>, windowTitle: string,
    text: string, capturedAtMs: int)

  datatype DeleteScope =
    | RecordIds(ids: seq<string>)
    | TimeRange(startMs: int, endMs: int)
    | Domain(domain: string)
    | All

  /** What a deletion scope means: the records it covers. */
  ghost function InScope(t: Truth, web: Web, scope: DeleteScope): set<string> {
    match scope
    case RecordIds(ids) => set r | r in t.records && r in ids
    case TimeRange(lo, hi) => set r | r in t.records && lo <= t.records[r].capturedAtMs <= hi
    case Domain(d) =>
      set r | r in t.records && t.records[r].url.Some? &&
              HostFromUrl(web, t.records[r].url.value).Some? &&
              HostCovered(web, HostFromUrl(web, t.records[r].url.value).value, d)
    case All => t.records.Keys
  }

  /** The record's URL parses, with this host. */
  ghost predicate HasHost(web: Web, record: Record, h: string) {
    record.url.Some? && web.host(Text.Trim(record.url.value)) == Some(h)
  }

  /** A plain domain covers the records whose hosts end with its labels, and no record without a URL. */
  lemma DomainScopeIff(t: Truth, web: Web, d: string, id: string)
    requires id in t.records && PlainDomain(web, d)
    ensures forall h | HasHost(web, t.records[id], h) ::
              id in InScope(t, web, Domain(d)) <==> EndsWith(Labels(web.unicode.lower(h)), Labels(d))
    ensures t.records[id].url.None? ==> id !in InScope(t, web, Domain(d))
  {
    hide NormalizeDomain, PlainDomain, HostFromUrl, Labels, EndsWith;
    PlainDomainStays(web, d);
    if t.records[id].url.Some? {
      HostOfUrl(web, t.records[id].url.value);
    }
  }

  lemma DomainScopesIff(t: Truth, web: Web, scope: DeleteScope)
    requires scope.Domain? && PlainDomain(web, scope.domain)
    ensures forall id, h | id in t.records && HasHost(web, t.records[id], h) ::
              id in InScope(t, web, scope) <==> EndsWith(Labels(web.unicode.lower(h)), Labels(scope.domain))
  {
    hide InScope, HasHost, Labels, EndsWith, PlainDomain;
    forall id | id in t.records
      ensures forall h | HasHost(web, t.records[id], h) ::
                id in InScope(t, web, scope) <==> EndsWith(Labels(web.unicode.lower(h)), Labels(scope.domain))
    {
      DomainScopeIff(t, web, scope.domain, id);
    }
  }

  predicate ValidScope(web: Web, scope: DeleteScope) {
    match scope
    case TimeRange(lo, hi) => lo <= hi
    case Domain(d) => NormalizeDomain(web, d).Some?
    case _ => true
  }

  function PendingOf(t: Truth, c: string): PendingChunk
    requires c in t.chunks && t.chunks[c].recordId in t.records
  {
    var chunk := t.chunks[c];
    var record := t.records[chunk.recordId];
    PendingChunk(c, chunk.recordId, chunk.ord, chunk.text, record.source, record.capturedAtMs)
  }

  function PendingIds(batch: seq<PendingChunk>): (ids: seq<string>)
    ensures |ids| == |batch| && forall i | 0 <= i < |batch| :: ids[i] == batch[i].chunkId
  {
    seq(|batch|, i requires 0 <= i < |batch| => batch[i].chunkId)
  }

  function CandidateOf(t: Truth, c: string): Candidate
    requires c in t.chunks && t.chunks[c].recordId in t.records
  {
    var chunk := t.chunks[c];
    var r := t.records[chunk.recordId];
    Candidate(chunk.recordId, c, r.appName, r.url, r.windowTitle, chunk.text, r.capturedAtMs)
  }

  function CandidateIds(cs: seq<Candidate>): (ids: seq<string>)
    ensures |ids| == |cs| && forall i | 0 <= i < |cs| :: ids[i] == cs[i].chunkId
  {
    seq(|cs|, i requires 0 <= i < |cs| => cs[i].chunkId)
  }

  /** The pending first chunks of records captured since `afterMs`. */
  function RecentPending(t: Truth, afterMs: int): set<string> {
    set c | c in t.chunks && t.chunks[c].flushedAtMs == 0 && t.chunks[c].ord == 0
            && t.chunks[c].recordId in t.records && t.records[t.chunks[c].recordId].capturedAtMs >= afterMs
  }

  /** Newest capture first. */
  function CandidateKey(t: Truth): string -> SortKey {
    c => if c in t.chunks && t.chunks[c].recordId in t.records
         then (-t.records[t.chunks[c].recordId].capturedAtMs, 0)
         else (0, 0)
  }

  lemma {:induction false} LeastKey(ids: set<string>, key: string -> SortKey) returns (least: string)
    requires ids != {}
    ensures least in ids && forall c | c in ids :: KeyAtMost(key(least), key(c))
    decreases |ids|
  {
    least :| least in ids;
    var rest := ids - {least};
    if rest == {} {
      assert forall c | c in ids :: c in rest || c == least;
    } else {
      var other := LeastKey(rest, key);
      var x := least;
      least := if KeyAtMost(key(other), key(x)) then other else x;
      forall c | c in ids ensures KeyAtMost(key(least), key(c)) {
        assert c == x || c in rest;
      }
    }
  }

  /** SELECT ... ORDER BY key LIMIT limit. */
  method SelectOrdered(from: set<string>, key: string -> SortKey, limit: nat) returns (picked: seq<string>)
    ensures Selects(from, key, limit, picked)
  {
    picked := [];
    var rest := from;
    while |picked| < limit && rest != {}
      invariant rest <= from && |picked| + |rest| == |from| && |picked| <= limit
      invariant Distinct(picked)
      invariant forall i | 0 <= i < |picked| :: picked[i] in from && picked[i] !in rest
      invariant forall c | c in from :: c in rest || c in picked
      invariant forall i, j | 0 <= i < j < |picked| :: KeyAtMost(key(picked[i]), key(picked[j]))
      invariant forall i, c | 0 <= i < |picked| && c in rest :: KeyAtMost(key(picked[i]), key(c))
      decreases rest
    {
      ghost var least := LeastKey(rest, key);
      var next :| next in rest && forall c | c in rest :: KeyAtMost(key(next), key(c));
      picked := picked + [next];
      rest := rest - {next};
    }
  }

  lemma SelectsAll(from: set<string>, key: string -> SortKey, picked: seq<string>)
    requires Selects(from, key, |from|, picked)
    ensures Elements(picked) == from
  {
    SelectedWhole(from, picked);
  }

  /** A pending first chunk of a record captured at or after the time. */
  ghost predicate IsCandidate(t: Truth, afterMs: int, c: string) {
    && c in t.chunks && t.chunks[c].flushedAtMs == 0 && t.chunks[c].ord == 0
    && t.chunks[c].recordId in t.records && t.records[t.chunks[c].recordId].capturedAtMs >= afterMs
  }

  /** As many of them as there are, up to the limit, in order, and none left out is newer. */
  ghost predicate NewestFirst(t: Truth, afterMs: int, limit: nat, picked: seq<string>) {
    && Distinct(picked) && (forall c | c in picked :: IsCandidate(t, afterMs, c)) && |picked| <= limit
    && (forall i, j | 0 <= i < j < |picked| :: !IsNewer(t, picked[j], picked[i]))
    && (forall d | IsCandidate(t, afterMs, d) && d !in picked ::
          |picked| == limit && forall c | c in picked :: !IsNewer(t, d, c))
  }

  predicate IsNewer(t: Truth, a: string, b: string) {
    && a in t.chunks && t.chunks[a].recordId in t.records && b in t.chunks && t.chunks[b].recordId in t.records
    && t.records[t.chunks[a].recordId].capturedAtMs > t.records[t.chunks[b].recordId].capturedAtMs
  }

  lemma SelectionIsNewestFirst(t: Truth, afterMs: int, limit: nat, picked: seq<string>)
    requires Selects(RecentPending(t, afterMs), CandidateKey(t), limit, picked)
    ensures NewestFirst(t, afterMs, limit, picked)
  {
    if d :| d in RecentPending(t, afterMs) && d !in picked && |picked| < limit {
      SelectedWhole(RecentPending(t, afterMs), picked);
    }
    forall d | IsCandidate(t, afterMs, d) ensures d in RecentPending(t, afterMs) {
    }
    forall c, d | KeyAtMost(CandidateKey(t)(c), CandidateKey(t)(d)) ensures !IsNewer(t, d, c) {
    }
  }

  // ----- the order of ids ---------------------------------------------------------------------

  /** Code point order, which is the byte order of UTF-8: SQLite's ORDER BY and the library sort agree on it. */
  predicate Before(a: string, b: string) {
    if b == "" then false
    else if a == "" then true
    else if a[0] != b[0] then a[0] < b[0]
    else Before(a[1..], b[1..])
  }

  predicate Ascending(ids: seq<string>) {
    forall i, j | 0 <= i < j < |ids| :: Before(ids[i], ids[j])
  }

  lemma {:induction false} NotBeforeItself(a: string)
    ensures !Before(a, a)
  {
    if a == "" {
    } else {
      NotBeforeItself(a[1..]);
    }
  }

  lemma {:induction false} OneIsBefore(a: string, b: string)
    ensures a == b || Before(a, b) || Before(b, a)
  {
    if a == "" || b == "" || a[0] != b[0] {
    } else {
      OneIsBefore(a[1..], b[1..]);
      assert a == [a[0]] + a[1..] && b == [b[0]] + b[1..];
    }
  }

  lemma {:induction false} BeforeIsTransitive(a: string, b: string, c: string)
    requires Before(a, b) && Before(b, c)
    ensures Before(a, c)
  {
    if a == "" || a[0] != b[0] || b[0] != c[0] {
    } else {
      BeforeIsTransitive(a[1..], b[1..], c[1..]);
    }
  }

  predicate IsFirst(ids: set<string>, m: string) {
    m in ids && forall c | c in ids :: c == m || Before(m, c)
  }

  lemma {:induction false} FirstExists(ids: set<string>)
    requires ids != {}
    ensures exists m :: IsFirst(ids, m)
    decreases |ids|
  {
    var x :| x in ids;
    var rest := ids - {x};
    assert ids == rest + {x};
    if rest == {} {
      assert IsFirst(ids, x);
    } else {
      FirstExists(rest);
      var m :| IsFirst(rest, m);
      FirstOfTwo(ids, rest, x, m);
    }
  }

  lemma FirstOfTwo(ids: set<string>, rest: set<string>, x: string, m: string)
    requires ids == rest + {x} && x !in rest && IsFirst(rest, m)
    ensures IsFirst(ids, if Before(x, m) then x else m)
  {
    OneIsBefore(x, m);
    if Before(x, m) {
      forall c | c in ids ensures c == x || Before(x, c) {
        if c != x && c != m {
          BeforeIsTransitive(x, m, c);
        }
      }
    }
  }

  /** The ids of a set in order, each once. */
  method SortIds(from: set<string>) returns (ids: seq<string>)
    ensures Elements(ids) == from && Ascending(ids) && Distinct(ids)
  {
    ids := [];
    var rest := from;
    while rest != {}
      invariant rest <= from && Elements(ids) == from - rest
      invariant Ascending(ids) && forall i, c | 0 <= i < |ids| && c in rest :: Before(ids[i], c)
      decreases rest
    {
      FirstExists(rest);
      var next :| next in rest && forall c | c in rest :: c == next || Before(next, c);
      ElementsAppend(ids, next);
      ids := ids + [next];
      rest := rest - {next};
    }
    AscendingIsDistinct(ids);
  }

  lemma ElementsAppend(ids: seq<string>, next: string)
    ensures Elements(ids + [next]) == Elements(ids) + {next}
  {
    var longer := ids + [next];
    assert longer[|ids|] == next;
    assert forall i | 0 <= i < |ids| :: longer[i] == ids[i];
  }

  lemma AscendingIsDistinct(ids: seq<string>)
    requires Ascending(ids)
    ensures Distinct(ids)
  {
    forall i, j | 0 <= i < j < |ids| ensures ids[i] != ids[j] {
      NotBeforeItself(ids[i]);
    }
  }

  function RecordsOfDomain(records: map<string, Record>, web: Web, domain: string): set<string> {
    set x | x in records && records[x].url.Some? && UrlMatchesDomainSuffix(web, records[x].url.value, domain)
  }

  lemma RecordsOfDomainInScope(t: Truth, web: Web, domain: string)
    ensures RecordsOfDomain(t.records, web, domain) == InScope(t, web, Domain(domain))
  {
    forall x | x in t.records && t.records[x].url.Some?
      ensures x in RecordsOfDomain(t.records, web, domain) <==> x in InScope(t, web, Domain(domain))
    {
      DeletionSelectsCovered(web, domain, t.records[x].url.value);
    }
  }

  lemma DeletedNone(t: Truth)
    ensures Deleted(t, {}) == t
  {
    assert Deleted(t, {}).records == t.records;
    assert Deleted(t, {}).chunks == t.chunks;
  }

  lemma DeletedOneMore(t: Truth, ids: set<string>, id: string)
    ensures Deleted(Deleted(t, ids), {id}) == Deleted(t, ids + {id})
  {
    var a, b := Deleted(Deleted(t, ids), {id}), Deleted(t, ids + {id});
    assert a.records == b.records;
    assert a.chunks == b.chunks;
  }

  /** How many of the ids are records. */
  function Hits(t: Truth, ids: set<string>): nat {
    |t.records.Keys * ids|
  }

  /** The statements of a deleting transaction, one record id each. */
  function DeletedEach(t: Truth, ids: seq<string>): Truth {
    if ids == [] then t else Deleted(DeletedEach(t, ids[..|ids| - 1]), {ids[|ids| - 1]})
  }

  lemma {:induction false} DeletedEachIsDeleted(t: Truth, ids: seq<string>)
    ensures DeletedEach(t, ids) == Deleted(t, Elements(ids))
  {
    if ids == [] {
      assert Elements(ids) == {};
      DeletedNone(t);
    } else {
      var front, last := ids[..|ids| - 1], ids[|ids| - 1];
      DeletedEachIsDeleted(t, front);
      DeletedOneMore(t, Elements(front), last);
      assert Elements(ids) == Elements(front) + {last};
    }
  }

  /** How many of those statements find their record. */
  function DeletedCount(t: Truth, ids: seq<string>): nat {
    if ids == [] then 0
    else
      var n := |ids| - 1;
      DeletedCount(t, ids[..n]) + (if ids[n] in DeletedEach(t, ids[..n]).records then 1 else 0)
  }

  lemma OneMoreHit(keys: set<string>, ids: set<string>, id: string)
    ensures |keys * (ids + {id})| == |keys * ids| + (if id in keys && id !in ids then 1 else 0)
  {
    assert keys * (ids + {id}) == keys * ids + (if id in keys && id !in ids then {id} else {});
  }

  lemma HitsOneMore(t: Truth, ids: seq<string>)
    requires ids != []
    ensures var n := |ids| - 1;
            Hits(t, Elements(ids)) == Hits(t, Elements(ids[..n]))
            + (if ids[n] in t.records && ids[n] !in Elements(ids[..n]) then 1 else 0)
  {
    var n := |ids| - 1;
    assert Elements(ids) == Elements(ids[..n]) + {ids[n]};
    OneMoreHit(t.records.Keys, Elements(ids[..n]), ids[n]);
  }

  lemma {:induction false} DeletedCountIsHits(t: Truth, ids: seq<string>)
    ensures DeletedCount(t, ids) == Hits(t, Elements(ids))
  {
    if ids == [] {
      HitsNone(t, ids);
    } else {
      var n := |ids| - 1;
      DeletedCountIsHits(t, ids[..n]);
      HitsOneMore(t, ids);
      DeletedEachIsDeleted(t, ids[..n]);
    }
  }

  lemma HitsNone(t: Truth, ids: seq<string>)
    requires ids == []
    ensures Hits(t, Elements(ids)) == 0
  {
    assert Elements(ids) == {};
    assert t.records.Keys * {} == {};
  }

  method DeleteEach(t0: Truth, ids: seq<string>) returns (t: Truth, deleted: nat)
    ensures t == Deleted(t0, Elements(ids))
    ensures deleted == Hits(t0, Elements(ids))
  {
    t, deleted := t0, 0;
    var n := 0;
    while n < |ids|
      invariant 0 <= n <= |ids|
      invariant t == DeletedEach(t0, ids[..n]) && deleted == DeletedCount(t0, ids[..n])
    {
      assert ids[..n + 1][..n] == ids[..n];
      if ids[n] in t.records {
        deleted := deleted + 1;
      }
      t := Deleted(t, {ids[n]});
      n := n + 1;
    }
    assert ids[..n] == ids;
    DeletedEachIsDeleted(t0, ids);
    DeletedCountIsHits(t0, ids);
  }

  /** The ids that name a record. */
  method ExistingIds(records: map<string, Record>, ids: seq<string>) returns (found: set<string>)
    ensures found == set x | x in records && x in ids
  {
    found := {};
    var n := 0;
    while n < |ids|
      invariant 0 <= n <= |ids|
      invariant found == set x | x in records && x in ids[..n]
    {
      assert ids[..n + 1] == ids[..n] + [ids[n]];
      if ids[n] in records {
        found := found + {ids[n]};
      }
      n := n + 1;
    }
    assert ids[..n] == ids;
  }

  /** The next row repeats a primary key, or a (record_id, ord) pair of this transaction. */
  predicate Clashes(taken: set<string>, cs: seq<NewChunk>, n: nat)
    requires n < |cs|
  {
    cs[n].id in taken || exists i | 0 <= i < n :: cs[i].id == cs[n].id || cs[i].ord == cs[n].ord
  }

  lemma NothingAdded(m: map<string, Chunk>, id: string)
    ensures WithChunks(m, id, []) == m
  {
  }

  lemma NextCanInsertIff(t: Truth, id: string, cs: seq<NewChunk>, n: nat)
    requires n < |cs| && CanInsert(t, id, cs[..n])
    ensures CanInsert(t, id, cs[..n + 1]) <==> !Clashes(t.chunks.Keys, cs, n)
    ensures CanInsert(t, id, cs) ==> !Clashes(t.chunks.Keys, cs, n)
    ensures WithChunks(t.chunks, id, cs[..n + 1])
            == WithChunks(t.chunks, id, cs[..n])[cs[n].id := Chunk(id, cs[n].ord, cs[n].text, 0)]
  {
    var next := cs[..n + 1];
    assert next[..n] == cs[..n] && next[n] == cs[n];
    assert forall i | 0 <= i < n :: next[i] == cs[i] && cs[..n][i] == cs[i];
  }

  /** The record has the incoming app, bundle, URL, title and time; its session, source and creation time
      stay, and so does every other record. */
  ghost predicate IsRefreshed(was: map<string, Record>, now: map<string, Record>, id: string, incoming: Record) {
    && id in was && now.Keys == was.Keys && (forall x | x in was && x != id :: now[x] == was[x])
    && now[id].appName == incoming.appName && now[id].bundleId == incoming.bundleId && now[id].url == incoming.url
    && now[id].windowTitle == incoming.windowTitle && now[id].capturedAtMs == incoming.capturedAtMs
    && now[id].sessionId == was[id].sessionId && now[id].source == was[id].source
    && now[id].createdAtMs == was[id].createdAtMs
  }

  /** The chunk has the text; its record, order and stamp stay, and so does every other chunk. */
  ghost predicate IsRetold(was: map<string, Chunk>, now: map<string, Chunk>, id: string, text: string) {
    && id in was && now.Keys == was.Keys && (forall x | x in was && x != id :: now[x] == was[x])
    && now[id].text == text && now[id].recordId == was[id].recordId && now[id].ord == was[id].ord
    && now[id].flushedAtMs == was[id].flushedAtMs
  }

  class Store {
    var records: map<string, Record>
    var chunks: map<string, Chunk>

    function Contents(): Truth
      reads this
    {
      Truth(records, chunks)
    }

    constructor ()
      ensures Contents() == Truth(map[], map[])
    {
      records, chunks := map[], map[];
    }

    method InsertCapture(id: string, record: Record, cs: seq<NewChunk>, commits: bool)
      returns (r: Result<(), StoreError>)
      requires Consistent(Contents())
      modifies this
      ensures r.Success? <==> commits && CanInsert(old(Contents()), id, cs)
      ensures r.Success? ==> Contents() == Inserted(old(Contents()), id, record, cs)
      ensures r.Success? ==>
                && records == old(records)[id := record]
                && (forall c | c in old(chunks) :: c in chunks && chunks[c] == old(chunks)[c])
                && (forall c | c in chunks :: c in old(chunks) || exists i | 0 <= i < |cs| :: cs[i].id == c)
                && (forall i | 0 <= i < |cs| ::
                      cs[i].id in chunks && chunks[cs[i].id] == Chunk(id, cs[i].ord, cs[i].text, 0))
      ensures r.Failure? ==> Contents() == old(Contents())
    {
      hide WithChunks, Clashes;
      ghost var t := Contents();
      if !commits || id in records {
        return Failure(Sqlite);
      }
      var tx := chunks;
      assert tx == WithChunks(chunks, id, []) by {
        NothingAdded(chunks, id);
      }
      var n := 0;
      while n < |cs|
        invariant 0 <= n <= |cs|
        invariant tx == WithChunks(chunks, id, cs[..n])
        invariant Contents() == t && CanInsert(t, id, cs[..n])
      {
        NextCanInsertIff(t, id, cs, n);
        if Clashes(chunks.Keys, cs, n) {
          return Failure(Sqlite);
        }
        tx := tx[cs[n].id := Chunk(id, cs[n].ord, cs[n].text, 0)];
        n := n + 1;
      }
      assert cs[..n] == cs;
      WithChunksContents(chunks, id, cs);
      records, chunks := records[id := record], tx;
      return Success(());
    }

    method PendingChunks(limit: nat, commits: bool) returns (r: Result<seq<PendingChunk>, StoreError>)
      requires Consistent(Contents())
      ensures r.Success? <==> commits
      ensures r.Success? ==> OldestFirst(Contents(), limit, PendingIds(r.value))
      ensures r.Success? ==>
                && Selects(Pending(Contents()), FlushKey(Contents()), limit, PendingIds(r.value))
                && forall i | 0 <= i < |r.value| ::
                     r.value[i].chunkId in chunks && r.value[i] == PendingOf(Contents(), r.value[i].chunkId)
      ensures r.Success? ==> forall x | x in r.value ::
                && x.chunkId in chunks && x.recordId in records && chunks[x.chunkId].recordId == x.recordId
                && x.ord == chunks[x.chunkId].ord && x.text == chunks[x.chunkId].text
                && x.source == records[x.recordId].source && x.capturedAtMs == records[x.recordId].capturedAtMs
    {
      if !commits {
        return Failure(Sqlite);
      }
      var t := Contents();
      var ids := SelectOrdered(Pending(t), FlushKey(t), limit);
      SelectionIsOldestFirst(t, limit, ids);
      var out := seq(|ids|, i requires 0 <= i < |ids| => PendingOf(t, ids[i]));
      assert PendingIds(out) == ids;
      return Success(out);
    }

    method PendingContinuityCandidates(afterMs: int, limit: nat, commits: bool)
      returns (r: Result<seq<Candidate>, StoreError>)
      requires Consistent(Contents())
      ensures r.Success? <==> commits
      ensures r.Success? ==>
                NewestFirst(Contents(), afterMs, if limit < 64 then limit else 64, CandidateIds(r.value))
      ensures r.Success? ==>
                && Selects(RecentPending(Contents(), afterMs), CandidateKey(Contents()),
                           if limit < 64 then limit else 64, CandidateIds(r.value))
                && forall i | 0 <= i < |r.value| ::
                     r.value[i].chunkId in Contents().chunks
                     && r.value[i] == CandidateOf(Contents(), r.value[i].chunkId)
      ensures r.Success? ==> forall x | x in r.value ::
                && x.chunkId in chunks && x.recordId in records && chunks[x.chunkId].recordId == x.recordId
                && x.text == chunks[x.chunkId].text && x.appName == records[x.recordId].appName
                && x.url == records[x.recordId].url && x.windowTitle == records[x.recordId].windowTitle
                && x.capturedAtMs == records[x.recordId].capturedAtMs
    {
      if !commits {
        return Failure(Sqlite);
      }
      var t := Contents();
      var ids := SelectOrdered(RecentPending(t, afterMs), CandidateKey(t), if limit < 64 then limit else 64);
      SelectionIsNewestFirst(t, afterMs, if limit < 64 then limit else 64, ids);
      var out := seq(|ids|, i requires 0 <= i < |ids| => CandidateOf(t, ids[i]));
      assert CandidateIds(out) == ids;
      return Success(out);
    }

    /** Refreshes a record whose chunk is still pending; answers false when it no longer is. */
    method MergePendingCapture(candidate: Candidate, incoming: Record, text: string, commits: bool)
      returns (r: Result<bool, StoreError>)
      modifies this
      ensures r.Success? <==> commits
      ensures r.Success? ==> (r.value <==> CanMerge(old(Contents()), candidate.recordId, candidate.chunkId))
      ensures r == Success(true) ==>
                Contents() == Merged(old(Contents()), candidate.recordId, candidate.chunkId, incoming, text)
      ensures r == Success(true) ==>
                && IsRefreshed(old(records), records, candidate.recordId, incoming)
                && IsRetold(old(chunks), chunks, candidate.chunkId, text)
      ensures r != Success(true) ==> Contents() == old(Contents())
    {
      if !commits {
        return Failure(Sqlite);
      }
      var rid, cid := candidate.recordId, candidate.chunkId;
      if rid !in records || cid !in chunks || chunks[cid].recordId != rid || chunks[cid].flushedAtMs != 0 {
        return Success(false);
      }
      records := records[rid := MergedRecord(records[rid], incoming)];
      chunks := chunks[cid := chunks[cid].(text := text)];
      return Success(true);
    }

    method MarkChunksFlushed(ids: seq<string>, nowMs: int, commits: bool) returns (r: Result<(), StoreError>)
      modifies this
      ensures r.Success? <==> commits
      ensures r.Success? ==> Contents() == StampedAt(old(Contents()), Elements(ids), nowMs)
      ensures r.Success? ==>
                && records == old(records) && chunks.Keys == old(chunks).Keys
                && forall c | c in chunks ::
                     chunks[c] == if c in ids then old(chunks)[c].(flushedAtMs := nowMs) else old(chunks)[c]
      ensures r.Failure? ==> Contents() == old(Contents())
    {
      if !commits {
        return Failure(Sqlite);
      }
      var tx := chunks;
      var n := 0;
      while n < |ids|
        invariant 0 <= n <= |ids|
        invariant tx == StampedAt(old(Contents()), Elements(ids[..n]), nowMs).chunks
      {
        assert Elements(ids[..n + 1]) == Elements(ids[..n]) + {ids[n]};
        if ids[n] in tx {
          tx := tx[ids[n] := tx[ids[n]].(flushedAtMs := nowMs)];
        }
        n := n + 1;
      }
      assert ids[..n] == ids;
      chunks := tx;
      return Success(());
    }

    method ResetFlushState(commits: bool) returns (r: Result<nat, StoreError>)
      modifies this
      ensures r.Success? <==> commits
      ensures r.Success? ==> Contents() == AllReset(old(Contents())) && r.value == |old(chunks)|
      ensures r.Success? ==>
                && records == old(records) && chunks.Keys == old(chunks).Keys
                && forall c | c in chunks :: chunks[c] == old(chunks)[c].(flushedAtMs := 0)
      ensures r.Failure? ==> Contents() == old(Contents())
    {
      if !commits {
        return Failure(Sqlite);
      }
      var reset := AllReset(Contents()).chunks;
      assert reset.Keys == chunks.Keys;
      chunks := reset;
      return Success(|reset|);
    }

    /** Resolves a scope to record ids in order and without duplicates, or refuses a malformed scope. */
    method RecordIdsForDelete(web: Web, scope: DeleteScope, commits: bool)
      returns (r: Result<seq<string>, StoreError>)
      ensures r.Success? <==> ValidScope(web, scope) && commits
      ensures r.Success? ==> Elements(r.value) == InScope(Contents(), web, scope)
      ensures r.Success? && scope.Domain? && PlainDomain(web, scope.domain) ==>
                forall id, h | id in records && HasHost(web, records[id], h) ::
                  id in r.value <==> EndsWith(Labels(web.unicode.lower(h)), Labels(scope.domain))
      ensures r.Success? && scope.TimeRange? ==>
                forall id :: id in r.value <==>
                               id in records && scope.startMs <= records[id].capturedAtMs <= scope.endMs
      ensures r.Success? && scope.RecordIds? ==> forall id :: id in r.value <==> id in records && id in scope.ids
      ensures r.Success? && scope.All? ==> forall id :: id in r.value <==> id in records
      ensures r.Success? ==> Ascending(r.value) && Distinct(r.value)
      ensures !ValidScope(web, scope) ==> r == Failure(InvalidDeleteScope)
    {
      hide Ascending, NormalizeDomain, RecordsOfDomain, Before, HasHost, PlainDomain, EndsWith, Labels;
      if scope.Domain? && PlainDomain(web, scope.domain) {
        DomainScopesIff(Contents(), web, scope);
      }
      var found := {};
      match scope {
        case RecordIds(ids) =>
          found := ExistingIds(records, ids);
        case TimeRange(lo, hi) =>
          if lo > hi {
            return Failure(InvalidDeleteScope);
          }
          found := set x | x in records && lo <= records[x].capturedAtMs <= hi;
        case Domain(d) =>
          if NormalizeDomain(web, d).None? {
            return Failure(InvalidDeleteScope);
          }
          found := RecordsOfDomain(records, web, d);
          RecordsOfDomainInScope(Contents(), web, d);
        case All =>
          found := records.Keys;
      }
      if !commits {
        return Failure(Sqlite);
      }
      var ids := SortIds(found);
      assert forall id :: id in ids <==> id in Elements(ids);
      return Success(ids);
    }

    /** Removes records with everything that hangs on them; answers how many existed. */
    method DeleteRecords(ids: seq<string>, commits: bool) returns (r: Result<nat, StoreError>)
      modifies this
      ensures r.Success? <==> commits
      ensures r.Success? ==> Contents() == Deleted(old(Contents()), Elements(ids))
      ensures r.Success? ==>
                && (forall x :: x in records <==> x in old(records) && x !in ids)
                && (forall c :: c in chunks <==> c in old(chunks) && old(chunks)[c].recordId !in ids)
                && (forall x | x in records :: records[x] == old(records)[x])
                && (forall c | c in chunks :: chunks[c] == old(chunks)[c])
      ensures r.Success? ==> r.value == Hits(old(Contents()), Elements(ids))
      ensures r.Failure? ==> Contents() == old(Contents())
    {
      if !commits {
        return Failure(Sqlite);
      }
      var t, deleted := DeleteEach(Contents(), ids);
      records, chunks := t.records, t.chunks;
      return Success(deleted);
    }
  }
}
