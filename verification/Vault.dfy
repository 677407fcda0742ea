/**
 The two stores as values: SQLite truth (records and their chunks) and the derived Lance index.
 Every function gives one SQL statement or one Lance call its set-level meaning.
 */
module Vault {
  import opened Wrappers

  datatype Record = Record(
    sessionId: string,
    source: string,
    appName: string,
    bundleId: Option<string>,
    url: Option<string>,
    windowTitle: string,
    capturedAtMs: int,
    createdAtMs: int)

  /** A stamp of 0 marks a chunk that still waits for the Lance writer. */
  datatype Chunk = Chunk(recordId: string, ord: int, text: string, flushedAtMs: int)

  datatype NewChunk = NewChunk(id: string, ord: int, text: string)

  datatype Truth = Truth(records: map<string, Record>, chunks: map<string, Chunk>)

  /** One Lance row. Of its embedding vector the model keeps the length. */
  datatype Row = Row(
    chunkId: string,
    recordId: string,
    ord: int,
    text: string,
    source: string,
    capturedAtMs: int,
    vectorLen: nat)

  datatype Index = Missing | Table(rows: seq<Row>)

  /** `dim` is the dimension of the one embedding contract the table was created for. */
  datatype Vault = Vault(truth: Truth, index: Index, dim: nat)

  const FLUSH_BATCH_SIZE: nat := 256

  // ----- SQLite truth -----------------------------------------------------

  /** The schema's constraints: every chunk has its record, and (record_id, ord) is unique. */
  ghost predicate Consistent(t: Truth) {
    && (forall c | c in t.chunks :: t.chunks[c].recordId in t.records)
    && (forall c, d | c in t.chunks && d in t.chunks && t.chunks[c].recordId == t.chunks[d].recordId
                      && t.chunks[c].ord == t.chunks[d].ord :: c == d)
  }

  function Pending(t: Truth): set<string> {
    set c | c in t.chunks && t.chunks[c].flushedAtMs == 0
  }

  function Stamped(t: Truth): set<string> {
    set c | c in t.chunks && t.chunks[c].flushedAtMs != 0
  }

  function ChunkIds(cs: seq<NewChunk>): set<string> {
    set i | 0 <= i < |cs| :: cs[i].id
  }

  predicate Distinct<T(==)>(xs: seq<T>) {
    forall i, j | 0 <= i < j < |xs| :: xs[i] != xs[j]
  }

  /** No primary key and no (record_id, ord) pair is taken. */
  ghost predicate CanInsert(t: Truth, id: string, cs: seq<NewChunk>) {
    && id !in t.records
    && (forall i | 0 <= i < |cs| :: cs[i].id !in t.chunks)
    && (forall i, j | 0 <= i < j < |cs| :: cs[i].id != cs[j].id && cs[i].ord != cs[j].ord)
  }

  lemma EachIdListed(cs: seq<NewChunk>)
    ensures forall i | 0 <= i < |cs| :: cs[i].id in ChunkIds(cs)
  {
  }

  lemma NoChunkIds(cs: seq<NewChunk>)
    requires cs == []
    ensures ChunkIds(cs) == {}
  {
  }

  lemma ChunkIdsOfFront(cs: seq<NewChunk>)
    requires cs != []
    ensures ChunkIds(cs) == ChunkIds(cs[..|cs| - 1]) + {cs[|cs| - 1].id}
  {
    var front := cs[..|cs| - 1];
    assert forall i | 0 <= i < |front| :: front[i] == cs[i];
  }

  function WithChunks(m: map<string, Chunk>, id: string, cs: seq<NewChunk>): map<string, Chunk> {
    if cs == [] then m
    else
      var last := cs[|cs| - 1];
      WithChunks(m, id, cs[..|cs| - 1])[last.id := Chunk(id, last.ord, last.text, 0)]
  }

  lemma {:induction false} WithChunksContents(m: map<string, Chunk>, id: string, cs: seq<NewChunk>)
    requires forall i, j | 0 <= i < j < |cs| :: cs[i].id != cs[j].id
    ensures WithChunks(m, id, cs).Keys == m.Keys + ChunkIds(cs)
    ensures forall i | 0 <= i < |cs| :: WithChunks(m, id, cs)[cs[i].id] == Chunk(id, cs[i].ord, cs[i].text, 0)
    ensures forall c | c in m && c !in ChunkIds(cs) :: WithChunks(m, id, cs)[c] == m[c]
  {
    hide ChunkIds;
    if cs == [] {
      NoChunkIds(cs);
    } else {
      var n := |cs| - 1;
      var front := cs[..n];
      assert forall i | 0 <= i < n :: front[i] == cs[i];
      WithChunksContents(m, id, front);
      ChunkIdsOfFront(cs);
      EachIdListed(cs);
      forall i | 0 <= i < |cs| ensures WithChunks(m, id, cs)[cs[i].id] == Chunk(id, cs[i].ord, cs[i].text, 0) {
        if i < n {
          assert cs[i].id != cs[n].id && front[i] == cs[i];
        }
      }
    }
  }

  function Inserted(t: Truth, id: string, record: Record, cs: seq<NewChunk>): Truth {
    Truth(t.records[id := record], WithChunks(t.chunks, id, cs))
  }

  /** The guard of the merging UPDATE: the record exists and owns the chunk, which is pending. */
  predicate CanMerge(t: Truth, recordId: string, chunkId: string) {
    && recordId in t.records
    && chunkId in t.chunks
    && t.chunks[chunkId].recordId == recordId
    && t.chunks[chunkId].flushedAtMs == 0
  }

  /** A merge keeps the record's identity, session, source and creation time. */
  function MergedRecord(existing: Record, incoming: Record): Record {
    existing.(appName := incoming.appName, bundleId := incoming.bundleId, url := incoming.url,
          windowTitle := incoming.windowTitle, capturedAtMs := incoming.capturedAtMs)
  }

  function Merged(t: Truth, recordId: string, chunkId: string, incoming: Record, text: string): Truth
    requires CanMerge(t, recordId, chunkId)
  {
    Truth(t.records[recordId := MergedRecord(t.records[recordId], incoming)],
          t.chunks[chunkId := t.chunks[chunkId].(text := text)])
  }

  function StampedAt(t: Truth, ids: set<string>, nowMs: int): Truth {
    t.(chunks := map c | c in t.chunks ::
                   if c in ids then t.chunks[c].(flushedAtMs := nowMs) else t.chunks[c])
  }

  function AllReset(t: Truth): Truth {
    StampedAt(t, t.chunks.Keys, 0)
  }

  /** Deleting records takes their chunks with them (the cascading foreign key). */
  function Deleted(t: Truth, ids: set<string>): Truth {
    Truth(t.records - ids, map c | c in t.chunks && t.chunks[c].recordId !in ids :: t.chunks[c])
  }

  // ----- ordered, limited selections ----------------------------------------

  type SortKey = (int, int)

  predicate KeyAtMost(a: SortKey, b: SortKey) {
    a.0 < b.0 || (a.0 == b.0 && a.1 <= b.1)
  }

  /** `picked` answers SELECT ... ORDER BY key LIMIT limit over the ids `from`. The order among equal
      keys is SQLite's choice. */
  ghost predicate Selects(from: set<string>, key: string -> SortKey, limit: nat, picked: seq<string>) {
    && (forall i | 0 <= i < |picked| :: picked[i] in from)
    && Distinct(picked)
    && |picked| == (if |from| < limit then |from| else limit)
    && (forall i, j | 0 <= i < j < |picked| :: KeyAtMost(key(picked[i]), key(picked[j])))
    && (forall i, c | 0 <= i < |picked| && c in from && c !in picked :: KeyAtMost(key(picked[i]), key(c)))
  }

  /** Oldest capture first, then chunk order; total, so that it can serve as a sort key. */
  function FlushKey(t: Truth): string -> SortKey {
    c => if c in t.chunks && t.chunks[c].recordId in t.records
         then (t.records[t.chunks[c].recordId].capturedAtMs, t.chunks[c].ord)
         else (0, 0)
  }

  ghost predicate IsBatch(t: Truth, batch: seq<string>) {
    Selects(Pending(t), FlushKey(t), FLUSH_BATCH_SIZE, batch)
  }

  /** Captured earlier, or at the same time and with a chunk order no greater. */
  ghost predicate NoLater(t: Truth, c: string, d: string) {
    && c in t.chunks && t.chunks[c].recordId in t.records && d in t.chunks && t.chunks[d].recordId in t.records
    && var (a, b) := (t.records[t.chunks[c].recordId].capturedAtMs, t.records[t.chunks[d].recordId].capturedAtMs);
       a < b || (a == b && t.chunks[c].ord <= t.chunks[d].ord)
  }

  /** As many pending chunks as there are, up to the limit, in order, and none left out is older. */
  ghost predicate OldestFirst(t: Truth, limit: nat, picked: seq<string>) {
    && Distinct(picked) && (forall c | c in picked :: c in t.chunks && t.chunks[c].flushedAtMs == 0)
    && |picked| <= limit
    && (forall i, j | 0 <= i < j < |picked| :: NoLater(t, picked[i], picked[j]))
    && (forall d | d in t.chunks && t.chunks[d].flushedAtMs == 0 && d !in picked ::
          |picked| == limit && forall c | c in picked :: NoLater(t, c, d))
  }

  lemma SelectionIsOldestFirst(t: Truth, limit: nat, picked: seq<string>)
    requires Consistent(t) && Selects(Pending(t), FlushKey(t), limit, picked)
    ensures OldestFirst(t, limit, picked)
  {
    if d :| d in Pending(t) && d !in picked && |picked| < limit {
      SelectedWhole(Pending(t), picked);
    }
    forall c, d | c in t.chunks && d in t.chunks && KeyAtMost(FlushKey(t)(c), FlushKey(t)(d))
      ensures NoLater(t, c, d)
    {
    }
  }

  /** A selection as large as what it selects from leaves nothing out. */
  lemma SelectedWhole(from: set<string>, picked: seq<string>)
    requires Distinct(picked) && |picked| == |from| && forall i | 0 <= i < |picked| :: picked[i] in from
    ensures Elements(picked) == from
  {
    DistinctSize(picked);
    assert Elements(picked) <= from;
    assert from == Elements(picked) + (from - Elements(picked));
    assert |from| == |Elements(picked)| + |from - Elements(picked)|;
  }

  function Elements<T>(xs: seq<T>): set<T> {
    set i | 0 <= i < |xs| :: xs[i]
  }

  lemma {:induction false} DistinctSize<T>(xs: seq<T>)
    requires Distinct(xs)
    ensures |Elements(xs)| == |xs|
  {
    if xs == [] {
    } else {
      var front := xs[..|xs| - 1];
      DistinctSize(front);
      assert Elements(xs) == Elements(front) + {xs[|xs| - 1]};
      assert xs[|xs| - 1] !in Elements(front);
    }
  }

  // ----- the Lance index ------------------------------------------------------

  function Rows(ix: Index): seq<Row> {
    if ix.Missing? then [] else ix.rows
  }

  /** The row a flush writes for a chunk: the chunk joined with its record. */
  function JoinRow(t: Truth, c: string, dim: nat): Row
    requires c in t.chunks && t.chunks[c].recordId in t.records
  {
    var chunk := t.chunks[c];
    var record := t.records[chunk.recordId];
    Row(c, chunk.recordId, chunk.ord, chunk.text, record.source, record.capturedAtMs, dim)
  }

  /** The row has the chunk's fields and its record's. */
  ghost predicate RowSays(t: Truth, r: Row, c: string, dim: nat) {
    && c in t.chunks && t.chunks[c].recordId in t.records
    && r == Row(c, t.chunks[c].recordId, t.chunks[c].ord, t.chunks[c].text, t.records[t.chunks[c].recordId].source,
                t.records[t.chunks[c].recordId].capturedAtMs, dim)
  }

  function JoinRows(t: Truth, ids: seq<string>, dim: nat): (rows: seq<Row>)
    requires forall i | 0 <= i < |ids| :: ids[i] in t.chunks && t.chunks[ids[i]].recordId in t.records
    ensures |rows| == |ids|
    ensures forall i | 0 <= i < |ids| :: rows[i] == JoinRow(t, ids[i], dim)
  {
    seq(|ids|, i requires 0 <= i < |ids| => JoinRow(t, ids[i], dim))
  }

  function WithoutRecords(rows: seq<Row>, ids: set<string>): (kept: seq<Row>)
    ensures |kept| <= |rows|
  {
    if rows == [] then []
    else (if rows[0].recordId in ids then [] else [rows[0]]) + WithoutRecords(rows[1..], ids)
  }

  lemma {:induction false} WithoutRecordsCount(rows: seq<Row>, ids: set<string>, r: Row)
    ensures multiset(WithoutRecords(rows, ids))[r] == (if r.recordId in ids then 0 else multiset(rows)[r])
  {
    if rows == [] {
    } else {
      WithoutRecordsCount(rows[1..], ids, r);
      assert rows == [rows[0]] + rows[1..];
    }
  }

  function IndexWithoutRecords(ix: Index, ids: set<string>): Index {
    if ix.Missing? then Missing else Table(WithoutRecords(ix.rows, ids))
  }

  /** Distinct chunks give distinct rows, so a batch adds each of its rows once. */
  lemma {:induction false} JoinRowsCount(t: Truth, ids: seq<string>, dim: nat, r: Row)
    requires Distinct(ids)
    requires forall i | 0 <= i < |ids| :: ids[i] in t.chunks && t.chunks[ids[i]].recordId in t.records
    ensures multiset(JoinRows(t, ids, dim))[r]
         == (if r.chunkId in ids && r == JoinRow(t, r.chunkId, dim) then 1 else 0)
  {
    if ids == [] {
    } else {
      var n := |ids| - 1;
      JoinRowsCount(t, ids[..n], dim, r);
      assert JoinRows(t, ids, dim) == JoinRows(t, ids[..n], dim) + [JoinRow(t, ids[n], dim)];
      assert r.chunkId in ids <==> r.chunkId in ids[..n] || r.chunkId == ids[n];
    }
  }
}
