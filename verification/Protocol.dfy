/**
 The two-store protocol as a machine of durable effects. Every effect is atomic on its own store;
 between two effects of one operation the process may stop, by an error or by a crash, and the
 next operation starts from what is on disk.
 */
module Protocol {
  import opened Wrappers
  import opened Vault

  /** What the running operation has done and still has to do. */
  datatype Phase =
    | Idle
    | Added(batch: seq<string>)          // Lance holds the batch, SQLite is not stamped yet
    | RowsDeleted(ids: set<string>)      // Lance rows are gone, the records are not
    | Dropped                            // the table is gone, the stamps are not reset yet

  datatype System = System(vault: Vault, phase: Phase)

  datatype Step =
    | Insert(id: string, record: Record, chunks: seq<NewChunk>)
    | Merge(recordId: string, chunkId: string, incoming: Record, text: string)
    | CreateTable
    | AddRows(batch: seq<string>)
    | Stamp(nowMs: int)
    | DeleteRows(ids: set<string>)
    | DeleteRecords
    | Drop
    | Reset
    | Stop

  ghost predicate Enabled(s: System, step: Step) {
    var t := s.vault.truth;
    match step
    case Insert(id, _, cs) => s.phase.Idle? && CanInsert(t, id, cs)
    case Merge(rid, cid, _, _) => s.phase.Idle? && CanMerge(t, rid, cid)
    case CreateTable => s.phase.Idle? && s.vault.index.Missing?
    case AddRows(batch) =>
      && s.phase.Idle? && s.vault.index.Table?
      && IsBatch(t, batch)
      && (forall c | c in batch :: t.chunks[c].recordId in t.records)
    case Stamp(_) => s.phase.Added?
    case DeleteRows(_) => s.phase.Idle?
    case DeleteRecords => s.phase.RowsDeleted?
    case Drop => s.phase.Idle?
    case Reset => s.phase.Dropped?
    case Stop => true
  }

  ghost function Do(s: System, step: Step): System
    requires Enabled(s, step)
  {
    var v := s.vault;
    match step
    case Insert(id, r, cs) => System(v.(truth := Inserted(v.truth, id, r, cs)), Idle)
    case Merge(rid, cid, r, text) => System(v.(truth := Merged(v.truth, rid, cid, r, text)), Idle)
    case CreateTable => System(v.(index := Table([])), Idle)
    case AddRows(batch) =>
      System(v.(index := Table(v.index.rows + JoinRows(v.truth, batch, v.dim))), Added(batch))
    case Stamp(now) => System(v.(truth := StampedAt(v.truth, Elements(s.phase.batch), now)), Idle)
    case DeleteRows(ids) => System(v.(index := IndexWithoutRecords(v.index, ids)), RowsDeleted(ids))
    case DeleteRecords => System(v.(truth := Deleted(v.truth, s.phase.ids)), Idle)
    case Drop => System(v.(index := Missing), Dropped)
    case Reset => System(v.(truth := AllReset(v.truth)), Idle)
    case Stop => s.(phase := Idle)
  }

  /** The state after a run of steps, if every step of it was possible. */
  ghost function Exec(s: System, steps: seq<Step>): Option<System> {
    if steps == [] then Some(s)
    else
      var n := |steps| - 1;
      var before := Exec(s, steps[..n]);
      if before.Some? && Enabled(before.value, steps[n]) then Some(Do(before.value, steps[n])) else None
  }

  ghost predicate Path(s: System, steps: seq<Step>, s': System) {
    Exec(s, steps) == Some(s')
  }

  lemma PathStarts(s: System)
    ensures Path(s, [], s)
  {
  }

  lemma PathExtends(s: System, steps: seq<Step>, mid: System, step: Step)
    requires Path(s, steps, mid) && Enabled(mid, step)
    ensures Path(s, steps + [step], Do(mid, step))
  {
    assert (steps + [step])[..|steps|] == steps;
  }

  lemma {:induction false} PathJoins(s: System, a: seq<Step>, mid: System, b: seq<Step>, s': System)
    requires Path(s, a, mid) && Path(mid, b, s')
    ensures Path(s, a + b, s')
  {
    if b == [] {
      assert a + b == a;
    } else {
      var n := |b| - 1;
      PathJoins(s, a, mid, b[..n], Exec(mid, b[..n]).value);
      assert (a + b)[..|a + b| - 1] == a + b[..n];
    }
  }

  lemma {:induction false} PrefixRuns(s: System, steps: seq<Step>, s': System, i: nat)
    requires Path(s, steps, s') && i <= |steps|
    ensures Exec(s, steps[..i]).Some?
  {
    if i < |steps| {
      var n := |steps| - 1;
      PrefixRuns(s, steps[..n], Exec(s, steps[..n]).value, i);
      assert steps[..n][..i] == steps[..i];
    } else {
      assert steps[..i] == steps;
    }
  }

  /** A crash after any effect of a run is itself a run: what every run keeps, every crash keeps. */
  lemma CrashAnywhere(s: System, steps: seq<Step>, s': System, i: nat)
    requires Path(s, steps, s') && i <= |steps|
    ensures exists crashed :: Path(s, steps[..i] + [Stop], crashed) && crashed.phase.Idle?
                              && crashed.vault == Exec(s, steps[..i]).value.vault
  {
    PrefixRuns(s, steps, s', i);
    var mid := Exec(s, steps[..i]).value;
    PathExtends(s, steps[..i], mid, Stop);
    assert Do(mid, Stop).phase.Idle? && Do(mid, Stop).vault == mid.vault;
  }

  // ----- what every run keeps ----------------------------------------------

  /** Every Lance row belongs to a chunk and a record that SQLite still holds. */
  ghost predicate NoOrphans(v: Vault) {
    forall i | 0 <= i < |Rows(v.index)| :: RowHasOwner(v, Rows(v.index)[i])
  }

  ghost predicate RowHasOwner(v: Vault, r: Row) {
    && r.chunkId in v.truth.chunks
    && v.truth.chunks[r.chunkId].recordId == r.recordId
    && v.truth.chunks[r.chunkId].ord == r.ord
    && r.recordId in v.truth.records
    && r.vectorLen == v.dim
  }

  /** The row carries the chunk's present text. */
  ghost predicate CarriesChunk(v: Vault, r: Row, c: string) {
    c in v.truth.chunks && r.chunkId == c && r.recordId == v.truth.chunks[c].recordId
    && r.ord == v.truth.chunks[c].ord && r.text == v.truth.chunks[c].text
  }

  ghost predicate HasCurrentRow(v: Vault, c: string) {
    exists i | 0 <= i < |Rows(v.index)| :: CarriesChunk(v, Rows(v.index)[i], c)
  }

  ghost predicate HasAnyRow(v: Vault, c: string) {
    exists i | 0 <= i < |Rows(v.index)| :: Rows(v.index)[i].chunkId == c
  }

  ghost predicate PhaseFacts(s: System) {
    match s.phase
    case Idle => true
    case Added(batch) =>
      && Distinct(batch)
      && (forall c | c in batch :: c in Pending(s.vault.truth) && HasCurrentRow(s.vault, c))
    case RowsDeleted(ids) =>
      forall i | 0 <= i < |Rows(s.vault.index)| :: Rows(s.vault.index)[i].recordId !in ids
    case Dropped => Rows(s.vault.index) == []
  }

  /** The stamped chunks whose rows a deletion or a rebuild removed and no later step accounted for. */
  ghost function LostAfter(lost: set<string>, s: System, step: Step): set<string>
    requires Enabled(s, step)
  {
    match step
    case DeleteRows(ids) =>
      lost + set c | c in Stamped(s.vault.truth) && s.vault.truth.chunks[c].recordId in ids
    case DeleteRecords => lost * Deleted(s.vault.truth, s.phase.ids).chunks.Keys
    case Drop => Stamped(s.vault.truth)
    case Reset => {}
    case _ => lost
  }

  ghost function Lost(lost: set<string>, s: System, steps: seq<Step>): set<string>
    requires Exec(s, steps).Some?
  {
    if steps == [] then lost
    else
      var n := |steps| - 1;
      LostAfter(Lost(lost, s, steps[..n]), Exec(s, steps[..n]).value, steps[n])
  }

  /** A stamped chunk has a row with its present text unless it is lost, and a lost one has no row. */
  ghost predicate Accounted(v: Vault, lost: set<string>) {
    && lost <= Stamped(v.truth)
    && (forall c | c in Stamped(v.truth) && c !in lost :: HasCurrentRow(v, c))
    && (forall c | c in lost :: !HasAnyRow(v, c))
  }

  ghost predicate Invariant(s: System, lost: set<string>) {
    && Consistent(s.vault.truth)
    && NoOrphans(s.vault)
    && PhaseFacts(s)
    && Accounted(s.vault, lost)
  }

  /** A row that stays, for a chunk whose identity and text stay, keeps the chunk current. */
  lemma CurrentRowStays(v: Vault, v': Vault, c: string)
    requires HasCurrentRow(v, c)
    requires c in v'.truth.chunks
    requires v'.truth.chunks[c].recordId == v.truth.chunks[c].recordId
    requires v'.truth.chunks[c].ord == v.truth.chunks[c].ord
    requires v'.truth.chunks[c].text == v.truth.chunks[c].text
    requires forall r | r in Rows(v.index) && r.chunkId == c :: r in Rows(v'.index)
    ensures HasCurrentRow(v', c)
  {
    var i :| 0 <= i < |Rows(v.index)| && CarriesChunk(v, Rows(v.index)[i], c);
    var r := Rows(v.index)[i];
    assert r in Rows(v'.index);
    var j :| 0 <= j < |Rows(v'.index)| && Rows(v'.index)[j] == r;
    assert CarriesChunk(v', Rows(v'.index)[j], c);
  }

  lemma WithoutRecordsMembers(rows: seq<Row>, ids: set<string>, r: Row)
    ensures r in WithoutRecords(rows, ids) <==> r in rows && r.recordId !in ids
  {
    WithoutRecordsCount(rows, ids, r);
    assert r in multiset(WithoutRecords(rows, ids)) <==> r in WithoutRecords(rows, ids);
    assert r in multiset(rows) <==> r in rows;
  }

  lemma InsertKeeps(s: System, lost: set<string>, id: string, record: Record, cs: seq<NewChunk>)
    requires Invariant(s, lost) && Enabled(s, Insert(id, record, cs))
    ensures Invariant(Do(s, Insert(id, record, cs)), lost)
  {
    var v, v' := s.vault, Do(s, Insert(id, record, cs)).vault;
    WithChunksContents(v.truth.chunks, id, cs);
    assert forall c | c in v.truth.chunks :: v'.truth.chunks[c] == v.truth.chunks[c];
    forall c | c in Stamped(v'.truth) && c !in lost ensures HasCurrentRow(v', c) {
      CurrentRowStays(v, v', c);
    }
  }

  lemma MergeKeeps(s: System, lost: set<string>, rid: string, cid: string, incoming: Record, text: string)
    requires Invariant(s, lost) && Enabled(s, Merge(rid, cid, incoming, text))
    ensures Invariant(Do(s, Merge(rid, cid, incoming, text)), lost)
  {
    var v, v' := s.vault, Do(s, Merge(rid, cid, incoming, text)).vault;
    forall c | c in Stamped(v'.truth) && c !in lost ensures HasCurrentRow(v', c) {
      CurrentRowStays(v, v', c);
    }
  }

  lemma AddRowsKeeps(s: System, lost: set<string>, batch: seq<string>)
    requires Invariant(s, lost) && Enabled(s, AddRows(batch))
    ensures Invariant(Do(s, AddRows(batch)), lost)
  {
    var v, v' := s.vault, Do(s, AddRows(batch)).vault;
    var kept, added := Rows(v.index), JoinRows(v.truth, batch, v.dim);
    assert forall i | 0 <= i < |Rows(v'.index)| ::
        Rows(v'.index)[i] == if i < |kept| then kept[i] else added[i - |kept|];
    forall c | c in Stamped(v'.truth) && c !in lost ensures HasCurrentRow(v', c) {
      CurrentRowStays(v, v', c);
    }
    forall c | c in batch ensures HasCurrentRow(v', c) {
      var i :| 0 <= i < |batch| && batch[i] == c;
      assert CarriesChunk(v', Rows(v'.index)[|kept| + i], c);
    }
  }

  lemma StampKeeps(s: System, lost: set<string>, nowMs: int)
    requires Invariant(s, lost) && Enabled(s, Stamp(nowMs))
    ensures Invariant(Do(s, Stamp(nowMs)), lost)
  {
    var v, v' := s.vault, Do(s, Stamp(nowMs)).vault;
    forall c | c in Stamped(v'.truth) && c !in lost ensures HasCurrentRow(v', c) {
      assert c in s.phase.batch || c in Stamped(v.truth);
      CurrentRowStays(v, v', c);
    }
    assert forall c | c in lost :: c !in s.phase.batch;
  }

  lemma DeleteRowsKeeps(s: System, lost: set<string>, ids: set<string>)
    requires Invariant(s, lost) && Enabled(s, DeleteRows(ids))
    ensures Invariant(Do(s, DeleteRows(ids)), LostAfter(lost, s, DeleteRows(ids)))
  {
    var v, v' := s.vault, Do(s, DeleteRows(ids)).vault;
    var lost' := LostAfter(lost, s, DeleteRows(ids));
    forall r ensures r in Rows(v'.index) <==> r in Rows(v.index) && r.recordId !in ids {
      WithoutRecordsMembers(Rows(v.index), ids, r);
    }
    forall i | 0 <= i < |Rows(v'.index)| ensures RowHasOwner(v', Rows(v'.index)[i]) {
      assert Rows(v'.index)[i] in Rows(v.index);
    }
    forall c | c in Stamped(v'.truth) && c !in lost' ensures HasCurrentRow(v', c) {
      assert forall r | r in Rows(v.index) && r.chunkId == c :: RowHasOwner(v, r);
      CurrentRowStays(v, v', c);
    }
    forall c | c in lost' ensures !HasAnyRow(v', c) {
      forall i | 0 <= i < |Rows(v'.index)| ensures Rows(v'.index)[i].chunkId != c {
        assert Rows(v'.index)[i] in Rows(v.index);
        assert RowHasOwner(v, Rows(v'.index)[i]);
      }
    }
  }

  lemma DeleteRecordsKeeps(s: System, lost: set<string>)
    requires Invariant(s, lost) && Enabled(s, DeleteRecords)
    ensures Invariant(Do(s, DeleteRecords), LostAfter(lost, s, DeleteRecords))
  {
    var v, v' := s.vault, Do(s, DeleteRecords).vault;
    forall c | c in Stamped(v'.truth) && c !in LostAfter(lost, s, DeleteRecords) ensures HasCurrentRow(v', c) {
      CurrentRowStays(v, v', c);
    }
  }

  lemma StepKeepsInvariant(s: System, lost: set<string>, step: Step)
    requires Invariant(s, lost) && Enabled(s, step)
    ensures Invariant(Do(s, step), LostAfter(lost, s, step))
  {
    match step
    case Insert(id, record, cs) => InsertKeeps(s, lost, id, record, cs);
    case Merge(rid, cid, incoming, text) => MergeKeeps(s, lost, rid, cid, incoming, text);
    case AddRows(batch) => AddRowsKeeps(s, lost, batch);
    case Stamp(now) => StampKeeps(s, lost, now);
    case DeleteRows(ids) => DeleteRowsKeeps(s, lost, ids);
    case DeleteRecords => DeleteRecordsKeeps(s, lost);
    case CreateTable =>
    case Drop =>
    case Reset =>
    case Stop =>
      forall c | c in Stamped(s.vault.truth) && c !in lost ensures HasCurrentRow(Do(s, step).vault, c) {
        CurrentRowStays(s.vault, Do(s, step).vault, c);
      }
  }
}
