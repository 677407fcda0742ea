/** Owner deletion across both stores: the index first, so that nothing searchable outlives the truth. */
module Deletion {
  import opened Wrappers
  import opened Vault
  import opened Protocol
  import opened Guarantees
  import opened Blocklist
  import opened Store
  import opened LanceWriter

  datatype DeletionReport = DeletionReport(records: nat, indexedChunks: nat)

  datatype DeletionError = TruthFailed(store: StoreError) | IndexFailed(index: FlushError)

  /** The durable effects of a deletion: the index first, and a SQLite delete that fails is a stop. */
  function DeleteSteps(ids: set<string>, resolves: bool, lanceWorks: bool, canDelete: bool): seq<Step> {
    if !resolves || (ids != {} && !lanceWorks) then []
    else if canDelete then [DeleteRows(ids), Step.DeleteRecords]
    else [DeleteRows(ids), Stop]
  }

  /** Nothing of the record is left: not itself, no chunk, no row. */
  ghost predicate IsGone(t: Truth, ix: Index, id: string) {
    && id !in t.records && (forall c | c in t.chunks :: t.chunks[c].recordId != id)
    && forall i | 0 <= i < |Rows(ix)| :: Rows(ix)[i].recordId != id
  }

  lemma DomainIsGone(t: Truth, ix: Index, web: Web, scope: DeleteScope, id: string, h: string)
    requires scope.Domain? && PlainDomain(web, scope.domain) && id in t.records && HasHost(web, t.records[id], h)
    ensures var ids := InScope(t, web, scope);
            if EndsWith(Labels(web.unicode.lower(h)), Labels(scope.domain))
            then IsGone(Deleted(t, ids), IndexWithoutRecords(ix, ids), id)
            else id in Deleted(t, ids).records && Deleted(t, ids).records[id] == t.records[id]
  {
    hide InScope, HasHost, Labels, EndsWith, PlainDomain;
    DomainScopesIff(t, web, scope);
    var ids := InScope(t, web, scope);
    var rows := Rows(IndexWithoutRecords(ix, ids));
    forall i | 0 <= i < |rows| ensures rows[i].recordId !in ids {
      WithoutRecordsMembers(Rows(ix), ids, rows[i]);
      assert rows[i] in rows;
    }
  }

  lemma InScopeExists(t: Truth, web: Web, scope: DeleteScope)
    ensures InScope(t, web, scope) <= t.records.Keys
  {
  }

  method DeleteEverywhere(store: Store, writer: LanceWriter, web: Web, scope: DeleteScope,
                          canRead: bool, lanceWorks: bool, canDelete: bool)
    returns (r: Result<DeletionReport, DeletionError>, ghost steps: seq<Step>)
    requires Consistent(store.Contents())
    modifies store, writer
    ensures r.Success? <==>
              && ValidScope(web, scope) && canRead && canDelete
              && (lanceWorks || InScope(old(store.Contents()), web, scope) == {})
    ensures r.Success? ==>
              var ids := InScope(old(store.Contents()), web, scope);
              && store.Contents() == Deleted(old(store.Contents()), ids)
              && writer.table == IndexWithoutRecords(old(writer.table), ids)
              && r.value.records == |ids|
              && r.value.indexedChunks == |Rows(old(writer.table))| - |Rows(writer.table)|
    ensures r.Success? && scope.Domain? && PlainDomain(web, scope.domain) ==>
              forall id, h | id in old(store.records) && HasHost(web, old(store.records)[id], h) ::
                if EndsWith(Labels(web.unicode.lower(h)), Labels(scope.domain))
                then IsGone(store.Contents(), writer.table, id)
                else id in store.records && store.records[id] == old(store.records)[id]
    ensures r.Failure? ==> store.Contents() == old(store.Contents())
    ensures r.Failure? && r.error.IndexFailed? ==> writer.table == old(writer.table)
    ensures r.Failure? ==>
              writer.table == if steps == [] then old(writer.table)
                              else IndexWithoutRecords(old(writer.table), InScope(old(store.Contents()), web, scope))
    ensures steps == DeleteSteps(InScope(old(store.Contents()), web, scope), ValidScope(web, scope) && canRead,
                                 lanceWorks, canDelete)
    ensures !ValidScope(web, scope) ==>
              r == Failure(TruthFailed(InvalidDeleteScope)) && writer.table == old(writer.table)
    ensures Path(System(old(writer.Sees(store)), Idle), steps, System(writer.Sees(store), Idle))
  {
    hide InScope, ValidScope, Consistent, Ascending, Distinct, NoOrphans, Deleted, Hits, Path;
    hide HasHost, PlainDomain, EndsWith, Labels, IsGone;
    ghost var s := System(writer.Sees(store), Idle);
    PathStarts(s);
    steps := [];
    var resolved := store.RecordIdsForDelete(web, scope, canRead);
    if resolved.Failure? {
      return Failure(TruthFailed(resolved.error)), steps;
    }
    var ids := resolved.value;
    ghost var targets := Elements(ids);
    assert ids != [] ==> ids[0] in targets;
    var indexed := writer.DeleteRecords(ids, lanceWorks);
    if indexed.Failure? {
      return Failure(IndexFailed(indexed.error)), steps;
    }
    ghost var rowsGone := System(writer.Sees(store), RowsDeleted(targets));
    assert Do(s, DeleteRows(targets)) == rowsGone;
    PathExtends(s, steps, s, DeleteRows(targets));
    steps := steps + [DeleteRows(targets)];

    var deleted := store.DeleteRecords(ids, canDelete);
    if deleted.Failure? {
      PathExtends(s, steps, rowsGone, Stop);
      steps := steps + [Stop];
      return Failure(TruthFailed(deleted.error)), steps;
    }
    PathExtends(s, steps, rowsGone, DeleteRecords);
    steps := steps + [DeleteRecords];
    InScopeExists(s.vault.truth, web, scope);
    AllHit(s.vault.truth, targets);
    if scope.Domain? && PlainDomain(web, scope.domain) {
      forall id, h | id in s.vault.truth.records && HasHost(web, s.vault.truth.records[id], h)
        ensures if EndsWith(Labels(web.unicode.lower(h)), Labels(scope.domain))
                then IsGone(store.Contents(), writer.table, id)
                else id in store.records && store.records[id] == s.vault.truth.records[id]
      {
        DomainIsGone(s.vault.truth, s.vault.index, web, scope, id, h);
      }
    }
    return Success(DeletionReport(deleted.value, indexed.value)), steps;
  }

  lemma AllHit(t: Truth, ids: set<string>)
    requires ids <= t.records.Keys
    ensures Hits(t, ids) == |ids|
  {
    assert t.records.Keys * ids == ids;
  }

  /** A completed deletion leaves nothing of the scope in either store and everything else as it was. */
  lemma DeletionRemovesExactly(v: Vault, ids: set<string>)
    requires NoOrphans(v)
    ensures var v' := Vault(Deleted(v.truth, ids), IndexWithoutRecords(v.index, ids), v.dim);
            && (forall r: Row ::
                  multiset(Rows(v'.index))[r] == if r.recordId in ids then 0 else multiset(Rows(v.index))[r])
            && (forall x :: x in v'.truth.records <==> x in v.truth.records && x !in ids)
            && (forall x | x in v'.truth.records :: v'.truth.records[x] == v.truth.records[x])
            && (forall c :: c in v'.truth.chunks <==> c in v.truth.chunks && v.truth.chunks[c].recordId !in ids)
            && (forall c | c in v'.truth.chunks :: v'.truth.chunks[c] == v.truth.chunks[c])
            && (forall c | c in v.truth.chunks && v.truth.chunks[c].recordId in ids :: !HasAnyRow(v', c))
  {
    var v' := Vault(Deleted(v.truth, ids), IndexWithoutRecords(v.index, ids), v.dim);
    forall r: Row
      ensures multiset(Rows(v'.index))[r] == if r.recordId in ids then 0 else multiset(Rows(v.index))[r]
    {
      WithoutRecordsCount(Rows(v.index), ids, r);
    }
    forall c, i | c in v.truth.chunks && v.truth.chunks[c].recordId in ids && 0 <= i < |Rows(v'.index)|
      ensures Rows(v'.index)[i].chunkId != c
    {
      WithoutRecordsMembers(Rows(v.index), ids, Rows(v'.index)[i]);
      assert Rows(v'.index)[i] in Rows(v.index);
      assert forall r | r in Rows(v.index) :: RowHasOwner(v, r);
    }
  }

  /** An exact index, which is what a rebuild leaves, holds no row of a record the truth lacks: a
      rebuild cannot bring deleted content back. */
  lemma RebuildCannotResurrect(v: Vault, id: string)
    requires Consistent(v.truth) && Exact(v) && id !in v.truth.records
    ensures forall r | r in Rows(v.index) :: r.recordId != id
  {
    ExactMembers(v);
  }
}
