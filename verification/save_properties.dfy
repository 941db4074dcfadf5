/**
 Properties of the save protocol of the versioned-record store: what each of
 its three branches does to the records table, that items are replaced
 wholesale, that a fault anywhere rolls everything back, and that every
 save keeps the store invariant, in particular at most one final record per
 lineage.
 */
module SaveProperties {
  import opened Wrappers
  import opened Estimates
  import opened Database

  // ---------------------------------------------------------------------------
  // the three branches, stated declaratively

  /** The save refreshes the lineage's existing final record. */
  predicate FinalizesInPlace(st: Store, req: SaveRequest) {
    var root := AdoptedRoot(st, req.parentId);
    Truthy(root) && FindFinal(st, root.value).Some? && req.isFinal
  }

  /** The save starts a new lineage: no parent, or one that does not resolve. */
  predicate StartsLineage(st: Store, req: SaveRequest) {
    !Truthy(AdoptedRoot(st, req.parentId))
  }

  /** The id a successful save returns. */
  function SavedId(st: Store, req: SaveRequest): nat {
    if FinalizesInPlace(st, req) then FindFinal(st, AdoptedRoot(st, req.parentId).value).value
    else st.lastId + 1
  }

  /** The records table after a successful save. */
  function SavedRecords(st: Store, req: SaveRequest, now: nat): map<nat, Record> {
    var id := SavedId(st, req);
    if StartsLineage(st, req) then
      st.records[id := NewRecord(req, Some(id), None, now)]
    else if FinalizesInPlace(st, req) then
      UpdateFinal(st, id, req, now).records
    else
      st.records[id := NewRecord(req, AdoptedRoot(st, req.parentId), req.parentId, now)]
  }

  // ---------------------------------------------------------------------------
  // fault-free runs

  lemma {:induction false} InsertItemsNoFault(st: Store, id: nat, items: seq<LineItem>, k: nat)
    ensures InsertItems(st, id, items, k, None).Success?
    ensures var w := InsertItems(st, id, items, k, None).value;
      && w.id == id
      && w.store.records == st.records
      && w.store.lastId == st.lastId
      && ItemsOf(w.store, id) == ItemsOf(st, id) + items
      && (forall j | j != id :: ItemsOf(w.store, j) == ItemsOf(st, j))
      && w.store.items.Keys <= st.items.Keys + {id}
    decreases |items|
  {
    if items == [] {
      assert ItemsOf(st, id) + items == ItemsOf(st, id);
    } else {
      var next := AppendItem(st, id, items[0]);
      InsertItemsNoFault(next, id, items[1..], k + 1);
      assert ItemsOf(next, id) == ItemsOf(st, id) + [items[0]];
      assert ItemsOf(st, id) + [items[0]] + items[1..] == ItemsOf(st, id) + items;
    }
  }

  /** A save with no fault commits: it returns `SavedId`, the records table
      becomes `SavedRecords`, the saved record's items are exactly the
      supplied ones, and every other record's items are untouched. */
  lemma SaveCommitted(st: Store, req: SaveRequest, now: nat)
    ensures var out := SaveEstimate(st, req, now, None);
      && out.result == Success(SavedId(st, req))
      && out.store.records == SavedRecords(st, req, now)
      && out.store.lastId == (if FinalizesInPlace(st, req) then st.lastId else st.lastId + 1)
      && ItemsOf(out.store, SavedId(st, req)) == req.items
      && (forall j | j != SavedId(st, req) :: ItemsOf(out.store, j) == ItemsOf(st, j))
      && out.store.items.Keys <= st.items.Keys + {SavedId(st, req)}
  {
    var w := WriteNoFault(st, req, now);
    var stored := ReplaceItemsNoFault(w, req.items);
    assert Exec(stored.next, None).Success?;
  }

  /** The record write of a fault-free save: after `BEGIN` and the root
      lookup, it writes `SavedRecords` under `SavedId` and touches no items. */
  lemma WriteNoFault(st: Store, req: SaveRequest, now: nat) returns (w: Written)
    ensures var root := AdoptedRoot(st, req.parentId);
      var k1 := if Truthy(req.parentId) then 2 else 1;
      && Exec(0, None) == Success(1)
      && ResolveRoot(st, req.parentId, 1, None) == Success(k1)
      && (if Truthy(root) then WriteInLineage(st, req, root.value, now, k1, None)
          else StartLineage(st, req, now, k1, None)) == Success(w)
    ensures w.id == SavedId(st, req)
    ensures w.store.records == SavedRecords(st, req, now)
    ensures w.store.items == st.items
    ensures w.store.lastId == (if FinalizesInPlace(st, req) then st.lastId else st.lastId + 1)
  {
    var root := AdoptedRoot(st, req.parentId);
    var k1 := if Truthy(req.parentId) then 2 else 1;
    var written :=
      if Truthy(root) then WriteInLineage(st, req, root.value, now, k1, None)
      else StartLineage(st, req, now, k1, None);
    w := written.value;
  }

  /** Replacing the items without a fault: the written record's items become
      exactly the supplied ones and nothing else changes. */
  lemma ReplaceItemsNoFault(w: Written, items: seq<LineItem>) returns (stored: Written)
    ensures ReplaceItems(w, items, None) == Success(stored)
    ensures stored.id == w.id && stored.store.records == w.store.records && stored.store.lastId == w.store.lastId
    ensures ItemsOf(stored.store, w.id) == items
    ensures forall j | j != w.id :: ItemsOf(stored.store, j) == ItemsOf(w.store, j)
    ensures stored.store.items.Keys <= w.store.items.Keys + {w.id}
  {
    var deleted := DeleteItems(w.store, w.id);
    InsertItemsNoFault(deleted, w.id, items, w.next + 1);
    assert ItemsOf(deleted, w.id) == [];
    assert forall j | j != w.id :: ItemsOf(deleted, j) == ItemsOf(w.store, j);
    stored := InsertItems(deleted, w.id, items, w.next + 1, None).value;
  }

  // ---------------------------------------------------------------------------
  // faults roll everything back

  lemma {:induction false} InsertItemsFaultOnlyAborts(st: Store, id: nat, items: seq<LineItem>, k: nat, fault: Option<nat>)
    ensures InsertItems(st, id, items, k, fault).Failure?
         || InsertItems(st, id, items, k, fault) == InsertItems(st, id, items, k, None)
    decreases |items|
  {
    if items != [] && fault != Some(k) {
      InsertItemsFaultOnlyAborts(AppendItem(st, id, items[0]), id, items[1..], k + 1, fault);
    }
  }

  /** All or nothing: whatever statement raises, the call either fails and
      leaves the store exactly as it was, or commits exactly what a save
      without any fault commits. */
  lemma SaveAllOrNothing(st: Store, req: SaveRequest, now: nat, fault: Option<nat>)
    ensures var out := SaveEstimate(st, req, now, fault);
      || (out.result.Failure? && out.store == st)
      || out == SaveEstimate(st, req, now, None)
  {
    var t := Transaction(st, req, now, fault);
    if t.Success? {
      var k1 := if Truthy(req.parentId) then 2 else 1;
      assert ResolveRoot(st, req.parentId, 1, fault) == Success(k1);
      var w := WriteFaultOnlyAborts(st, req, now, k1, fault);
      ReplaceItemsFaultOnlyAborts(w, req.items, fault);
    }
  }

  /** A record write that does not raise writes what a fault-free one writes. */
  lemma WriteFaultOnlyAborts(st: Store, req: SaveRequest, now: nat, k: nat, fault: Option<nat>) returns (w: Written)
    ensures var root := AdoptedRoot(st, req.parentId);
      var written := if Truthy(root) then WriteInLineage(st, req, root.value, now, k, fault)
                     else StartLineage(st, req, now, k, fault);
      && (if Truthy(root) then WriteInLineage(st, req, root.value, now, k, None)
          else StartLineage(st, req, now, k, None)) == Success(w)
      && (written.Failure? || written == Success(w))
  {
    var root := AdoptedRoot(st, req.parentId);
    var clean := if Truthy(root) then WriteInLineage(st, req, root.value, now, k, None)
                 else StartLineage(st, req, now, k, None);
    w := clean.value;
  }

  /** An item replacement that does not raise stores what a fault-free one stores. */
  lemma ReplaceItemsFaultOnlyAborts(w: Written, items: seq<LineItem>, fault: Option<nat>)
    ensures ReplaceItems(w, items, fault).Failure? || ReplaceItems(w, items, fault) == ReplaceItems(w, items, None)
  {
    InsertItemsFaultOnlyAborts(DeleteItems(w.store, w.id), w.id, items, w.next + 1, fault);
  }

  /** Any fault makes the whole save fail with the store unchanged, as long as
      it hits one of the statements the save runs; a save with no fault always
      succeeds. */
  lemma SaveFailsOnlyByFault(st: Store, req: SaveRequest, now: nat, fault: Option<nat>)
    ensures SaveEstimate(st, req, now, None).result.Success?
    ensures SaveEstimate(st, req, now, fault).result.Failure? ==>
      && fault.Some?
      && SaveEstimate(st, req, now, fault).result == Failure(SaveError(fault.value))
      && SaveEstimate(st, req, now, fault).store == st
  {
    SaveCommitted(st, req, now);
    if SaveEstimate(st, req, now, fault).result.Failure? {
      FailureNamesFault(st, req, now, fault);
    }
  }

  lemma {:induction false} InsertItemsFailureNamesFault(st: Store, id: nat, items: seq<LineItem>, k: nat, fault: Option<nat>)
    ensures InsertItems(st, id, items, k, fault).Failure? ==>
      fault.Some? && InsertItems(st, id, items, k, fault).error == SaveError(fault.value)
    decreases |items|
  {
    if items != [] && fault != Some(k) {
      InsertItemsFailureNamesFault(AppendItem(st, id, items[0]), id, items[1..], k + 1, fault);
    }
  }

  lemma FailureNamesFault(st: Store, req: SaveRequest, now: nat, fault: Option<nat>)
    requires Transaction(st, req, now, fault).Failure?
    ensures fault.Some? && Transaction(st, req, now, fault).error == SaveError(fault.value)
  {
    var root := AdoptedRoot(st, req.parentId);
    var k1 := if Truthy(req.parentId) then 2 else 1;
    if fault != Some(0) && !(Truthy(req.parentId) && fault == Some(1)) {
      assert ResolveRoot(st, req.parentId, 1, fault) == Success(k1);
      var written :=
        if Truthy(root) then WriteInLineage(st, req, root.value, now, k1, fault)
        else StartLineage(st, req, now, k1, fault);
      if written.Success? {
        var w := written.value;
        InsertItemsFailureNamesFault(DeleteItems(w.store, w.id), w.id, req.items, w.next + 1, fault);
      }
    }
  }

  // ---------------------------------------------------------------------------
  // the final-record lookup

  /** In a well-formed store the rowid scan finds a final record of the
      lineage exactly when one exists, and then it is the only one. */
  lemma FindFinalIsTheFinal(st: Store, root: nat)
    requires WellFormed(st)
    ensures FindFinal(st, root).Some? <==> exists j | j in st.records :: IsFinalOf(st, j, root)
    ensures FindFinal(st, root).Some? ==>
      forall j | j in st.records && IsFinalOf(st, j, root) :: j == FindFinal(st, root).value
  {
    if FindFinal(st, root).None? {
      forall j | j in st.records ensures !IsFinalOf(st, j, root) {
        assert 0 <= j <= st.lastId;
      }
    }
  }

  // ---------------------------------------------------------------------------
  // the three branches

  lemma NewLineageRecords(st: Store, req: SaveRequest, now: nat)
    requires WellFormed(st)
    requires StartsLineage(st, req)
    ensures var id := st.lastId + 1;
      var recs := SavedRecords(st, req, now);
      && SavedId(st, req) == id
      && id !in st.records
      && recs == st.records[id := NewRecord(req, Some(id), None, now)]
      && |recs| == |st.records| + 1
      && (set j | j in recs && recs[j].rootId == Some(id)) == {id}
  {
    var id := st.lastId + 1;
    var recs := SavedRecords(st, req, now);
    forall j | j in st.records ensures st.records[j].rootId != Some(id) {
      assert RecordLinked(st, j);
    }
  }

  /** A save with no `parent_id`, or one that does not resolve, inserts
      exactly one record, whose root is its own id and whose parent is NULL;
      that record is alone in its lineage. */
  lemma SaveStartsNewLineage(st: Store, req: SaveRequest, now: nat)
    requires WellFormed(st)
    requires StartsLineage(st, req)
    ensures var out := SaveEstimate(st, req, now, None);
      var id := st.lastId + 1;
      && out.result == Success(id)
      && id !in st.records
      && out.store.records == st.records[id := NewRecord(req, Some(id), None, now)]
      && |out.store.records| == |st.records| + 1
      && Lineage(out.store, id) == {id}
  {
    SaveCommitted(st, req, now);
    NewLineageRecords(st, req, now);
  }

  lemma RevisionRecords(st: Store, req: SaveRequest, now: nat)
    requires WellFormed(st)
    requires !StartsLineage(st, req) && !FinalizesInPlace(st, req)
    ensures var id := st.lastId + 1;
      var root := AdoptedRoot(st, req.parentId);
      var recs := SavedRecords(st, req, now);
      && root == st.records[req.parentId.value].rootId
      && SavedId(st, req) == id
      && id !in st.records
      && recs == st.records[id := NewRecord(req, root, req.parentId, now)]
      && |recs| == |st.records| + 1
      && (set j | j in recs && recs[j].rootId == root) == (set j | j in st.records && st.records[j].rootId == root) + {id}
  {
  }

  /** A save whose parent resolves, and that does not refresh a final record,
      inserts exactly one record that adopts the parent's root and stores the
      given `parent_id`. */
  lemma SaveAddsRevision(st: Store, req: SaveRequest, now: nat)
    requires WellFormed(st)
    requires !StartsLineage(st, req) && !FinalizesInPlace(st, req)
    ensures var out := SaveEstimate(st, req, now, None);
      var id := st.lastId + 1;
      var root := st.records[req.parentId.value].rootId;
      && out.result == Success(id)
      && id !in st.records
      && out.store.records == st.records[id := NewRecord(req, root, req.parentId, now)]
      && |out.store.records| == |st.records| + 1
      && Lineage(out.store, root.value) == Lineage(st, root.value) + {id}
  {
    SaveCommitted(st, req, now);
    RevisionRecords(st, req, now);
  }

  lemma InPlaceRecords(st: Store, req: SaveRequest, now: nat)
    requires WellFormed(st)
    requires FinalizesInPlace(st, req)
    ensures var root := AdoptedRoot(st, req.parentId).value;
      var f := FindFinal(st, root).value;
      var recs := SavedRecords(st, req, now);
      && SavedId(st, req) == f
      && f in st.records
      && recs.Keys == st.records.Keys
      && |recs| == |st.records|
      && (set j | j in recs && recs[j].rootId == Some(root)) == Lineage(st, root)
      && recs[f] == st.records[f].(customerInfo := req.customerInfo, companyInfo := req.companyInfo,
                                   totalAmount := req.totalAmount, filename := req.filename, updatedAt := now)
      && (forall j | j in st.records && j != f :: recs[j] == st.records[j])
  {
    var root := AdoptedRoot(st, req.parentId).value;
    FindFinalIsTheFinal(st, root);
    var f := FindFinal(st, root).value;
    assert SavedId(st, req) == f;
    assert SavedRecords(st, req, now) == UpdateFinal(st, f, req, now).records;
    UpdateFinalKeepsLinks(st, f, req, now);
  }

  /** Refreshing a record in place touches no key, link, finality or creation
      time, and no other record. */
  lemma UpdateFinalKeepsLinks(st: Store, id: nat, req: SaveRequest, now: nat)
    requires id in st.records
    ensures var recs := UpdateFinal(st, id, req, now).records;
      && recs.Keys == st.records.Keys
      && (forall j | j in recs :: recs[j].rootId == st.records[j].rootId)
      && (forall j | j in recs :: recs[j].parentId == st.records[j].parentId)
      && (forall j | j in recs :: recs[j].isFinal == st.records[j].isFinal)
      && (forall j | j in recs :: recs[j].createdAt == st.records[j].createdAt)
      && (forall root: nat :: (set j | j in recs && recs[j].rootId == Some(root)) == Lineage(st, root))
      && (forall j | j in st.records && j != id :: recs[j] == st.records[j])
  {
    var recs := UpdateFinal(st, id, req, now).records;
    forall root: nat ensures (set j | j in recs && recs[j].rootId == Some(root)) == Lineage(st, root) {
      assert forall j | j in recs :: recs[j].rootId == st.records[j].rootId;
    }
  }

  /** Saving as final into a lineage that already has a final record updates
      that record in place: same id, no record added, new payload, total,
      filename and `updated_at`; root, parent, finality and `created_at`
      unchanged; every other record unchanged. */
  lemma SaveFinalizesInPlace(st: Store, req: SaveRequest, now: nat)
    requires WellFormed(st)
    requires FinalizesInPlace(st, req)
    ensures var out := SaveEstimate(st, req, now, None);
      var root := AdoptedRoot(st, req.parentId).value;
      var f := FindFinal(st, root).value;
      && out.result == Success(f)
      && f in st.records
      && out.store.records.Keys == st.records.Keys
      && |out.store.records| == |st.records|
      && Lineage(out.store, root) == Lineage(st, root)
      && out.store.records[f] == st.records[f].(customerInfo := req.customerInfo, companyInfo := req.companyInfo,
                                                totalAmount := req.totalAmount, filename := req.filename,
                                                updatedAt := now)
      && (forall j | j in st.records && j != f :: out.store.records[j] == st.records[j])
  {
    SaveCommitted(st, req, now);
    InPlaceRecords(st, req, now);
  }

  /** After a successful save, whatever fault was injected elsewhere, the
      saved record's items are exactly the supplied items and every other
      record's items are unchanged. */
  lemma SaveReplacesItems(st: Store, req: SaveRequest, now: nat, fault: Option<nat>)
    requires SaveEstimate(st, req, now, fault).result.Success?
    ensures var out := SaveEstimate(st, req, now, fault);
      && ItemsOf(out.store, out.result.value) == req.items
      && forall j | j != out.result.value :: ItemsOf(out.store, j) == ItemsOf(st, j)
  {
    SaveAllOrNothing(st, req, now, fault);
    SaveCommitted(st, req, now);
  }

  // ---------------------------------------------------------------------------
  // the invariant

  /** Every save, committed or rolled back, keeps the store well formed; in
      particular each lineage still has at most one final record. */
  lemma SavePreservesWellFormed(st: Store, req: SaveRequest, now: nat, fault: Option<nat>)
    requires WellFormed(st)
    ensures WellFormed(SaveEstimate(st, req, now, fault).store)
    ensures AtMostOneFinalPerLineage(SaveEstimate(st, req, now, fault).store)
  {
    SaveAllOrNothing(st, req, now, fault);
    CommittedStoreWellFormed(st, req, now);
  }

  /** Refreshing a record in place keeps the store well formed. */
  lemma UpdateFinalWellFormed(st: Store, f: nat, req: SaveRequest, now: nat, out: Store)
    requires WellFormed(st) && f in st.records
    requires out.records == UpdateFinal(st, f, req, now).records
    requires out.lastId == st.lastId && out.items.Keys <= st.items.Keys + {f}
    ensures WellFormed(out)
  {
    UpdateFinalKeepsLinks(st, f, req, now);
    assert out.records.Keys == st.records.Keys;
    forall j | j in out.records ensures RecordLinked(out, j) {
      assert RecordLinked(st, j);
    }
    assert AtMostOneFinalPerLineage(st);
  }

  /** Adding a row under a fresh id leaves every existing row linked. */
  lemma AddKeepsLinks(st: Store, out: Store, id: nat, rec: Record)
    requires id !in st.records && out.records == st.records[id := rec]
    requires forall j | j in st.records :: RecordLinked(st, j)
    ensures forall j | j in st.records :: RecordLinked(out, j)
  {
    forall j | j in st.records ensures RecordLinked(out, j) {
      assert RecordLinked(st, j);
    }
  }

  /** Inserting one row under the next id keeps the store well formed when the
      row either starts its own lineage or joins an older row's lineage, and it
      is final only if its lineage had no final record. */
  lemma AddRecordWellFormed(st: Store, rec: Record, out: Store)
    requires WellFormed(st)
    requires var id := st.lastId + 1;
      && out.records == st.records[id := rec] && out.lastId == id
      && out.items.Keys <= st.items.Keys + {id}
    requires || (rec.rootId == Some(st.lastId + 1) && rec.parentId.None?)
             || (&& rec.parentId.Some? && rec.parentId.value in st.records
                 && rec.rootId == st.records[rec.parentId.value].rootId)
    requires rec.isFinal ==> forall j | j in st.records && st.records[j].rootId == rec.rootId :: !st.records[j].isFinal
    ensures WellFormed(out)
  {
    var id := st.lastId + 1;
    assert id !in st.records;
    AddKeepsLinks(st, out, id, rec);
    if rec.parentId.Some? {
      assert RecordLinked(st, rec.parentId.value);
    }
    assert RecordLinked(out, id);
    forall j | j in st.records ensures st.records[j].rootId != Some(id) {
      assert RecordLinked(st, j);
    }
  }

  lemma CommittedStoreWellFormed(st: Store, req: SaveRequest, now: nat)
    requires WellFormed(st)
    ensures WellFormed(SaveEstimate(st, req, now, None).store)
  {
    SaveCommitted(st, req, now);
    var out := SaveEstimate(st, req, now, None).store;
    if FinalizesInPlace(st, req) {
      var root := AdoptedRoot(st, req.parentId).value;
      FindFinalIsTheFinal(st, root);
      UpdateFinalWellFormed(st, FindFinal(st, root).value, req, now, out);
    } else if StartsLineage(st, req) {
      NewLineageRecords(st, req, now);
      AddRecordWellFormed(st, NewRecord(req, Some(st.lastId + 1), None, now), out);
    } else {
      var root := AdoptedRoot(st, req.parentId);
      RevisionRecords(st, req, now);
      if req.isFinal {
        FindFinalIsTheFinal(st, root.value);
        forall j | j in st.records && st.records[j].rootId == root ensures !st.records[j].isFinal {
          assert !IsFinalOf(st, j, root.value);
        }
      }
      AddRecordWellFormed(st, NewRecord(req, root, req.parentId, now), out);
    }
  }

  // ---------------------------------------------------------------------------
  // from create_tables onwards

  /** One call of `save_estimate`: its arguments, the clock and the statement
      (if any) that raises. */
  datatype SaveCall = SaveCall(req: SaveRequest, now: nat, fault: Option<nat>)

  /** The store after running the calls one after another. */
  function RunSaves(st: Store, calls: seq<SaveCall>): Store
    decreases |calls|
  {
    if calls == [] then st
    else RunSaves(SaveEstimate(st, calls[0].req, calls[0].now, calls[0].fault).store, calls[1..])
  }

  /** The freshly created tables are well formed. */
  lemma EmptyStoreWellFormed()
    ensures WellFormed(EmptyStore())
    ensures EmptyStore().records == map[] && EmptyStore().items == map[]
  {
  }

  /** Any sequence of saves, each committing or rolling back, keeps a well
      formed store well formed. */
  lemma {:induction false} RunSavesWellFormed(st: Store, calls: seq<SaveCall>)
    requires WellFormed(st)
    ensures WellFormed(RunSaves(st, calls))
    decreases |calls|
  {
    if calls != [] {
      var c := calls[0];
      SavePreservesWellFormed(st, c.req, c.now, c.fault);
      RunSavesWellFormed(SaveEstimate(st, c.req, c.now, c.fault).store, calls[1..]);
    }
  }

  /** Starting from the empty tables, after any sequence of saves every
      lineage has at most one final record. */
  lemma SavesFromEmptyKeepOneFinal(calls: seq<SaveCall>)
    ensures WellFormed(RunSaves(EmptyStore(), calls))
    ensures AtMostOneFinalPerLineage(RunSaves(EmptyStore(), calls))
  {
    EmptyStoreWellFormed();
    RunSavesWellFormed(EmptyStore(), calls);
  }
}
