/**
 The count-based version number (`get_estimate_version`) against the save
 protocol and the load path: versions order the records of a lineage by
 creation time, the newest record has the lineage's size as its version, a
 save with a later clock gives the new record the next version and leaves
 every existing version alone, and loading a saved record gives back what
 was saved.
 */
module Versions {
  import opened Wrappers
  import opened Database
  import opened SaveProperties

  /** The newest record of a lineage (nothing created after it). */
  predicate Newest(st: Store, id: nat)
    requires id in st.records && st.records[id].rootId.Some?
  {
    forall j | j in Lineage(st, st.records[id].rootId.value) :: st.records[j].createdAt <= st.records[id].createdAt
  }

  // ---------------------------------------------------------------------------
  // versions within one store

  /** Within a lineage, a record created no later has a version no larger,
      and one created strictly earlier has a strictly smaller version. */
  lemma VersionMonotone(st: Store, i: nat, j: nat)
    requires i in st.records && j in st.records
    requires st.records[i].rootId.Some? && st.records[i].rootId == st.records[j].rootId
    ensures st.records[i].createdAt <= st.records[j].createdAt ==> GetEstimateVersion(st, i) <= GetEstimateVersion(st, j)
    ensures st.records[i].createdAt < st.records[j].createdAt ==> GetEstimateVersion(st, i) < GetEstimateVersion(st, j)
  {
    var ci, cj := AtOrBefore(st, i), AtOrBefore(st, j);
    if st.records[i].createdAt <= st.records[j].createdAt {
      assert ci <= cj;
      SubsetCard(ci, cj);
      if st.records[i].createdAt < st.records[j].createdAt {
        assert j in cj && j !in ci;
        SubsetCard(ci + {j}, cj);
      }
    }
  }

  /** The version equals the size of the lineage exactly for the newest
      record; every other record has a smaller version. */
  lemma VersionOfNewest(st: Store, id: nat)
    requires id in st.records && st.records[id].rootId.Some?
    ensures GetEstimateVersion(st, id) == |Lineage(st, st.records[id].rootId.value)| <==> Newest(st, id)
  {
    var root := st.records[id].rootId.value;
    var counted, lin := AtOrBefore(st, id), Lineage(st, root);
    assert counted <= lin;
    if Newest(st, id) {
      assert counted == lin;
    } else {
      var j :| j in lin && st.records[j].createdAt > st.records[id].createdAt;
      assert j !in counted;
      SubsetCard(counted + {j}, lin);
    }
  }

  /** Versions depend only on the keys, roots and creation times. */
  lemma VersionsFollowRootsAndTimes(a: Store, b: Store)
    requires a.records.Keys == b.records.Keys
    requires forall j | j in a.records :: a.records[j].rootId == b.records[j].rootId
    requires forall j | j in a.records :: a.records[j].createdAt == b.records[j].createdAt
    ensures forall j | j in a.records :: GetEstimateVersion(a, j) == GetEstimateVersion(b, j)
  {
    forall j | j in a.records ensures GetEstimateVersion(a, j) == GetEstimateVersion(b, j) {
      if a.records[j].rootId.Some? {
        assert AtOrBefore(a, j) == AtOrBefore(b, j);
      }
    }
  }

  // ---------------------------------------------------------------------------
  // versions across a save

  /** All records were created before `now`. */
  predicate AllBefore(st: Store, now: nat) {
    forall j | j in st.records :: st.records[j].createdAt < now
  }

  /** Adding one record at a time later than every existing one leaves every
      existing version unchanged. */
  lemma AddLaterKeepsVersions(st: Store, out: Store, id: nat, rec: Record)
    requires id !in st.records && out.records == st.records[id := rec]
    requires AllBefore(st, rec.createdAt)
    ensures forall j | j in st.records :: GetEstimateVersion(out, j) == GetEstimateVersion(st, j)
  {
    forall j | j in st.records ensures GetEstimateVersion(out, j) == GetEstimateVersion(st, j) {
      if st.records[j].rootId.Some? {
        assert AtOrBefore(out, j) == AtOrBefore(st, j);
      }
    }
  }

  /** A new revision saved after every existing record gets version
      "lineage size + 1", and no existing version moves. */
  lemma SaveRevisionVersions(st: Store, req: SaveRequest, now: nat)
    requires WellFormed(st) && AllBefore(st, now)
    requires !StartsLineage(st, req) && !FinalizesInPlace(st, req)
    ensures var out := SaveEstimate(st, req, now, None).store;
      var root := st.records[req.parentId.value].rootId.value;
      && GetEstimateVersion(out, st.lastId + 1) == |Lineage(st, root)| + 1
      && forall j | j in st.records :: GetEstimateVersion(out, j) == GetEstimateVersion(st, j)
  {
    SaveAddsRevision(st, req, now);
    var root := st.records[req.parentId.value].rootId;
    AddLaterVersions(st, SaveEstimate(st, req, now, None).store, st.lastId + 1, NewRecord(req, root, req.parentId, now));
  }

  /** Adding a record later than every existing one, under a fresh id: its
      version is its lineage's old size plus one and no other version moves. */
  lemma AddLaterVersions(st: Store, out: Store, id: nat, rec: Record)
    requires id !in st.records && out.records == st.records[id := rec]
    requires AllBefore(st, rec.createdAt) && rec.rootId.Some?
    ensures GetEstimateVersion(out, id) == |Lineage(st, rec.rootId.value)| + 1
    ensures forall j | j in st.records :: GetEstimateVersion(out, j) == GetEstimateVersion(st, j)
  {
    AddLaterKeepsVersions(st, out, id, rec);
    AddLatest(st, out, id, rec);
  }

  /** Adding a record under a fresh id at a time later than every existing
      one: its version is its lineage's old size plus one. */
  lemma AddLatest(st: Store, out: Store, id: nat, rec: Record)
    requires id !in st.records && out.records == st.records[id := rec]
    requires AllBefore(st, rec.createdAt) && rec.rootId.Some?
    ensures GetEstimateVersion(out, id) == |Lineage(st, rec.rootId.value)| + 1
  {
    var counted, lin := AtOrBefore(out, id), Lineage(st, rec.rootId.value);
    forall j | j in counted ensures j in lin + {id} {
    }
    forall j | j in lin + {id} ensures j in counted {
      if j != id {
        assert st.records[j].createdAt < rec.createdAt;
      }
    }
    assert counted == lin + {id};
  }

  /** A save that starts a lineage gives the new record version 1 and moves
      no existing version. */
  lemma SaveNewLineageVersions(st: Store, req: SaveRequest, now: nat)
    requires WellFormed(st) && AllBefore(st, now)
    requires StartsLineage(st, req)
    ensures var out := SaveEstimate(st, req, now, None).store;
      && GetEstimateVersion(out, st.lastId + 1) == 1
      && forall j | j in st.records :: GetEstimateVersion(out, j) == GetEstimateVersion(st, j)
  {
    SaveStartsNewLineage(st, req, now);
    var out := SaveEstimate(st, req, now, None).store;
    var id := st.lastId + 1;
    AddLaterKeepsVersions(st, out, id, NewRecord(req, Some(id), None, now));
    SoleMemberVersion(out, id);
  }

  /** The only record of its lineage has version 1. */
  lemma SoleMemberVersion(st: Store, id: nat)
    requires id in st.records && st.records[id].rootId == Some(id) && Lineage(st, id) == {id}
    ensures GetEstimateVersion(st, id) == 1
  {
    assert AtOrBefore(st, id) <= Lineage(st, id);
    assert id in AtOrBefore(st, id);
    assert AtOrBefore(st, id) == {id};
  }

  /** Refreshing the final record in place moves no version. */
  lemma SaveInPlaceVersions(st: Store, req: SaveRequest, now: nat)
    requires WellFormed(st)
    requires FinalizesInPlace(st, req)
    ensures var out := SaveEstimate(st, req, now, None).store;
      forall j | j in st.records :: GetEstimateVersion(out, j) == GetEstimateVersion(st, j)
  {
    SaveFinalizesInPlace(st, req, now);
    var out := SaveEstimate(st, req, now, None).store;
    var f := FindFinal(st, AdoptedRoot(st, req.parentId).value).value;
    forall j | j in st.records
      ensures out.records[j].rootId == st.records[j].rootId && out.records[j].createdAt == st.records[j].createdAt
    {
      if j == f {
      }
    }
    VersionsFollowRootsAndTimes(st, out);
  }

  // ---------------------------------------------------------------------------
  // save, then load

  /** Loading the id a save returned gives back the saved payloads, overlaid
      in the load order, the requested finality and exactly the saved items. */
  lemma LoadAfterSave(st: Store, req: SaveRequest, now: nat, fault: Option<nat>)
    requires WellFormed(st)
    requires SaveEstimate(st, req, now, fault).result.Success?
    ensures var out := SaveEstimate(st, req, now, fault);
      var id := out.result.value;
      LoadEstimate(out.store, id) == Some(Loaded(Merged(req.customerInfo, req.companyInfo, id, req.isFinal), req.items))
  {
    SaveAllOrNothing(st, req, now, fault);
    SaveReplacesItems(st, req, now, fault);
    if FinalizesInPlace(st, req) {
      SaveFinalizesInPlace(st, req, now);
      FindFinalIsTheFinal(st, AdoptedRoot(st, req.parentId).value);
    } else if StartsLineage(st, req) {
      SaveStartsNewLineage(st, req, now);
    } else {
      SaveAddsRevision(st, req, now);
    }
  }
}
