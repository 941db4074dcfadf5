/**
 The estimate history: one entry per record, newest first, each labelled
 "final" or `v<row number>` with a latest marker, plus the fall-back values
 for missing fields.

 The window `ROW_NUMBER() OVER (PARTITION BY root_id ORDER BY created_at)`
 numbers the records of a partition; SQL leaves the order of equal
 `created_at` values open, and this model breaks such ties by id. A NULL
 `root_id` forms a partition of its own, as in SQL window partitions, but
 never joins the per-root aggregate, so such a row is never marked latest.
 */
module History {
  import opened Wrappers
  import opened Text
  import opened Database

  /** One element of the list `get_estimate_history` returns. */
  datatype Entry = Entry(
    estimateId: nat,
    customerName: string,
    subject: string,
    estimateDate: string,
    total: int,
    filename: string,
    status: string,
    createdAt: nat,
    version: nat)

  /** The marker appended to the label of the newest revision. */
  const LatestMarker: string := "[최신]"

  /** The records sharing `id`'s window partition. */
  function Partition(st: Store, id: nat): set<nat>
    requires id in st.records
  {
    set j | j in st.records && st.records[j].rootId == st.records[id].rootId
  }

  /** `j` comes no later than `id` in the window order (`created_at`, then id). */
  predicate NotAfter(st: Store, j: nat, id: nat)
    requires j in st.records && id in st.records
  {
    var cj, ci := st.records[j].createdAt, st.records[id].createdAt;
    cj < ci || (cj == ci && j <= id)
  }

  /** The records of the partition numbered at or before `id`. */
  function Preceding(st: Store, id: nat): set<nat>
    requires id in st.records
  {
    set j | j in st.records && st.records[j].rootId == st.records[id].rootId && NotAfter(st, j, id)
  }

  /** The window's `version_num`. */
  function RowNumber(st: Store, id: nat): (n: nat)
    requires id in st.records
    ensures 1 <= n <= |Partition(st, id)|
  {
    assert id in Preceding(st, id);
    SubsetCard(Preceding(st, id), Partition(st, id));
    |Preceding(st, id)|
  }

  /** The `is_latest` column: final, or created at the lineage's latest time. */
  predicate IsLatest(st: Store, id: nat)
    requires id in st.records
  {
    var rec := st.records[id];
    || rec.isFinal
    || (rec.rootId.Some? && NoneLater(st, rec.rootId.value, rec.createdAt))
  }

  /** No record of lineage `root` was created after time `t`. */
  predicate NoneLater(st: Store, root: nat, t: nat) {
    forall j | j in Lineage(st, root) :: st.records[j].createdAt <= t
  }

  /** The displayed status (`최신본여부`). */
  function Status(st: Store, id: nat): string
    requires id in st.records
  {
    if st.records[id].isFinal then "final"
    else
      var tag := "v" + NatToString(RowNumber(st, id));
      if IsLatest(st, id) then tag + " " + LatestMarker else tag
  }

  /** A text field of the customer payload, `''` when missing. */
  function Field(p: Payload, key: string): string {
    if key in p then p[key] else ""
  }

  function EntryOf(st: Store, id: nat): Entry
    requires id in st.records
  {
    var rec := st.records[id];
    Entry(id, Field(rec.customerInfo, "고객사명"), Field(rec.customerInfo, "건명"),
          Field(rec.customerInfo, "견적일자"),
          if rec.totalAmount.Some? then rec.totalAmount.value else 0,
          rec.filename, Status(st, id), rec.createdAt, RowNumber(st, id))
  }

  // ---------------------------------------------------------------------------
  // the query

  /** The `created_at` column, by record id. */
  function CreatedTimes(st: Store): (times: map<nat, nat>)
    ensures times.Keys == st.records.Keys
    ensures forall id | id in times :: times[id] == st.records[id].createdAt
  {
    map id | id in st.records :: st.records[id].createdAt
  }

  /** Some key of a non-empty set has the largest time. */
  lemma {:induction false} NewestExists(times: map<nat, nat>, ids: set<nat>)
    requires ids != {} && ids <= times.Keys
    ensures exists id | id in ids :: forall j | j in ids :: times[j] <= times[id]
    decreases |ids|
  {
    var x :| x in ids;
    var rest := ids - {x};
    if rest != {} {
      NewestExists(times, rest);
      var y :| y in rest && forall j | j in rest :: times[j] <= times[y];
      if times[x] <= times[y] {
        assert forall j | j in ids :: times[j] <= times[y];
      } else {
        assert forall j | j in ids :: times[j] <= times[x];
      }
    } else {
      assert ids == rest + {x};
    }
  }

  /** `ORDER BY created_at DESC`: every key once, largest time first. */
  method NewestFirst(times: map<nat, nat>) returns (order: seq<nat>)
    ensures |order| == |times|
    ensures forall id :: id in order <==> id in times
    ensures forall k, l | 0 <= k < l < |order| :: order[k] != order[l]
    ensures forall k, l | 0 <= k < l < |order| :: order[k] in times && order[l] in times && times[order[k]] >= times[order[l]]
  {
    var rest := times.Keys;
    order := [];
    while rest != {}
      invariant rest <= times.Keys
      invariant forall x | x in order :: x in times && x !in rest
      invariant forall x | x in times :: x in order || x in rest
      invariant |order| + |rest| == |times|
      invariant forall k, l | 0 <= k < l < |order| :: order[k] != order[l]
      invariant forall k, l | 0 <= k < l < |order| :: order[k] in times && order[l] in times && times[order[k]] >= times[order[l]]
      invariant order != [] ==> order[|order| - 1] in times && forall j | j in rest :: times[j] <= times[order[|order| - 1]]
      decreases |rest|
    {
      NewestExists(times, rest);
      var id :| id in rest && forall j | j in rest :: times[j] <= times[id];
      AppendKeepsDistinct(order, id);
      AppendKeepsDescending(times, order, id);
      assert |rest - {id}| == |rest| - 1;
      order := order + [id];
      rest := rest - {id};
    }
  }

  lemma AppendKeepsDistinct(s: seq<nat>, x: nat)
    requires forall k, l | 0 <= k < l < |s| :: s[k] != s[l]
    requires x !in s
    ensures var t := s + [x]; forall k, l | 0 <= k < l < |t| :: t[k] != t[l]
  {
  }

  lemma AppendKeepsDescending(times: map<nat, nat>, s: seq<nat>, x: nat)
    requires forall k, l | 0 <= k < l < |s| :: s[k] in times && s[l] in times && times[s[k]] >= times[s[l]]
    requires x in times && (s != [] ==> s[|s| - 1] in times && times[x] <= times[s[|s| - 1]])
    ensures var t := s + [x]; forall k, l | 0 <= k < l < |t| :: t[k] in times && t[l] in times && times[t[k]] >= times[t[l]]
  {
    var t := s + [x];
    forall k, l | 0 <= k < l < |t| ensures t[k] in times && t[l] in times && times[t[k]] >= times[t[l]] {
      if l == |s| && k < |s| - 1 {
        assert times[s[k]] >= times[s[|s| - 1]];
      }
    }
  }

  /** The record ids of a list of entries. */
  function IdsOf(h: seq<Entry>): set<nat> {
    set k | 0 <= k < |h| :: h[k].estimateId
  }

  /** Every entry is the entry of the record it names. */
  predicate EntriesOf(st: Store, h: seq<Entry>) {
    forall k | 0 <= k < |h| :: h[k].estimateId in st.records && h[k] == EntryOf(st, h[k].estimateId)
  }

  /** What `get_estimate_history` returns: one entry per record, each the
      entry of the record it names, ordered by `created_at` descending. */
  predicate IsHistory(st: Store, h: seq<Entry>) {
    && |h| == |st.records|
    && IdsOf(h) == st.records.Keys
    && (forall k, l | 0 <= k < l < |h| :: h[k].estimateId != h[l].estimateId)
    && EntriesOf(st, h)
    && (forall k, l | 0 <= k < l < |h| :: h[k].createdAt >= h[l].createdAt)
  }

  /** `get_estimate_history`: one entry per record, newest first. Rows with
      the same `created_at` come in an order the query leaves open. */
  method GetEstimateHistory(st: Store) returns (h: seq<Entry>)
    ensures IsHistory(st, h)
  {
    var times := CreatedTimes(st);
    var order := NewestFirst(times);
    EntriesFollowOrder(st, times, order);
    h := Entries(st, order);
  }

  /** The entries of the records listed in `order`, in that order. */
  function Entries(st: Store, order: seq<nat>): seq<Entry>
    requires forall x | x in order :: x in st.records
  {
    seq(|order|, k requires 0 <= k < |order| => EntryOf(st, order[k]))
  }

  /** Mapping an ordering of all ids by creation time to entries keeps the
      ids, their order and their times. */
  lemma EntriesFollowOrder(st: Store, times: map<nat, nat>, order: seq<nat>)
    requires times.Keys == st.records.Keys
    requires forall id | id in times :: times[id] == st.records[id].createdAt
    requires |order| == |times|
    requires forall id :: id in order <==> id in times
    requires forall k, l | 0 <= k < l < |order| :: order[k] != order[l]
    requires forall k, l | 0 <= k < l < |order| :: order[k] in times && order[l] in times && times[order[k]] >= times[order[l]]
    ensures forall x | x in order :: x in st.records
    ensures IsHistory(st, Entries(st, order))
  {
    assert |times| == |st.records|;
    var h := Entries(st, order);
    EntriesFields(st, order);
    IdsOfOrder(h, order, st.records.Keys);
  }

  lemma IdsOfOrder(h: seq<Entry>, order: seq<nat>, keys: set<nat>)
    requires |h| == |order| && forall k | 0 <= k < |h| :: h[k].estimateId == order[k]
    requires forall id :: id in order <==> id in keys
    ensures IdsOf(h) == keys
  {
    var ids := IdsOf(h);
    forall id | id in keys ensures id in ids {
      var k :| 0 <= k < |order| && order[k] == id;
      assert h[k].estimateId == id;
    }
  }

  lemma EntriesFields(st: Store, order: seq<nat>)
    requires forall x | x in order :: x in st.records
    ensures var h := Entries(st, order);
      && |h| == |order|
      && forall k | 0 <= k < |h| ::
           h[k] == EntryOf(st, order[k]) && h[k].estimateId == order[k] && h[k].createdAt == st.records[order[k]].createdAt
  {
  }

  // ---------------------------------------------------------------------------
  // properties of the labels

  /** Two records of one partition never share a row number. */
  lemma RowNumberInjective(st: Store, i: nat, j: nat)
    requires i in st.records && j in st.records && i != j
    requires st.records[i].rootId == st.records[j].rootId
    ensures RowNumber(st, i) != RowNumber(st, j)
  {
    if NotAfter(st, i, j) {
      PrecedingGrows(st, i, j);
    } else {
      PrecedingGrows(st, j, i);
    }
  }

  lemma PrecedingGrows(st: Store, i: nat, j: nat)
    requires i in st.records && j in st.records && i != j
    requires st.records[i].rootId == st.records[j].rootId
    requires NotAfter(st, i, j)
    ensures |Preceding(st, i)| < |Preceding(st, j)|
  {
    var pi, pj := Preceding(st, i), Preceding(st, j);
    assert pi <= pj;
    assert j in pj && j !in pi;
    assert pi < pj;
    SubsetCard(pi + {j}, pj);
  }

  /** The row number never exceeds the count-based version, and equals it
      when no two records of the lineage share a `created_at`. */
  lemma RowNumberVersion(st: Store, id: nat)
    requires id in st.records && st.records[id].rootId.Some?
    ensures RowNumber(st, id) <= GetEstimateVersion(st, id)
    ensures (forall i, j | i in Lineage(st, st.records[id].rootId.value) && j in Lineage(st, st.records[id].rootId.value)
               && i != j :: st.records[i].createdAt != st.records[j].createdAt)
      ==> RowNumber(st, id) == GetEstimateVersion(st, id)
  {
    var rec := st.records[id];
    var counted := AtOrBefore(st, id);
    assert Preceding(st, id) <= counted;
    SubsetCard(Preceding(st, id), counted);
    if forall i, j | i in Lineage(st, rec.rootId.value) && j in Lineage(st, rec.rootId.value)
         && i != j :: st.records[i].createdAt != st.records[j].createdAt {
      forall j | j in counted ensures j in Preceding(st, id) {
        assert j in Lineage(st, rec.rootId.value) && id in Lineage(st, rec.rootId.value);
      }
      assert counted == Preceding(st, id);
    }
  }

  /** Every lineage has a record marked latest. */
  lemma LatestExists(st: Store, root: nat)
    requires Lineage(st, root) != {}
    ensures exists id | id in Lineage(st, root) :: IsLatest(st, id)
  {
    var id := NewestOf(st, Lineage(st, root));
    assert IsLatest(st, id);
  }

  /** A record of `ids` created no earlier than any other. */
  lemma {:induction false} NewestOf(st: Store, ids: set<nat>) returns (id: nat)
    requires ids != {} && ids <= st.records.Keys
    ensures id in ids && forall j | j in ids :: st.records[j].createdAt <= st.records[id].createdAt
    decreases |ids|
  {
    var x :| x in ids;
    var rest := ids - {x};
    if rest == {} {
      assert ids == rest + {x};
      id := x;
    } else {
      var y := NewestOf(st, rest);
      id := if st.records[x].createdAt <= st.records[y].createdAt then y else x;
    }
  }

  /** The tag reads back: "final" exactly for final records; otherwise `v`
      followed by the row number in decimal, with a second word, the latest
      marker, exactly when the record is latest. */
  lemma StatusReadsBack(st: Store, id: nat)
    requires id in st.records
    ensures Status(st, id) == "final" <==> st.records[id].isFinal
    ensures !st.records[id].isFinal ==>
      var ws := Words(Status(st, id));
      && 1 <= |ws| <= 2
      && ws[0][0] == 'v'
      && ParseInt(ws[0][1..]) == Some(RowNumber(st, id))
      && (|ws| == 2 <==> IsLatest(st, id))
      && (|ws| == 2 ==> ws[1] == LatestMarker)
  {
    var s := Status(st, id);
    if !st.records[id].isFinal {
      var n := RowNumber(st, id);
      var tag := "v" + NatToString(n);
      assert s[0] == 'v';
      assert IsWord(tag);
      assert IsWord(LatestMarker);
      ParseIntOfIntToString(n);
      assert tag[1..] == NatToString(n) == IntToString(n);
      if IsLatest(st, id) {
        assert s == Join([tag, LatestMarker], " ");
        WordsOfJoin([tag, LatestMarker]);
      } else {
        assert s == Join([tag], " ");
        WordsOfJoin([tag]);
      }
    }
  }

  /** Missing fields fall back to the empty text and a missing total to 0;
      present ones are shown as stored. */
  lemma EntryDefaults(st: Store, id: nat)
    requires id in st.records
    ensures var e, rec := EntryOf(st, id), st.records[id];
      && ("고객사명" !in rec.customerInfo ==> e.customerName == "")
      && ("고객사명" in rec.customerInfo ==> e.customerName == rec.customerInfo["고객사명"])
      && ("건명" !in rec.customerInfo ==> e.subject == "")
      && ("건명" in rec.customerInfo ==> e.subject == rec.customerInfo["건명"])
      && ("견적일자" !in rec.customerInfo ==> e.estimateDate == "")
      && ("견적일자" in rec.customerInfo ==> e.estimateDate == rec.customerInfo["견적일자"])
      && (rec.totalAmount.None? ==> e.total == 0)
      && (rec.totalAmount.Some? ==> e.total == rec.totalAmount.value)
      && e.version == RowNumber(st, id)
      && e.createdAt == rec.createdAt
  {
  }
}
