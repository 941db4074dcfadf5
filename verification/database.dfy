/**
 The versioned-record store: estimate records linked into lineages by
 `root_id`/`parent_id`, each with its own list of line items, plus the save
 protocol, the count-based version number and the load path.

 The two SQLite tables become one immutable value: a map from `estimate_id`
 to the record row, a map from `estimate_id` to that record's item rows in
 insertion order, and the AUTOINCREMENT counter. `CURRENT_TIMESTAMP` is the
 caller-supplied `now`. A save runs as a sequence of numbered SQL statements;
 `fault == Some(k)` makes statement `k` raise, which rolls the whole
 transaction back and re-raises.
 */
module Database {
  import opened Wrappers
  import opened Estimates

  /** A JSON object of text fields (`customer_info`, `company_info`). */
  type Payload = map<string, string>

  /** One row of the `estimates` table. `rootId` is nullable in the schema and
      is briefly NULL inside the transaction that starts a lineage. */
  datatype Record = Record(
    rootId: Option<nat>,
    parentId: Option<nat>,
    filename: string,
    customerInfo: Payload,
    companyInfo: Payload,
    totalAmount: Option<int>,
    isFinal: bool,
    createdAt: nat,
    updatedAt: nat)

  /** Both tables, and the last id AUTOINCREMENT handed out. */
  datatype Store = Store(records: map<nat, Record>, items: map<nat, seq<LineItem>>, lastId: nat)

  /** The arguments of `save_estimate`. */
  datatype SaveRequest = SaveRequest(
    customerInfo: Payload,
    companyInfo: Payload,
    items: seq<LineItem>,
    totalAmount: Option<int>,
    filename: string,
    parentId: Option<nat>,
    isFinal: bool)

  /** The exception that aborted a save, identified by the statement that raised it. */
  datatype SaveError = SaveError(statement: nat)

  /** The store after the call (committed or rolled back) and what the call returned. */
  datatype SaveOutcome = SaveOutcome(store: Store, result: Result<nat, SaveError>)

  /** State inside the transaction after a write step: the working copy, the
      id being written, and the number of the next statement. */
  datatype Written = Written(store: Store, id: nat, next: nat)

  /** A field value of the loaded view: payload text, or one of the two integer
      columns added by the load. */
  datatype Value = Text(text: string) | Number(number: int)

  /** What `load_estimate` returns for a known id. */
  datatype Loaded = Loaded(data: map<string, Value>, items: seq<LineItem>)

  /** The store `create_tables` leaves: both tables empty, the counter at 0. */
  function EmptyStore(): Store {
    Store(map[], map[], 0)
  }

  /** Python truthiness of an optional id: `None` and `0` are false. */
  predicate Truthy(id: Option<nat>) {
    id.Some? && id.value != 0
  }

  /** `SELECT ... FROM estimate_items WHERE estimate_id = ?`. */
  function ItemsOf(st: Store, id: nat): seq<LineItem> {
    if id in st.items then st.items[id] else []
  }

  /** All records whose `root_id` is `root`. */
  function Lineage(st: Store, root: nat): set<nat> {
    set j | j in st.records && st.records[j].rootId == Some(root)
  }

  predicate IsFinalOf(st: Store, id: nat, root: nat) {
    id in st.records && st.records[id].rootId == Some(root) && st.records[id].isFinal
  }

  // ---------------------------------------------------------------------------
  // store invariant

  /** Links of one record: a root that is the origin of its own lineage; no
      parent exactly for the origin; otherwise an older parent in the same
      lineage. */
  predicate RecordLinked(st: Store, id: nat)
    requires id in st.records
  {
    var rec := st.records[id];
    && rec.rootId.Some?
    && rec.rootId.value in st.records
    && st.records[rec.rootId.value].rootId == rec.rootId
    && (rec.parentId.None? <==> rec.rootId == Some(id))
    && (rec.parentId.Some? ==>
          && rec.parentId.value < id
          && rec.parentId.value in st.records
          && st.records[rec.parentId.value].rootId == rec.rootId)
  }

  /** At most one record per lineage has `is_final` set. */
  predicate AtMostOneFinalPerLineage(st: Store) {
    forall i, j | i in st.records && j in st.records && st.records[i].isFinal && st.records[j].isFinal
      && st.records[i].rootId == st.records[j].rootId :: i == j
  }

  /** The invariant of every committed state. */
  predicate WellFormed(st: Store) {
    && (forall id | id in st.records :: 1 <= id <= st.lastId)
    && (forall id | id in st.items :: id in st.records)
    && (forall id | id in st.records :: RecordLinked(st, id))
    && AtMostOneFinalPerLineage(st)
  }

  // ---------------------------------------------------------------------------
  // primitive statements

  /** Runs statement number `k`: raises when it is the injected fault,
      otherwise moves on to statement `k + 1`. */
  function Exec(k: nat, fault: Option<nat>): Result<nat, SaveError> {
    if fault == Some(k) then Failure(SaveError(k)) else Success(k + 1)
  }

  /** The record a save inserts. */
  function NewRecord(req: SaveRequest, rootId: Option<nat>, parentId: Option<nat>, now: nat): Record {
    Record(rootId, parentId, req.filename, req.customerInfo, req.companyInfo,
           req.totalAmount, req.isFinal, now, now)
  }

  /** `INSERT INTO estimates`: the row gets the next AUTOINCREMENT id. */
  function Insert(st: Store, rec: Record): Store {
    Store(st.records[st.lastId + 1 := rec], st.items, st.lastId + 1)
  }

  /** `UPDATE estimates SET customer_info, company_info, total_amount, filename, updated_at`. */
  function UpdateFinal(st: Store, id: nat, req: SaveRequest, now: nat): Store
    requires id in st.records
  {
    var rec := st.records[id];
    st.(records := st.records[id := rec.(customerInfo := req.customerInfo, companyInfo := req.companyInfo,
                                         totalAmount := req.totalAmount, filename := req.filename,
                                         updatedAt := now)])
  }

  /** `UPDATE estimates SET root_id = ? WHERE estimate_id = ?` with the row's own id. */
  function SetRootToSelf(st: Store, id: nat): Store
    requires id in st.records
  {
    st.(records := st.records[id := st.records[id].(rootId := Some(id))])
  }

  /** `DELETE FROM estimate_items WHERE estimate_id = ?`. */
  function DeleteItems(st: Store, id: nat): Store {
    st.(items := st.items - {id})
  }

  /** `INSERT INTO estimate_items` of one row for record `id`. */
  function AppendItem(st: Store, id: nat, item: LineItem): Store {
    st.(items := st.items[id := ItemsOf(st, id) + [item]])
  }

  // ---------------------------------------------------------------------------
  // the save protocol

  /** The root a save adopts: the parent's `root_id` when `parent_id` is truthy
      and names an existing row, otherwise none. */
  function AdoptedRoot(st: Store, parentId: Option<nat>): Option<nat> {
    if Truthy(parentId) && parentId.value in st.records then st.records[parentId.value].rootId else None
  }

  /** `SELECT estimate_id FROM estimates WHERE root_id = ? AND is_final = 1`
      with `fetchone()`: a scan in rowid order from `from`, returning the first match. */
  function FindFinalFrom(st: Store, root: nat, from: nat): (r: Option<nat>)
    ensures r.Some? ==> from <= r.value <= st.lastId && IsFinalOf(st, r.value, root)
    ensures r.None? ==> forall j | from <= j <= st.lastId :: !IsFinalOf(st, j, root)
    decreases st.lastId - from
  {
    if from > st.lastId then None
    else if IsFinalOf(st, from, root) then Some(from)
    else FindFinalFrom(st, root, from + 1)
  }

  function FindFinal(st: Store, root: nat): Option<nat> {
    FindFinalFrom(st, root, 0)
  }

  /** Root resolution: one `SELECT root_id` when `parent_id` is truthy. */
  function ResolveRoot(st: Store, parentId: Option<nat>, k: nat, fault: Option<nat>): Result<nat, SaveError> {
    if Truthy(parentId) then Exec(k, fault) else Success(k)
  }

  /** A save into an existing lineage: refresh its final record when both it
      and the request are final, otherwise insert a revision carrying the
      given `parent_id` and the lineage's root. */
  function WriteInLineage(st: Store, req: SaveRequest, root: nat, now: nat, k: nat, fault: Option<nat>)
    : Result<Written, SaveError>
  {
    var k1 :- Exec(k, fault);
    var final := FindFinal(st, root);
    if final.Some? && req.isFinal then
      var k2 :- Exec(k1, fault);
      Success(Written(UpdateFinal(st, final.value, req, now), final.value, k2))
    else
      var k2 :- Exec(k1, fault);
      Success(Written(Insert(st, NewRecord(req, Some(root), req.parentId, now)), st.lastId + 1, k2))
  }

  /** A save that starts a lineage: insert without root or parent, then point
      the root at the new row itself. */
  function StartLineage(st: Store, req: SaveRequest, now: nat, k: nat, fault: Option<nat>)
    : Result<Written, SaveError>
  {
    var k1 :- Exec(k, fault);
    var inserted := Insert(st, NewRecord(req, None, None, now));
    var id := st.lastId + 1;
    var k2 :- Exec(k1, fault);
    Success(Written(SetRootToSelf(inserted, id), id, k2))
  }

  /** Inserts the item rows one statement at a time. */
  function InsertItems(st: Store, id: nat, items: seq<LineItem>, k: nat, fault: Option<nat>)
    : Result<Written, SaveError>
    decreases |items|
  {
    if items == [] then Success(Written(st, id, k))
    else
      var k1 :- Exec(k, fault);
      InsertItems(AppendItem(st, id, items[0]), id, items[1..], k1, fault)
  }

  /** Replaces the written record's items wholesale: delete, then insert. */
  function ReplaceItems(w: Written, items: seq<LineItem>, fault: Option<nat>): Result<Written, SaveError> {
    var k1 :- Exec(w.next, fault);
    InsertItems(DeleteItems(w.store, w.id), w.id, items, k1, fault)
  }

  /** The statements between `BEGIN TRANSACTION` and `COMMIT`, both included,
      run against a working copy of the store. */
  function Transaction(st: Store, req: SaveRequest, now: nat, fault: Option<nat>): Result<Written, SaveError> {
    var k0 :- Exec(0, fault);
    var k1 :- ResolveRoot(st, req.parentId, k0, fault);
    var root := AdoptedRoot(st, req.parentId);
    var written :-
      if Truthy(root) then WriteInLineage(st, req, root.value, now, k1, fault)
      else StartLineage(st, req, now, k1, fault);
    var stored :- ReplaceItems(written, req.items, fault);
    var _ :- Exec(stored.next, fault);
    Success(stored)
  }

  /** `save_estimate`: commit the working copy and return the record id, or
      roll back to the state before the call and re-raise. */
  function SaveEstimate(st: Store, req: SaveRequest, now: nat, fault: Option<nat>): SaveOutcome {
    match Transaction(st, req, now, fault)
    case Success(w) => SaveOutcome(w.store, Success(w.id))
    case Failure(e) => SaveOutcome(st, Failure(e))
  }

  // ---------------------------------------------------------------------------
  // queries

  /** `get_estimate_version`: how many records of the same lineage were
      created at or before this one. Unknown ids, and rows whose `root_id` is
      NULL, match nothing and count 0. */
  function GetEstimateVersion(st: Store, id: nat): (v: nat)
    ensures id !in st.records ==> v == 0
    ensures id in st.records && st.records[id].rootId.Some? ==>
      1 <= v <= |Lineage(st, st.records[id].rootId.value)|
  {
    if id !in st.records || st.records[id].rootId.None? then 0
    else
      var counted := AtOrBefore(st, id);
      assert id in counted;
      assert counted <= Lineage(st, st.records[id].rootId.value);
      SubsetCard(counted, Lineage(st, st.records[id].rootId.value));
      |counted|
  }

  /** The records of `id`'s lineage created at or before it. */
  function AtOrBefore(st: Store, id: nat): set<nat>
    requires id in st.records
  {
    var rec := st.records[id];
    set j | j in st.records && st.records[j].rootId == rec.rootId && st.records[j].createdAt <= rec.createdAt
  }

  lemma SubsetCard<T>(a: set<T>, b: set<T>)
    requires a <= b
    ensures |a| <= |b|
  {
    assert b == a + (b - a);
  }

  /** Payload text fields as loaded values. */
  function Lift(p: Payload): map<string, Value> {
    map k | k in p :: Text(p[k])
  }

  /** `load_estimate`: `None` stands for the `(None, None)` pair returned for
      an unknown id. Otherwise the customer fields overlaid by the company
      fields, then `estimate_id` and `is_final` (stored as 1 or 0), and the
      record's item rows. */
  function LoadEstimate(st: Store, id: nat): (r: Option<Loaded>)
    ensures r.None? <==> id !in st.records
    ensures r.Some? ==>
      var rec := st.records[id];
      && r.value.data.Keys == rec.customerInfo.Keys + rec.companyInfo.Keys + {"estimate_id", "is_final"}
      && r.value.data["estimate_id"] == Number(id)
      && r.value.data["is_final"] == Number(if rec.isFinal then 1 else 0)
      && (forall k | k in rec.companyInfo && k !in {"estimate_id", "is_final"} ::
            r.value.data[k] == Text(rec.companyInfo[k]))
      && (forall k | k in rec.customerInfo && k !in rec.companyInfo && k !in {"estimate_id", "is_final"} ::
            r.value.data[k] == Text(rec.customerInfo[k]))
      && r.value.items == ItemsOf(st, id)
  {
    if id !in st.records then None
    else
      var rec := st.records[id];
      Some(Loaded(Merged(rec.customerInfo, rec.companyInfo, id, rec.isFinal), ItemsOf(st, id)))
  }

  /** The customer fields, overlaid by the company fields, overlaid by the two
      integer columns. */
  function Merged(customer: Payload, company: Payload, id: nat, isFinal: bool): (d: map<string, Value>)
    ensures d.Keys == customer.Keys + company.Keys + {"estimate_id", "is_final"}
    ensures d["estimate_id"] == Number(id) && d["is_final"] == Number(if isFinal then 1 else 0)
    ensures forall k | k in company && k !in {"estimate_id", "is_final"} :: d[k] == Text(company[k])
    ensures forall k | k in customer && k !in company && k !in {"estimate_id", "is_final"} :: d[k] == Text(customer[k])
  {
    Lift(customer) + Lift(company) + map["estimate_id" := Number(id), "is_final" := Number(if isFinal then 1 else 0)]
  }
}
