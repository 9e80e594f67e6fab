/** The ingest surface: requests, what each writes, and what holds of every state they reach. */
module Ingest {
  import opened Documents
  import opened Feed
  import opened Hashing
  import opened Ident
  import opened Projection
  import ProjectionLaws
  import opened Records
  import Revalidation
  import opened Schema
  import opened Statements
  import Store
  import opened Wrappers

  /** A request with more envelopes is refused before any is looked at. */
  const MAX_BATCH: nat := 1000

  datatype Operation = Upsert | Delete

  /** One element of a request body, once decoded. */
  datatype Envelope = Envelope(op: Operation, id: Option<RecordId>, payload: Option<Json>)

  datatype ApiError =
    | UnknownCollection
    | BadPath
    | BatchTooLarge
    | MissingPayload
    | MissingId
    | InvalidPayload
    | PayloadOnDelete
    | PayloadTooLarge
    | StoreFailed(error: StoreError)

  /** The answer to one envelope, or to a single delete. */
  datatype OperationResult = OperationResult(
    id: RecordId, op: Operation, outcome: string, position: Option<nat>, dropped: seq<DroppedField>)

  datatype Prepared = Prepared(op: IngestOp, dropped: seq<DroppedField>)

  /** What the service is deployed with: its collections and its size limit. */
  datatype Service = Service(hashing: Hashing, schemas: map<string, CollectionSchema>, maxPayloadBytes: nat)

  // ----- One envelope -----

  /** The identifier a payload carries at the schema's id path. */
  function IdentifierIn(path: IdPath, payload: Json): Option<RecordId> {
    match At(payload, PathLocation(path))
    case None => None
    case Some(v) =>
      match IdText(v)
      case None => None
      case Some(text) => if ValidRecordId(text) then Some(text) else None
  }

  ghost predicate WithinLimit(service: Service, payload: Json) {
    var canonical := service.hashing.canonicalize(payload);
    canonical.Some? && |canonical.value| <= service.maxPayloadBytes
  }

  /** An id is stated, or the payload carries one. */
  ghost predicate Identified(schema: CollectionSchema, e: Envelope)
    requires e.payload.Some?
  {
    e.id.Some? || IdentifierIn(schema.id, e.payload.value).Some?
  }

  /** The envelopes the service takes. */
  ghost predicate Admits(service: Service, schema: CollectionSchema, e: Envelope) {
    match e.op
    case Upsert =>
      && e.payload.Some? && e.payload.value.Object?
      && Identified(schema, e)
      && WithinLimit(service, Project(Released(schema), e.payload.value).value)
    case Delete => e.payload.None? && e.id.Some?
  }

  /** What an envelope becomes: the stated id wins, and the payload is what the schema releases. */
  ghost predicate Prepares(schema: CollectionSchema, e: Envelope, p: Prepared) {
    match e.op
    case Upsert =>
      && e.payload.Some? && p.op.UpsertOp?
      && Some(p.op.payload) == Project(Released(schema), e.payload.value)
      && p.dropped == Report(Drops(Released(schema), e.payload.value, []))
      && Some(p.op.id) == (if e.id.Some? then e.id else IdentifierIn(schema.id, e.payload.value))
    case Delete => e.id.Some? && p == Prepared(DeleteOp(e.id.value), [])
  }

  /** Every refusal names the first thing that is wrong with the envelope. */
  ghost predicate Refuses(service: Service, schema: CollectionSchema, e: Envelope, error: ApiError) {
    match error
    case MissingPayload => e.op == Upsert && e.payload.None?
    case MissingId =>
      || (e.op == Delete && e.payload.None? && e.id.None?)
      || (e.op == Upsert && e.payload.Some? && e.id.None? && IdentifierIn(schema.id, e.payload.value).None?)
    case InvalidPayload =>
      && e.op == Upsert && e.payload.Some? && Identified(schema, e)
      && (e.payload.value.Object?
          ==> service.hashing.canonicalize(Project(Released(schema), e.payload.value).value).None?)
    case PayloadTooLarge =>
      && e.op == Upsert && e.payload.Some? && e.payload.value.Object? && Identified(schema, e)
      && service.hashing.canonicalize(Project(Released(schema), e.payload.value).value).Some?
      && !WithinLimit(service, Project(Released(schema), e.payload.value).value)
    case PayloadOnDelete => e.op == Delete && e.payload.Some?
    case _ => false
  }

  /** Decides one envelope: an operation with its report, or the first reason against it. */
  method Prepare(service: Service, schema: CollectionSchema, envelope: Envelope) returns (r: Result<Prepared, ApiError>)
    ensures r.Success? <==> Admits(service, schema, envelope)
    ensures r.Success? ==> Prepares(schema, envelope, r.value)
    ensures r.Failure? ==> Refuses(service, schema, envelope, r.error)
  {
    match envelope.op
    case Delete =>
      if envelope.payload.Some? {
        return Failure(PayloadOnDelete);
      }
      if envelope.id.None? {
        return Failure(ApiError.MissingId);
      }
      return Success(Prepared(DeleteOp(envelope.id.value), []));
    case Upsert =>
      if envelope.payload.None? {
        return Failure(MissingPayload);
      }
      r := PrepareUpsert(service, schema, envelope.id, envelope.payload.value);
  }

  method PrepareUpsert(service: Service, schema: CollectionSchema, stated: Option<RecordId>, payload: Json)
    returns (r: Result<Prepared, ApiError>)
    ensures r.Success? <==> Admits(service, schema, Envelope(Upsert, stated, Some(payload)))
    ensures r.Success? ==> Prepares(schema, Envelope(Upsert, stated, Some(payload)), r.value)
    ensures r.Failure? ==> Refuses(service, schema, Envelope(Upsert, stated, Some(payload)), r.error)
  {
    var id := stated;
    if id.None? {
      var extracted := ExtractId(schema.id, payload);
      if extracted.Failure? {
        return Failure(ApiError.MissingId);
      }
      id := Some(extracted.value);
    }
    var projected := ProjectPayload(schema, payload);
    if projected.Failure? {
      return Failure(InvalidPayload);
    }
    var canonical := service.hashing.canonicalize(projected.value.payload);
    if canonical.None? {
      return Failure(InvalidPayload);
    }
    if |canonical.value| > service.maxPayloadBytes {
      return Failure(PayloadTooLarge);
    }
    return Success(Prepared(UpsertOp(id.value, projected.value.payload), projected.value.dropped));
  }

  /** The canonical size of what would be stored is the least limit under which an envelope is admitted. */
  lemma SizeDecidesAdmission(service: Service, schema: CollectionSchema, e: Envelope, limit: nat)
    requires e.op == Upsert && e.payload.Some? && e.payload.value.Object? && Identified(schema, e)
    ensures var canonical := service.hashing.canonicalize(Project(Released(schema), e.payload.value).value);
      Admits(service.(maxPayloadBytes := limit), schema, e)
      <==> canonical.Some? && |canonical.value| <= limit
  {
  }

  // ----- What may be in the store -----

  /** An operation that carries released data only. */
  ghost predicate ReleasedOp(service: Service, schema: CollectionSchema, op: IngestOp) {
    op.UpsertOp? ==> IsReleased(service, schema, op.payload)
  }

  /** Projection would change nothing about this payload, and it fits. */
  ghost predicate IsReleased(service: Service, schema: CollectionSchema, payload: Json) {
    && Project(Released(schema), payload) == Some(payload)
    && Drops(Released(schema), payload, []) == []
    && WithinLimit(service, payload)
  }

  /** A live row holds released data; a tombstone holds nothing. */
  ghost predicate CleanRow(service: Service, schema: CollectionSchema, row: Row) {
    if row.IsLive() then
      IsReleased(service, schema, row.payload) && service.hashing.ContentHash(row.payload) == Some(row.hash)
    else row.payload == EMPTY_DOCUMENT && row.hash == EMPTY_DOCUMENT_HASH
  }

  /** Every record belongs to a declared collection and holds only what its schema releases. */
  ghost predicate NothingUnreleased(service: Service, db: Db) {
    forall k :: k in db.table ==>
      k.collection in service.schemas && CleanRow(service, service.schemas[k.collection], db.table[k])
  }

  /** A transaction with released data only, for a declared collection. */
  ghost predicate Admitted(service: Service, t: Transaction) {
    t.Committed? ==>
      t.collection in service.schemas
      && forall op :: op in t.ops ==> ReleasedOp(service, service.schemas[t.collection], op)
  }

  /** Whatever an envelope carried, what is written is released. */
  lemma PreparedIsReleased(service: Service, schema: CollectionSchema, e: Envelope, p: Prepared)
    requires Admits(service, schema, e) && Prepares(schema, e, p)
    ensures ReleasedOp(service, schema, p.op)
  {
    if e.op == Upsert {
      ProjectionLaws.ProjectionIsIdempotent(Released(schema), e.payload.value, []);
    }
  }

  /** Released data has nothing in it that the schema does not declare, at any depth. */
  lemma ReleasedConforms(service: Service, schema: CollectionSchema, payload: Json)
    requires IsReleased(service, schema, payload)
    ensures Conforms(Released(schema), payload)
  {
    ReleasedIsDeclared(Released(schema), payload);
  }

  /** Each live record holds, at every depth, only what its collection declares there. */
  ghost predicate OnlyDeclared(service: Service, table: Table) {
    forall k :: k in table && table[k].IsLive() ==>
      k.collection in service.schemas && Conforms(Released(service.schemas[k.collection]), table[k].payload)
  }

  lemma CleanIsDeclared(service: Service, db: Db)
    requires NothingUnreleased(service, db)
    ensures OnlyDeclared(service, db.table)
  {
    forall k | k in db.table && db.table[k].IsLive()
      ensures k.collection in service.schemas
        && Conforms(Released(service.schemas[k.collection]), db.table[k].payload)
    {
      ReleasedConforms(service, service.schemas[k.collection], db.table[k].payload);
    }
  }

  /** A row written by a released operation is clean. */
  lemma WrittenIsClean(service: Service, schema: CollectionSchema, op: IngestOp, now: Time, row: Row)
    requires ReleasedOp(service, schema, op) && Writes(service.hashing, op, now, row)
    ensures CleanRow(service, schema, row)
  {
  }

  lemma StepStaysReleased(service: Service, db: Db, source: string, collection: string, op: IngestOp, now: Time)
    requires NothingUnreleased(service, db)
    requires collection in service.schemas && ReleasedOp(service, service.schemas[collection], op)
    ensures NothingUnreleased(service, StepDb(service.hashing, db, source, collection, op, now).db)
  {
    var key := RecordKey(source, collection, op.id);
    var after := StepDb(service.hashing, db, source, collection, op, now).db;
    StepShows(service.hashing, db, source, collection, op, now);
    forall k | k in after.table
      ensures k.collection in service.schemas && CleanRow(service, service.schemas[k.collection], after.table[k])
    {
      if !SameRow(db.table, after.table, k) {
        StepWrites(service.hashing, db, source, collection, op, now);
        WrittenIsClean(service, service.schemas[collection], op, now, after.table[k]);
      }
    }
  }

  lemma {:induction false} BatchStaysReleased(
    service: Service, db: Db, source: string, collection: string, ops: seq<IngestOp>, now: Time)
    requires NothingUnreleased(service, db)
    requires Admitted(service, Committed(source, collection, ops, now))
    ensures NothingUnreleased(service, ApplyOps(service.hashing, db, source, collection, ops, now).db)
    decreases |ops|
  {
    if ops != [] {
      var init, last := ops[..|ops| - 1], ops[|ops| - 1];
      assert last in ops && forall op :: op in init ==> op in ops;
      BatchStaysReleased(service, db, source, collection, init, now);
      var before := ApplyOps(service.hashing, db, source, collection, init, now).db;
      StepStaysReleased(service, before, source, collection, last, now);
    }
  }

  lemma TransactionStaysReleased(service: Service, before: Db, t: Transaction, after: Db)
    requires NothingUnreleased(service, before) && Admitted(service, t)
    requires Performs(service.hashing, before, t, after)
    ensures NothingUnreleased(service, after)
  {
    if t.Committed? {
      BatchStaysReleased(service, before, t.source, t.collection, t.ops, t.now);
    }
  }

  // ----- Requests and what they may do -----

  /** A write as it arrives, from a source that was authenticated. */
  datatype Request =
    | BatchRequest(source: string, collection: string, envelopes: seq<Envelope>, now: Time)
    | DeleteRequest(source: string, collection: string, id: string, now: Time)

  ghost function ReportFor(schema: CollectionSchema, e: Envelope): seq<DroppedField> {
    if e.op == Upsert && e.payload.Some? then Report(Drops(Released(schema), e.payload.value, [])) else []
  }

  /** An admitted envelope becomes this operation. */
  ghost predicate Becomes(service: Service, schema: CollectionSchema, e: Envelope, op: IngestOp) {
    Admits(service, schema, e) && Prepares(schema, e, Prepared(op, ReportFor(schema, e)))
  }

  /** The committed transaction is the one this request asks for. */
  ghost predicate Produces(service: Service, q: Request, t: Transaction) {
    match q
    case BatchRequest(source, collection, envelopes, now) =>
      && collection in service.schemas && |envelopes| <= MAX_BATCH
      && t.Committed? && t == Committed(source, collection, t.ops, now) && |t.ops| == |envelopes|
      && forall i :: 0 <= i < |envelopes| ==> Becomes(service, service.schemas[collection], envelopes[i], t.ops[i])
    case DeleteRequest(source, collection, id, now) =>
      && collection in service.schemas && ValidRecordId(id)
      && t == Committed(source, collection, [DeleteOp(id)], now)
  }

  /** Whatever arrives, the store commits what was asked for or rolls back. */
  ghost predicate Serves(service: Service, q: Request, t: Transaction) {
    t.RolledBack? || Produces(service, q, t)
  }

  /** A history of the store in which every transaction serves a request. */
  ghost predicate ServiceHistory(
    service: Service, states: seq<Db>, requests: seq<Request>, transactions: seq<Transaction>)
  {
    && History(service.hashing, states, transactions)
    && |requests| == |transactions|
    && forall i :: 0 <= i < |requests| ==> ServesAt(service, requests, transactions, i)
  }

  ghost predicate ServesAt(service: Service, requests: seq<Request>, transactions: seq<Transaction>, i: int)
    requires 0 <= i < |requests| == |transactions|
  {
    Serves(service, requests[i], transactions[i])
  }

  /** What a request produces carries released data only, however its envelopes were filled. */
  lemma ServedIsAdmitted(service: Service, q: Request, t: Transaction)
    requires Serves(service, q, t)
    ensures Admitted(service, t)
  {
    if t.Committed? && q.BatchRequest? {
      var schema := service.schemas[q.collection];
      forall op | op in t.ops ensures ReleasedOp(service, schema, op) {
        var i :| 0 <= i < |t.ops| && t.ops[i] == op;
        assert Becomes(service, schema, q.envelopes[i], t.ops[i]);
        PreparedIsReleased(service, schema, q.envelopes[i], Prepared(op, ReportFor(schema, q.envelopes[i])));
      }
    }
  }

  /** One more request, answered by the store, is one more step of the history. */
  lemma OneMoreRequest(
    service: Service, states: seq<Db>, requests: seq<Request>, transactions: seq<Transaction>,
    q: Request, t: Transaction, after: Db)
    requires ServiceHistory(service, states, requests, transactions)
    requires Serves(service, q, t) && Performs(service.hashing, states[|states| - 1], t, after)
    ensures ServiceHistory(service, states + [after], requests + [q], transactions + [t])
  {
    OneMoreTransaction(service.hashing, states, transactions, t, after);
    var asked, performed := requests + [q], transactions + [t];
    forall i | 0 <= i < |asked| ensures ServesAt(service, asked, performed, i) {
      if i < |requests| {
        assert ServesAt(service, requests, transactions, i);
      }
    }
  }

  /** No state that requests lead to holds anything the schemas do not release. */
  lemma {:induction false} NoStateHoldsUnreleased(
    service: Service, states: seq<Db>, requests: seq<Request>, transactions: seq<Transaction>, i: nat)
    requires ServiceHistory(service, states, requests, transactions) && i < |states|
    ensures NothingUnreleased(service, states[i])
    ensures OnlyDeclared(service, states[i].table)
  {
    if i > 0 {
      NoStateHoldsUnreleased(service, states, requests, transactions, i - 1);
      assert PerformsAt(service.hashing, states, transactions, i - 1);
      assert ServesAt(service, requests, transactions, i - 1);
      ServedIsAdmitted(service, requests[i - 1], transactions[i - 1]);
      TransactionStaysReleased(service, states[i - 1], transactions[i - 1], states[i]);
    }
    CleanIsDeclared(service, states[i]);
  }

  /** So no state holds a scalar, at any depth, where its collection declares none or one of another type. */
  lemma ScalarsHeldAreDeclared(
    service: Service, states: seq<Db>, requests: seq<Request>, transactions: seq<Transaction>, i: nat,
    key: RecordKey, at: Location)
    requires ServiceHistory(service, states, requests, transactions) && i < |states|
    requires key in states[i].table && states[i].table[key].IsLive()
    requires At(states[i].table[key].payload, at).Some? && IsScalar(At(states[i].table[key].payload, at).value)
    ensures key.collection in service.schemas
    ensures var spec := Released(service.schemas[key.collection]);
      Declares(spec, at) && HasShape(At(states[i].table[key].payload, at).value, NodeAt(spec, at).value)
  {
    NoStateHoldsUnreleased(service, states, requests, transactions, i);
    assert ConformsAt(Released(service.schemas[key.collection]), states[i].table[key].payload, at);
  }

  /** What a page may show: released data, and from the feed also empty tombstones. */
  ghost predicate Shown(service: Service, schema: CollectionSchema, q: Query, row: Row) {
    && CleanRow(service, schema, row)
    && (q.Listing? ==> IsReleased(service, schema, row.payload))
    && (row.IsLive() ==> Conforms(Released(schema), row.payload))
  }

  /** Nor does a listing or the feed show it, whatever was asked for. */
  lemma NoPageShowsUnreleased(
    service: Service, states: seq<Db>, requests: seq<Request>, transactions: seq<Transaction>, i: nat,
    source: string, collection: string, size: TextSize, q: Query, after: Option<nat>, budget: PageBudget)
    requires ServiceHistory(service, states, requests, transactions) && i < |states|
    requires service.hashing.PinsEmptyDocument()
    requires collection in service.schemas
    ensures FeedPositions(View(states[i].table, source, collection))
    ensures var page := ReadPage(size, View(states[i].table, source, collection), q, after, budget);
      forall s :: s in page.records ==> Shown(service, service.schemas[collection], q, s.row)
  {
    var rows := View(states[i].table, source, collection);
    HistoryKeeps(service.hashing, states, transactions, i, i);
    ViewPositions(service.hashing, states[i], source, collection);
    NoStateHoldsUnreleased(service, states, requests, transactions, i);
    PageIsSound(size, rows, q, after, budget);
    forall s | s in ReadPage(size, rows, q, after, budget).records
      ensures Shown(service, service.schemas[collection], q, s.row)
    {
      assert Due(rows, q, after, s);
      ViewAt(states[i].table, source, collection, s.id);
    }
  }

  /** Nor does a read of one record: its row is clean, and what is served of it is released. */
  lemma NoRecordShowsUnreleased(
    service: Service, states: seq<Db>, requests: seq<Request>, transactions: seq<Transaction>, i: nat,
    key: RecordKey, header: Option<string>)
    requires ServiceHistory(service, states, requests, transactions) && i < |states|
    ensures key in states[i].table ==>
      key.collection in service.schemas
      && CleanRow(service, service.schemas[key.collection], states[i].table[key])
    ensures OnlyDeclared(service, states[i].table)
    ensures var answer := Revalidation.AnswerRecord(View(states[i].table, key.source, key.collection), key.id, header);
      answer.Served? ==>
        key.collection in service.schemas
        && IsReleased(service, service.schemas[key.collection], answer.body.payload)
        && Conforms(Released(service.schemas[key.collection]), answer.body.payload)
        && service.hashing.ContentHash(answer.body.payload) == Some(answer.body.hash)
  {
    NoStateHoldsUnreleased(service, states, requests, transactions, i);
    ViewAt(states[i].table, key.source, key.collection, key.id);
  }

  /** A collection nobody declared stays empty. */
  lemma UndeclaredStaysEmpty(service: Service, db: Db, source: string, collection: string)
    requires NothingUnreleased(service, db) && collection !in service.schemas
    ensures View(db.table, source, collection) == map[]
  {
    var rows := View(db.table, source, collection);
    forall id | id in rows ensures false {
      ViewAt(db.table, source, collection, id);
    }
  }

  // ----- The handlers -----

  /** Renders one outcome. */
  function ResultOf(op: IngestOp, outcome: Applied, dropped: seq<DroppedField>): OperationResult {
    var rendered: (string, Option<nat>) :=
      match outcome
      case Stored(n) => ("stored", Some(n))
      case Tombstoned(n) => ("tombstoned", Some(n))
      case Unchanged => ("unchanged", None);
    OperationResult(op.id, if op.UpsertOp? then Upsert else Delete, rendered.0, rendered.1, dropped)
  }

  /** An answer names its record, echoes its request, and reports all that was dropped and where it went. */
  ghost predicate Answers(schema: CollectionSchema, e: Envelope, op: IngestOp, applied: Applied, r: OperationResult) {
    && Prepares(schema, e, Prepared(op, r.dropped))
    && r.id == op.id && r.op == e.op
    && (r.position.Some? <==> !applied.Unchanged?)
    && (applied.Stored? ==> r.position == Some(applied.position) && r.outcome == "stored")
    && (applied.Tombstoned? ==> r.position == Some(applied.position) && r.outcome == "tombstoned")
    && (applied.Unchanged? ==> r.outcome == "unchanged")
  }

  /** The envelopes before the `i`-th were admitted, and it is refused for this reason. */
  ghost predicate FirstRefused(
    service: Service, schema: CollectionSchema, envelopes: seq<Envelope>, i: nat, error: ApiError)
  {
    && i < |envelopes| && Refuses(service, schema, envelopes[i], error)
    && forall j :: 0 <= j < i ==> Admits(service, schema, envelopes[j])
  }

  /** Prepares every envelope before anything is written; one that is refused refuses the batch. */
  method PrepareAll(service: Service, schema: CollectionSchema, envelopes: seq<Envelope>)
    returns (r: Result<seq<Prepared>, ApiError>)
    ensures r.Success? <==> forall e :: e in envelopes ==> Admits(service, schema, e)
    ensures r.Success? ==> |r.value| == |envelopes|
    ensures r.Success? ==> forall i :: 0 <= i < |envelopes| ==> Prepares(schema, envelopes[i], r.value[i])
    ensures r.Failure? ==> exists i: nat :: FirstRefused(service, schema, envelopes, i, r.error)
  {
    var prepared: seq<Prepared> := [];
    for i := 0 to |envelopes|
      invariant |prepared| == i
      invariant forall j :: 0 <= j < i ==>
        Admits(service, schema, envelopes[j]) && Prepares(schema, envelopes[j], prepared[j])
    {
      var one := Prepare(service, schema, envelopes[i]);
      assert envelopes[i] in envelopes;
      if one.Failure? {
        assert FirstRefused(service, schema, envelopes, i, one.error);
        return Failure(one.error);
      }
      prepared := prepared + [one.value];
    }
    return Success(prepared);
  }

  function Operations(prepared: seq<Prepared>): (ops: seq<IngestOp>)
    ensures |ops| == |prepared| && forall i :: 0 <= i < |ops| ==> ops[i] == prepared[i].op
  {
    seq(|prepared|, i requires 0 <= i < |prepared| => prepared[i].op)
  }

  /** One answer per envelope, in order. */
  method RenderAll(schema: CollectionSchema, envelopes: seq<Envelope>, prepared: seq<Prepared>, outcomes: seq<Applied>)
    returns (results: seq<OperationResult>)
    requires |prepared| == |outcomes| == |envelopes|
    requires forall i :: 0 <= i < |envelopes| ==> Prepares(schema, envelopes[i], prepared[i])
    ensures |results| == |envelopes|
    ensures forall i :: 0 <= i < |envelopes| ==> Answers(schema, envelopes[i], prepared[i].op, outcomes[i], results[i])
  {
    results := seq(|prepared|, i requires 0 <= i < |prepared| && |prepared| == |outcomes| =>
      ResultOf(prepared[i].op, outcomes[i], prepared[i].dropped));
  }

  /**
   * Serves a batch: prepared first, then one transaction, then one answer per envelope. The ghost
   * results are the operations the envelopes became, their outcomes, and the transaction performed.
   */
  method IngestBatch(service: Service, store: Store.PostgresStore, source: string, collection: string,
                     envelopes: seq<Envelope>, now: Time, fault: Option<nat>)
    returns (r: Result<seq<OperationResult>, ApiError>,
             ghost ops: seq<IngestOp>, ghost outcomes: seq<Applied>, ghost t: Transaction)
    requires store.Valid() && store.hashing == service.hashing && NothingUnreleased(service, store.Contents())
    modifies store
    ensures store.Valid() && NothingUnreleased(service, store.Contents())
    ensures Performs(service.hashing, old(store.Contents()), t, store.Contents())
    ensures Serves(service, BatchRequest(source, collection, envelopes, now), t)
    ensures r.Success? <==> t.Committed?
    ensures r.Success? ==>
      && t.ops == ops
      && Success(outcomes) == ApplyOps(service.hashing, old(store.Contents()), source, collection, ops, now).outcome
      && |r.value| == |ops| == |outcomes| == |envelopes|
      && forall i :: 0 <= i < |envelopes| ==>
           Answers(service.schemas[collection], envelopes[i], ops[i], outcomes[i], r.value[i])
    ensures r == Failure(UnknownCollection) <==> collection !in service.schemas
    ensures r == Failure(BatchTooLarge) <==> collection in service.schemas && |envelopes| > MAX_BATCH
    ensures collection in service.schemas && |envelopes| <= MAX_BATCH
      && (exists e :: e in envelopes && !Admits(service, service.schemas[collection], e))
      ==> r.Failure? && exists i: nat :: FirstRefused(service, service.schemas[collection], envelopes, i, r.error)
    ensures r.Failure? && !r.error.StoreFailed? ==> unchanged(store)
    ensures r.Failure? && r.error.StoreFailed? ==>
      && Produces(service, BatchRequest(source, collection, envelopes, now), Committed(source, collection, ops, now))
      && ((fault.Some? && fault.value <= |envelopes|)
          || ApplyOps(service.hashing, old(store.Contents()), source, collection, ops, now).outcome.Failure?)
  {
    ops, outcomes, t := [], [], RolledBack(store.sequence);
    if collection !in service.schemas {
      return Failure(UnknownCollection), ops, outcomes, t;
    }
    var schema := service.schemas[collection];
    if |envelopes| > MAX_BATCH {
      return Failure(BatchTooLarge), ops, outcomes, t;
    }
    var prepared := PrepareAll(service, schema, envelopes);
    if prepared.Failure? {
      return Failure(prepared.error), ops, outcomes, t;
    }
    var batch := Operations(prepared.value);
    ghost var before := store.Contents();
    ghost var asked := Committed(source, collection, batch, now);
    BatchProduces(service, schema, source, collection, envelopes, prepared.value, now);
    ServedIsAdmitted(service, BatchRequest(source, collection, envelopes, now), asked);
    AdmittedIsHashable(service, asked);
    var applied := store.Apply(source, collection, batch, now, fault);
    ops := batch;
    if applied.Failure? {
      return Failure(StoreFailed(applied.error)), ops, outcomes, RolledBack(store.sequence);
    }
    outcomes := applied.value;
    OneOutcomeEach(service.hashing, before, source, collection, batch, now);
    BatchStaysReleased(service, before, source, collection, batch, now);
    var results := RenderAll(schema, envelopes, prepared.value, applied.value);
    return Success(results), ops, outcomes, asked;
  }

  lemma BatchProduces(service: Service, schema: CollectionSchema, source: string, collection: string,
                      envelopes: seq<Envelope>, prepared: seq<Prepared>, now: Time)
    requires collection in service.schemas && schema == service.schemas[collection]
    requires |envelopes| <= MAX_BATCH && |prepared| == |envelopes|
    requires forall e :: e in envelopes ==> Admits(service, schema, e)
    requires forall i :: 0 <= i < |envelopes| ==> Prepares(schema, envelopes[i], prepared[i])
    ensures Produces(service, BatchRequest(source, collection, envelopes, now),
                     Committed(source, collection, Operations(prepared), now))
  {
    forall i | 0 <= i < |envelopes| ensures Becomes(service, schema, envelopes[i], Operations(prepared)[i]) {
      assert envelopes[i] in envelopes;
      assert prepared[i] == Prepared(prepared[i].op, ReportFor(schema, envelopes[i]));
    }
  }

  /** Released data has a canonical form, so the store has no reason to refuse it. */
  lemma AdmittedIsHashable(service: Service, t: Transaction)
    requires t.Committed? && Admitted(service, t)
    ensures forall op :: op in t.ops ==> Hashable(service.hashing, op)
  {
    forall op | op in t.ops ensures Hashable(service.hashing, op) {
      assert ReleasedOp(service, service.schemas[t.collection], op);
    }
  }

  /** The record is a tombstone, written now at this position. */
  ghost predicate IsTombstone(table: Table, key: RecordKey, position: nat, now: Time) {
    key in table && table[key] == Row(EMPTY_DOCUMENT, EMPTY_DOCUMENT_HASH, position, now, Some(now))
  }

  /** The answer says what became of the record: a tombstone at the position reported, or no change at all. */
  ghost predicate ReportsDelete(before: Db, after: Db, key: RecordKey, now: Time, r: OperationResult) {
    match r.position
    case Some(n) => r.outcome == "tombstoned" && n > before.sequence && IsTombstone(after.table, key, n, now)
    case None => r.outcome == "unchanged" && after.table == before.table
  }

  lemma DeleteIsReported(before: Db, key: RecordKey, now: Time)
    requires DeleteStep(before, key, now).outcome.Success?
    ensures var s := DeleteStep(before, key, now);
      var r := ResultOf(DeleteOp(key.id), s.outcome.value, []);
      && ReportsDelete(before, s.db, key, now, r)
      && !SeenAt(s.db, key).Live? && (r.position.Some? <==> SeenAt(before, key).Live?)
  {
  }

  /** Serves a single delete. The ghost result is the transaction performed. */
  method DeleteRecord(service: Service, store: Store.PostgresStore, source: string, collection: string,
                      id: string, now: Time, refused: bool)
    returns (r: Result<OperationResult, ApiError>, ghost t: Transaction)
    requires store.Valid() && store.hashing == service.hashing && NothingUnreleased(service, store.Contents())
    modifies store
    ensures store.Valid() && NothingUnreleased(service, store.Contents())
    ensures Performs(service.hashing, old(store.Contents()), t, store.Contents())
    ensures Serves(service, DeleteRequest(source, collection, id, now), t)
    ensures r.Success? <==> t.Committed?
    ensures r == Failure(UnknownCollection) <==> collection !in service.schemas
    ensures r == Failure(BadPath) <==> collection in service.schemas && !ValidRecordId(id)
    ensures r.Failure? && !r.error.StoreFailed? ==> unchanged(store)
    ensures r.Failure? && r.error.StoreFailed? ==>
      ValidRecordId(id)
      && (refused || DeleteStep(old(store.Contents()), RecordKey(source, collection, id), now).outcome.Failure?)
    ensures r.Success? ==>
      && !SeenAt(store.Contents(), RecordKey(source, collection, id)).Live?
      && r.value.id == id && r.value.op == Delete && r.value.dropped == []
      && (r.value.position.Some? <==> SeenAt(old(store.Contents()), RecordKey(source, collection, id)).Live?)
      && ReportsDelete(old(store.Contents()), store.Contents(), RecordKey(source, collection, id), now, r.value)
  {
    t := RolledBack(store.sequence);
    if collection !in service.schemas {
      return Failure(UnknownCollection), t;
    }
    var parsed := NewRecordId(id);
    if parsed.Failure? {
      return Failure(BadPath), t;
    }
    var key := RecordKey(source, collection, parsed.value);
    ghost var before := store.Contents();
    StepStaysReleased(service, before, source, collection, DeleteOp(parsed.value), now);
    var outcome := store.Delete(key, now, refused);
    if outcome.Failure? {
      return Failure(StoreFailed(outcome.error)), RolledBack(store.sequence);
    }
    DeleteIsReported(before, key, now);
    return Success(ResultOf(DeleteOp(parsed.value), outcome.value, [])),
           Committed(source, collection, [DeleteOp(parsed.value)], now);
  }

  // ----- Sending things again -----

  /** Sending a live record's own payload back is accepted whole and changes nothing. */
  lemma EchoIsUnchanged(service: Service, db: Db, key: RecordKey, p: Prepared, now: Time)
    requires NothingUnreleased(service, db) && key in db.table && db.table[key].IsLive()
    requires var e := Envelope(Upsert, Some(key.id), Some(db.table[key].payload));
      Prepares(service.schemas[key.collection], e, p)
    ensures var e := Envelope(Upsert, Some(key.id), Some(db.table[key].payload));
      Admits(service, service.schemas[key.collection], e)
    ensures p.dropped == []
    ensures var s := StepDb(service.hashing, db, key.source, key.collection, p.op, now);
      s.db.table == db.table && (db.sequence < MAX_BIGINT ==> s.outcome == Success(Unchanged))
  {
  }
}
