/** Rows and keys, the outcomes of writes, and the results of reads. */
module Records {
  import opened Documents
  import opened Hashing
  import opened Ident
  import opened Wrappers

  type Time = int

  /** One row of the record table. */
  datatype Row = Row(payload: Json, hash: ContentHash, position: nat, ingestedAt: Time, deletedAt: Option<Time>) {
    predicate IsLive() {
      deletedAt.None?
    }
  }

  datatype RecordKey = RecordKey(source: string, collection: string, id: RecordId)

  /** All rows of all collections. */
  type Table = map<RecordKey, Row>

  /** One collection of one source, by id. */
  type Rows = map<RecordId, Row>

  datatype StoredRecord = StoredRecord(id: RecordId, row: Row)

  datatype IngestOp = UpsertOp(id: RecordId, payload: Json) | DeleteOp(id: RecordId)

  /** The outcome of one write: a new version, a new tombstone, or no change. */
  datatype Applied = Stored(position: nat) | Tombstoned(position: nat) | Unchanged

  datatype StoreError = Database | NotCanonical | Corrupt(reason: string)

  const MAX_BIGINT: nat := 0x7FFF_FFFF_FFFF_FFFF
  const MAX_USIZE: nat := 0xFFFF_FFFF_FFFF_FFFF

  const MAX_PAGE: nat := 1000
  const MAX_PAGE_BYTES: nat := 4 * 1024 * 1024

  type PageLimit = n: nat | 1 <= n <= MAX_PAGE witness 1
  type ByteBudget = n: nat | 1 <= n <= MAX_PAGE_BYTES witness 1

  function Distance(a: nat, b: nat): nat {
    if a < b then b - a else a - b
  }

  /** No allowed page size is nearer to the one asked for. */
  function ClampLimit(requested: nat): (limit: PageLimit)
    ensures forall n: PageLimit :: Distance(requested, limit) <= Distance(requested, n)
  {
    if requested == 0 then 1 else if requested > MAX_PAGE then MAX_PAGE else requested
  }

  /** No allowed byte budget is nearer to the one asked for. */
  function ClampBytes(requested: nat): (bytes: ByteBudget)
    ensures forall n: ByteBudget :: Distance(requested, bytes) <= Distance(requested, n)
  {
    if requested == 0 then 1 else if requested > MAX_PAGE_BYTES then MAX_PAGE_BYTES else requested
  }

  datatype PageBudget = PageBudget(records: PageLimit, bytes: ByteBudget)

  /** Some records in feed order, and where to go on, if there may be more. */
  datatype Page = Page(records: seq<StoredRecord>, next: Option<nat>)

  datatype Digest = Digest(id: RecordId, hash: ContentHash)

  datatype DigestPage = DigestPage(entries: seq<Digest>, next: Option<RecordId>)

  /** The rows of one collection. */
  function View(table: Table, source: string, collection: string): Rows {
    map k | k in table && k.source == source && k.collection == collection :: k.id := table[k]
  }

  lemma ViewAt(table: Table, source: string, collection: string, id: RecordId)
    ensures id in View(table, source, collection) <==> RecordKey(source, collection, id) in table
    ensures id in View(table, source, collection)
      ==> View(table, source, collection)[id] == table[RecordKey(source, collection, id)]
  {
    if RecordKey(source, collection, id) in table {
      assert RecordKey(source, collection, id).id in View(table, source, collection);
    }
  }
}
