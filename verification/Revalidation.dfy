/** When a 304 is the truth: the body a client holds is the body it would be sent. */
module Revalidation {
  import opened Cache
  import opened Documents
  import opened Feed
  import opened Hashing
  import opened Ident
  import opened Records
  import opened Runs
  import opened Statements
  import Text
  import opened Wrappers

  /** What a deployment fixes: the hashing, how the database measures payloads, and the page byte budget. */
  datatype Deployment = Deployment(hashing: Hashing, size: TextSize, bytes: ByteBudget)

  datatype Body =
    | PageBody(page: Page, maxSeq: nat)
    | ChangesBody(page: Page, maxSeq: nat)
    | ManifestBody(count: nat, checksum: Option<ContentHash>, maxSeq: nat)

  function LiveHashes(rows: Rows): map<string, ContentHash> {
    map id | id in rows && rows[id].IsLive() :: rows[id].hash
  }

  /** The page of a listing or feed slice, under a byte budget. */
  ghost function SlicePage(size: TextSize, slice: Slice, rows: Rows, bytes: ByteBudget): Page
    requires FeedPositions(rows) && !slice.ManifestSlice?
  {
    var q := if slice.ListingSlice? then Listing(slice.filter) else Changes;
    ReadPage(size, rows, q, slice.cursor, PageBudget(slice.limit, bytes))
  }

  /**
   * The body a handler assembles from its separate reads: the position it starts with, the rows it
   * reads next, and, for a manifest, the position it reads last.
   */
  ghost function Assemble(d: Deployment, slice: Slice, first: Rows, second: Rows, third: Rows): Body
    requires FeedPositions(second)
  {
    match slice
    case ListingSlice(_, _, _) => PageBody(SlicePage(d.size, slice, second, d.bytes), Position(first))
    case FeedSlice(_, _) => ChangesBody(SlicePage(d.size, slice, second, d.bytes), Position(first))
    case ManifestSlice =>
      ManifestBody(|LiveHashes(second)|, Checksum(d.hashing, LiveHashes(second)), Position(third))
  }

  /** A response a client holds: what it asked for, and when the handler made its reads. */
  datatype Held = Held(slice: Slice, first: nat, second: nat, third: nat)

  ghost predicate ReadBy(run: seq<Rows>, r: Held, now: nat) {
    r.first <= r.second <= r.third <= now < |run|
  }

  ghost function HeldTag(d: Deployment, run: seq<Rows>, r: Held): string
    requires r.first < |run|
  {
    Tag(d.hashing, r.slice, Position(run[r.first]))
  }

  ghost function HeldBody(d: Deployment, run: seq<Rows>, r: Held): Body
    requires ValidRun(run) && r.first < |run| && r.second < |run| && r.third < |run|
  {
    Assemble(d, r.slice, run[r.first], run[r.second], run[r.third])
  }

  /** The body a handler would assemble if nothing happened between its reads. */
  ghost function BodyNow(d: Deployment, slice: Slice, rows: Rows): Body
    requires FeedPositions(rows)
  {
    Assemble(d, slice, rows, rows, rows)
  }

  /** What a body of each kind says, of the states its reads saw. */
  ghost predicate BodyShows(d: Deployment, slice: Slice, first: Rows, second: Rows, third: Rows, body: Body)
    requires FeedPositions(second)
  {
    match slice
    case ListingSlice(filter, cursor, limit) =>
      && body.PageBody? && IsGreatest(first, body.maxSeq)
      && ListsExactly(second, filter, cursor, body.page)
      && PageShows(d.size, second, Listing(filter), cursor, PageBudget(limit, d.bytes), body.page)
    case FeedSlice(cursor, limit) =>
      && body.ChangesBody? && IsGreatest(first, body.maxSeq)
      && FeedsExactly(second, cursor, body.page)
      && PageShows(d.size, second, Changes, cursor, PageBudget(limit, d.bytes), body.page)
    case ManifestSlice =>
      body.ManifestBody? && IsGreatest(third, body.maxSeq) && ManifestCounts(d.hashing, second, body)
  }

  /** Count and checksum are those of any listing of the live records. */
  ghost predicate ManifestCounts(h: Hashing, rows: Rows, body: Body)
    requires body.ManifestBody?
  {
    forall entries :: ListsLive(rows, entries) && SortedById(entries) ==>
      body.count == |entries| && body.checksum == h.ContentHash(PairsDocument(entries))
  }

  /** The entries are the live records of the collection with their hashes, each once, in some order. */
  ghost predicate ListsLive(rows: Rows, entries: seq<Entry>) {
    && DistinctIds(entries)
    && (forall e :: e in entries ==> e.id in rows && rows[e.id].IsLive() && rows[e.id].hash == e.hash)
    && (forall id :: id in rows && rows[id].IsLive() ==> Entry(id, rows[id].hash) in entries)
  }

  lemma ListsLiveIsLists(rows: Rows, entries: seq<Entry>)
    ensures ListsLive(rows, entries) <==> Lists(entries, LiveHashes(rows))
  {
    var hashes := LiveHashes(rows);
    assert forall id :: id in hashes <==> id in rows && rows[id].IsLive();
  }

  lemma ManifestIsCounted(d: Deployment, first: Rows, second: Rows, third: Rows)
    requires FeedPositions(second)
    ensures ManifestCounts(d.hashing, second, Assemble(d, ManifestSlice, first, second, third))
  {
    forall entries | ListsLive(second, entries) && SortedById(entries)
      ensures |LiveHashes(second)| == |entries|
      ensures Checksum(d.hashing, LiveHashes(second)) == d.hashing.ContentHash(PairsDocument(entries))
    {
      ListsLiveIsLists(second, entries);
      SortedListUnique(entries, LiveHashes(second));
      ListingCounts(entries, LiveHashes(second));
    }
  }

  lemma AssembledShows(d: Deployment, slice: Slice, first: Rows, second: Rows, third: Rows)
    requires FeedPositions(first) && FeedPositions(second) && FeedPositions(third)
    ensures BodyShows(d, slice, first, second, third, Assemble(d, slice, first, second, third))
  {
    PositionIsGreatest(first, Position(first));
    PositionIsGreatest(third, Position(third));
    match slice
    case ListingSlice(filter, cursor, limit) =>
      ListingIsExact(d.size, second, filter, cursor, PageBudget(limit, d.bytes));
      ReadPageShows(d.size, second, Listing(filter), cursor, PageBudget(limit, d.bytes));
    case FeedSlice(cursor, limit) =>
      FeedIsExact(d.size, second, cursor, PageBudget(limit, d.bytes));
      ReadPageShows(d.size, second, Changes, cursor, PageBudget(limit, d.bytes));
    case ManifestSlice => ManifestIsCounted(d, first, second, third);
  }

  /** Every body ever served says what its slice promises of the states its own reads saw. */
  lemma HeldBodyShows(d: Deployment, run: seq<Rows>, r: Held, now: nat)
    requires ValidRun(run) && ReadBy(run, r, now)
    ensures BodyShows(d, r.slice, run[r.first], run[r.second], run[r.third], HeldBody(d, run, r))
  {
    AssembledShows(d, r.slice, run[r.first], run[r.second], run[r.third]);
  }

  /** The current body says what its slice promises of the current state. */
  lemma BodyNowShows(d: Deployment, slice: Slice, rows: Rows)
    requires FeedPositions(rows)
    ensures BodyShows(d, slice, rows, rows, rows, BodyNow(d, slice, rows))
  {
    AssembledShows(d, slice, rows, rows, rows);
  }

  /** The page under the larger of two byte budgets stays within the smaller. */
  ghost predicate BudgetsAgree(size: TextSize, slice: Slice, rows: Rows, a: ByteBudget, b: ByteBudget)
    requires FeedPositions(rows)
  {
    var small, large := if a < b then a else b, if a < b then b else a;
    slice.ManifestSlice? || Fits(size, SlicePage(size, slice, rows, large).records, small)
  }

  /** Two byte budgets give one slice one page exactly when they agree on it. */
  lemma SlicePagesAgree(size: TextSize, slice: Slice, rows: Rows, a: ByteBudget, b: ByteBudget)
    requires FeedPositions(rows) && !slice.ManifestSlice?
    ensures SlicePage(size, slice, rows, a) == SlicePage(size, slice, rows, b)
      <==> BudgetsAgree(size, slice, rows, a, b)
  {
    var q := if slice.ListingSlice? then Listing(slice.filter) else Changes;
    if a < b {
      PagesAgree(size, rows, q, slice.cursor, slice.limit, a, b);
    } else {
      PagesAgree(size, rows, q, slice.cursor, slice.limit, b, a);
    }
  }

  /** Slices that differ at most in how they say "from the start" have one page. */
  lemma SameSliceSamePage(size: TextSize, a: Slice, b: Slice, rows: Rows, bytes: ByteBudget)
    requires FeedPositions(rows) && SameSlice(a, b) && !a.ManifestSlice?
    ensures SlicePage(size, a, rows, bytes) == SlicePage(size, b, rows, bytes)
  {
  }

  /**
   * A response assembled under `held` and revalidated under `now`, two deployments that may differ in
   * their byte budget: equal validators mean that nothing was written since, and then the body is the
   * current one exactly when the budgets agree on the slice, as a budget always does with itself.
   */
  lemma EqualTagsEqualBodies(held: Deployment, current: Deployment, run: seq<Rows>, r: Held, slice: Slice, now: nat)
    requires held.hashing == current.hashing && held.size == current.size
    requires ValidRun(run) && ReadBy(run, r, now)
    requires FiltersApart(held.hashing, r.slice, slice)
    requires HeldTag(held, run, r) == Tag(current.hashing, slice, Position(run[now]))
    ensures SameSlice(r.slice, slice) && run[r.first] == run[r.second] == run[r.third] == run[now]
    ensures HeldBody(held, run, r) == BodyNow(current, slice, run[now])
      <==> BudgetsAgree(current.size, slice, run[now], held.bytes, current.bytes)
    ensures held.bytes == current.bytes ==> HeldBody(held, run, r) == BodyNow(current, slice, run[now])
  {
    ValidatorsAreExact(held.hashing, r.slice, Position(run[r.first]), slice, Position(run[now]));
    PositionPinsState(run, r.first, r.second, now);
    PositionPinsState(run, r.first, r.third, now);
    if !slice.ManifestSlice? {
      SameSliceSamePage(held.size, r.slice, slice, run[now], held.bytes);
      SlicePagesAgree(held.size, slice, run[now], held.bytes, current.bytes);
    }
  }

  /** The `If-None-Match` list presents the validators of these responses, each weak or not. */
  ghost predicate Presents(d: Deployment, run: seq<Rows>, list: seq<Presented>, held: seq<Held>, now: nat) {
    && list != [] && |list| == |held|
    && (forall p :: p in list ==> WellPresented(p))
    && forall m :: 0 <= m < |held| ==> ReadBy(run, held[m], now) && list[m].tag == HeldTag(d, run, held[m])
  }

  /** A held response begun at the current state of this slice. */
  ghost predicate StillCurrent(run: seq<Rows>, r: Held, slice: Slice, now: nat)
    requires now < |run|
  {
    r.first < |run| && SameSlice(r.slice, slice) && run[r.first] == run[now]
  }

  /** A presented validator that is the current one belongs to a response whose body is current. */
  lemma FreshMeansCurrent(
    d: Deployment, run: seq<Rows>, list: seq<Presented>, held: seq<Held>, slice: Slice, now: nat, m: nat)
    requires ValidRun(run) && now < |run| && Presents(d, run, list, held, now) && m < |held|
    requires FiltersApart(d.hashing, held[m].slice, slice)
    requires list[m].tag == Tag(d.hashing, slice, Position(run[now]))
    ensures StillCurrent(run, held[m], slice, now)
    ensures HeldBody(d, run, held[m]) == BodyNow(d, slice, run[now])
  {
    EqualTagsEqualBodies(d, d, run, held[m], slice, now);
  }

  /** A response begun at the current state presents the current validator. */
  lemma CurrentMeansFresh(
    d: Deployment, run: seq<Rows>, list: seq<Presented>, held: seq<Held>, slice: Slice, now: nat, m: nat)
    requires ValidRun(run) && now < |run| && Presents(d, run, list, held, now) && m < |held|
    requires FiltersApart(d.hashing, held[m].slice, slice)
    requires StillCurrent(run, held[m], slice, now)
    ensures list[m].tag == Tag(d.hashing, slice, Position(run[now]))
  {
    ValidatorsAreExact(d.hashing, held[m].slice, Position(run[now]), slice, Position(run[now]));
  }

  /** Presented validators cover a slice exactly when a held response still is the current one. */
  lemma NotModifiedIsExact(d: Deployment, run: seq<Rows>, list: seq<Presented>, held: seq<Held>, slice: Slice, now: nat)
    requires ValidRun(run) && now < |run| && Presents(d, run, list, held, now)
    requires forall r :: r in held ==> FiltersApart(d.hashing, r.slice, slice)
    ensures IsFresh(Some(Text.Join(ShownList(list), ',')), Tag(d.hashing, slice, Position(run[now])))
      <==> exists r :: r in held && StillCurrent(run, r, slice, now)
    ensures forall r :: r in held && StillCurrent(run, r, slice, now) ==>
      ReadBy(run, r, now) && HeldBody(d, run, r) == BodyNow(d, slice, run[now])
  {
    TagIsQuotation(d.hashing, slice, Position(run[now]));
    FreshIsMembership(list, Tag(d.hashing, slice, Position(run[now])));
    FreshHasCurrent(d, run, list, held, slice, now);
    forall r | r in held && StillCurrent(run, r, slice, now)
      ensures (exists p :: p in list && p.tag == Tag(d.hashing, slice, Position(run[now])))
      ensures ReadBy(run, r, now) && HeldBody(d, run, r) == BodyNow(d, slice, run[now])
    {
      var m :| 0 <= m < |held| && held[m] == r;
      CurrentMeansFresh(d, run, list, held, slice, now, m);
      FreshMeansCurrent(d, run, list, held, slice, now, m);
      assert list[m] in list;
    }
  }

  lemma FreshHasCurrent(d: Deployment, run: seq<Rows>, list: seq<Presented>, held: seq<Held>, slice: Slice, now: nat)
    requires ValidRun(run) && now < |run| && Presents(d, run, list, held, now)
    requires forall r :: r in held ==> FiltersApart(d.hashing, r.slice, slice)
    ensures (exists p :: p in list && p.tag == Tag(d.hashing, slice, Position(run[now])))
      ==> exists r :: r in held && StillCurrent(run, r, slice, now)
  {
    if p :| p in list && p.tag == Tag(d.hashing, slice, Position(run[now])) {
      var m :| 0 <= m < |list| && list[m] == p;
      assert held[m] in held;
      FreshMeansCurrent(d, run, list, held, slice, now, m);
    }
  }

  // ----- Two byte budgets -----

  /** Two equal records, written one after the other into an empty store. */
  ghost function TwoRecords(
    h: Hashing, source: string, collection: string, a: RecordId, b: RecordId, p: Json, t: Time): Db
  {
    var first := StepDb(h, Db(map[], 0), source, collection, UpsertOp(a, p), t).db;
    StepDb(h, first, source, collection, UpsertOp(b, p), t).db
  }

  lemma TwoRecordsAre(h: Hashing, source: string, collection: string, a: RecordId, b: RecordId, p: Json, t: Time)
    requires a != b && h.ContentHash(p).Some?
    ensures var hash := h.ContentHash(p).value;
      View(TwoRecords(h, source, collection, a, b, p, t).table, source, collection)
      == map[a := Row(p, hash, 1, t, None), b := Row(p, hash, 2, t, None)]
  {
    var hash := h.ContentHash(p).value;
    var ka, kb := RecordKey(source, collection, a), RecordKey(source, collection, b);
    var table := TwoRecords(h, source, collection, a, b, p, t).table;
    assert table == map[ka := Row(p, hash, 1, t, None), kb := Row(p, hash, 2, t, None)];
    ViewAt(table, source, collection, a);
    ViewAt(table, source, collection, b);
  }

  /**
   * The validator does not carry the byte budget. After a restart with half the budget, the feed of two
   * equal records is still validated by the old tag while its first page has become shorter.
   */
  lemma BudgetChangeIsStale(
    h: Hashing, size: TextSize, source: string, collection: string, a: RecordId, b: RecordId, p: Json, t: Time)
    requires a != b && h.ContentHash(p).Some? && 1 <= size(p) && 2 * size(p) <= MAX_PAGE_BYTES
    ensures var rows := View(TwoRecords(h, source, collection, a, b, p, t).table, source, collection);
      var slice := FeedSlice(None, 100);
      var held, current := Deployment(h, size, 2 * size(p)), Deployment(h, size, size(p));
      && FeedPositions(rows)
      && IsFresh(Some(Tag(held.hashing, slice, Position(rows))), Tag(current.hashing, slice, Position(rows)))
      && BodyNow(held, slice, rows) != BodyNow(current, slice, rows)
  {
    TwoRecordsAre(h, source, collection, a, b, p, t);
    var hash := h.ContentHash(p).value;
    HalfBudgetShows(h, size, a, Row(p, hash, 1, t, None), b, Row(p, hash, 2, t, None));
  }

  lemma HalfBudgetShows(h: Hashing, size: TextSize, a: RecordId, ra: Row, b: RecordId, rb: Row)
    requires a != b && 1 <= ra.position < rb.position
    requires ra.payload == rb.payload && 1 <= size(ra.payload) && 2 * size(ra.payload) <= MAX_PAGE_BYTES
    ensures var rows := map[a := ra, b := rb];
      var slice := FeedSlice(None, 100);
      var bytes := size(ra.payload);
      && FeedPositions(rows)
      && IsFresh(Some(Tag(h, slice, Position(rows))), Tag(h, slice, Position(rows)))
      && BodyNow(Deployment(h, size, 2 * bytes), slice, rows) != BodyNow(Deployment(h, size, bytes), slice, rows)
  {
    var rows: Rows := map[a := ra, b := rb];
    TwoRecordPage(size, rows, a, ra, b, rb, 100, 2 * size(ra.payload));
    HalfBudgetPages(size, rows, a, ra, b, rb);
    OwnTagIsFresh(h, FeedSlice(None, 100), Position(rows));
  }

  lemma OwnTagIsFresh(h: Hashing, slice: Slice, position: nat)
    ensures IsFresh(Some(Tag(h, slice, position)), Tag(h, slice, position))
  {
    TagIsQuotation(h, slice, position);
    SingleIsFresh(Tag(h, slice, position), Tag(h, slice, position));
  }

  lemma HalfBudgetPages(size: TextSize, rows: Rows, a: RecordId, ra: Row, b: RecordId, rb: Row)
    requires a != b && rows == map[a := ra, b := rb] && 1 <= ra.position < rb.position && FeedPositions(rows)
    requires ra.payload == rb.payload && 1 <= size(ra.payload) && 2 * size(ra.payload) <= MAX_PAGE_BYTES
    ensures var slice := FeedSlice(None, 100);
      SlicePage(size, slice, rows, 2 * size(ra.payload)) != SlicePage(size, slice, rows, size(ra.payload))
  {
    TwoRecordPage(size, rows, a, ra, b, rb, 100, 2 * size(ra.payload));
    SlicePagesAgree(size, FeedSlice(None, 100), rows, 2 * size(ra.payload), size(ra.payload));
  }

  lemma TwoRecordPage(
    size: TextSize, rows: Rows, a: RecordId, ra: Row, b: RecordId, rb: Row, limit: PageLimit, bytes: ByteBudget)
    requires a != b && rows == map[a := ra, b := rb] && 1 <= ra.position < rb.position
    requires limit > 2 && size(ra.payload) >= 1 && size(rb.payload) >= 1
    requires size(ra.payload) + size(rb.payload) <= bytes
    ensures FeedPositions(rows)
    ensures var records := ReadPage(size, rows, Changes, None, PageBudget(limit, bytes)).records;
      |records| == 2 && TotalSize(size, records) == size(ra.payload) + size(rb.payload)
  {
    var sa, sb := StoredRecord(a, ra), StoredRecord(b, rb);
    var r := [sa, sb];
    assert IsSelection(rows, Changes, 0, limit, r);
    SelectionUnique(rows, Changes, 0, limit, Selection(rows, Changes, 0, limit), r, 0);
    assert r[..|r| - 1] == [sa] && [sa][..|[sa]| - 1] == [];
    assert TotalSize(size, [sa]) == size(ra.payload);
    assert TotalSize(size, r) == size(ra.payload) + size(rb.payload);
    assert r[..2] == r && Fits(size, r, bytes);
    PageIsUnique(size, r, PageBudget(limit, bytes), 2);
  }

  // ----- A single record -----

  /** One record as served: the validator is the content hash, but the body says more. */
  datatype RecordBody = RecordBody(id: RecordId, position: nat, ingestedAt: Time, hash: ContentHash, payload: Json)

  function RecordTag(row: Row): string {
    Quoted(row.hash)
  }

  function ServedRecord(id: RecordId, row: Row): RecordBody {
    RecordBody(id, row.position, row.ingestedAt, row.hash, row.payload)
  }

  /**
   * A record's validator covers its payload, not its feed position: under an equal validator the
   * payload is the same, and the whole body is the same exactly when the record was not written since.
   */
  lemma RecordNotModified(h: Hashing, before: Rows, after: Rows, id: RecordId)
    requires Commits(before, after) && id in before && before[id].IsLive() && after[id].IsLive()
    requires h.ContentHash(before[id].payload) == Some(before[id].hash)
    requires h.ContentHash(after[id].payload) == Some(after[id].hash)
    requires h.Distinguishes(before[id].payload, after[id].payload)
    requires RecordTag(before[id]) == RecordTag(after[id])
    ensures before[id].payload == after[id].payload
    ensures ServedRecord(id, before[id]) == ServedRecord(id, after[id]) <==> before[id].position == after[id].position
    ensures before[id].position == after[id].position <==> before[id] == after[id]
  {
    var s, t := RecordTag(before[id]), RecordTag(after[id]);
    assert s[1..|s| - 1] == before[id].hash && t[1..|t| - 1] == after[id].hash;
    PositionBounds(before);
  }

  datatype RecordAnswer = NotFound | NotModified(etag: string) | Served(etag: string, body: RecordBody)

  /** What a request for one record is answered: a tombstone is as absent as no record. */
  function AnswerRecord(rows: Rows, id: RecordId, header: Option<string>): RecordAnswer {
    if id !in rows || !rows[id].IsLive() then NotFound
    else if IsFresh(header, RecordTag(rows[id])) then NotModified(RecordTag(rows[id]))
    else Served(RecordTag(rows[id]), ServedRecord(id, rows[id]))
  }

  /** The collection holds this live record, and every part of the body is its row's. */
  ghost predicate IsStored(rows: Rows, body: RecordBody) {
    body.id in rows && rows[body.id] == Row(body.payload, body.hash, body.position, body.ingestedAt, None)
  }

  lemma RecordTagIsQuotation(row: Row)
    ensures Quotation(RecordTag(row))
  {
    assert forall i :: 0 <= i < 64 ==> IsHex(row.hash[i]);
  }

  /** A live record is answered 304 exactly to the lists that present its validator, and served to the others. */
  lemma RecordAnswerIsExact(rows: Rows, id: RecordId, list: seq<Presented>)
    requires list != [] && forall p :: p in list ==> WellPresented(p)
    ensures var answer := AnswerRecord(rows, id, Some(Text.Join(ShownList(list), ',')));
      var live := id in rows && rows[id].IsLive();
      && (answer.NotFound? <==> !live)
      && (answer.NotModified? <==> live && exists p :: p in list && p.tag == RecordTag(rows[id]))
      && (answer.Served? <==> live && forall p :: p in list ==> p.tag != RecordTag(rows[id]))
      && (answer.Served? ==> answer.body.id == id && answer.etag == Quoted(answer.body.hash))
      && (answer.Served? ==> IsStored(rows, answer.body))
  {
    if id in rows {
      RecordTagIsQuotation(rows[id]);
      FreshIsMembership(list, RecordTag(rows[id]));
    }
  }

  /**
   * A client that presents the validator of a record it was served is answered 304 exactly while the
   * record is live with that payload, whatever was written in between.
   */
  lemma RecordRevalidation(h: Hashing, before: Rows, after: Rows, id: RecordId)
    requires AnswerRecord(before, id, None).Served?
    requires h.ContentHash(before[id].payload) == Some(before[id].hash)
    requires id in after ==> h.ContentHash(after[id].payload) == Some(after[id].hash)
    requires id in after ==> h.Distinguishes(before[id].payload, after[id].payload)
    ensures var etag := AnswerRecord(before, id, None).etag;
      AnswerRecord(after, id, Some(etag)).NotModified?
      <==> id in after && after[id].IsLive() && after[id].payload == before[id].payload
  {
    if id in after {
      var s, t := RecordTag(before[id]), RecordTag(after[id]);
      assert s[1..|s| - 1] == before[id].hash && t[1..|t| - 1] == after[id].hash;
      RecordTagIsQuotation(before[id]);
      RecordTagIsQuotation(after[id]);
      SingleIsFresh(s, t);
    }
  }

  /** An upsert with room leaves a live row with the hash sent: the same row, or one beyond all before. */
  lemma UpsertLands(h: Hashing, db: Db, source: string, collection: string, id: RecordId, payload: Json, now: Time)
    requires Consistent(h, db) && db.sequence + 2 <= MAX_BIGINT && h.ContentHash(payload).Some?
    ensures var s := StepDb(h, db, source, collection, UpsertOp(id, payload), now);
      var key := RecordKey(source, collection, id);
      && s.outcome.Success? && key in s.db.table && s.db.sequence <= db.sequence + 2
      && s.db.table[key].IsLive() && Some(s.db.table[key].hash) == h.ContentHash(payload)
      && s.db.table[key].position <= s.db.sequence
      && (SeenAt(db, key).LiveHash() != h.ContentHash(payload) ==> s.db.table[key].position > db.sequence)
  {
  }

  /**
   * From any state of the store, a payload written, replaced and written again: the validator served the
   * first time is answered 304 the third time, though the body has become another.
   */
  lemma RecordChangedBack(
    h: Hashing, start: Db, source: string, collection: string, id: RecordId, p: Json, q: Json, t1: Time, t2: Time,
    t3: Time)
    requires Consistent(h, start) && h.PinsEmptyDocument() && start.sequence + 6 <= MAX_BIGINT
    requires h.ContentHash(p).Some? && h.ContentHash(q).Some? && h.ContentHash(p) != h.ContentHash(q)
    ensures var one := StepDb(h, start, source, collection, UpsertOp(id, p), t1);
      var two := StepDb(h, one.db, source, collection, UpsertOp(id, q), t2);
      var three := StepDb(h, two.db, source, collection, UpsertOp(id, p), t3);
      var held := AnswerRecord(View(one.db.table, source, collection), id, None);
      var rows := View(three.db.table, source, collection);
      && one.outcome.Success? && two.outcome.Success? && three.outcome.Success?
      && held.Served?
      && AnswerRecord(rows, id, Some(held.etag)).NotModified?
      && AnswerRecord(rows, id, None).Served? && AnswerRecord(rows, id, None).body != held.body
  {
    var one := StepDb(h, start, source, collection, UpsertOp(id, p), t1).db;
    StepKeeps(h, start, source, collection, UpsertOp(id, p), t1);
    UpsertLands(h, start, source, collection, id, p, t1);
    var two := StepDb(h, one, source, collection, UpsertOp(id, q), t2).db;
    StepKeeps(h, one, source, collection, UpsertOp(id, q), t2);
    UpsertLands(h, one, source, collection, id, q, t2);
    UpsertLands(h, two, source, collection, id, p, t3);
    var three := StepDb(h, two, source, collection, UpsertOp(id, p), t3).db;
    ViewAt(one.table, source, collection, id);
    ViewAt(three.table, source, collection, id);
    var row := View(one.table, source, collection)[id];
    RecordTagIsQuotation(row);
    SingleIsFresh(RecordTag(row), RecordTag(row));
  }
}
