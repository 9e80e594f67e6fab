/** The record store: the writes that change it, one transaction at a time, and the reads. */
module Store {
  import opened Digests
  import opened Documents
  import opened Feed
  import opened Hashing
  import opened Ident
  import opened Records
  import Revalidation
  import opened Statements
  import opened Wrappers

  class PostgresStore {
    const hashing: Hashing
    const size: TextSize
    const collation: IdOrder
    var table: Table
    var sequence: nat

    ghost function Contents(): Db
      reads this
    {
      Db(table, sequence)
    }

    ghost predicate Valid()
      reads this
    {
      Consistent(hashing, Contents()) && hashing.PinsEmptyDocument()
    }

    constructor (hashing: Hashing, size: TextSize, collation: IdOrder)
      requires hashing.PinsEmptyDocument()
      ensures Valid() && Contents() == Db(map[], 0)
      ensures this.hashing == hashing && this.size == size && this.collation == collation
    {
      this.hashing := hashing;
      this.size := size;
      this.collation := collation;
      table := map[];
      sequence := 0;
    }

    /** Carries out the insert-or-update statement in place. */
    method WriteUpsert(
      key: RecordKey, payload: Json, hash: ContentHash, now: Time)
      returns (r: Result<Applied, StoreError>)
      modifies this
      ensures Stepped(Contents(), r) == UpsertStep(old(Contents()), key, payload, hash, now)
    {
      var proposed := NextVal(sequence);
      if proposed.None? {
        return Failure(Database);
      }
      sequence := proposed.value;
      if key !in table {
        table := table[key := Row(payload, hash, sequence, now, None)];
        return Success(Stored(sequence));
      }
      if table[key].hash != hash || table[key].deletedAt.Some? {
        var next := NextVal(sequence);
        if next.None? {
          return Failure(Database);
        }
        sequence := next.value;
        table := table[key := Row(payload, hash, sequence, now, None)];
        return Success(Stored(sequence));
      }
      return Success(Unchanged);
    }

    /** Carries out the tombstoning update in place. */
    method WriteDelete(key: RecordKey, now: Time) returns (r: Result<Applied, StoreError>)
      modifies this
      ensures Stepped(Contents(), r) == DeleteStep(old(Contents()), key, now)
    {
      if key !in table || table[key].deletedAt.Some? {
        return Success(Unchanged);
      }
      var next := NextVal(sequence);
      if next.None? {
        return Failure(Database);
      }
      sequence := next.value;
      table := table[key := Row(EMPTY_DOCUMENT, EMPTY_DOCUMENT_HASH, sequence, now, Some(now))];
      return Success(Tombstoned(sequence));
    }

    /**
     * One upsert outside any batch: hashed, then written by a single statement that commits by itself.
     * A statement the database refuses leaves everything as it was.
     */
    method Upsert(key: RecordKey, payload: Json, now: Time, refused: bool) returns (r: Result<Applied, StoreError>)
      requires Valid()
      modifies this
      ensures Valid()
      ensures r.Success? ==>
        var t := Committed(key.source, key.collection, [UpsertOp(key.id, payload)], now);
        Performs(hashing, old(Contents()), t, Contents())
      ensures r.Failure? ==> Performs(hashing, old(Contents()), RolledBack(sequence), Contents())
      ensures refused ==> r.Failure? && unchanged(this)
      ensures !refused ==>
        var op := UpsertOp(key.id, payload);
        Stepped(Contents(), r) == StepDb(hashing, old(Contents()), key.source, key.collection, op, now)
    {
      StepKeeps(hashing, Contents(), key.source, key.collection, UpsertOp(key.id, payload), now);
      StatementIsTransaction(hashing, Contents(), key.source, key.collection, UpsertOp(key.id, payload), now);
      match hashing.ContentHash(payload)
      case None => r := Failure(NotCanonical);
      case Some(hash) =>
        if refused {
          return Failure(Database);
        }
        r := WriteUpsert(key, payload, hash, now);
    }

    /** One delete outside any batch, by a single statement that commits by itself unless refused. */
    method Delete(key: RecordKey, now: Time, refused: bool) returns (r: Result<Applied, StoreError>)
      requires Valid()
      modifies this
      ensures Valid()
      ensures r.Success? ==>
        var t := Committed(key.source, key.collection, [DeleteOp(key.id)], now);
        Performs(hashing, old(Contents()), t, Contents())
      ensures r.Failure? ==> Performs(hashing, old(Contents()), RolledBack(sequence), Contents())
      ensures refused ==> r.Failure? && unchanged(this)
      ensures !refused ==>
        var op := DeleteOp(key.id);
        Stepped(Contents(), r) == StepDb(hashing, old(Contents()), key.source, key.collection, op, now)
    {
      StepKeeps(hashing, Contents(), key.source, key.collection, DeleteOp(key.id), now);
      StatementIsTransaction(hashing, Contents(), key.source, key.collection, DeleteOp(key.id), now);
      if refused {
        return Failure(Database);
      }
      r := WriteDelete(key, now);
    }

    /** One operation of a batch, with the hash computed for it beforehand. */
    method WriteOp(source: string, collection: string, op: IngestOp, hash: Option<ContentHash>, now: Time)
      returns (r: Result<Applied, StoreError>)
      requires HashFor(hashing, op, hash)
      modifies this
      ensures Stepped(Contents(), r) == StepDb(hashing, old(Contents()), source, collection, op, now)
    {
      var key := RecordKey(source, collection, op.id);
      match op
      case UpsertOp(_, payload) => r := WriteUpsert(key, payload, hash.value, now);
      case DeleteOp(_) => r := WriteDelete(key, now);
    }

    /** Hashes every payload of a batch before anything is written. */
    method HashAll(ops: seq<IngestOp>) returns (hashed: Option<seq<Option<ContentHash>>>)
      ensures hashed.Some? <==> forall op :: op in ops ==> Hashable(hashing, op)
      ensures hashed.Some? ==>
        |hashed.value| == |ops| && forall i :: 0 <= i < |ops| ==> HashFor(hashing, ops[i], hashed.value[i])
    {
      var hashes: seq<Option<ContentHash>> := [];
      for i := 0 to |ops|
        invariant |hashes| == i
        invariant forall j :: 0 <= j < i ==> HashFor(hashing, ops[j], hashes[j])
      {
        var hash := if ops[i].UpsertOp? then hashing.ContentHash(ops[i].payload) else None;
        if ops[i].UpsertOp? && hash.None? {
          assert !Hashable(hashing, ops[i]);
          return None;
        }
        hashes := hashes + [hash];
      }
      forall op | op in ops ensures Hashable(hashing, op) {
        var i :| 0 <= i < |ops| && ops[i] == op;
        assert HashFor(hashing, ops[i], hashes[i]);
      }
      return Some(hashes);
    }

    /** The statements of a batch in order, up to the first that fails. */
    method RunOps(
      source: string, collection: string, ops: seq<IngestOp>, hashes: seq<Option<ContentHash>>, now: Time,
      fault: Option<nat>)
      returns (r: Result<seq<Applied>, StoreError>)
      requires |hashes| == |ops| && forall i :: 0 <= i < |ops| ==> HashFor(hashing, ops[i], hashes[i])
      modifies this
      ensures var batch := ApplyOps(hashing, old(Contents()), source, collection, ops, now);
        && (r.Success? ==> Batch(Contents(), r) == batch)
        && (r.Success? <==> batch.outcome.Success? && !(fault.Some? && fault.value < |ops|))
      ensures old(sequence) <= sequence && (old(sequence) <= MAX_BIGINT ==> sequence <= MAX_BIGINT)
    {
      ghost var start := Contents();
      var outcomes: seq<Applied> := [];
      for i := 0 to |ops|
        invariant ApplyOps(hashing, start, source, collection, ops[..i], now) == Batch(Contents(), Success(outcomes))
        invariant start.sequence <= sequence && (start.sequence <= MAX_BIGINT ==> sequence <= MAX_BIGINT)
        invariant fault.Some? ==> fault.value >= i
      {
        assert ops[..i + 1][..i] == ops[..i];
        if fault == Some(i) {
          return Failure(Database);
        }
        var outcome := WriteOp(source, collection, ops[i], hashes[i], now);
        if outcome.Failure? {
          FailureSticks(hashing, start, source, collection, ops, i + 1, now);
          return Failure(outcome.error);
        }
        outcomes := outcomes + [outcome.value];
      }
      assert ops[..|ops|] == ops;
      return Success(outcomes);
    }

    /**
     * Runs a batch between begin and commit. `fault` is the statement the database refuses, if any; the
     * commit is the last one. A failed transaction leaves the table as it was, but sequence values
     * already taken are not returned.
     */
    method Apply(source: string, collection: string, ops: seq<IngestOp>, now: Time, fault: Option<nat>)
      returns (r: Result<seq<Applied>, StoreError>)
      requires Valid()
      modifies this
      ensures Valid()
      ensures r.Success? ==> r == ApplyOps(hashing, old(Contents()), source, collection, ops, now).outcome
      ensures r.Success? ==> Performs(hashing, old(Contents()), Committed(source, collection, ops, now), Contents())
      ensures r.Failure? ==> Performs(hashing, old(Contents()), RolledBack(sequence), Contents())
      ensures r.Success? <==>
        && (forall op :: op in ops ==> Hashable(hashing, op))
        && !(fault.Some? && fault.value <= |ops|)
        && ApplyOps(hashing, old(Contents()), source, collection, ops, now).outcome.Success?
      ensures (exists op :: op in ops && !Hashable(hashing, op)) ==> r == Failure(NotCanonical) && unchanged(this)
    {
      var hashed := HashAll(ops);
      if hashed.None? {
        return Failure(NotCanonical);
      }
      var saved := table;
      BatchKeeps(hashing, Contents(), source, collection, ops, now);
      r := RunOps(source, collection, ops, hashed.value, now, fault);
      if r.Success? && fault == Some(|ops|) {
        r := Failure(Database);
      }
      if r.Failure? {
        table := saved;
      }
    }

    /** Reads the live rows that match a filter, up to a budget. */
    method List(source: string, collection: string, filter: map<string, Json>, after: Option<nat>, budget: PageBudget)
      returns (r: Result<Page, StoreError>)
      requires Valid()
      ensures FeedPositions(View(table, source, collection))
      ensures r == if CursorOf(after) > MAX_BIGINT then Failure(Corrupt("cursor"))
                   else Success(ReadPage(size, View(table, source, collection), Listing(filter), after, budget))
      ensures r.Success? ==>
        var rows := View(table, source, collection);
        && ListsExactly(rows, filter, after, r.value)
        && PageShows(size, rows, Listing(filter), after, budget, r.value)
    {
      ViewPositions(hashing, Contents(), source, collection);
      if CursorOf(after) > MAX_BIGINT {
        return Failure(Corrupt("cursor"));
      }
      ListingIsExact(size, View(table, source, collection), filter, after, budget);
      ReadPageShows(size, View(table, source, collection), Listing(filter), after, budget);
      var rows := SelectRows(View(table, source, collection), Listing(filter), CursorOf(after), budget.records);
      var page := BuildPage(size, rows, budget);
      return Success(page);
    }

    /** Reads rows of either kind, up to a budget. */
    method ChangesSince(source: string, collection: string, since: Option<nat>, budget: PageBudget)
      returns (r: Result<Page, StoreError>)
      requires Valid()
      ensures FeedPositions(View(table, source, collection))
      ensures r == if CursorOf(since) > MAX_BIGINT then Failure(Corrupt("cursor"))
                   else Success(ReadPage(size, View(table, source, collection), Changes, since, budget))
      ensures r.Success? ==>
        var rows := View(table, source, collection);
        && FeedsExactly(rows, since, r.value)
        && PageShows(size, rows, Changes, since, budget, r.value)
    {
      ViewPositions(hashing, Contents(), source, collection);
      if CursorOf(since) > MAX_BIGINT {
        return Failure(Corrupt("cursor"));
      }
      FeedIsExact(size, View(table, source, collection), since, budget);
      ReadPageShows(size, View(table, source, collection), Changes, since, budget);
      var rows := SelectRows(View(table, source, collection), Changes, CursorOf(since), budget.records);
      var page := BuildPage(size, rows, budget);
      return Success(page);
    }

    /** One scan of the live rows: how many, and their checksum. */
    method ReadLive(source: string, collection: string) returns (count: nat, checksum: Option<ContentHash>)
      ensures var hashes := Revalidation.LiveHashes(View(table, source, collection));
        count == |hashes| && checksum == Checksum(hashing, hashes)
    {
      var pairs := Scan(Revalidation.LiveHashes(View(table, source, collection)));
      checksum := CollectionChecksum(hashing, pairs);
      return |pairs|, checksum;
    }

    /** Reads the hashes of live rows by id, in the database's own order of ids. */
    method DigestsAfter(
      source: string, collection: string, after: Option<RecordId>, limit: PageLimit)
      returns (page: DigestPage)
      requires Collation(collation)
      ensures page == ReadDigests(collation, View(table, source, collection), after, limit)
      ensures DigestsExactly(collation, View(table, source, collection), after, limit, page)
    {
      DigestPageIsExact(collation, View(table, source, collection), after, limit);
      var rows := View(table, source, collection);
      var ids := SelectIds(collation, rows, Start(after), limit);
      page := CollectDigests(rows, ids, limit);
    }

    /** Finds exactly the record that the change feed, read from its start, has for this id. */
    method Get(key: RecordKey) returns (r: Option<StoredRecord>)
      requires Valid()
      ensures var rows := View(table, key.source, key.collection);
        forall s :: r == Some(s) <==> s.id == key.id && Due(rows, Changes, None, s)
    {
      ViewAt(table, key.source, key.collection, key.id);
      if key !in table {
        return None;
      }
      return Some(StoredRecord(key.id, table[key]));
    }
  }

  /** The rows of a scan, in whatever order it returns them. */
  method Scan(hashes: map<string, ContentHash>) returns (pairs: seq<Entry>)
    ensures Lists(pairs, hashes) && |pairs| == |hashes|
  {
    var left := hashes.Keys;
    ghost var done: map<string, ContentHash> := map[];
    pairs := [];
    while left != {}
      invariant left <= hashes.Keys
      invariant |pairs| + |left| == |hashes.Keys|
      invariant done == hashes - left
      invariant Lists(pairs, done)
      decreases |left|
    {
      var id :| id in left;
      ListOneMore(pairs, done, id, hashes[id]);
      LessLeft(hashes, left, id);
      done := done[id := hashes[id]];
      left := left - {id};
      pairs := pairs + [Entry(id, hashes[id])];
    }
    assert hashes - left == hashes;
    assert |hashes.Keys| == |hashes|;
  }

  /** The digests of these rows in order, and the last id as the cursor of a full page. */
  method CollectDigests(rows: Rows, ids: seq<RecordId>, limit: PageLimit) returns (page: DigestPage)
    requires forall id :: id in ids ==> id in rows
    ensures page == DigestPageOf(rows, ids, limit)
  {
    var fullPage := |ids| == limit;
    var entries: seq<Digest> := [];
    for i := 0 to |ids|
      invariant |entries| == i
      invariant forall j :: 0 <= j < i ==> entries[j] == DigestsOf(rows, ids)[j]
    {
      assert ids[i] in ids;
      entries := entries + [Digest(ids[i], rows[ids[i]].hash)];
    }
    assert entries == DigestsOf(rows, ids);
    page := DigestPage(entries, if fullPage then Some(entries[|entries| - 1].id) else None);
  }

  lemma LessLeft(hashes: map<string, ContentHash>, left: set<string>, id: string)
    requires id in left && left <= hashes.Keys
    ensures hashes - (left - {id}) == (hashes - left)[id := hashes[id]]
    ensures |left - {id}| == |left| - 1
  {
  }

  /** Listing one more id. */
  lemma ListOneMore(entries: seq<Entry>, hashes: map<string, ContentHash>, id: string, hash: ContentHash)
    requires Lists(entries, hashes) && id !in hashes
    ensures Lists(entries + [Entry(id, hash)], hashes[id := hash])
  {
    var more := entries + [Entry(id, hash)];
    forall e | e in entries ensures e in more && e.id != id {
    }
    assert more[|entries|] == Entry(id, hash);
    assert forall i :: 0 <= i < |entries| ==> entries[i] in entries;
  }
}
