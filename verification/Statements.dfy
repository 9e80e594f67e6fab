/** What each statement and each batch does to the record table and its sequence. */
module Statements {
  import opened Documents
  import opened Feed
  import opened Hashing
  import opened Ident
  import opened Records
  import Runs
  import opened Wrappers

  /** What the database holds: the record table and the last value its sequence handed out. */
  datatype Db = Db(table: Table, sequence: nat)

  datatype Stepped = Stepped(db: Db, outcome: Result<Applied, StoreError>)

  datatype Batch = Batch(db: Db, outcome: Result<seq<Applied>, StoreError>)

  /** The next sequence value; a bigint sequence runs out. */
  function NextVal(sequence: nat): Option<nat> {
    if sequence < MAX_BIGINT then Some(sequence + 1) else None
  }

  // ----- What one statement does -----

  /**
   * `INSERT ... ON CONFLICT DO UPDATE ... WHERE`. The proposed row's default takes a sequence value
   * before the conflict is seen, so an update takes a second one and a no-op spends one.
   */
  function UpsertStep(db: Db, key: RecordKey, payload: Json, hash: ContentHash, now: Time): Stepped {
    match NextVal(db.sequence)
    case None => Stepped(db, Failure(Database))
    case Some(first) =>
      if key !in db.table then
        Stepped(Db(db.table[key := Row(payload, hash, first, now, None)], first), Success(Stored(first)))
      else if db.table[key].hash == hash && db.table[key].IsLive() then
        Stepped(Db(db.table, first), Success(Unchanged))
      else match NextVal(first)
        case None => Stepped(Db(db.table, first), Failure(Database))
        case Some(second) =>
          Stepped(Db(db.table[key := Row(payload, hash, second, now, None)], second), Success(Stored(second)))
  }

  /** `UPDATE ... WHERE deleted_at IS NULL`: a live row becomes an empty tombstone. */
  function DeleteStep(db: Db, key: RecordKey, now: Time): Stepped {
    if key !in db.table || !db.table[key].IsLive() then Stepped(db, Success(Unchanged))
    else match NextVal(db.sequence)
      case None => Stepped(db, Failure(Database))
      case Some(n) =>
        var tombstone := Row(EMPTY_DOCUMENT, EMPTY_DOCUMENT_HASH, n, now, Some(now));
        Stepped(Db(db.table[key := tombstone], n), Success(Tombstoned(n)))
  }

  function StepDb(h: Hashing, db: Db, source: string, collection: string, op: IngestOp, now: Time): Stepped {
    var key := RecordKey(source, collection, op.id);
    match op
    case DeleteOp(_) => DeleteStep(db, key, now)
    case UpsertOp(_, payload) =>
      match h.ContentHash(payload)
      case None => Stepped(db, Failure(NotCanonical))
      case Some(hash) => UpsertStep(db, key, payload, hash, now)
  }

  /** The single-record operations in order, up to the first that fails. */
  function ApplyOps(h: Hashing, db: Db, source: string, collection: string, ops: seq<IngestOp>, now: Time): Batch {
    if ops == [] then Batch(db, Success([]))
    else Extend(h, ApplyOps(h, db, source, collection, ops[..|ops| - 1], now), source, collection, ops[|ops| - 1], now)
  }

  /** One more operation of a batch; a batch that has failed does nothing further. */
  function Extend(h: Hashing, before: Batch, source: string, collection: string, op: IngestOp, now: Time): Batch {
    match before.outcome
    case Failure(_) => before
    case Success(outcomes) =>
      var s := StepDb(h, before.db, source, collection, op, now);
      match s.outcome
      case Failure(e) => Batch(s.db, Failure(e))
      case Success(applied) => Batch(s.db, Success(outcomes + [applied]))
  }

  ghost predicate Hashable(h: Hashing, op: IngestOp) {
    op.UpsertOp? ==> h.ContentHash(op.payload).Some?
  }

  /** The hash computed for an operation before the transaction opens; a delete has none. */
  ghost predicate HashFor(h: Hashing, op: IngestOp, hash: Option<ContentHash>) {
    op.UpsertOp? ==> hash.Some? && hash == h.ContentHash(op.payload)
  }

  /** What the schema's constraints and the write path keep true of the database. */
  ghost predicate Consistent(h: Hashing, db: Db) {
    && db.sequence <= MAX_BIGINT
    && (forall k :: k in db.table ==> 1 <= db.table[k].position <= db.sequence)
    && (forall j, k :: j in db.table && k in db.table && db.table[j].position == db.table[k].position ==> j == k)
    && (forall k :: k in db.table ==> SoundRow(h, db.table[k]))
  }

  /** A row's hash is its payload's, and a tombstone carries no payload. */
  ghost predicate SoundRow(h: Hashing, row: Row) {
    h.ContentHash(row.payload) == Some(row.hash) && (!row.IsLive() ==> row.payload == EMPTY_DOCUMENT)
  }

  lemma ViewPositions(h: Hashing, db: Db, source: string, collection: string)
    requires Consistent(h, db)
    ensures FeedPositions(View(db.table, source, collection))
  {
    var rows := View(db.table, source, collection);
    forall id | id in rows
      ensures var key := RecordKey(source, collection, id); key in db.table && rows[id] == db.table[key]
    {
      ViewAt(db.table, source, collection, id);
    }
  }

  /** A fold that has failed stays failed. */
  lemma {:induction false} FailureSticks(
    h: Hashing, db: Db, source: string, collection: string, ops: seq<IngestOp>, n: nat, now: Time)
    requires n <= |ops| && ApplyOps(h, db, source, collection, ops[..n], now).outcome.Failure?
    ensures ApplyOps(h, db, source, collection, ops, now).outcome.Failure?
    decreases |ops|
  {
    if n < |ops| {
      assert ops[..|ops| - 1][..n] == ops[..n];
      FailureSticks(h, db, source, collection, ops[..|ops| - 1], n, now);
    } else {
      assert ops[..n] == ops;
    }
  }

  // ----- What every step keeps -----

  /** Rows only ever move: untouched, or rewritten beyond every position handed out before. */
  ghost predicate Advances(before: Db, after: Db) {
    && before.sequence <= after.sequence
    && before.table.Keys <= after.table.Keys
    && forall k :: k in after.table ==>
         (k in before.table && after.table[k] == before.table[k]) || before.sequence < after.table[k].position
  }

  lemma AdvancesTransitive(a: Db, b: Db, c: Db)
    requires Advances(a, b) && Advances(b, c)
    ensures Advances(a, c)
  {
  }

  /** A row written at a fresh position. */
  lemma WriteKeeps(h: Hashing, db: Db, key: RecordKey, row: Row)
    requires Consistent(h, db) && SoundRow(h, row) && db.sequence < row.position <= MAX_BIGINT
    ensures var after := Db(db.table[key := row], row.position); Consistent(h, after) && Advances(db, after)
  {
  }

  /** One statement keeps the database consistent; it reports no change exactly when it made none. */
  lemma StepKeeps(h: Hashing, db: Db, source: string, collection: string, op: IngestOp, now: Time)
    requires Consistent(h, db) && h.PinsEmptyDocument()
    ensures var s := StepDb(h, db, source, collection, op, now);
      && Consistent(h, s.db) && Advances(db, s.db)
      && (s.outcome.Failure? ==> s.db.table == db.table)
      && (s.outcome.Success? ==> (s.outcome.value == Unchanged <==> s.db.table == db.table))
  {
    var key := RecordKey(source, collection, op.id);
    var s := StepDb(h, db, source, collection, op, now);
    if s.outcome.Success? && s.outcome.value != Unchanged {
      WriteKeeps(h, db, key, s.db.table[key]);
    }
  }

  /** A no-op moves no record, but only a no-op delete leaves the sequence where it was. */
  lemma NoOpSequence(h: Hashing, db: Db, source: string, collection: string, op: IngestOp, now: Time)
    requires StepDb(h, db, source, collection, op, now).outcome == Success(Unchanged)
    ensures var s := StepDb(h, db, source, collection, op, now);
      s.db.table == db.table && (s.db.sequence == db.sequence <==> op.DeleteOp?)
  {
  }

  /**
   * How far each statement moves the sequence, and where it leaves its record: a write takes the last
   * value handed out, a rewrite has spent one value more than an insert, and a refused statement at
   * most one.
   */
  lemma SequenceSpent(h: Hashing, db: Db, source: string, collection: string, op: IngestOp, now: Time)
    ensures var s := StepDb(h, db, source, collection, op, now);
      var key := RecordKey(source, collection, op.id);
      match s.outcome
      case Success(Stored(n)) =>
        op.UpsertOp? && n == s.db.sequence == db.sequence + if key in db.table then 2 else 1
      case Success(Tombstoned(n)) => op.DeleteOp? && n == s.db.sequence == db.sequence + 1
      case Success(Unchanged) => s.db.sequence == db.sequence + if op.UpsertOp? then 1 else 0
      case Failure(e) =>
        && db.sequence <= s.db.sequence <= db.sequence + 1
        && (e == Database <==> Target(h, op).Some? || op.DeleteOp?)
        && (e == Database && db.sequence <= MAX_BIGINT ==> s.db.sequence == MAX_BIGINT)
  {
  }

  /** A batch keeps the database consistent, with one outcome per operation. */
  lemma {:induction false} BatchKeeps(
    h: Hashing, db: Db, source: string, collection: string, ops: seq<IngestOp>, now: Time)
    requires Consistent(h, db) && h.PinsEmptyDocument()
    ensures var b := ApplyOps(h, db, source, collection, ops, now);
      && Consistent(h, b.db) && Advances(db, b.db)
      && (b.outcome.Success? ==> |b.outcome.value| == |ops|)
    decreases |ops|
  {
    if ops != [] {
      var before := ApplyOps(h, db, source, collection, ops[..|ops| - 1], now);
      BatchKeeps(h, db, source, collection, ops[..|ops| - 1], now);
      StepKeeps(h, before.db, source, collection, ops[|ops| - 1], now);
      AdvancesTransitive(db, before.db, StepDb(h, before.db, source, collection, ops[|ops| - 1], now).db);
    }
  }

  /** A batch in two parts is the two parts in order. */
  lemma {:induction false} BatchSplits(
    h: Hashing, db: Db, source: string, collection: string, a: seq<IngestOp>, b: seq<IngestOp>, now: Time)
    ensures var first := ApplyOps(h, db, source, collection, a, now);
      var second := ApplyOps(h, first.db, source, collection, b, now);
      ApplyOps(h, db, source, collection, a + b, now)
      == if first.outcome.Failure? then first
         else if second.outcome.Failure? then second
         else Batch(second.db, Success(first.outcome.value + second.outcome.value))
    decreases |b|
  {
    var first := ApplyOps(h, db, source, collection, a, now);
    if b == [] {
      assert a + b == a;
      assert first.outcome.Success? ==> first.outcome.value + [] == first.outcome.value;
    } else {
      var init := b[..|b| - 1];
      assert (a + b)[..|a + b| - 1] == a + init && (a + b)[|a + b| - 1] == b[|b| - 1];
      BatchSplits(h, db, source, collection, a, init, now);
      var second := ApplyOps(h, first.db, source, collection, init, now);
      if first.outcome.Success? && second.outcome.Success? {
        ExtendAppends(h, first.outcome.value, second, source, collection, b[|b| - 1], now);
      }
    }
  }

  /** Outcomes that came before do not matter to the next operation. */
  lemma ExtendAppends(
    h: Hashing, earlier: seq<Applied>, b: Batch, source: string, collection: string, op: IngestOp, now: Time)
    requires b.outcome.Success?
    ensures var one := Extend(h, b, source, collection, op, now);
      Extend(h, Batch(b.db, Success(earlier + b.outcome.value)), source, collection, op, now)
      == if one.outcome.Failure? then one else Batch(one.db, Success(earlier + one.outcome.value))
  {
    var s := StepDb(h, b.db, source, collection, op, now);
    if s.outcome.Success? {
      assert earlier + (b.outcome.value + [s.outcome.value]) == (earlier + b.outcome.value) + [s.outcome.value];
    }
  }

  // ----- What a reader sees of one record -----

  /** A record as a reader sees it, without its position and times. */
  datatype Seen = Absent | Live(payload: Json, hash: ContentHash) | Dead {
    function LiveHash(): Option<ContentHash> {
      if Live? then Some(hash) else None
    }
  }

  function SeenAt(db: Db, key: RecordKey): Seen {
    if key !in db.table then Absent
    else if db.table[key].IsLive() then Live(db.table[key].payload, db.table[key].hash)
    else Dead
  }

  /** The live hash an operation asks for; none for a delete. */
  function Target(h: Hashing, op: IngestOp): Option<ContentHash> {
    match op
    case UpsertOp(_, payload) => h.ContentHash(payload)
    case DeleteOp(_) => None
  }

  /** What one operation makes of the record it addresses. */
  function StepSeen(h: Hashing, seen: Seen, op: IngestOp): Seen {
    if seen.LiveHash() == Target(h, op) then seen
    else match op
      case UpsertOp(_, payload) =>
        (match h.ContentHash(payload)
         case Some(hash) => Live(payload, hash)
         case None => seen)
      case DeleteOp(_) => Dead
  }

  /** What a batch makes of one record. */
  function FoldSeen(h: Hashing, seen: Seen, ops: seq<IngestOp>, id: RecordId): Seen {
    if ops == [] then seen
    else
      var before := FoldSeen(h, seen, ops[..|ops| - 1], id);
      if ops[|ops| - 1].id == id then StepSeen(h, before, ops[|ops| - 1]) else before
  }

  /** A statement does what its operation asks, to the record it addresses and no other. */
  lemma StepIsSeen(h: Hashing, db: Db, source: string, collection: string, op: IngestOp, now: Time, key: RecordKey)
    requires StepDb(h, db, source, collection, op, now).outcome.Success?
    ensures var s := StepDb(h, db, source, collection, op, now);
      && SeenAt(s.db, key)
         == (if key == RecordKey(source, collection, op.id) then StepSeen(h, SeenAt(db, key), op) else SeenAt(db, key))
      && (s.outcome.value == Unchanged
          <==> SeenAt(db, RecordKey(source, collection, op.id)).LiveHash() == Target(h, op))
  {
  }

  /** A batch makes of each record what its own operations make of it, in order. */
  lemma {:induction false} BatchIsSeen(
    h: Hashing, db: Db, source: string, collection: string, ops: seq<IngestOp>, now: Time, key: RecordKey)
    requires ApplyOps(h, db, source, collection, ops, now).outcome.Success?
    ensures SeenAt(ApplyOps(h, db, source, collection, ops, now).db, key)
         == if key.source == source && key.collection == collection
            then FoldSeen(h, SeenAt(db, key), ops, key.id) else SeenAt(db, key)
    decreases |ops|
  {
    if ops != [] {
      var init, op := ops[..|ops| - 1], ops[|ops| - 1];
      BatchIsSeen(h, db, source, collection, init, now, key);
      StepIsSeen(h, ApplyOps(h, db, source, collection, init, now).db, source, collection, op, now, key);
      assert ops == init + [op];
    }
  }

  ghost predicate DistinctTargets(ops: seq<IngestOp>) {
    forall i, j :: 0 <= i < j < |ops| ==> ops[i].id != ops[j].id
  }

  /** A batch that was applied had a canonical form for every payload. */
  lemma {:induction false} BatchIsHashable(
    h: Hashing, db: Db, source: string, collection: string, ops: seq<IngestOp>, now: Time)
    requires ApplyOps(h, db, source, collection, ops, now).outcome.Success?
    ensures forall op :: op in ops ==> Hashable(h, op)
    decreases |ops|
  {
    if ops != [] {
      var init := ops[..|ops| - 1];
      assert ops == init + [ops[|ops| - 1]];
      BatchIsHashable(h, db, source, collection, init, now);
    }
  }

  ghost predicate SameRow(a: Table, b: Table, key: RecordKey) {
    (key in a <==> key in b) && (key in a ==> a[key] == b[key])
  }

  /** What an answer says of the record it is about. */
  ghost predicate Shows(before: Table, after: Table, key: RecordKey, answer: Applied) {
    match answer
    case Stored(n) => key in after && after[key].position == n && after[key].IsLive()
    case Tombstoned(n) => key in after && after[key].position == n && !after[key].IsLive()
    case Unchanged => SameRow(before, after, key)
  }

  /** A row as an operation writes it at this time. */
  ghost predicate Writes(h: Hashing, op: IngestOp, now: Time, row: Row) {
    && row.ingestedAt == now
    && match op
       case UpsertOp(_, payload) =>
         row.deletedAt == None && row.payload == payload && h.ContentHash(payload) == Some(row.hash)
       case DeleteOp(_) =>
         row.deletedAt == Some(now) && row.payload == EMPTY_DOCUMENT && row.hash == EMPTY_DOCUMENT_HASH
  }

  /** The record a statement addresses is as its operation writes it, or as it was. */
  lemma StepWrites(h: Hashing, db: Db, source: string, collection: string, op: IngestOp, now: Time)
    ensures var after := StepDb(h, db, source, collection, op, now).db.table;
      var key := RecordKey(source, collection, op.id);
      SameRow(db.table, after, key) || (key in after && Writes(h, op, now, after[key]))
  {
  }

  /** A statement answers for its own record and leaves the others. */
  lemma StepShows(h: Hashing, db: Db, source: string, collection: string, op: IngestOp, now: Time)
    ensures var s := StepDb(h, db, source, collection, op, now);
      var key := RecordKey(source, collection, op.id);
      && (s.outcome.Success? ==> Shows(db.table, s.db.table, key, s.outcome.value))
      && (forall other :: other != key ==> SameRow(db.table, s.db.table, other))
  {
  }

  /** The answer to each operation of a batch of distinct records is what the record then shows. */
  lemma {:induction false} AnswersAreVisible(
    h: Hashing, db: Db, source: string, collection: string, ops: seq<IngestOp>, now: Time, i: nat)
    requires DistinctTargets(ops) && i < |ops|
    requires ApplyOps(h, db, source, collection, ops, now).outcome.Success?
    ensures var b := ApplyOps(h, db, source, collection, ops, now);
      |b.outcome.value| == |ops|
      && Shows(db.table, b.db.table, RecordKey(source, collection, ops[i].id), b.outcome.value[i])
    decreases |ops|
  {
    var init, last := ops[..|ops| - 1], ops[|ops| - 1];
    var before := ApplyOps(h, db, source, collection, init, now);
    OneOutcomeEach(h, db, source, collection, init, now);
    if i < |init| {
      AnswersAreVisible(h, db, source, collection, init, now, i);
      assert init[i].id == ops[i].id != last.id;
      ExtendLeaves(h, db.table, before, source, collection, last, now, RecordKey(source, collection, init[i].id), i);
    } else {
      Bystander(h, db, source, collection, init, now, last.id);
      ExtendShows(h, db.table, before, source, collection, last, now);
    }
  }

  /** An earlier answer stays true while later operations address other records. */
  lemma ExtendLeaves(
    h: Hashing, start: Table, before: Batch, source: string, collection: string, op: IngestOp, now: Time,
    key: RecordKey, k: nat)
    requires before.outcome.Success? && k < |before.outcome.value| && key != RecordKey(source, collection, op.id)
    requires Shows(start, before.db.table, key, before.outcome.value[k])
    requires Extend(h, before, source, collection, op, now).outcome.Success?
    ensures var b := Extend(h, before, source, collection, op, now);
      k < |b.outcome.value| && Shows(start, b.db.table, key, b.outcome.value[k])
  {
    StepShows(h, before.db, source, collection, op, now);
    assert SameRow(before.db.table, Extend(h, before, source, collection, op, now).db.table, key);
  }

  /** The answer to an operation is true of a record nobody addressed before. */
  lemma ExtendShows(
    h: Hashing, start: Table, before: Batch, source: string, collection: string, op: IngestOp, now: Time)
    requires before.outcome.Success? && SameRow(start, before.db.table, RecordKey(source, collection, op.id))
    requires Extend(h, before, source, collection, op, now).outcome.Success?
    ensures var b := Extend(h, before, source, collection, op, now);
      |b.outcome.value| == |before.outcome.value| + 1
      && Shows(start, b.db.table, RecordKey(source, collection, op.id), b.outcome.value[|before.outcome.value|])
  {
    StepShows(h, before.db, source, collection, op, now);
  }

  lemma {:induction false} OneOutcomeEach(
    h: Hashing, db: Db, source: string, collection: string, ops: seq<IngestOp>, now: Time)
    requires ApplyOps(h, db, source, collection, ops, now).outcome.Success?
    ensures |ApplyOps(h, db, source, collection, ops, now).outcome.value| == |ops|
    decreases |ops|
  {
    if ops != [] {
      OneOutcomeEach(h, db, source, collection, ops[..|ops| - 1], now);
    }
  }

  /** A record no operation addresses keeps its row. */
  lemma {:induction false} Bystander(
    h: Hashing, db: Db, source: string, collection: string, ops: seq<IngestOp>, now: Time, id: RecordId)
    requires forall op :: op in ops ==> op.id != id
    ensures SameRow(db.table, ApplyOps(h, db, source, collection, ops, now).db.table, RecordKey(source, collection, id))
    decreases |ops|
  {
    if ops != [] {
      var init, last := ops[..|ops| - 1], ops[|ops| - 1];
      assert last in ops && forall op :: op in init ==> op in ops;
      Bystander(h, db, source, collection, init, now, id);
      StepShows(h, ApplyOps(h, db, source, collection, init, now).db, source, collection, last, now);
    }
  }

  /** A live upsert is a no-op exactly when the stored payload is the one sent. */
  lemma UnchangedMeansEqual(
    h: Hashing, db: Db, source: string, collection: string, id: RecordId, payload: Json, now: Time)
    requires Consistent(h, db)
    requires StepDb(h, db, source, collection, UpsertOp(id, payload), now).outcome.Success?
    requires forall k :: k in db.table ==> h.Distinguishes(db.table[k].payload, payload)
    ensures StepDb(h, db, source, collection, UpsertOp(id, payload), now).outcome.value == Unchanged
      <==> SeenAt(db, RecordKey(source, collection, id)).Live?
           && SeenAt(db, RecordKey(source, collection, id)).payload == payload
  {
  }

  // ----- Retrying -----

  ghost predicate Touches(ops: seq<IngestOp>, id: RecordId) {
    exists op :: op in ops && op.id == id
  }

  /** Untouched records stay as they are. */
  lemma {:induction false} FoldSkips(h: Hashing, seen: Seen, ops: seq<IngestOp>, id: RecordId)
    requires !Touches(ops, id)
    ensures FoldSeen(h, seen, ops, id) == seen
    decreases |ops|
  {
    if ops != [] {
      var init := ops[..|ops| - 1];
      assert ops[|ops| - 1] in ops && forall op :: op in init ==> op in ops;
      FoldSkips(h, seen, init, id);
    }
  }

  /** What a touched record ends with does not depend on where it started. */
  lemma {:induction false} FoldForgets(h: Hashing, a: Seen, b: Seen, ops: seq<IngestOp>, id: RecordId)
    requires Touches(ops, id) && forall op :: op in ops ==> Hashable(h, op)
    ensures FoldSeen(h, a, ops, id).LiveHash() == FoldSeen(h, b, ops, id).LiveHash()
    decreases |ops|
  {
    var init, last := ops[..|ops| - 1], ops[|ops| - 1];
    assert ops == init + [last] && last in ops;
    if last.id != id {
      assert Touches(init, id);
      FoldForgets(h, a, b, init, id);
    }
  }

  /** Repeating a batch changes nothing a reader sees, even where hashes collide. */
  lemma {:induction false} FoldReplay(h: Hashing, seen: Seen, ops: seq<IngestOp>, id: RecordId)
    requires forall op :: op in ops ==> Hashable(h, op)
    ensures FoldSeen(h, FoldSeen(h, seen, ops, id), ops, id) == FoldSeen(h, seen, ops, id)
    decreases |ops|
  {
    if ops != [] {
      var init, op := ops[..|ops| - 1], ops[|ops| - 1];
      assert ops == init + [op] && op in ops;
      FoldReplay(h, seen, init, id);
      if Touches(init, id) {
        FoldForgets(h, seen, FoldSeen(h, seen, ops, id), init, id);
      } else {
        FoldSkips(h, seen, init, id);
        FoldSkips(h, FoldSeen(h, seen, ops, id), init, id);
      }
    }
  }

  /** Retrying a batch that was applied is invisible: every payload and every deletion stays. */
  lemma ReplayIsInvisible(
    h: Hashing, db: Db, source: string, collection: string, ops: seq<IngestOp>, now: Time, later: Time, key: RecordKey)
    requires ApplyOps(h, db, source, collection, ops, now).outcome.Success?
    requires var first := ApplyOps(h, db, source, collection, ops, now).db;
      ApplyOps(h, first, source, collection, ops, later).outcome.Success?
    ensures var first := ApplyOps(h, db, source, collection, ops, now).db;
      SeenAt(ApplyOps(h, first, source, collection, ops, later).db, key) == SeenAt(first, key)
  {
    var first := ApplyOps(h, db, source, collection, ops, now).db;
    BatchIsSeen(h, db, source, collection, ops, now, key);
    BatchIsSeen(h, first, source, collection, ops, later, key);
    BatchIsHashable(h, db, source, collection, ops, now);
    if key.source == source && key.collection == collection {
      FoldReplay(h, SeenAt(db, key), ops, key.id);
    }
  }

  /** An operation leaves what it asks for. */
  lemma StepReaches(h: Hashing, seen: Seen, op: IngestOp)
    requires Hashable(h, op)
    ensures StepSeen(h, seen, op).LiveHash() == Target(h, op)
  {
  }

  /** With one operation per record, each record ends as its operation asked. */
  lemma {:induction false} FoldReaches(h: Hashing, seen: Seen, ops: seq<IngestOp>, i: nat)
    requires i < |ops| && DistinctTargets(ops) && forall op :: op in ops ==> Hashable(h, op)
    ensures FoldSeen(h, seen, ops, ops[i].id).LiveHash() == Target(h, ops[i])
    decreases |ops|
  {
    var init, last := ops[..|ops| - 1], ops[|ops| - 1];
    assert last in ops && forall op :: op in init ==> op in ops;
    if i < |init| {
      assert init[i].id == ops[i].id != last.id;
      FoldReaches(h, seen, init, i);
    } else {
      StepReaches(h, FoldSeen(h, seen, init, last.id), last);
    }
  }

  ghost predicate AllUnchanged(outcomes: seq<Applied>) {
    forall i :: 0 <= i < |outcomes| ==> outcomes[i] == Unchanged
  }

  /** Operations that find what they ask for leave the table alone. */
  lemma {:induction false} AbsorbedBatch(
    h: Hashing, db: Db, source: string, collection: string, ops: seq<IngestOp>, now: Time)
    requires forall op :: op in ops ==>
      Hashable(h, op) && SeenAt(db, RecordKey(source, collection, op.id)).LiveHash() == Target(h, op)
    requires db.sequence + |ops| <= MAX_BIGINT
    ensures var b := ApplyOps(h, db, source, collection, ops, now);
      && b.outcome.Success? && AllUnchanged(b.outcome.value) && |b.outcome.value| == |ops|
      && b.db.table == db.table && b.db.sequence <= db.sequence + |ops|
    decreases |ops|
  {
    if ops != [] {
      var init, op := ops[..|ops| - 1], ops[|ops| - 1];
      assert ops == init + [op] && op in ops;
      AbsorbedBatch(h, db, source, collection, init, now);
    }
  }

  /**
   * Retrying a batch of distinct records answers `unchanged` throughout and moves no record, as long
   * as the sequence has a value left for each no-op.
   */
  lemma DistinctReplay(
    h: Hashing, db: Db, source: string, collection: string, ops: seq<IngestOp>, now: Time, later: Time)
    requires DistinctTargets(ops) && ApplyOps(h, db, source, collection, ops, now).outcome.Success?
    requires ApplyOps(h, db, source, collection, ops, now).db.sequence + |ops| <= MAX_BIGINT
    ensures var first := ApplyOps(h, db, source, collection, ops, now).db;
      var again := ApplyOps(h, first, source, collection, ops, later);
      again.outcome.Success? && AllUnchanged(again.outcome.value) && again.db.table == first.table
  {
    var first := ApplyOps(h, db, source, collection, ops, now).db;
    BatchIsHashable(h, db, source, collection, ops, now);
    forall op | op in ops ensures SeenAt(first, RecordKey(source, collection, op.id)).LiveHash() == Target(h, op) {
      var i :| 0 <= i < |ops| && ops[i] == op;
      var key := RecordKey(source, collection, op.id);
      BatchIsSeen(h, db, source, collection, ops, now, key);
      FoldReaches(h, SeenAt(db, key), ops, i);
    }
    AbsorbedBatch(h, first, source, collection, ops, later);
  }

  // ----- Whole runs -----

  /** A transaction: committed whole, or rolled back with the sequence values it took. */
  datatype Transaction =
    | Committed(source: string, collection: string, ops: seq<IngestOp>, now: Time)
    | RolledBack(sequence: nat)

  ghost predicate Performs(h: Hashing, before: Db, t: Transaction, after: Db) {
    match t
    case Committed(source, collection, ops, now) =>
      var b := ApplyOps(h, before, source, collection, ops, now);
      b.outcome.Success? && after == b.db
    case RolledBack(n) => before.sequence <= n <= MAX_BIGINT && after == Db(before.table, n)
  }

  /** The states of a database, from empty, one transaction at a time. */
  ghost predicate History(h: Hashing, states: seq<Db>, transactions: seq<Transaction>) {
    && |states| == |transactions| + 1
    && states[0] == Db(map[], 0)
    && forall i :: 0 <= i < |transactions| ==> PerformsAt(h, states, transactions, i)
  }

  ghost predicate PerformsAt(h: Hashing, states: seq<Db>, transactions: seq<Transaction>, i: int)
    requires 0 <= i < |transactions| < |states|
  {
    Performs(h, states[i], transactions[i], states[i + 1])
  }

  /** A transaction performed at the end of a history extends it. */
  lemma OneMoreTransaction(h: Hashing, states: seq<Db>, transactions: seq<Transaction>, t: Transaction, after: Db)
    requires History(h, states, transactions) && Performs(h, states[|states| - 1], t, after)
    ensures History(h, states + [after], transactions + [t])
  {
    var more, performed := states + [after], transactions + [t];
    forall i | 0 <= i < |performed| ensures PerformsAt(h, more, performed, i) {
      if i < |transactions| {
        assert PerformsAt(h, states, transactions, i);
      }
    }
  }

  lemma TransactionKeeps(h: Hashing, before: Db, t: Transaction, after: Db)
    requires Consistent(h, before) && h.PinsEmptyDocument() && Performs(h, before, t, after)
    ensures Consistent(h, after) && Advances(before, after)
  {
    if t.Committed? {
      BatchKeeps(h, before, t.source, t.collection, t.ops, t.now);
    }
  }

  /** A single statement that succeeds is a transaction of one operation. */
  lemma StatementIsTransaction(h: Hashing, db: Db, source: string, collection: string, op: IngestOp, now: Time)
    ensures var s := StepDb(h, db, source, collection, op, now);
      ApplyOps(h, db, source, collection, [op], now)
      == Batch(s.db, if s.outcome.Success? then Success([s.outcome.value]) else Failure(s.outcome.error))
  {
    assert [op][..|[op]| - 1] == [];
    var s := StepDb(h, db, source, collection, op, now);
    assert s.outcome.Success? ==> [] + [s.outcome.value] == [s.outcome.value];
  }

  /** Every state of a history is consistent, and every later one advances it. */
  lemma {:induction false} HistoryKeeps(h: Hashing, states: seq<Db>, transactions: seq<Transaction>, i: nat, j: nat)
    requires History(h, states, transactions) && h.PinsEmptyDocument()
    requires i <= j < |states|
    ensures Consistent(h, states[i]) && Consistent(h, states[j]) && Advances(states[i], states[j])
    decreases j
  {
    if j > 0 {
      HistoryKeeps(h, states, transactions, if i < j then i else j - 1, j - 1);
      assert PerformsAt(h, states, transactions, j - 1);
      TransactionKeeps(h, states[j - 1], transactions[j - 1], states[j]);
      if i < j {
        AdvancesTransitive(states[i], states[j - 1], states[j]);
      }
    }
  }

  /** A position, once given, belongs to one record in one version for the whole history. */
  lemma PositionsNeverReassigned(
    h: Hashing, states: seq<Db>, transactions: seq<Transaction>, i: nat, j: nat, k: RecordKey, l: RecordKey)
    requires History(h, states, transactions) && h.PinsEmptyDocument()
    requires i <= j < |states| && k in states[i].table && l in states[j].table
    requires states[i].table[k].position == states[j].table[l].position
    ensures k == l && states[i].table[k] == states[j].table[l]
  {
    HistoryKeeps(h, states, transactions, i, j);
  }

  /** An advancing database commits into each of its collections, which is what every reader needs. */
  lemma AdvancesCommits(h: Hashing, before: Db, after: Db, source: string, collection: string)
    requires Consistent(h, before) && Consistent(h, after) && Advances(before, after)
    ensures Runs.Commits(View(before.table, source, collection), View(after.table, source, collection))
  {
    var rows, later := View(before.table, source, collection), View(after.table, source, collection);
    ViewPositions(h, before, source, collection);
    ViewPositions(h, after, source, collection);
    PositionFitsSequence(h, before, source, collection);
    forall id | id in rows ensures id in later {
      ViewAt(before.table, source, collection, id);
      ViewAt(after.table, source, collection, id);
    }
    forall id | id in later ensures (id in rows && later[id] == rows[id]) || later[id].position > Position(rows) {
      ViewAt(before.table, source, collection, id);
      ViewAt(after.table, source, collection, id);
    }
  }

  lemma PositionFitsSequence(h: Hashing, db: Db, source: string, collection: string)
    requires Consistent(h, db)
    ensures Position(View(db.table, source, collection)) <= db.sequence
  {
    var rows := View(db.table, source, collection);
    ViewPositions(h, db, source, collection);
    PositionBounds(rows);
    if rows != map[] {
      var id :| id in rows && rows[id].position == Position(rows);
      ViewAt(db.table, source, collection, id);
    }
  }

  function Views(states: seq<Db>, source: string, collection: string): seq<Rows> {
    seq(|states|, i requires 0 <= i < |states| => View(states[i].table, source, collection))
  }

  /** One writer at a time meets the commit-order assumption: every collection's history is a run. */
  lemma HistoryIsRun(h: Hashing, states: seq<Db>, transactions: seq<Transaction>, source: string, collection: string)
    requires History(h, states, transactions) && h.PinsEmptyDocument()
    ensures Runs.ValidRun(Views(states, source, collection))
  {
    var run := Views(states, source, collection);
    forall i | 0 <= i < |run| ensures FeedPositions(run[i]) {
      HistoryKeeps(h, states, transactions, i, i);
      ViewPositions(h, states[i], source, collection);
    }
    forall i | 0 <= i < |run| - 1 ensures Runs.CommitsAt(run, i) {
      ViewsCommit(h, states, transactions, i, source, collection);
    }
  }

  lemma ViewsCommit(
    h: Hashing, states: seq<Db>, transactions: seq<Transaction>, i: nat, source: string, collection: string)
    requires History(h, states, transactions) && h.PinsEmptyDocument() && i < |states| - 1
    ensures Runs.CommitsAt(Views(states, source, collection), i)
  {
    HistoryCommits(h, states, transactions, i, i + 1, source, collection);
  }

  /** Between any two states of a history, what a collection's readers see is one commit. */
  lemma HistoryCommits(
    h: Hashing, states: seq<Db>, transactions: seq<Transaction>, i: nat, j: nat, source: string, collection: string)
    requires History(h, states, transactions) && h.PinsEmptyDocument() && i <= j < |states|
    ensures Runs.Commits(View(states[i].table, source, collection), View(states[j].table, source, collection))
  {
    HistoryKeeps(h, states, transactions, i, j);
    AdvancesCommits(h, states[i], states[j], source, collection);
  }

  /** A collection's `max_seq` never falls, and rises exactly when one of its records changes. */
  lemma MaxSeqTellsChange(
    h: Hashing, states: seq<Db>, transactions: seq<Transaction>, i: nat, j: nat, source: string, collection: string)
    requires History(h, states, transactions) && h.PinsEmptyDocument() && i <= j < |states|
    ensures var before, after := View(states[i].table, source, collection), View(states[j].table, source, collection);
      && Position(before) <= Position(after)
      && (Position(before) == Position(after) <==> before == after)
  {
    HistoryCommits(h, states, transactions, i, j, source, collection);
    Runs.PositionTellsChange(View(states[i].table, source, collection), View(states[j].table, source, collection));
  }
}
