/** A consumer replicating a collection from its change feed, through conditional requests, while writes happen. */
module Replication {
  import opened Cache
  import opened Feed
  import opened Ident
  import opened Records
  import opened Revalidation
  import Runs
  import opened Wrappers

  /** What a consumer keeps: each record as last delivered, and the last cursor it was offered. */
  datatype Consumer = Consumer(replica: Rows, cursor: Option<nat>)

  /** Applies a page record by record; a later record for an id replaces an earlier one. */
  function ApplyRecords(replica: Rows, records: seq<StoredRecord>): Rows {
    if records == [] then replica
    else
      var last := records[|records| - 1];
      ApplyRecords(replica, records[..|records| - 1])[last.id := last.row]
  }

  /** A null cursor leaves the consumer's cursor where it was. */
  function Take(c: Consumer, page: Page): Consumer {
    Consumer(ApplyRecords(c.replica, page.records), if page.next.Some? then page.next else c.cursor)
  }

  /** The consumer agrees with the collection on everything its cursor has passed. */
  ghost predicate InStep(c: Consumer, rows: Rows) {
    && FeedPositions(rows)
    && c.replica.Keys <= rows.Keys
    && CursorOf(c.cursor) <= Position(rows)
    && forall id :: id in rows && rows[id].position <= CursorOf(c.cursor) ==>
         id in c.replica && c.replica[id] == rows[id]
  }

  /** Every record of the page is what the collection holds. */
  ghost predicate Current(records: seq<StoredRecord>, rows: Rows) {
    forall s :: s in records ==> s.id in rows && rows[s.id] == s.row
  }

  lemma {:induction false} AppliedAt(replica: Rows, records: seq<StoredRecord>, rows: Rows, id: RecordId)
    requires Current(records, rows)
    ensures var r := ApplyRecords(replica, records);
      if id in rows && StoredRecord(id, rows[id]) in records then id in r && r[id] == rows[id]
      else if id in replica then id in r && r[id] == replica[id]
      else id !in r
  {
    if records != [] {
      var init, last := records[..|records| - 1], records[|records| - 1];
      assert records == init + [last];
      assert last in records;
      AppliedAt(replica, init, rows, id);
    }
  }

  /** A record is right after the page if the page covers it, or if it was passed before. */
  lemma TakenAt(size: TextSize, c: Consumer, rows: Rows, budget: PageBudget, id: RecordId)
    requires InStep(c, rows) && id in rows
    requires var page := ReadPage(size, rows, Changes, c.cursor, budget);
      page.next.Some? ==> rows[id].position <= page.next.value
    ensures var r := ApplyRecords(c.replica, ReadPage(size, rows, Changes, c.cursor, budget).records);
      id in r && r[id] == rows[id]
  {
    PageIsCurrent(size, c, rows, budget);
    AppliedAt(c.replica, ReadPage(size, rows, Changes, c.cursor, budget).records, rows, id);
    if rows[id].position > CursorOf(c.cursor) {
      PageIsComplete(size, rows, Changes, c.cursor, budget);
      assert Picked(rows, Changes, CursorOf(c.cursor), StoredRecord(id, rows[id]));
    }
  }

  lemma PageIsCurrent(size: TextSize, c: Consumer, rows: Rows, budget: PageBudget)
    requires InStep(c, rows)
    ensures var page := ReadPage(size, rows, Changes, c.cursor, budget);
      Current(page.records, rows) && (page.next.Some? ==> page.next.value <= Position(rows))
  {
    var page := ReadPage(size, rows, Changes, c.cursor, budget);
    PageIsSound(size, rows, Changes, c.cursor, budget);
    forall s | s in page.records ensures s.id in rows && rows[s.id] == s.row {
      assert Due(rows, Changes, c.cursor, s);
    }
    PositionBounds(rows);
    if page.next.Some? {
      assert page.records[|page.records| - 1] in page.records;
    }
  }

  /** One page read now keeps the consumer in step; a page without a cursor makes it equal. */
  lemma TakeKeepsInStep(size: TextSize, c: Consumer, rows: Rows, budget: PageBudget)
    requires InStep(c, rows)
    ensures var page := ReadPage(size, rows, Changes, c.cursor, budget);
      InStep(Take(c, page), rows) && (page.next.None? ==> Take(c, page).replica == rows)
  {
    var page := ReadPage(size, rows, Changes, c.cursor, budget);
    var replica := ApplyRecords(c.replica, page.records);
    PageIsCurrent(size, c, rows, budget);
    forall id | id in replica ensures id in rows {
      AppliedAt(c.replica, page.records, rows, id);
    }
    forall id | id in rows && (page.next.Some? ==> rows[id].position <= page.next.value)
      ensures id in replica && replica[id] == rows[id]
    {
      TakenAt(size, c, rows, budget, id);
    }
  }

  lemma CommitKeepsInStep(c: Consumer, before: Rows, after: Rows)
    requires InStep(c, before) && Runs.Commits(before, after)
    ensures InStep(c, after)
  {
    Runs.PositionTellsChange(before, after);
  }

  // ----- The whole protocol -----

  datatype Url = Url(since: Option<nat>, limit: PageLimit)

  /** A response the consumer keeps, to revalidate instead of fetching again. */
  datatype Kept = Kept(etag: string, page: Page)

  /** A request whose handler has read the position and not yet the page. */
  datatype InFlight = InFlight(url: Url, etag: string)

  datatype System = System(rows: Rows, consumer: Consumer, kept: map<Url, Kept>, pending: Option<InFlight>)

  datatype Event =
    | Write(after: Rows)
    | Ask(limit: PageLimit)
    | Answer

  function Slice(url: Url): Slice {
    FeedSlice(url.since, url.limit)
  }

  /** What the consumer presents for a URL it has fetched before. */
  function IfNoneMatch(kept: map<Url, Kept>, url: Url): Option<string> {
    if url in kept then Some(kept[url].etag) else None
  }

  ghost predicate Enabled(s: System, e: Event) {
    match e
    case Write(after) => Runs.Commits(s.rows, after)
    case Ask(_) => s.pending.None?
    case Answer => s.pending.Some?
  }

  /** The page the consumer is given by this event, if any: the kept one on a 304, else the one read. */
  ghost function Given(d: Deployment, s: System, e: Event): Option<Page>
    requires FeedPositions(s.rows) && Enabled(s, e)
  {
    match e
    case Write(_) => None
    case Ask(limit) =>
      var url := Url(s.consumer.cursor, limit);
      if url in s.kept && IsFresh(IfNoneMatch(s.kept, url), Tag(d.hashing, Slice(url), Position(s.rows)))
      then Some(s.kept[url].page) else None
    case Answer =>
      Some(PageNow(d, s.rows, s.pending.value.url))
  }

  ghost function Next(d: Deployment, s: System, e: Event): System
    requires FeedPositions(s.rows) && Enabled(s, e)
  {
    var given := Given(d, s, e);
    match e
    case Write(after) => s.(rows := after)
    case Ask(limit) =>
      var url := Url(s.consumer.cursor, limit);
      if given.Some? then s.(consumer := Take(s.consumer, given.value))
      else s.(pending := Some(InFlight(url, Tag(d.hashing, Slice(url), Position(s.rows)))))
    case Answer =>
      var p := s.pending.value;
      System(s.rows, Take(s.consumer, given.value), s.kept[p.url := Kept(p.etag, given.value)], None)
  }

  /** This validator was computed at a position no later than the current one. */
  ghost predicate TaggedAt(d: Deployment, rows: Rows, url: Url, etag: string, position: nat) {
    position <= Position(rows) && etag == Tag(d.hashing, Slice(url), position)
  }

  ghost function PageNow(d: Deployment, rows: Rows, url: Url): Page
    requires FeedPositions(rows)
  {
    ReadPage(d.size, rows, Changes, url.since, PageBudget(url.limit, d.bytes))
  }

  ghost predicate KeptAt(d: Deployment, rows: Rows, url: Url, k: Kept, position: nat)
    requires FeedPositions(rows)
  {
    TaggedAt(d, rows, url, k.etag, position) && (position == Position(rows) ==> k.page == PageNow(d, rows, url))
  }

  /** A kept page is the current one whenever its validator is. */
  ghost predicate KeptIsSound(d: Deployment, rows: Rows, url: Url, k: Kept)
    requires FeedPositions(rows)
  {
    exists position: nat :: KeptAt(d, rows, url, k, position)
  }

  ghost predicate PendingIsSound(d: Deployment, s: System) {
    s.pending.Some? ==>
      && s.pending.value.url.since == s.consumer.cursor
      && exists position: nat :: TaggedAt(d, s.rows, s.pending.value.url, s.pending.value.etag, position)
  }

  ghost predicate Sound(d: Deployment, s: System) {
    && InStep(s.consumer, s.rows)
    && (forall url :: url in s.kept ==> KeptIsSound(d, s.rows, url, s.kept[url]))
    && PendingIsSound(d, s)
  }

  lemma KeptSurvivesCommit(d: Deployment, before: Rows, after: Rows, url: Url, k: Kept)
    requires Runs.Commits(before, after) && KeptIsSound(d, before, url, k)
    ensures KeptIsSound(d, after, url, k)
  {
    Runs.PositionTellsChange(before, after);
    var position: nat :| KeptAt(d, before, url, k, position);
    assert KeptAt(d, after, url, k, position);
  }

  /** A 304 hands the consumer exactly the page it would have been sent. */
  lemma GivenIsCurrent(d: Deployment, s: System, e: Event)
    requires Sound(d, s) && Enabled(s, e) && Given(d, s, e).Some?
    ensures (e.Ask? || e.Answer?) && Given(d, s, e).value == PageNow(d, s.rows, Url(s.consumer.cursor, LimitOf(s, e)))
  {
    if e.Ask? {
      var url := Url(s.consumer.cursor, e.limit);
      var position: nat :| KeptAt(d, s.rows, url, s.kept[url], position);
      OneTagIsFresh(d, url, position, Position(s.rows));
    }
  }

  function LimitOf(s: System, e: Event): PageLimit
    requires e.Ask? || (e.Answer? && s.pending.Some?)
  {
    if e.Ask? then e.limit else s.pending.value.url.limit
  }

  /** Presenting one validator of a URL succeeds exactly at the position it was computed at. */
  lemma OneTagIsFresh(d: Deployment, url: Url, p: nat, q: nat)
    ensures IsFresh(Some(Tag(d.hashing, Slice(url), p)), Tag(d.hashing, Slice(url), q)) <==> p == q
  {
    TagIsQuotation(d.hashing, Slice(url), p);
    TagIsQuotation(d.hashing, Slice(url), q);
    SingleIsFresh(Tag(d.hashing, Slice(url), p), Tag(d.hashing, Slice(url), q));
    ValidatorsAreExact(d.hashing, Slice(url), p, Slice(url), q);
  }

  lemma WriteIsSound(d: Deployment, s: System, after: Rows)
    requires Sound(d, s) && Runs.Commits(s.rows, after)
    ensures Sound(d, s.(rows := after))
  {
    CommitKeepsInStep(s.consumer, s.rows, after);
    forall url | url in s.kept ensures KeptIsSound(d, after, url, s.kept[url]) {
      KeptSurvivesCommit(d, s.rows, after, url, s.kept[url]);
    }
    Runs.PositionTellsChange(s.rows, after);
    if s.pending.Some? {
      var p := s.pending.value;
      var position: nat :| TaggedAt(d, s.rows, p.url, p.etag, position);
      assert TaggedAt(d, after, p.url, p.etag, position);
    }
  }

  lemma AskIsSound(d: Deployment, s: System, limit: PageLimit)
    requires Sound(d, s) && s.pending.None?
    ensures Sound(d, Next(d, s, Ask(limit)))
    ensures Given(d, s, Ask(limit)).Some? && Given(d, s, Ask(limit)).value.next.None?
      ==> Next(d, s, Ask(limit)).consumer.replica == s.rows
  {
    if Given(d, s, Ask(limit)).Some? {
      GivenIsCurrent(d, s, Ask(limit));
      TakeKeepsInStep(d.size, s.consumer, s.rows, PageBudget(limit, d.bytes));
    } else {
      var url := Url(s.consumer.cursor, limit);
      assert TaggedAt(d, s.rows, url, Tag(d.hashing, Slice(url), Position(s.rows)), Position(s.rows));
    }
  }

  lemma AnswerIsSound(d: Deployment, s: System)
    requires Sound(d, s) && s.pending.Some?
    ensures Sound(d, Next(d, s, Answer))
    ensures Given(d, s, Answer).value.next.None? ==> Next(d, s, Answer).consumer.replica == s.rows
  {
    var p := s.pending.value;
    TakeKeepsInStep(d.size, s.consumer, s.rows, PageBudget(p.url.limit, d.bytes));
    var position: nat :| TaggedAt(d, s.rows, p.url, p.etag, position);
    var k := Kept(p.etag, PageNow(d, s.rows, p.url));
    assert KeptAt(d, s.rows, p.url, k, position);
    var kept := s.kept[p.url := k];
    assert Next(d, s, Answer).kept == kept;
    forall url | url in kept ensures KeptIsSound(d, s.rows, url, kept[url]) {
      assert url != p.url ==> kept[url] == s.kept[url];
    }
  }

  /** Every step keeps the system sound, and a page without a cursor leaves an exact replica. */
  lemma StepIsSound(d: Deployment, s: System, e: Event)
    requires Sound(d, s) && Enabled(s, e)
    ensures Sound(d, Next(d, s, e))
    ensures Given(d, s, e).Some? && Given(d, s, e).value.next.None? ==> Next(d, s, e).consumer.replica == s.rows
  {
    match e
    case Write(after) => WriteIsSound(d, s, after);
    case Ask(limit) => AskIsSound(d, s, limit);
    case Answer => AnswerIsSound(d, s);
  }

  /** A collection and a consumer that has asked for nothing yet. */
  ghost predicate Initial(s: System) {
    FeedPositions(s.rows) && s.consumer == Consumer(map[], None) && s.kept == map[] && s.pending == None
  }

  /** The states of a run: each event is enabled where it happens. */
  ghost predicate Execution(d: Deployment, states: seq<System>, events: seq<Event>) {
    && |states| == |events| + 1
    && (forall i :: 0 <= i < |states| ==> FeedPositions(states[i].rows))
    && forall i :: 0 <= i < |events| ==> HappensAt(d, states, events, i)
  }

  ghost predicate HappensAt(d: Deployment, states: seq<System>, events: seq<Event>, i: int)
    requires 0 <= i < |events| < |states| && FeedPositions(states[i].rows)
  {
    Enabled(states[i], events[i]) && states[i + 1] == Next(d, states[i], events[i])
  }

  lemma {:induction false} RunIsSound(d: Deployment, states: seq<System>, events: seq<Event>, n: nat)
    requires Execution(d, states, events) && Initial(states[0]) && n < |states|
    ensures Sound(d, states[n])
  {
    if n == 0 {
      PositionBounds(states[0].rows);
    } else {
      RunIsSound(d, states, events, n - 1);
      assert HappensAt(d, states, events, n - 1);
      StepIsSound(d, states[n - 1], events[n - 1]);
    }
  }

  /**
   * Replica convergence. At every point of every run the consumer agrees with the collection on every
   * record its cursor has passed; and whenever it is given a page without a cursor, fetched or by a 304,
   * its replica is the collection, tombstones included.
   */
  lemma ReplicaConverges(d: Deployment, states: seq<System>, events: seq<Event>, n: nat)
    requires Execution(d, states, events) && Initial(states[0]) && n < |events|
    ensures InStep(states[n].consumer, states[n].rows)
    ensures HappensAt(d, states, events, n)
    ensures Given(d, states[n], events[n]).Some? && Given(d, states[n], events[n]).value.next.None?
      ==> states[n + 1].consumer.replica == states[n + 1].rows
  {
    RunIsSound(d, states, events, n);
    assert HappensAt(d, states, events, n);
    StepIsSound(d, states[n], events[n]);
  }

  // ----- Without the commit-order assumption -----

  /** Kept pages hold records of the collection only, and never lead back before the cursor they answer. */
  ghost predicate KeptIsForward(s: System) {
    forall url :: url in s.kept ==> PageIsForward(s.rows, url.since, s.kept[url].page)
  }

  ghost predicate PageIsForward(rows: Rows, since: Option<nat>, page: Page) {
    && (forall r :: r in page.records ==> r.id in rows)
    && (page.next.Some? ==> page.next.value > CursorOf(since))
  }

  /** A page read now is forward. */
  lemma ReadIsForward(d: Deployment, rows: Rows, url: Url)
    requires FeedPositions(rows)
    ensures PageIsForward(rows, url.since, PageNow(d, rows, url))
  {
    var page := PageNow(d, rows, url);
    PageIsSound(d.size, rows, Changes, url.since, PageBudget(url.limit, d.bytes));
    if page.next.Some? {
      assert page.records[|page.records| - 1] in page.records;
    }
  }

  lemma StepIsForward(d: Deployment, s: System, e: Event)
    requires FeedPositions(s.rows) && Enabled(s, e) && KeptIsForward(s)
    ensures KeptIsForward(Next(d, s, e))
  {
    if e.Answer? {
      ReadIsForward(d, s.rows, s.pending.value.url);
    }
  }

  lemma RunStepIsForward(d: Deployment, states: seq<System>, events: seq<Event>, i: nat)
    requires Execution(d, states, events) && i < |events| && KeptIsForward(states[i])
    ensures KeptIsForward(states[i + 1])
  {
    assert HappensAt(d, states, events, i);
    StepIsForward(d, states[i], events[i]);
  }

  ghost predicate StaysForward(states: seq<System>, i: int)
    requires 0 <= i < |states| - 1
  {
    KeptIsForward(states[i]) ==> KeptIsForward(states[i + 1])
  }

  lemma {:induction false} ForwardThroughout(states: seq<System>, n: nat)
    requires n < |states| && KeptIsForward(states[0])
    requires forall i :: 0 <= i < |states| - 1 ==> StaysForward(states, i)
    ensures KeptIsForward(states[n])
  {
    if n > 0 {
      ForwardThroughout(states, n - 1);
      assert StaysForward(states, n - 1);
    }
  }

  lemma RunIsForward(d: Deployment, states: seq<System>, events: seq<Event>, n: nat)
    requires Execution(d, states, events) && Initial(states[0]) && n < |states|
    ensures KeptIsForward(states[n])
  {
    forall i | 0 <= i < |states| - 1 ensures StaysForward(states, i) {
      if KeptIsForward(states[i]) {
        RunStepIsForward(d, states, events, i);
      }
    }
    ForwardThroughout(states, n);
  }

  /** The consumer has passed this position without the record, and nothing it keeps would lead it there. */
  ghost predicate Missed(s: System, id: RecordId, position: nat) {
    && id !in s.consumer.replica && position <= CursorOf(s.consumer.cursor)
    && (s.pending.Some? ==> s.pending.value.url.since == s.consumer.cursor)
    && forall url :: url in s.kept ==> KeptMisses(url, s.kept[url].page, id)
  }

  ghost predicate KeptMisses(url: Url, page: Page, id: RecordId) {
    && (forall r :: r in page.records ==> r.id != id)
    && (page.next.Some? ==> page.next.value > CursorOf(url.since))
  }

  lemma {:induction false} NotApplied(replica: Rows, records: seq<StoredRecord>, id: RecordId)
    requires id !in replica && forall s :: s in records ==> s.id != id
    ensures id !in ApplyRecords(replica, records)
  {
    if records != [] {
      assert records[|records| - 1] in records;
      NotApplied(replica, records[..|records| - 1], id);
    }
  }

  /** A page read from a cursor beyond the row misses it. */
  lemma ReadMisses(d: Deployment, rows: Rows, url: Url, id: RecordId)
    requires FeedPositions(rows) && id in rows && rows[id].position <= CursorOf(url.since)
    ensures KeptMisses(url, PageNow(d, rows, url), id)
  {
    ReadIsForward(d, rows, url);
    PageIsSound(d.size, rows, Changes, url.since, PageBudget(url.limit, d.bytes));
  }

  lemma StepStaysMissed(d: Deployment, s: System, e: Event, id: RecordId)
    requires FeedPositions(s.rows) && Enabled(s, e) && id in s.rows && Missed(s, id, s.rows[id].position)
    ensures Missed(Next(d, s, e), id, s.rows[id].position)
  {
    match e
    case Write(_) =>
    case Ask(limit) =>
      var url := Url(s.consumer.cursor, limit);
      if Given(d, s, e).Some? {
        assert KeptMisses(url, s.kept[url].page, id);
        NotApplied(s.consumer.replica, s.kept[url].page.records, id);
      }
    case Answer =>
      var url := s.pending.value.url;
      ReadMisses(d, s.rows, url, id);
      NotApplied(s.consumer.replica, PageNow(d, s.rows, url).records, id);
  }

  ghost predicate HasRow(s: System, id: RecordId, row: Row) {
    id in s.rows && s.rows[id] == row
  }

  /** The row is there, unchanged, up to this state. */
  ghost predicate Stays(states: seq<System>, n: nat, id: RecordId, row: Row) {
    n < |states| && forall i :: 0 <= i <= n ==> HasRow(states[i], id, row)
  }

  lemma RunStepStaysMissed(d: Deployment, states: seq<System>, events: seq<Event>, id: RecordId, row: Row, i: nat)
    requires Execution(d, states, events) && i < |events|
    requires HasRow(states[i], id, row) && Missed(states[i], id, row.position)
    ensures Missed(states[i + 1], id, row.position)
  {
    assert HappensAt(d, states, events, i);
    StepStaysMissed(d, states[i], events[i], id);
  }

  ghost predicate StaysMissed(states: seq<System>, id: RecordId, position: nat, i: int)
    requires 0 <= i < |states| - 1
  {
    Missed(states[i], id, position) ==> Missed(states[i + 1], id, position)
  }

  lemma {:induction false} MissedThroughout(states: seq<System>, id: RecordId, position: nat, n: nat)
    requires n < |states| && Missed(states[0], id, position)
    requires forall i :: 0 <= i < n ==> StaysMissed(states, id, position, i)
    ensures Missed(states[n], id, position)
  {
    if n > 0 {
      MissedThroughout(states, id, position, n - 1);
      assert StaysMissed(states, id, position, n - 1);
    }
  }

  lemma RunStaysMissed(d: Deployment, states: seq<System>, events: seq<Event>, id: RecordId, row: Row, n: nat)
    requires Execution(d, states, events) && Stays(states, n, id, row) && Missed(states[0], id, row.position)
    ensures Missed(states[n], id, row.position)
  {
    forall i | 0 <= i < n ensures StaysMissed(states, id, row.position, i) {
      assert HasRow(states[i], id, row);
      if Missed(states[i], id, row.position) {
        RunStepStaysMissed(d, states, events, id, row, i);
      }
    }
    MissedThroughout(states, id, row.position, n);
  }

  lemma LateCommitIsMissed(d: Deployment, states: seq<System>, events: seq<Event>, id: RecordId, row: Row)
    requires Execution(d, states, events) && Initial(states[0])
    requires var s := states[|states| - 1]; id !in s.rows && row.position <= CursorOf(s.consumer.cursor)
    ensures var s := states[|states| - 1]; Missed(s.(rows := s.rows[id := row]), id, row.position)
  {
    var s := states[|states| - 1];
    RunIsSound(d, states, events, |states| - 1);
    RunIsForward(d, states, events, |states| - 1);
    forall url | url in s.kept ensures KeptMisses(url, s.kept[url].page, id) {
      assert PageIsForward(s.rows, url.since, s.kept[url].page);
    }
  }

  /**
   * Convergence needs the commit-order assumption. In any run, let a row become visible at a position
   * the consumer's cursor has passed. However the run goes on, as long as that row stays as it is the
   * consumer never gets it, whatever pages it is given: its replica stays different from the collection.
   */
  lemma LateCommitIsLost(
    d: Deployment, before: seq<System>, earlier: seq<Event>, after: seq<System>, later: seq<Event>,
    id: RecordId, row: Row, n: nat)
    requires Execution(d, before, earlier) && Initial(before[0])
    requires Execution(d, after, later) && Stays(after, n, id, row)
    requires var s := before[|before| - 1];
      id !in s.rows && row.position <= CursorOf(s.consumer.cursor) && after[0] == s.(rows := s.rows[id := row])
    ensures id !in after[n].consumer.replica && after[n].consumer.replica != after[n].rows
  {
    LateCommitIsMissed(d, before, earlier, id, row);
    RunStaysMissed(d, after, later, id, row, n);
    assert HasRow(after[n], id, row);
  }
}
