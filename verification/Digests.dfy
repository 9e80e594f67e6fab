/** Per-record digests, walked by id while writes happen. */
module Digests {
  import opened Ident
  import Ordering
  import opened Records
  import opened Wrappers

  /** How the database compares ids. */
  type IdOrder = (string, string) -> bool

  /** The database's collation: some total order of text with the empty text first. */
  ghost predicate Collation(leq: IdOrder) {
    Ordering.TotalOrder(leq) && forall s :: leq("", s)
  }

  predicate Before(leq: IdOrder, a: string, b: string) {
    a != b && leq(a, b)
  }

  /** A digest cursor as the database takes it: absent is the empty text. */
  function Start(after: Option<RecordId>): string {
    match after
    case Some(id) => id
    case None => ""
  }

  /** The live ids beyond the cursor. */
  function IdsBeyond(leq: IdOrder, rows: Rows, after: string): set<string> {
    set id | id in rows && rows[id].IsLive() && Before(leq, after, id) :: id
  }

  /** `ORDER BY id LIMIT n` over the live ids beyond the cursor. */
  function SelectIds(leq: IdOrder, rows: Rows, after: string, limit: PageLimit): (r: seq<RecordId>)
    requires Collation(leq)
    ensures |r| <= limit
    ensures forall i, j :: 0 <= i < j < |r| ==> Before(leq, r[i], r[j])
    ensures forall id :: id in r ==> id in rows && rows[id].IsLive() && Before(leq, after, id)
    ensures forall id :: id in IdsBeyond(leq, rows, after) ==>
      id in r || (|r| == limit && Before(leq, r[limit - 1], id))
  {
    var all := Ordering.InOrder(leq, IdsBeyond(leq, rows, after));
    assert forall i, j :: 0 <= i < j < |all| ==> leq(all[i], all[j]) && all[i] != all[j];
    assert forall i :: 0 <= i < |all| ==> all[i] in IdsBeyond(leq, rows, after);
    if |all| <= limit then all else all[..limit]
  }

  function DigestsOf(rows: Rows, ids: seq<RecordId>): seq<Digest>
    requires forall id :: id in ids ==> id in rows
  {
    seq(|ids|, i requires 0 <= i < |ids| => assert ids[i] in ids; Digest(ids[i], rows[ids[i]].hash))
  }

  /** The page of these ids; a full page offers its last id as the cursor. */
  function DigestPageOf(rows: Rows, ids: seq<RecordId>, limit: PageLimit): DigestPage
    requires forall id :: id in ids ==> id in rows
  {
    DigestPage(DigestsOf(rows, ids), if |ids| == limit then Some(ids[|ids| - 1]) else None)
  }

  function ReadDigests(leq: IdOrder, rows: Rows, after: Option<RecordId>, limit: PageLimit): DigestPage
    requires Collation(leq)
  {
    var ids := SelectIds(leq, rows, Start(after), limit);
    assert forall id :: id in ids ==> id in rows;
    DigestPageOf(rows, ids, limit)
  }

  /** The collection has this live record beyond the cursor and no further than the page reaches. */
  ghost predicate WithinReach(leq: IdOrder, rows: Rows, after: Option<RecordId>, page: DigestPage, id: RecordId) {
    && id in rows && rows[id].IsLive()
    && (after.Some? ==> Before(leq, after.value, id))
    && (page.next.Some? ==> leq(id, page.next.value))
  }

  /** The page has the digests of exactly the live records within reach, and a cursor exactly when it is full. */
  ghost predicate DigestsExactly(
    leq: IdOrder, rows: Rows, after: Option<RecordId>, limit: PageLimit, page: DigestPage)
  {
    && (forall d: Digest ::
          d in page.entries <==> WithinReach(leq, rows, after, page, d.id) && d.hash == rows[d.id].hash)
    && |page.entries| <= limit
    && (page.next.None? <==> |page.entries| < limit)
  }

  lemma DigestPageIsExact(leq: IdOrder, rows: Rows, after: Option<RecordId>, limit: PageLimit)
    requires Collation(leq)
    ensures DigestsExactly(leq, rows, after, limit, ReadDigests(leq, rows, after, limit))
  {
    var page, ids := ReadDigests(leq, rows, after, limit), SelectIds(leq, rows, Start(after), limit);
    forall d: Digest ensures d in page.entries
      <==> WithinReach(leq, rows, after, page, d.id) && d.hash == rows[d.id].hash
    {
      DigestListed(rows, ids, d);
      SelectedIffWithinReach(leq, rows, after, limit, d.id);
    }
  }

  lemma DigestListed(rows: Rows, ids: seq<RecordId>, d: Digest)
    requires forall id :: id in ids ==> id in rows
    ensures d in DigestsOf(rows, ids) <==> d.id in ids && d.hash == rows[d.id].hash
  {
    var digests := DigestsOf(rows, ids);
    if d in digests {
      var i :| 0 <= i < |digests| && digests[i] == d;
      assert ids[i] in ids;
    }
    if d.id in ids {
      var i :| 0 <= i < |ids| && ids[i] == d.id;
      assert digests[i] == Digest(d.id, rows[d.id].hash);
    }
  }

  lemma SelectedIffWithinReach(
    leq: IdOrder, rows: Rows, after: Option<RecordId>, limit: PageLimit, id: RecordId)
    requires Collation(leq)
    ensures id in SelectIds(leq, rows, Start(after), limit)
      <==> WithinReach(leq, rows, after, ReadDigests(leq, rows, after, limit), id)
  {
    var ids := SelectIds(leq, rows, Start(after), limit);
    if id in ids {
      var i :| 0 <= i < |ids| && ids[i] == id;
      assert i < |ids| - 1 ==> Before(leq, ids[i], ids[|ids| - 1]);
    } else {
      NotSelected(leq, rows, after, limit, id);
    }
  }

  lemma NotSelected(leq: IdOrder, rows: Rows, after: Option<RecordId>, limit: PageLimit, id: RecordId)
    requires Collation(leq) && id !in SelectIds(leq, rows, Start(after), limit)
    ensures !WithinReach(leq, rows, after, ReadDigests(leq, rows, after, limit), id)
  {
    assert ValidRecordId(id) && Before(leq, "", id);
    assert id in IdsBeyond(leq, rows, Start(after)) <==>
      id in rows && rows[id].IsLive() && Before(leq, Start(after), id);
  }

  function CursorBefore(pages: seq<DigestPage>, k: nat): Option<RecordId>
    requires k <= |pages|
  {
    if k == 0 then None else pages[k - 1].next
  }

  ghost predicate PageFollows(leq: IdOrder, rows: Rows, limit: PageLimit, pages: seq<DigestPage>, k: nat)
    requires Collation(leq) && k < |pages|
  {
    (k > 0 ==> pages[k - 1].next.Some?) && pages[k] == ReadDigests(leq, rows, CursorBefore(pages, k), limit)
  }

  /** A walk by id; `states[k]` is the collection at the k-th read, whatever happened in between. */
  ghost predicate DigestWalk(leq: IdOrder, states: seq<Rows>, limits: seq<PageLimit>, pages: seq<DigestPage>)
    requires Collation(leq)
  {
    |states| == |limits| == |pages| && forall k :: 0 <= k < |pages| ==> PageFollows(leq, states[k], limits[k], pages, k)
  }

  /** Page `k` ascends, lies beyond its cursor, and offers its last id as the next one. */
  ghost predicate Ascends(leq: IdOrder, pages: seq<DigestPage>, k: nat)
    requires k < |pages|
  {
    (k > 0 ==> pages[k - 1].next.Some?) && AscendsFrom(leq, Start(CursorBefore(pages, k)), pages[k])
  }

  ghost predicate AscendsFrom(leq: IdOrder, start: string, page: DigestPage) {
    var entries := page.entries;
    && (forall i :: 0 <= i < |entries| ==> Before(leq, start, entries[i].id))
    && (forall i, j :: 0 <= i < j < |entries| ==> Before(leq, entries[i].id, entries[j].id))
    && (page.next.Some? ==> entries != [] && page.next.value == entries[|entries| - 1].id)
  }

  lemma ReadAscends(leq: IdOrder, rows: Rows, after: Option<RecordId>, limit: PageLimit)
    requires Collation(leq)
    ensures AscendsFrom(leq, Start(after), ReadDigests(leq, rows, after, limit))
  {
    var ids := SelectIds(leq, rows, Start(after), limit);
    forall i | 0 <= i < |ids| ensures Before(leq, Start(after), ids[i]) {
      assert ids[i] in ids;
    }
    EntriesAscend(leq, Start(after), ids, ReadDigests(leq, rows, after, limit));
  }

  lemma EntriesAscend(leq: IdOrder, start: string, ids: seq<RecordId>, page: DigestPage)
    requires |page.entries| == |ids| && forall i :: 0 <= i < |ids| ==> page.entries[i].id == ids[i]
    requires forall i :: 0 <= i < |ids| ==> Before(leq, start, ids[i])
    requires forall i, j :: 0 <= i < j < |ids| ==> Before(leq, ids[i], ids[j])
    requires page.next.Some? ==> ids != [] && page.next.value == ids[|ids| - 1]
    ensures AscendsFrom(leq, start, page)
  {
  }

  lemma PageAscends(leq: IdOrder, rows: Rows, limit: PageLimit, pages: seq<DigestPage>, k: nat)
    requires Collation(leq) && k < |pages| && PageFollows(leq, rows, limit, pages, k)
    ensures Ascends(leq, pages, k)
  {
    ReadAscends(leq, rows, CursorBefore(pages, k), limit);
  }

  lemma PagesAscend(leq: IdOrder, states: seq<Rows>, limits: seq<PageLimit>, pages: seq<DigestPage>)
    requires Collation(leq) && DigestWalk(leq, states, limits, pages)
    ensures forall k :: 0 <= k < |pages| ==> Ascends(leq, pages, k)
  {
    forall k | 0 <= k < |pages| ensures Ascends(leq, pages, k) {
      PageAscends(leq, states[k], limits[k], pages, k);
    }
  }

  lemma BeforeTransitive(leq: IdOrder, a: string, b: string, c: string)
    requires Collation(leq) && leq(a, b) && Before(leq, b, c)
    ensures Before(leq, a, c)
  {
  }

  /** A later page lies wholly beyond an earlier page's cursor. */
  lemma {:induction false} LaterPagesBeyond(leq: IdOrder, pages: seq<DigestPage>, k: nat, l: nat, j: nat)
    requires Collation(leq) && (forall m :: 0 <= m < |pages| ==> Ascends(leq, pages, m))
    requires k < l < |pages| && j < |pages[l].entries|
    ensures pages[k].next.Some? && Before(leq, pages[k].next.value, pages[l].entries[j].id)
    decreases l
  {
    assert Ascends(leq, pages, l);
    if k < l - 1 {
      assert Ascends(leq, pages, l - 1);
      LaterPagesBeyond(leq, pages, k, l - 1, |pages[l - 1].entries| - 1);
      BeforeTransitive(leq, pages[k].next.value, pages[l - 1].next.value, pages[l].entries[j].id);
    }
  }

  /** Position (k, i) comes before position (l, j) in the concatenation of the pages. */
  ghost predicate Earlier(k: nat, i: nat, l: nat, j: nat) {
    k < l || (k == l && i < j)
  }

  /** The ids of a whole walk strictly ascend: nothing is delivered twice. */
  lemma DigestsAscend(
    leq: IdOrder, states: seq<Rows>, limits: seq<PageLimit>, pages: seq<DigestPage>, k: nat, i: nat, l: nat, j: nat)
    requires Collation(leq) && DigestWalk(leq, states, limits, pages)
    requires k < |pages| && l < |pages| && i < |pages[k].entries| && j < |pages[l].entries| && Earlier(k, i, l, j)
    ensures Before(leq, pages[k].entries[i].id, pages[l].entries[j].id)
  {
    PagesAscend(leq, states, limits, pages);
    assert Ascends(leq, pages, k);
    if k < l {
      LaterPagesBeyond(leq, pages, k, l, j);
      var last := |pages[k].entries| - 1;
      assert i < last ==> Before(leq, pages[k].entries[i].id, pages[k].entries[last].id);
      BeforeTransitive(leq, pages[k].entries[i].id, pages[k].next.value, pages[l].entries[j].id);
    }
  }

  ghost predicate LiveThroughout(states: seq<Rows>, n: nat, id: RecordId) {
    n <= |states| && forall k :: 0 <= k < n ==> id in states[k] && states[k][id].IsLive()
  }

  /** This entry of the walk is the record's digest, as of the read that delivered it. */
  ghost predicate DigestAt(states: seq<Rows>, pages: seq<DigestPage>, k: nat, i: nat, id: RecordId) {
    && k < |pages| && k < |states| && i < |pages[k].entries|
    && id in states[k] && pages[k].entries[i] == Digest(id, states[k][id].hash)
  }

  /** This entry of a page is the record's digest. */
  ghost predicate EntryFor(page: DigestPage, i: nat, id: RecordId, row: Row) {
    i < |page.entries| && page.entries[i] == Digest(id, row.hash)
  }

  /** A live record beyond the cursor is on the page, or beyond the page's own cursor. */
  lemma ReadDelivers(leq: IdOrder, rows: Rows, after: Option<RecordId>, limit: PageLimit, id: RecordId)
    requires Collation(leq) && id in rows && rows[id].IsLive() && Before(leq, Start(after), id)
    ensures var page := ReadDigests(leq, rows, after, limit);
      (exists i: nat :: EntryFor(page, i, id, rows[id])) || (page.next.Some? && Before(leq, page.next.value, id))
  {
    var ids := SelectIds(leq, rows, Start(after), limit);
    assert id in IdsBeyond(leq, rows, Start(after));
    if id in ids {
      var i :| 0 <= i < |ids| && ids[i] == id;
      assert EntryFor(ReadDigests(leq, rows, after, limit), i, id, rows[id]);
    }
  }

  ghost predicate DeliveredBy(states: seq<Rows>, pages: seq<DigestPage>, n: nat, id: RecordId) {
    exists k: nat, i: nat :: k <= n && DigestAt(states, pages, k, i, id)
  }

  ghost predicate BeyondCursor(leq: IdOrder, pages: seq<DigestPage>, n: nat, id: RecordId)
    requires n < |pages|
  {
    pages[n].next.Some? && Before(leq, pages[n].next.value, id)
  }

  lemma PageDelivers(
    leq: IdOrder, states: seq<Rows>, limits: seq<PageLimit>, pages: seq<DigestPage>, n: nat, id: RecordId)
    requires Collation(leq) && n < |pages| == |states| == |limits| && PageFollows(leq, states[n], limits[n], pages, n)
    requires id in states[n] && states[n][id].IsLive() && Before(leq, Start(CursorBefore(pages, n)), id)
    ensures DeliveredBy(states, pages, n, id) || BeyondCursor(leq, pages, n, id)
  {
    ReadDelivers(leq, states[n], CursorBefore(pages, n), limits[n], id);
    if i: nat :| EntryFor(pages[n], i, id, states[n][id]) {
      assert DigestAt(states, pages, n, i, id);
    }
  }

  /** After page `n`, a record live so far has been delivered or lies beyond the cursor. */
  lemma {:induction false} DeliveredOrBeyond(
    leq: IdOrder, states: seq<Rows>, limits: seq<PageLimit>, pages: seq<DigestPage>, n: nat, id: RecordId)
    requires Collation(leq) && DigestWalk(leq, states, limits, pages)
    requires n < |pages| && LiveThroughout(states, n + 1, id)
    ensures DeliveredBy(states, pages, n, id) || BeyondCursor(leq, pages, n, id)
  {
    assert PageFollows(leq, states[n], limits[n], pages, n);
    assert ValidRecordId(id);
    if n > 0 {
      DeliveredOrBeyond(leq, states, limits, pages, n - 1, id);
    }
    if !DeliveredBy(states, pages, n, id) {
      assert n > 0 ==> !DeliveredBy(states, pages, n - 1, id);
      PageDelivers(leq, states, limits, pages, n, id);
    }
  }

  /** Two entries of a walk with one id are the same entry. */
  lemma DeliveredOnce(
    leq: IdOrder, states: seq<Rows>, limits: seq<PageLimit>, pages: seq<DigestPage>, k: nat, i: nat, l: nat, j: nat)
    requires Collation(leq) && DigestWalk(leq, states, limits, pages)
    requires k < |pages| && l < |pages| && i < |pages[k].entries| && j < |pages[l].entries|
    requires pages[k].entries[i].id == pages[l].entries[j].id
    ensures k == l && i == j
  {
    if Earlier(k, i, l, j) {
      DigestsAscend(leq, states, limits, pages, k, i, l, j);
    } else if Earlier(l, j, k, i) {
      DigestsAscend(leq, states, limits, pages, l, j, k, i);
    }
  }

  /** This entry is the only one the walk has for its id. */
  ghost predicate OnlyEntry(pages: seq<DigestPage>, k: nat, i: nat, id: RecordId) {
    forall l: nat, j: nat :: l < |pages| && j < |pages[l].entries| && pages[l].entries[j].id == id ==> l == k && j == i
  }

  lemma IsOnlyEntry(
    leq: IdOrder, states: seq<Rows>, limits: seq<PageLimit>, pages: seq<DigestPage>, k: nat, i: nat)
    requires Collation(leq) && DigestWalk(leq, states, limits, pages)
    requires k < |pages| && i < |pages[k].entries|
    ensures OnlyEntry(pages, k, i, pages[k].entries[i].id)
  {
    var id := pages[k].entries[i].id;
    forall l: nat, j: nat | l < |pages| && j < |pages[l].entries| && pages[l].entries[j].id == id
      ensures l == k && j == i
    {
      DeliveredOnce(leq, states, limits, pages, k, i, l, j);
    }
  }

  lemma FindDigest(
    leq: IdOrder, states: seq<Rows>, limits: seq<PageLimit>, pages: seq<DigestPage>, id: RecordId)
    returns (k: nat, i: nat)
    requires Collation(leq) && DigestWalk(leq, states, limits, pages)
    requires pages != [] && pages[|pages| - 1].next.None? && LiveThroughout(states, |pages|, id)
    ensures DigestAt(states, pages, k, i, id)
  {
    DeliveredOrBeyond(leq, states, limits, pages, |pages| - 1, id);
    k, i :| DigestAt(states, pages, k, i, id);
  }

  /**
   * A finished digest walk delivers every record live throughout it exactly once, with the hash it
   * had at the read that delivered it.
   */
  lemma DigestWalkIsExact(
    leq: IdOrder, states: seq<Rows>, limits: seq<PageLimit>, pages: seq<DigestPage>, id: RecordId)
    requires Collation(leq) && DigestWalk(leq, states, limits, pages)
    requires pages != [] && pages[|pages| - 1].next.None? && LiveThroughout(states, |pages|, id)
    ensures exists k: nat, i: nat :: DigestAt(states, pages, k, i, id) && OnlyEntry(pages, k, i, id)
  {
    var k, i := FindDigest(leq, states, limits, pages, id);
    IsOnlyEntry(leq, states, limits, pages, k, i);
  }

  // ----- Walking a store that does not change -----

  /** A cursor leaves fewer ids beyond it. */
  lemma FewerBeyond(leq: IdOrder, rows: Rows, after: Option<RecordId>, limit: PageLimit)
    requires Collation(leq) && ReadDigests(leq, rows, after, limit).next.Some?
    ensures IdsBeyond(leq, rows, Start(ReadDigests(leq, rows, after, limit).next)) < IdsBeyond(leq, rows, Start(after))
  {
    var ids := SelectIds(leq, rows, Start(after), limit);
    var next := ids[|ids| - 1];
    assert next in ids;
    SmallerBeyond(leq, rows, Start(after), next);
  }

  lemma SmallerBeyond(leq: IdOrder, rows: Rows, after: string, next: RecordId)
    requires Collation(leq) && next in rows && rows[next].IsLive() && Before(leq, after, next)
    ensures IdsBeyond(leq, rows, next) < IdsBeyond(leq, rows, after)
  {
    forall id | id in IdsBeyond(leq, rows, next) ensures id in IdsBeyond(leq, rows, after) {
      BeforeTransitive(leq, after, next, id);
    }
    assert next in IdsBeyond(leq, rows, after) && next !in IdsBeyond(leq, rows, next);
  }

  /** The pages a client reads by following cursors to the end; the limit may differ per request. */
  ghost function StillWalk(
    leq: IdOrder, rows: Rows, after: Option<RecordId>, limits: nat -> PageLimit, request: nat): seq<DigestPage>
    requires Collation(leq)
    decreases IdsBeyond(leq, rows, Start(after))
  {
    var page := ReadDigests(leq, rows, after, limits(request));
    if page.next.None? then [page]
    else
      FewerBeyond(leq, rows, after, limits(request));
      [page] + StillWalk(leq, rows, page.next, limits, request + 1)
  }

  /** The answer to a request, by its cursor and number. */
  ghost function Reader(leq: IdOrder, rows: Rows, limits: nat -> PageLimit): (Option<RecordId>, nat) -> DigestPage
    requires Collation(leq)
  {
    (after, request: nat) => ReadDigests(leq, rows, after, limits(request))
  }

  /** Page `k` of a walk from `after` was read from the cursor before it. */
  ghost predicate StillPage(
    read: (Option<RecordId>, nat) -> DigestPage, after: Option<RecordId>, request: nat, pages: seq<DigestPage>, k: nat)
    requires k < |pages|
  {
    (k > 0 ==> pages[k - 1].next.Some?) && pages[k] == read(if k == 0 then after else pages[k - 1].next, request + k)
  }

  /** Every page answers the cursor before it, and only the last offers none. */
  ghost predicate WalkedOut(
    read: (Option<RecordId>, nat) -> DigestPage, after: Option<RecordId>, request: nat, pages: seq<DigestPage>)
  {
    && pages != [] && pages[|pages| - 1].next.None?
    && forall k: nat :: k < |pages| ==> StillPage(read, after, request, pages, k)
  }

  /** A page put before a walk from its cursor shifts that walk by one. */
  lemma WalkedOutShifts(
    read: (Option<RecordId>, nat) -> DigestPage, after: Option<RecordId>, request: nat, page: DigestPage,
    rest: seq<DigestPage>)
    requires page == read(after, request) && page.next.Some?
    requires WalkedOut(read, page.next, request + 1, rest)
    ensures WalkedOut(read, after, request, [page] + rest)
  {
    var pages := [page] + rest;
    forall k: nat | k < |pages| ensures StillPage(read, after, request, pages, k) {
      if k > 0 {
        assert StillPage(read, page.next, request + 1, rest, k - 1);
        assert pages[k] == rest[k - 1] && pages[k - 1] == if k == 1 then page else rest[k - 2];
      }
    }
  }

  /** Following cursors ends. */
  lemma {:induction false} StillWalkEnds(
    leq: IdOrder, rows: Rows, after: Option<RecordId>, limits: nat -> PageLimit, request: nat)
    requires Collation(leq)
    ensures WalkedOut(Reader(leq, rows, limits), after, request, StillWalk(leq, rows, after, limits, request))
    decreases IdsBeyond(leq, rows, Start(after))
  {
    var read := Reader(leq, rows, limits);
    var page := ReadDigests(leq, rows, after, limits(request));
    assert page == read(after, request);
    if page.next.Some? {
      FewerBeyond(leq, rows, after, limits(request));
      StillWalkEnds(leq, rows, page.next, limits, request + 1);
      WalkedOutShifts(read, after, request, page, StillWalk(leq, rows, page.next, limits, request + 1));
    } else {
      assert StillPage(read, after, request, [page], 0);
    }
  }

  function Repeated(rows: Rows, n: nat): seq<Rows> {
    seq(n, _ => rows)
  }

  function Asked(limits: nat -> PageLimit, n: nat): seq<PageLimit> {
    seq(n, k requires 0 <= k < n => limits(k))
  }

  /** It is a walk in the sense above, with nothing written between its pages. */
  lemma StillWalkIsWalk(leq: IdOrder, rows: Rows, limits: nat -> PageLimit)
    requires Collation(leq)
    ensures var pages := StillWalk(leq, rows, None, limits, 0);
      DigestWalk(leq, Repeated(rows, |pages|), Asked(limits, |pages|), pages)
  {
    var pages := StillWalk(leq, rows, None, limits, 0);
    StillWalkEnds(leq, rows, None, limits, 0);
    forall k | 0 <= k < |pages|
      ensures PageFollows(leq, Repeated(rows, |pages|)[k], Asked(limits, |pages|)[k], pages, k)
    {
      assert StillPage(Reader(leq, rows, limits), None, 0, pages, k);
    }
  }
}
