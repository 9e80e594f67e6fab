/** Reading a collection in feed order, one budgeted page at a time. */
module Feed {
  import opened Documents
  import Ordering
  import opened Records
  import opened Wrappers

  /** No two records share a feed position, and every position is positive. */
  ghost predicate FeedPositions(rows: Rows) {
    && (forall id :: id in rows ==> rows[id].position >= 1)
    && (forall a, b :: a in rows && b in rows && rows[a].position == rows[b].position ==> a == b)
  }

  // ----- The highest position -----

  lemma {:induction false} GreatestExists(s: set<nat>)
    requires s != {}
    ensures exists n :: n in s && forall m :: m in s ==> m <= n
    decreases |s|
  {
    var x :| x in s;
    var rest := s - {x};
    if rest == {} {
      assert s == {x};
    } else {
      GreatestExists(rest);
      var y :| y in rest && forall m :: m in rest ==> m <= y;
      GreaterOf(s, x, y);
    }
  }

  lemma GreaterOf(s: set<nat>, x: nat, y: nat)
    requires x in s && y in s && forall m :: m in s - {x} ==> m <= y
    ensures exists n :: n in s && forall m :: m in s ==> m <= n
  {
    var n := if x <= y then y else x;
    forall m | m in s ensures m <= n {
      assert m == x || m in s - {x};
    }
  }

  function Greatest(s: set<nat>): (n: nat)
    requires s != {}
    ensures n in s && forall m :: m in s ==> m <= n
  {
    GreatestExists(s);
    var n :| n in s && forall m :: m in s ==> m <= n;
    n
  }

  function Seqs(rows: Rows): set<nat> {
    set id | id in rows :: rows[id].position
  }

  /** `max(seq)` over the collection, tombstones included. */
  function MaxSeq(rows: Rows): (r: Option<nat>)
    ensures r.None? <==> rows == map[]
    ensures r.Some? ==> r.value in Seqs(rows)
    ensures r.Some? ==> forall id :: id in rows ==> rows[id].position <= r.value
  {
    if rows == map[] then None
    else
      assert Seqs(rows) != {} by { var some :| some in rows; assert rows[some].position in Seqs(rows); }
      assert forall id :: id in rows ==> rows[id].position in Seqs(rows);
      Some(Greatest(Seqs(rows)))
  }

  /** The position as the API shows it: zero before the first write. */
  function Position(rows: Rows): nat {
    match MaxSeq(rows)
    case Some(n) => n
    case None => 0
  }

  lemma PositionBounds(rows: Rows)
    requires FeedPositions(rows)
    ensures forall id :: id in rows ==> 1 <= rows[id].position <= Position(rows)
    ensures rows != map[] ==> exists id :: id in rows && rows[id].position == Position(rows)
    ensures rows == map[] ==> Position(rows) == 0
  {
  }

  /** The greatest position of the collection, and zero exactly if it is empty. */
  ghost predicate IsGreatest(rows: Rows, n: nat) {
    && (n == 0 <==> rows == map[])
    && (forall id :: id in rows ==> rows[id].position <= n)
    && (rows != map[] ==> exists id :: id in rows && rows[id].position == n)
  }

  lemma PositionIsGreatest(rows: Rows, n: nat)
    requires FeedPositions(rows)
    ensures IsGreatest(rows, n) <==> n == Position(rows)
  {
    PositionBounds(rows);
    if rows != map[] {
      var id :| id in rows && rows[id].position == Position(rows);
    }
  }

  // ----- Selecting rows -----

  lemma NatIsTotalOrder()
    ensures Ordering.TotalOrder(Ordering.NatLeq)
  {
  }

  /** Which rows a read returns. */
  datatype Query = Listing(filter: map<string, Json>) | Changes

  /** `payload @> filter`, for a filter of scalars. */
  predicate Contains(payload: Json, filter: map<string, Json>) {
    payload.Object? && forall k :: k in filter ==> k in payload.members && payload.members[k] == filter[k]
  }

  predicate Wants(q: Query, row: Row) {
    match q
    case Listing(filter) => row.IsLive() && Contains(row.payload, filter)
    case Changes => true
  }

  /** The positions of the wanted rows beyond the cursor. */
  function Candidates(rows: Rows, q: Query, after: nat): set<nat> {
    set id | id in rows && rows[id].position > after && Wants(q, rows[id]) :: rows[id].position
  }

  function RecordAt(rows: Rows, n: nat): (r: StoredRecord)
    requires FeedPositions(rows)
    requires exists id :: id in rows && rows[id].position == n
    ensures r.id in rows && rows[r.id] == r.row && r.row.position == n
  {
    var id :| id in rows && rows[id].position == n;
    StoredRecord(id, rows[id])
  }

  /** The first of the wanted positions, in ascending order. */
  function Selected(rows: Rows, q: Query, after: nat, limit: PageLimit): (r: seq<nat>)
    ensures |r| <= limit
    ensures forall i, j :: 0 <= i < j < |r| ==> r[i] < r[j]
    ensures forall n :: n in r ==> n in Candidates(rows, q, after)
    ensures forall n :: n in Candidates(rows, q, after) ==> n in r || (|r| == limit && r[limit - 1] < n)
  {
    NatIsTotalOrder();
    var all := Ordering.InOrder(Ordering.NatLeq, Candidates(rows, q, after));
    assert forall i, j :: 0 <= i < j < |all| ==> Ordering.NatLeq(all[i], all[j]) && all[i] != all[j];
    if |all| <= limit then all else all[..limit]
  }

  ghost predicate InFeedOrder(records: seq<StoredRecord>) {
    forall i, j :: 0 <= i < j < |records| ==> records[i].row.position < records[j].row.position
  }

  /** This record is what the collection holds, wanted and beyond the position. */
  ghost predicate Picked(rows: Rows, q: Query, after: nat, s: StoredRecord) {
    s.id in rows && rows[s.id] == s.row && s.row.position > after && Wants(q, s.row)
  }

  ghost predicate SoundSelection(rows: Rows, q: Query, after: nat, limit: PageLimit, r: seq<StoredRecord>) {
    |r| <= limit && InFeedOrder(r) && forall s :: s in r ==> Picked(rows, q, after, s)
  }

  /** This record is among these, unless the limit was spent on earlier ones. */
  ghost predicate AmongOrBeyond(limit: PageLimit, r: seq<StoredRecord>, s: StoredRecord) {
    s in r || (|r| == limit && r[limit - 1].row.position < s.row.position)
  }

  /** `ORDER BY seq LIMIT n` over the wanted rows beyond the cursor. */
  ghost predicate IsSelection(rows: Rows, q: Query, after: nat, limit: PageLimit, r: seq<StoredRecord>) {
    SoundSelection(rows, q, after, limit, r) && forall s :: Picked(rows, q, after, s) ==> AmongOrBeyond(limit, r, s)
  }

  /** These rows are the ones at these positions. */
  ghost predicate RowsAt(rows: Rows, positions: seq<nat>, r: seq<StoredRecord>) {
    |r| == |positions| && forall i :: 0 <= i < |r| ==>
      r[i].id in rows && rows[r[i].id] == r[i].row && r[i].row.position == positions[i]
  }

  lemma RowsAreSelection(rows: Rows, q: Query, after: nat, limit: PageLimit, positions: seq<nat>, r: seq<StoredRecord>)
    requires FeedPositions(rows) && positions == Selected(rows, q, after, limit) && RowsAt(rows, positions, r)
    ensures IsSelection(rows, q, after, limit, r)
  {
    forall s | s in r ensures Picked(rows, q, after, s) {
      var i :| 0 <= i < |r| && r[i] == s;
      assert positions[i] in Candidates(rows, q, after);
    }
    forall s | Picked(rows, q, after, s) ensures AmongOrBeyond(limit, r, s) {
      var n := s.row.position;
      assert n in Candidates(rows, q, after);
      if n in positions {
        var i :| 0 <= i < |positions| && positions[i] == n;
        assert r[i] == s;
      }
    }
  }

  /** Of two selections, the first difference cannot be. */
  lemma SelectionsAgree(
    rows: Rows, q: Query, after: nat, limit: PageLimit, a: seq<StoredRecord>, b: seq<StoredRecord>, k: nat)
    requires IsSelection(rows, q, after, limit, a) && IsSelection(rows, q, after, limit, b)
    requires k < |a| && k <= |b| && a[..k] == b[..k]
    ensures k < |b| && b[k].row.position <= a[k].row.position
  {
    assert a[k] in a && Picked(rows, q, after, a[k]);
    if a[k] in b {
      var j :| 0 <= j < |b| && b[j] == a[k];
      assert forall i :: 0 <= i < k ==> a[..k][i] == b[..k][i];
      assert forall i :: 0 <= i < k ==> a[..k][i] == a[i] && b[..k][i] == b[i];
    }
  }

  /** The rows a read returns are determined. */
  lemma {:induction false} SelectionUnique(
    rows: Rows, q: Query, after: nat, limit: PageLimit, a: seq<StoredRecord>, b: seq<StoredRecord>, k: nat)
    requires FeedPositions(rows)
    requires IsSelection(rows, q, after, limit, a) && IsSelection(rows, q, after, limit, b)
    requires k <= |a| && k <= |b| && a[..k] == b[..k]
    ensures a == b
    decreases |a| - k
  {
    if k < |a| {
      SelectionsAgree(rows, q, after, limit, a, b, k);
      SelectionsAgree(rows, q, after, limit, b, a, k);
      assert a[k] in a && b[k] in b;
      assert Picked(rows, q, after, a[k]) && Picked(rows, q, after, b[k]);
      assert a[..k + 1] == a[..k] + [a[k]] && b[..k + 1] == b[..k] + [b[k]];
      SelectionUnique(rows, q, after, limit, a, b, k + 1);
    } else if k < |b| {
      SelectionsAgree(rows, q, after, limit, b, a, k);
    }
  }

  /** The first wanted rows beyond the cursor, in feed order. */
  ghost function Selection(rows: Rows, q: Query, after: nat, limit: PageLimit): (r: seq<StoredRecord>)
    requires FeedPositions(rows)
    ensures IsSelection(rows, q, after, limit, r)
  {
    SelectionExists(rows, q, after, limit);
    var r :| IsSelection(rows, q, after, limit, r);
    r
  }

  lemma SelectionExists(rows: Rows, q: Query, after: nat, limit: PageLimit)
    requires FeedPositions(rows)
    ensures exists r :: IsSelection(rows, q, after, limit, r)
  {
    var positions := Selected(rows, q, after, limit);
    var r := seq(|positions|, i requires 0 <= i < |positions| =>
      assert positions[i] in Candidates(rows, q, after); RecordAt(rows, positions[i]));
    RowsAreSelection(rows, q, after, limit, positions, r);
  }

  lemma RowsAreTheSelection(rows: Rows, q: Query, after: nat, limit: PageLimit, r: seq<StoredRecord>)
    requires FeedPositions(rows) && RowsAt(rows, Selected(rows, q, after, limit), r)
    ensures r == Selection(rows, q, after, limit)
  {
    RowsAreSelection(rows, q, after, limit, Selected(rows, q, after, limit), r);
    SelectionUnique(rows, q, after, limit, r, Selection(rows, q, after, limit), 0);
  }

  /** The rows at these positions, one by one. */
  method CollectRows(rows: Rows, positions: seq<nat>) returns (r: seq<StoredRecord>)
    requires FeedPositions(rows) && forall n :: n in positions ==> exists id :: id in rows && rows[id].position == n
    ensures RowsAt(rows, positions, r)
  {
    r := [];
    for i := 0 to |positions|
      invariant RowsAt(rows, positions[..i], r)
    {
      assert positions[i] in positions;
      r := r + [RecordAt(rows, positions[i])];
    }
    assert positions[..|positions|] == positions;
  }

  /** Finds the selected rows. */
  method SelectRows(rows: Rows, q: Query, after: nat, limit: PageLimit) returns (r: seq<StoredRecord>)
    requires FeedPositions(rows)
    ensures r == Selection(rows, q, after, limit)
  {
    var positions := Selected(rows, q, after, limit);
    assert forall n :: n in positions ==> n in Candidates(rows, q, after);
    r := CollectRows(rows, positions);
    RowsAreTheSelection(rows, q, after, limit, r);
  }

  // ----- Pages -----

  /** How large a payload is as JSON text, as the database reports it. */
  type TextSize = Json -> int

  function SizeOf(size: TextSize, r: StoredRecord): nat {
    var n := size(r.row.payload);
    if n < 0 then 0 else n
  }

  function SaturatingAdd(a: nat, b: nat): nat {
    if a + b > MAX_USIZE then MAX_USIZE else a + b
  }

  /** The payload bytes of some records. */
  function TotalSize(size: TextSize, records: seq<StoredRecord>): nat {
    if records == [] then 0
    else TotalSize(size, records[..|records| - 1]) + SizeOf(size, records[|records| - 1])
  }

  /** A page may hold these records: they fit the byte budget, or there is only one. */
  ghost predicate Fits(size: TextSize, records: seq<StoredRecord>, bytes: ByteBudget) {
    |records| <= 1 || TotalSize(size, records) <= bytes
  }

  lemma {:induction false} TotalSizeGrows(size: TextSize, records: seq<StoredRecord>, n: nat)
    requires n <= |records|
    ensures TotalSize(size, records[..n]) <= TotalSize(size, records)
  {
    if n < |records| {
      assert records[..|records| - 1][..n] == records[..n];
      TotalSizeGrows(size, records[..|records| - 1], n);
    } else {
      assert records[..n] == records;
    }
  }

  /** The longest prefix that fits. */
  ghost function Longest(size: TextSize, rows: seq<StoredRecord>, bytes: ByteBudget): (n: nat)
    ensures n <= |rows| && Fits(size, rows[..n], bytes)
    ensures forall m :: n < m <= |rows| ==> !Fits(size, rows[..m], bytes)
  {
    if Fits(size, rows, bytes) then
      assert rows[..|rows|] == rows; |rows|
    else
      var n := Longest(size, rows[..|rows| - 1], bytes);
      assert forall m :: 0 <= m < |rows| ==> rows[..|rows| - 1][..m] == rows[..m];
      assert rows[..|rows|] == rows;
      n
  }

  /** The page of these rows: the longest prefix that fits, and a cursor if it may not be all. */
  ghost function PageOf(size: TextSize, rows: seq<StoredRecord>, budget: PageBudget): Page {
    var n := Longest(size, rows, budget.bytes);
    Page(rows[..n], if n > 0 && (n < |rows| || |rows| == budget.records) then Some(rows[n - 1].row.position) else None)
  }

  lemma PageIsUnique(size: TextSize, rows: seq<StoredRecord>, budget: PageBudget, n: nat)
    requires n <= |rows| && Fits(size, rows[..n], budget.bytes)
    requires forall m :: n < m <= |rows| ==> !Fits(size, rows[..m], budget.bytes)
    ensures Longest(size, rows, budget.bytes) == n
  {
    var other := Longest(size, rows, budget.bytes);
    assert n <= other && other <= n;
  }

  lemma OneMoreRow(size: TextSize, rows: seq<StoredRecord>, i: nat)
    requires i < |rows|
    ensures rows[..i + 1] == rows[..i] + [rows[i]]
    ensures TotalSize(size, rows[..i + 1]) == TotalSize(size, rows[..i]) + SizeOf(size, rows[i])
  {
    assert rows[..i + 1][..i] == rows[..i];
  }

  /** Once a prefix overspends, every longer one does. */
  lemma OverspentStays(size: TextSize, rows: seq<StoredRecord>, i: nat, bytes: ByteBudget)
    requires 0 < i < |rows| && !Fits(size, rows[..i + 1], bytes)
    ensures forall n :: i < n <= |rows| ==> !Fits(size, rows[..n], bytes)
  {
    forall n | i < n <= |rows| ensures !Fits(size, rows[..n], bytes) {
      assert rows[..n][..i + 1] == rows[..i + 1];
      TotalSizeGrows(size, rows[..n], i + 1);
    }
  }

  /**
   * The page is a prefix within the bytes, unless it is one record, and one more row would overspend
   * them; it offers its last row as cursor, and none exactly if it took all there was and was not full.
   */
  ghost predicate SpendsBudget(size: TextSize, rows: seq<StoredRecord>, budget: PageBudget, page: Page) {
    var n := |page.records|;
    && page.records <= rows && (n > 1 ==> TotalSize(size, page.records) <= budget.bytes)
    && (n < |rows| ==> n > 0 && TotalSize(size, rows[..n + 1]) > budget.bytes)
    && (page.next.None? <==> page.records == rows && |rows| != budget.records)
    && (page.next.Some? ==> n > 0 && page.next.value == page.records[n - 1].row.position)
  }

  lemma PageOfSpends(size: TextSize, rows: seq<StoredRecord>, budget: PageBudget)
    ensures SpendsBudget(size, rows, budget, PageOf(size, rows, budget))
  {
    var n := Longest(size, rows, budget.bytes);
    assert rows != [] ==> Fits(size, rows[..1], budget.bytes);
    assert n < |rows| ==> !Fits(size, rows[..n + 1], budget.bytes);
    assert n == |rows| ==> rows[..n] == rows;
  }

  /** Adds rows while their running size stays within the budget, and always adds the first. */
  method BuildPage(size: TextSize, rows: seq<StoredRecord>, budget: PageBudget) returns (page: Page)
    ensures page == PageOf(size, rows, budget)
    ensures SpendsBudget(size, rows, budget, page)
  {
    PageOfSpends(size, rows, budget);
    var countReached := |rows| == budget.records;
    var records: seq<StoredRecord> := [];
    var spent: nat := 0;
    var cutShort := false;
    for i := 0 to |rows|
      invariant records == rows[..i] && !cutShort
      invariant spent == (if TotalSize(size, records) > MAX_USIZE then MAX_USIZE else TotalSize(size, records))
      invariant Fits(size, records, budget.bytes)
    {
      var row := rows[i];
      var bytes := SizeOf(size, row);
      OneMoreRow(size, rows, i);
      if records != [] && SaturatingAdd(spent, bytes) > budget.bytes {
        cutShort := true;
        OverspentStays(size, rows, i, budget.bytes);
        break;
      }
      spent := SaturatingAdd(spent, bytes);
      records := records + [row];
    }
    PageIsUnique(size, rows, budget, |records|);
    var next :=
      if (cutShort || countReached) && records != [] then Some(records[|records| - 1].row.position) else None;
    page := Page(records, next);
  }

  /** A cursor as the database takes it: absent is the beginning. */
  function CursorOf(after: Option<nat>): nat {
    match after
    case Some(n) => n
    case None => 0
  }

  /** This record is what the collection holds, wanted and beyond the cursor. */
  ghost predicate Due(rows: Rows, q: Query, after: Option<nat>, s: StoredRecord) {
    Picked(rows, q, CursorOf(after), s)
  }

  /** One read of a collection: select, then spend the budget. */
  ghost function ReadPage(size: TextSize, rows: Rows, q: Query, after: Option<nat>, budget: PageBudget): Page
    requires FeedPositions(rows)
  {
    PageOf(size, Selection(rows, q, CursorOf(after), budget.records), budget)
  }

  /** A page of rows in feed order is in feed order, and its cursor is its last row. */
  lemma PageOfIsPrefix(size: TextSize, rows: seq<StoredRecord>, budget: PageBudget)
    requires InFeedOrder(rows)
    ensures var p := PageOf(size, rows, budget);
      && p.records <= rows && Fits(size, p.records, budget.bytes) && InFeedOrder(p.records)
      && (p.next.Some? ==> p.records != [] && p.next.value == p.records[|p.records| - 1].row.position)
  {
  }

  /** Short of its cursor a page is complete, and without one it is everything. */
  lemma PageOfIsComplete(size: TextSize, rows: seq<StoredRecord>, budget: PageBudget, k: nat)
    requires InFeedOrder(rows) && k < |rows|
    requires var p := PageOf(size, rows, budget); p.next.Some? ==> rows[k].row.position <= p.next.value
    ensures rows[k] in PageOf(size, rows, budget).records
  {
    var n := Longest(size, rows, budget.bytes);
    assert Fits(size, rows[..1], budget.bytes);
    assert n > 0 && k < n;
    assert rows[..n][k] == rows[k];
  }

  /** A selection that reached the limit offers a cursor among its rows. */
  lemma FullPageHasCursor(size: TextSize, rows: seq<StoredRecord>, budget: PageBudget)
    requires InFeedOrder(rows) && |rows| == budget.records
    ensures var p := PageOf(size, rows, budget);
      p.next.Some? && p.next.value <= rows[|rows| - 1].row.position
  {
    assert Fits(size, rows[..1], budget.bytes);
  }

  /** Only wanted rows beyond the cursor, in feed order, within both limits; the cursor is the last of them. */
  ghost predicate SoundPage(size: TextSize, rows: Rows, q: Query, after: nat, budget: PageBudget, p: Page) {
    && |p.records| <= budget.records && (|p.records| > 1 ==> TotalSize(size, p.records) <= budget.bytes)
    && InFeedOrder(p.records)
    && (forall s :: s in p.records ==> Picked(rows, q, after, s))
    && (p.next.Some? ==> p.records != [] && p.next.value == p.records[|p.records| - 1].row.position)
  }

  lemma SelectionPages(size: TextSize, rows: Rows, q: Query, after: nat, budget: PageBudget, r: seq<StoredRecord>)
    requires SoundSelection(rows, q, after, budget.records, r)
    ensures SoundPage(size, rows, q, after, budget, PageOf(size, r, budget))
  {
    PageOfIsPrefix(size, r, budget);
    forall s | s in PageOf(size, r, budget).records ensures Picked(rows, q, after, s) {
      assert s in r;
    }
  }

  lemma SelectionDelivers(size: TextSize, budget: PageBudget, r: seq<StoredRecord>, s: StoredRecord)
    requires InFeedOrder(r) && AmongOrBeyond(budget.records, r, s)
    requires var p := PageOf(size, r, budget); p.next.Some? ==> s.row.position <= p.next.value
    ensures s in PageOf(size, r, budget).records
  {
    if s in r {
      var k :| 0 <= k < |r| && r[k] == s;
      PageOfIsComplete(size, r, budget, k);
    } else {
      FullPageHasCursor(size, r, budget);
    }
  }

  /** A page holds wanted rows beyond the cursor, in feed order, and its cursor is its last row. */
  lemma PageIsSound(size: TextSize, rows: Rows, q: Query, after: Option<nat>, budget: PageBudget)
    requires FeedPositions(rows)
    ensures SoundPage(size, rows, q, CursorOf(after), budget, ReadPage(size, rows, q, after, budget))
  {
    SelectionPages(size, rows, q, CursorOf(after), budget, Selection(rows, q, CursorOf(after), budget.records));
  }

  /** Every wanted row beyond the start and up to the cursor; without a cursor, every one. */
  ghost predicate CompletePage(rows: Rows, q: Query, after: nat, p: Page) {
    forall s: StoredRecord ::
      Picked(rows, q, after, s) && (p.next.Some? ==> s.row.position <= p.next.value) ==> s in p.records
  }

  /** No wanted row up to a page's cursor is skipped; without a cursor, none is left. */
  lemma PageIsComplete(size: TextSize, rows: Rows, q: Query, after: Option<nat>, budget: PageBudget)
    requires FeedPositions(rows)
    ensures CompletePage(rows, q, CursorOf(after), ReadPage(size, rows, q, after, budget))
  {
    SelectionCompletes(size, rows, q, CursorOf(after), budget, Selection(rows, q, CursorOf(after), budget.records));
  }

  lemma SelectionCompletes(size: TextSize, rows: Rows, q: Query, after: nat, budget: PageBudget, r: seq<StoredRecord>)
    requires IsSelection(rows, q, after, budget.records, r)
    ensures CompletePage(rows, q, after, PageOf(size, r, budget))
  {
    var p := PageOf(size, r, budget);
    forall s: StoredRecord | Picked(rows, q, after, s) && (p.next.Some? ==> s.row.position <= p.next.value)
      ensures s in p.records
    {
      SelectionDelivers(size, budget, r, s);
    }
  }

  // ----- What a page has, and when it is the last -----

  /** The collection holds this record beyond the cursor and no further than the page reaches. */
  ghost predicate WithinReach(rows: Rows, after: Option<nat>, p: Page, s: StoredRecord) {
    && s.id in rows && rows[s.id] == s.row
    && (after.Some? ==> after.value < s.row.position)
    && (p.next.Some? ==> s.row.position <= p.next.value)
  }

  /** The payload has these values under these keys. */
  ghost predicate HasAll(payload: Json, wanted: map<string, Json>) {
    payload.Object? && forall k :: k in wanted ==> At(payload, [Key(k)]) == Some(wanted[k])
  }

  /** The page of a listing has exactly the live records within reach that carry the wanted values. */
  ghost predicate ListsExactly(rows: Rows, wanted: map<string, Json>, after: Option<nat>, p: Page) {
    forall s: StoredRecord ::
      s in p.records <==> WithinReach(rows, after, p, s) && s.row.IsLive() && HasAll(s.row.payload, wanted)
  }

  /** The page of the feed has exactly the records within reach, tombstones included. */
  ghost predicate FeedsExactly(rows: Rows, after: Option<nat>, p: Page) {
    forall s: StoredRecord :: s in p.records <==> WithinReach(rows, after, p, s)
  }

  lemma ContainsIsHasAll(payload: Json, filter: map<string, Json>)
    ensures Contains(payload, filter) <==> HasAll(payload, filter)
  {
    forall k | payload.Object?
      ensures At(payload, [Key(k)]) == if k in payload.members then Some(payload.members[k]) else None
    {
      assert [Key(k)][1..] == [];
    }
  }

  /** A record is on a page exactly when it is wanted and within the page's reach. */
  lemma OnPageIffWanted(
    size: TextSize, rows: Rows, q: Query, after: Option<nat>, budget: PageBudget, s: StoredRecord)
    requires FeedPositions(rows)
    ensures var p := ReadPage(size, rows, q, after, budget);
      s in p.records <==> WithinReach(rows, after, p, s) && Wants(q, s.row)
  {
    var p := ReadPage(size, rows, q, after, budget);
    PageIsSound(size, rows, q, after, budget);
    PageIsComplete(size, rows, q, after, budget);
    if s in p.records {
      var i :| 0 <= i < |p.records| && p.records[i] == s;
      assert Picked(rows, q, CursorOf(after), s);
      assert i < |p.records| - 1 ==> s.row.position < p.records[|p.records| - 1].row.position;
    }
    if WithinReach(rows, after, p, s) && Wants(q, s.row) {
      assert rows[s.id].position >= 1;
      assert Picked(rows, q, CursorOf(after), s);
    }
  }

  /** What a listing shows, read off the payloads. */
  lemma ListingIsExact(
    size: TextSize, rows: Rows, filter: map<string, Json>, after: Option<nat>, budget: PageBudget)
    requires FeedPositions(rows)
    ensures ListsExactly(rows, filter, after, ReadPage(size, rows, Listing(filter), after, budget))
  {
    var p := ReadPage(size, rows, Listing(filter), after, budget);
    forall s: StoredRecord ensures s in p.records
      <==> WithinReach(rows, after, p, s) && s.row.IsLive() && HasAll(s.row.payload, filter)
    {
      OnPageIffWanted(size, rows, Listing(filter), after, budget, s);
      ContainsIsHasAll(s.row.payload, filter);
    }
  }

  lemma FeedIsExact(size: TextSize, rows: Rows, after: Option<nat>, budget: PageBudget)
    requires FeedPositions(rows)
    ensures FeedsExactly(rows, after, ReadPage(size, rows, Changes, after, budget))
  {
    var p := ReadPage(size, rows, Changes, after, budget);
    forall s: StoredRecord ensures s in p.records <==> WithinReach(rows, after, p, s) {
      OnPageIffWanted(size, rows, Changes, after, budget, s);
    }
  }

  /** The page leaves nothing: every record wanted beyond the cursor is on it, and it is not full. */
  ghost predicate IsLast(rows: Rows, q: Query, after: nat, limit: PageLimit, p: Page) {
    |p.records| < limit && forall s :: Picked(rows, q, after, s) ==> s in p.records
  }

  /** This record is the first wanted one that the page leaves out, and there is no room for it. */
  ghost predicate Overspends(
    size: TextSize, rows: Rows, q: Query, after: nat, budget: PageBudget, p: Page, s: StoredRecord)
  {
    && Picked(rows, q, after, s)
    && (forall t :: t in p.records ==> t.row.position < s.row.position)
    && (forall t :: Picked(rows, q, after, t) && t !in p.records ==> s.row.position <= t.row.position)
    && p.records != [] && TotalSize(size, p.records + [s]) > budget.bytes
  }

  /** A page offers no cursor exactly when it is short and has everything that was left. */
  lemma PageEndsExactly(size: TextSize, rows: Rows, q: Query, after: Option<nat>, budget: PageBudget)
    requires FeedPositions(rows)
    ensures var p := ReadPage(size, rows, q, after, budget);
      p.next.None? <==> IsLast(rows, q, CursorOf(after), budget.records, p)
  {
    var r := Selection(rows, q, CursorOf(after), budget.records);
    var p := ReadPage(size, rows, q, after, budget);
    assert r != [] ==> Fits(size, r[..1], budget.bytes);
    PageIsComplete(size, rows, q, after, budget);
    if p.next.Some? && |p.records| < budget.records {
      CutShortMisses(size, rows, q, CursorOf(after), budget, r);
    }
  }

  lemma CutShortMisses(size: TextSize, rows: Rows, q: Query, after: nat, budget: PageBudget, r: seq<StoredRecord>)
    requires IsSelection(rows, q, after, budget.records, r)
    requires var p := PageOf(size, r, budget); p.next.Some? && |p.records| < budget.records
    ensures exists s :: Overspends(size, rows, q, after, budget, PageOf(size, r, budget), s)
  {
    var p := PageOf(size, r, budget);
    var n := |p.records|;
    assert n < |r| && r[n] in r && p.records == r[..n];
    forall i | 0 <= i < n ensures p.records[i].row.position < r[n].row.position {
      assert p.records[i] == r[i];
    }
    assert r[..n + 1] == p.records + [r[n]];
    forall t | Picked(rows, q, after, t) && t !in p.records ensures r[n].row.position <= t.row.position {
      LeftOutIsLater(rows, q, after, budget.records, r, n, t);
    }
    assert Overspends(size, rows, q, after, budget, p, r[n]);
  }

  lemma LeftOutIsLater(
    rows: Rows, q: Query, after: nat, limit: PageLimit, r: seq<StoredRecord>, n: nat, t: StoredRecord)
    requires IsSelection(rows, q, after, limit, r) && n < |r|
    requires Picked(rows, q, after, t) && t !in r[..n]
    ensures r[n].row.position <= t.row.position
  {
    assert AmongOrBeyond(limit, r, t);
    assert forall i :: 0 <= i < n ==> r[i] in r[..n];
    if t in r {
      var i :| 0 <= i < |r| && r[i] == t;
    }
  }

  /** A page that is cut short is so because the very next record would have overspent the bytes. */
  lemma PageIsGreedy(size: TextSize, rows: Rows, q: Query, after: Option<nat>, budget: PageBudget)
    requires FeedPositions(rows)
    ensures var p := ReadPage(size, rows, q, after, budget);
      p.next.Some? && |p.records| < budget.records
      ==> exists s :: Overspends(size, rows, q, CursorOf(after), budget, p, s)
  {
    var p := ReadPage(size, rows, q, after, budget);
    if p.next.Some? && |p.records| < budget.records {
      CutShortMisses(
        size, rows, q, CursorOf(after), budget, Selection(rows, q, CursorOf(after), budget.records));
    }
  }

  /** A page as its query promises: sound, and the last exactly when it is short and leaves nothing. */
  ghost predicate PageShows(
    size: TextSize, rows: Rows, q: Query, after: Option<nat>, budget: PageBudget, page: Page)
    requires FeedPositions(rows)
  {
    && SoundPage(size, rows, q, CursorOf(after), budget, page)
    && (page.next.None? <==> IsLast(rows, q, CursorOf(after), budget.records, page))
  }

  lemma ReadPageShows(size: TextSize, rows: Rows, q: Query, after: Option<nat>, budget: PageBudget)
    requires FeedPositions(rows)
    ensures PageShows(size, rows, q, after, budget, ReadPage(size, rows, q, after, budget))
  {
    PageIsSound(size, rows, q, after, budget);
    PageEndsExactly(size, rows, q, after, budget);
  }

  /** Under two byte budgets a read returns one page exactly when the page of the larger fits the smaller. */
  lemma PagesAgree(
    size: TextSize, rows: Rows, q: Query, after: Option<nat>, limit: PageLimit, small: ByteBudget, large: ByteBudget)
    requires FeedPositions(rows) && small <= large
    ensures ReadPage(size, rows, q, after, PageBudget(limit, small))
         == ReadPage(size, rows, q, after, PageBudget(limit, large))
      <==> Fits(size, ReadPage(size, rows, q, after, PageBudget(limit, large)).records, small)
  {
    PagesOfAgree(size, Selection(rows, q, CursorOf(after), limit), limit, small, large);
  }

  lemma PagesOfAgree(size: TextSize, r: seq<StoredRecord>, limit: PageLimit, small: ByteBudget, large: ByteBudget)
    requires small <= large
    ensures PageOf(size, r, PageBudget(limit, small)) == PageOf(size, r, PageBudget(limit, large))
      <==> Fits(size, PageOf(size, r, PageBudget(limit, large)).records, small)
  {
    LongestGrows(size, r, small, large);
    var m, n := Longest(size, r, small), Longest(size, r, large);
    assert |r[..m]| == m && |r[..n]| == n;
  }

  /** A larger budget takes no fewer rows, and no more exactly when those fit the smaller one. */
  lemma LongestGrows(size: TextSize, r: seq<StoredRecord>, small: ByteBudget, large: ByteBudget)
    requires small <= large
    ensures Longest(size, r, small) <= Longest(size, r, large)
    ensures Longest(size, r, small) == Longest(size, r, large) <==> Fits(size, r[..Longest(size, r, large)], small)
  {
    assert Fits(size, r[..Longest(size, r, small)], large);
  }

  // ----- Walking a store that does not change -----

  /** Everything a client receives by following cursors; the budget may differ per request. */
  ghost function Walk(
    size: TextSize, rows: Rows, q: Query, after: Option<nat>, budgets: nat -> PageBudget, request: nat
  ): seq<StoredRecord>
    requires FeedPositions(rows)
    decreases Position(rows) - CursorOf(after)
  {
    var p := ReadPage(size, rows, q, after, budgets(request));
    PageIsSound(size, rows, q, after, budgets(request));
    if p.next.None? then p.records
    else
      assert p.records[|p.records| - 1] in p.records;
      p.records + Walk(size, rows, q, p.next, budgets, request + 1)
  }

  /** A sound page that is complete up to its cursor, and all that is due after it. */
  lemma Continued(
    size: TextSize, rows: Rows, q: Query, after: nat, budget: PageBudget, p: Page, rest: seq<StoredRecord>)
    requires SoundPage(size, rows, q, after, budget, p) && CompletePage(rows, q, after, p) && p.next.Some?
    requires InFeedOrder(rest) && forall s :: s in rest <==> Picked(rows, q, p.next.value, s)
    ensures InFeedOrder(p.records + rest) && forall s :: s in p.records + rest <==> Picked(rows, q, after, s)
  {
    var last := p.records[|p.records| - 1];
    assert last in p.records && last.row.position == p.next.value;
    forall i, j | 0 <= i < |p.records| && 0 <= j < |rest| ensures p.records[i].row.position < rest[j].row.position {
      assert rest[j] in rest;
      assert i < |p.records| - 1 ==> p.records[i].row.position < last.row.position;
    }
    forall s: StoredRecord ensures s in p.records + rest <==> Picked(rows, q, after, s) {
      assert s in p.records + rest <==> s in p.records || s in rest;
    }
  }

  /** One page and a walk from its cursor are a walk from the page's start. */
  lemma WalkStep(size: TextSize, rows: Rows, q: Query, after: Option<nat>, budget: PageBudget, rest: seq<StoredRecord>)
    requires FeedPositions(rows)
    requires var p := ReadPage(size, rows, q, after, budget);
      p.next.Some? && InFeedOrder(rest) && forall s :: s in rest <==> Due(rows, q, p.next, s)
    ensures var w := ReadPage(size, rows, q, after, budget).records + rest;
      InFeedOrder(w) && forall s :: s in w <==> Due(rows, q, after, s)
  {
    var p := ReadPage(size, rows, q, after, budget);
    PageIsSound(size, rows, q, after, budget);
    PageIsComplete(size, rows, q, after, budget);
    forall s ensures s in rest <==> Picked(rows, q, p.next.value, s) {
      assert s in rest <==> Due(rows, q, p.next, s);
    }
    Continued(size, rows, q, CursorOf(after), budget, p, rest);
  }

  /** Following cursors delivers every wanted row beyond the start exactly once, in feed order. */
  lemma {:induction false} WalkIsExact(
    size: TextSize, rows: Rows, q: Query, after: Option<nat>, budgets: nat -> PageBudget, request: nat)
    requires FeedPositions(rows)
    ensures var w := Walk(size, rows, q, after, budgets, request);
      InFeedOrder(w) && forall s :: s in w <==> Due(rows, q, after, s)
    decreases Position(rows) - CursorOf(after)
  {
    var p := ReadPage(size, rows, q, after, budgets(request));
    PageIsSound(size, rows, q, after, budgets(request));
    if p.next.Some? {
      assert p.records[|p.records| - 1] in p.records;
      WalkIsExact(size, rows, q, p.next, budgets, request + 1);
      WalkStep(size, rows, q, after, budgets(request), Walk(size, rows, q, p.next, budgets, request + 1));
    } else {
      PageIsComplete(size, rows, q, after, budgets(request));
      forall s: StoredRecord ensures s in p.records <==> Due(rows, q, after, s) {
        assert Due(rows, q, after, s) <==> Picked(rows, q, CursorOf(after), s);
      }
    }
  }
}
