/** A collection over time: what committed writes may do to it between two reads. */
module Runs {
  import opened Feed
  import opened Records
  import opened Wrappers

  /**
   * One or more writes becoming visible. The last clause is the commit-order assumption: whatever a
   * write changes takes a position beyond every position already visible in the collection.
   */
  ghost predicate Commits(before: Rows, after: Rows) {
    && FeedPositions(before) && FeedPositions(after)
    && before.Keys <= after.Keys
    && forall id :: id in after ==>
         (id in before && after[id] == before[id]) || after[id].position > Position(before)
  }

  /** The position never goes back, and it stands still only if the collection does. */
  lemma PositionTellsChange(before: Rows, after: Rows)
    requires Commits(before, after)
    ensures Position(before) <= Position(after)
    ensures Position(before) == Position(after) <==> before == after
  {
    PositionBounds(before);
    PositionBounds(after);
    if before != map[] {
      var id :| id in before && before[id].position == Position(before);
      assert id in after;
    }
    if Position(before) == Position(after) {
      assert before == after;
    }
  }

  lemma CommitsReflexive(rows: Rows)
    requires FeedPositions(rows)
    ensures Commits(rows, rows)
  {
  }

  lemma CommitsTransitive(a: Rows, b: Rows, c: Rows)
    requires Commits(a, b) && Commits(b, c)
    ensures Commits(a, c)
  {
    PositionTellsChange(a, b);
  }

  /** The committed states of one collection, in order. */
  ghost predicate ValidRun(run: seq<Rows>) {
    && (forall i :: 0 <= i < |run| ==> FeedPositions(run[i]))
    && forall i :: 0 <= i < |run| - 1 ==> CommitsAt(run, i)
  }

  ghost predicate CommitsAt(run: seq<Rows>, i: int)
    requires 0 <= i < |run| - 1
  {
    Commits(run[i], run[i + 1])
  }

  /** Any earlier state of a run reaches any later one by commits. */
  lemma {:induction false} RunCommits(run: seq<Rows>, i: nat, j: nat)
    requires ValidRun(run) && i <= j < |run|
    ensures Commits(run[i], run[j])
    decreases j - i
  {
    if i == j {
      CommitsReflexive(run[i]);
    } else {
      RunCommits(run, i, j - 1);
      assert CommitsAt(run, j - 1);
      CommitsTransitive(run[i], run[j - 1], run[j]);
    }
  }

  /** Two states with one position have nothing but that state between them. */
  lemma PositionPinsState(run: seq<Rows>, i: nat, j: nat, k: nat)
    requires ValidRun(run) && i <= j <= k < |run|
    requires Position(run[i]) == Position(run[k])
    ensures run[i] == run[j] == run[k]
  {
    RunCommits(run, i, j);
    RunCommits(run, j, k);
    PositionTellsChange(run[i], run[j]);
    PositionTellsChange(run[j], run[k]);
  }

  // ----- Listing while writes happen -----

  function CursorBefore(pages: seq<Page>, k: nat): Option<nat>
    requires k <= |pages|
  {
    if k == 0 then None else pages[k - 1].next
  }

  /** Page `k` was read at state `k`, from the cursor the page before it offered. */
  ghost predicate PageFollows(size: TextSize, q: Query, rows: Rows, budget: PageBudget, pages: seq<Page>, k: nat)
    requires FeedPositions(rows) && k < |pages|
  {
    (k > 0 ==> pages[k - 1].next.Some?) && pages[k] == ReadPage(size, rows, q, CursorBefore(pages, k), budget)
  }

  /** A walk of one query, with any number of writes between its pages. */
  ghost predicate WalkUnderWrites(
    size: TextSize, q: Query, states: seq<Rows>, budgets: seq<PageBudget>, pages: seq<Page>)
  {
    && ValidRun(states)
    && |states| == |budgets| == |pages|
    && forall k :: 0 <= k < |pages| ==> ReadAt(size, q, states, budgets, pages, k)
  }

  ghost predicate ReadAt(
    size: TextSize, q: Query, states: seq<Rows>, budgets: seq<PageBudget>, pages: seq<Page>, k: int)
    requires 0 <= k < |pages| && |states| == |budgets| == |pages| && FeedPositions(states[k])
  {
    PageFollows(size, q, states[k], budgets[k], pages, k)
  }

  ghost predicate Delivered(pages: seq<Page>, n: nat, s: StoredRecord) {
    exists k :: 0 <= k < n <= |pages| && s in pages[k].records
  }

  /** After `n` pages, every wanted row the cursor has passed was delivered as it now stands. */
  ghost predicate PassedIsDelivered(q: Query, rows: Rows, pages: seq<Page>, n: nat, cursor: Option<nat>) {
    && CursorOf(cursor) <= Position(rows)
    && forall id :: id in rows && Wants(q, rows[id]) && rows[id].position <= CursorOf(cursor) ==>
         Delivered(pages, n, StoredRecord(id, rows[id]))
  }

  lemma PassedSurvivesCommit(q: Query, before: Rows, after: Rows, pages: seq<Page>, n: nat, cursor: Option<nat>)
    requires Commits(before, after) && PassedIsDelivered(q, before, pages, n, cursor)
    ensures PassedIsDelivered(q, after, pages, n, cursor)
  {
    PositionTellsChange(before, after);
  }

  /** Every wanted row was delivered as it now stands. */
  ghost predicate AllDelivered(q: Query, rows: Rows, pages: seq<Page>, n: nat) {
    forall id :: id in rows && Wants(q, rows[id]) ==> Delivered(pages, n, StoredRecord(id, rows[id]))
  }

  /** One more page extends what has been delivered up to its own cursor, or to the end. */
  lemma PageExtends(size: TextSize, q: Query, rows: Rows, budget: PageBudget, pages: seq<Page>, k: nat)
    requires FeedPositions(rows) && k < |pages| && PageFollows(size, q, rows, budget, pages, k)
    requires PassedIsDelivered(q, rows, pages, k, CursorBefore(pages, k))
    ensures Progress(q, rows, pages, k)
  {
    PageIsSound(size, rows, q, CursorBefore(pages, k), budget);
    PageIsComplete(size, rows, q, CursorBefore(pages, k), budget);
    PageProgresses(size, q, rows, budget, pages, k);
  }

  lemma PageProgresses(size: TextSize, q: Query, rows: Rows, budget: PageBudget, pages: seq<Page>, k: nat)
    requires FeedPositions(rows) && k < |pages|
    requires SoundPage(size, rows, q, CursorOf(CursorBefore(pages, k)), budget, pages[k])
    requires CompletePage(rows, q, CursorOf(CursorBefore(pages, k)), pages[k])
    requires PassedIsDelivered(q, rows, pages, k, CursorBefore(pages, k))
    ensures Progress(q, rows, pages, k)
  {
    var cursor, page := CursorBefore(pages, k), pages[k];
    PositionBounds(rows);
    if page.next.Some? {
      assert page.records[|page.records| - 1] in page.records;
    }
    forall id | id in rows && Wants(q, rows[id]) && (page.next.None? || rows[id].position <= page.next.value)
      ensures Delivered(pages, k + 1, StoredRecord(id, rows[id]))
    {
      if rows[id].position <= CursorOf(cursor) {
        assert Delivered(pages, k, StoredRecord(id, rows[id]));
      } else {
        assert Picked(rows, q, CursorOf(cursor), StoredRecord(id, rows[id]));
      }
    }
  }

  /** What a walk has achieved once page `k` was read. */
  ghost predicate Progress(q: Query, rows: Rows, pages: seq<Page>, k: nat)
    requires k < |pages|
  {
    if pages[k].next.Some? then PassedIsDelivered(q, rows, pages, k + 1, pages[k].next)
    else AllDelivered(q, rows, pages, k + 1)
  }

  /** What was achieved before a write still stands when the next page is read. */
  lemma ProgressSurvives(q: Query, before: Rows, after: Rows, pages: seq<Page>, k: nat)
    requires Commits(before, after) && 0 < k < |pages| && pages[k - 1].next.Some?
    requires Progress(q, before, pages, k - 1)
    ensures PassedIsDelivered(q, after, pages, k, CursorBefore(pages, k))
  {
    PassedSurvivesCommit(q, before, after, pages, k, CursorBefore(pages, k));
  }

  lemma {:induction false} WalkInvariant(
    size: TextSize, q: Query, states: seq<Rows>, budgets: seq<PageBudget>, pages: seq<Page>, k: nat)
    requires WalkUnderWrites(size, q, states, budgets, pages) && k < |pages|
    ensures Progress(q, states[k], pages, k)
  {
    assert ReadAt(size, q, states, budgets, pages, k);
    if k == 0 {
      PositionBounds(states[k]);
    } else {
      WalkInvariant(size, q, states, budgets, pages, k - 1);
      assert CommitsAt(states, k - 1);
      ProgressSurvives(q, states[k - 1], states[k], pages, k);
    }
    PageExtends(size, q, states[k], budgets[k], pages, k);
  }

  /**
   * A finished walk missed nothing: every record wanted at the last read was delivered in the version
   * it has there, whatever was written between the pages.
   */
  lemma FinishedWalkIsComplete(
    size: TextSize, q: Query, states: seq<Rows>, budgets: seq<PageBudget>, pages: seq<Page>)
    requires WalkUnderWrites(size, q, states, budgets, pages) && pages != []
    requires pages[|pages| - 1].next.None?
    ensures AllDelivered(q, states[|states| - 1], pages, |pages|)
  {
    WalkInvariant(size, q, states, budgets, pages, |pages| - 1);
  }
}
