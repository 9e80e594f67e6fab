/** Drift detection: what a sender computes from digests is what the manifest says. */
module Drift {
  import opened Digests
  import Feed
  import opened Hashing
  import opened Ident
  import opened Records
  import Revalidation
  import Runs
  import opened Wrappers

  function Entries(digests: seq<Digest>): seq<Entry> {
    seq(|digests|, i requires 0 <= i < |digests| => Entry(digests[i].id, digests[i].hash))
  }

  /** The entries of all pages, one after another. */
  function Flatten(pages: seq<DigestPage>): seq<Entry> {
    if pages == [] then [] else Flatten(pages[..|pages| - 1]) + Entries(pages[|pages| - 1].entries)
  }

  ghost predicate EntryAt(pages: seq<DigestPage>, k: nat, i: nat, e: Entry) {
    k < |pages| && i < |pages[k].entries| && e == Entry(pages[k].entries[i].id, pages[k].entries[i].hash)
  }

  lemma {:induction false} FlattenMembers(pages: seq<DigestPage>, n: nat, e: Entry)
    requires n <= |pages|
    ensures e in Flatten(pages[..n]) <==> exists k: nat, i: nat :: k < n && EntryAt(pages, k, i, e)
  {
    if n > 0 {
      assert pages[..n][..n - 1] == pages[..n - 1];
      FlattenMembers(pages, n - 1, e);
      var last := Entries(pages[n - 1].entries);
      if e in last {
        var i :| 0 <= i < |last| && last[i] == e;
        assert EntryAt(pages, n - 1, i, e);
      }
      if k: nat, i: nat :| k < n && EntryAt(pages, k, i, e) && k == n - 1 {
        assert last[i] == e;
      }
    }
  }

  lemma EntriesDistinct(leq: IdOrder, states: seq<Rows>, limits: seq<PageLimit>, pages: seq<DigestPage>, k: nat)
    requires Collation(leq) && DigestWalk(leq, states, limits, pages) && k < |pages|
    ensures DistinctIds(Entries(pages[k].entries))
  {
    var entries := Entries(pages[k].entries);
    forall i, j | 0 <= i < j < |entries| ensures entries[i].id != entries[j].id {
      if entries[i].id == entries[j].id {
        DeliveredOnce(leq, states, limits, pages, k, i, k, j);
      }
    }
  }

  lemma DistinctConcat(a: seq<Entry>, b: seq<Entry>)
    requires DistinctIds(a) && DistinctIds(b)
    requires forall x, y :: x in a && y in b ==> x.id != y.id
    ensures DistinctIds(a + b)
  {
    forall i, j | 0 <= i < j < |a + b| ensures (a + b)[i].id != (a + b)[j].id {
      if i < |a| && j >= |a| {
        assert a[i] in a && b[j - |a|] in b;
      }
    }
  }

  lemma {:induction false} FlattenDistinct(
    leq: IdOrder, states: seq<Rows>, limits: seq<PageLimit>, pages: seq<DigestPage>, n: nat)
    requires Collation(leq) && DigestWalk(leq, states, limits, pages) && n <= |pages|
    ensures DistinctIds(Flatten(pages[..n]))
  {
    if n > 0 {
      assert pages[..n][..n - 1] == pages[..n - 1];
      FlattenDistinct(leq, states, limits, pages, n - 1);
      EntriesDistinct(leq, states, limits, pages, n - 1);
      var a, b := Flatten(pages[..n - 1]), Entries(pages[n - 1].entries);
      forall x, y | x in a && y in b ensures x.id != y.id {
        FlattenMembers(pages, n - 1, x);
        var k: nat, i: nat :| k < n - 1 && EntryAt(pages, k, i, x);
        var j :| 0 <= j < |b| && b[j] == y;
        if x.id == y.id {
          DeliveredOnce(leq, states, limits, pages, k, i, n - 1, j);
        }
      }
      DistinctConcat(a, b);
    }
  }

  /** Every state of the walk is this one. */
  ghost predicate Unchanging(states: seq<Rows>, rows: Rows) {
    forall k :: 0 <= k < |states| ==> states[k] == rows
  }

  lemma EntryIsLive(
    leq: IdOrder, rows: Rows, states: seq<Rows>, limits: seq<PageLimit>, pages: seq<DigestPage>, k: nat, i: nat)
    requires Collation(leq) && DigestWalk(leq, states, limits, pages) && Unchanging(states, rows)
    requires k < |pages| && i < |pages[k].entries|
    ensures var d, hashes := pages[k].entries[i], Revalidation.LiveHashes(rows);
      d.id in hashes && hashes[d.id] == d.hash
  {
    assert PageFollows(leq, states[k], limits[k], pages, k);
    var ids := SelectIds(leq, rows, Start(CursorBefore(pages, k)), limits[k]);
    assert ids[i] in ids;
  }

  /** On a store that does not change, a finished digest walk lists the live records. */
  lemma WalkListsLive(leq: IdOrder, rows: Rows, states: seq<Rows>, limits: seq<PageLimit>, pages: seq<DigestPage>)
    requires Collation(leq) && DigestWalk(leq, states, limits, pages) && Unchanging(states, rows)
    requires pages != [] && pages[|pages| - 1].next.None?
    ensures Lists(Flatten(pages), Revalidation.LiveHashes(rows))
  {
    var all, hashes := Flatten(pages), Revalidation.LiveHashes(rows);
    assert pages[..|pages|] == pages;
    FlattenDistinct(leq, states, limits, pages, |pages|);
    forall e | e in all ensures e.id in hashes && hashes[e.id] == e.hash {
      FlattenMembers(pages, |pages|, e);
      var k: nat, i: nat :| k < |pages| && EntryAt(pages, k, i, e);
      EntryIsLive(leq, rows, states, limits, pages, k, i);
    }
    forall id | id in hashes ensures Entry(id, hashes[id]) in all {
      var recordId: RecordId := id;
      assert LiveThroughout(states, |pages|, recordId);
      var k, i := FindDigest(leq, states, limits, pages, recordId);
      assert EntryAt(pages, k, i, Entry(id, hashes[id]));
      FlattenMembers(pages, |pages|, Entry(id, hashes[id]));
    }
  }

  /** The checksum over the digests of a finished walk, sorted in any way, is the manifest's. */
  lemma DigestsMatchManifest(
    h: Hashing, leq: IdOrder, rows: Rows, states: seq<Rows>, limits: seq<PageLimit>, pages: seq<DigestPage>,
    sorted: seq<Entry>)
    requires Collation(leq) && DigestWalk(leq, states, limits, pages) && Unchanging(states, rows)
    requires pages != [] && pages[|pages| - 1].next.None?
    requires multiset(sorted) == multiset(Flatten(pages)) && SortedById(sorted)
    ensures h.ContentHash(PairsDocument(sorted)) == Checksum(h, Revalidation.LiveHashes(rows))
  {
    WalkListsLive(leq, rows, states, limits, pages);
    PermutationLists(sorted, Flatten(pages), Revalidation.LiveHashes(rows));
    SortedListUnique(sorted, Revalidation.LiveHashes(rows));
  }

  /**
   * The manifest that was served, against the digests of the collection as its scan saw it: however
   * they are walked, there are as many as it counts, and sorted they hash to its checksum. Its position
   * is the greatest of the collection as its last read saw it.
   */
  lemma ServedManifestMatchesDigests(
    d: Revalidation.Deployment, leq: IdOrder, run: seq<Rows>, r: Revalidation.Held, now: nat,
    limits: nat -> PageLimit, sorted: seq<Entry>)
    requires Collation(leq) && Runs.ValidRun(run) && Revalidation.ReadBy(run, r, now) && r.slice.ManifestSlice?
    requires SortedById(sorted)
    requires multiset(sorted) == multiset(Flatten(StillWalk(leq, run[r.second], None, limits, 0)))
    ensures var body := Revalidation.HeldBody(d, run, r);
      && body.ManifestBody?
      && body.count == |Flatten(StillWalk(leq, run[r.second], None, limits, 0))|
      && body.checksum == d.hashing.ContentHash(PairsDocument(sorted))
      && Feed.IsGreatest(run[r.third], body.maxSeq)
  {
    var rows, walked := run[r.second], Flatten(StillWalk(leq, run[r.second], None, limits, 0));
    StillWalkMatchesManifest(d.hashing, leq, rows, limits, sorted);
    PermutationLists(sorted, walked, Revalidation.LiveHashes(rows));
    Revalidation.ListsLiveIsLists(rows, sorted);
    Revalidation.HeldBodyShows(d, run, r, now);
    assert |sorted| == |multiset(sorted)| == |multiset(walked)| == |walked|;
  }

  /** Whatever the limits, the digests read to the end of a still store have the manifest's checksum. */
  lemma StillWalkMatchesManifest(
    h: Hashing, leq: IdOrder, rows: Rows, limits: nat -> PageLimit, sorted: seq<Entry>)
    requires Collation(leq) && SortedById(sorted)
    requires multiset(sorted) == multiset(Flatten(StillWalk(leq, rows, None, limits, 0)))
    ensures Lists(Flatten(StillWalk(leq, rows, None, limits, 0)), Revalidation.LiveHashes(rows))
    ensures h.ContentHash(PairsDocument(sorted)) == Checksum(h, Revalidation.LiveHashes(rows))
  {
    var pages := StillWalk(leq, rows, None, limits, 0);
    StillWalkEnds(leq, rows, None, limits, 0);
    StillWalkIsWalk(leq, rows, limits);
    WalkListsLive(leq, rows, Repeated(rows, |pages|), Asked(limits, |pages|), pages);
    DigestsMatchManifest(h, leq, rows, Repeated(rows, |pages|), Asked(limits, |pages|), pages, sorted);
  }
}
