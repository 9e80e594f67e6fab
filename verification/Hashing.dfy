/** Content hashes and the collection checksum, over a canonical form and a digest taken as given. */
module Hashing {
  import opened Documents
  import opened Ordering
  import opened Wrappers

  predicate IsHex(c: char) {
    '0' <= c <= '9' || 'a' <= c <= 'f'
  }

  /** SHA-256 in the lower-case hex form that crosses the wire. */
  type ContentHash = s: string | |s| == 64 && forall i :: 0 <= i < |s| ==> IsHex(s[i])
    witness seq(64, _ => '0')

  /** The canonical form of RFC 8785 and the digest over its bytes. */
  datatype Hashing = Hashing(canonicalize: Json -> Option<seq<bv8>>, digest: seq<bv8> -> ContentHash) {
    function ContentHash(v: Json): Option<ContentHash> {
      match canonicalize(v)
      case Some(bytes) => Some(digest(bytes))
      case None => None
    }

    /** The constant used for tombstones is what hashing the empty document gives. */
    ghost predicate PinsEmptyDocument() {
      ContentHash(EMPTY_DOCUMENT) == Some(EMPTY_DOCUMENT_HASH)
    }

    /** Canonicalisation tells these two documents apart. */
    ghost predicate FormsApart(a: Json, b: Json) {
      canonicalize(a).Some? && canonicalize(a) == canonicalize(b) ==> a == b
    }

    /** The digest does not collide on the canonical forms of these two. */
    ghost predicate DigestsApart(a: Json, b: Json) {
      var x, y := canonicalize(a), canonicalize(b);
      x.Some? && y.Some? && digest(x.value) == digest(y.value) ==> x == y
    }

    /** What is assumed of two named documents: neither step that hashes them merges them. */
    ghost predicate Distinguishes(a: Json, b: Json) {
      FormsApart(a, b) && DigestsApart(a, b)
    }

    /** Two documents with one content hash are one document. */
    ghost predicate Separates(a: Json, b: Json) {
      ContentHash(a).Some? && ContentHash(a) == ContentHash(b) ==> a == b
    }
  }

  /** A content hash depends on the whole document, and exists exactly where the canonical form does. */
  lemma HashSeparates(h: Hashing, a: Json, b: Json)
    requires h.Distinguishes(a, b)
    ensures h.Separates(a, b)
    ensures h.ContentHash(a).Some? && h.ContentHash(a) == h.ContentHash(b) <==> h.canonicalize(a).Some? && a == b
  {
  }

  type HexText = s: string | forall i :: 0 <= i < |s| ==> IsHex(s[i])

  const EMPTY_DOCUMENT_HASH: ContentHash :=
    var a: HexText := "44136fa355b3678a";
    var b: HexText := "1146ad16f7e8649e";
    var c: HexText := "94fb4fc21fe77e83";
    var d: HexText := "10c060f61caaff8a";
    a + b + c + d

  datatype Entry = Entry(id: string, hash: ContentHash)

  /** `[[id, hash], ...]` */
  function PairsDocument(entries: seq<Entry>): Json {
    Array(seq(|entries|, i requires 0 <= i < |entries| => Array([String(entries[i].id), String(entries[i].hash)])))
  }

  ghost predicate SortedById(entries: seq<Entry>) {
    forall i, j :: 0 <= i < j < |entries| ==> LexLeq(entries[i].id, entries[j].id)
  }

  ghost predicate DistinctIds(entries: seq<Entry>) {
    forall i, j :: 0 <= i < j < |entries| ==> entries[i].id != entries[j].id
  }

  /** The entries are the map's pairs, each once, in some order. */
  ghost predicate Lists(entries: seq<Entry>, hashes: map<string, ContentHash>) {
    && DistinctIds(entries)
    && (forall e :: e in entries ==> e.id in hashes && hashes[e.id] == e.hash)
    && (forall id :: id in hashes ==> Entry(id, hashes[id]) in entries)
  }

  /** The map's pairs in id order. */
  function OrderedEntries(hashes: map<string, ContentHash>): seq<Entry> {
    var ids := KeysInOrder(hashes.Keys);
    seq(|ids|, i requires 0 <= i < |ids| => Entry(ids[i], hashes[ids[i]]))
  }

  /** The checksum a collection with these hashes has, independent of any row order. */
  function Checksum(h: Hashing, hashes: map<string, ContentHash>): Option<ContentHash> {
    h.ContentHash(PairsDocument(OrderedEntries(hashes)))
  }

  /** `ids` are the map's keys in code-point order. */
  ghost predicate KeysAscend(ids: seq<string>, hashes: map<string, ContentHash>) {
    && (forall id :: id in ids <==> id in hashes)
    && forall i, j :: 0 <= i < j < |ids| ==> Sooner(ids[i], ids[j])
  }

  /** One `[id, hash]` pair of the wire form, written out. */
  ghost predicate IsPair(v: Json, id: string, hash: string) {
    && v.Array? && |v.elements| == 2
    && At(v, [Index(0)]) == Some(String(id))
    && At(v, [Index(1)]) == Some(String(hash))
  }

  /** The document a checksum is taken over: one pair for each record, by id. */
  ghost predicate WireForm(doc: Json, ids: seq<string>, hashes: map<string, ContentHash>)
    requires KeysAscend(ids, hashes)
  {
    && doc.Array? && |doc.elements| == |ids|
    && forall i :: 0 <= i < |ids| ==> IsPair(doc.elements[i], ids[i], hashes[ids[i]])
  }

  lemma PairIsDetermined(v: Json, id: string, hash: string)
    requires IsPair(v, id, hash)
    ensures v == Array([String(id), String(hash)])
  {
    assert At(v, [Index(0)]) == At(v.elements[0], [Index(0)][1..]);
    assert At(v, [Index(1)]) == At(v.elements[1], [Index(1)][1..]);
    assert v.elements == [String(id), String(hash)];
  }

  /** The checksum is the hash of its wire form, and there is one wire form only. */
  lemma ChecksumIsWireForm(h: Hashing, hashes: map<string, ContentHash>, ids: seq<string>, doc: Json)
    requires KeysAscend(ids, hashes)
    ensures WireForm(doc, ids, hashes) <==> doc == PairsDocument(OrderedEntries(hashes))
    ensures WireForm(doc, ids, hashes) ==> Checksum(h, hashes) == h.ContentHash(doc)
  {
    SoonerAscends(ids);
    LexIsTotalOrder();
    AscendingUnique(LexLeq, ids, KeysInOrder(hashes.Keys));
    var pairs := PairsDocument(OrderedEntries(hashes));
    forall i | 0 <= i < |ids| ensures IsPair(pairs.elements[i], ids[i], hashes[ids[i]]) {
      var two := pairs.elements[i];
      assert two == Array([String(ids[i]), String(hashes[ids[i]])]);
      assert [Index(0)][1..] == [] && [Index(1)][1..] == [];
    }
    if WireForm(doc, ids, hashes) {
      forall i | 0 <= i < |ids| ensures doc.elements[i] == pairs.elements[i] {
        PairIsDetermined(doc.elements[i], ids[i], hashes[ids[i]]);
        PairIsDetermined(pairs.elements[i], ids[i], hashes[ids[i]]);
      }
      assert doc.elements == pairs.elements;
    }
  }

  /** Sorting by id leaves no choice, however unstable the sort. */
  lemma SortedListUnique(entries: seq<Entry>, hashes: map<string, ContentHash>)
    requires Lists(entries, hashes) && SortedById(entries)
    ensures entries == OrderedEntries(hashes)
  {
    var ids := seq(|entries|, i requires 0 <= i < |entries| => entries[i].id);
    forall id | id in ids ensures id in hashes.Keys {
      var i :| 0 <= i < |ids| && ids[i] == id;
      assert entries[i] in entries;
    }
    forall id | id in hashes.Keys ensures id in ids {
      var i :| 0 <= i < |entries| && entries[i] == Entry(id, hashes[id]);
      assert ids[i] == id;
    }
    LexIsTotalOrder();
    AscendingUnique(LexLeq, ids, KeysInOrder(hashes.Keys));
    forall i | 0 <= i < |entries| ensures entries[i] == OrderedEntries(hashes)[i] {
      assert entries[i] in entries && ids[i] == KeysInOrder(hashes.Keys)[i];
    }
  }

  /** Any reordering of a listing lists the same map. */
  lemma PermutationLists(p: seq<Entry>, entries: seq<Entry>, hashes: map<string, ContentHash>)
    requires Lists(entries, hashes) && multiset(p) == multiset(entries)
    ensures Lists(p, hashes)
  {
    PermutationDistinct(entries, p);
    forall i, j | 0 <= i < j < |p| ensures p[i].id != p[j].id {
      assert p[i] in p && p[j] in p;
    }
  }

  method Swap(pairs: array<Entry>, i: nat, j: nat)
    requires i <= j < pairs.Length
    modifies pairs
    ensures multiset(pairs[..]) == multiset(old(pairs[..]))
    ensures pairs[i] == old(pairs[j]) && pairs[j] == old(pairs[i])
    ensures forall k :: 0 <= k < pairs.Length && k != i && k != j ==> pairs[k] == old(pairs[k])
  {
    pairs[i], pairs[j] := pairs[j], pairs[i];
  }

  /** Sorts in place by id; entries with equal ids may end up in either order. */
  method SortById(pairs: array<Entry>)
    modifies pairs
    ensures SortedById(pairs[..])
    ensures multiset(pairs[..]) == multiset(old(pairs[..]))
  {
    for i := 0 to pairs.Length
      invariant multiset(pairs[..]) == multiset(old(pairs[..]))
      invariant forall a, b :: 0 <= a < i && a < b < pairs.Length ==> LexLeq(pairs[a].id, pairs[b].id)
    {
      var least := LeastFrom(pairs, i);
      Swap(pairs, i, least);
    }
  }

  method LeastFrom(pairs: array<Entry>, from: nat) returns (least: nat)
    requires from < pairs.Length
    ensures from <= least < pairs.Length
    ensures forall k :: from <= k < pairs.Length ==> LexLeq(pairs[least].id, pairs[k].id)
  {
    least := from;
    LexReflexive(pairs[from].id);
    for j := from + 1 to pairs.Length
      invariant from <= least < pairs.Length
      invariant forall k :: from <= k < j ==> LexLeq(pairs[least].id, pairs[k].id)
    {
      if !LexLeq(pairs[least].id, pairs[j].id) {
        LexTotal(pairs[least].id, pairs[j].id);
        LexReflexive(pairs[j].id);
        forall k | from <= k < j ensures LexLeq(pairs[j].id, pairs[k].id) {
          LexTransitive(pairs[j].id, pairs[least].id, pairs[k].id);
        }
        least := j;
      }
    }
  }

  /** The checksum of a collection, from its rows in whatever order they arrive. */
  method CollectionChecksum(h: Hashing, entries: seq<Entry>) returns (checksum: Option<ContentHash>)
    ensures forall hashes :: Lists(entries, hashes) ==> checksum == Checksum(h, hashes)
    ensures exists p :: multiset(p) == multiset(entries) && SortedById(p) && checksum == h.ContentHash(PairsDocument(p))
  {
    var pairs := new Entry[|entries|](i requires 0 <= i < |entries| => entries[i]);
    assert pairs[..] == entries;
    SortById(pairs);
    ghost var sorted := pairs[..];
    forall hashes | Lists(entries, hashes) ensures PairsDocument(sorted) == PairsDocument(OrderedEntries(hashes)) {
      PermutationLists(sorted, entries, hashes);
      SortedListUnique(sorted, hashes);
    }
    checksum := h.ContentHash(PairsDocument(pairs[..]));
  }

  /** A listing without its last entry lists the map without that id. */
  lemma ListsFewer(entries: seq<Entry>, hashes: map<string, ContentHash>)
    requires entries != [] && Lists(entries, hashes)
    ensures var last, init := entries[|entries| - 1], entries[..|entries| - 1];
      last.id in hashes && Lists(init, hashes - {last.id}) && |hashes - {last.id}| == |hashes| - 1
  {
    var last, init := entries[|entries| - 1], entries[..|entries| - 1];
    assert last in entries && entries == init + [last];
    var fewer := hashes - {last.id};
    forall e | e in init ensures e.id in fewer && fewer[e.id] == e.hash {
      assert e in entries;
    }
    forall id | id in fewer ensures Entry(id, fewer[id]) in init {
      assert Entry(id, hashes[id]) in entries;
    }
    assert fewer.Keys == hashes.Keys - {last.id};
    assert |hashes.Keys - {last.id}| == |hashes.Keys| - 1;
  }

  /** A listing has one entry for each id. */
  lemma {:induction false} ListingCounts(entries: seq<Entry>, hashes: map<string, ContentHash>)
    requires Lists(entries, hashes)
    ensures |entries| == |hashes|
    decreases |entries|
  {
    if id :| id in hashes {
      assert Entry(id, hashes[id]) in entries;
    }
    if entries == [] {
      assert hashes == map[];
    } else {
      ListsFewer(entries, hashes);
      ListingCounts(entries[..|entries| - 1], hashes - {entries[|entries| - 1].id});
    }
  }

  /** Reordering rows never moves the checksum. */
  lemma ChecksumIgnoresOrder(h: Hashing, p: seq<Entry>, q: seq<Entry>, sp: seq<Entry>, sq: seq<Entry>)
    requires DistinctIds(p) && multiset(p) == multiset(q)
    requires multiset(sp) == multiset(p) && SortedById(sp)
    requires multiset(sq) == multiset(q) && SortedById(sq)
    ensures sp == sq && h.ContentHash(PairsDocument(sp)) == h.ContentHash(PairsDocument(sq))
  {
    var hashes := HashesOf(p);
    PermutationLists(sp, p, hashes);
    PermutationLists(sq, p, hashes);
    SortedListUnique(sp, hashes);
    SortedListUnique(sq, hashes);
  }

  /** The map that distinct entries list. */
  function HashesOf(entries: seq<Entry>): (hashes: map<string, ContentHash>)
    requires DistinctIds(entries)
    ensures Lists(entries, hashes)
  {
    if entries == [] then map[]
    else
      var last := entries[|entries| - 1];
      var before := HashesOf(entries[..|entries| - 1]);
      assert entries == entries[..|entries| - 1] + [last];
      assert forall e :: e in entries[..|entries| - 1] ==> e.id != last.id;
      before[last.id := last.hash]
  }

  lemma PairsInjective(a: seq<Entry>, b: seq<Entry>)
    requires PairsDocument(a) == PairsDocument(b)
    ensures a == b
  {
    var da, db := PairsDocument(a).elements, PairsDocument(b).elements;
    assert |da| == |a| && |db| == |b|;
    forall i | 0 <= i < |a| ensures a[i] == b[i] {
      assert da[i] == db[i];
      assert da[i].elements[0] == db[i].elements[0] && da[i].elements[1] == db[i].elements[1];
    }
  }

  /** The pairs in id order determine the map. */
  lemma OrderedEntriesInjective(a: map<string, ContentHash>, b: map<string, ContentHash>)
    requires OrderedEntries(a) == OrderedEntries(b)
    ensures a == b
  {
    var ea, eb := OrderedEntries(a), OrderedEntries(b);
    var ka, kb := KeysInOrder(a.Keys), KeysInOrder(b.Keys);
    forall i | 0 <= i < |ka| ensures ka[i] == kb[i] && a[ka[i]] == b[ka[i]] {
      assert ea[i] == eb[i];
    }
    assert ka == kb;
    forall id | id in a ensures id in b && a[id] == b[id] {
      var i :| 0 <= i < |ka| && ka[i] == id;
    }
    forall id | id in b ensures id in a {
      assert id in kb;
    }
  }

  /** Equal checksums mean equal contents, if the two listings do not collide. */
  lemma ChecksumExact(h: Hashing, a: map<string, ContentHash>, b: map<string, ContentHash>)
    requires h.Distinguishes(PairsDocument(OrderedEntries(a)), PairsDocument(OrderedEntries(b)))
    requires Checksum(h, a).Some?
    ensures Checksum(h, a) == Checksum(h, b) <==> a == b
  {
    HashSeparates(h, PairsDocument(OrderedEntries(a)), PairsDocument(OrderedEntries(b)));
    if Checksum(h, a) == Checksum(h, b) {
      PairsInjective(OrderedEntries(a), OrderedEntries(b));
      OrderedEntriesInjective(a, b);
    }
  }
}
