/** Validators of collection-level representations, and the conditional requests that present them. */
module Cache {
  import opened Documents
  import opened Feed
  import opened Hashing
  import opened Records
  import opened Text
  import opened Wrappers

  /** Which slice of a collection a response is. */
  datatype Slice =
    | ListingSlice(filter: map<string, Json>, cursor: Option<nat>, limit: PageLimit)
    | FeedSlice(cursor: Option<nat>, limit: PageLimit)
    | ManifestSlice

  const QUOTE: string := "\""

  function Quoted(value: string): string {
    QUOTE + value + QUOTE
  }

  function Validator(kind: string, position: nat, cursor: Option<nat>, limit: Option<PageLimit>): string {
    match limit
    case Some(n) => Quoted(kind + "." + Decimal(position) + "." + Decimal(CursorOf(cursor)) + "." + Decimal(n))
    case None => Quoted(kind + "." + Decimal(position))
  }

  function TrimEndQuotes(s: string): string {
    if s != "" && s[|s| - 1] == '"' then TrimEndQuotes(s[..|s| - 1]) else s
  }

  /** The first sixteen hex digits of a filter's hash. */
  function Fingerprint(h: Hashing, filter: map<string, Json>): string {
    match h.ContentHash(Object(filter))
    case Some(hash) => hash[..16]
    case None => "unhashable"
  }

  function ListingValidator(
    h: Hashing, position: nat, cursor: Option<nat>, limit: PageLimit, filter: map<string, Json>): string
  {
    var base := Validator("l", position, cursor, Some(limit));
    if filter == map[] then base
    else TrimEndQuotes(base) + "." + Fingerprint(h, filter) + QUOTE
  }

  /** The `ETag` a slice carries while its collection is at `position`. */
  function Tag(h: Hashing, slice: Slice, position: nat): string {
    match slice
    case ListingSlice(filter, cursor, limit) => ListingValidator(h, position, cursor, limit, filter)
    case FeedSlice(cursor, limit) => Validator("c", position, cursor, Some(limit))
    case ManifestSlice => Validator("m", position, None, None)
  }

  // ----- Validators are exact -----

  /** A validator's fields, without the punctuation. */
  function TagParts(h: Hashing, slice: Slice, position: nat): seq<string> {
    match slice
    case ListingSlice(filter, cursor, limit) =>
      ["l", Decimal(position), Decimal(CursorOf(cursor)), Decimal(limit)]
      + if filter == map[] then [] else [Fingerprint(h, filter)]
    case FeedSlice(cursor, limit) => ["c", Decimal(position), Decimal(CursorOf(cursor)), Decimal(limit)]
    case ManifestSlice => ["m", Decimal(position)]
  }

  lemma JoinFour(a: string, b: string, c: string, d: string)
    ensures Join([a, b, c, d], '.') == a + "." + b + "." + c + "." + d
  {
    assert [a, b, c, d][1..] == [b, c, d] && [b, c, d][1..] == [c, d] && [c, d][1..] == [d];
    assert Join([d], '.') == d;
    assert Join([c, d], '.') == c + ['.'] + d;
    assert Join([b, c, d], '.') == b + ['.'] + (c + ['.'] + d);
    assert Join([a, b, c, d], '.') == a + ['.'] + (b + ['.'] + (c + ['.'] + d));
  }

  lemma JoinFive(a: string, b: string, c: string, d: string, e: string)
    ensures Join([a, b, c, d] + [e], '.') == a + "." + b + "." + c + "." + d + "." + e
  {
    var parts := [a, b, c, d] + [e];
    assert parts[1..] == [b, c, d, e];
    JoinFour(b, c, d, e);
    assert a + "." + b + "." + c + "." + d + "." + e == a + ['.'] + (b + "." + c + "." + d + "." + e);
  }

  lemma TrimEndQuotesOnce(s: string)
    requires s != "" && s[|s| - 1] != '"'
    ensures TrimEndQuotes(s + QUOTE) == s
  {
    assert (s + QUOTE)[..|s|] == s;
  }

  lemma TagIsJoined(h: Hashing, slice: Slice, position: nat)
    ensures Tag(h, slice, position) == Quoted(Join(TagParts(h, slice, position), '.'))
  {
    match slice
    case ListingSlice(filter, cursor, limit) =>
      var p, c, l := Decimal(position), Decimal(CursorOf(cursor)), Decimal(limit);
      var inner := "l" + "." + p + "." + c + "." + l;
      if filter == map[] {
        JoinFour("l", p, c, l);
        assert TagParts(h, slice, position) == ["l", p, c, l];
      } else {
        assert IsDigit(l[|l| - 1]) && inner[|inner| - 1] == l[|l| - 1];
        TrimEndQuotesOnce(QUOTE + inner);
        JoinFive("l", p, c, l, Fingerprint(h, filter));
        var mark := Fingerprint(h, filter);
        assert QUOTE + inner + "." + mark + QUOTE == QUOTE + (inner + "." + mark) + QUOTE;
      }
    case FeedSlice(cursor, limit) => JoinFour("c", Decimal(position), Decimal(CursorOf(cursor)), Decimal(limit));
    case ManifestSlice => assert ["m", Decimal(position)][1..] == [Decimal(position)];
  }

  lemma FingerprintIsPlain(h: Hashing, filter: map<string, Json>)
    ensures forall c :: c in Fingerprint(h, filter) ==> c != '.' && c != ',' && c != '"'
  {
    match h.ContentHash(Object(filter))
    case Some(hash) => assert forall i :: 0 <= i < 16 ==> IsHex(hash[i]);
    case None =>
  }

  lemma DecimalIsPlain(n: nat)
    ensures forall c :: c in Decimal(n) ==> c != '.' && c != ',' && c != '"'
  {
    assert forall c :: IsDigit(c) ==> c != '.' && c != ',' && c != '"';
  }

  lemma TagPartsPlain(h: Hashing, slice: Slice, position: nat)
    ensures forall p :: p in TagParts(h, slice, position) ==> '.' !in p && ',' !in p && '"' !in p
  {
    DecimalIsPlain(position);
    match slice
    case ListingSlice(filter, cursor, limit) =>
      DecimalIsPlain(CursorOf(cursor));
      DecimalIsPlain(limit);
      FingerprintIsPlain(h, filter);
    case FeedSlice(cursor, limit) =>
      DecimalIsPlain(CursorOf(cursor));
      DecimalIsPlain(limit);
    case ManifestSlice =>
  }

  /** The same slice: an absent cursor and cursor zero read the same rows. */
  ghost predicate SameSlice(a: Slice, b: Slice) {
    match (a, b)
    case (ListingSlice(f, c, l), ListingSlice(g, d, m)) => f == g && CursorOf(c) == CursorOf(d) && l == m
    case (FeedSlice(c, l), FeedSlice(d, m)) => CursorOf(c) == CursorOf(d) && l == m
    case (ManifestSlice, ManifestSlice) => true
    case _ => false
  }

  /**
   * What is assumed of two different filters: at most one has no canonical form, and if both have one
   * the digests of the two differ within their first sixteen digits.
   */
  ghost predicate PrefixesApart(h: Hashing, f: map<string, Json>, g: map<string, Json>) {
    var x, y := h.canonicalize(Object(f)), h.canonicalize(Object(g));
    f != g ==>
      (x.Some? || y.Some?) && (x.Some? && y.Some? ==> h.digest(x.value)[..16] != h.digest(y.value)[..16])
  }

  /** The filters of two listings are told apart. */
  ghost predicate FiltersApart(h: Hashing, a: Slice, b: Slice) {
    a.ListingSlice? && b.ListingSlice? ==> PrefixesApart(h, a.filter, b.filter)
  }

  /** Different filters have different fingerprints. */
  lemma FingerprintsSeparate(h: Hashing, f: map<string, Json>, g: map<string, Json>)
    requires PrefixesApart(h, f, g)
    ensures Fingerprint(h, f) == Fingerprint(h, g) <==> f == g
  {
    assert forall filter :: |Fingerprint(h, filter)| == if h.canonicalize(Object(filter)).Some? then 16 else 10;
  }

  /** Two validators are equal exactly when they name the same slice at the same position. */
  lemma ValidatorsAreExact(h: Hashing, a: Slice, p: nat, b: Slice, q: nat)
    requires FiltersApart(h, a, b)
    ensures Tag(h, a, p) == Tag(h, b, q) <==> p == q && SameSlice(a, b)
  {
    var x, y := TagParts(h, a, p), TagParts(h, b, q);
    TagIsJoined(h, a, p);
    TagIsJoined(h, b, q);
    if Tag(h, a, p) == Tag(h, b, q) {
      var s, t := Join(x, '.'), Join(y, '.');
      assert Quoted(s)[1..|Quoted(s)| - 1] == s && Quoted(t)[1..|Quoted(t)| - 1] == t;
      TagPartsPlain(h, a, p);
      TagPartsPlain(h, b, q);
      SplitJoin(x, '.');
      SplitJoin(y, '.');
      PartsAreExact(h, a, p, b, q);
    }
  }

  lemma PartsAreExact(h: Hashing, a: Slice, p: nat, b: Slice, q: nat)
    requires FiltersApart(h, a, b)
    requires TagParts(h, a, p) == TagParts(h, b, q)
    ensures p == q && SameSlice(a, b)
  {
    var x, y := TagParts(h, a, p), TagParts(h, b, q);
    assert x[0] == y[0] && x[1] == y[1] && |x| == |y|;
    assert "l" != "c" && "l" != "m" && "c" != "m" by {
      assert "l"[0] != "c"[0] && "l"[0] != "m"[0] && "c"[0] != "m"[0];
    }
    DecimalInjective(p, q);
    match (a, b)
    case (ListingSlice(f, c, l), ListingSlice(g, d, m)) =>
      assert x[2] == y[2] && x[3] == y[3];
      DecimalInjective(CursorOf(c), CursorOf(d));
      DecimalInjective(l, m);
      if |x| == 5 {
        assert x[4] == y[4];
        FingerprintsSeparate(h, f, g);
      }
    case (FeedSlice(c, l), FeedSlice(d, m)) =>
      assert x[2] == y[2] && x[3] == y[3];
      DecimalInjective(CursorOf(c), CursorOf(d));
      DecimalInjective(l, m);
    case _ =>
  }

  // ----- Conditional requests -----

  function StripWeak(etag: string): string {
    if |etag| >= 2 && etag[..2] == "W/" then etag[2..] else etag
  }

  /** Whether the presented `If-None-Match` value covers `etag`. */
  predicate IsFresh(header: Option<string>, etag: string) {
    match header
    case None => false
    case Some(value) =>
      exists candidate :: candidate in Split(value, ',')
        && (Trim(candidate) == "*" || StripWeak(Trim(candidate)) == StripWeak(etag))
  }

  /** One entry of a header list: a quoted validator, perhaps marked weak, with optional whitespace. */
  datatype Presented = Presented(before: string, weak: bool, tag: string, after: string)

  /** A quoted text without separators inside, as every validator is. */
  ghost predicate Quotation(tag: string) {
    |tag| >= 2 && tag[0] == '"' && tag[|tag| - 1] == '"' && ',' !in tag
  }

  ghost predicate WellPresented(p: Presented) {
    Quotation(p.tag) && Blank(p.before) && Blank(p.after)
  }

  function Shown(p: Presented): string {
    p.before + ((if p.weak then "W/" else "") + p.tag) + p.after
  }

  function ShownList(list: seq<Presented>): seq<string> {
    seq(|list|, i requires 0 <= i < |list| => Shown(list[i]))
  }

  lemma {:induction false} JoinKeeps(parts: seq<string>, sep: char, c: char)
    requires parts != [] && c != sep && forall p :: p in parts ==> c !in p
    ensures c !in Join(parts, sep)
  {
    if |parts| > 1 {
      JoinKeeps(parts[1..], sep, c);
    }
  }

  lemma TagIsQuotation(h: Hashing, slice: Slice, position: nat)
    ensures Quotation(Tag(h, slice, position))
  {
    TagIsJoined(h, slice, position);
    TagPartsPlain(h, slice, position);
    JoinKeeps(TagParts(h, slice, position), '.', ',');
  }

  /** A list entry is read back as the validator it shows, weak or not. */
  lemma EntryReadsBack(p: Presented)
    requires WellPresented(p)
    ensures ',' !in Shown(p)
    ensures Trim(Shown(p)) != "*" && StripWeak(Trim(Shown(p))) == p.tag
  {
    var core := (if p.weak then "W/" else "") + p.tag;
    assert !IsSpace('"') && !IsSpace('W') && !IsSpace(',');
    assert core[0] == (if p.weak then 'W' else '"') && core[|core| - 1] == '"';
    TrimPadded(p.before, core, p.after);
    assert Shown(p) == p.before + core + p.after;
    if p.weak {
      assert core[..2] == "W/" && core[2..] == p.tag;
    } else {
      assert core == p.tag && core[..2][0] == '"';
    }
  }

  /** On any list of quoted validators, weak or strong, freshness is membership. */
  lemma FreshIsMembership(list: seq<Presented>, etag: string)
    requires list != [] && (forall p :: p in list ==> WellPresented(p)) && Quotation(etag)
    ensures IsFresh(Some(Join(ShownList(list), ',')), etag) <==> exists p :: p in list && p.tag == etag
  {
    var shown := ShownList(list);
    forall s | s in shown ensures ',' !in s {
      var i :| 0 <= i < |shown| && shown[i] == s;
      EntryReadsBack(list[i]);
    }
    SplitJoin(shown, ',');
    assert etag[..2][0] == '"' && StripWeak(etag) == etag;
    if p :| p in list && p.tag == etag {
      EntryReadsBack(p);
      var i :| 0 <= i < |list| && list[i] == p;
      assert shown[i] in shown;
    }
    if IsFresh(Some(Join(shown, ',')), etag) {
      var s :| s in shown && (Trim(s) == "*" || StripWeak(Trim(s)) == etag);
      var i :| 0 <= i < |shown| && shown[i] == s;
      EntryReadsBack(list[i]);
      assert list[i] in list;
    }
  }

  /** A star covers every validator, wherever it stands in the list and whatever surrounds it. */
  lemma StarIsFresh(entries: seq<string>, k: nat, before: string, after: string, etag: string)
    requires k < |entries| && entries[k] == before + "*" + after && Blank(before) && Blank(after)
    requires forall e :: e in entries ==> ',' !in e
    ensures IsFresh(Some(Join(entries, ',')), etag)
  {
    SplitJoin(entries, ',');
    TrimPadded(before, "*", after);
    assert entries[k] in entries;
  }

  /** Whether the current validator is weak makes no difference. */
  lemma FreshIgnoresWeakness(header: Option<string>, etag: string)
    requires Quotation(etag)
    ensures IsFresh(header, "W/" + etag) <==> IsFresh(header, etag)
  {
    var weak := "W/" + etag;
    assert weak[..2] == "W/" && weak[2..] == etag && etag[..2][0] == '"';
    assert StripWeak(weak) == etag && StripWeak(etag) == etag;
  }

  /** A single presented validator is fresh exactly when it is the one asked for. */
  lemma SingleIsFresh(held: string, etag: string)
    requires Quotation(held) && Quotation(etag)
    ensures IsFresh(Some(held), etag) <==> held == etag
  {
    var p := Presented("", false, held, "");
    assert Shown(p) == held;
    assert ShownList([p]) == [held];
    FreshIsMembership([p], etag);
    assert p in [p] && p.tag == held;
  }
}
