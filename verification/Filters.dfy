/** Query filters: equality on declared fields, typed by the schema. */
module Filters {
  import opened Documents
  import Feed
  import Ident
  import Ordering
  import opened Projection
  import ProjectionLaws
  import Records
  import opened Schema
  import opened Text
  import opened Wrappers

  datatype FilterError =
    | UnknownField(field: string)
    | NotFilterable(field: string)
    | NotTheDeclaredType(field: string, expected: string, value: string)
    | Duplicate(field: string)

  /** One `field = value` of a query string. */
  datatype Pair = Pair(field: string, value: string)

  /** The validated equality filters, by field. */
  type Filter = map<string, Json>

  /** How a finite double is read from text, as its bits. */
  type FloatReader = string -> Option<nat>

  const MIN_I64: int := -0x8000_0000_0000_0000
  const MAX_I64: int := 0x7FFF_FFFF_FFFF_FFFF

  /** An optional sign and at least one digit, within 64 bits. */
  function ParseInteger(value: string): (r: Option<int>)
    ensures r.Some? ==> MIN_I64 <= r.value <= MAX_I64
  {
    var signed := value != "" && (value[0] == '-' || value[0] == '+');
    var digits := if signed then value[1..] else value;
    if digits == "" || exists c :: c in digits && !IsDigit(c) then None
    else
      var n := if value[0] == '-' then -DecimalValue(digits) else DecimalValue(digits);
      if MIN_I64 <= n <= MAX_I64 then Some(n) else None
  }

  lemma {:induction false} DecimalIsDigits(n: nat)
    ensures Decimal(n) != "" && forall c :: c in Decimal(n) ==> IsDigit(c)
  {
    if n >= 10 {
      DecimalIsDigits(n / 10);
    }
  }

  /** An integer written in decimal is read back as itself. */
  lemma IntegerRoundTrip(i: int)
    requires MIN_I64 <= i <= MAX_I64
    ensures ParseInteger(SignedDecimal(i)) == Some(i)
  {
    var n: nat := if i < 0 then -i else i;
    DecimalIsDigits(n);
    DecimalRoundTrip(n);
    assert Decimal(n)[0] in Decimal(n);
    if i < 0 {
      assert ("-" + Decimal(n))[1..] == Decimal(n);
    }
  }

  /** A query-string value as the field's declared type. */
  function Coerce(floats: FloatReader, spec: FieldSpec, pair: Pair): Result<Json, FilterError> {
    var mismatch := NotTheDeclaredType(pair.field, spec.Kind(), pair.value);
    match spec
    case ScalarSpec(StringType, _) => Success(String(pair.value))
    case ScalarSpec(AnyType, _) => Success(String(pair.value))
    case ScalarSpec(BooleanType, _) =>
      if pair.value == "true" then Success(Bool(true))
      else if pair.value == "false" then Success(Bool(false))
      else Failure(mismatch)
    case ScalarSpec(NumberType, _) =>
      (match ParseInteger(pair.value)
       case Some(i) => Success(Number(Integer(i)))
       case None =>
         match floats(pair.value)
         case Some(bits) => Success(Number(Float(bits)))
         case None => Failure(mismatch))
    case ObjectSpec(_) => Failure(mismatch)
    case ArraySpec(_) => Failure(mismatch)
  }

  // ----- Which filters are accepted -----

  ghost predicate Declared(schema: CollectionSchema, field: string) {
    Ident.ValidFieldName(field) && field in schema.fields
  }

  ghost predicate Offered(schema: CollectionSchema, field: string) {
    Declared(schema, field) && field in schema.filters
  }

  ghost predicate Typed(floats: FloatReader, schema: CollectionSchema, pair: Pair) {
    Offered(schema, pair.field) && Coerce(floats, schema.fields[pair.field], pair).Success?
  }

  ghost predicate DistinctFields(pairs: seq<Pair>) {
    forall i, j :: 0 <= i < j < |pairs| ==> pairs[i].field != pairs[j].field
  }

  /** Every pair names an offered field once and fits its type. */
  ghost predicate Acceptable(floats: FloatReader, schema: CollectionSchema, pairs: seq<Pair>) {
    DistinctFields(pairs) && forall p :: p in pairs ==> Typed(floats, schema, p)
  }

  ghost predicate Pairs(floats: FloatReader, schema: CollectionSchema, pair: Pair, filter: Filter) {
    && pair.field in filter && pair.field in schema.fields
    && Coerce(floats, schema.fields[pair.field], pair) == Success(filter[pair.field])
  }

  ghost predicate Named(pairs: seq<Pair>, field: string) {
    exists p :: p in pairs && p.field == field
  }

  /** The filter holds exactly the pairs, typed. */
  ghost predicate Collects(floats: FloatReader, schema: CollectionSchema, pairs: seq<Pair>, filter: Filter) {
    (forall p :: p in pairs ==> Pairs(floats, schema, p, filter)) && (forall k :: k in filter <==> Named(pairs, k))
  }

  /** Every refusal names something that is really wrong with the query. */
  ghost predicate Faults(floats: FloatReader, schema: CollectionSchema, pairs: seq<Pair>, error: FilterError) {
    match error
    case UnknownField(f) => Named(pairs, f) && !Declared(schema, f)
    case NotFilterable(f) => Named(pairs, f) && Declared(schema, f) && !Offered(schema, f)
    case NotTheDeclaredType(f, expected, value) =>
      && Pair(f, value) in pairs && Offered(schema, f) && expected == schema.fields[f].Kind()
      && Coerce(floats, schema.fields[f], Pair(f, value)).Failure?
    case Duplicate(f) => exists i, j :: 0 <= i < j < |pairs| && pairs[i].field == f && pairs[j].field == f
  }

  /** Validates raw pairs against a schema. */
  method ParseFilter(
    floats: FloatReader, schema: CollectionSchema, pairs: seq<Pair>)
    returns (r: Result<Filter, FilterError>)
    ensures r.Success? <==> Acceptable(floats, schema, pairs)
    ensures r.Success? ==> Collects(floats, schema, pairs, r.value)
    ensures r.Failure? ==> Faults(floats, schema, pairs, r.error)
  {
    var filters: Filter := map[];
    for i := 0 to |pairs|
      invariant Acceptable(floats, schema, pairs[..i])
      invariant Collects(floats, schema, pairs[..i], filters)
    {
      var pair := pairs[i];
      assert pair in pairs;
      assert pairs[..i + 1] == pairs[..i] + [pair];
      var name := Ident.NewFieldName(pair.field);
      if name.Failure? || pair.field !in schema.fields {
        return Failure(FilterError.UnknownField(pair.field));
      }
      if name.value !in schema.filters {
        return Failure(NotFilterable(pair.field));
      }
      var value := Coerce(floats, schema.fields[pair.field], pair);
      if value.Failure? {
        return Failure(value.error);
      }
      if pair.field in filters {
        assert Named(pairs[..i], pair.field);
        return Failure(FilterError.Duplicate(pair.field));
      }
      filters := filters[pair.field := value.value];
      CollectsOneMore(floats, schema, pairs[..i], pair, filters);
    }
    assert pairs[..|pairs|] == pairs;
    return Success(filters);
  }

  lemma CollectsOneMore(floats: FloatReader, schema: CollectionSchema, pairs: seq<Pair>, pair: Pair, filter: Filter)
    requires !Named(pairs, pair.field) && Pairs(floats, schema, pair, filter)
    requires exists before: Filter ::
      Collects(floats, schema, pairs, before) && filter == before[pair.field := filter[pair.field]]
    ensures Collects(floats, schema, pairs + [pair], filter)
  {
    var before: Filter :| Collects(floats, schema, pairs, before) && filter == before[pair.field := filter[pair.field]];
    forall p | p in pairs + [pair] ensures Pairs(floats, schema, p, filter) {
      assert p == pair || p in pairs;
    }
    forall k ensures k in filter <==> Named(pairs + [pair], k) {
      assert Named(pairs, k) <==> k in before;
      assert pair in pairs + [pair];
      assert forall p :: p in pairs ==> p in pairs + [pair];
      assert forall p :: p in pairs + [pair] ==> p == pair || p in pairs;
    }
  }

  /** The order of the pairs decides neither acceptance nor the filter. */
  lemma FilterIgnoresOrder(
    floats: FloatReader, schema: CollectionSchema, pairs: seq<Pair>, reordered: seq<Pair>, a: Filter, b: Filter)
    requires multiset(reordered) == multiset(pairs) && Acceptable(floats, schema, pairs)
    requires Collects(floats, schema, pairs, a) && Collects(floats, schema, reordered, b)
    ensures Acceptable(floats, schema, reordered) && a == b
  {
    Ordering.PermutationDistinct(pairs, reordered);
    forall i, j | 0 <= i < j < |reordered| ensures reordered[i].field != reordered[j].field {
      assert reordered[i] in reordered && reordered[j] in reordered;
    }
    forall k ensures k in a <==> k in b {
      assert Named(pairs, k) <==> Named(reordered, k);
    }
    forall k | k in a ensures a[k] == b[k] {
      assert Named(pairs, k);
      var p :| p in pairs && p.field == k;
      assert Pairs(floats, schema, p, a) && Pairs(floats, schema, p, b);
    }
  }

  // ----- What a value says, and what a filter finds -----

  /** A scalar as a query string writes it. */
  function TextOf(v: Json): Option<string> {
    match v
    case String(text) => Some(text)
    case Bool(flag) => Some(if flag then "true" else "false")
    case Number(Integer(i)) => if MIN_I64 <= i <= MAX_I64 then Some(SignedDecimal(i)) else None
    case _ => None
  }

  /** The values a field's filter can ask for: an unconstrained scalar compares as text. */
  ghost predicate Askable(spec: FieldSpec, v: Json) {
    HasShape(v, spec) && (spec.ScalarSpec? && spec.ty.AnyType? ==> v.String?)
  }

  /** Every value that can be written is read back as itself from its text. */
  lemma CoerceReadsBack(floats: FloatReader, spec: FieldSpec, field: string, v: Json)
    requires Askable(spec, v) && TextOf(v).Some?
    ensures Coerce(floats, spec, Pair(field, TextOf(v).value)) == Success(v)
  {
    match v
    case Number(Integer(i)) => IntegerRoundTrip(i);
    case Bool(_) => assert "true"[0] != "false"[0];
    case _ =>
  }

  /** The sign and the digits of an integer's text. */
  ghost predicate Spells(value: string, sign: string, digits: string) {
    sign in ["", "+", "-"] && digits != "" && (forall c :: c in digits ==> IsDigit(c)) && value == sign + digits
  }

  function Signed(sign: string, digits: string): int {
    if sign == "-" then -DecimalValue(digits) else DecimalValue(digits)
  }

  lemma OneReading(value: string, sign: string, digits: string)
    requires Spells(value, sign, digits)
    ensures value != "" && (value[0] == '-' <==> sign == "-") && (value[0] == '+' <==> sign == "+")
    ensures sign != "" ==> sign == value[..1] && digits == value[1..]
    ensures sign == "" ==> digits == value
  {
    assert digits[0] in digits;
    if sign == "" {
      assert value == digits;
    } else {
      assert |sign| == 1 && value[0] == sign[0] && value[1..] == digits && value[..1] == sign;
    }
  }

  lemma SpelledIsParsed(value: string, sign: string, digits: string)
    requires Spells(value, sign, digits)
    ensures var i := Signed(sign, digits);
      ParseInteger(value) == if MIN_I64 <= i <= MAX_I64 then Some(i) else None
  {
    OneReading(value, sign, digits);
    assert sign == "" ==> digits[0] in digits;
  }

  lemma ParsedIsSpelled(value: string) returns (sign: string, digits: string)
    requires ParseInteger(value).Some?
    ensures Spells(value, sign, digits)
  {
    if value[0] == '-' || value[0] == '+' {
      sign, digits := [value[0]], value[1..];
      assert sign == "+" || sign == "-";
    } else {
      sign, digits := "", value;
    }
  }

  /** Exactly the signed digit texts within 64 bits are integers, leading zeros included. */
  lemma IntegerTextIsExact(value: string, i: int)
    ensures ParseInteger(value) == Some(i) <==>
      MIN_I64 <= i <= MAX_I64 && exists sign, digits :: Spells(value, sign, digits) && i == Signed(sign, digits)
  {
    if ParseInteger(value) == Some(i) {
      var sign, digits := ParsedIsSpelled(value);
      SpelledIsParsed(value, sign, digits);
    }
    if sign, digits :| Spells(value, sign, digits) && i == Signed(sign, digits) {
      SpelledIsParsed(value, sign, digits);
    }
  }

  /** A value that was read has the field's shape and is what the text says. */
  lemma CoerceIsExact(floats: FloatReader, spec: FieldSpec, pair: Pair)
    requires Coerce(floats, spec, pair).Success?
    ensures var v := Coerce(floats, spec, pair).value;
      && Askable(spec, v)
      && (v.String? || v.Bool? ==> TextOf(v) == Some(pair.value))
      && (v.Number? && v.numeral.Integer? ==>
            exists sign, digits :: Spells(pair.value, sign, digits) && v.numeral.value == Signed(sign, digits))
      && (v.Number? && v.numeral.Float? ==> floats(pair.value) == Some(v.numeral.bits))
  {
    var v := Coerce(floats, spec, pair).value;
    if v.Number? && v.numeral.Integer? {
      IntegerTextIsExact(pair.value, v.numeral.value);
    }
  }

  /** The value of a pair, as its field's declared type. */
  function ValueOf(floats: FloatReader, schema: CollectionSchema, pair: Pair): Option<Json> {
    if pair.field !in schema.fields then None
    else match Coerce(floats, schema.fields[pair.field], pair)
      case Success(v) => Some(v)
      case Failure(_) => None
  }

  /** Every pair's value stands in the payload under the pair's field. */
  ghost predicate CarriesAll(floats: FloatReader, schema: CollectionSchema, pairs: seq<Pair>, payload: Json) {
    payload.Object? && forall p :: p in pairs ==>
      ValueOf(floats, schema, p).Some? && At(payload, [Key(p.field)]) == ValueOf(floats, schema, p)
  }

  lemma HasAllIsCarriesAll(
    floats: FloatReader, schema: CollectionSchema, pairs: seq<Pair>, filter: Filter, payload: Json)
    requires Collects(floats, schema, pairs, filter)
    ensures Feed.HasAll(payload, filter) <==> CarriesAll(floats, schema, pairs, payload)
  {
    forall p | p in pairs ensures p.field in filter && ValueOf(floats, schema, p) == Some(filter[p.field]) {
      assert Pairs(floats, schema, p, filter);
    }
    if CarriesAll(floats, schema, pairs, payload) {
      forall k | k in filter ensures At(payload, [Key(k)]) == Some(filter[k]) {
        assert Named(pairs, k);
        var p :| p in pairs && p.field == k;
        assert ValueOf(floats, schema, p) == Some(filter[k]);
      }
    }
  }

  /**
   * What a filtered listing shows, from the query that was sent: the live records beyond the cursor, as
   * far as the page reaches, whose payload has at each field asked for the value asked for.
   */
  lemma FilteredPageIsExact(
    floats: FloatReader, schema: CollectionSchema, pairs: seq<Pair>, filter: Filter, size: Feed.TextSize,
    rows: Records.Rows, after: Option<nat>, budget: Records.PageBudget, s: Records.StoredRecord)
    requires Collects(floats, schema, pairs, filter) && Feed.FeedPositions(rows)
    ensures var page := Feed.ReadPage(size, rows, Feed.Listing(filter), after, budget);
      s in page.records
      <==> Feed.WithinReach(rows, after, page, s) && s.row.IsLive() && CarriesAll(floats, schema, pairs, s.row.payload)
  {
    Feed.ListingIsExact(size, rows, filter, after, budget);
    HasAllIsCarriesAll(floats, schema, pairs, filter, s.row.payload);
  }

  // ----- Filters and projection -----

  /** A filter's values are ones the schema would release. */
  ghost predicate FitsSchema(schema: CollectionSchema, filter: Filter) {
    forall k :: k in filter ==>
      k in schema.fields && schema.fields[k].ScalarSpec? && Accepts(schema.fields[k].ty, filter[k])
  }

  lemma AcceptedFits(floats: FloatReader, schema: CollectionSchema, pairs: seq<Pair>, filter: Filter)
    requires Collects(floats, schema, pairs, filter)
    ensures FitsSchema(schema, filter)
  {
    forall k | k in filter ensures
      k in schema.fields && schema.fields[k].ScalarSpec? && Accepts(schema.fields[k].ty, filter[k])
    {
      assert Named(pairs, k);
      var p :| p in pairs && p.field == k;
      assert Pairs(floats, schema, p, filter);
    }
  }

  /** An accepted filter, as a payload, is released whole. */
  lemma FilterSurvivesProjection(floats: FloatReader, schema: CollectionSchema, pairs: seq<Pair>, filter: Filter)
    requires Collects(floats, schema, pairs, filter)
    ensures Project(Released(schema), Object(filter)) == Some(Object(filter))
    ensures Drops(Released(schema), Object(filter), []) == []
  {
    AcceptedFits(floats, schema, pairs, filter);
    assert ProjectMembers(Released(schema), filter) == filter;
    ProjectionLaws.CompleteIffUnchanged(Released(schema), Object(filter), []);
  }

  /** A filter finds a record by its released payload exactly when it would by the raw one. */
  lemma FilterCommutesWithProjection(
    floats: FloatReader, schema: CollectionSchema, pairs: seq<Pair>, filter: Filter, payload: Json)
    requires Collects(floats, schema, pairs, filter) && payload.Object?
    ensures Feed.Contains(Project(Released(schema), payload).value, filter) <==> Feed.Contains(payload, filter)
    ensures Feed.Contains(payload, filter) <==> CarriesAll(floats, schema, pairs, payload)
  {
    Feed.ContainsIsHasAll(payload, filter);
    HasAllIsCarriesAll(floats, schema, pairs, filter, payload);
    AcceptedFits(floats, schema, pairs, filter);
    var kept := ProjectMembers(Released(schema), payload.members);
    forall k | k in filter
      ensures (k in kept && kept[k] == filter[k]) <==> (k in payload.members && payload.members[k] == filter[k])
    {
      if k in payload.members {
        var spec, v := schema.fields[k], payload.members[k];
        assert Project(spec, v) == if Accepts(spec.ty, v) then Some(v) else None;
      }
    }
  }
}
