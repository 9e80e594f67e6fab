/** Collection definitions: the fields released, and the filters and sort keys offered on them. */
module Schema {
  import opened Documents
  import opened Ident
  import opened Ordering
  import opened Text
  import opened Wrappers

  datatype ScalarType = StringType | NumberType | BooleanType | AnyType

  predicate Accepts(ty: ScalarType, v: Json) {
    match ty
    case StringType => v.String?
    case NumberType => v.Number?
    case BooleanType => v.Bool?
    case AnyType => !(v.Object? || v.Array?)
  }

  /** The shapes a field can be given; each says what every value below it must be. */
  datatype FieldSpec =
    | ScalarSpec(ty: ScalarType, index: bool)
    | ObjectSpec(allow: map<string, FieldSpec>)
    | ArraySpec(items: FieldSpec)
  {
    predicate IsIndexed() {
      ScalarSpec? && index
    }

    /** The kind a mismatch reports as expected. */
    function Kind(): string {
      match this
      case ScalarSpec(StringType, _) => "string"
      case ScalarSpec(NumberType, _) => "number"
      case ScalarSpec(BooleanType, _) => "boolean"
      case ScalarSpec(AnyType, _) => "scalar"
      case ObjectSpec(_) => "object"
      case ArraySpec(_) => "array"
    }
  }

  /** No object anywhere in the specification has an empty allow list. */
  ghost predicate NoWildcard(spec: FieldSpec) {
    match spec
    case ScalarSpec(_, _) => true
    case ObjectSpec(allow) => allow != map[] && forall k :: k in allow ==> NoWildcard(allow[k])
    case ArraySpec(items) => NoWildcard(items)
  }

  /** Every declared key, at every level, is a valid field name. */
  ghost predicate WellNamed(spec: FieldSpec) {
    match spec
    case ScalarSpec(_, _) => true
    case ObjectSpec(allow) => forall k :: k in allow ==> ValidFieldName(k) && WellNamed(allow[k])
    case ArraySpec(items) => WellNamed(items)
  }

  /** In iteration order, the first object without an allow list is reached by `path`. */
  ghost predicate FirstEmptyAt(spec: FieldSpec, prefix: string, path: string) {
    match spec
    case ScalarSpec(_, _) => false
    case ObjectSpec(allow) =>
      if allow == map[] then path == prefix
      else exists k :: k in allow && FirstEmptyAt(allow[k], prefix + "." + k, path) && CleanBefore(allow, k)
    case ArraySpec(items) => FirstEmptyAt(items, prefix + "[]", path)
  }

  /** Nothing under the keys before this one lacks an allow list. */
  ghost predicate CleanBefore(specs: map<string, FieldSpec>, k: string) {
    forall j :: j in specs && Precedes(j, k) ==> NoWildcard(specs[j])
  }

  /** Looks for an object without an allow list, and reports the first by its path. */
  function Validate(spec: FieldSpec, path: string): (r: Option<string>)
    ensures r.None? <==> NoWildcard(spec)
    ensures r.Some? ==> FirstEmptyAt(spec, path, r.value)
    decreases spec, 0
  {
    match spec
    case ScalarSpec(_, _) => None
    case ObjectSpec(allow) =>
      if allow == map[] then Some(path)
      else
        var keys := KeysInOrder(allow.Keys);
        var r := ValidateMembers(spec, keys, path);
        FirstIsFirst(allow, path, r);
        r
    case ArraySpec(items) => Validate(items, path + "[]")
  }

  function ValidateMembers(spec: FieldSpec, keys: seq<string>, path: string): (r: Option<string>)
    requires spec.ObjectSpec? && forall k :: k in keys ==> k in spec.allow
    ensures r.None? <==> forall k :: k in keys ==> NoWildcard(spec.allow[k])
    ensures r.Some? ==> exists i: nat :: FirstUnder(spec.allow, keys, path, r.value, i)
    decreases spec, 0, |keys|
  {
    if keys == [] then None
    else
      assert forall k :: k in keys <==> k == keys[0] || k in keys[1..];
      match Validate(spec.allow[keys[0]], path + "." + keys[0])
      case Some(found) =>
        assert FirstUnder(spec.allow, keys, path, found, 0);
        Some(found)
      case None =>
        var r := ValidateMembers(spec, keys[1..], path);
        FirstUnderLater(spec.allow, keys, path, r);
        r
  }

  /** The first problem lies under the `i`-th of these keys. */
  ghost predicate FirstUnder(allow: map<string, FieldSpec>, keys: seq<string>, prefix: string, path: string, i: nat) {
    && i < |keys| && (forall k :: k in keys ==> k in allow)
    && FirstEmptyAt(allow[keys[i]], prefix + "." + keys[i], path)
    && forall j :: 0 <= j < i ==> NoWildcard(allow[keys[j]])
  }

  lemma FirstUnderLater(allow: map<string, FieldSpec>, keys: seq<string>, prefix: string, r: Option<string>)
    requires keys != [] && (forall k :: k in keys ==> k in allow) && NoWildcard(allow[keys[0]])
    requires r.Some? ==> exists i: nat :: FirstUnder(allow, keys[1..], prefix, r.value, i)
    ensures r.Some? ==> exists i: nat :: FirstUnder(allow, keys, prefix, r.value, i)
  {
    if r.Some? {
      var i: nat :| FirstUnder(allow, keys[1..], prefix, r.value, i);
      assert forall j :: 0 < j < |keys| ==> keys[j] == keys[1..][j - 1];
      assert FirstUnder(allow, keys, prefix, r.value, i + 1);
    }
  }

  lemma FirstIsFirst(allow: map<string, FieldSpec>, prefix: string, r: Option<string>)
    requires r.Some? ==> exists i: nat :: FirstUnder(allow, KeysInOrder(allow.Keys), prefix, r.value, i)
    ensures r.Some? ==>
      exists k :: k in allow && FirstEmptyAt(allow[k], prefix + "." + k, r.value) && CleanBefore(allow, k)
  {
    if r.Some? {
      var i: nat :| FirstUnder(allow, KeysInOrder(allow.Keys), prefix, r.value, i);
      KeysBeforeAreClean(allow, i);
    }
  }

  lemma KeysBeforeAreClean(specs: map<string, FieldSpec>, i: nat)
    requires i < |KeysInOrder(specs.Keys)|
    requires forall j :: 0 <= j < i ==> NoWildcard(specs[KeysInOrder(specs.Keys)[j]])
    ensures CleanBefore(specs, KeysInOrder(specs.Keys)[i])
  {
    var keys := KeysInOrder(specs.Keys);
    forall k | k in specs && Precedes(k, keys[i]) ensures NoWildcard(specs[k]) {
      EarlierKey(specs.Keys, i, k);
      var j :| 0 <= j < i && keys[..i][j] == k;
    }
  }

  datatype SortKey = BySeq | ByField(name: FieldName)

  datatype Usage = InFilters | InSort

  datatype SchemaError =
    | BadFieldName(reason: IdentError)
    | NoFields
    | ObjectWithoutAllowList(path: string)
    | UnknownField(usage: Usage, field: string)
    | FieldNotIndexed(usage: Usage, field: string)
    | Duplicate(usage: Usage, key: SortKey)
    | DuplicateCollection(name: string)

  datatype CollectionSchema = CollectionSchema(
    collection: string,
    id: IdPath,
    fields: map<string, FieldSpec>,
    filters: seq<FieldName>,
    sort: seq<SortKey>)

  ghost predicate Indexed(fields: map<string, FieldSpec>, field: string) {
    field in fields && fields[field].IsIndexed()
  }

  ghost predicate Filterable(fields: map<string, FieldSpec>, filters: seq<FieldName>) {
    Distinct(filters) && forall f :: f in filters ==> Indexed(fields, f)
  }

  ghost predicate Sortable(fields: map<string, FieldSpec>, sort: seq<SortKey>) {
    Distinct(sort) && forall k :: k in sort && k.ByField? ==> Indexed(fields, k.name)
  }

  /** What a definition must satisfy to be served. */
  ghost predicate Usable(fields: map<string, FieldSpec>, filters: seq<FieldName>, sort: seq<SortKey>) {
    && fields != map[]
    && (forall k :: k in fields ==> NoWildcard(fields[k]))
    && Filterable(fields, filters)
    && Sortable(fields, sort)
  }

  /** In name order, the first field with an object that lacks an allow list; `path` leads to that object. */
  ghost predicate BlamesField(fields: map<string, FieldSpec>, path: string) {
    exists k :: k in fields && FirstEmptyAt(fields[k], k, path) && CleanBefore(fields, k)
  }

  /** The `i`-th filter is the first that cannot be offered, and this is why. */
  ghost predicate BlamesFilter(fields: map<string, FieldSpec>, filters: seq<FieldName>, i: nat, error: SchemaError) {
    && i < |filters| && Filterable(fields, filters[..i])
    && match error
       case Duplicate(InFilters, ByField(f)) => f == filters[i] && f in filters[..i]
       case UnknownField(InFilters, f) => f == filters[i] && f !in filters[..i] && f !in fields
       case FieldNotIndexed(InFilters, f) =>
         f == filters[i] && f !in filters[..i] && f in fields && !fields[f].IsIndexed()
       case _ => false
  }

  /** The `i`-th sort key is the first that cannot be offered, and this is why. */
  ghost predicate BlamesSort(fields: map<string, FieldSpec>, sort: seq<SortKey>, i: nat, error: SchemaError) {
    && i < |sort| && Sortable(fields, sort[..i])
    && match error
       case Duplicate(InSort, k) => k == sort[i] && k in sort[..i]
       case UnknownField(InSort, f) => IsKey(sort[i], f) && sort[i] !in sort[..i] && f !in fields
       case FieldNotIndexed(InSort, f) =>
         IsKey(sort[i], f) && sort[i] !in sort[..i] && f in fields && !fields[f].IsIndexed()
       case _ => false
  }

  ghost predicate IsKey(key: SortKey, field: string) {
    key.ByField? && key.name == field
  }

  /** The first problem of a definition: fields before filters before sort keys. */
  ghost predicate Blames(
    fields: map<string, FieldSpec>, filters: seq<FieldName>, sort: seq<SortKey>, error: SchemaError)
  {
    if fields == map[] then error == NoFields
    else if exists k :: k in fields && !NoWildcard(fields[k]) then
      error.ObjectWithoutAllowList? && BlamesField(fields, error.path)
    else if !Filterable(fields, filters) then exists i: nat :: BlamesFilter(fields, filters, i, error)
    else exists i: nat :: BlamesSort(fields, sort, i, error)
  }

  /** Passes the fields that may be filtered and sorted on; the refusal blames this use of this field. */
  function RequireIndexed(fields: map<string, FieldSpec>, usage: Usage, field: FieldName): (r: Option<SchemaError>)
    ensures r.None? <==> Indexed(fields, field)
    ensures r.None? <==> field in fields && exists ty :: fields[field] == ScalarSpec(ty, true)
    ensures r.Some? && usage.InFilters? ==> BlamesFilter(fields, [field], 0, r.value)
    ensures r.Some? && usage.InSort? ==> BlamesSort(fields, [ByField(field)], 0, r.value)
  {
    if field !in fields then Some(UnknownField(usage, field))
    else
      assert fields[field].ScalarSpec? ==> fields[field] == ScalarSpec(fields[field].ty, fields[field].index);
      if fields[field].IsIndexed() then None
    else Some(FieldNotIndexed(usage, field))
  }

  /** One more filter can be offered exactly when it is new and passes; otherwise it is what is wrong. */
  lemma OneMoreFilter(fields: map<string, FieldSpec>, filters: seq<FieldName>, i: nat)
    requires i < |filters| && Filterable(fields, filters[..i])
    ensures Filterable(fields, filters[..i + 1])
      <==> filters[i] !in filters[..i] && RequireIndexed(fields, InFilters, filters[i]).None?
    ensures filters[i] in filters[..i] ==> BlamesFilter(fields, filters, i, Duplicate(InFilters, ByField(filters[i])))
    ensures filters[i] !in filters[..i] && RequireIndexed(fields, InFilters, filters[i]).Some?
      ==> BlamesFilter(fields, filters, i, RequireIndexed(fields, InFilters, filters[i]).value)
    ensures !Filterable(fields, filters[..i + 1]) ==> !Filterable(fields, filters)
  {
    assert filters[..i + 1] == filters[..i] + [filters[i]];
    if filters[i] in filters[..i] {
      var j :| 0 <= j < i && filters[..i][j] == filters[i];
      assert filters[j] == filters[i] && filters[..i + 1][j] == filters[..i + 1][i];
    }
  }

  /** One more sort key can be offered exactly when it is new and passes; otherwise it is what is wrong. */
  lemma OneMoreSortKey(fields: map<string, FieldSpec>, sort: seq<SortKey>, i: nat)
    requires i < |sort| && Sortable(fields, sort[..i])
    ensures Sortable(fields, sort[..i + 1])
      <==> sort[i] !in sort[..i] && (sort[i].ByField? ==> RequireIndexed(fields, InSort, sort[i].name).None?)
    ensures sort[i] in sort[..i] ==> BlamesSort(fields, sort, i, Duplicate(InSort, sort[i]))
    ensures sort[i] !in sort[..i] && sort[i].ByField? && RequireIndexed(fields, InSort, sort[i].name).Some?
      ==> BlamesSort(fields, sort, i, RequireIndexed(fields, InSort, sort[i].name).value)
    ensures !Sortable(fields, sort[..i + 1]) ==> !Sortable(fields, sort)
  {
    assert sort[..i + 1] == sort[..i] + [sort[i]];
    if sort[i] in sort[..i] {
      var j :| 0 <= j < i && sort[..i][j] == sort[i];
      assert sort[j] == sort[i] && sort[..i + 1][j] == sort[..i + 1][i];
    }
  }

  method CheckFields(fields: map<string, FieldSpec>) returns (problem: Option<SchemaError>)
    ensures problem.None? <==> forall k :: k in fields ==> NoWildcard(fields[k])
    ensures problem.Some? ==> problem.value.ObjectWithoutAllowList? && BlamesField(fields, problem.value.path)
  {
    var names := KeysInOrder(fields.Keys);
    for i := 0 to |names|
      invariant forall j :: 0 <= j < i ==> NoWildcard(fields[names[j]])
    {
      var found := Validate(fields[names[i]], names[i]);
      if found.Some? {
        KeysBeforeAreClean(fields, i);
        return Some(ObjectWithoutAllowList(found.value));
      }
    }
    assert forall k :: k in fields ==> k in names;
    return None;
  }

  method CheckFilters(fields: map<string, FieldSpec>, filters: seq<FieldName>) returns (problem: Option<SchemaError>)
    ensures problem.None? <==> Filterable(fields, filters)
    ensures problem.Some? ==> exists i: nat :: BlamesFilter(fields, filters, i, problem.value)
  {
    var seen: seq<FieldName> := [];
    for i := 0 to |filters|
      invariant seen == filters[..i]
      invariant Filterable(fields, seen)
    {
      OneMoreFilter(fields, filters, i);
      assert filters[..i + 1] == seen + [filters[i]];
      var field := filters[i];
      if field in seen {
        return Some(Duplicate(InFilters, ByField(field)));
      }
      seen := seen + [field];
      var found := RequireIndexed(fields, InFilters, field);
      if found.Some? {
        return found;
      }
    }
    assert filters[..|filters|] == filters;
    return None;
  }

  method CheckSort(fields: map<string, FieldSpec>, sort: seq<SortKey>) returns (problem: Option<SchemaError>)
    ensures problem.None? <==> Sortable(fields, sort)
    ensures problem.Some? ==> exists i: nat :: BlamesSort(fields, sort, i, problem.value)
  {
    var seen: seq<SortKey> := [];
    for i := 0 to |sort|
      invariant seen == sort[..i]
      invariant Sortable(fields, seen)
    {
      OneMoreSortKey(fields, sort, i);
      assert sort[..i + 1] == seen + [sort[i]];
      var key := sort[i];
      if key in seen {
        return Some(Duplicate(InSort, key));
      }
      seen := seen + [key];
      if key.ByField? {
        var found := RequireIndexed(fields, InSort, key.name);
        if found.Some? {
          return found;
        }
      }
    }
    assert sort[..|sort|] == sort;
    return None;
  }

  /** Accepts exactly the usable definitions, and refuses the others for their first problem. */
  method NewSchema(collection: string, id: IdPath, fields: map<string, FieldSpec>,
                   filters: seq<FieldName>, sort: seq<SortKey>)
    returns (r: Result<CollectionSchema, SchemaError>)
    ensures r.Success? <==> Usable(fields, filters, sort)
    ensures r.Success? ==>
      forall f :: f in filters || ByField(f) in sort ==> f in fields && exists ty :: fields[f] == ScalarSpec(ty, true)
    ensures r.Success? ==> r.value == CollectionSchema(collection, id, fields, filters, sort)
    ensures r.Failure? ==> Blames(fields, filters, sort, r.error)
  {
    if fields == map[] {
      return Failure(NoFields);
    }
    var problem := CheckFields(fields);
    if problem.Some? {
      return Failure(problem.value);
    }
    problem := CheckFilters(fields, filters);
    if problem.Some? {
      return Failure(problem.value);
    }
    problem := CheckSort(fields, sort);
    if problem.Some? {
      return Failure(problem.value);
    }
    forall f: FieldName | f in filters || ByField(f) in sort
      ensures f in fields && exists ty :: fields[f] == ScalarSpec(ty, true)
    {
      var found := RequireIndexed(fields, InFilters, f);
    }
    return Success(CollectionSchema(collection, id, fields, filters, sort));
  }

  function Names(schemas: seq<CollectionSchema>): seq<string> {
    seq(|schemas|, i requires 0 <= i < |schemas| => schemas[i].collection)
  }

  /** The first name defined a second time. */
  ghost predicate FirstRepeated(names: seq<string>, i: nat, name: string) {
    i < |names| && Distinct(names[..i]) && name == names[i] && name in names[..i]
  }

  /** The map has these definitions, by name, and no others. */
  ghost predicate Holds(all: map<string, CollectionSchema>, schemas: seq<CollectionSchema>) {
    && (forall s :: s in schemas ==> s.collection in all && all[s.collection] == s)
    && (forall n :: n in all ==> all[n] in schemas && all[n].collection == n)
  }

  lemma HoldsOneMore(all: map<string, CollectionSchema>, schemas: seq<CollectionSchema>, s: CollectionSchema)
    requires Holds(all, schemas) && Distinct(Names(schemas)) && s.collection !in all
    ensures Holds(all[s.collection := s], schemas + [s]) && Distinct(Names(schemas + [s]))
  {
    forall i | 0 <= i < |schemas| ensures Names(schemas + [s])[i] == Names(schemas)[i] != s.collection {
      assert schemas[i] in schemas;
    }
  }

  lemma HeldIsRepeated(all: map<string, CollectionSchema>, schemas: seq<CollectionSchema>, i: nat)
    requires i < |schemas| && Holds(all, schemas[..i]) && Distinct(Names(schemas[..i])) && schemas[i].collection in all
    ensures FirstRepeated(Names(schemas), i, schemas[i].collection) && !Distinct(Names(schemas))
  {
    var names, name := Names(schemas), schemas[i].collection;
    assert names[..i] == Names(schemas[..i]);
    var k :| 0 <= k < i && schemas[..i][k] == all[name];
    assert names[..i][k] == name && names[k] == names[i];
  }

  /** All definitions by name, unless a name is defined twice. */
  method NewSchemaSet(schemas: seq<CollectionSchema>) returns (r: Result<map<string, CollectionSchema>, SchemaError>)
    ensures r.Success? <==> Distinct(Names(schemas))
    ensures r.Success? ==> Holds(r.value, schemas)
    ensures r.Failure? ==>
      r.error.DuplicateCollection? && exists i: nat :: FirstRepeated(Names(schemas), i, r.error.name)
  {
    var all: map<string, CollectionSchema> := map[];
    for i := 0 to |schemas|
      invariant Holds(all, schemas[..i])
      invariant Distinct(Names(schemas[..i]))
    {
      var name := schemas[i].collection;
      if name in all {
        HeldIsRepeated(all, schemas, i);
        return Failure(DuplicateCollection(name));
      }
      HoldsOneMore(all, schemas[..i], schemas[i]);
      assert schemas[..i + 1] == schemas[..i] + [schemas[i]];
      all := all[name := schemas[i]];
    }
    assert schemas[..|schemas|] == schemas;
    return Success(all);
  }

  /** The keys that lead from a payload's root to its identifier. */
  type IdPath = p: seq<FieldName> | p != [] witness ["a"]

  const ROOT: string := "$"

  /** `$.a.b` */
  function DisplayPath(path: IdPath): string {
    Join([ROOT] + path, '.')
  }

  /** Reads a path written with or without the root prefix. */
  function ParsePath(value: string): Result<IdPath, SchemaError> {
    var trimmed := if |value| >= 2 && value[..2] == "$." then value[2..] else value;
    match ParseSegments(Split(trimmed, '.'))
    case Failure(e) => Failure(BadFieldName(e))
    case Success(segments) => Success(segments)
  }

  function ParseSegments(parts: seq<string>): (r: Result<seq<FieldName>, IdentError>)
    ensures r.Success? <==> forall p :: p in parts ==> ValidFieldName(p)
    ensures r.Success? ==> r.value == parts
  {
    if parts == [] then Success([])
    else
      assert forall p :: p in parts <==> p == parts[0] || p in parts[1..];
      match NewFieldName(parts[0])
      case Failure(e) => Failure(e)
      case Success(first) =>
        match ParseSegments(parts[1..])
        case Failure(e) => Failure(e)
        case Success(rest) => Success([first] + rest)
  }

  /** The displayed form reads back as the path, `$` as a segment included. */
  lemma IdPathRoundTrip(path: IdPath)
    ensures ParsePath(DisplayPath(path)) == Success(path)
  {
    var shown := DisplayPath(path);
    var segments: seq<string> := path;
    assert ([ROOT] + segments)[1..] == segments;
    assert shown == ROOT + ['.'] + Join(segments, '.');
    assert shown[..2] == "$." && shown[2..] == Join(segments, '.');
    assert forall p :: p in segments ==> ValidFieldName(p) && '.' !in p;
    SplitJoin(segments, '.');
  }

  /** What was written is displayed, with the root prefix supplied if it was left out. */
  lemma IdPathDisplay(value: string)
    requires ParsePath(value).Success?
    ensures DisplayPath(ParsePath(value).value) == (if |value| >= 2 && value[..2] == "$." then value else "$." + value)
  {
    var trimmed := if |value| >= 2 && value[..2] == "$." then value[2..] else value;
    var segments := Split(trimmed, '.');
    JoinSplit(trimmed, '.');
    assert ([ROOT] + segments)[1..] == segments;
    assert ROOT + ['.'] + trimmed == "$." + trimmed;
    if |value| >= 2 && value[..2] == "$." {
      assert value == value[..2] + value[2..];
    }
  }

  predicate Prefixed(value: string) {
    |value| >= 2 && value[..2] == "$."
  }

  /** A joined path starts with the root prefix only if its first segment is the root. */
  lemma JoinedPrefix(segments: seq<string>)
    requires segments != [] && forall p :: p in segments ==> '.' !in p
    ensures Prefixed(Join(segments, '.')) <==> |segments| > 1 && segments[0] == ROOT
  {
    var text := Join(segments, '.');
    if |segments| == 1 {
      assert |text| >= 2 ==> text[1] in segments[0] && text[..2][1] == text[1];
    } else {
      var first := segments[0];
      assert text == first + ['.'] + Join(segments[1..], '.');
      assert Prefixed(text) ==> text[..2][0] == '$' && text[..2][1] == '.';
      assert |first| > 1 ==> text[1] == first[1] && first[1] in first;
    }
  }

  /** A path written without the root prefix is read as it stands, unless it starts with that prefix itself. */
  lemma PlainPathReads(path: IdPath)
    ensures ParsePath(Join(path, '.')) == Success(path) <==> |path| == 1 || path[0] != ROOT
  {
    var segments: seq<string> := path;
    var text := Join(segments, '.');
    assert forall p :: p in segments ==> ValidFieldName(p) && '.' !in p;
    JoinedPrefix(segments);
    if Prefixed(text) {
      RootedText(segments);
      SplitJoin(segments[1..], '.');
    } else {
      SplitJoin(segments, '.');
    }
  }

  lemma RootedText(segments: seq<string>)
    requires |segments| > 1 && segments[0] == ROOT
    ensures Join(segments, '.')[..2] == "$." && Join(segments, '.')[2..] == Join(segments[1..], '.')
  {
    assert Join(segments, '.') == ROOT + ['.'] + Join(segments[1..], '.');
  }

  /** The path written out, with the root prefix or, where that has one reading, without. */
  ghost predicate Spells(value: string, path: IdPath) {
    value == DisplayPath(path) || (value == Join(path, '.') && (|path| == 1 || path[0] != ROOT))
  }

  /** Reading gives a path exactly for the texts that spell it; every other text is refused. */
  lemma ParsesExactly(value: string, path: IdPath)
    ensures ParsePath(value) == Success(path) <==> Spells(value, path)
  {
    PlainPathReads(path);
    IdPathRoundTrip(path);
    if ParsePath(value) == Success(path) {
      IdPathDisplay(value);
      JoinSplit(value, '.');
    }
  }

  function PathLocation(path: seq<FieldName>): Location {
    seq(|path|, i requires 0 <= i < |path| => Key(path[i]))
  }

  /** Follows the path into a payload. */
  method Resolve(path: IdPath, payload: Json) returns (r: Option<Json>)
    ensures r == At(payload, PathLocation(path))
  {
    var current := payload;
    for i := 0 to |path|
      invariant At(payload, PathLocation(path)) == At(current, PathLocation(path[i..]))
    {
      var here := PathLocation(path[i..]);
      assert here[0] == Key(path[i]) && here[1..] == PathLocation(path[i + 1..]);
      if !current.Object? || path[i] !in current.members {
        return None;
      }
      current := current.members[path[i]];
    }
    return Some(current);
  }

  datatype IdError =
    | MissingId(path: string)
    | NotAnIdentifier(path: string, found: string)
    | InvalidId(path: string, source: IdentError)

  function SignedDecimal(i: int): string {
    if i < 0 then "-" + Decimal(-i) else Decimal(i)
  }

  /** The text a value stands for as an identifier: strings as they are, integers in decimal. */
  function IdText(v: Json): Option<string> {
    match v
    case String(text) => Some(text)
    case Number(Integer(i)) => Some(SignedDecimal(i))
    case _ => None
  }

  /** This text is the value itself, or an integer with this decimal form and no other. */
  ghost predicate Identifies(text: string, v: Json) {
    || v == String(text)
    || exists i :: v == Number(Integer(i)) && IsDecimal(text, i)
  }

  /** An optional minus and digits without a leading zero, of this value. */
  ghost predicate IsDecimal(text: string, i: int) {
    if i < 0 then text != "" && text[0] == '-' && text[1..] != "" && text[1] != '0' && Digits(text[1..], -i)
    else Digits(text, i) && (|text| > 1 ==> text[0] != '0')
  }

  ghost predicate Digits(text: string, n: nat) {
    text != "" && (forall c :: c in text ==> IsDigit(c)) && DecimalValue(text) == n
  }

  lemma {:induction false} DecimalIsDecimal(n: nat)
    ensures Digits(Decimal(n), n) && (|Decimal(n)| > 1 ==> Decimal(n)[0] != '0') && (n > 0 ==> Decimal(n)[0] != '0')
    decreases n
  {
    DecimalRoundTrip(n);
    if n >= 10 {
      DecimalIsDecimal(n / 10);
    }
  }

  /** Strings stand for themselves and integers for their decimal form; nothing else stands for an id. */
  lemma IdTextIdentifies(v: Json)
    ensures IdText(v).Some? ==> Identifies(IdText(v).value, v)
    ensures IdText(v).Some? <==> v.String? || (v.Number? && v.numeral.Integer?)
  {
    if v.Number? && v.numeral.Integer? {
      var i := v.numeral.value;
      DecimalIsDecimal(if i < 0 then -i else i);
      if i < 0 {
        assert ("-" + Decimal(-i))[1..] == Decimal(-i);
      }
      assert IsDecimal(SignedDecimal(i), i);
    }
  }

  /** The identifier a payload carries at the path, or why it carries none. */
  method ExtractId(path: IdPath, payload: Json) returns (r: Result<RecordId, IdError>)
    ensures r.Success? <==>
      && At(payload, PathLocation(path)).Some?
      && IdText(At(payload, PathLocation(path)).value).Some?
      && ValidRecordId(IdText(At(payload, PathLocation(path)).value).value)
    ensures r.Success? ==> Some(r.value) == IdText(At(payload, PathLocation(path)).value)
    ensures r.Success? ==> Identifies(r.value, At(payload, PathLocation(path)).value)
    ensures r.Failure? && r.error.MissingId? <==> At(payload, PathLocation(path)).None?
    ensures r.Failure? && r.error.NotAnIdentifier? <==>
      var found := At(payload, PathLocation(path));
      found.Some? && !found.value.String? && !(found.value.Number? && found.value.numeral.Integer?)
  {
    var found := Resolve(path, payload);
    if found.None? {
      return Failure(MissingId(DisplayPath(path)));
    }
    IdTextIdentifies(found.value);
    match IdText(found.value)
    case None => return Failure(NotAnIdentifier(DisplayPath(path), KindOf(found.value)));
    case Some(raw) =>
      match NewRecordId(raw) {
        case Failure(e) => return Failure(InvalidId(DisplayPath(path), e));
        case Success(id) => return Success(id);
      }
  }
}
