/** The projection engine: the part of a payload a schema releases, and a report of the rest. */
module Projection {
  import opened Documents
  import Ordering
  import opened Schema
  import Text
  import opened Wrappers

  datatype DropReason = UnknownKey | TypeMismatch(expected: string, found: string)

  /** One removed value, by the place it had in the input. */
  datatype Drop = Drop(at: Location, reason: DropReason)

  /** One removed value as it is reported: its place rendered as a path. */
  datatype DroppedField = DroppedField(path: string, reason: DropReason)

  /** `attributes.color`, `images[2]` */
  function Render(at: Location): string {
    if at == [] then ""
    else
      var prefix := Render(at[..|at| - 1]);
      match at[|at| - 1]
      case Key(name) => if prefix == "" then name else prefix + "." + name
      case Index(i) => prefix + "[" + Text.Decimal(i) + "]"
  }

  function Report(drops: seq<Drop>): seq<DroppedField> {
    seq(|drops|, i requires 0 <= i < |drops| => DroppedField(Render(drops[i].at), drops[i].reason))
  }

  function Mismatch(spec: FieldSpec, v: Json, at: Location): Drop {
    Drop(at, TypeMismatch(spec.Kind(), KindOf(v)))
  }

  // ----- What projection keeps and what it reports -----

  /** The part of `v` that `spec` releases; nothing if `v` has another shape. */
  function Project(spec: FieldSpec, v: Json): Option<Json>
    decreases spec, 1
  {
    match spec
    case ScalarSpec(ty, _) => if Accepts(ty, v) then Some(v) else None
    case ObjectSpec(_) => if v.Object? then Some(Object(ProjectMembers(spec, v.members))) else None
    case ArraySpec(items) => if v.Array? then Some(Array(ProjectElements(items, v.elements))) else None
  }

  function ProjectMembers(spec: FieldSpec, members: map<string, Json>): map<string, Json>
    requires spec.ObjectSpec?
    decreases spec, 0
  {
    map k | k in members && k in spec.allow && Project(spec.allow[k], members[k]).Some?
      :: Project(spec.allow[k], members[k]).value
  }

  function ProjectElements(items: FieldSpec, elements: seq<Json>): seq<Json>
    decreases items, |elements| + 1
  {
    if elements == [] then []
    else
      var kept := ProjectElements(items, elements[..|elements| - 1]);
      match Project(items, elements[|elements| - 1])
      case Some(w) => kept + [w]
      case None => kept
  }

  /** Everything removed from `v`, in the order encountered. */
  function Drops(spec: FieldSpec, v: Json, at: Location): seq<Drop>
    decreases spec, 1
  {
    match spec
    case ScalarSpec(ty, _) => if Accepts(ty, v) then [] else [Mismatch(spec, v, at)]
    case ObjectSpec(_) =>
      if !v.Object? then [Mismatch(spec, v, at)]
      else MemberDrops(spec, v.members, Ordering.KeysInOrder(v.members.Keys), at)
    case ArraySpec(items) =>
      if v.Array? then ElementDrops(items, v.elements, at) else [Mismatch(spec, v, at)]
  }

  function MemberDrops(spec: FieldSpec, members: map<string, Json>, keys: seq<string>, at: Location): seq<Drop>
    requires spec.ObjectSpec? && forall k :: k in keys ==> k in members
    decreases spec, 0, |keys| + 1
  {
    if keys == [] then []
    else
      var k := keys[|keys| - 1];
      MemberDrops(spec, members, keys[..|keys| - 1], at) + DropsAtKey(spec, k, members[k], at + [Key(k)])
  }

  function DropsAtKey(spec: FieldSpec, k: string, v: Json, at: Location): seq<Drop>
    requires spec.ObjectSpec?
    decreases spec, 0, 0
  {
    if k in spec.allow then Drops(spec.allow[k], v, at) else [Drop(at, UnknownKey)]
  }

  function ElementDrops(items: FieldSpec, elements: seq<Json>, at: Location): seq<Drop>
    decreases items, |elements| + 1
  {
    if elements == [] then []
    else
      var last := |elements| - 1;
      ElementDrops(items, elements[..last], at) + Drops(items, elements[last], at + [Index(last)])
  }

  // ----- What a released value looks like -----

  /** The part of a specification that governs a place: keys lead through objects, indices through arrays. */
  ghost function NodeAt(spec: FieldSpec, at: Location): Option<FieldSpec>
    decreases at
  {
    if at == [] then Some(spec)
    else match (spec, at[0])
      case (ObjectSpec(allow), Key(k)) => if k in allow then NodeAt(allow[k], at[1..]) else None
      case (ArraySpec(items), Index(_)) => NodeAt(items, at[1..])
      case _ => None
  }

  /** A scalar is declared at this place. */
  ghost predicate Declares(spec: FieldSpec, at: Location) {
    NodeAt(spec, at).Some? && NodeAt(spec, at).value.ScalarSpec?
  }

  ghost predicate HasShape(v: Json, node: FieldSpec) {
    match node
    case ScalarSpec(StringType, _) => v.String?
    case ScalarSpec(NumberType, _) => v.Number?
    case ScalarSpec(BooleanType, _) => v.Bool?
    case ScalarSpec(AnyType, _) => v.Null? || v.Bool? || v.Number? || v.String?
    case ObjectSpec(_) => v.Object?
    case ArraySpec(_) => v.Array?
  }

  /** If the document has a value here, the specification declares one of its shape here. */
  ghost predicate ConformsAt(spec: FieldSpec, v: Json, at: Location) {
    At(v, at).Some? ==> NodeAt(spec, at).Some? && HasShape(At(v, at).value, NodeAt(spec, at).value)
  }

  /** The document has nothing, at any depth, that the specification does not declare. */
  ghost predicate Conforms(spec: FieldSpec, v: Json) {
    forall at :: ConformsAt(spec, v, at)
  }

  /** Every kept element is what is kept of some element. */
  lemma {:induction false} KeptElementFrom(items: FieldSpec, es: seq<Json>, j: nat)
    requires j < |ProjectElements(items, es)|
    ensures exists i :: 0 <= i < |es| && Project(items, es[i]) == Some(ProjectElements(items, es)[j])
    decreases |es|
  {
    var kept := ProjectElements(items, es[..|es| - 1]);
    if j < |kept| {
      KeptElementFrom(items, es[..|es| - 1], j);
    } else {
      assert Project(items, es[|es| - 1]) == Some(ProjectElements(items, es)[j]);
    }
  }

  lemma {:induction false} KeptConformsAt(spec: FieldSpec, v: Json, at: Location)
    requires Project(spec, v).Some?
    ensures ConformsAt(spec, Project(spec, v).value, at)
    decreases at
  {
    var w := Project(spec, v).value;
    if at != [] && At(w, at).Some? {
      match (spec, at[0])
      case (ObjectSpec(allow), Key(k)) => KeptConformsAt(allow[k], v.members[k], at[1..]);
      case (ArraySpec(items), Index(j)) =>
        KeptElementFrom(items, v.elements, j);
        var i :| 0 <= i < |v.elements| && Project(items, v.elements[i]) == Some(w.elements[j]);
        KeptConformsAt(items, v.elements[i], at[1..]);
      case _ =>
    }
  }

  /** What is kept conforms, at every depth. */
  lemma KeptConforms(spec: FieldSpec, v: Json)
    requires Project(spec, v).Some?
    ensures Conforms(spec, Project(spec, v).value)
  {
    forall at ensures ConformsAt(spec, Project(spec, v).value, at) {
      KeptConformsAt(spec, v, at);
    }
  }

  /** A value inside a conforming one conforms to the node that governs it. */
  lemma ConformsBelow(spec: FieldSpec, v: Json, step: Step)
    requires Conforms(spec, v) && At(v, [step]).Some?
    ensures NodeAt(spec, [step]).Some? && Conforms(NodeAt(spec, [step]).value, At(v, [step]).value)
  {
    assert ConformsAt(spec, v, [step]);
    assert [step][1..] == [];
    forall at ensures ConformsAt(NodeAt(spec, [step]).value, At(v, [step]).value, at) {
      assert ([step] + at)[1..] == at;
      assert ConformsAt(spec, v, [step] + at);
    }
  }

  lemma {:induction false} ConformingIsKept(spec: FieldSpec, v: Json)
    requires Conforms(spec, v)
    ensures Project(spec, v) == Some(v)
    decreases spec, 1
  {
    assert ConformsAt(spec, v, []);
    match spec
    case ScalarSpec(_, _) =>
    case ObjectSpec(allow) =>
      forall k | k in v.members ensures k in allow && Project(allow[k], v.members[k]) == Some(v.members[k]) {
        assert At(v, [Key(k)]) == At(v.members[k], [Key(k)][1..]);
        ConformsBelow(spec, v, Key(k));
        assert NodeAt(spec, [Key(k)]) == NodeAt(allow[k], [Key(k)][1..]);
        ConformingIsKept(allow[k], v.members[k]);
      }
      assert ProjectMembers(spec, v.members) == v.members;
    case ArraySpec(items) =>
      ConformingElements(spec, v, |v.elements|);
      assert v.elements[..|v.elements|] == v.elements;
  }

  lemma {:induction false} ConformingElements(spec: FieldSpec, v: Json, n: nat)
    requires spec.ArraySpec? && v.Array? && Conforms(spec, v) && n <= |v.elements|
    ensures ProjectElements(spec.items, v.elements[..n]) == v.elements[..n]
    decreases spec, 0, n
  {
    if n > 0 {
      var i := n - 1;
      assert v.elements[..n][..i] == v.elements[..i];
      ConformingElements(spec, v, i);
      assert At(v, [Index(i)]) == At(v.elements[i], [Index(i)][1..]);
      ConformsBelow(spec, v, Index(i));
      assert NodeAt(spec, [Index(i)]) == NodeAt(spec.items, [Index(i)][1..]);
      ConformingIsKept(spec.items, v.elements[i]);
      assert v.elements[..n] == v.elements[..i] + [v.elements[i]];
    }
  }

  /**
   * A document is released whole exactly when the specification declares every place in it with the
   * shape it has there; and of any document, what is released is such a one.
   */
  lemma ReleasedIsDeclared(spec: FieldSpec, v: Json)
    ensures Project(spec, v) == Some(v) <==> Conforms(spec, v)
    ensures Project(spec, v).Some? ==> Conforms(spec, Project(spec, v).value)
    ensures Project(spec, v).Some? <==> HasShape(v, spec)
  {
    if Project(spec, v).Some? {
      KeptConforms(spec, v);
    }
    if Conforms(spec, v) {
      ConformingIsKept(spec, v);
    }
  }

  /** No scalar is released anywhere but where one is declared, and of the declared type. */
  lemma ScalarsAreDeclared(spec: FieldSpec, v: Json, at: Location)
    requires Project(spec, v).Some? && At(Project(spec, v).value, at).Some?
    requires IsScalar(At(Project(spec, v).value, at).value)
    ensures Declares(spec, at) && HasShape(At(Project(spec, v).value, at).value, NodeAt(spec, at).value)
  {
    KeptConforms(spec, v);
    assert ConformsAt(spec, Project(spec, v).value, at);
  }

  /** The kinds of a mismatch name the shapes that did not match. */
  lemma KindsTellShapes(spec: FieldSpec, v: Json)
    ensures HasShape(v, spec) <==>
      if spec.Kind() == "scalar" then KindOf(v) != "object" && KindOf(v) != "array" else KindOf(v) == spec.Kind()
    ensures KindOf(v) == "null" <==> v.Null?
  {
    assert "number"[0] == 'n' && "object"[0] == 'o' && "string"[..2] == "st" && "scalar"[..2] == "sc";
    assert "st"[1] != "sc"[1];
  }

  // ----- The engine itself -----

  /** The report every level of one projection appends to. */
  class DropReport {
    var fields: seq<DroppedField>

    constructor ()
      ensures fields == []
    {
      fields := [];
    }

    method Push(field: DroppedField)
      modifies this
      ensures fields == old(fields) + [field]
    {
      fields := fields + [field];
    }
  }

  /** A report that started as `start` and took these drops. */
  function Logged(start: seq<DroppedField>, drops: seq<Drop>): seq<DroppedField> {
    start + Report(drops)
  }

  lemma LoggedConcat(start: seq<DroppedField>, a: seq<Drop>, b: seq<Drop>)
    ensures Logged(start, a + b) == Logged(Logged(start, a), b)
  {
  }

  lemma RenderKey(at: Location, name: string)
    ensures Render(at + [Key(name)]) == if Render(at) == "" then name else Render(at) + "." + name
  {
    assert (at + [Key(name)])[..|at|] == at;
  }

  lemma RenderIndex(at: Location, i: nat)
    ensures Render(at + [Index(i)]) == Render(at) + "[" + Text.Decimal(i) + "]"
  {
    assert (at + [Index(i)])[..|at|] == at;
  }

  /** What is kept of an object once these keys have been seen. */
  ghost function KeptSoFar(spec: FieldSpec, input: map<string, Json>, seen: seq<string>): map<string, Json>
    requires spec.ObjectSpec?
  {
    map k | k in input && k in seen && k in spec.allow && Project(spec.allow[k], input[k]).Some?
      :: Project(spec.allow[k], input[k]).value
  }

  lemma KeepOne(spec: FieldSpec, input: map<string, Json>, seen: seq<string>, key: string)
    requires spec.ObjectSpec? && key in input
    ensures var before := KeptSoFar(spec, input, seen);
      KeptSoFar(spec, input, seen + [key])
      == if key in spec.allow && Project(spec.allow[key], input[key]).Some?
         then before[key := Project(spec.allow[key], input[key]).value] else before
  {
  }

  /** Keeps the released members of an object and logs its drops in key order. */
  method ProjectObject(
    spec: FieldSpec, input: map<string, Json>, prefix: string, dropped: DropReport, ghost at: Location)
    returns (kept: map<string, Json>)
    requires spec.ObjectSpec? && prefix == Render(at)
    modifies dropped
    ensures kept == ProjectMembers(spec, input)
    ensures dropped.fields
         == Logged(old(dropped.fields), MemberDrops(spec, input, Ordering.KeysInOrder(input.Keys), at))
    decreases spec, 0, 2
  {
    kept := ProjectKeys(spec, input, Ordering.KeysInOrder(input.Keys), prefix, dropped, at);
    assert kept == ProjectMembers(spec, input);
  }

  /** The loop over an object's keys. */
  method ProjectKeys(
    spec: FieldSpec, input: map<string, Json>, keys: seq<string>, prefix: string, dropped: DropReport,
    ghost at: Location)
    returns (kept: map<string, Json>)
    requires spec.ObjectSpec? && prefix == Render(at) && forall k :: k in keys ==> k in input
    modifies dropped
    ensures kept == KeptSoFar(spec, input, keys)
    ensures dropped.fields == Logged(old(dropped.fields), MemberDrops(spec, input, keys, at))
    decreases spec, 0, 1
  {
    kept := map[];
    ghost var start := dropped.fields;
    for i := 0 to |keys|
      invariant kept == KeptSoFar(spec, input, keys[..i])
      invariant dropped.fields == Logged(start, MemberDrops(spec, input, keys[..i], at))
    {
      var key := keys[i];
      RenderKey(at, key);
      var path := if prefix == "" then key else prefix + "." + key;
      var value := ProjectMember(spec, key, input[key], path, dropped, at + [Key(key)]);
      assert keys[..i + 1] == keys[..i] + [key];
      KeepOne(spec, input, keys[..i], key);
      LoggedConcat(start, MemberDrops(spec, input, keys[..i], at), DropsAtKey(spec, key, input[key], at + [Key(key)]));
      if value.Some? {
        kept := kept[key := value.value];
      }
    }
    assert keys[..|keys|] == keys;
  }

  /** One key of an object: unknown, or projected by the specification declared for it. */
  method ProjectMember(spec: FieldSpec, key: string, value: Json, path: string, dropped: DropReport, ghost at: Location)
    returns (kept: Option<Json>)
    requires spec.ObjectSpec? && path == Render(at)
    modifies dropped
    ensures kept == if key in spec.allow then Project(spec.allow[key], value) else None
    ensures dropped.fields == Logged(old(dropped.fields), DropsAtKey(spec, key, value, at))
    decreases spec, 0, 0
  {
    if key !in spec.allow {
      dropped.Push(DroppedField(path, UnknownKey));
      return None;
    }
    kept := ProjectValue(spec.allow[key], value, path, dropped, at);
  }

  /** Keeps the released part of a value, or nothing, and logs what was lost. */
  method ProjectValue(spec: FieldSpec, value: Json, path: string, dropped: DropReport, ghost at: Location)
    returns (kept: Option<Json>)
    requires path == Render(at)
    modifies dropped
    ensures kept == Project(spec, value)
    ensures kept.Some? <==> HasShape(value, spec)
    ensures kept.Some? ==> Conforms(spec, kept.value)
    ensures dropped.fields == Logged(old(dropped.fields), Drops(spec, value, at))
    decreases spec, 1
  {
    ReleasedIsDeclared(spec, value);
    match spec
    case ScalarSpec(ty, _) =>
      if Accepts(ty, value) {
        kept := Some(value);
      } else {
        dropped.Push(DroppedField(path, TypeMismatch(spec.Kind(), KindOf(value))));
        kept := None;
      }
    case ObjectSpec(_) =>
      if !value.Object? {
        dropped.Push(DroppedField(path, TypeMismatch(spec.Kind(), KindOf(value))));
        return None;
      }
      var members := ProjectObject(spec, value.members, path, dropped, at);
      kept := Some(Object(members));
    case ArraySpec(items) =>
      if !value.Array? {
        dropped.Push(DroppedField(path, TypeMismatch(spec.Kind(), KindOf(value))));
        return None;
      }
      var elements := ProjectArray(items, value.elements, path, dropped, at);
      kept := Some(Array(elements));
  }

  /** Projects an array element by element: one unusable entry costs that entry. */
  method ProjectArray(items: FieldSpec, elements: seq<Json>, path: string, dropped: DropReport, ghost at: Location)
    returns (kept: seq<Json>)
    requires path == Render(at)
    modifies dropped
    ensures kept == ProjectElements(items, elements)
    ensures dropped.fields == Logged(old(dropped.fields), ElementDrops(items, elements, at))
    decreases items, 2
  {
    kept := [];
    ghost var start := dropped.fields;
    for index := 0 to |elements|
      invariant kept == ProjectElements(items, elements[..index])
      invariant dropped.fields == Logged(start, ElementDrops(items, elements[..index], at))
    {
      RenderIndex(at, index);
      var elementPath := path + "[" + Text.Decimal(index) + "]";
      var value := ProjectValue(items, elements[index], elementPath, dropped, at + [Index(index)]);
      assert elements[..index + 1][..index] == elements[..index];
      ghost var here := at + [Index(index)];
      LoggedConcat(start, ElementDrops(items, elements[..index], at), Drops(items, elements[index], here));
      if value.Some? {
        kept := kept + [value.value];
      }
    }
    assert elements[..|elements|] == elements;
  }

  datatype Projected = Projected(payload: Json, dropped: seq<DroppedField>)

  datatype ProjectionError = PayloadNotAnObject(found: string)

  /** What a collection releases, as one specification. */
  function Released(schema: CollectionSchema): FieldSpec {
    ObjectSpec(schema.fields)
  }

  /** Projects a payload through a collection's schema. */
  method ProjectPayload(schema: CollectionSchema, payload: Json) returns (r: Result<Projected, ProjectionError>)
    ensures r.Failure? <==> !payload.Object?
    ensures r.Failure? ==> r.error == PayloadNotAnObject(KindOf(payload))
    ensures r.Success? ==> Some(r.value.payload) == Project(Released(schema), payload)
    ensures r.Success? ==> Conforms(Released(schema), r.value.payload)
    ensures r.Success? ==> r.value.dropped == Report(Drops(Released(schema), payload, []))
  {
    ReleasedIsDeclared(Released(schema), payload);
    if !payload.Object? {
      return Failure(PayloadNotAnObject(KindOf(payload)));
    }
    var dropped := new DropReport();
    var kept := ProjectObject(Released(schema), payload.members, "", dropped, []);
    return Success(Projected(Object(kept), dropped.fields));
  }
}
