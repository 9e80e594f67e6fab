/** What projection promises: it composes, it is a fixed point, and it accounts for everything. */
module ProjectionLaws {
  import opened Documents
  import Ordering
  import opened Projection
  import opened Schema
  import opened Wrappers

  // ----- Composition -----

  /** Node by node at least as restrictive. */
  ghost predicate Narrower(s1: FieldSpec, s2: FieldSpec) {
    match (s1, s2)
    case (ScalarSpec(t1, _), ScalarSpec(t2, _)) => t2 == AnyType || t1 == t2
    case (ObjectSpec(a1), ObjectSpec(a2)) => forall k :: k in a1 ==> k in a2 && Narrower(a1[k], a2[k])
    case (ArraySpec(i1), ArraySpec(i2)) => Narrower(i1, i2)
    case _ => false
  }

  /** Projecting through `s2` first makes no difference to `s1`. */
  ghost predicate Composes(s1: FieldSpec, s2: FieldSpec, v: Json) {
    match Project(s2, v)
    case Some(w) => Project(s1, w) == Project(s1, v)
    case None => Project(s1, v) == None
  }

  lemma {:induction false} NarrowerComposes(s1: FieldSpec, s2: FieldSpec, v: Json)
    requires Narrower(s1, s2)
    ensures Composes(s1, s2, v)
    decreases s1, 1
  {
    match (s1, s2)
    case (ScalarSpec(_, _), ScalarSpec(_, _)) =>
    case (ObjectSpec(a1), ObjectSpec(a2)) =>
      if v.Object? {
        var w := ProjectMembers(s2, v.members);
        forall k | k in v.members && k in a1 ensures Composes(a1[k], a2[k], v.members[k]) {
          NarrowerComposes(a1[k], a2[k], v.members[k]);
        }
        assert ProjectMembers(s1, w) == ProjectMembers(s1, v.members);
      }
    case (ArraySpec(i1), ArraySpec(i2)) =>
      if v.Array? {
        NarrowerElements(i1, i2, v.elements);
      }
    case _ =>
  }

  lemma {:induction false} NarrowerElements(i1: FieldSpec, i2: FieldSpec, es: seq<Json>)
    requires Narrower(i1, i2)
    ensures ProjectElements(i1, ProjectElements(i2, es)) == ProjectElements(i1, es)
    decreases i1, 2, |es|
  {
    if es != [] {
      var last := |es| - 1;
      NarrowerElements(i1, i2, es[..last]);
      NarrowerComposes(i1, i2, es[last]);
      var inner := ProjectElements(i2, es[..last]);
      match Project(i2, es[last])
      case Some(w) => assert (inner + [w])[..|inner|] == inner;
      case None =>
    }
  }

  /** A document `spec` accepts. */
  function Sample(spec: FieldSpec): Json {
    match spec
    case ScalarSpec(StringType, _) => String("")
    case ScalarSpec(NumberType, _) => Number(Integer(0))
    case ScalarSpec(BooleanType, _) => Bool(false)
    case ScalarSpec(AnyType, _) => Null
    case ObjectSpec(_) => EMPTY_DOCUMENT
    case ArraySpec(_) => Array([])
  }

  /** A document on which the order of projections shows. */
  ghost function Distinguishing(s1: FieldSpec, s2: FieldSpec): Json
    requires !Narrower(s1, s2)
  {
    match (s1, s2)
    case (ObjectSpec(a1), ObjectSpec(a2)) =>
      var k :| k in a1 && !(k in a2 && Narrower(a1[k], a2[k]));
      Object(map[k := if k in a2 then Distinguishing(a1[k], a2[k]) else Sample(a1[k])])
    case (ArraySpec(i1), ArraySpec(i2)) => Array([Distinguishing(i1, i2)])
    case _ => Sample(s1)
  }

  lemma DistinguishingMember(s1: FieldSpec, s2: FieldSpec, k: string, v: Json)
    requires s1.ObjectSpec? && s2.ObjectSpec? && k in s1.allow
    requires if k in s2.allow then !Composes(s1.allow[k], s2.allow[k], v) else Project(s1.allow[k], v).Some?
    ensures !Composes(s1, s2, Object(map[k := v]))
  {
    OneMember(s1, k, v);
    OneMember(s2, k, v);
    if k in s2.allow && Project(s2.allow[k], v).Some? {
      var w := Project(s2.allow[k], v).value;
      var direct, through := ProjectMembers(s1, map[k := v]), ProjectMembers(s1, map[k := w]);
      assert k in direct <==> Project(s1.allow[k], v).Some?;
      assert k in through <==> Project(s1.allow[k], w).Some?;
      assert k in direct && k in through ==> direct[k] != through[k];
      assert direct != through;
    } else {
      assert ProjectMembers(s1, map[]) == map[];
      assert k in ProjectMembers(s1, map[k := v]);
    }
  }

  lemma {:induction false} DistinguishingShows(s1: FieldSpec, s2: FieldSpec)
    requires !Narrower(s1, s2)
    ensures !Composes(s1, s2, Distinguishing(s1, s2))
  {
    match (s1, s2)
    case (ObjectSpec(a1), ObjectSpec(a2)) =>
      var v := Distinguishing(s1, s2);
      var k :| k in a1 && !(k in a2 && Narrower(a1[k], a2[k]))
        && v == Object(map[k := if k in a2 then Distinguishing(a1[k], a2[k]) else Sample(a1[k])]);
      if k in a2 {
        DistinguishingShows(a1[k], a2[k]);
      }
      DistinguishingMember(s1, s2, k, v.members[k]);
    case (ArraySpec(i1), ArraySpec(i2)) =>
      DistinguishingShows(i1, i2);
      DistinguishingElement(i1, i2, Distinguishing(i1, i2), s1, s2);
    case _ =>
  }

  lemma DistinguishingElement(i1: FieldSpec, i2: FieldSpec, v: Json, s1: FieldSpec, s2: FieldSpec)
    requires s1 == ArraySpec(i1) && s2 == ArraySpec(i2) && !Composes(i1, i2, v)
    ensures !Composes(s1, s2, Array([v]))
  {
    OneElement(i1, v);
    OneElement(i2, v);
    if Project(i2, v).Some? {
      OneElement(i1, Project(i2, v).value);
    }
  }

  lemma OneMember(spec: FieldSpec, k: string, v: Json)
    requires spec.ObjectSpec?
    ensures ProjectMembers(spec, map[k := v])
         == if k in spec.allow && Project(spec.allow[k], v).Some? then map[k := Project(spec.allow[k], v).value]
            else map[]
  {
  }

  lemma OneElement(items: FieldSpec, v: Json)
    ensures ProjectElements(items, [v]) == match Project(items, v) case Some(w) => [w] case None => []
  {
    assert [v][..0] == [];
  }

  /** Projections compose, for every document, exactly when the second is nowhere wider. */
  lemma CompositionIsNarrowing(s1: FieldSpec, s2: FieldSpec)
    ensures Narrower(s1, s2) <==> forall v :: Composes(s1, s2, v)
  {
    if Narrower(s1, s2) {
      forall v ensures Composes(s1, s2, v) {
        NarrowerComposes(s1, s2, v);
      }
    } else {
      DistinguishingShows(s1, s2);
    }
  }

  lemma {:induction false} NarrowerReflexive(spec: FieldSpec)
    ensures Narrower(spec, spec)
  {
    match spec
    case ScalarSpec(_, _) =>
    case ObjectSpec(allow) => forall k | k in allow { NarrowerReflexive(allow[k]); }
    case ArraySpec(items) => NarrowerReflexive(items);
  }

  // ----- Fixed points -----

  lemma {:induction false} ElementsShrink(items: FieldSpec, es: seq<Json>)
    ensures |ProjectElements(items, es)| <= |es|
  {
    if es != [] {
      ElementsShrink(items, es[..|es| - 1]);
    }
  }

  /** Nothing is reported exactly when nothing was changed. */
  lemma {:induction false} CompleteIffUnchanged(spec: FieldSpec, v: Json, at: Location)
    ensures Drops(spec, v, at) == [] <==> Project(spec, v) == Some(v)
    decreases spec, 1
  {
    match spec
    case ScalarSpec(_, _) =>
    case ObjectSpec(allow) =>
      if v.Object? {
        MembersComplete(spec, v.members, Ordering.KeysInOrder(v.members.Keys), at);
        KeptWhole(spec, v.members);
      }
    case ArraySpec(items) =>
      if v.Array? {
        ElementsComplete(items, v.elements, at);
      }
  }

  /** Nothing is reported exactly when the specification declares every place of the document. */
  lemma CompleteIffDeclared(spec: FieldSpec, v: Json, at: Location)
    ensures Drops(spec, v, at) == [] <==> Conforms(spec, v)
  {
    CompleteIffUnchanged(spec, v, at);
    ReleasedIsDeclared(spec, v);
  }

  lemma KeptWhole(spec: FieldSpec, members: map<string, Json>)
    requires spec.ObjectSpec?
    ensures ProjectMembers(spec, members) == members
      <==> forall k :: k in members ==> k in spec.allow && Project(spec.allow[k], members[k]) == Some(members[k])
  {
    var kept := ProjectMembers(spec, members);
    if kept == members {
      assert forall k :: k in members ==> k in kept;
    }
  }

  lemma {:induction false} MembersComplete(spec: FieldSpec, members: map<string, Json>, keys: seq<string>, at: Location)
    requires spec.ObjectSpec? && forall k :: k in keys ==> k in members
    ensures MemberDrops(spec, members, keys, at) == []
      <==> forall k :: k in keys ==> k in spec.allow && Project(spec.allow[k], members[k]) == Some(members[k])
    decreases spec, 0, |keys|
  {
    if keys != [] {
      var last := |keys| - 1;
      var k := keys[last];
      assert keys == keys[..last] + [k];
      MembersComplete(spec, members, keys[..last], at);
      if k in spec.allow {
        CompleteIffUnchanged(spec.allow[k], members[k], at + [Key(k)]);
      }
    }
  }

  lemma {:induction false} ElementsComplete(items: FieldSpec, es: seq<Json>, at: Location)
    ensures ElementDrops(items, es, at) == [] <==> ProjectElements(items, es) == es
    decreases items, 2, |es|
  {
    if es != [] {
      var last := |es| - 1;
      assert es == es[..last] + [es[last]];
      ElementsComplete(items, es[..last], at);
      CompleteIffUnchanged(items, es[last], at + [Index(last)]);
      ElementsShrink(items, es[..last]);
      var kept := ProjectElements(items, es[..last]);
      if ProjectElements(items, es) == es {
        assert Project(items, es[last]).Some?;
        assert es[..last] == kept;
      }
    }
  }

  /** A second pass changes nothing and drops nothing. */
  lemma ProjectionIsIdempotent(spec: FieldSpec, v: Json, at: Location)
    requires Project(spec, v).Some?
    ensures Project(spec, Project(spec, v).value) == Project(spec, v)
    ensures Drops(spec, Project(spec, v).value, at) == []
  {
    NarrowerReflexive(spec);
    NarrowerComposes(spec, spec, v);
    CompleteIffUnchanged(spec, Project(spec, v).value, at);
  }
}
