/** When a reported path has exactly one reading, and when it does not. */
module DropPaths {
  import opened Accounting
  import opened Documents
  import Ident
  import opened Projection
  import opened Schema
  import opened Text

  predicate CleanKey(k: string) {
    '.' !in k && '[' !in k && ']' !in k
  }

  /** No key on the way carries a separator, and only the last may be empty. */
  ghost predicate CleanSteps(at: Location) {
    forall i :: 0 <= i < |at| && at[i].Key? ==> CleanKey(at[i].name) && (i < |at| - 1 ==> at[i].name != "")
  }

  /** A place inside an object that a path can name. */
  ghost predicate Readable(at: Location) {
    at != [] && at[0].Key? && CleanSteps(at)
  }

  lemma {:induction false} RenderNonEmpty(at: Location)
    requires at != [] && at[0].Key? && forall i :: 0 <= i < |at| && at[i].Key? ==> at[i].name != ""
    ensures Render(at) != ""
  {
    var init := at[..|at| - 1];
    if init != [] {
      RenderNonEmpty(init);
    }
  }

  /** The parts of a readable rendering: what came before, and the last step. */
  lemma RenderSplits(at: Location)
    requires Readable(at)
    ensures var init, last := at[..|at| - 1], at[|at| - 1];
      match last
      case Index(i) => Readable(init) && Render(at) == Render(init) + ['['] + Decimal(i) + "]"
      case Key(k) =>
        if init == [] then Render(at) == k
        else Readable(init) && Render(init) != "" && Render(at) == Render(init) + ['.'] + k && '.' in Render(at)
  {
    var init := at[..|at| - 1];
    if init != [] {
      assert init[0] == at[0];
      RenderNonEmpty(init);
      if at[|at| - 1].Key? {
        assert Render(at)[|Render(init)|] == '.';
      }
    }
  }

  lemma EndsInBracket(at: Location)
    requires Readable(at)
    ensures (Render(at) != "" && Render(at)[|Render(at)| - 1] == ']') <==> at[|at| - 1].Index?
  {
    RenderSplits(at);
  }

  /** Rendering is injective on readable places: a path has one reading. */
  lemma {:induction false} RenderInjective(p: Location, q: Location)
    requires Readable(p) && Readable(q)
    requires Render(p) == Render(q)
    ensures p == q
    decreases |p|
  {
    var pi, qi, pl, ql := p[..|p| - 1], q[..|q| - 1], p[|p| - 1], q[|q| - 1];
    RenderSplits(p);
    RenderSplits(q);
    EndsInBracket(p);
    EndsInBracket(q);
    assert p == pi + [pl] && q == qi + [ql];
    if pl.Index? {
      var a, b := Render(pi) + ['['] + Decimal(pl.position), Render(qi) + ['['] + Decimal(ql.position);
      assert a == Render(p)[..|Render(p)| - 1] && b == Render(q)[..|Render(q)| - 1];
      LastSplitUnique(Render(pi), Decimal(pl.position), '[', Render(qi), Decimal(ql.position));
      DecimalInjective(pl.position, ql.position);
      RenderInjective(pi, qi);
    } else if pi != [] && qi != [] {
      LastSplitUnique(Render(pi), pl.name, '.', Render(qi), ql.name);
      RenderInjective(pi, qi);
    }
  }

  /** No key of the document, at any depth, carries a separator. */
  ghost predicate CleanDocument(v: Json) {
    match v
    case Object(ms) => forall k :: k in ms ==> CleanKey(k) && CleanDocument(ms[k])
    case Array(es) => forall i :: 0 <= i < |es| ==> CleanDocument(es[i])
    case _ => true
  }

  lemma {:induction false} JustifiedIsClean(spec: FieldSpec, v: Json, at: Location, reason: DropReason)
    requires WellNamed(spec) && CleanDocument(v) && Justified(spec, v, at, reason)
    ensures CleanSteps(at)
    decreases at
  {
    if at != [] {
      match (spec, at[0])
      case (ObjectSpec(allow), Key(k)) =>
        if k in allow {
          JustifiedIsClean(allow[k], v.members[k], at[1..], reason);
        }
      case (ArraySpec(items), Index(i)) => JustifiedIsClean(items, v.elements[i], at[1..], reason);
      forall i | 0 <= i < |at| && at[i].Key? ensures CleanKey(at[i].name) && (i < |at| - 1 ==> at[i].name != "") {
        if i > 0 {
          assert at[i] == at[1..][i - 1];
        }
      }
    }
  }

  /** The reported paths of this projection are pairwise distinct. */
  ghost predicate OneReadingEach(spec: FieldSpec, payload: Json) {
    var report := Report(Drops(spec, payload, []));
    forall i, j :: 0 <= i < j < |report| ==> report[i].path != report[j].path
  }

  /** Two reported places with one rendering have two readings. */
  lemma TwoReadings(spec: FieldSpec, payload: Json, p: Drop, q: Drop)
    requires p in Drops(spec, payload, []) && q in Drops(spec, payload, [])
    requires p != q && Render(p.at) == Render(q.at)
    ensures !OneReadingEach(spec, payload)
  {
    var ds := Drops(spec, payload, []);
    var i :| 0 <= i < |ds| && ds[i] == p;
    var j :| 0 <= j < |ds| && ds[j] == q;
    var report := Report(ds);
    assert report[i].path == report[j].path;
    assert i < j || j < i;
  }

  /** Over separator-free names and keys, the reported paths of one projection are pairwise distinct. */
  lemma ReportedPathsDistinct(schema: CollectionSchema, payload: Json)
    requires WellNamed(Released(schema)) && CleanDocument(payload) && payload.Object?
    ensures forall d :: d in Drops(Released(schema), payload, []) ==> Readable(d.at)
    ensures OneReadingEach(Released(schema), payload)
  {
    var spec := Released(schema);
    var ds := Drops(spec, payload, []);
    forall d | d in ds ensures Readable(d.at) {
      ReportedIsJustified(spec, payload, [], d);
      assert d.at[0..] == d.at;
      JustifiedIsClean(spec, payload, d.at, d.reason);
    }
    ReportedOnce(spec, payload, []);
    forall i, j | 0 <= i < j < |ds| ensures Report(ds)[i].path != Report(ds)[j].path {
      assert ds[i] in ds && ds[j] in ds;
      if Render(ds[i].at) == Render(ds[j].at) {
        RenderInjective(ds[i].at, ds[j].at);
      }
    }
  }

  // ----- Payload keys may carry separators -----

  /** No declared field holds anything below it. */
  ghost predicate Flat(schema: CollectionSchema) {
    forall k :: k in schema.fields ==> schema.fields[k].ScalarSpec?
  }

  /**
   * Refusing dots in field names is not enough: a payload key may carry one. Whatever object field a
   * schema declares, a payload can report two different places under one path.
   */
  lemma DottedKeyIsAmbiguous(schema: CollectionSchema, outer: string, inner: string, lost: Json)
    requires WellNamed(Released(schema))
    requires outer in schema.fields && schema.fields[outer].ObjectSpec? && inner !in schema.fields[outer].allow
    ensures var dotted := outer + "." + inner;
      !OneReadingEach(Released(schema), Object(map[outer := Object(map[inner := lost]), dotted := lost]))
  {
    var dotted := outer + "." + inner;
    var spec, v := Released(schema), Object(map[outer := Object(map[inner := lost]), dotted := lost]);
    assert dotted[|outer|] == '.' && !Ident.ValidFieldName(dotted) by { assert Ident.BadInFieldName('.'); }
    assert dotted !in schema.fields;
    var p, q: Location := [Key(outer), Key(inner)], [Key(dotted)];
    assert p[0] != q[0];
    assert Justified(schema.fields[outer], v.members[outer], p[1..], UnknownKey);
    Reported(spec, v, p, UnknownKey);
    Reported(spec, v, q, UnknownKey);
    RenderNested(outer, Key(inner));
    TwoReadings(spec, v, Drop(p, UnknownKey), Drop(q, UnknownKey));
  }

  lemma Reported(spec: FieldSpec, v: Json, at: Location, reason: DropReason)
    requires Justified(spec, v, at, reason)
    ensures Drop(at, reason) in Drops(spec, v, [])
  {
    JustifiedIsReported(spec, v, [], at, reason);
    assert [] + at == at;
  }

  lemma RenderNested(outer: string, step: Step)
    requires outer != ""
    ensures Render([Key(outer), step]) == match step
      case Key(inner) => outer + "." + inner
      case Index(i) => outer + "[" + Decimal(i) + "]"
    ensures forall k :: Render([Key(k)]) == k
  {
    assert [Key(outer), step][..1] == [Key(outer)];
    assert [Key(outer)][..0] == [];
    forall k ensures Render([Key(k)]) == k {
      assert [Key(k)][..0] == [];
    }
  }

  /** A value this specification refuses. */
  function Refused(spec: FieldSpec): Json {
    if spec.ScalarSpec? then EMPTY_DOCUMENT else Null
  }

  /** A refused element is reported where it is. */
  lemma ElementReported(schema: CollectionSchema, payload: Json, k: string, reason: DropReason)
    requires payload.Object? && k in payload.members && k in schema.fields && schema.fields[k].ArraySpec?
    requires payload.members[k] == Array([Refused(schema.fields[k].items)])
    requires reason == TypeMismatch(schema.fields[k].items.Kind(), KindOf(Refused(schema.fields[k].items)))
    ensures Drop([Key(k), Index(0)], reason) in Drops(Released(schema), payload, [])
  {
    var at: Location := [Key(k), Index(0)];
    assert at[1..][0] == Index(0) && at[1..][1..] == [];
    assert Justified(schema.fields[k].items, Refused(schema.fields[k].items), [], reason);
    assert Justified(schema.fields[k], payload.members[k], at[1..], reason);
    Reported(Released(schema), payload, at, reason);
  }

  /** What a payload holds at a top-level key for that key to be reported. */
  function Unwanted(schema: CollectionSchema, k: string): Json {
    if k in schema.fields then Refused(schema.fields[k]) else Null
  }

  lemma KeyReported(schema: CollectionSchema, payload: Json, k: string) returns (reason: DropReason)
    requires payload.Object? && k in payload.members && payload.members[k] == Unwanted(schema, k)
    ensures Drop([Key(k)], reason) in Drops(Released(schema), payload, [])
  {
    var at: Location := [Key(k)];
    reason :=
      if k in schema.fields then TypeMismatch(schema.fields[k].Kind(), KindOf(payload.members[k])) else UnknownKey;
    assert k in schema.fields ==> Justified(schema.fields[k], payload.members[k], at[1..], reason);
    Reported(Released(schema), payload, at, reason);
  }

  /** Nor is a bracketed key kept apart from an array element. */
  lemma BracketedKeyIsAmbiguous(schema: CollectionSchema, outer: string)
    requires WellNamed(Released(schema))
    requires outer in schema.fields && schema.fields[outer].ArraySpec?
    ensures var bracketed := outer + "[0]";
      !OneReadingEach(Released(schema),
        Object(map[outer := Array([Refused(schema.fields[outer].items)]), bracketed := Unwanted(schema, bracketed)]))
  {
    var bracketed := outer + "[0]";
    assert bracketed != outer by { assert |bracketed| > |outer|; }
    var items := schema.fields[outer].items;
    var v := Object(map[outer := Array([Refused(items)]), bracketed := Unwanted(schema, bracketed)]);
    var r := TypeMismatch(items.Kind(), KindOf(Refused(items)));
    ElementReported(schema, v, outer, r);
    var s := KeyReported(schema, v, bracketed);
    RenderNested(outer, Index(0));
    var p, q := Drop([Key(outer), Index(0)], r), Drop([Key(bracketed)], s);
    assert |p.at| != |q.at|;
    TwoReadings(Released(schema), v, p, q);
  }

  /** With nothing below the top level, every place is a key and every path is that key. */
  lemma FlatReportsKeys(schema: CollectionSchema, payload: Json)
    requires Flat(schema) && payload.Object?
    ensures OneReadingEach(Released(schema), payload)
  {
    var spec := Released(schema);
    var ds := Drops(spec, payload, []);
    forall d | d in ds ensures |d.at| == 1 && d.at[0].Key? && Render(d.at) == d.at[0].name {
      ReportedIsJustified(spec, payload, [], d);
      assert d.at[0..] == d.at;
      assert |d.at| == 1 ==> d.at == [d.at[0]] && d.at[..0] == [];
    }
    ReportedOnce(spec, payload, []);
    forall i, j | 0 <= i < j < |ds| ensures Report(ds)[i].path != Report(ds)[j].path {
      assert ds[i] in ds && ds[j] in ds;
      assert ds[i].at == [ds[i].at[0]] && ds[j].at == [ds[j].at[0]];
    }
  }

  /** A schema's reports have one reading each, for every payload, exactly when it declares scalars only. */
  lemma UnambiguousIffFlat(schema: CollectionSchema)
    requires WellNamed(Released(schema))
    ensures Flat(schema) <==> forall payload: Json :: payload.Object? ==> OneReadingEach(Released(schema), payload)
  {
    if Flat(schema) {
      forall payload: Json | payload.Object? ensures OneReadingEach(Released(schema), payload) {
        FlatReportsKeys(schema, payload);
      }
    } else {
      var k :| k in schema.fields && !schema.fields[k].ScalarSpec?;
      if schema.fields[k].ObjectSpec? {
        DottedKeyIsAmbiguous(schema, k, "", Null);
      } else {
        BracketedKeyIsAmbiguous(schema, k);
      }
    }
  }
}
