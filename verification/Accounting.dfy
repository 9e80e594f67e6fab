/** Nothing disappears silently: every scalar of a payload is kept or lies under one reported place. */
module Accounting {
  import opened Documents
  import Ordering
  import opened Projection
  import opened Schema
  import opened Wrappers

  // ----- Which drops are justified -----

  /** Read off the input alone: the value at `at` is removed, for this reason. */
  ghost predicate Justified(spec: FieldSpec, v: Json, at: Location, reason: DropReason)
    decreases at
  {
    if at == [] then
      && reason == TypeMismatch(spec.Kind(), KindOf(v))
      && match spec
         case ScalarSpec(ty, _) => !Accepts(ty, v)
         case ObjectSpec(_) => !v.Object?
         case ArraySpec(_) => !v.Array?
    else
      match (spec, at[0])
      case (ObjectSpec(allow), Key(k)) =>
        && v.Object? && k in v.members
        && if k in allow then Justified(allow[k], v.members[k], at[1..], reason) else |at| == 1 && reason == UnknownKey
      case (ArraySpec(items), Index(i)) =>
        v.Array? && i < |v.elements| && Justified(items, v.elements[i], at[1..], reason)
      case _ => false
  }

  /** A justified drop names a value the input really has. */
  lemma {:induction false} JustifiedIsReal(spec: FieldSpec, v: Json, at: Location, reason: DropReason)
    requires Justified(spec, v, at, reason)
    ensures At(v, at).Some?
    decreases at
  {
    if at != [] {
      match (spec, at[0])
      case (ObjectSpec(allow), Key(k)) =>
        if k in allow {
          JustifiedIsReal(allow[k], v.members[k], at[1..], reason);
        }
      case (ArraySpec(items), Index(i)) => JustifiedIsReal(items, v.elements[i], at[1..], reason);
    }
  }

  /** No removed value lies inside another removed value. */
  lemma {:induction false} JustifiedPrefixUnique(
    spec: FieldSpec, v: Json, p: Location, r1: DropReason, q: Location, r2: DropReason)
    requires Justified(spec, v, p, r1) && Justified(spec, v, q, r2)
    requires IsPrefix(p, q)
    ensures p == q && r1 == r2
    decreases p
  {
    if p != [] {
      assert q[0] == p[0];
      assert q[1..][..|p| - 1] == p[1..];
      match (spec, p[0])
      case (ObjectSpec(allow), Key(k)) =>
        if k in allow {
          JustifiedPrefixUnique(allow[k], v.members[k], p[1..], r1, q[1..], r2);
        }
      case (ArraySpec(items), Index(i)) =>
        JustifiedPrefixUnique(items, v.elements[i], p[1..], r1, q[1..], r2);
      assert p == [p[0]] + p[1..] && q == [q[0]] + q[1..];
    }
  }

  // ----- The report holds exactly the justified drops -----

  ghost predicate Extends(at: Location, d: Drop) {
    IsPrefix(at, d.at)
  }

  lemma ExtendsStep(at: Location, step: Step, d: Drop)
    requires Extends(at + [step], d)
    ensures Extends(at, d) && d.at[|at|..][0] == step && d.at[|at|..][1..] == d.at[|at| + 1..]
    ensures |d.at| > |at|
  {
    assert d.at[..|at| + 1] == at + [step];
    assert d.at[..|at|] == d.at[..|at| + 1][..|at|];
  }

  /** Every reported drop lies under `at` and is justified. */
  lemma {:induction false} ReportedIsJustified(spec: FieldSpec, v: Json, at: Location, d: Drop)
    requires d in Drops(spec, v, at)
    ensures Extends(at, d) && Justified(spec, v, d.at[|at|..], d.reason)
    decreases spec, 1
  {
    match spec
    case ScalarSpec(_, _) =>
    case ObjectSpec(_) =>
      if v.Object? {
        MemberReportedIsJustified(spec, v, Ordering.KeysInOrder(v.members.Keys), at, d);
      }
    case ArraySpec(items) =>
      if v.Array? {
        assert v.elements[..|v.elements|] == v.elements;
        ElementReportedIsJustified(spec, v, |v.elements|, at, d);
      }
  }

  lemma {:induction false} MemberReportedIsJustified(spec: FieldSpec, v: Json, keys: seq<string>, at: Location, d: Drop)
    requires spec.ObjectSpec? && v.Object? && forall k :: k in keys ==> k in v.members
    requires d in MemberDrops(spec, v.members, keys, at)
    ensures Extends(at, d) && Justified(spec, v, d.at[|at|..], d.reason)
    ensures |d.at| > |at| && d.at[|at|].Key? && d.at[|at|].name in keys
    decreases spec, 0, |keys|
  {
    var init, k := keys[..|keys| - 1], keys[|keys| - 1];
    if d in MemberDrops(spec, v.members, init, at) {
      MemberReportedIsJustified(spec, v, init, at, d);
    } else {
      if k in spec.allow {
        ReportedIsJustified(spec.allow[k], v.members[k], at + [Key(k)], d);
      }
      ExtendsStep(at, Key(k), d);
    }
  }

  lemma {:induction false} ElementReportedIsJustified(spec: FieldSpec, v: Json, n: nat, at: Location, d: Drop)
    requires spec.ArraySpec? && v.Array? && n <= |v.elements|
    requires d in ElementDrops(spec.items, v.elements[..n], at)
    ensures Extends(at, d) && Justified(spec, v, d.at[|at|..], d.reason)
    ensures |d.at| > |at| && d.at[|at|].Index? && d.at[|at|].position < n
    decreases spec, 0, n
  {
    var prefix := v.elements[..n];
    assert prefix[..n - 1] == v.elements[..n - 1];
    if d in ElementDrops(spec.items, v.elements[..n - 1], at) {
      ElementReportedIsJustified(spec, v, n - 1, at, d);
    } else {
      ReportedIsJustified(spec.items, v.elements[n - 1], at + [Index(n - 1)], d);
      ExtendsStep(at, Index(n - 1), d);
    }
  }

  /** Every justified drop is reported. */
  lemma {:induction false} JustifiedIsReported(
    spec: FieldSpec, v: Json, at: Location, more: Location, reason: DropReason)
    requires Justified(spec, v, more, reason)
    ensures Drop(at + more, reason) in Drops(spec, v, at)
    decreases more
  {
    if more == [] {
      assert at + more == at;
    } else {
      var below := at + [more[0]];
      assert at + more == below + more[1..];
      match (spec, more[0])
      case (ObjectSpec(allow), Key(k)) =>
        var keys := Ordering.KeysInOrder(v.members.Keys);
        assert k in keys;
        if k in allow {
          JustifiedIsReported(allow[k], v.members[k], below, more[1..], reason);
        } else {
          assert at + more == below;
        }
        MemberDropsInclude(spec, v.members, keys, k, at, Drop(at + more, reason));
      case (ArraySpec(items), Index(i)) =>
        JustifiedIsReported(items, v.elements[i], below, more[1..], reason);
        ElementDropsInclude(items, v.elements, i, at, Drop(at + more, reason));
    }
  }

  lemma {:induction false} MemberDropsInclude(
    spec: FieldSpec, members: map<string, Json>, keys: seq<string>, k: string, at: Location, d: Drop)
    requires spec.ObjectSpec? && (forall x :: x in keys ==> x in members) && k in keys
    requires d in DropsAtKey(spec, k, members[k], at + [Key(k)])
    ensures d in MemberDrops(spec, members, keys, at)
    decreases |keys|
  {
    if keys[|keys| - 1] != k {
      assert keys == keys[..|keys| - 1] + [keys[|keys| - 1]];
      MemberDropsInclude(spec, members, keys[..|keys| - 1], k, at, d);
    }
  }

  lemma {:induction false} ElementDropsInclude(items: FieldSpec, es: seq<Json>, i: nat, at: Location, d: Drop)
    requires i < |es| && d in Drops(items, es[i], at + [Index(i)])
    ensures d in ElementDrops(items, es, at)
    decreases |es|
  {
    if i < |es| - 1 {
      ElementDropsInclude(items, es[..|es| - 1], i, at, d);
    }
  }

  /** No place is reported twice. */
  ghost predicate NoRepeats(drops: seq<Drop>) {
    forall i, j :: 0 <= i < j < |drops| ==> drops[i].at != drops[j].at
  }

  lemma NoRepeatsConcat(a: seq<Drop>, b: seq<Drop>)
    requires NoRepeats(a) && NoRepeats(b)
    requires forall x, y :: x in a && y in b ==> x.at != y.at
    ensures NoRepeats(a + b)
  {
    forall i, j | 0 <= i < j < |a + b| ensures (a + b)[i].at != (a + b)[j].at {
      if i < |a| && j >= |a| {
        assert a[i] in a && b[j - |a|] in b;
      }
    }
  }

  lemma {:induction false} ReportedOnce(spec: FieldSpec, v: Json, at: Location)
    ensures NoRepeats(Drops(spec, v, at))
    decreases spec, 1
  {
    match spec
    case ScalarSpec(_, _) =>
    case ObjectSpec(_) =>
      if v.Object? {
        MembersReportedOnce(spec, v, Ordering.KeysInOrder(v.members.Keys), at);
      }
    case ArraySpec(items) =>
      if v.Array? {
        ElementsReportedOnce(spec, v, |v.elements|, at);
        assert v.elements[..|v.elements|] == v.elements;
      }
  }

  lemma {:induction false} MembersReportedOnce(spec: FieldSpec, v: Json, keys: seq<string>, at: Location)
    requires spec.ObjectSpec? && v.Object? && (forall k :: k in keys ==> k in v.members) && Ordering.Distinct(keys)
    ensures NoRepeats(MemberDrops(spec, v.members, keys, at))
    decreases spec, 0, |keys|
  {
    if keys != [] {
      var init, k := keys[..|keys| - 1], keys[|keys| - 1];
      var a, b := MemberDrops(spec, v.members, init, at), DropsAtKey(spec, k, v.members[k], at + [Key(k)]);
      MembersReportedOnce(spec, v, init, at);
      if k in spec.allow {
        ReportedOnce(spec.allow[k], v.members[k], at + [Key(k)]);
      }
      forall x, y | x in a && y in b ensures x.at != y.at {
        MemberReportedIsJustified(spec, v, init, at, x);
        if k in spec.allow {
          ReportedIsJustified(spec.allow[k], v.members[k], at + [Key(k)], y);
        }
        ExtendsStep(at, Key(k), y);
      }
      NoRepeatsConcat(a, b);
    }
  }

  lemma {:induction false} ElementsReportedOnce(spec: FieldSpec, v: Json, n: nat, at: Location)
    requires spec.ArraySpec? && v.Array? && n <= |v.elements|
    ensures NoRepeats(ElementDrops(spec.items, v.elements[..n], at))
    decreases spec, 0, n
  {
    if n > 0 {
      assert v.elements[..n][..n - 1] == v.elements[..n - 1];
      var a := ElementDrops(spec.items, v.elements[..n - 1], at);
      var b := Drops(spec.items, v.elements[n - 1], at + [Index(n - 1)]);
      ElementsReportedOnce(spec, v, n - 1, at);
      ReportedOnce(spec.items, v.elements[n - 1], at + [Index(n - 1)]);
      forall x, y | x in a && y in b ensures x.at != y.at {
        ElementReportedIsJustified(spec, v, n - 1, at, x);
        ReportedIsJustified(spec.items, v.elements[n - 1], at + [Index(n - 1)], y);
        ExtendsStep(at, Index(n - 1), y);
      }
      NoRepeatsConcat(a, b);
    }
  }

  /** The report is the set of justified drops, each once, none inside another. */
  lemma ReportIsExact(spec: FieldSpec, v: Json)
    ensures forall at, reason :: Drop(at, reason) in Drops(spec, v, []) <==> Justified(spec, v, at, reason)
    ensures forall d :: d in Drops(spec, v, []) ==> At(v, d.at).Some?
    ensures var ds := Drops(spec, v, []);
      forall i, j :: 0 <= i < |ds| && 0 <= j < |ds| && IsPrefix(ds[i].at, ds[j].at) ==> i == j
  {
    forall at, reason ensures Drop(at, reason) in Drops(spec, v, []) <==> Justified(spec, v, at, reason) {
      if Drop(at, reason) in Drops(spec, v, []) {
        ReportedIsJustified(spec, v, [], Drop(at, reason));
        assert at[0..] == at;
      }
      if Justified(spec, v, at, reason) {
        JustifiedIsReported(spec, v, [], at, reason);
        assert [] + at == at;
      }
    }
    var ds := Drops(spec, v, []);
    forall d | d in ds ensures At(v, d.at).Some? {
      JustifiedIsReal(spec, v, d.at, d.reason);
    }
    ReportedOnce(spec, v, []);
    forall i, j | 0 <= i < |ds| && 0 <= j < |ds| && IsPrefix(ds[i].at, ds[j].at) ensures i == j {
      assert ds[i] in ds && ds[j] in ds;
      JustifiedPrefixUnique(spec, v, ds[i].at, ds[i].reason, ds[j].at, ds[j].reason);
    }
  }

  // ----- Where each scalar ends up -----

  /** Where the value at `at` is found after projection, if it survives. */
  ghost function Image(spec: FieldSpec, v: Json, at: Location): Option<Location>
    decreases spec
  {
    match spec
    case ScalarSpec(ty, _) => if Accepts(ty, v) then Some(at) else None
    case ObjectSpec(allow) =>
      if at != [] && at[0].Key? && v.Object? && at[0].name in v.members && at[0].name in allow then
        Under(at[0], Image(allow[at[0].name], v.members[at[0].name], at[1..]))
      else None
    case ArraySpec(items) =>
      if at != [] && at[0].Index? && v.Array? && at[0].position < |v.elements| then
        Under(Index(|ProjectElements(items, v.elements[..at[0].position])|),
              Image(items, v.elements[at[0].position], at[1..]))
      else None
  }

  ghost function Under(step: Step, at: Option<Location>): Option<Location> {
    match at
    case Some(rest) => Some([step] + rest)
    case None => None
  }

  /** A kept element is found after the kept elements before it. */
  lemma {:induction false} KeptElementAt(items: FieldSpec, es: seq<Json>, i: nat)
    requires i < |es| && Project(items, es[i]).Some?
    ensures var n := |ProjectElements(items, es[..i])|;
      n < |ProjectElements(items, es)| && ProjectElements(items, es)[n] == Project(items, es[i]).value
    decreases |es|
  {
    if i < |es| - 1 {
      assert es[..|es| - 1][..i] == es[..i];
      KeptElementAt(items, es[..|es| - 1], i);
    }
  }

  /** A surviving value is found, unchanged, at its image. */
  lemma {:induction false} ImageHoldsValue(spec: FieldSpec, v: Json, at: Location)
    requires At(v, at).Some? && IsScalar(At(v, at).value)
    requires Image(spec, v, at).Some?
    ensures Project(spec, v).Some? && At(Project(spec, v).value, Image(spec, v, at).value) == At(v, at)
    decreases spec
  {
    match spec
    case ScalarSpec(_, _) =>
    case ObjectSpec(allow) =>
      var k := at[0].name;
      ImageHoldsValue(allow[k], v.members[k], at[1..]);
      assert Image(spec, v, at).value[1..] == Image(allow[k], v.members[k], at[1..]).value;
    case ArraySpec(items) =>
      var i := at[0].position;
      ImageHoldsValue(items, v.elements[i], at[1..]);
      KeptElementAt(items, v.elements, i);
      assert Image(spec, v, at).value[1..] == Image(items, v.elements[i], at[1..]).value;
  }

  /** Projection never merges two values. */
  lemma {:induction false} ImageInjective(spec: FieldSpec, v: Json, p: Location, q: Location)
    requires At(v, p).Some? && At(v, q).Some?
    requires Image(spec, v, p).Some? && Image(spec, v, p) == Image(spec, v, q)
    ensures p == q
    decreases spec
  {
    match spec
    case ScalarSpec(_, _) =>
    case ObjectSpec(allow) =>
      assert Image(spec, v, p).value[0] == p[0] && Image(spec, v, q).value[0] == q[0];
      var k := p[0].name;
      assert Image(spec, v, p).value[1..] == Image(allow[k], v.members[k], p[1..]).value;
      assert Image(spec, v, q).value[1..] == Image(allow[k], v.members[k], q[1..]).value;
      ImageInjective(allow[k], v.members[k], p[1..], q[1..]);
      assert p == [p[0]] + p[1..] && q == [q[0]] + q[1..];
    case ArraySpec(items) =>
      var i, j := p[0].position, q[0].position;
      assert Image(spec, v, p).value[1..] == Image(items, v.elements[i], p[1..]).value;
      assert Image(spec, v, q).value[1..] == Image(items, v.elements[j], q[1..]).value;
      ImageMeansKept(items, v.elements[i], p[1..]);
      ImageMeansKept(items, v.elements[j], q[1..]);
      if i < j {
        KeptBefore(items, v.elements, i, j);
      } else if j < i {
        KeptBefore(items, v.elements, j, i);
      }
      ImageInjective(items, v.elements[i], p[1..], q[1..]);
      assert p == [p[0]] + p[1..] && q == [q[0]] + q[1..];
  }

  lemma ImageMeansKept(spec: FieldSpec, v: Json, at: Location)
    requires Image(spec, v, at).Some?
    ensures Project(spec, v).Some?
  {
  }

  lemma {:induction false} KeptBefore(items: FieldSpec, es: seq<Json>, i: nat, j: nat)
    requires i < j <= |es| && Project(items, es[i]).Some?
    ensures |ProjectElements(items, es[..i])| < |ProjectElements(items, es[..j])|
  {
    assert es[..j][..i] == es[..i];
    KeptElementAt(items, es[..j], i);
  }

  /** The first `n` steps of a location reach a removed value. */
  ghost predicate CutAt(spec: FieldSpec, v: Json, at: Location, n: nat, reason: DropReason) {
    n <= |at| && Justified(spec, v, at[..n], reason)
  }

  ghost predicate Covered(spec: FieldSpec, v: Json, at: Location) {
    exists n: nat, reason :: CutAt(spec, v, at, n, reason)
  }

  /** A scalar is lost exactly when some justified drop covers it. */
  lemma {:induction false} LostIffCovered(spec: FieldSpec, v: Json, at: Location)
    requires At(v, at).Some? && IsScalar(At(v, at).value)
    ensures Image(spec, v, at).None? <==> Covered(spec, v, at)
    decreases spec
  {
    var here := TypeMismatch(spec.Kind(), KindOf(v));
    assert at[..0] == [];
    if Justified(spec, v, [], here) {
      assert CutAt(spec, v, at, 0, here);
    } else {
      match spec
      case ScalarSpec(_, _) =>
        assert at == [];
      case ObjectSpec(allow) =>
        var k := at[0].name;
        if k in allow {
          LostIffCovered(allow[k], v.members[k], at[1..]);
          CoverBelow(spec, allow[k], v, v.members[k], at);
        } else {
          assert at[..1] == [at[0]];
          assert CutAt(spec, v, at, 1, UnknownKey);
        }
      case ArraySpec(items) =>
        var i := at[0].position;
        LostIffCovered(items, v.elements[i], at[1..]);
        CoverBelow(spec, items, v, v.elements[i], at);
    }
  }

  /** One level down, the covering drop is the same one. */
  lemma CoverBelow(spec: FieldSpec, inner: FieldSpec, v: Json, w: Json, at: Location)
    requires at != []
    requires forall reason :: !Justified(spec, v, [], reason)
    requires forall p: Location, reason :: p != [] && p[0] == at[0] ==>
      (Justified(spec, v, p, reason) <==> Justified(inner, w, p[1..], reason))
    ensures Covered(spec, v, at) <==> Covered(inner, w, at[1..])
  {
    if Covered(spec, v, at) {
      var n: nat, reason :| CutAt(spec, v, at, n, reason);
      assert at[..0] == [] && n > 0;
      assert at[..n][1..] == at[1..][..n - 1];
      assert CutAt(inner, w, at[1..], n - 1, reason);
    }
    if Covered(inner, w, at[1..]) {
      var n: nat, reason :| CutAt(inner, w, at[1..], n, reason);
      assert at[..n + 1][1..] == at[1..][..n];
      assert CutAt(spec, v, at, n + 1, reason);
    }
  }

  /** The reported drops that cover a location. */
  ghost function Covering(drops: seq<Drop>, at: Location): set<int> {
    set i | 0 <= i < |drops| && IsPrefix(drops[i].at, at)
  }

  /** Of the prefixes of one location, one is a prefix of the other. */
  lemma PrefixesComparable(p: Location, q: Location, at: Location)
    requires IsPrefix(p, at) && IsPrefix(q, at)
    ensures IsPrefix(p, q) || IsPrefix(q, p)
  {
    if |p| <= |q| {
      assert at[..|q|][..|p|] == at[..|p|];
    } else {
      assert at[..|p|][..|q|] == at[..|q|];
    }
  }

  /** No location is covered twice. */
  lemma CoveredOnce(spec: FieldSpec, v: Json, at: Location, i: int, j: int)
    requires i in Covering(Drops(spec, v, []), at) && j in Covering(Drops(spec, v, []), at)
    ensures i == j
  {
    var ds := Drops(spec, v, []);
    ReportIsExact(spec, v);
    PrefixesComparable(ds[i].at, ds[j].at, at);
  }

  /** The report covers a location exactly when a justified drop does. */
  lemma CoveringIsCovered(spec: FieldSpec, v: Json, at: Location)
    ensures Covering(Drops(spec, v, []), at) != {} <==> Covered(spec, v, at)
  {
    if i :| i in Covering(Drops(spec, v, []), at) {
      ReportCovers(spec, v, at, i);
    }
    if Covered(spec, v, at) {
      var n: nat, reason :| CutAt(spec, v, at, n, reason);
      CutIsReported(spec, v, at, n, reason);
    }
  }

  lemma ReportCovers(spec: FieldSpec, v: Json, at: Location, i: int)
    requires i in Covering(Drops(spec, v, []), at)
    ensures Covered(spec, v, at)
  {
    var d := Drops(spec, v, [])[i];
    ReportedIsJustified(spec, v, [], d);
    assert d.at[0..] == d.at;
    assert CutAt(spec, v, at, |d.at|, d.reason);
  }

  lemma CutIsReported(spec: FieldSpec, v: Json, at: Location, n: nat, reason: DropReason)
    requires CutAt(spec, v, at, n, reason)
    ensures Covering(Drops(spec, v, []), at) != {}
  {
    var ds := Drops(spec, v, []);
    JustifiedIsReported(spec, v, [], at[..n], reason);
    assert [] + at[..n] == at[..n];
    var i :| 0 <= i < |ds| && ds[i] == Drop(at[..n], reason);
    assert i in Covering(ds, at);
  }

  /**
   * The fate of a scalar: it survives unchanged at its image and no report covers it, or it is gone
   * and exactly one reported place covers it.
   */
  lemma ScalarFate(spec: FieldSpec, v: Json, at: Location)
    requires At(v, at).Some? && IsScalar(At(v, at).value)
    ensures var cover, image := Covering(Drops(spec, v, []), at), Image(spec, v, at);
      if image.Some? then
        cover == {} && Project(spec, v).Some? && At(Project(spec, v).value, image.value) == At(v, at)
      else
        exists i :: cover == {i}
  {
    var cover := Covering(Drops(spec, v, []), at);
    LostIffCovered(spec, v, at);
    CoveringIsCovered(spec, v, at);
    if Image(spec, v, at).Some? {
      ImageHoldsValue(spec, v, at);
    } else {
      var i :| i in cover;
      forall j | j in cover ensures j == i {
        CoveredOnce(spec, v, at, i, j);
      }
      assert cover == {i};
    }
  }

  // ----- The counts add up -----

  /** The scalars lost with the reported places. */
  ghost function Lost(root: Json, drops: seq<Drop>): nat {
    if drops == [] then 0
    else
      Lost(root, drops[..|drops| - 1])
      + match At(root, drops[|drops| - 1].at) case Some(v) => Scalars(v) case None => 0
  }

  lemma {:induction false} LostConcat(root: Json, a: seq<Drop>, b: seq<Drop>)
    ensures Lost(root, a + b) == Lost(root, a) + Lost(root, b)
  {
    if b == [] {
      assert a + b == a;
    } else {
      assert (a + b)[..|a + b| - 1] == a + b[..|b| - 1];
      LostConcat(root, a, b[..|b| - 1]);
    }
  }

  lemma LostOne(root: Json, d: Drop, v: Json)
    requires At(root, d.at) == Some(v)
    ensures Lost(root, [d]) == Scalars(v)
  {
    assert [d][..0] == [];
  }

  ghost function KeptScalars(kept: Option<Json>): nat {
    match kept
    case Some(w) => Scalars(w)
    case None => 0
  }

  /** Kept scalars plus the scalars under reported places are all the scalars there were. */
  lemma {:induction false} ScalarsAddUp(root: Json, spec: FieldSpec, v: Json, at: Location)
    requires At(root, at) == Some(v)
    ensures Scalars(v) == KeptScalars(Project(spec, v)) + Lost(root, Drops(spec, v, at))
    decreases spec, 1
  {
    if Project(spec, v).None? {
      LostOne(root, Mismatch(spec, v, at), v);
    } else if spec.ObjectSpec? {
      ObjectAddsUp(root, spec, v, at);
    } else if spec.ArraySpec? {
      ElementsAddUp(root, spec, v, |v.elements|, at);
      assert v.elements[..|v.elements|] == v.elements;
    }
  }

  lemma {:induction false} ObjectAddsUp(root: Json, spec: FieldSpec, v: Json, at: Location)
    requires spec.ObjectSpec? && v.Object? && At(root, at) == Some(v)
    ensures Scalars(v) == Scalars(Object(ProjectMembers(spec, v.members))) + Lost(root, Drops(spec, v, at))
    decreases spec, 0, |Ordering.KeysInOrder(v.members.Keys)| + 1
  {
    var keys := Ordering.KeysInOrder(v.members.Keys);
    var kept := Object(ProjectMembers(spec, v.members));
    MembersAddUp(root, spec, v, keys, at);
    assert KeySet(keys) * v.members.Keys == v.members.Keys;
    assert KeySet(keys) * kept.members.Keys == kept.members.Keys;
  }

  ghost function KeySet(keys: seq<string>): set<string> {
    set k | k in keys
  }

  /** Counting one more key of an object, if the object has it. */
  lemma CountOneMore(w: Json, init: seq<string>, k: string)
    requires w.Object? && k !in init
    ensures ScalarsUnder(w, KeySet(init + [k]) * w.members.Keys)
         == ScalarsUnder(w, KeySet(init) * w.members.Keys) + if k in w.members then Scalars(w.members[k]) else 0
  {
    var before, after := KeySet(init) * w.members.Keys, KeySet(init + [k]) * w.members.Keys;
    if k in w.members {
      assert after == before + {k};
      ScalarsUnderAdd(w, before, k);
    } else {
      assert after == before;
    }
  }

  lemma {:induction false} MembersAddUp(root: Json, spec: FieldSpec, v: Json, keys: seq<string>, at: Location)
    requires spec.ObjectSpec? && v.Object? && At(root, at) == Some(v)
    requires (forall k :: k in keys ==> k in v.members) && Ordering.Distinct(keys)
    ensures var kept := Object(ProjectMembers(spec, v.members));
      ScalarsUnder(v, KeySet(keys) * v.members.Keys)
      == ScalarsUnder(kept, KeySet(keys) * kept.members.Keys) + Lost(root, MemberDrops(spec, v.members, keys, at))
    decreases spec, 0, |keys|
  {
    var kept := Object(ProjectMembers(spec, v.members));
    if keys == [] {
      assert KeySet(keys) * v.members.Keys == {} == KeySet(keys) * kept.members.Keys;
    } else {
      var init, k := keys[..|keys| - 1], keys[|keys| - 1];
      assert keys == init + [k];
      MembersAddUp(root, spec, v, init, at);
      CountOneMore(v, init, k);
      CountOneMore(kept, init, k);
      KeyAddsUp(root, spec, v, k, at);
      LostConcat(root, MemberDrops(spec, v.members, init, at), DropsAtKey(spec, k, v.members[k], at + [Key(k)]));
    }
  }

  lemma {:induction false} KeyAddsUp(root: Json, spec: FieldSpec, v: Json, k: string, at: Location)
    requires spec.ObjectSpec? && v.Object? && k in v.members && At(root, at) == Some(v)
    ensures Scalars(v.members[k])
         == (if k in spec.allow then KeptScalars(Project(spec.allow[k], v.members[k])) else 0)
            + Lost(root, DropsAtKey(spec, k, v.members[k], at + [Key(k)]))
    decreases spec, 0, 0
  {
    AtContinues(root, at, [Key(k)]);
    assert At(v, [Key(k)]) == At(v.members[k], [Key(k)][1..]);
    if k in spec.allow {
      ScalarsAddUp(root, spec.allow[k], v.members[k], at + [Key(k)]);
    } else {
      LostOne(root, Drop(at + [Key(k)], UnknownKey), v.members[k]);
    }
  }

  lemma {:induction false} ElementsAddUp(root: Json, spec: FieldSpec, v: Json, n: nat, at: Location)
    requires spec.ArraySpec? && v.Array? && At(root, at) == Some(v) && n <= |v.elements|
    ensures ElementScalars(v.elements[..n])
         == ElementScalars(ProjectElements(spec.items, v.elements[..n]))
            + Lost(root, ElementDrops(spec.items, v.elements[..n], at))
    decreases spec, 0, n
  {
    if n == 0 {
      assert v.elements[..0] == [];
    } else {
      var e, here := v.elements[n - 1], at + [Index(n - 1)];
      ElementsAddUp(root, spec, v, n - 1, at);
      AtContinues(root, at, [Index(n - 1)]);
      assert At(v, [Index(n - 1)]) == At(e, [Index(n - 1)][1..]);
      ScalarsAddUp(root, spec.items, e, here);
      OneMoreElement(spec.items, v.elements, n, at);
      LostConcat(root, ElementDrops(spec.items, v.elements[..n - 1], at), Drops(spec.items, e, here));
    }
  }

  /** What one more element adds to the scalars, to what is kept, and to what is reported. */
  lemma OneMoreElement(items: FieldSpec, es: seq<Json>, n: nat, at: Location)
    requires 0 < n <= |es|
    ensures ElementScalars(es[..n]) == ElementScalars(es[..n - 1]) + Scalars(es[n - 1])
    ensures ElementScalars(ProjectElements(items, es[..n]))
         == ElementScalars(ProjectElements(items, es[..n - 1])) + KeptScalars(Project(items, es[n - 1]))
    ensures ElementDrops(items, es[..n], at)
         == ElementDrops(items, es[..n - 1], at) + Drops(items, es[n - 1], at + [Index(n - 1)])
  {
    assert es[..n][..n - 1] == es[..n - 1];
    KeptAppended(ProjectElements(items, es[..n - 1]), Project(items, es[n - 1]));
  }

  lemma KeptAppended(kept: seq<Json>, more: Option<Json>)
    ensures ElementScalars(match more case Some(w) => kept + [w] case None => kept)
         == ElementScalars(kept) + KeptScalars(more)
  {
    match more
    case Some(w) => assert (kept + [w])[..|kept + [w]| - 1] == kept;
    case None =>
  }
}
