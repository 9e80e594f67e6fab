/** JSON documents, and the places inside one. */
module Documents {
  import Ordering
  import opened Wrappers

  /** A number the parser kept as a 64-bit integer, or a double by its bits. */
  datatype Numeral = Integer(value: int) | Float(bits: nat)

  datatype Json =
    | Null
    | Bool(flag: bool)
    | Number(numeral: Numeral)
    | String(text: string)
    | Array(elements: seq<Json>)
    | Object(members: map<string, Json>)

  /** The object without members, left behind by a delete. */
  const EMPTY_DOCUMENT: Json := Object(map[])

  predicate IsScalar(v: Json) {
    !v.Object? && !v.Array?
  }

  /** The JSON type name used in reports. */
  function KindOf(v: Json): string {
    match v
    case Null => "null"
    case Bool(_) => "boolean"
    case Number(_) => "number"
    case String(_) => "string"
    case Array(_) => "array"
    case Object(_) => "object"
  }

  datatype Step = Key(name: string) | Index(position: nat)

  /** The steps from a document's root to a value inside it, outermost first. */
  type Location = seq<Step>

  /** The value at a location, if the document has one there. */
  function At(v: Json, at: Location): Option<Json> {
    if at == [] then Some(v)
    else match at[0]
      case Key(name) =>
        if v.Object? && name in v.members then At(v.members[name], at[1..]) else None
      case Index(i) =>
        if v.Array? && i < |v.elements| then At(v.elements[i], at[1..]) else None
  }

  ghost predicate IsPrefix(p: Location, q: Location) {
    |p| <= |q| && q[..|p|] == p
  }

  /** A location continued: the value at the end is found from the value in between. */
  lemma {:induction false} AtContinues(v: Json, at: Location, more: Location)
    requires At(v, at).Some?
    ensures At(v, at + more) == At(At(v, at).value, more)
  {
    if at == [] {
      assert at + more == more;
    } else {
      assert (at + more)[1..] == at[1..] + more;
      match at[0]
      case Key(name) => AtContinues(v.members[name], at[1..], more);
      case Index(i) => AtContinues(v.elements[i], at[1..], more);
    }
  }

  /** How many scalars a document holds, at any depth. */
  ghost function Scalars(v: Json): nat
    decreases v, 0
  {
    match v
    case Array(es) => ElementScalars(es)
    case Object(ms) => ScalarsUnder(v, ms.Keys)
    case _ => 1
  }

  ghost function ElementScalars(es: seq<Json>): nat
    decreases es, 0
  {
    if es == [] then 0 else ElementScalars(es[..|es| - 1]) + Scalars(es[|es| - 1])
  }

  /** The scalars under some of an object's keys. */
  ghost function ScalarsUnder(v: Json, keys: set<string>): nat
    requires v.Object? && keys <= v.members.Keys
    decreases v, 0, |keys|
  {
    if keys == {} then 0
    else
      var k :| k in keys;
      Scalars(v.members[k]) + ScalarsUnder(v, keys - {k})
  }

  /** Keys may be counted in any order. */
  lemma {:induction false} ScalarsUnderAdd(v: Json, keys: set<string>, k: string)
    requires v.Object? && keys <= v.members.Keys
    requires k in v.members && k !in keys
    ensures ScalarsUnder(v, keys + {k}) == ScalarsUnder(v, keys) + Scalars(v.members[k])
    decreases |keys|
  {
    var all := keys + {k};
    var first :| first in all
      && ScalarsUnder(v, all) == Scalars(v.members[first]) + ScalarsUnder(v, all - {first});
    if first == k {
      assert all - {k} == keys;
    } else {
      assert all - {first} == (keys - {first}) + {k};
      ScalarsUnderAdd(v, keys - {first}, k);
      ScalarsUnderAdd(v, keys - {first}, first);
      assert (keys - {first}) + {first} == keys;
    }
  }

  // ----- The count is the number of places -----

  ghost predicate ScalarAt(v: Json, at: Location) {
    At(v, at).Some? && IsScalar(At(v, at).value)
  }

  /** The places of a document that hold a scalar, each once. */
  ghost predicate ScalarPlaces(v: Json, places: seq<Location>) {
    Ordering.Distinct(places) && forall at :: at in places <==> ScalarAt(v, at)
  }

  /** The same, of those that start with one of these steps. */
  ghost predicate PlacesUnder(v: Json, steps: iset<Step>, places: seq<Location>) {
    Ordering.Distinct(places) && forall at :: at in places <==> at != [] && at[0] in steps && ScalarAt(v, at)
  }

  function Below(step: Step, places: seq<Location>): (r: seq<Location>)
    ensures forall at :: at in r <==> at != [] && at[0] == step && at[1..] in places
  {
    var r := seq(|places|, i requires 0 <= i < |places| => [step] + places[i]);
    assert forall i :: 0 <= i < |places| ==> r[i][1..] == places[i] && r[i][0] == step;
    assert forall at :: at != [] && at[0] == step ==> at == [step] + at[1..];
    r
  }

  /** The places under one more step, added to those under others. */
  lemma OneMoreStep(v: Json, steps: iset<Step>, before: seq<Location>, step: Step, inner: seq<Location>)
    requires PlacesUnder(v, steps, before) && step !in steps
    requires At(v, [step]).Some? && ScalarPlaces(At(v, [step]).value, inner)
    ensures PlacesUnder(v, steps + iset{step}, before + Below(step, inner))
  {
    var more := Below(step, inner);
    forall i, j | 0 <= i < j < |more| ensures more[i] != more[j] {
      assert more[i][1..] == inner[i] && more[j][1..] == inner[j];
    }
    forall i, j | 0 <= i < |before| && 0 <= j < |more| ensures before[i] != more[j] {
      assert before[i] in before && more[j] in more;
    }
    forall at: Location | at != [] && at[0] == step ensures ScalarAt(v, at) <==> at[1..] in inner {
      assert at == [step] + at[1..];
      AtContinues(v, [step], at[1..]);
    }
  }

  lemma {:induction false} ElementPlaces(v: Json, n: nat) returns (places: seq<Location>)
    requires v.Array? && n <= |v.elements|
    ensures PlacesUnder(v, iset i: nat | i < n :: Index(i), places)
    ensures |places| == ElementScalars(v.elements[..n])
    decreases v, 0, n
  {
    places := [];
    if n > 0 {
      var i := n - 1;
      places := ElementPlaces(v, i);
      var inner := CountPlaces(v.elements[i]);
      assert At(v, [Index(i)]) == At(v.elements[i], [Index(i)][1..]);
      OneMoreStep(v, iset j: nat | j < i :: Index(j), places, Index(i), inner);
      assert (iset j: nat | j < n :: Index(j)) == (iset j: nat | j < i :: Index(j)) + iset{Index(i)};
      assert v.elements[..n][..i] == v.elements[..i];
      places := places + Below(Index(i), inner);
    }
  }

  lemma {:induction false} MemberPlaces(v: Json, keys: set<string>) returns (places: seq<Location>)
    requires v.Object? && keys <= v.members.Keys
    ensures PlacesUnder(v, iset k | k in keys :: Key(k), places)
    ensures |places| == ScalarsUnder(v, keys)
    decreases v, 0, |keys|
  {
    places := [];
    if keys != {} {
      var k :| k in keys;
      var rest := keys - {k};
      places := MemberPlaces(v, rest);
      var inner := CountPlaces(v.members[k]);
      assert At(v, [Key(k)]) == At(v.members[k], [Key(k)][1..]);
      OneMoreStep(v, iset j | j in rest :: Key(j), places, Key(k), inner);
      assert (iset j | j in keys :: Key(j)) == (iset j | j in rest :: Key(j)) + iset{Key(k)};
      ScalarsUnderAdd(v, rest, k);
      assert rest + {k} == keys;
      places := places + Below(Key(k), inner);
    }
  }

  /** A document has as many scalars as it has places that hold one. */
  lemma {:induction false} CountPlaces(v: Json) returns (places: seq<Location>)
    ensures ScalarPlaces(v, places)
    ensures |places| == Scalars(v)
    decreases v, 1
  {
    if v.Array? {
      places := ElementPlaces(v, |v.elements|);
      assert v.elements[..|v.elements|] == v.elements;
    } else if v.Object? {
      places := MemberPlaces(v, v.members.Keys);
    } else {
      places := [[]];
      forall at ensures at in places <==> ScalarAt(v, at) {
      }
    }
  }

  function Elements(places: seq<Location>): set<Location> {
    set at | at in places
  }

  lemma {:induction false} DistinctCount(places: seq<Location>)
    requires Ordering.Distinct(places)
    ensures |Elements(places)| == |places|
  {
    if places != [] {
      var init, last := places[..|places| - 1], places[|places| - 1];
      assert places == init + [last];
      DistinctCount(init);
      assert Elements(places) == Elements(init) + {last};
    }
  }

  /** However the places that hold a scalar are listed, there are as many as the count says. */
  lemma ScalarsAreCounted(v: Json, places: seq<Location>)
    requires ScalarPlaces(v, places)
    ensures |places| == Scalars(v)
  {
    var counted := CountPlaces(v);
    DistinctCount(places);
    DistinctCount(counted);
    assert Elements(places) == Elements(counted);
  }
}
