/** Total orders, and the one way a finite set can be enumerated along one. */
module Ordering {

  ghost predicate TotalOrder<T(!new)>(leq: (T, T) -> bool) {
    && (forall x :: leq(x, x))
    && (forall x, y :: leq(x, y) && leq(y, x) ==> x == y)
    && (forall x, y, z :: leq(x, y) && leq(y, z) ==> leq(x, z))
    && (forall x, y :: leq(x, y) || leq(y, x))
  }

  ghost predicate StrictlyAscending<T(!new)>(leq: (T, T) -> bool, s: seq<T>) {
    forall i, j :: 0 <= i < j < |s| ==> leq(s[i], s[j]) && s[i] != s[j]
  }

  /** Byte order of UTF-8 text, which is code-point order. */
  predicate LexLeq(a: string, b: string) {
    a == "" || (b != "" && (a[0] < b[0] || (a[0] == b[0] && LexLeq(a[1..], b[1..]))))
  }

  predicate NatLeq(a: nat, b: nat) {
    a <= b
  }

  /** `a` ends, or has the smaller character, where the two first differ. */
  ghost predicate SmallerAt(a: string, b: string, n: nat) {
    n <= |a| && n < |b| && a[..n] == b[..n] && (n == |a| || a[n] < b[n])
  }

  /** `a` comes before `b` in a dictionary whose alphabet is the code points. */
  ghost predicate Sooner(a: string, b: string) {
    exists n: nat :: SmallerAt(a, b, n)
  }

  lemma SmallerLater(a: string, b: string, n: nat)
    requires a != "" && b != "" && a[0] == b[0]
    ensures SmallerAt(a[1..], b[1..], n) <==> SmallerAt(a, b, n + 1)
  {
    if n < |a| && n + 1 < |b| {
      assert a[..n + 1] == [a[0]] + a[1..][..n] && b[..n + 1] == [b[0]] + b[1..][..n];
      assert a[..n + 1][1..] == a[1..][..n] && b[..n + 1][1..] == b[1..][..n];
    }
  }

  /** The order is the dictionary's. */
  lemma {:induction false} LexIsDictionaryOrder(a: string, b: string)
    ensures LexLeq(a, b) <==> a == b || Sooner(a, b)
    ensures !Sooner(a, a)
  {
    if a == "" {
      assert b != "" ==> SmallerAt(a, b, 0);
    } else if b != "" && a[0] == b[0] {
      LexIsDictionaryOrder(a[1..], b[1..]);
      assert a == [a[0]] + a[1..] && b == [b[0]] + b[1..];
      if n: nat :| SmallerAt(a[1..], b[1..], n) {
        SmallerLater(a, b, n);
      }
      if n: nat :| SmallerAt(a, b, n) {
        assert n > 0;
        SmallerLater(a, b, n - 1);
      }
    } else if b != "" {
      assert a[0] < b[0] ==> SmallerAt(a, b, 0);
      forall n: nat | SmallerAt(a, b, n) ensures a[0] < b[0] {
        assert n > 0 ==> a[..n][0] == b[..n][0];
      }
    }
  }

  lemma SoonerAscends(s: seq<string>)
    requires forall i, j :: 0 <= i < j < |s| ==> Sooner(s[i], s[j])
    ensures StrictlyAscending(LexLeq, s)
  {
    forall i, j | 0 <= i < j < |s| ensures LexLeq(s[i], s[j]) && s[i] != s[j] {
      LexIsDictionaryOrder(s[i], s[j]);
    }
  }

  lemma {:induction false} LexAntisymmetric(a: string, b: string)
    requires LexLeq(a, b) && LexLeq(b, a)
    ensures a == b
  {
    if a != "" && b != "" {
      LexAntisymmetric(a[1..], b[1..]);
      assert a == [a[0]] + a[1..] && b == [b[0]] + b[1..];
    }
  }

  lemma {:induction false} LexTransitive(a: string, b: string, c: string)
    requires LexLeq(a, b) && LexLeq(b, c)
    ensures LexLeq(a, c)
  {
    if a != "" && a[0] == b[0] == c[0] {
      LexTransitive(a[1..], b[1..], c[1..]);
    }
  }

  lemma {:induction false} LexTotal(a: string, b: string)
    ensures LexLeq(a, b) || LexLeq(b, a)
  {
    if a != "" && b != "" {
      LexTotal(a[1..], b[1..]);
    }
  }

  lemma {:induction false} LexReflexive(a: string)
    ensures LexLeq(a, a)
  {
    if a != "" {
      LexReflexive(a[1..]);
    }
  }

  lemma LexIsTotalOrder()
    ensures TotalOrder(LexLeq)
  {
    forall a { LexReflexive(a); }
    forall a, b { LexTotal(a, b); }
    forall a, b | LexLeq(a, b) && LexLeq(b, a) { LexAntisymmetric(a, b); }
    forall a, b, c | LexLeq(a, b) && LexLeq(b, c) ensures LexLeq(a, c) { LexTransitive(a, b, c); }
  }

  lemma {:induction false} LeastExists<T(!new)>(leq: (T, T) -> bool, s: set<T>)
    requires TotalOrder(leq) && s != {}
    ensures exists x :: x in s && forall y :: y in s ==> leq(x, y)
    decreases |s|
  {
    var x :| x in s;
    if s == {x} {
      assert forall y :: y in s ==> leq(x, y);
    } else {
      assert s - {x} != {};
      LeastExists(leq, s - {x});
      var z :| z in s - {x} && forall y :: y in s - {x} ==> leq(z, y);
      var least := if leq(x, z) then x else z;
      assert forall y :: y in s ==> leq(least, y);
    }
  }

  function Least<T(!new,==)>(leq: (T, T) -> bool, s: set<T>): (least: T)
    requires TotalOrder(leq) && s != {}
    ensures least in s && forall y :: y in s ==> leq(least, y)
  {
    LeastExists(leq, s);
    var x :| x in s && forall y :: y in s ==> leq(x, y);
    x
  }

  lemma Prepend<T(!new)>(leq: (T, T) -> bool, s: set<T>, least: T, rest: seq<T>)
    requires least in s && forall y :: y in s ==> leq(least, y)
    requires StrictlyAscending(leq, rest)
    requires forall x :: x in rest <==> x in s - {least}
    ensures StrictlyAscending(leq, [least] + rest)
    ensures forall x :: x in [least] + rest <==> x in s
  {
    assert forall y :: y in rest ==> leq(least, y) && least != y;
  }

  /** The elements of `s`, each once, in ascending order. */
  function InOrder<T(!new,==)>(leq: (T, T) -> bool, s: set<T>): (r: seq<T>)
    requires TotalOrder(leq)
    ensures forall x :: x in r <==> x in s
    ensures StrictlyAscending(leq, r)
    decreases |s|
  {
    if s == {} then []
    else
      var least := Least(leq, s);
      var rest := InOrder(leq, s - {least});
      Prepend(leq, s, least, rest);
      [least] + rest
  }

  lemma HeadIsLeast<T(!new)>(leq: (T, T) -> bool, r: seq<T>, x: T)
    requires TotalOrder(leq) && StrictlyAscending(leq, r)
    requires x in r
    ensures leq(r[0], x)
  {
  }

  lemma SameTail<T>(r: seq<T>, q: seq<T>)
    requires r != [] && q != [] && r[0] == q[0]
    requires forall x :: x in r <==> x in q
    requires r[0] !in r[1..] && q[0] !in q[1..]
    ensures forall x :: x in r[1..] <==> x in q[1..]
  {
    assert r == [r[0]] + r[1..] && q == [q[0]] + q[1..];
    assert forall x :: x in r[1..] <==> x in r && x != r[0];
    assert forall x :: x in q[1..] <==> x in q && x != q[0];
  }

  /** Two ascending enumerations of the same elements are one. */
  lemma {:induction false} AscendingUnique<T(!new)>(leq: (T, T) -> bool, r: seq<T>, q: seq<T>)
    requires TotalOrder(leq)
    requires StrictlyAscending(leq, r) && StrictlyAscending(leq, q)
    requires forall x :: x in r <==> x in q
    ensures r == q
  {
    if q != [] {
      assert q[0] in r;
    }
    if r != [] {
      assert r[0] in q;
      HeadIsLeast(leq, r, q[0]);
      HeadIsLeast(leq, q, r[0]);
      SameTail(r, q);
      AscendingUnique(leq, r[1..], q[1..]);
      assert r == [r[0]] + r[1..] && q == [q[0]] + q[1..];
    }
  }

  /** The keys of a JSON object or an allow list, each once, ascending. */
  function KeysInOrder(keys: set<string>): (r: seq<string>)
    ensures forall k :: k in r <==> k in keys
    ensures forall i, j :: 0 <= i < j < |r| ==> r[i] != r[j]
    ensures StrictlyAscending(LexLeq, r)
  {
    LexIsTotalOrder();
    InOrder(LexLeq, keys)
  }

  ghost predicate Precedes(a: string, b: string) {
    a != b && LexLeq(a, b)
  }

  /** A key that precedes another comes before it in the enumeration. */
  lemma EarlierKey(keys: set<string>, i: nat, k: string)
    requires i < |KeysInOrder(keys)| && k in keys && Precedes(k, KeysInOrder(keys)[i])
    ensures k in KeysInOrder(keys)[..i]
  {
    var order := KeysInOrder(keys);
    var j :| 0 <= j < |order| && order[j] == k;
    if j > i {
      LexAntisymmetric(k, order[i]);
    }
    assert j < i ==> order[..i][j] == k;
  }

  // ----- Repetition and reordering -----

  ghost predicate Distinct<T>(s: seq<T>) {
    forall i, j :: 0 <= i < j < |s| ==> s[i] != s[j]
  }

  lemma {:induction false} DistinctOnce<T>(s: seq<T>, x: T)
    requires Distinct(s)
    ensures multiset(s)[x] <= 1
  {
    if s != [] {
      var init := s[..|s| - 1];
      assert s == init + [s[|s| - 1]];
      DistinctOnce(init, x);
      assert forall i :: 0 <= i < |init| ==> init[i] == s[i] && s[i] != s[|s| - 1];
    }
  }

  lemma RepeatedTwice<T>(s: seq<T>, i: nat, j: nat)
    requires i < j < |s| && s[i] == s[j]
    ensures multiset(s)[s[i]] >= 2
  {
    assert s == s[..j] + s[j..];
    assert s[..j][i] in multiset(s[..j]) && s[j..][0] in multiset(s[j..]);
  }

  /** Reordering distinct elements leaves them distinct. */
  lemma PermutationDistinct<T>(s: seq<T>, p: seq<T>)
    requires Distinct(s) && multiset(p) == multiset(s)
    ensures Distinct(p)
    ensures forall x :: x in p <==> x in s
  {
    forall x ensures x in p <==> x in s {
      assert x in p <==> x in multiset(p);
      assert x in s <==> x in multiset(s);
    }
    forall i, j | 0 <= i < j < |p| ensures p[i] != p[j] {
      if p[i] == p[j] {
        RepeatedTwice(p, i, j);
        DistinctOnce(s, p[i]);
      }
    }
  }
}
