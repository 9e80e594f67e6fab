/** The metric label of a drop path: its text with array indices erased. */
module Metrics {
  import opened Documents
  import opened Projection
  import Text

  /** What is left of a path once everything between brackets is erased. */
  function Collapse(s: string, inIndex: bool): string {
    if s == "" then ""
    else if s[0] == '[' then "[" + Collapse(s[1..], true)
    else if s[0] == ']' then "]" + Collapse(s[1..], false)
    else if inIndex then Collapse(s[1..], true)
    else [s[0]] + Collapse(s[1..], false)
  }

  /** Whether the text so far has opened a bracket it has not closed. */
  function Inside(c: char, inIndex: bool): bool {
    if c == '[' then true else if c == ']' then false else inIndex
  }

  /** What one character leaves of itself. */
  function Left(c: char, inIndex: bool): string {
    if c == '[' || c == ']' || !inIndex then [c] else ""
  }

  lemma CollapseStep(path: string, i: nat, inIndex: bool)
    requires i < |path|
    ensures Collapse(path[i..], inIndex) == Left(path[i], inIndex) + Collapse(path[i + 1..], Inside(path[i], inIndex))
  {
    assert path[i..][1..] == path[i + 1..];
  }

  lemma CollapseEnds(path: string, inIndex: bool)
    ensures Collapse(path[|path|..], inIndex) == "" && path[0..] == path
  {
  }

  /** Copies a path, skipping what stands inside brackets. */
  method LabelPath(path: string) returns (series: string)
    ensures series == Collapse(path, false)
  {
    series := "";
    var inIndex := false;
    CollapseEnds(path, inIndex);
    for i := 0 to |path|
      invariant series + Collapse(path[i..], inIndex) == Collapse(path, false)
    {
      var character := path[i];
      CollapseStep(path, i, inIndex);
      ghost var before, was := series, inIndex;
      if character == '[' {
        inIndex := true;
        series := series + "[";
      } else if character == ']' {
        inIndex := false;
        series := series + "]";
      } else if inIndex {
      } else {
        series := series + [character];
      }
      assert inIndex == Inside(character, was) && series == before + Left(character, was);
      Regroup(before, Left(character, was), Collapse(path[i + 1..], inIndex));
    }
    CollapseEnds(path, inIndex);
  }

  lemma Regroup(a: string, b: string, c: string)
    ensures (a + b) + c == a + (b + c)
  {
  }

  /** A label collapses to itself, whatever text it came from. */
  lemma {:induction false} CollapseIdempotent(s: string, inIndex: bool)
    ensures Collapse(Collapse(s, inIndex), inIndex) == Collapse(s, inIndex)
  {
    if s != "" {
      var rest := if s[0] == '[' then true else if s[0] == ']' then false else inIndex;
      CollapseIdempotent(s[1..], rest);
      var tail := Collapse(s[1..], rest);
      assert ([s[0]] + tail)[1..] == tail;
    }
  }

  function InIndexAfter(s: string, inIndex: bool): bool {
    if s == "" then inIndex
    else InIndexAfter(s[1..], if s[0] == '[' then true else if s[0] == ']' then false else inIndex)
  }

  lemma {:induction false} CollapseConcat(a: string, b: string, inIndex: bool)
    ensures Collapse(a + b, inIndex) == Collapse(a, inIndex) + Collapse(b, InIndexAfter(a, inIndex))
    ensures InIndexAfter(a + b, inIndex) == InIndexAfter(b, InIndexAfter(a, inIndex))
  {
    if a == "" {
      assert a + b == b;
    } else {
      assert (a + b)[1..] == a[1..] + b;
      CollapseConcat(a[1..], b, if a[0] == '[' then true else if a[0] == ']' then false else inIndex);
    }
  }

  predicate BracketFree(s: string) {
    '[' !in s && ']' !in s
  }

  lemma {:induction false} CollapsePlain(s: string, inIndex: bool)
    requires BracketFree(s)
    ensures Collapse(s, inIndex) == (if inIndex then "" else s) && InIndexAfter(s, inIndex) == inIndex
  {
    if s != "" {
      assert s[0] in s && forall c :: c in s[1..] ==> c in s;
      CollapsePlain(s[1..], inIndex);
      assert s == [s[0]] + s[1..];
    }
  }

  /** The rendering of a place with every index erased. */
  function RenderErased(at: Location): string {
    if at == [] then ""
    else
      var prefix := RenderErased(at[..|at| - 1]);
      match at[|at| - 1]
      case Key(name) => if prefix == "" then name else prefix + "." + name
      case Index(_) => prefix + "[]"
  }

  ghost predicate BracketFreeKeys(at: Location) {
    forall i :: 0 <= i < |at| && at[i].Key? ==> BracketFree(at[i].name)
  }

  lemma {:induction false} LabelErasesIndices(at: Location)
    requires BracketFreeKeys(at)
    ensures Collapse(Render(at), false) == RenderErased(at) && !InIndexAfter(Render(at), false)
    ensures Render(at) == "" <==> RenderErased(at) == ""
  {
    if at != [] {
      var init := at[..|at| - 1];
      var prefix := Render(init);
      LabelErasesIndices(init);
      match at[|at| - 1]
      case Key(name) =>
        CollapsePlain(name, false);
        CollapsePlain(".", false);
        CollapseConcat(prefix, ".", false);
        CollapseConcat(prefix + ".", name, false);
      case Index(i) =>
        var digits := Text.Decimal(i);
        assert BracketFree(digits) by { assert !Text.IsDigit('[') && !Text.IsDigit(']'); }
        CollapsePlain(digits, true);
        assert "["[1..] == "" && "]"[1..] == "";
        CollapseConcat(prefix, "[", false);
        CollapseConcat(prefix + "[", digits, false);
        CollapseConcat(prefix + "[" + digits, "]", false);
    }
  }

  /** Two places that differ only in array indices. */
  ghost predicate SameShape(p: Location, q: Location) {
    |p| == |q| && forall i :: 0 <= i < |p| ==> p[i] == q[i] || (p[i].Index? && q[i].Index?)
  }

  lemma {:induction false} ErasedAgree(p: Location, q: Location)
    requires SameShape(p, q)
    ensures RenderErased(p) == RenderErased(q)
  {
    if p != [] {
      ErasedAgree(p[..|p| - 1], q[..|q| - 1]);
    }
  }

  /** Drops of one array, however many, are one series. */
  lemma OneArrayOneSeries(p: Location, q: Location)
    requires BracketFreeKeys(p) && SameShape(p, q)
    ensures Collapse(Render(p), false) == Collapse(Render(q), false)
  {
    LabelErasesIndices(p);
    LabelErasesIndices(q);
    ErasedAgree(p, q);
  }
}
