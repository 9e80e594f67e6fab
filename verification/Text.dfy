/** String handling the identifiers, drop paths and validators are built from. */
module Text {

  /** Splits on every occurrence of `sep`; the empty string is one empty part. */
  function Split(s: string, sep: char): (parts: seq<string>)
    ensures |parts| >= 1
    ensures forall p :: p in parts ==> sep !in p
  {
    if s == "" then [""]
    else
      var rest := Split(s[1..], sep);
      if s[0] == sep then [""] + rest else [[s[0]] + rest[0]] + rest[1..]
  }

  function Join(parts: seq<string>, sep: char): string
    requires |parts| >= 1
  {
    if |parts| == 1 then parts[0] else parts[0] + [sep] + Join(parts[1..], sep)
  }

  lemma {:induction false} SplitPart(part: string, sep: char, rest: string)
    requires sep !in part
    ensures Split(part, sep) == [part]
    ensures Split(part + [sep] + rest, sep) == [part] + Split(rest, sep)
  {
    var whole := part + [sep] + rest;
    if part == "" {
      assert whole[1..] == rest;
    } else {
      SplitPart(part[1..], sep, rest);
      assert whole[1..] == part[1..] + [sep] + rest;
      assert [part[0]] + part[1..] == part;
    }
  }

  /** Splitting undoes joining, so a joined text has one reading. */
  lemma {:induction false} SplitJoin(parts: seq<string>, sep: char)
    requires |parts| >= 1
    requires forall p :: p in parts ==> sep !in p
    ensures Split(Join(parts, sep), sep) == parts
  {
    if |parts| == 1 {
      SplitPart(parts[0], sep, "");
    } else {
      SplitJoin(parts[1..], sep);
      SplitPart(parts[0], sep, Join(parts[1..], sep));
    }
  }

  /** Joining undoes splitting, for any text. */
  lemma {:induction false} JoinSplit(s: string, sep: char)
    ensures Join(Split(s, sep), sep) == s
  {
    if s != "" {
      var rest := Split(s[1..], sep);
      JoinSplit(s[1..], sep);
      if s[0] == sep {
        assert ([""] + rest)[1..] == rest;
      } else {
        var parts := [[s[0]] + rest[0]] + rest[1..];
        if |rest| > 1 {
          assert parts[1..] == rest[1..];
        }
      }
    }
  }

  /** The text after the last `sep` and the text before it are determined. */
  lemma LastSplitUnique(a: string, b: string, sep: char, c: string, d: string)
    requires sep !in b && sep !in d
    requires a + [sep] + b == c + [sep] + d
    ensures a == c && b == d
  {
    var s := a + [sep] + b;
    assert s == c + [sep] + d;
    assert s[|a|] == sep && s[|c|] == sep;
    assert forall i :: |a| < i < |s| ==> s[i] == b[i - |a| - 1];
    assert forall i :: |c| < i < |s| ==> s[i] == d[i - |c| - 1];
    assert a == s[..|a|] && c == s[..|c|];
    assert b == s[|a| + 1..] && d == s[|c| + 1..];
  }

  function Digit(d: nat): char
    requires d < 10
  {
    ('0' as int + d) as char
  }

  predicate IsDigit(c: char) {
    '0' <= c <= '9'
  }

  /** Decimal rendering without leading zeros. */
  function Decimal(n: nat): (s: string)
    ensures |s| > 0 && forall c :: c in s ==> IsDigit(c)
  {
    if n < 10 then [Digit(n)] else Decimal(n / 10) + [Digit(n % 10)]
  }

  function DecimalValue(s: string): int {
    if s == "" then 0 else DecimalValue(s[..|s| - 1]) * 10 + (s[|s| - 1] as int - '0' as int)
  }

  lemma {:induction false} DecimalRoundTrip(n: nat)
    ensures DecimalValue(Decimal(n)) == n
  {
    var s := Decimal(n);
    if n < 10 {
      assert s[..0] == "";
    } else {
      DecimalRoundTrip(n / 10);
      assert s[..|s| - 1] == Decimal(n / 10);
    }
  }

  lemma DecimalInjective(a: nat, b: nat)
    requires Decimal(a) == Decimal(b)
    ensures a == b
  {
    DecimalRoundTrip(a);
    DecimalRoundTrip(b);
  }

  /** Length in bytes of the UTF-8 encoding. */
  function Utf8Length(s: string): nat {
    if s == "" then 0 else
      (var c := s[0] as int;
       if c < 0x80 then 1 else if c < 0x800 then 2 else if c < 0x1_0000 then 3 else 4)
      + Utf8Length(s[1..])
  }

  /** Unicode category Cc. */
  predicate IsControl(c: char) {
    c as int < 0x20 || 0x7F <= c as int <= 0x9F
  }

  /** The Unicode White_Space property. */
  predicate IsSpace(c: char) {
    var i := c as int;
    || 0x09 <= i <= 0x0D || i == 0x20 || i == 0x85 || i == 0xA0 || i == 0x1680
    || 0x2000 <= i <= 0x200A || i == 0x2028 || i == 0x2029 || i == 0x202F || i == 0x205F || i == 0x3000
  }

  predicate Blank(s: string) {
    forall c :: c in s ==> IsSpace(c)
  }

  function TrimStart(s: string): string {
    if s != "" && IsSpace(s[0]) then TrimStart(s[1..]) else s
  }

  function TrimEnd(s: string): string {
    if s != "" && IsSpace(s[|s| - 1]) then TrimEnd(s[..|s| - 1]) else s
  }

  function Trim(s: string): string {
    TrimEnd(TrimStart(s))
  }

  lemma {:induction false} TrimStartPadded(pad: string, core: string)
    requires Blank(pad)
    requires core != "" && !IsSpace(core[0])
    ensures TrimStart(pad + core) == core
  {
    if pad == "" {
      assert pad + core == core;
    } else {
      assert (pad + core)[1..] == pad[1..] + core;
      TrimStartPadded(pad[1..], core);
    }
  }

  lemma {:induction false} TrimEndPadded(core: string, pad: string)
    requires Blank(pad)
    requires core != "" && !IsSpace(core[|core| - 1])
    ensures TrimEnd(core + pad) == core
  {
    if pad == "" {
      assert core + pad == core;
    } else {
      assert (core + pad)[..|core + pad| - 1] == core + pad[..|pad| - 1];
      TrimEndPadded(core, pad[..|pad| - 1]);
    }
  }

  lemma {:induction false} TrimStartShortens(s: string)
    ensures (|TrimStart(s)| < |s| || TrimStart(s) == s) && (TrimStart(s) == s <==> s == "" || !IsSpace(s[0]))
  {
    if s != "" && IsSpace(s[0]) {
      TrimStartShortens(s[1..]);
    }
  }

  lemma {:induction false} TrimEndShortens(s: string)
    ensures (|TrimEnd(s)| < |s| || TrimEnd(s) == s) && (TrimEnd(s) == s <==> s == "" || !IsSpace(s[|s| - 1]))
  {
    if s != "" && IsSpace(s[|s| - 1]) {
      TrimEndShortens(s[..|s| - 1]);
    }
  }

  /** Text is left alone exactly if it neither starts nor ends with space. */
  lemma TrimmedHasNoEdges(s: string)
    ensures Trim(s) == s <==> s == "" || (!IsSpace(s[0]) && !IsSpace(s[|s| - 1]))
  {
    TrimStartShortens(s);
    TrimEndShortens(TrimStart(s));
  }

  /** One to four bytes a character. */
  lemma {:induction false} Utf8LengthBounds(s: string)
    ensures |s| <= Utf8Length(s) <= 4 * |s|
  {
    if s != "" {
      Utf8LengthBounds(s[1..]);
    }
  }

  /** Trimming recovers what was padded, whatever the padding. */
  lemma TrimPadded(before: string, core: string, after: string)
    requires Blank(before) && Blank(after)
    requires core != "" && !IsSpace(core[0]) && !IsSpace(core[|core| - 1])
    ensures Trim(before + core + after) == core
  {
    assert before + core + after == before + (core + after);
    TrimStartPadded(before, core + after);
    TrimEndPadded(core, after);
  }
}
