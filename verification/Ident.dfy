/** Names and identifiers, validated when they are made. */
module Ident {
  import opened Text
  import opened Wrappers

  const MAX_NAME_LEN: nat := 128
  const MAX_ID_LEN: nat := 512

  datatype IdentError = Empty | TooLong(length: nat) | BadChar(ch: char) | Boundary

  /** The first character that is refused. */
  function FirstBad(s: string, bad: char -> bool): (r: Option<char>)
    ensures r.Some? <==> exists c :: c in s && bad(c)
    ensures r.Some? ==> r.value in s && bad(r.value)
  {
    if s == "" then None
    else if bad(s[0]) then Some(s[0])
    else
      assert s == [s[0]] + s[1..];
      FirstBad(s[1..], bad)
  }

  /** No character of the two control blocks. */
  ghost predicate Printable(s: string) {
    forall c :: c in s ==> (' ' <= c < '\U{7F}' || '\U{9F}' < c)
  }

  /** The text neither ends nor splits a segment of a URL path. */
  ghost predicate IsPathSegment(s: string) {
    '/' !in s && '?' !in s && '#' !in s
  }

  predicate BadInFieldName(c: char) {
    IsControl(c) || c == '.'
  }

  predicate ValidFieldName(s: string) {
    s != "" && Utf8Length(s) <= MAX_NAME_LEN && forall c :: c in s ==> !BadInFieldName(c)
  }

  /** A key a schema may declare; it has no dot. */
  type FieldName = s: string | ValidFieldName(s) witness "a"

  function NewFieldName(value: string): (r: Result<FieldName, IdentError>)
    ensures r.Success? <==> ValidFieldName(value)
    ensures r.Success? ==> r.value == value && '.' !in value && |value| <= MAX_NAME_LEN && Printable(value)
    ensures r == Failure(Empty) <==> value == ""
    ensures r.Failure? && r.error.BadChar? ==> r.error.ch in value && BadInFieldName(r.error.ch)
  {
    Utf8LengthBounds(value);
    if value == "" then Failure(Empty)
    else if Utf8Length(value) > MAX_NAME_LEN then Failure(TooLong(Utf8Length(value)))
    else match FirstBad(value, BadInFieldName)
      case Some(ch) => Failure(BadChar(ch))
      case None => Success(value)
  }

  predicate BadInRecordId(c: char) {
    IsControl(c) || c == '/' || c == '?' || c == '#'
  }

  predicate ValidRecordId(s: string) {
    && s != ""
    && Utf8Length(s) <= MAX_ID_LEN
    && (forall c :: c in s ==> !BadInRecordId(c))
    && Trim(s) == s
  }

  /** A record's identifier, as its source system assigned it. */
  type RecordId = s: string | ValidRecordId(s) witness "a"

  function NewRecordId(value: string): (r: Result<RecordId, IdentError>)
    ensures r.Success? <==> ValidRecordId(value)
    ensures r.Success? ==> r.value == value
    ensures r.Success? ==> value != "" && |value| <= MAX_ID_LEN && Printable(value) && IsPathSegment(value)
    ensures r.Success? ==> !IsSpace(value[0]) && !IsSpace(value[|value| - 1])
    ensures r.Success? ==> value[0] != ' ' && value[|value| - 1] != ' '
  {
    Utf8LengthBounds(value);
    TrimmedHasNoEdges(value);
    if value == "" then Failure(Empty)
    else if Utf8Length(value) > MAX_ID_LEN then Failure(TooLong(Utf8Length(value)))
    else match FirstBad(value, BadInRecordId)
      case Some(ch) => Failure(BadChar(ch))
      case None => if Trim(value) != value then Failure(Boundary) else Success(value)
  }
}
