/** Admission of requests at the edge: header bounds and declared body lengths, in checked 64-bit
    arithmetic. */
module Admission {
  import opened Wrappers
  import opened Text
  import opened Challenges

  const U64_LIMIT := 0x1_0000_0000_0000_0000

  datatype Field = Field(name: string, value: string)

  datatype Limits = Limits(targetBytes: nat, headerCount: nat, headerBytes: nat, bodyBytes: nat)

  datatype AdmissionError =
    | RequestTargetTooLarge
    | HeaderCountExceeded
    | HeaderBytesExceeded
    | InvalidHeader
    | RequestBodyNotAllowed
    | RequestBodyTooLarge
    | InvalidContentLength
    | ConflictingContentLength
    | UnsupportedTransferEncoding
    | UnsupportedExpectation
    | UnsupportedUpgrade

  // ---- Content-Length ----

  predicate AllDecimal(s: string) {
    forall c | c in s :: '0' <= c <= '9'
  }

  /** The number a digit string spells, whatever its size. */
  function DecimalValue(s: string): nat {
    if s == "" then 0 else 10 * DecimalValue(s[..|s| - 1]) + DigitValue(s[|s| - 1])
  }

  function DigitValue(c: char): nat {
    if '0' <= c <= '9' then c as int - '0' as int else 0
  }

  lemma {:induction false} DecimalMonotone(s: string, k: nat)
    requires k <= |s|
    ensures DecimalValue(s[..k]) <= DecimalValue(s)
  {
    if k == |s| {
      assert s[..k] == s;
    } else {
      var shorter := s[..|s| - 1];
      assert shorter[..k] == s[..k];
      DecimalMonotone(shorter, k);
    }
  }

  predicate IsLength(value: string) {
    value != "" && AllDecimal(value) && DecimalValue(value) < U64_LIMIT
  }

  /** `parse_content_length`: the checked fold gives up exactly on values that need more than 64
      bits, though it looks at one digit at a time. */
  method ParseContentLength(value: string) returns (r: Option<nat>)
    ensures r.Some? <==> IsLength(value)
    ensures r.Some? ==> r.value == DecimalValue(value)
  {
    if value == "" || !AllDecimal(value) {
      return None;
    }
    var length := 0;
    var i := 0;
    while i < |value|
      invariant 0 <= i <= |value|
      invariant length == DecimalValue(value[..i]) < U64_LIMIT
    {
      assert value[..i + 1][..i] == value[..i];
      assert value[i] in value;
      DecimalMonotone(value, i + 1);
      if length * 10 >= U64_LIMIT {
        return None;
      }
      length := length * 10;
      var digit := DigitValue(value[i]);
      if length + digit >= U64_LIMIT {
        return None;
      }
      length := length + digit;
      i := i + 1;
    }
    assert value[..i] == value;
    return Some(length);
  }

  function ValuesOf(fields: seq<Field>, name: string): seq<string> {
    if fields == [] then []
    else (if fields[0].name == name then [fields[0].value] else []) + ValuesOf(fields[1..], name)
  }

  /** All declared lengths are numbers and they agree. */
  predicate LengthsAgree(values: seq<string>) {
    forall v | v in values :: IsLength(v) && DecimalValue(v) == DecimalValue(values[0])
  }

  /** `validate_content_length`. */
  method ValidateContentLength(values: seq<string>, allowBody: bool) returns (r: Result<(), AdmissionError>)
    ensures r.Ok? <==> LengthsAgree(values) && (allowBody || values == [] || DecimalValue(values[0]) == 0)
    ensures r == Err(InvalidContentLength) ==> exists v :: v in values && !IsLength(v)
    ensures r == Err(ConflictingContentLength) ==> !LengthsAgree(values)
    ensures r == Err(ConflictingContentLength) ==>
      exists i, j :: 0 <= i < j < |values| && IsLength(values[i]) && IsLength(values[j])
        && DecimalValue(values[i]) != DecimalValue(values[j])
    ensures r == Err(RequestBodyNotAllowed) ==> !allowBody && LengthsAgree(values) && values != []
    ensures r.Ok? || r.error in {InvalidContentLength, ConflictingContentLength, RequestBodyNotAllowed}
  {
    hide DecimalValue, AllDecimal;
    var declared: Option<nat> := None;
    var i := 0;
    while i < |values|
      invariant 0 <= i <= |values|
      invariant forall j | 0 <= j < i :: IsLength(values[j]) && DecimalValue(values[j]) == DecimalValue(values[0])
      invariant declared == if i == 0 then None else Some(DecimalValue(values[0]))
    {
      assert values[i] in values;
      var length := ParseContentLength(values[i]);
      if length.None? {
        return Err(InvalidContentLength);
      }
      if declared.Some? {
        if declared.value != length.value {
          return Err(ConflictingContentLength);
        }
      } else {
        declared := length;
      }
      i := i + 1;
    }
    if !allowBody && declared.Some? && declared.value != 0 {
      return Err(RequestBodyNotAllowed);
    }
    return Ok(());
  }

  // ---- Header bounds ----

  /** The bytes of the header section as it is sent: `name: value` and a line end per field, and a
      final line end. */
  function HeadBytes(fields: seq<Field>): nat {
    if fields == [] then 2
    else
      var last := fields[|fields| - 1];
      HeadBytes(fields[..|fields| - 1]) + |last.name| + 2 + |last.value| + 2
  }

  lemma {:induction false} HeadBytesMonotone(fields: seq<Field>, k: nat)
    requires k <= |fields|
    ensures HeadBytes(fields[..k]) <= HeadBytes(fields)
  {
    if k == |fields| {
      assert fields[..k] == fields;
    } else {
      assert fields[..|fields| - 1][..k] == fields[..k];
      HeadBytesMonotone(fields[..|fields| - 1], k);
    }
  }

  predicate HasForbiddenControl(value: string) {
    exists c :: c in value && IsControl(c) && c != '\t'
  }

  function TrimBlank(s: string): string {
    TrimEnd(TrimStart(s))
  }

  predicate IsAsciiWhitespace(c: char) {
    c == ' ' || c == '\t' || c == '\n' || c == '\r' || c as int == 12
  }

  function TrimStart(s: string): string {
    if s != "" && IsAsciiWhitespace(s[0]) then TrimStart(s[1..]) else s
  }

  function TrimEnd(s: string): string {
    if s != "" && IsAsciiWhitespace(s[|s| - 1]) then TrimEnd(s[..|s| - 1]) else s
  }

  /** `connection_requests_upgrade`. */
  predicate RequestsUpgrade(fields: seq<Field>) {
    exists value, option ::
      value in ValuesOf(fields, "connection") && option in Split(value, ',') && Lower(TrimBlank(option)) == "upgrade"
  }

  predicate HasField(fields: seq<Field>, name: string) {
    ValuesOf(fields, name) != []
  }

  /** What a header section must be, in the words of the documentation rather than of the checks. */
  predicate AdmissibleHead(fields: seq<Field>, limits: Limits, allowBody: bool) {
    && |fields| <= limits.headerCount && HeadBytes(fields) <= limits.headerBytes
    && (forall field | field in fields :: !HasForbiddenControl(field.value))
    && LengthsAgree(ValuesOf(fields, "content-length"))
    && (allowBody || !HasField(fields, "content-length") || DecimalValue(ValuesOf(fields, "content-length")[0]) == 0)
    && !HasField(fields, "transfer-encoding") && !HasField(fields, "expect")
    && !HasField(fields, "upgrade") && !RequestsUpgrade(fields)
  }

  /** The reason behind each refusal. */
  predicate Warranted(fields: seq<Field>, limits: Limits, allowBody: bool, error: AdmissionError) {
    match error
    case HeaderCountExceeded => |fields| > limits.headerCount
    case HeaderBytesExceeded => HeadBytes(fields) > limits.headerBytes
    case InvalidHeader => exists field :: field in fields && HasForbiddenControl(field.value)
    case InvalidContentLength => exists v :: v in ValuesOf(fields, "content-length") && !IsLength(v)
    case ConflictingContentLength => !LengthsAgree(ValuesOf(fields, "content-length"))
    case RequestBodyNotAllowed => !allowBody && HasField(fields, "content-length")
    case UnsupportedTransferEncoding => HasField(fields, "transfer-encoding")
    case UnsupportedExpectation => HasField(fields, "expect")
    case UnsupportedUpgrade => HasField(fields, "upgrade") || RequestsUpgrade(fields)
    case _ => false
  }

  /** The header section as it is sent. */
  function HeadText(fields: seq<Field>): string {
    if fields == [] then "\r\n" else fields[0].name + ": " + fields[0].value + "\r\n" + HeadText(fields[1..])
  }

  lemma HeadBytesCons(field: Field, fields: seq<Field>)
    ensures HeadBytes([field] + fields) == |field.name| + |field.value| + 4 + HeadBytes(fields)
    decreases |fields|
  {
    var all := [field] + fields;
    if fields == [] {
      assert all[..0] == [];
    } else {
      var n := |fields| - 1;
      assert all[..|all| - 1] == [field] + fields[..n] && all[|all| - 1] == fields[n];
      HeadBytesCons(field, fields[..n]);
    }
  }

  /** What is counted is what is sent. */
  lemma {:induction false} HeadBytesTell(fields: seq<Field>)
    ensures HeadBytes(fields) == |HeadText(fields)|
  {
    if fields != [] {
      HeadBytesTell(fields[1..]);
      HeadBytesCons(fields[0], fields[1..]);
      assert fields == [fields[0]] + fields[1..];
    }
  }

  /** `validate_headers_with_body`: for every limit a machine word can hold, the checked sum refuses
      exactly the header sections that are too large. */
  method ValidateHeaders(fields: seq<Field>, limits: Limits, allowBody: bool) returns (r: Result<(), AdmissionError>)
    requires limits.headerBytes < U64_LIMIT
    ensures r.Ok? <==> AdmissibleHead(fields, limits, allowBody)
    ensures r.Err? ==> Warranted(fields, limits, allowBody, r.error)
  {
    hide LengthsAgree, ValuesOf, RequestsUpgrade, HasForbiddenControl, DecimalValue;
    if |fields| > limits.headerCount {
      return Err(HeaderCountExceeded);
    }
    var serialized := 2;
    var i := 0;
    while i < |fields|
      invariant 0 <= i <= |fields| && serialized == HeadBytes(fields[..i])
      invariant forall j | 0 <= j < i :: !HasForbiddenControl(fields[j].value)
    {
      assert fields[..i + 1][..i] == fields[..i];
      assert fields[i] in fields;
      HeadBytesMonotone(fields, i + 1);
      if HasForbiddenControl(fields[i].value) {
        return Err(InvalidHeader);
      }
      var next := serialized + |fields[i].name| + 2 + |fields[i].value| + 2;
      if next >= U64_LIMIT {
        return Err(HeaderBytesExceeded);
      }
      serialized := next;
      i := i + 1;
    }
    assert fields[..i] == fields;
    if serialized > limits.headerBytes {
      return Err(HeaderBytesExceeded);
    }
    var lengths := ValidateContentLength(ValuesOf(fields, "content-length"), allowBody);
    if lengths.Err? {
      return lengths;
    }
    if HasField(fields, "transfer-encoding") {
      return Err(UnsupportedTransferEncoding);
    }
    if HasField(fields, "expect") {
      return Err(UnsupportedExpectation);
    }
    if HasField(fields, "upgrade") || RequestsUpgrade(fields) {
      return Err(UnsupportedUpgrade);
    }
    return Ok(());
  }
}
