/**
 Trace rows of the load generator (`load_gen.rs`), and the reading of one record
 by section 2 of RFC 4180.
 */
module Csv {
  import opened Collections

  // ----- writing

  function EscapeCsvField(field: string): string {
    if ',' in field || '"' in field || '\n' in field then "\"" + Doubled(field) + "\"" else field
  }

  /** Every quote written twice. */
  function Doubled(s: string): string {
    if s == "" then "" else (if s[0] == '"' then "\"\"" else [s[0]]) + Doubled(s[1..])
  }

  const DIGITS: string := "0123456789"

  function Decimal(n: nat): (r: string)
    ensures Plain(r)
  {
    (if n < 10 then "" else Decimal(n / 10)) + [DIGITS[n % 10]]
  }

  /** The number a string of decimal digits denotes. */
  function Value(s: string): int {
    if s == "" then 0 else 10 * Value(s[..|s| - 1]) + (s[|s| - 1] as int - '0' as int)
  }

  lemma ValueSnoc(s: string, c: char)
    ensures Value(s + [c]) == 10 * Value(s) + (c as int - '0' as int)
  {
    assert (s + [c])[..|s|] == s;
  }

  /** Numbers are printed in digits that denote them. */
  lemma {:induction false} DecimalValue(n: nat)
    ensures Value(Decimal(n)) == n
  {
    var front, last := if n < 10 then "" else Decimal(n / 10), DIGITS[n % 10];
    assert Decimal(n) == front + [last] && Value("") == 0;
    DigitValue(n % 10);
    ValueSnoc(front, last);
    hide DIGITS, Decimal, Value;
    if n >= 10 {
      DecimalValue(n / 10);
    }
  }

  /** Only digits are printed, and no leading zeros. */
  lemma {:induction false} DecimalDigits(n: nat)
    ensures forall i :: 0 <= i < |Decimal(n)| ==> '0' <= Decimal(n)[i] <= '9'
    ensures |Decimal(n)| >= 1 && (|Decimal(n)| == 1 <==> n < 10)
    ensures n > 0 ==> Decimal(n)[0] != '0'
  {
    var front, last := if n < 10 then "" else Decimal(n / 10), DIGITS[n % 10];
    assert Decimal(n) == front + [last];
    DigitValue(n % 10);
    hide DIGITS, Decimal;
    if n >= 10 {
      DecimalDigits(n / 10);
    }
  }

  lemma DigitValue(d: nat)
    requires d < 10
    ensures '0' <= DIGITS[d] <= '9' && DIGITS[d] as int - '0' as int == d
    ensures d > 0 ==> DIGITS[d] != '0'
  {
  }

  datatype TraceRecord = TraceRecord(api: string, requestId: nat, sloUs: nat, startAt: nat, deadline: nat, latency: nat,
                                     error: string, qLatInit: nat, qLatResume: nat, queueLengths: string,
                                     additionalMetrics: seq<string>)

  const GENERIC_FIELDS := 10

  function Metric(r: TraceRecord, i: nat): string {
    if i < |r.additionalMetrics| then r.additionalMetrics[i] else ""
  }

  /** What follows `api` in front of the additional metrics. */
  function GenericFields(r: TraceRecord): (fields: seq<string>)
    ensures |fields| == GENERIC_FIELDS - 1
  {
    [Decimal(r.requestId), Decimal(r.sloUs), Decimal(r.startAt), Decimal(r.deadline), Decimal(r.latency),
     r.error, Decimal(r.qLatInit), Decimal(r.qLatResume), r.queueLengths]
  }

  /** Missing metrics are empty. */
  function Metrics(r: TraceRecord, n: nat): (fields: seq<string>)
    ensures |fields| == n
  {
    seq(n, i requires i >= 0 => Metric(r, i))
  }

  /** The values a row stands for. */
  function Fields(r: TraceRecord, n: nat): (fields: seq<string>)
    ensures |fields| == GENERIC_FIELDS + n
  {
    [r.api] + (GenericFields(r) + Metrics(r, n))
  }

  /** A row for a header with `n` additional metrics; none when the record has more than the header. */
  method ToCsvRow(r: TraceRecord, n: nat) returns (row: Option<string>)
    ensures row.None? <==> |r.additionalMetrics| > n
    ensures row.Some? ==> row.value == Line(r, n)
  {
    var generic := Decimal(r.requestId) + "," + Decimal(r.sloUs) + "," + Decimal(r.startAt) + ","
      + Decimal(r.deadline) + "," + Decimal(r.latency) + "," + EscapeCsvField(r.error) + "," + Decimal(r.qLatInit) + ","
      + Decimal(r.qLatResume) + "," + EscapeCsvField(r.queueLengths);
    if |r.additionalMetrics| > n {
      return None;
    }
    GenericRow(r);
    FirstLine(r);
    hide Decimal, EscapeCsvField, Line, GenericFields;
    var line := r.api + "," + generic;
    for index := 0 to n
      invariant line == Line(r, index)
    {
      NextMetric(r, index);
      line := line + ",";
      if index < |r.additionalMetrics| {
        line := line + EscapeCsvField(r.additionalMetrics[index]);
      }
    }
    row := Some(line);
  }

  /** The row with the first `n` additional metrics. */
  ghost function Line(r: TraceRecord, n: nat): string {
    r.api + "," + Row(GenericFields(r) + Metrics(r, n))
  }

  lemma FirstLine(r: TraceRecord)
    ensures Line(r, 0) == r.api + "," + Row(GenericFields(r))
  {
    assert GenericFields(r) + Metrics(r, 0) == GenericFields(r);
  }

  lemma NextMetric(r: TraceRecord, index: nat)
    ensures Line(r, index + 1) == Line(r, index) + "," + EscapeCsvField(Metric(r, index))
    ensures Line(r, index) + "," + EscapeCsvField("") == Line(r, index) + ","
  {
    hide GenericFields, Row;
    assert GenericFields(r) + Metrics(r, index + 1) == (GenericFields(r) + Metrics(r, index)) + [Metric(r, index)];
    RowSnoc(GenericFields(r) + Metrics(r, index), Metric(r, index));
    var row := Row(GenericFields(r) + Metrics(r, index));
    hide *;
    Regroup(r.api + ",", row, ",", EscapeCsvField(Metric(r, index)));
  }

  lemma Regroup(a: string, b: string, c: string, d: string)
    ensures a + (b + c + d) == a + b + c + d
  {
  }

  /** Escaped fields between commas. */
  ghost function Row(fields: seq<string>): string {
    if |fields| == 0 then "" else if |fields| == 1 then EscapeCsvField(fields[0])
    else EscapeCsvField(fields[0]) + "," + Row(fields[1..])
  }

  lemma {:induction false} RowSnoc(fields: seq<string>, f: string)
    requires |fields| > 0
    ensures Row(fields + [f]) == Row(fields) + "," + EscapeCsvField(f)
  {
    if |fields| == 1 {
      assert (fields + [f])[1..] == [f];
    } else {
      assert (fields + [f])[1..] == fields[1..] + [f];
      RowSnoc(fields[1..], f);
    }
  }

  lemma RowTake(fields: seq<string>, k: nat)
    requires 0 < k < |fields|
    ensures Row(fields[..k + 1]) == Row(fields[..k]) + "," + EscapeCsvField(fields[k])
  {
    assert fields[..k + 1] == fields[..k] + [fields[k]];
    RowSnoc(fields[..k], fields[k]);
  }

  lemma DigitsUnescaped(n: nat)
    ensures EscapeCsvField(Decimal(n)) == Decimal(n)
  {
    hide Decimal;
  }

  lemma GenericRow(r: TraceRecord)
    ensures Row(GenericFields(r)) ==
            Decimal(r.requestId) + "," + Decimal(r.sloUs) + "," + Decimal(r.startAt) + ","
            + Decimal(r.deadline) + "," + Decimal(r.latency) + "," + EscapeCsvField(r.error) + "," +
              Decimal(r.qLatInit) + ","
            + Decimal(r.qLatResume) + "," + EscapeCsvField(r.queueLengths)
  {
    var fields := GenericFields(r);
    assert Row(fields[..1]) == EscapeCsvField(fields[0]) && fields[..9] == fields;
    DigitsUnescaped(r.requestId);
    DigitsUnescaped(r.sloUs);
    DigitsUnescaped(r.startAt);
    DigitsUnescaped(r.deadline);
    DigitsUnescaped(r.latency);
    DigitsUnescaped(r.qLatInit);
    DigitsUnescaped(r.qLatResume);
    hide Row, Decimal, EscapeCsvField;
    RowTake(fields, 1);
    RowTake(fields, 2);
    RowTake(fields, 3);
    RowTake(fields, 4);
    RowTake(fields, 5);
    RowTake(fields, 6);
    RowTake(fields, 7);
    RowTake(fields, 8);
  }

  // ----- reading, by section 2 of RFC 4180

  predicate Special(c: char) {
    c == ',' || c == '"' || c == '\r' || c == '\n'
  }

  /** Text that may stand in a row without quotes. */
  predicate Plain(s: string) {
    forall i :: 0 <= i < |s| ==> !Special(s[i])
  }

  /** The rest of a quoted field: its text, and what follows the closing quote. */
  function ReadQuoted(s: string): Option<(string, string)> {
    if s == "" then None
    else if s[0] != '"' then
      var rest := ReadQuoted(s[1..]);
      if rest.None? then None else Some(([s[0]] + rest.value.0, rest.value.1))
    else if |s| >= 2 && s[1] == '"' then
      var rest := ReadQuoted(s[2..]);
      if rest.None? then None else Some((['"'] + rest.value.0, rest.value.1))
    else Some(("", s[1..]))
  }

  /** The longest plain text in front, and what follows it. */
  function ReadPlain(s: string): (r: (string, string))
    ensures s == r.0 + r.1 && Plain(r.0)
  {
    if s == "" || Special(s[0]) then ("", s) else
      var rest := ReadPlain(s[1..]);
      ([s[0]] + rest.0, rest.1)
  }

  function ReadField(s: string): (r: Option<(string, string)>)
    ensures r.Some? ==> |r.value.1| <= |s|
  {
    if s != "" && s[0] == '"' then
      QuotedIsShorter(s[1..]);
      ReadQuoted(s[1..])
    else Some(ReadPlain(s))
  }

  lemma {:induction false} QuotedIsShorter(s: string)
    ensures ReadQuoted(s).Some? ==> |ReadQuoted(s).value.1| < |s|
  {
    if s != "" && s[0] != '"' {
      QuotedIsShorter(s[1..]);
    } else if |s| >= 2 && s[1] == '"' {
      QuotedIsShorter(s[2..]);
    }
  }

  /** The fields of a text that is one record; none when it is not. */
  function ReadRecord(s: string): Option<seq<string>>
    decreases |s|
  {
    var field := ReadField(s);
    if field.None? then None
    else if field.value.1 == "" then Some([field.value.0])
    else if field.value.1[0] != ',' then None
    else
      var rest := ReadRecord(field.value.1[1..]);
      if rest.None? then None else Some([field.value.0] + rest.value)
  }

  // ----- round trips

  /** A text field the writer gets right: without a carriage return, unless something else has it quoted. */
  predicate Writable(f: string) {
    '\r' in f ==> ',' in f || '"' in f || '\n' in f
  }

  ghost predicate AllWritable(fields: seq<string>) {
    forall i :: 0 <= i < |fields| ==> Writable(fields[i])
  }

  lemma FirstWritable(fields: seq<string>)
    requires |fields| > 0
    ensures AllWritable(fields) <==> Writable(fields[0]) && AllWritable(fields[1..])
    ensures |fields| == 1 ==> AllWritable(fields[1..])
  {
    hide Writable;
    assert forall i :: 0 < i < |fields| ==> fields[i] == fields[1..][i - 1];
  }

  ghost predicate Ends(rest: string) {
    rest == "" || rest[0] == ','
  }

  lemma {:induction false} ReadDoubled(f: string, rest: string)
    requires rest == "" || rest[0] != '"'
    ensures ReadQuoted(Doubled(f) + "\"" + rest) == Some((f, rest))
  {
    var s := Doubled(f) + "\"" + rest;
    if f == "" {
      assert s == "\"" + rest && s[1..] == rest;
    } else {
      ReadDoubled(f[1..], rest);
      var tail := Doubled(f[1..]) + "\"" + rest;
      if f[0] == '"' {
        assert s == "\"\"" + tail && s[2..] == tail;
      } else {
        assert s == [f[0]] + tail && s[1..] == tail;
      }
      assert f == [f[0]] + f[1..];
    }
  }

  lemma {:induction false} ReadPlainPrefix(f: string, rest: string)
    requires Plain(f) && (rest == "" || Special(rest[0]))
    ensures ReadPlain(f + rest) == (f, rest)
  {
    if f == "" {
      assert f + rest == rest;
    } else {
      assert (f + rest)[1..] == f[1..] + rest;
      ReadPlainPrefix(f[1..], rest);
      assert f == [f[0]] + f[1..];
    }
  }

  lemma OpeningQuote(tail: string)
    ensures ReadField("\"" + tail) == ReadQuoted(tail)
  {
    hide ReadQuoted;
    assert ("\"" + tail)[1..] == tail;
  }

  lemma Quoting(f: string, rest: string)
    requires ',' in f || '"' in f || '\n' in f
    ensures EscapeCsvField(f) + rest == "\"" + (Doubled(f) + "\"" + rest)
  {
    hide Doubled;
  }

  lemma ReadEscaped(f: string, rest: string)
    requires Writable(f) && Ends(rest)
    ensures ReadField(EscapeCsvField(f) + rest) == Some((f, rest))
  {
    if ',' in f || '"' in f || '\n' in f {
      hide *;
      Quoting(f, rest);
      OpeningQuote(Doubled(f) + "\"" + rest);
      assert rest == "" || rest[0] != '"' by { EndsUnquoted(rest); }
      ReadDoubled(f, rest);
    } else {
      assert Plain(f) && EscapeCsvField(f) == f;
      assert f + rest == "" || (f + rest)[0] != '"';
      hide EscapeCsvField, Doubled, ReadQuoted, Plain, Writable;
      ReadPlainPrefix(f, rest);
    }
  }

  lemma EndsUnquoted(rest: string)
    requires Ends(rest)
    ensures rest == "" || rest[0] != '"'
  {
  }

  /** A field with a bare carriage return stops the reader in its middle. */
  lemma ReadUnwritable(f: string, rest: string)
    requires !Writable(f)
    ensures var r := ReadField(EscapeCsvField(f) + rest); r.Some? && r.value.1 != "" && r.value.1[0] == '\r'
  {
    var i := FirstReturn(f);
    assert f + rest == f[..i] + (f[i..] + rest);
    ReadPlainPrefix(f[..i], f[i..] + rest);
    assert (f + rest)[0] != '"';
  }

  lemma {:induction false} FirstReturn(f: string) returns (i: nat)
    requires '\r' in f
    ensures i < |f| && f[i] == '\r' && '\r' !in f[..i]
  {
    if f[0] == '\r' {
      i := 0;
    } else {
      i := FirstReturn(f[1..]);
      i := i + 1;
      assert f[..i] == [f[0]] + f[1..][..i - 1];
    }
  }

  /** Escaped fields are read back exactly when none holds a bare carriage return. */
  lemma {:induction false} RowRoundTrip(fields: seq<string>)
    requires |fields| > 0
    ensures ReadRecord(Row(fields)) == Some(fields) <==> AllWritable(fields)
  {
    var f := fields[0];
    var rest := if |fields| == 1 then "" else "," + Row(fields[1..]);
    assert Row(fields) == EscapeCsvField(f) + rest;
    FirstWritable(fields);
    hide EscapeCsvField, Writable, AllWritable, ReadField, ReadRecord, Row;
    if !Writable(f) {
      ReadUnwritable(f, rest);
      ReadStops(Row(fields));
    } else {
      ReadEscaped(f, rest);
      assert fields == [f] + fields[1..];
      if |fields| > 1 {
        RowRoundTrip(fields[1..]);
        ReadRest(Row(fields), f, Row(fields[1..]), fields[1..]);
      } else {
        ReadEnds(Row(fields));
        assert fields == [f];
      }
    }
  }

  lemma ReadRest(s: string, f: string, tail: string, fields: seq<string>)
    requires ReadField(s) == Some((f, "," + tail)) && |fields| > 0
    ensures ReadRecord(s) == Some([f] + fields) <==> ReadRecord(tail) == Some(fields)
  {
    hide ReadRecord, ReadField;
    assert ("," + tail)[1..] == tail;
    ReadOnward(s, f, fields);
  }

  lemma ReadStops(s: string)
    requires ReadField(s).Some? && ReadField(s).value.1 != "" && ReadField(s).value.1[0] != ','
    ensures ReadRecord(s).None?
  {
    hide ReadField;
  }

  lemma ReadEnds(s: string)
    requires ReadField(s).Some? && ReadField(s).value.1 == ""
    ensures ReadRecord(s) == Some([ReadField(s).value.0])
  {
    hide ReadField;
  }

  /** When the first field reads back as itself, the rest decides. */
  lemma ReadOnward(s: string, f: string, fields: seq<string>)
    requires ReadField(s).Some? && ReadField(s).value.0 == f && ReadField(s).value.1 != "" &&
             ReadField(s).value.1[0] == ','
    ensures |fields| > 0 ==>
              (ReadRecord(s) == Some([f] + fields) <==> ReadRecord(ReadField(s).value.1[1..]) == Some(fields))
  {
    var rest := ReadRecord(ReadField(s).value.1[1..]);
    if rest.Some? {
      assert ([f] + rest.value)[1..] == rest.value && ([f] + fields)[1..] == fields;
    }
  }

  // ----- the first field, which is written as it is

  /** Text put in front of a record unescaped is read back exactly when it is plain. */
  lemma RawFieldRoundTrip(api: string, fields: seq<string>)
    requires |fields| > 0
    ensures ReadRecord(api + "," + Row(fields)) == Some([api] + fields) <==>
            Plain(api) && ReadRecord(Row(fields)) == Some(fields)
  {
    var rest := "," + Row(fields);
    assert api + "," + Row(fields) == api + rest && rest[1..] == Row(fields);
    if Plain(api) {
      ReadPlainPrefix(api, rest);
      assert (api + rest)[0] != '"';
      ReadOnward(api + rest, api, fields);
    } else {
      RawFieldChanged(api, rest);
      hide ReadField, Plain, Row;
      if ReadRecord(api + rest) == Some([api] + fields) {
        FirstFieldDecides(api + rest, [api] + fields);
      }
    }
  }

  lemma FirstFieldDecides(s: string, fields: seq<string>)
    requires |fields| > 0 && ReadRecord(s) == Some(fields)
    ensures ReadField(s).Some? && ReadField(s).value.0 == fields[0]
  {
    hide ReadField;
  }

  lemma {:induction false} DoubledQuotes(s: string, m: nat)
    requires m <= |s| && forall i :: 0 <= i < m ==> s[i] == '"'
    ensures |Doubled(s)| >= 2 * m && forall j :: 0 <= j < 2 * m ==> Doubled(s)[j] == '"'
  {
    if m > 0 {
      DoubledQuotes(s[1..], m - 1);
      assert Doubled(s) == "\"\"" + Doubled(s[1..]);
    }
  }

  /** Text that starts with quotes is never its own quoted form: the doubled quotes would have to go on past its end. */
  lemma {:induction false} LeadingQuotes(s: string, rest: string, m: nat)
    requires 1 <= m <= |s| && rest != "" && rest[0] == ',' && forall i :: 0 <= i < m ==> s[i] == '"'
    ensures !(Doubled(s) + "\"" <= (s + rest)[1..])
    decreases |s| - m
  {
    DoubledQuotes(s, m);
    if Doubled(s) + "\"" <= (s + rest)[1..] {
      assert (Doubled(s) + "\"")[m - 1] == (s + rest)[1..][m - 1] == (s + rest)[m];
      if m < |s| {
        LeadingQuotes(s, rest, m + 1);
      }
    }
  }

  lemma RawFieldChanged(api: string, rest: string)
    requires !Plain(api) && rest != "" && rest[0] == ','
    ensures ReadField(api + rest).Some? ==> ReadField(api + rest).value.0 != api
  {
    assert api != "";
    if api[0] == '"' {
      var s := (api + rest)[1..];
      if ReadQuoted(s).Some? && ReadQuoted(s).value.0 == api {
        QuotedStartsDoubled(s);
        LeadingQuotes(api, rest, 1);
      }
    }
  }

  /**
   What is read as a quoted field is its text with quotes doubled and a quote after it, up
   to something that is no quote.
   */
  lemma {:induction false} QuotedStartsDoubled(s: string)
    ensures match ReadQuoted(s)
            case None => true
            case Some((f, rest)) => s == Doubled(f) + "\"" + rest && (rest == "" || rest[0] != '"')
  {
    if s != "" && s[0] != '"' {
      QuotedStartsDoubled(s[1..]);
    } else if |s| >= 2 && s[1] == '"' {
      QuotedStartsDoubled(s[2..]);
      assert s == "\"\"" + s[2..];
    }
  }

  /** Nothing else is read as a quoted field: after the opening quote there is one way to end it. */
  lemma QuotedExactly(s: string, f: string, rest: string)
    ensures ReadQuoted(s) == Some((f, rest)) <==> s == Doubled(f) + "\"" + rest && (rest == "" || rest[0] != '"')
  {
    QuotedStartsDoubled(s);
    if s == Doubled(f) + "\"" + rest && (rest == "" || rest[0] != '"') {
      ReadDoubled(f, rest);
    }
  }

  // ----- whole rows

  /** Digits are always written as they are. */
  ghost predicate TextWritable(r: TraceRecord, n: nat) {
    Writable(r.error) && Writable(r.queueLengths) && forall i: nat :: i < n ==> Writable(Metric(r, i))
  }

  /**
   A row is read back as its 10 + n values exactly when `api` is plain and no text field
   has a bare carriage return.
   */
  lemma LineRoundTrip(r: TraceRecord, n: nat)
    ensures ReadRecord(Line(r, n)) == Some(Fields(r, n)) <==> Plain(r.api) && TextWritable(r, n)
  {
    hide ReadRecord, Row, Plain, TextWritable, GenericFields, Metrics;
    RawFieldRoundTrip(r.api, GenericFields(r) + Metrics(r, n));
    RowRoundTrip(GenericFields(r) + Metrics(r, n));
    TextFieldsDecide(r, n);
  }

  /** Such a row gives back every part of its record, in its place. */
  lemma RecordRoundTrip(r: TraceRecord, n: nat)
    requires Plain(r.api) && TextWritable(r, n) && |r.additionalMetrics| <= n
    ensures match ReadRecord(Line(r, n))
            case None => false
            case Some(f) =>
              && |f| == 10 + n
              && f[0] == r.api && Value(f[1]) == r.requestId && Value(f[2]) == r.sloUs && Value(f[3]) == r.startAt
              && Value(f[4]) == r.deadline && Value(f[5]) == r.latency && f[6] == r.error
              && Value(f[7]) == r.qLatInit && Value(f[8]) == r.qLatResume && f[9] == r.queueLengths
              && f[10..10 + |r.additionalMetrics|] == r.additionalMetrics
              && forall i :: 10 + |r.additionalMetrics| <= i < 10 + n ==> f[i] == ""
  {
    LineRoundTrip(r, n);
    DecimalValue(r.requestId);
    DecimalValue(r.sloUs);
    DecimalValue(r.startAt);
    DecimalValue(r.deadline);
    DecimalValue(r.latency);
    DecimalValue(r.qLatInit);
    DecimalValue(r.qLatResume);
    hide ReadRecord, Line, Decimal, Value, Plain, TextWritable;
    var f := Fields(r, n);
    forall i | 0 <= i < n ensures f[10 + i] == Metric(r, i) {
    }
  }

  lemma TextFieldsDecide(r: TraceRecord, n: nat)
    ensures AllWritable(GenericFields(r) + Metrics(r, n)) <==> TextWritable(r, n)
  {
    var rest := GenericFields(r) + Metrics(r, n);
    hide Decimal, Writable;
    DigitsWritable(r.requestId);
    DigitsWritable(r.sloUs);
    DigitsWritable(r.startAt);
    DigitsWritable(r.deadline);
    DigitsWritable(r.latency);
    DigitsWritable(r.qLatInit);
    DigitsWritable(r.qLatResume);
    assert rest[5] == r.error && rest[8] == r.queueLengths;
    forall i: nat | i < n ensures rest[9 + i] == Metric(r, i) {
    }
    if TextWritable(r, n) {
      forall i | 0 <= i < |rest| ensures Writable(rest[i]) {
        if i >= 9 {
          assert Writable(Metric(r, i - 9));
        }
      }
    }
  }

  lemma DigitsWritable(n: nat)
    ensures Writable(Decimal(n))
  {
    hide Decimal;
  }
}
