/** The metric data point and its parsing from decoded JSON or CSV records
    (app/metrics.py). */
module Metrics {
  import opened Results
  import opened Dates

  /** A decoded record value: a JSON scalar or string, or a CSV cell (always
      `Text`, or `Null` for a missing trailing cell). `Nested` is a JSON array or
      object. Python keeps these values as they are; nothing is coerced. */
  datatype Field = Text(text: string) | Number(number: real) | Boolean(flag: bool) | Null | Nested

  /** One record: a string-keyed dictionary. */
  type Record = map<string, Field>

  /** A single metric data point. `name` is whatever the record held under
      "name"; `metadata` is every other key of the record. */
  datatype Metric = Metric(name: Field, date: Date, value: real, metadata: map<string, Field>)

  /** Why `_parse_common` raised: `KeyError` on a missing key, `TypeError` or
      `ValueError` from `date.fromisoformat`, `TypeError` or `ValueError` from `float`. */
  datatype ParseError = MissingKey(key: string) | InvalidDate(date: Field) | InvalidNumber(value: Field)

  const RESERVED: set<string> := {"name", "date", "value"}

  /** The decimal value of a nonempty run of ASCII digits. */
  function DigitsValue(s: string): (n: nat)
    requires forall i :: 0 <= i < |s| ==> IsDigit(s[i])
    decreases |s|
  {
    if s == [] then 0 else 10 * DigitsValue(s[..|s| - 1]) + DigitValue(s[|s| - 1])
  }

  predicate AllDigits(s: string) {
    forall i :: 0 <= i < |s| ==> IsDigit(s[i])
  }

  function Pow10(n: nat): (p: nat)
    ensures p >= 1
  {
    if n == 0 then 1 else 10 * Pow10(n - 1)
  }

  /** The index of the first '.' in `s`, or |s| when there is none. */
  function PointIndex(s: string): (i: nat)
    ensures i <= |s|
    ensures forall j :: 0 <= j < i ==> s[j] != '.'
    ensures i < |s| ==> s[i] == '.'
  {
    if s == [] then 0
    else if s[0] == '.' then 0
    else 1 + PointIndex(s[1..])
  }

  /** `x` divided by ten `n` times, that is `x / 10^n`. */
  function Tenths(x: real, n: nat): (y: real)
    ensures x >= 0.0 ==> y >= 0.0
  {
    if n == 0 then x else Tenths(x, n - 1) / 10.0
  }

  /** The value of the numeral with whole digits `w` and fraction digits `f`:
      `w` plus `f` read as a whole number and divided by ten once per digit. */
  function DecimalValue(w: string, f: string): (x: real)
    requires AllDigits(w) && AllDigits(f)
    ensures x >= 0.0
  {
    DigitsValue(w) as real + Tenths(DigitsValue(f) as real, |f|)
  }

  /** An unsigned decimal `DDD`, `DDD.`, `DDD.DDD` or `.DDD`. */
  function ParseUnsigned(s: string): (r: Option<real>)
    ensures r.Some? ==> r.value >= 0.0
  {
    var p := PointIndex(s);
    var whole := s[..p];
    var fraction := if p < |s| then s[p + 1..] else "";
    if AllDigits(whole) && AllDigits(fraction) && |whole| + |fraction| > 0 then
      Some(DecimalValue(whole, fraction))
    else None
  }

  /** `float(s)` on a string: an optional sign followed by an unsigned decimal. */
  function ParseDecimal(s: string): (r: Option<real>)
    ensures r.Some? ==> s != []
    ensures r.Some? && s[0] != '-' ==> r.value >= 0.0
    ensures r.Some? && s[0] == '-' ==> r.value <= 0.0
  {
    if |s| > 0 && (s[0] == '+' || s[0] == '-') then
      match ParseUnsigned(s[1..])
      case None => None
      case Some(x) => Some(if s[0] == '-' then -x else x)
    else ParseUnsigned(s)
  }

  /** A numeral with a point, `W.F`, reads as its whole part plus its fraction. */
  lemma ParseDecimalPoint(w: string, f: string)
    requires AllDigits(w) && AllDigits(f) && |w| + |f| > 0
    ensures ParseDecimal(w + "." + f) == Some(DecimalValue(w, f))
  {
    var s := w + "." + f;
    assert s[|w|] == '.';
    assert forall j :: 0 <= j < |w| ==> s[j] == w[j];
    assert PointIndex(s) == |w|;
    assert s[..|w|] == w && s[|w| + 1..] == f;
    assert s[0] != '+' && s[0] != '-' by {
      if |w| > 0 {
        assert s[0] == w[0] && IsDigit(w[0]);
      }
    }
  }

  /** The decimal numeral of a natural number, as `str(n)` writes it. */
  function NatDigits(n: nat): (s: string)
    ensures s != [] && AllDigits(s)
    decreases n
  {
    if n < 10 then [DigitChar(n)] else NatDigits(n / 10) + [DigitChar(n % 10)]
  }

  lemma {:induction false} NatDigitsValue(n: nat)
    ensures DigitsValue(NatDigits(n)) == n
    decreases n
  {
    var s := NatDigits(n);
    if n >= 10 {
      NatDigitsValue(n / 10);
      assert s[..|s| - 1] == NatDigits(n / 10);
    }
  }

  /** A run of digits without a point reads as its decimal value. */
  lemma ParseUnsignedDigits(s: string)
    requires s != [] && AllDigits(s)
    ensures ParseUnsigned(s) == Some(DigitsValue(s) as real)
  {
    assert PointIndex(s) == |s|;
    assert s[..|s|] == s;
    assert DecimalValue(s, "") == DigitsValue(s) as real by {
      assert DigitsValue("") == 0;
    }
  }

  /** `float(str(n)) == n` and `float("-" + str(n)) == -n`. */
  lemma ParseDecimalOfNumeral(n: nat)
    ensures ParseDecimal(NatDigits(n)) == Some(n as real)
    ensures ParseDecimal("-" + NatDigits(n)) == Some(-(n as real))
  {
    var s := NatDigits(n);
    NatDigitsValue(n);
    ParseUnsignedDigits(s);
    assert s[0] != '+' && s[0] != '-' by {
      assert IsDigit(s[0]);
    }
    assert ("-" + s)[1..] == s;
  }

  /** A leading '-' negates any unsigned reading, and a leading '+' keeps it. */
  lemma ParseDecimalSign(t: string, x: real)
    requires ParseUnsigned(t) == Some(x)
    ensures ParseDecimal("-" + t) == Some(-x)
    ensures ParseDecimal("+" + t) == Some(x)
  {
    assert ("-" + t)[1..] == t;
    assert ("+" + t)[1..] == t;
  }

  /** A signed `-W.F` or `+W.F` reads as the signed value of `W.F`. */
  lemma ParseDecimalSigned(w: string, f: string)
    requires AllDigits(w) && AllDigits(f) && |w| + |f| > 0
    ensures ParseDecimal("-" + (w + "." + f)) == Some(-DecimalValue(w, f))
    ensures ParseDecimal("+" + (w + "." + f)) == Some(DecimalValue(w, f))
  {
    var s := w + "." + f;
    assert ParseUnsigned(s) == Some(DecimalValue(w, f)) by {
      ParseDecimalPoint(w, f);
      if |w| > 0 {
        assert s[0] == w[0] && IsDigit(w[0]);
      }
    }
    ParseDecimalSign(s, DecimalValue(w, f));
  }

  /** What an unsigned decimal looks like, character by character: only ASCII
      digits and '.', at most one '.', and at least one digit. */
  predicate UnsignedShape(s: string) {
    && (forall j :: 0 <= j < |s| ==> IsDigit(s[j]) || s[j] == '.')
    && (forall j, k :: 0 <= j < k < |s| && s[j] == '.' ==> s[k] != '.')
    && (exists j :: 0 <= j < |s| && IsDigit(s[j]))
  }

  /** An unsigned decimal, or a '+' or '-' followed by one. */
  predicate DecimalShape(s: string) {
    || UnsignedShape(s)
    || (|s| > 0 && (s[0] == '+' || s[0] == '-') && UnsignedShape(s[1..]))
  }

  lemma ShapeParses(s: string)
    requires UnsignedShape(s)
    ensures ParseUnsigned(s).Some?
  {
    var p := PointIndex(s);
    var whole := s[..p];
    var fraction := if p < |s| then s[p + 1..] else "";
    forall i | 0 <= i < |whole|
      ensures IsDigit(whole[i])
    {
      assert whole[i] == s[i];
    }
    forall i | 0 <= i < |fraction|
      ensures IsDigit(fraction[i])
    {
      assert fraction[i] == s[p + 1 + i];
    }
    var j :| 0 <= j < |s| && IsDigit(s[j]);
    if j < p {
      assert |whole| > 0;
    } else {
      assert j > p && |fraction| > 0;
    }
  }

  lemma ParsesShape(s: string)
    requires ParseUnsigned(s).Some?
    ensures UnsignedShape(s)
  {
    var p := PointIndex(s);
    var whole := s[..p];
    var fraction := if p < |s| then s[p + 1..] else "";
    assert AllDigits(whole) && AllDigits(fraction) && |whole| + |fraction| > 0;
    forall j | 0 <= j < |s|
      ensures IsDigit(s[j]) || s[j] == '.'
    {
      if j < p {
        assert s[j] == whole[j];
      } else if j > p {
        assert s[j] == fraction[j - p - 1];
      }
    }
    forall j, k | 0 <= j < k < |s| && s[j] == '.'
      ensures s[k] != '.'
    {
      assert p <= j;
      assert s[k] == fraction[k - p - 1];
    }
    if |whole| > 0 {
      assert IsDigit(s[0]) by { assert s[0] == whole[0]; }
    } else {
      assert IsDigit(s[p + 1]) by { assert s[p + 1] == fraction[0]; }
    }
  }

  /** `ParseUnsigned` accepts exactly the strings of `UnsignedShape`. */
  lemma ParseUnsignedShape(s: string)
    ensures ParseUnsigned(s).Some? <==> UnsignedShape(s)
  {
    if UnsignedShape(s) {
      ShapeParses(s);
    }
    if ParseUnsigned(s).Some? {
      ParsesShape(s);
    }
  }

  /** `float(s)` accepts exactly an optional sign followed by ASCII digits with
      at most one point and at least one digit: no exponent, no spaces, no
      "inf" or "nan", no bare point. */
  lemma ParseDecimalShape(s: string)
    ensures ParseDecimal(s).Some? <==> DecimalShape(s)
  {
    if |s| > 0 && (s[0] == '+' || s[0] == '-') {
      ParseUnsignedShape(s[1..]);
      assert !(IsDigit(s[0]) || s[0] == '.');
    } else {
      ParseUnsignedShape(s);
    }
  }

  /** A negative decimal with a fraction. */
  lemma ParseDecimalAccepts()
    ensures ParseDecimal("-2.5") == Some(-2.5)
  {
    assert DecimalValue("2", "5") == 2.5 by {
      assert DigitsValue("2") == 2 && DigitsValue("5") == 5 && Tenths(5.0, 1) == 0.5;
    }
    assert "-" + ("2" + "." + "5") == "-2.5";
    ParseDecimalSigned("2", "5");
  }

  /** A numeral with no digits before the point reads as its fraction. */
  lemma ParseDecimalFractionOnly()
    ensures ParseDecimal(".5") == Some(0.5)
  {
    assert DigitsValue("") == 0 && DigitsValue("5") == 5 && Tenths(5.0, 1) == 0.5;
    ParseDecimalPoint("", "5");
    assert "" + "." + "5" == ".5";
  }

  /** A few strings `float` rejects: an exponent, a bare point, two points, a bare sign. */
  lemma ParseDecimalRejects()
    ensures ParseDecimal("1e5") == None
    ensures ParseDecimal(".") == None
    ensures ParseDecimal("1.2.3") == None
    ensures ParseDecimal("-") == None
  {
    ParseDecimalShape("1e5");
    assert !(IsDigit("1e5"[1]) || "1e5"[1] == '.');
    ParseDecimalShape(".");
    ParseDecimalShape("1.2.3");
    assert "1.2.3"[1] == '.' && "1.2.3"[3] == '.';
    ParseDecimalShape("-");
  }

  /** `float(v)` on a decoded value: `None` stands for the error it raises. */
  function ToFloat(v: Field): (r: Option<real>)
    ensures r.Some? <==> v.Number? || v.Boolean? || (v.Text? && ParseDecimal(v.text).Some?)
    ensures v.Number? ==> r == Some(v.number)
    ensures v.Boolean? ==> r == Some(if v.flag then 1.0 else 0.0)
    ensures v.Text? ==> r == ParseDecimal(v.text)
  {
    match v
    case Number(x) => Some(x)
    case Boolean(b) => Some(if b then 1.0 else 0.0)
    case Text(s) => ParseDecimal(s)
    case Null => None
    case Nested => None
  }

  /** `date.fromisoformat(v)`: strings only, in the `YYYY-MM-DD` form. */
  function DateOf(v: Field): (r: Option<Date>)
    ensures r.Some? <==> v.Text? && FromIsoFormat(v.text).Some?
    ensures r.Some? ==> Valid(r.value) && v == Text(ToIsoFormat(r.value))
  {
    if v.Text? then FromIsoFormat(v.text) else None
  }

  /** `rec.pop(key)`: the value and what remains of the copy. */
  function Pop(rec: Record, key: string): (p: (Field, Record))
    requires key in rec
    ensures p.0 == rec[key] && p.1 == rec - {key}
  {
    (rec[key], rec - {key})
  }

  /** `_parse_common`: work on a copy of the record, popping "name", "date" and
      "value" in that order; what is left is the metadata. The caller's record is
      a value and is not changed. */
  function ParseCommon(record: Record): (r: Result<Metric, ParseError>)
    ensures r.Ok? <==>
      RESERVED <= record.Keys && DateOf(record["date"]).Some? && ToFloat(record["value"]).Some?
    ensures r.Ok? ==>
      && r.value.name == record["name"]
      && DateOf(record["date"]) == Some(r.value.date)
      && record["date"] == Text(ToIsoFormat(r.value.date))
      && ToFloat(record["value"]) == Some(r.value.value)
      && r.value.metadata.Keys == record.Keys - RESERVED
      && (forall k :: k in r.value.metadata ==> r.value.metadata[k] == record[k])
    ensures "name" !in record ==> r == Err(MissingKey("name"))
    ensures "name" in record && "date" !in record ==> r == Err(MissingKey("date"))
    ensures "name" in record && "date" in record && DateOf(record["date"]).None? ==>
      r == Err(InvalidDate(record["date"]))
    ensures "name" in record && "date" in record && DateOf(record["date"]).Some? && "value" !in record ==>
      r == Err(MissingKey("value"))
    ensures RESERVED <= record.Keys && DateOf(record["date"]).Some? && ToFloat(record["value"]).None? ==>
      r == Err(InvalidNumber(record["value"]))
  {
    var rec := record;
    if "name" !in rec then Err(MissingKey("name")) else
    var (name, rec) := Pop(rec, "name");
    if "date" !in rec then Err(MissingKey("date")) else
    var (rawDate, rec) := Pop(rec, "date");
    match DateOf(rawDate)
    case None => Err(InvalidDate(rawDate))
    case Some(d) =>
      if "value" !in rec then Err(MissingKey("value")) else
      var (rawValue, rec) := Pop(rec, "value");
      match ToFloat(rawValue)
      case None => Err(InvalidNumber(rawValue))
      case Some(v) => Ok(Metric(name, d, v, rec))
  }

  /** The record a metric is written as: its metadata plus the three typed fields. */
  function RecordOf(m: Metric): Record
    requires Valid(m.date)
  {
    m.metadata["name" := m.name]["date" := Text(ToIsoFormat(m.date))]["value" := Number(m.value)]
  }

  /** Every metric whose metadata avoids the reserved keys is parsed back from its record. */
  lemma ParseRecordRoundTrip(m: Metric)
    requires Valid(m.date)
    requires m.metadata.Keys !! RESERVED
    ensures ParseCommon(RecordOf(m)) == Ok(m)
  {
    IsoFormatRoundTrip(m.date);
    var rec := RecordOf(m);
    var r := ParseCommon(rec);
    assert r.Ok?;
    assert r.value.metadata == m.metadata;
  }

  /** The records parsed one to one, in order. */
  predicate ParsedInOrder(records: seq<Record>, ms: seq<Metric>) {
    |ms| == |records| && forall i :: 0 <= i < |records| ==> ParseCommon(records[i]) == Ok(ms[i])
  }

  /** Record `i` is the first that does not parse, and `e` is its error. */
  predicate FailsFirstAt(records: seq<Record>, i: int, e: ParseError) {
    0 <= i < |records| && ParseCommon(records[i]) == Err(e)
    && forall j :: 0 <= j < i ==> ParseCommon(records[j]).Ok?
  }

  /** `e` is the error of the first record that does not parse. */
  predicate FirstFailure(records: seq<Record>, e: ParseError) {
    exists i :: 0 <= i < |records| && FailsFirstAt(records, i, e)
  }

  lemma ParsedInOrderCons(records: seq<Record>, m: Metric, ms: seq<Metric>)
    requires |records| > 0 && ParseCommon(records[0]) == Ok(m) && ParsedInOrder(records[1..], ms)
    ensures ParsedInOrder(records, [m] + ms)
  {
    var out := [m] + ms;
    forall i | 1 <= i < |records| ensures ParseCommon(records[i]) == Ok(out[i]) {
      var tail := records[1..];
      assert tail[i - 1] == records[i];
      assert out[i] == ms[i - 1];
    }
  }

  lemma FailsFirstAtCons(records: seq<Record>, i: int, e: ParseError)
    requires |records| > 0 && ParseCommon(records[0]).Ok? && FailsFirstAt(records[1..], i, e)
    ensures FailsFirstAt(records, i + 1, e)
  {
    var tail := records[1..];
    assert forall j :: 0 <= j < |tail| ==> records[j + 1] == tail[j];
  }

  /** `parse_json` applied to the already decoded list: `[_parse_common(rec) for rec in data]`. */
  function ParseJson(records: seq<Record>): (r: Result<seq<Metric>, ParseError>)
    ensures r.Ok? <==> forall i :: 0 <= i < |records| ==> ParseCommon(records[i]).Ok?
    ensures r.Ok? ==> ParsedInOrder(records, r.value)
    ensures r.Err? ==> FirstFailure(records, r.error)
    decreases |records|
  {
    if records == [] then Ok([])
    else
      match ParseCommon(records[0])
      case Err(e) =>
        assert FailsFirstAt(records, 0, e);
        Err(e)
      case Ok(m) =>
        var tail := records[1..];
        assert forall i :: 0 <= i < |tail| ==> tail[i] == records[i + 1];
        match ParseJson(tail)
        case Err(e) =>
          assert FirstFailure(records, e) by {
            var i :| 0 <= i < |tail| && FailsFirstAt(tail, i, e);
            FailsFirstAtCons(records, i, e);
          }
          Err(e)
        case Ok(ms) =>
          ParsedInOrderCons(records, m, ms);
          Ok([m] + ms)
  }

  lemma ParsedInOrderSnoc(records: seq<Record>, ms: seq<Metric>, last: Record, m: Metric)
    requires ParsedInOrder(records, ms) && ParseCommon(last) == Ok(m)
    ensures ParsedInOrder(records + [last], ms + [m])
  {
    var all, out := records + [last], ms + [m];
    forall i | 0 <= i < |all| ensures ParseCommon(all[i]) == Ok(out[i]) {
      if i < |records| {
        assert all[i] == records[i] && out[i] == ms[i];
      }
    }
  }

  /** `parse_csv` applied to the already decoded rows: append one metric per row. */
  method ParseCsv(rows: seq<Record>) returns (r: Result<seq<Metric>, ParseError>)
    ensures r.Ok? <==> forall i :: 0 <= i < |rows| ==> ParseCommon(rows[i]).Ok?
    ensures r.Ok? ==> ParsedInOrder(rows, r.value)
    ensures r.Err? ==> FirstFailure(rows, r.error)
  {
    var metrics: seq<Metric> := [];
    for n := 0 to |rows|
      invariant ParsedInOrder(rows[..n], metrics)
      invariant forall i :: 0 <= i < n ==> ParseCommon(rows[i]).Ok?
    {
      match ParseCommon(rows[n])
      case Err(e) =>
        assert FailsFirstAt(rows, n, e);
        return Err(e);
      case Ok(m) =>
        ParsedInOrderSnoc(rows[..n], metrics, rows[n], m);
        assert rows[..n] + [rows[n]] == rows[..n + 1];
        metrics := metrics + [m];
    }
    assert rows[..|rows|] == rows;
    return Ok(metrics);
  }

  /** The record of the JSON test case parses to the expected metric. */
  lemma JsonExample()
    ensures ParseJson([map["name" := Text("pull_request_count"), "date" := Text("2023-01-01"),
                           "value" := Number(10.0), "repo" := Text("example")]])
         == Ok([Metric(Text("pull_request_count"), Date(2023, 1, 1), 10.0, map["repo" := Text("example")])])
  {
    var m := Metric(Text("pull_request_count"), Date(2023, 1, 1), 10.0, map["repo" := Text("example")]);
    assert ToIsoFormat(m.date) == "2023-01-01";
    ParseRecordRoundTrip(m);
    assert RecordOf(m) == map["name" := Text("pull_request_count"), "date" := Text("2023-01-01"),
                              "value" := Number(10.0), "repo" := Text("example")];
    var r := ParseJson([RecordOf(m)]);
    assert r.Ok? && |r.value| == 1 && ParseCommon(RecordOf(m)) == Ok(r.value[0]);
    assert r.value == [m];
  }

  /** The row of the CSV test case, where every cell is text, parses to the expected metric. */
  lemma CsvExample()
    ensures ParseCommon(map["name" := Text("pull_request_count"), "date" := Text("2023-01-01"),
                            "value" := Text("5"), "repo" := Text("example")])
         == Ok(Metric(Text("pull_request_count"), Date(2023, 1, 1), 5.0, map["repo" := Text("example")]))
  {
    var row := map["name" := Text("pull_request_count"), "date" := Text("2023-01-01"),
                   "value" := Text("5"), "repo" := Text("example")];
    IsoFormatRoundTrip(Date(2023, 1, 1));
    assert ToIsoFormat(Date(2023, 1, 1)) == "2023-01-01";
    ParseDecimalOfNumeral(5);
    assert NatDigits(5) == "5";
    var r := ParseCommon(row);
    assert r.Ok?;
    assert r.value.metadata == map["repo" := Text("example")];
  }
}
