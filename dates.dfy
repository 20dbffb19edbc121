/** Calendar dates and the ISO 8601 calendar-date format `YYYY-MM-DD`, as read by
    Python's `datetime.date.fromisoformat` and written by `date.isoformat`. */
module Dates {
  import opened Results

  datatype Date = Date(year: int, month: int, day: int)

  const MIN_YEAR := 1
  const MAX_YEAR := 9999

  predicate IsLeapYear(y: int) {
    y % 4 == 0 && (y % 100 != 0 || y % 400 == 0)
  }

  function DaysInMonth(y: int, m: int): (n: int)
    requires 1 <= m <= 12
    ensures 28 <= n <= 31
  {
    if m == 2 then (if IsLeapYear(y) then 29 else 28)
    else if m == 4 || m == 6 || m == 9 || m == 11 then 30
    else 31
  }

  /** A date that `datetime.date` can represent. */
  predicate Valid(d: Date) {
    MIN_YEAR <= d.year <= MAX_YEAR && 1 <= d.month <= 12 && 1 <= d.day <= DaysInMonth(d.year, d.month)
  }

  /** Chronological order. */
  predicate Before(a: Date, b: Date) {
    a.year < b.year
    || (a.year == b.year && a.month < b.month)
    || (a.year == b.year && a.month == b.month && a.day < b.day)
  }

  predicate IsDigit(c: char) {
    '0' <= c <= '9'
  }

  function DigitValue(c: char): (n: int)
    requires IsDigit(c)
    ensures 0 <= n < 10
  {
    c as int - '0' as int
  }

  function DigitChar(n: int): (c: char)
    requires 0 <= n < 10
    ensures IsDigit(c) && DigitValue(c) == n
  {
    ('0' as int + n) as char
  }

  /** Two decimal digits, with a leading zero. */
  function Pad2(n: int): (s: string)
    requires 0 <= n < 100
  {
    [DigitChar(n / 10), DigitChar(n % 10)]
  }

  /** Four decimal digits, with leading zeros. */
  function Pad4(n: int): (s: string)
    requires 0 <= n < 10000
  {
    [DigitChar(n / 1000), DigitChar(n / 100 % 10), DigitChar(n / 10 % 10), DigitChar(n % 10)]
  }

  /** `date.isoformat()`. */
  function ToIsoFormat(d: Date): (s: string)
    requires Valid(d)
  {
    Pad4(d.year) + "-" + Pad2(d.month) + "-" + Pad2(d.day)
  }

  /** The shape `DDDD-DD-DD` with ASCII digits. */
  predicate IsIsoShape(s: string) {
    |s| == 10 && s[4] == '-' && s[7] == '-'
    && IsDigit(s[0]) && IsDigit(s[1]) && IsDigit(s[2]) && IsDigit(s[3])
    && IsDigit(s[5]) && IsDigit(s[6]) && IsDigit(s[8]) && IsDigit(s[9])
  }

  /** `date.fromisoformat(s)`: `None` stands for the `ValueError` it raises. */
  function FromIsoFormat(s: string): (r: Option<Date>)
    ensures r.Some? ==> Valid(r.value) && ToIsoFormat(r.value) == s
  {
    if !IsIsoShape(s) then None
    else
      var year := 1000 * DigitValue(s[0]) + 100 * DigitValue(s[1]) + 10 * DigitValue(s[2]) + DigitValue(s[3]);
      var month := 10 * DigitValue(s[5]) + DigitValue(s[6]);
      var day := 10 * DigitValue(s[8]) + DigitValue(s[9]);
      var d := Date(year, month, day);
      if Valid(d) then
        assert ToIsoFormat(d) == s by { IsoDigitsRoundTrip(s, d); }
        Some(d)
      else None
  }

  /** Splitting a four-digit number into its digits and joining them again. */
  lemma FourDigits(a: int, b: int, c: int, e: int)
    requires 0 <= a < 10 && 0 <= b < 10 && 0 <= c < 10 && 0 <= e < 10
    ensures var n := 1000 * a + 100 * b + 10 * c + e;
      n / 1000 == a && n / 100 % 10 == b && n / 10 % 10 == c && n % 10 == e
  {
    var n := 1000 * a + 100 * b + 10 * c + e;
    assert n / 10 == 100 * a + 10 * b + c;
    assert n / 100 == 10 * a + b;
  }

  lemma TwoDigits(a: int, e: int)
    requires 0 <= a < 10 && 0 <= e < 10
    ensures (10 * a + e) / 10 == a && (10 * a + e) % 10 == e
  {
  }

  lemma JoinFour(n: int)
    requires 0 <= n < 10000
    ensures 1000 * (n / 1000) + 100 * (n / 100 % 10) + 10 * (n / 10 % 10) + n % 10 == n
  {
    var q := n / 10;
    assert n == 10 * q + n % 10;
    assert q == 10 * (q / 10) + q % 10;
    var p := q / 10;
    assert p == n / 100;
    assert p == 10 * (p / 10) + p % 10;
    assert p / 10 == n / 1000;
  }

  lemma IsoDigitsRoundTrip(s: string, d: Date)
    requires IsIsoShape(s) && Valid(d)
    requires d.year == 1000 * DigitValue(s[0]) + 100 * DigitValue(s[1]) + 10 * DigitValue(s[2]) + DigitValue(s[3])
    requires d.month == 10 * DigitValue(s[5]) + DigitValue(s[6])
    requires d.day == 10 * DigitValue(s[8]) + DigitValue(s[9])
    ensures ToIsoFormat(d) == s
  {
    Pad4OfDigits(s[..4]);
    Pad2OfDigits(s[5..7]);
    Pad2OfDigits(s[8..]);
    assert s == s[..4] + "-" + s[5..7] + "-" + s[8..];
  }

  lemma Pad4OfDigits(s: string)
    requires |s| == 4 && IsDigit(s[0]) && IsDigit(s[1]) && IsDigit(s[2]) && IsDigit(s[3])
    ensures Pad4(1000 * DigitValue(s[0]) + 100 * DigitValue(s[1]) + 10 * DigitValue(s[2]) + DigitValue(s[3])) == s
  {
    FourDigits(DigitValue(s[0]), DigitValue(s[1]), DigitValue(s[2]), DigitValue(s[3]));
    DigitOfValue(s[0]);
    DigitOfValue(s[1]);
    DigitOfValue(s[2]);
    DigitOfValue(s[3]);
  }

  lemma Pad2OfDigits(s: string)
    requires |s| == 2 && IsDigit(s[0]) && IsDigit(s[1])
    ensures Pad2(10 * DigitValue(s[0]) + DigitValue(s[1])) == s
  {
    TwoDigits(DigitValue(s[0]), DigitValue(s[1]));
    DigitOfValue(s[0]);
    DigitOfValue(s[1]);
  }

  lemma DigitOfValue(c: char)
    requires IsDigit(c)
    ensures DigitChar(DigitValue(c)) == c
  {
  }

  /** `date.fromisoformat(d.isoformat()) == d` for every representable date. */
  lemma IsoFormatRoundTrip(d: Date)
    requires Valid(d)
    ensures FromIsoFormat(ToIsoFormat(d)) == Some(d)
  {
    IsoFields(d);
    ReadsFields(ToIsoFormat(d), d);
  }

  /** The fields `FromIsoFormat` reads back from a well-shaped string. */
  lemma ReadsFields(s: string, d: Date)
    requires IsIsoShape(s) && Valid(d)
    requires d.year == 1000 * DigitValue(s[0]) + 100 * DigitValue(s[1]) + 10 * DigitValue(s[2]) + DigitValue(s[3])
    requires d.month == 10 * DigitValue(s[5]) + DigitValue(s[6])
    requires d.day == 10 * DigitValue(s[8]) + DigitValue(s[9])
    ensures FromIsoFormat(s) == Some(d)
  {
  }

  /** `date.isoformat()` writes each field's digits in place. */
  lemma IsoFields(d: Date)
    requires Valid(d)
    ensures var s := ToIsoFormat(d);
      IsIsoShape(s)
      && d.year == 1000 * DigitValue(s[0]) + 100 * DigitValue(s[1]) + 10 * DigitValue(s[2]) + DigitValue(s[3])
      && d.month == 10 * DigitValue(s[5]) + DigitValue(s[6])
      && d.day == 10 * DigitValue(s[8]) + DigitValue(s[9])
  {
    var s := ToIsoFormat(d);
    var y, m, n := Pad4(d.year), Pad2(d.month), Pad2(d.day);
    ValueOfPad4(d.year);
    ValueOfPad2(d.month);
    ValueOfPad2(d.day);
    assert s[0] == y[0] && s[1] == y[1] && s[2] == y[2] && s[3] == y[3];
    assert s[5] == m[0] && s[6] == m[1] && s[8] == n[0] && s[9] == n[1];
  }

  lemma ValueOfPad4(n: int)
    requires 0 <= n < 10000
    ensures var s := Pad4(n);
      1000 * DigitValue(s[0]) + 100 * DigitValue(s[1]) + 10 * DigitValue(s[2]) + DigitValue(s[3]) == n
  {
    JoinFour(n);
  }

  lemma ValueOfPad2(n: int)
    requires 0 <= n < 100
    ensures var s := Pad2(n); 10 * DigitValue(s[0]) + DigitValue(s[1]) == n
  {
  }
}
