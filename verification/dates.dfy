/**
 * Calendar dates and naive date-times, as Python's `datetime.date` and
 * `datetime.datetime` are used by the dump bookkeeping: a date is a
 * (year, month, day) triple of the proleptic Gregorian calendar, a date-time
 * is a date plus the second of that day, and both compare lexicographically.
 * `date.isoformat()` and `date.fromisoformat()` are modelled for the
 * YYYY-MM-DD form.
 */
module Dates {
  import opened Outcomes
  import opened Strings

  datatype Date = Date(year: int, month: int, day: int)

  predicate IsLeapYear(y: int) {
    y % 4 == 0 && (y % 100 != 0 || y % 400 == 0)
  }

  function DaysInMonth(y: int, m: int): (n: int)
    requires 1 <= m <= 12
    ensures 28 <= n <= 31
  {
    if m == 2 then (if IsLeapYear(y) then 29 else 28)
    else if m == 4 || m == 6 || m == 9 || m == 11 then 30
    else 31
  }

  predicate Valid(d: Date) {
    1 <= d.month <= 12 && 1 <= d.day <= DaysInMonth(d.year, d.month)
  }

  /** Python's `a < b` on dates. */
  predicate Before(a: Date, b: Date) {
    a.year < b.year || (a.year == b.year && (a.month < b.month || (a.month == b.month && a.day < b.day)))
  }

  /** `d + timedelta(days=1)`. */
  function NextDay(d: Date): (r: Date)
    requires Valid(d)
    ensures Valid(r) && Before(d, r)
  {
    if d.day < DaysInMonth(d.year, d.month) then Date(d.year, d.month, d.day + 1)
    else if d.month < 12 then Date(d.year, d.month + 1, 1)
    else Date(d.year + 1, 1, 1)
  }

  /** `d - timedelta(days=1)`. */
  function PrevDay(d: Date): (r: Date)
    requires Valid(d)
    ensures Valid(r) && Before(r, d)
  {
    if d.day > 1 then Date(d.year, d.month, d.day - 1)
    else if d.month > 1 then Date(d.year, d.month - 1, DaysInMonth(d.year, d.month - 1))
    else Date(d.year - 1, 12, 31)
  }

  /** Going one day back and one day forward are inverse. */
  lemma NextPrevInverse(d: Date)
    requires Valid(d)
    ensures NextDay(PrevDay(d)) == d
    ensures PrevDay(NextDay(d)) == d
  {
  }

  /** No valid date lies strictly between a date and the next one. */
  lemma NextDayAdjacent(d: Date, e: Date)
    requires Valid(d) && Valid(e)
    ensures Before(d, e) <==> (e == NextDay(d) || Before(NextDay(d), e))
  {
  }

  /** The first day of a month and the last day of the month before it. */
  lemma MonthBoundary(y: int, m: int)
    requires 1 <= m <= 12
    ensures var last := PrevDay(Date(y, m, 1));
      last.day == DaysInMonth(last.year, last.month) && NextDay(last) == Date(y, m, 1)
  {
  }

  /** A naive date-time: a date and the second of that day. */
  datatype DateTime = DateTime(date: Date, second: int)

  predicate ValidTime(t: DateTime) {
    Valid(t.date) && 0 <= t.second < 86400
  }

  /** Python's `a < b` on naive date-times. */
  predicate Earlier(a: DateTime, b: DateTime) {
    Before(a.date, b.date) || (a.date == b.date && a.second < b.second)
  }

  /** `t + timedelta(days=1)`. */
  function AddDay(t: DateTime): (r: DateTime)
    requires ValidTime(t)
    ensures ValidTime(r) && Earlier(t, r)
  {
    DateTime(NextDay(t.date), t.second)
  }

  /** `t.hour`. */
  function Hour(t: DateTime): int {
    t.second / 3600
  }

  // ---- ISO 8601 calendar dates ----

  function Pad2(n: int): (s: string)
    requires 0 <= n < 100
    ensures |s| == 2 && AllDigits(s)
  {
    [DigitChar(n / 10), DigitChar(n % 10)]
  }

  function Pad4(n: int): (s: string)
    requires 0 <= n < 10000
    ensures |s| == 4 && AllDigits(s)
  {
    [DigitChar(n / 1000), DigitChar(n / 100 % 10), DigitChar(n / 10 % 10), DigitChar(n % 10)]
  }

  /** Python's `date.isoformat()`: `YYYY-MM-DD`. */
  function IsoFormat(d: Date): (s: string)
    requires Valid(d) && 1 <= d.year <= 9999
    ensures |s| == 10 && s[4] == '-' && s[7] == '-'
  {
    Pad4(d.year) + "-" + Pad2(d.month) + "-" + Pad2(d.day)
  }

  /** Python's `date.fromisoformat(s)` for the `YYYY-MM-DD` form; anything else,
      or a day that does not exist, raises ValueError. */
  function ParseIsoDate(s: string): (r: Result<Date>)
    ensures r.Ok? ==> Valid(r.value) && 1 <= r.value.year <= 9999
  {
    if |s| == 10 && s[4] == '-' && s[7] == '-'
      && AllDigits(s[..4]) && AllDigits(s[5..7]) && AllDigits(s[8..])
    then
      var d := Date(DigitsValue(s[..4]), DigitsValue(s[5..7]), DigitsValue(s[8..]));
      assert d.year < 10000 by { Digits4Bound(s[..4]); }
      if d.year >= 1 && Valid(d) then Ok(d) else Err(ValueError(s))
    else
      Err(ValueError(s))
  }

  lemma DigitRoundTrip(d: int, c: char)
    requires 0 <= d < 10 && IsDigit(c)
    ensures DigitValue(DigitChar(d)) == d
    ensures DigitChar(DigitValue(c)) == c
  {
  }

  lemma Digits2Value(s: string)
    requires |s| == 2 && AllDigits(s)
    ensures DigitsValue(s) == DigitValue(s[0]) * 10 + DigitValue(s[1])
  {
    assert s[..1][..0] == [];
    assert DigitsValue(s[..1]) == DigitValue(s[0]);
  }

  lemma Digits4Value(s: string)
    requires |s| == 4 && AllDigits(s)
    ensures DigitsValue(s) ==
      ((DigitValue(s[0]) * 10 + DigitValue(s[1])) * 10 + DigitValue(s[2])) * 10 + DigitValue(s[3])
  {
    Digits2Value(s[..2]);
    assert s[..3][..2] == s[..2];
    assert DigitsValue(s[..3]) == DigitsValue(s[..2]) * 10 + DigitValue(s[2]);
  }

  lemma Digits4Bound(s: string)
    requires |s| == 4 && AllDigits(s)
    ensures DigitsValue(s) < 10000
  {
    Digits4Value(s);
  }

  lemma Pad2Value(n: int)
    requires 0 <= n < 100
    ensures DigitsValue(Pad2(n)) == n
  {
    Digits2Value(Pad2(n));
    DigitRoundTrip(n / 10, '0');
    DigitRoundTrip(n % 10, '0');
  }

  lemma Pad4Value(n: int)
    requires 0 <= n < 10000
    ensures DigitsValue(Pad4(n)) == n
  {
    var s := Pad4(n);
    Digits4Value(s);
    var a, b, c, e := n / 1000, n / 100 % 10, n / 10 % 10, n % 10;
    DigitRoundTrip(a, '0');
    DigitRoundTrip(b, '0');
    DigitRoundTrip(c, '0');
    DigitRoundTrip(e, '0');
    DivTens(n);
    Decimal(n);
    Decimal(n / 10);
    Decimal(n / 100);
  }

  /** Dropping two or three digits is dropping one digit at a time. */
  lemma DivTens(n: nat)
    ensures n / 100 == n / 10 / 10 && n / 1000 == n / 100 / 10
  {
  }

  /** A number is its last digit after ten times the rest. */
  lemma Decimal(n: nat)
    ensures n == n / 10 * 10 + n % 10
  {
  }

  /** Appending a digit `d` to `q` and dropping it again gives back `q` and `d`. */
  lemma AppendDigit(q: nat, d: nat)
    requires d < 10
    ensures (q * 10 + d) / 10 == q && (q * 10 + d) % 10 == d
  {
  }

  lemma Pad2OfDigits(s: string)
    requires |s| == 2 && AllDigits(s)
    ensures DigitsValue(s) < 100 && Pad2(DigitsValue(s)) == s
  {
    Digits2Value(s);
    var a, b := DigitValue(s[0]), DigitValue(s[1]);
    DigitRoundTrip(0, s[0]);
    DigitRoundTrip(0, s[1]);
    assert (a * 10 + b) / 10 == a && (a * 10 + b) % 10 == b;
  }

  lemma Pad4OfDigits(s: string)
    requires |s| == 4 && AllDigits(s)
    ensures DigitsValue(s) < 10000 && Pad4(DigitsValue(s)) == s
  {
    Digits4Value(s);
    var a, b, c, e := DigitValue(s[0]), DigitValue(s[1]), DigitValue(s[2]), DigitValue(s[3]);
    DigitRoundTrip(0, s[0]);
    DigitRoundTrip(0, s[1]);
    DigitRoundTrip(0, s[2]);
    DigitRoundTrip(0, s[3]);
    Pad4Digits(a, b, c, e);
    assert s == [s[0], s[1], s[2], s[3]];
  }

  /** Four digits, read as a number and padded again, are those digits. */
  lemma Pad4Digits(a: nat, b: nat, c: nat, e: nat)
    requires a < 10 && b < 10 && c < 10 && e < 10
    ensures ((a * 10 + b) * 10 + c) * 10 + e < 10000
    ensures Pad4(((a * 10 + b) * 10 + c) * 10 + e) == [DigitChar(a), DigitChar(b), DigitChar(c), DigitChar(e)]
  {
    var n := ((a * 10 + b) * 10 + c) * 10 + e;
    AppendDigit(a, b);
    AppendDigit(a * 10 + b, c);
    AppendDigit((a * 10 + b) * 10 + c, e);
    DivTens(n);
  }

  /** Reading back an ISO date gives the date. */
  lemma {:induction false} IsoRoundTrip(d: Date)
    requires Valid(d) && 1 <= d.year <= 9999
    ensures ParseIsoDate(IsoFormat(d)) == Ok(d)
  {
    var s := IsoFormat(d);
    assert s[..4] == Pad4(d.year);
    assert s[5..7] == Pad2(d.month);
    assert s[8..] == Pad2(d.day);
    Pad4Value(d.year);
    Pad2Value(d.month);
    Pad2Value(d.day);
  }

  /** Every string `fromisoformat` accepts is the ISO form of the date it reads. */
  lemma {:induction false} IsoParsedFormat(s: string)
    requires ParseIsoDate(s).Ok?
    ensures IsoFormat(ParseIsoDate(s).value) == s
  {
    var d := ParseIsoDate(s).value;
    Pad4OfDigits(s[..4]);
    Pad2OfDigits(s[5..7]);
    Pad2OfDigits(s[8..]);
    assert s == s[..4] + "-" + s[5..7] + "-" + s[8..];
  }
}
