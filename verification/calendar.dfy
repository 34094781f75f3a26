/** Calendar values of .NET's `DateTime`: a proleptic Gregorian date in years 1..9999 and a
    time of day in 100-nanosecond ticks. `default(DateTime)` is `MinValue`, midnight of
    0001-01-01. Only the parts the core relies on are modelled: the date part, the
    chronological order, and the invariant "yyyy-MM-dd" text form. */
module Calendar {
  import opened Wrappers
  import opened Digits

  const TicksPerDay: int := 864_000_000_000

  datatype Instant = Instant(year: int, month: int, day: int, tick: int)

  predicate IsLeapYear(y: int) {
    y % 4 == 0 && (y % 100 != 0 || y % 400 == 0)
  }

  function DaysInMonth(y: int, m: int): int {
    if m == 2 then (if IsLeapYear(y) then 29 else 28)
    else if m == 4 || m == 6 || m == 9 || m == 11 then 30
    else 31
  }

  predicate IsValid(t: Instant) {
    && 1 <= t.year <= 9999
    && 1 <= t.month <= 12
    && 1 <= t.day <= DaysInMonth(t.year, t.month)
    && 0 <= t.tick < TicksPerDay
  }

  /** Every `DateTime` value the source can hold. */
  type DateTime = t: Instant | IsValid(t) witness Instant(1, 1, 1, 0)

  /** `default(DateTime)`, i.e. `DateTime.MinValue`. */
  const MinValue: DateTime := Instant(1, 1, 1, 0)

  /** The `.Date` property: the same day at midnight. */
  function DatePart(t: DateTime): DateTime {
    t.(tick := 0)
  }

  predicate IsDateOnly(t: DateTime) {
    t.tick == 0
  }

  /** Chronological order, `a <= b` on `DateTime`. */
  predicate Le(a: Instant, b: Instant) {
    if a.year != b.year then a.year < b.year
    else if a.month != b.month then a.month < b.month
    else if a.day != b.day then a.day < b.day
    else a.tick <= b.tick
  }

  /** `Le` is a total order. */
  lemma LeIsTotalOrder(a: Instant, b: Instant, c: Instant)
    ensures Le(a, a)
    ensures Le(a, b) || Le(b, a)
    ensures Le(a, b) && Le(b, a) ==> a == b
    ensures Le(a, b) && Le(b, c) ==> Le(a, c)
  {
  }

  /** `t.ToString("yyyy-MM-dd")`. */
  function FormatDate(t: DateTime): (s: string)
    ensures |s| == 10
  {
    Pad4(t.year) + "-" + Pad2(t.month) + "-" + Pad2(t.day)
  }

  /** A date in "yyyy-MM-dd" form, as a date-only `DateTime`; `None` when the text is not a
      calendar date in that form. */
  function ParseDate(s: string): (r: Option<DateTime>)
    ensures r.Some? ==> IsDateOnly(r.value)
  {
    if |s| == 10 && s[4] == '-' && s[7] == '-'
       && AllDigits(s[..4]) && AllDigits(s[5..7]) && AllDigits(s[8..])
    then
      var t := Instant(Value4(s[..4]), Value2(s[5..7]), Value2(s[8..]), 0);
      if IsValid(t) then Some(t) else None
    else None
  }

  /** Formatting then parsing gives back the date part. */
  lemma FormatThenParse(t: DateTime)
    ensures ParseDate(FormatDate(t)) == Some(DatePart(t))
  {
    var s := FormatDate(t);
    assert s[..4] == Pad4(t.year);
    assert s[5..7] == Pad2(t.month);
    assert s[8..] == Pad2(t.day);
    Pad4Value(t.year);
    Pad2Value(t.month);
    Pad2Value(t.day);
  }

  /** Parsing accepts only the canonical text of the date it returns. */
  lemma ParseThenFormat(s: string)
    requires ParseDate(s).Some?
    ensures FormatDate(ParseDate(s).value) == s
  {
    Value4Pad(s[..4]);
    Value2Pad(s[5..7]);
    Value2Pad(s[8..]);
    assert s == s[..4] + [s[4]] + s[5..7] + [s[7]] + s[8..];
  }
}
