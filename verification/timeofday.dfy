/** Times of day as the work-time endpoints exchange them: "HH:mm" text, parsed into a
    `TimeSpan` below one day. The model counts whole minutes since midnight. */
module TimeOfDay {
  import opened Wrappers
  import opened Digits

  const MinutesPerDay: int := 1440

  type Minutes = m: int | 0 <= m < MinutesPerDay

  /** "H:mm" or "HH:mm" with hours 0..23 and minutes 0..59. */
  function ParseTime(s: string): (r: Option<Minutes>)
  {
    if |s| == 5 && s[2] == ':' && AllDigits(s[..2]) && AllDigits(s[3..]) then
      var h, m := Value2(s[..2]), Value2(s[3..]);
      if h < 24 && m < 60 then Some(60 * h + m) else None
    else if |s| == 4 && s[1] == ':' && IsDigit(s[0]) && AllDigits(s[2..]) then
      var h, m := DigitValue(s[0]), Value2(s[2..]);
      if m < 60 then Some(60 * h + m) else None
    else None
  }

  /** The "HH:mm" text of a time of day. */
  function FormatTime(t: Minutes): (s: string)
    ensures |s| == 5
  {
    Pad2(t / 60) + ":" + Pad2(t % 60)
  }

  /** The text of midnight, which the placeholder work time stores as both endpoints. */
  const Midnight: string := "00:00"

  /** Formatting then parsing gives the time back. */
  lemma FormatThenParse(t: Minutes)
    ensures ParseTime(FormatTime(t)) == Some(t)
  {
    var s := FormatTime(t);
    assert s[..2] == Pad2(t / 60) && s[3..] == Pad2(t % 60);
    Pad2Value(t / 60);
    Pad2Value(t % 60);
  }

  /** A five-character time is accepted only in the canonical form of the time it denotes. */
  lemma ParseThenFormat(s: string)
    requires |s| == 5 && ParseTime(s).Some?
    ensures FormatTime(ParseTime(s).value) == s
  {
    var h, m := Value2(s[..2]), Value2(s[3..]);
    assert (60 * h + m) / 60 == h && (60 * h + m) % 60 == m;
    Value2Pad(s[..2]);
    Value2Pad(s[3..]);
    assert s == s[..2] + [s[2]] + s[3..];
  }

  lemma MidnightIsZero()
    ensures ParseTime(Midnight) == Some(0)
  {
    assert Midnight == FormatTime(0);
    FormatThenParse(0);
  }

  /** `(end - start).TotalHours`: signed, so an end before the start gives a negative span. */
  function HoursBetween(start: Minutes, end: Minutes): (h: real)
    ensures h * 60.0 == (end - start) as real
    ensures h < 0.0 <==> end < start
    ensures h == 0.0 <==> end == start
    ensures -24.0 < h < 24.0
  {
    (end - start) as real / 60.0
  }
}
