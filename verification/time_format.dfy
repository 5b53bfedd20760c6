/** `str(datetime.timedelta(seconds=s))` for a whole number of seconds, which
    the view uses to write durations, and an exact reader for that text.

    Python normalises the duration to `days * 86400 + seconds` with
    `0 <= seconds < 86400` (floor division), writes the seconds part as
    `H:MM:SS` (hours unpadded, minutes and seconds two digits) and, when
    `days` is not zero, puts `"<days> day, "` or `"<days> days, "` in front
    (singular exactly when `days` is 1 or -1). */
module TimeFormat {
  import opened Wrappers
  import opened Decimal

  const SecondsPerMinute := 60
  const SecondsPerHour := 3600
  const SecondsPerDay := 86400

  /** `"%02d" % n` for `0 <= n < 100`. */
  function TwoDigits(n: int): (s: string)
    requires 0 <= n < 100
    ensures |s| == 2 && AllDigits(s)
    ensures DigitValue(s[0]) * 10 + DigitValue(s[1]) == n
  {
    [Digit(n / 10), Digit(n % 10)]
  }

  /** The part after the hours: `":MM:SS"`. */
  function MinutesSeconds(m: int, s: int): string
    requires 0 <= m < 60 && 0 <= s < 60
  {
    [':'] + TwoDigits(m) + [':'] + TwoDigits(s)
  }

  /** `H:MM:SS` of a time of day given in seconds. */
  function Clock(c: int): string
    requires 0 <= c < SecondsPerDay
  {
    NatToString(c / SecondsPerHour) + MinutesSeconds(c / SecondsPerMinute % 60, c % SecondsPerMinute)
  }

  /** The `"<days> day(s), "` prefix. */
  function DayWord(days: int): string {
    if days == 1 || days == -1 then " day, " else " days, "
  }

  function DaysPrefix(days: int): string {
    IntToString(days) + DayWord(days)
  }

  /** `secondsFormatTime`: the text Python prints for `timedelta(seconds=seconds)`. */
  function SecondsFormatTime(seconds: int): (r: string)
    ensures 0 <= seconds < SecondsPerDay ==> 7 <= |r| <= 8 && r[|r| - 3] == ':' && r[|r| - 6] == ':'
  {
    var days := seconds / SecondsPerDay;
    (if days != 0 then DaysPrefix(days) else "") + Clock(seconds % SecondsPerDay)
  }

  /** Reads `":MM:SS"` with both fields below 60. */
  function ReadMinutesSeconds(t: string): Option<(int, int)> {
    if |t| == 6 && t[0] == ':' && IsDigit(t[1]) && IsDigit(t[2])
       && t[3] == ':' && IsDigit(t[4]) && IsDigit(t[5])
    then
      var m := DigitValue(t[1]) * 10 + DigitValue(t[2]);
      var s := DigitValue(t[4]) * 10 + DigitValue(t[5]);
      if m < 60 && s < 60 then Some((m, s)) else None
    else None
  }

  /** Reads `H:MM:SS` with `H < 24`. */
  function ReadClock(t: string): Option<int> {
    match ReadNat(t)
    case None => None
    case Some((h, rest)) =>
      match ReadMinutesSeconds(rest)
      case None => None
      case Some((m, s)) => if h < 24 then Some(h * SecondsPerHour + m * SecondsPerMinute + s) else None
  }

  /** Reads a non-zero `"<days> day(s), "` prefix with the right plural, and
      returns the day count and the text after it. */
  function ReadDays(t: string): Option<(int, string)> {
    match ReadInt(t)
    case None => None
    case Some((days, rest)) =>
      var word := DayWord(days);
      if days != 0 && |word| <= |rest| && rest[..|word|] == word then Some((days, rest[|word|..])) else None
  }

  /** Reads text in the form `SecondsFormatTime` writes. */
  function ReadTime(t: string): Option<int> {
    match ReadDays(t)
    case Some((days, rest)) =>
      (match ReadClock(rest)
       case Some(c) => Some(days * SecondsPerDay + c)
       case None => None)
    case None => ReadClock(t)
  }

  lemma ClockFields(c: int)
    requires 0 <= c < SecondsPerDay
    ensures c / SecondsPerHour < 24
    ensures c == c / SecondsPerHour * SecondsPerHour + (c / SecondsPerMinute % 60) * SecondsPerMinute + c % SecondsPerMinute
  {
  }

  lemma ReadMinutesSecondsOf(m: int, s: int)
    requires 0 <= m < 60 && 0 <= s < 60
    ensures ReadMinutesSeconds(MinutesSeconds(m, s)) == Some((m, s))
  {
  }

  lemma ReadMinutesSecondsIs(t: string)
    requires ReadMinutesSeconds(t).Some?
    ensures var (m, s) := ReadMinutesSeconds(t).value;
      0 <= m < 60 && 0 <= s < 60 && MinutesSeconds(m, s) == t
  {
    var (m, s) := ReadMinutesSeconds(t).value;
    assert MinutesSeconds(m, s) == t;
  }

  lemma ReadClockOfClock(c: int)
    requires 0 <= c < SecondsPerDay
    ensures ReadClock(Clock(c)) == Some(c)
  {
    var m := c / SecondsPerMinute % 60;
    var s := c % SecondsPerMinute;
    ReadNatOfNatToString(c / SecondsPerHour, MinutesSeconds(m, s));
    ReadMinutesSecondsOf(m, s);
    ClockFields(c);
  }

  lemma ClockArithmetic(h: int, m: int, s: int)
    requires 0 <= h < 24 && 0 <= m < 60 && 0 <= s < 60
    ensures var c := h * SecondsPerHour + m * SecondsPerMinute + s;
      0 <= c < SecondsPerDay && c / SecondsPerHour == h && c / SecondsPerMinute % 60 == m && c % SecondsPerMinute == s
  {
  }

  lemma ClockOfFields(h: int, m: int, s: int)
    requires 0 <= h < 24 && 0 <= m < 60 && 0 <= s < 60
    ensures var c := h * SecondsPerHour + m * SecondsPerMinute + s;
      0 <= c < SecondsPerDay && Clock(c) == NatToString(h) + MinutesSeconds(m, s)
  {
    ClockArithmetic(h, m, s);
  }

  lemma ReadClockIsClock(t: string)
    requires ReadClock(t).Some?
    ensures 0 <= ReadClock(t).value < SecondsPerDay
    ensures Clock(ReadClock(t).value) == t
  {
    ReadNatIsNatToString(t);
    var (h, rest) := ReadNat(t).value;
    ReadMinutesSecondsIs(rest);
    var (m, s) := ReadMinutesSeconds(rest).value;
    ClockOfFields(h, m, s);
  }

  /** A clock never starts like a day prefix. */
  lemma ReadDaysOfClock(c: int)
    requires 0 <= c < SecondsPerDay
    ensures ReadDays(Clock(c)).None?
  {
    var h := c / SecondsPerHour;
    var tail := MinutesSeconds(c / SecondsPerMinute % 60, c % SecondsPerMinute);
    ReadNatOfNatToString(h, tail);
    assert Clock(c)[0] != '-';
  }

  lemma ReadDaysOfDaysPrefix(days: int, rest: string)
    requires days != 0
    ensures ReadDays(DaysPrefix(days) + rest) == Some((days, rest))
  {
    var word := DayWord(days);
    assert DaysPrefix(days) + rest == IntToString(days) + (word + rest);
    ReadIntOfIntToString(days, word + rest);
    assert (word + rest)[..|word|] == word;
    assert (word + rest)[|word|..] == rest;
  }

  lemma ReadDaysIsDaysPrefix(t: string)
    requires ReadDays(t).Some?
    ensures ReadDays(t).value.0 != 0
    ensures t == DaysPrefix(ReadDays(t).value.0) + ReadDays(t).value.1
  {
    hide ReadInt, IntToString, NatToString;
    var (days, rest) := ReadInt(t).value;
    ReadIntIsIntToString(t);
    var word := DayWord(days);
    var after := rest[|word|..];
    assert rest == word + after;
    assert t == IntToString(days) + word + after;
  }

  /** The formatted text of `days * 86400 + c`, split into its two parts. */
  lemma FormatOfParts(days: int, c: int)
    requires 0 <= c < SecondsPerDay
    ensures SecondsFormatTime(days * SecondsPerDay + c) == (if days != 0 then DaysPrefix(days) else "") + Clock(c)
  {
    var seconds := days * SecondsPerDay + c;
    assert seconds / SecondsPerDay == days && seconds % SecondsPerDay == c;
  }

  lemma ReadTimeWithDays(t: string, days: int, rest: string, c: int)
    requires ReadDays(t) == Some((days, rest)) && ReadClock(rest) == Some(c)
    ensures ReadTime(t) == Some(days * SecondsPerDay + c)
  {
  }

  lemma ReadTimeWithoutDays(t: string)
    requires ReadDays(t).None?
    ensures ReadTime(t) == ReadClock(t)
  {
  }

  /** Reading the formatted text of any number of seconds gives it back. */
  lemma ReadTimeOfFormat(seconds: int)
    ensures ReadTime(SecondsFormatTime(seconds)) == Some(seconds)
  {
    hide SecondsFormatTime, ReadTime, ReadDays, ReadClock, Clock, DaysPrefix;
    var days := seconds / SecondsPerDay;
    var c := seconds % SecondsPerDay;
    assert seconds == days * SecondsPerDay + c;
    ReadTimeOfParts(days, c);
  }

  lemma ReadTimeOfParts(days: int, c: int)
    requires 0 <= c < SecondsPerDay
    ensures ReadTime(SecondsFormatTime(days * SecondsPerDay + c)) == Some(days * SecondsPerDay + c)
  {
    hide SecondsFormatTime, ReadTime, ReadDays, ReadClock, Clock, DaysPrefix;
    FormatOfParts(days, c);
    if days != 0 {
      ReadTimeOfDaysAndClock(days, c);
    } else {
      assert "" + Clock(c) == Clock(c);
      ReadTimeOfClock(c);
    }
  }

  lemma ReadTimeOfDaysAndClock(days: int, c: int)
    requires days != 0 && 0 <= c < SecondsPerDay
    ensures ReadTime(DaysPrefix(days) + Clock(c)) == Some(days * SecondsPerDay + c)
  {
    ReadClockOfClock(c);
    ReadDaysOfDaysPrefix(days, Clock(c));
    ReadTimeWithDays(DaysPrefix(days) + Clock(c), days, Clock(c), c);
  }

  lemma ReadTimeOfClock(c: int)
    requires 0 <= c < SecondsPerDay
    ensures ReadTime(Clock(c)) == Some(c)
  {
    ReadClockOfClock(c);
    ReadDaysOfClock(c);
    ReadTimeWithoutDays(Clock(c));
  }

  /** Whatever `ReadTime` accepts is exactly the formatted text of its value,
      so the formatter is a bijection onto the accepted texts. */
  lemma FormatOfReadTime(t: string)
    requires ReadTime(t).Some?
    ensures SecondsFormatTime(ReadTime(t).value) == t
  {
    if ReadDays(t).Some? {
      FormatOfReadTimeWithDays(t);
    } else {
      FormatOfReadTimeWithinDay(t);
    }
  }

  lemma FormatOfReadTimeWithDays(t: string)
    requires ReadDays(t).Some? && ReadClock(ReadDays(t).value.1).Some?
    ensures ReadTime(t).Some? && SecondsFormatTime(ReadTime(t).value) == t
  {
    var x := ReadBackWithDays(t);
    FormatOfReadValue(t, x);
  }

  lemma ReadBackWithDays(t: string) returns (x: int)
    requires ReadDays(t).Some? && ReadClock(ReadDays(t).value.1).Some?
    ensures ReadTime(t) == Some(x) && SecondsFormatTime(x) == t
  {
    var days := ReadDays(t).value.0;
    var rest := ReadDays(t).value.1;
    var c := ReadClock(rest).value;
    x := ReadBackOfParts(t, days, rest, c);
  }

  lemma ReadBackOfParts(t: string, days: int, rest: string, c: int) returns (x: int)
    requires ReadDays(t) == Some((days, rest)) && ReadClock(rest) == Some(c)
    ensures ReadTime(t) == Some(x) && SecondsFormatTime(x) == t
  {
    hide SecondsFormatTime, ReadTime, ReadDays, ReadClock, Clock, DaysPrefix;
    ReadTimeWithDays(t, days, rest, c);
    FormatOfDaysAndClock(t, days, rest, c);
    x := days * SecondsPerDay + c;
  }

  lemma FormatOfDaysAndClock(t: string, days: int, rest: string, c: int)
    requires ReadDays(t) == Some((days, rest)) && ReadClock(rest) == Some(c)
    ensures SecondsFormatTime(days * SecondsPerDay + c) == t
  {
    ReadDaysIsDaysPrefix(t);
    ReadClockIsClock(rest);
    FormatOfParts(days, c);
  }

  lemma FormatOfReadValue(t: string, x: int)
    requires ReadTime(t) == Some(x) && SecondsFormatTime(x) == t
    ensures ReadTime(t).Some? && SecondsFormatTime(ReadTime(t).value) == t
  {
  }

  lemma FormatOfReadTimeWithinDay(t: string)
    requires ReadDays(t).None? && ReadClock(t).Some?
    ensures ReadTime(t).Some? && SecondsFormatTime(ReadTime(t).value) == t
  {
    var c := ReadClock(t).value;
    ReadTimeWithoutDays(t);
    FormatOfClock(t, c);
    FormatOfReadValue(t, c);
  }

  lemma FormatOfClock(t: string, c: int)
    requires ReadClock(t) == Some(c)
    ensures SecondsFormatTime(c) == t
  {
    hide SecondsFormatTime, ReadTime, ReadDays, ReadClock, Clock, DaysPrefix;
    ReadClockIsClock(t);
    FormatOfParts(0, c);
    assert "" + Clock(c) == Clock(c);
  }

  /** Distinct durations are written differently. */
  lemma FormatInjective(a: int, b: int)
    requires SecondsFormatTime(a) == SecondsFormatTime(b)
    ensures a == b
  {
    ReadTimeOfFormat(a);
    ReadTimeOfFormat(b);
  }
}
