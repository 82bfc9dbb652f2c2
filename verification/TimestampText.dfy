/** Timestamps as text, and the same timestamps read back. */
module TimestampText {
  import opened Calendar

  // ---------------------------------------------------------------------------
  // Decimal numbers
  // ---------------------------------------------------------------------------

  function Digit(n: nat): (c: char)
    requires n < 10
  {
    '0' + n as char
  }

  /** `n` in decimal, padded with zeros to at least `width` digits. */
  function Padded(n: nat, width: nat): (s: string)
    ensures s != ""
  {
    if n < 10 && width <= 1 then [Digit(n)]
    else Padded(n / 10, if width == 0 then 0 else width - 1) + [Digit(n % 10)]
  }

  function Number(s: string): (n: nat)
  {
    if s == "" then 0
    else
      var last := s[|s| - 1];
      10 * Number(s[..|s| - 1]) + (if '0' <= last <= '9' then (last - '0') as int else 0)
  }

  lemma {:induction false} NumberOfPadded(n: nat, width: nat)
    ensures Number(Padded(n, width)) == n
    ensures forall c <- Padded(n, width) :: '0' <= c <= '9'
  {
    var s := Padded(n, width);
    if n < 10 && width <= 1 {
      assert s[..0] == "";
    } else {
      var w := if width == 0 then 0 else width - 1;
      NumberOfPadded(n / 10, w);
      assert s[..|s| - 1] == Padded(n / 10, w);
    }
  }

  function Pow10(width: nat): (p: nat) {
    if width == 0 then 1 else 10 * Pow10(width - 1)
  }

  lemma {:induction false} PaddedWidth(n: nat, width: nat)
    requires width > 0 && n < Pow10(width)
    ensures |Padded(n, width)| == width
  {
    if width > 1 {
      PaddedWidth(n / 10, width - 1);
    }
  }

  // ---------------------------------------------------------------------------
  // Formatting
  // ---------------------------------------------------------------------------

  function FormatYear(year: int): (s: string) {
    if 0 <= year <= 9999 then Padded(year, 4)
    else if -9999 <= year <= -1 then "-" + Padded(-year, 4)
    else if year < 0 then "-" + Padded(-year, 1)
    else Padded(year, 1)
  }

  /** `-MM-DD hh:mm:ss`, the part of a timestamp behind the year. */
  function FormatWithinYear(date: Date, secondsInDay: int): (s: string)
    requires date.month >= 0 && date.day >= 0 && secondsInDay >= 0
  {
    "-" + Padded(date.month, 2) + "-" + Padded(date.day, 2)
    + " " + Padded(secondsInDay / 3600, 2)
    + ":" + Padded(secondsInDay / 60 % 60, 2)
    + ":" + Padded(secondsInDay % 60, 2)
  }

  function FormatSeconds(timestamp: int): (s: string) {
    DaysAreConsecutive(timestamp / 86400);
    var date := CivilFromDays(timestamp / 86400);
    FormatYear(date.year) + FormatWithinYear(date, timestamp % 86400)
  }

  const NANO_DIGITS: nat := 9

  function FormatNanoseconds(timestamp: int): (s: string) {
    FormatSeconds(timestamp / 1_000_000_000) + "." + Padded(timestamp % 1_000_000_000, NANO_DIGITS)
  }

  // ---------------------------------------------------------------------------
  // Reading back
  // ---------------------------------------------------------------------------

  function ParseYear(s: string): (year: int) {
    if s != "" && s[0] == '-' then 0 - Number(s[1..]) else Number(s)
  }

  /** The month, the day and the second of the day in `-MM-DD hh:mm:ss`. */
  function ParseWithinYear(s: string): (r: (nat, nat, nat))
    requires |s| == 15
  {
    (Number(s[1..3]), Number(s[4..6]), 3600 * Number(s[7..9]) + 60 * Number(s[10..12]) + Number(s[13..15]))
  }

  function ParseSeconds(s: string): (timestamp: int)
    requires |s| >= 15
  {
    var split := |s| - 15;
    var (month, day, second) := ParseWithinYear(s[split..]);
    86400 * DaysFromCivil(Date(ParseYear(s[..split]), month, day)) + second
  }

  function ParseNanoseconds(s: string): (timestamp: int)
    requires |s| >= 25
  {
    1_000_000_000 * ParseSeconds(s[..|s| - 10]) + Number(s[|s| - 9..])
  }

  lemma YearBack(year: int)
    ensures ParseYear(FormatYear(year)) == year
  {
    var magnitude := if year < 0 then -year else year;
    var width := if -9999 <= year <= 9999 then 4 else 1;
    NumberOfPadded(magnitude, width);
    var digits := Padded(magnitude, width);
    assert digits[0] in digits;
    assert ("-" + digits)[1..] == digits;
  }

  lemma TwoDigits(n: nat)
    requires n < 100
    ensures |Padded(n, 2)| == 2 && Number(Padded(n, 2)) == n
  {
    assert Pow10(2) == 100;
    PaddedWidth(n, 2);
    NumberOfPadded(n, 2);
  }

  /** Five two-character fields behind one-character separators. */
  lemma Fields(a: string, b: string, c: string, d: string, e: string)
    requires |a| == |b| == |c| == |d| == |e| == 2
    ensures var s := "-" + a + "-" + b + " " + c + ":" + d + ":" + e;
            |s| == 15 && s[1..3] == a && s[4..6] == b && s[7..9] == c && s[10..12] == d && s[13..15] == e
  {
  }

  /** A second of the day has an hour, a minute and a second of two digits. */
  lemma ClockOf(secondsInDay: int)
    requires 0 <= secondsInDay < 86400
    ensures var hour, minute, second := secondsInDay / 3600, secondsInDay / 60 % 60, secondsInDay % 60;
            0 <= hour < 100 && 0 <= minute < 100 && 0 <= second < 100
            && 3600 * hour + 60 * minute + second == secondsInDay
  {
  }

  lemma WithinYearBack(date: Date, secondsInDay: int)
    requires IsDate(date) && 0 <= secondsInDay < 86400
    ensures |FormatWithinYear(date, secondsInDay)| == 15
    ensures ParseWithinYear(FormatWithinYear(date, secondsInDay)) == (date.month, date.day, secondsInDay)
  {
    var hour, minute, second := secondsInDay / 3600, secondsInDay / 60 % 60, secondsInDay % 60;
    ClockOf(secondsInDay);
    TwoDigits(date.month);
    TwoDigits(date.day);
    TwoDigits(hour);
    TwoDigits(minute);
    TwoDigits(second);
    Fields(Padded(date.month, 2), Padded(date.day, 2), Padded(hour, 2), Padded(minute, 2), Padded(second, 2));
  }

  /** A formatted timestamp reads back as itself, for every integer. */
  lemma SecondsBack(timestamp: int)
    ensures |FormatSeconds(timestamp)| >= 15 && ParseSeconds(FormatSeconds(timestamp)) == timestamp
  {
    var days, second := timestamp / 86400, timestamp % 86400;
    DaysAreConsecutive(days);
    var date := CivilFromDays(days);
    var year, within := FormatYear(date.year), FormatWithinYear(date, second);
    WithinYearBack(date, second);
    YearBack(date.year);
    DayNumberOfDate(days);
    var s := year + within;
    assert s[..|s| - 15] == year && s[|s| - 15..] == within;
  }

  lemma NineDigits(n: nat)
    requires n < 1_000_000_000
    ensures |Padded(n, NANO_DIGITS)| == 9 && Number(Padded(n, NANO_DIGITS)) == n
  {
    assert Pow10(NANO_DIGITS) == 1_000_000_000 by {
      assert Pow10(4) == 10_000;
      assert Pow10(8) == 100_000_000;
    }
    PaddedWidth(n, NANO_DIGITS);
    NumberOfPadded(n, NANO_DIGITS);
  }

  lemma NanosecondsBack(timestamp: int)
    ensures |FormatNanoseconds(timestamp)| >= 25 && ParseNanoseconds(FormatNanoseconds(timestamp)) == timestamp
  {
    var seconds, nanos := timestamp / 1_000_000_000, timestamp % 1_000_000_000;
    SecondsBack(seconds);
    NineDigits(nanos);
    Dotted(FormatSeconds(seconds), Padded(nanos, NANO_DIGITS));
  }

  lemma Dotted(text: string, fraction: string)
    requires |text| >= 15 && |fraction| == 9
    ensures |text + "." + fraction| >= 25
    ensures ParseNanoseconds(text + "." + fraction) == 1_000_000_000 * ParseSeconds(text) + Number(fraction)
  {
    var s := text + "." + fraction;
    assert s[..|s| - 10] == text && s[|s| - 9..] == fraction;
  }

  // ---------------------------------------------------------------------------
  // The layout
  // ---------------------------------------------------------------------------

  lemma PadStep(q: nat, r: nat, width: nat)
    requires r < 10 && width > 1
    ensures Padded(10 * q + r, width) == Padded(q, width - 1) + [Digit(r)]
  {
  }

  lemma Two(a: nat, b: nat)
    requires a < 10 && b < 10
    ensures Padded(10 * a + b, 2) == [Digit(a), Digit(b)]
  {
    PadStep(a, b, 2);
  }

  /** Years are written with their thousands first. */
  lemma YearText()
    ensures FormatYear(1969) == "1969" && FormatYear(1970) == "1970"
  {
    Two(1, 9);
    PadStep(19, 6, 3);
    PadStep(196, 9, 4);
    PadStep(19, 7, 3);
    PadStep(197, 0, 4);
  }

  /** Behind the year come the month, the day, the hour, the minute and the second, each of two digits. */
  lemma WithinYearText(date: Date, hour: nat, minute: nat, second: nat)
    requires IsDate(date) && hour < 24 && minute < 60 && second < 60
    ensures FormatWithinYear(date, 3600 * hour + 60 * minute + second)
         == "-" + Padded(date.month, 2) + "-" + Padded(date.day, 2)
            + " " + Padded(hour, 2) + ":" + Padded(minute, 2) + ":" + Padded(second, 2)
  {
    ClockIs(hour, minute, second);
  }

  lemma ClockIs(hour: nat, minute: nat, second: nat)
    requires minute < 60 && second < 60
    ensures var s := 3600 * hour + 60 * minute + second;
            s / 3600 == hour && s / 60 % 60 == minute && s % 60 == second
  {
  }

  /** The last second of a year. */
  lemma LastOfDecember(date: Date, second: nat)
    requires IsDate(date) && date.month == 12 && date.day == 31 && second == 86399
    ensures FormatWithinYear(date, second) == "-12-31 23:59:59"
  {
    WithinYearText(date, 23, 59, 59);
    Two(1, 2);
    Two(3, 1);
    Two(2, 3);
    Two(5, 9);
  }

  lemma DayAndSecond(day: int, second: nat)
    requires second < 86400
    ensures (86400 * day + second) / 86400 == day && (86400 * day + second) % 86400 == second
  {
  }

  /** The year of the day comes first, then the rest of its date and the time. */
  lemma SecondsText(day: int, second: nat)
    requires second < 86400
    ensures IsDate(CivilFromDays(day))
    ensures FormatSeconds(86400 * day + second)
         == FormatYear(CivilFromDays(day).year) + FormatWithinYear(CivilFromDays(day), second)
  {
    DayAndSecond(day, second);
    DaysAreConsecutive(day);
  }
}
