/** Dates of the proleptic Gregorian calendar from day numbers, for every integer day. */
module Calendar {

  datatype Date = Date(year: int, month: int, day: int)

  predicate IsLeap(year: int) {
    year % 4 == 0 && (year % 100 != 0 || year % 400 == 0)
  }

  function DaysInMonth(year: int, month: int): (days: int)
    requires 1 <= month <= 12
  {
    if month == 2 then if IsLeap(year) then 29 else 28
    else if month == 4 || month == 6 || month == 9 || month == 11 then 30
    else 31
  }

  predicate IsDate(d: Date) {
    1 <= d.month <= 12 && 1 <= d.day <= DaysInMonth(d.year, d.month)
  }

  /** The day after `d`. */
  function Successor(d: Date): (next: Date)
    requires IsDate(d)
  {
    if d.day < DaysInMonth(d.year, d.month) then d.(day := d.day + 1)
    else if d.month < 12 then Date(d.year, d.month + 1, 1)
    else Date(d.year + 1, 1, 1)
  }

  // ---------------------------------------------------------------------------
  // The algorithm
  // ---------------------------------------------------------------------------

  function YearOfEra(dayOfEra: int): (year: int) {
    (dayOfEra - dayOfEra / 1460 + dayOfEra / 36524 - dayOfEra / 146096) / 365
  }

  /** The date of a day counted from the 1 March of `year`. */
  function DateInYear(year: int, dayOfYear: int): (date: Date) {
    var monthPrime := (5 * dayOfYear + 2) / 153;
    var day := dayOfYear - (153 * monthPrime + 2) / 5 + 1;
    var month := if monthPrime < 10 then monthPrime + 3 else monthPrime - 9;
    Date(if month <= 2 then year + 1 else year, month, day)
  }

  /** The date of a day counted from the beginning of an era. */
  function DateInEra(era: int, dayOfEra: int): (date: Date) {
    var yearOfEra := YearOfEra(dayOfEra);
    var dayOfYear := dayOfEra - (365 * yearOfEra + yearOfEra / 4 - yearOfEra / 100);
    DateInYear(yearOfEra + era * 400, dayOfYear)
  }

  /** Howard Hinnant's algorithm: eras of 400 years that begin on 1 March. */
  function CivilFromDays(daysSinceEpoch: int): (date: Date) {
    var shifted := daysSinceEpoch + 719468;
    DateInEra(shifted / 146097, shifted % 146097)
  }

  // ---------------------------------------------------------------------------
  // Why it is right
  // ---------------------------------------------------------------------------

  lemma DivIs(n: int, d: int, q: int)
    requires d > 0 && q * d <= n < q * d + d
    ensures n / d == q
  {
    assert n == n / d * d + n % d;
    if n / d < q {
      MulStrict(n / d, q, d);
    } else if q < n / d {
      MulStrict(q, n / d, d);
    }
  }

  lemma {:induction false} MulStrict(a: int, b: int, d: int)
    requires d > 0 && a < b
    ensures a * d + d <= b * d
    decreases b - a
  {
    if a + 1 < b {
      MulStrict(a + 1, b, d);
    }
  }

  /** A day inside an era: century, four-year cycle, year of the cycle, day of the March year. */
  datatype Place = Place(century: int, cycle: int, year: int, day: int) {
    predicate Valid() {
      && 0 <= century < 4 && 0 <= cycle < 25 && 0 <= year < 4 && 0 <= day <= 365
      && (day == 365 ==> year == 3 && (cycle < 24 || century == 3))
    }

    function YearOfEra(): int {
      100 * century + 4 * cycle + year
    }

    function DayOfEra(): int {
      36524 * century + 1461 * cycle + 365 * year + day
    }
  }

  function PlaceOf(dayOfEra: int): (p: Place)
    requires 0 <= dayOfEra < 146097
    ensures p.Valid() && p.DayOfEra() == dayOfEra
  {
    var century := if dayOfEra / 36524 < 3 then dayOfEra / 36524 else 3;
    var inCentury := dayOfEra - 36524 * century;
    var cycle := if inCentury / 1461 < 24 then inCentury / 1461 else 24;
    var inCycle := inCentury - 1461 * cycle;
    var year := if inCycle / 365 < 3 then inCycle / 365 else 3;
    Place(century, cycle, year, inCycle - 365 * year)
  }

  /** The three corrections of the year formula. */
  lemma Corrections(p: Place)
    requires p.Valid()
    ensures var n, leapDay := p.DayOfEra(), 24 * p.century + p.cycle + 365 * p.year + p.day >= 1460;
            && n / 1460 == 25 * p.century + p.cycle + (if leapDay then 1 else 0)
            && n / 36524 - n / 146096 == p.century
  {
    var n := p.DayOfEra();
    var carry := if 24 * p.century + p.cycle + 365 * p.year + p.day >= 1460 then 1 else 0;
    DivIs(n, 1460, 25 * p.century + p.cycle + carry);
    LastDay(p);
  }

  lemma LastDay(p: Place)
    requires p.Valid()
    ensures p.DayOfEra() / 36524 - p.DayOfEra() / 146096 == p.century
  {
    var last := if p == Place(3, 24, 3, 365) then 1 else 0;
    DivIs(p.DayOfEra(), 36524, p.century + last);
    DivIs(p.DayOfEra(), 146096, last);
  }

  /** The year formula finds the year of the place. */
  lemma YearOfEraIsRight(p: Place)
    requires p.Valid()
    ensures YearOfEra(p.DayOfEra()) == p.YearOfEra()
  {
    Corrections(p);
    var n := p.DayOfEra();
    DivIs(n - n / 1460 + n / 36524 - n / 146096, 365, p.YearOfEra());
  }

  lemma DayOfYearIsRight(p: Place)
    requires p.Valid()
    ensures p.DayOfEra() - (365 * p.YearOfEra() + p.YearOfEra() / 4 - p.YearOfEra() / 100) == p.day
  {
    DivIs(p.YearOfEra(), 4, 25 * p.century + p.cycle);
    DivIs(p.YearOfEra(), 100, p.century);
  }

  /** The day number of a place in an era. */
  function DayNumber(era: int, p: Place): (d: int) {
    146097 * era + p.DayOfEra() - 719468
  }

  lemma DateOfPlace(era: int, p: Place)
    requires p.Valid()
    ensures DateInEra(era, p.DayOfEra()) == DateInYear(400 * era + p.YearOfEra(), p.day)
  {
    YearOfEraIsRight(p);
    DayOfYearIsRight(p);
  }

  lemma CivilOfPlace(d: int, era: int, p: Place)
    requires p.Valid() && d == DayNumber(era, p)
    ensures CivilFromDays(d) == DateInYear(400 * era + p.YearOfEra(), p.day)
  {
    EraOfDay(d, era, p.DayOfEra());
    DateOfPlace(era, p);
  }

  lemma EraOfDay(d: int, era: int, dayOfEra: int)
    requires 0 <= dayOfEra < 146097 && d == 146097 * era + dayOfEra - 719468
    ensures CivilFromDays(d) == DateInEra(era, dayOfEra)
  {
    DivIs(d + 719468, 146097, era);
  }

  function PlaceOfDay(d: int): (ep: (int, Place))
    ensures ep.1.Valid() && DayNumber(ep.0, ep.1) == d
  {
    ((d + 719468) / 146097, PlaceOf((d + 719468) % 146097))
  }

  /** Whether the March year of the place ends with a 29 February. */
  lemma LeapOfPlace(era: int, p: Place)
    requires p.Valid()
    ensures IsLeap(400 * era + p.YearOfEra() + 1) <==> p.year == 3 && (p.cycle < 24 || p.century == 3)
  {
    var y := 400 * era + p.YearOfEra() + 1;
    assert y == 4 * (100 * era + 25 * p.century + p.cycle) + (p.year + 1);
    assert y == 100 * (4 * era + p.century) + (4 * p.cycle + p.year + 1);
    assert y == 400 * era + (100 * p.century + 4 * p.cycle + p.year + 1);
    Remainder(y, 4, 100 * era + 25 * p.century + p.cycle, p.year + 1);
    Remainder(y, 100, 4 * era + p.century, 4 * p.cycle + p.year + 1);
    Remainder(y, 400, era, 100 * p.century + 4 * p.cycle + p.year + 1);
  }

  lemma Remainder(n: int, d: int, q: int, r: int)
    requires d > 0 && n == q * d + r && 0 < r <= d
    ensures n % d == 0 <==> r == d
  {
    DivIs(n, d, if r == d then q + 1 else q);
  }

  /** Inside a March year the date advances day by day. */
  lemma NextInYear(year: int, day: int)
    requires 0 <= day < 366 && (day == 365 ==> IsLeap(year + 1))
    ensures IsDate(DateInYear(year, day))
    ensures day < 364 || (day == 364 && IsLeap(year + 1)) ==>
              DateInYear(year, day + 1) == Successor(DateInYear(year, day))
    ensures (day == 364 && !IsLeap(year + 1)) || day == 365 ==>
              DateInYear(year + 1, 0) == Successor(DateInYear(year, day))
  {
  }

  /** Every day has a date, and the date of the next day is the next date. */
  lemma DaysAreConsecutive(d: int)
    ensures IsDate(CivilFromDays(d)) && CivilFromDays(d + 1) == Successor(CivilFromDays(d))
  {
    var (era, p) := PlaceOfDay(d);
    var (era', p') := NextPlace(era, p);
    NextPlaceIsNextDay(era, p);
    CivilOfPlace(d, era, p);
    CivilOfPlace(d + 1, era', p');
    ConsecutivePlaces(era, p);
  }

  lemma ConsecutivePlaces(era: int, p: Place)
    requires p.Valid()
    ensures var (era', p') := NextPlace(era, p);
            var date := DateInYear(400 * era + p.YearOfEra(), p.day);
            IsDate(date) && DateInYear(400 * era' + p'.YearOfEra(), p'.day) == Successor(date)
  {
    LeapOfPlace(era, p);
    NextPlaceInYear(era, p);
    NextInYear(400 * era + p.YearOfEra(), p.day);
  }

  /** The place of the next day: in the same March year, or at the beginning of the next one. */
  function NextPlace(era: int, p: Place): (ep: (int, Place))
    requires p.Valid()
    ensures ep.1.Valid()
  {
    if p.day < 364 || (p.day == 364 && p.year == 3 && (p.cycle < 24 || p.century == 3)) then
      (era, p.(day := p.day + 1))
    else if p.year < 3 then (era, p.(year := p.year + 1, day := 0))
    else if p.cycle < 24 then (era, p.(cycle := p.cycle + 1, year := 0, day := 0))
    else if p.century < 3 then (era, Place(p.century + 1, 0, 0, 0))
    else (era + 1, Place(0, 0, 0, 0))
  }

  lemma NextPlaceIsNextDay(era: int, p: Place)
    requires p.Valid()
    ensures var (era', p') := NextPlace(era, p); DayNumber(era', p') == DayNumber(era, p) + 1
  {
  }

  lemma NextPlaceInYear(era: int, p: Place)
    requires p.Valid()
    ensures var (era', p') := NextPlace(era, p);
            var year, year' := 400 * era + p.YearOfEra(), 400 * era' + p'.YearOfEra();
            if p.day < 364 || (p.day == 364 && p.year == 3 && (p.cycle < 24 || p.century == 3))
            then year' == year && p'.day == p.day + 1 else year' == year + 1 && p'.day == 0
  {
  }

  lemma Epoch()
    ensures CivilFromDays(0) == Date(1970, 1, 1)
  {
  }

  // ---------------------------------------------------------------------------
  // The inverse
  // ---------------------------------------------------------------------------

  /** The day number of a day counted from the 1 March of `year`. */
  function DaysOfYear(year: int, dayOfYear: int): (d: int) {
    var yearOfEra := year % 400;
    146097 * (year / 400) + (365 * yearOfEra + yearOfEra / 4 - yearOfEra / 100) + dayOfYear - 719468
  }

  /** The day number of a date. */
  function DaysFromCivil(date: Date): (d: int) {
    var monthPrime := if date.month <= 2 then date.month + 9 else date.month - 3;
    DaysOfYear(if date.month <= 2 then date.year - 1 else date.year, (153 * monthPrime + 2) / 5 + date.day - 1)
  }

  lemma DaysOfDate(year: int, day: int)
    requires 0 <= day < 366
    ensures DaysFromCivil(DateInYear(year, day)) == DaysOfYear(year, day)
  {
  }

  lemma DaysOfPlace(era: int, p: Place)
    requires p.Valid()
    ensures DaysOfYear(400 * era + p.YearOfEra(), p.day) == DayNumber(era, p)
  {
    DayOfYearIsRight(p);
    DivIs(400 * era + p.YearOfEra(), 400, era);
  }

  /** No two days share a date: the date gives the day number back. */
  lemma DayNumberOfDate(d: int)
    ensures DaysFromCivil(CivilFromDays(d)) == d
  {
    var (era, p) := PlaceOfDay(d);
    CivilOfPlace(d, era, p);
    DaysOfDate(400 * era + p.YearOfEra(), p.day);
    DaysOfPlace(era, p);
  }
}
