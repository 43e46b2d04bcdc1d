/** Days since 1970-01-01 and proleptic Gregorian dates. */
module Calendar {

  datatype Date = Date(year: int, month: int, day: int)

  // ----- the conversions --------------------------------------------------------------

  const ERA_DAYS: int := 146_097

  /** Year within the era of the day `doe` within the era; years start on 1 March. */
  function YearOfEra(doe: int): int {
    (doe - doe / 1460 + doe / 36_524 - doe / 146_096) / 365
  }

  function YearStart(yoe: int): int {
    365 * yoe + yoe / 4 - yoe / 100
  }

  function MonthStart(mp: int): int {
    (153 * mp + 2) / 5
  }

  /** The date of day `doy` of the year that starts on 1 March of `y`. */
  function DateOf(y: int, doy: int): Date {
    var mp := (5 * doy + 2) / 153;
    var d := doy - MonthStart(mp) + 1;
    var m := if mp < 10 then mp + 3 else mp - 9;
    Date(if m <= 2 then y + 1 else y, m, d)
  }

  function CivilFromDays(days: int): Date {
    var z := days + 719_468;
    var era := z / ERA_DAYS;
    var doe := z % ERA_DAYS;
    var yoe := YearOfEra(doe);
    DateOf(yoe + era * 400, doe - YearStart(yoe))
  }

  function MarchYear(date: Date): int {
    if date.month <= 2 then date.year - 1 else date.year
  }

  function MarchMonth(date: Date): int {
    if date.month > 2 then date.month - 3 else date.month + 9
  }

  function DayOfYear(date: Date): int {
    MonthStart(MarchMonth(date)) + date.day - 1
  }

  /** Days from the origin of the calendar to 1 March of `y`. */
  function YearOrigin(y: int): int {
    y / 400 * ERA_DAYS + YearStart(y % 400)
  }

  function DaysFromCivil(date: Date): int {
    YearOrigin(MarchYear(date)) + DayOfYear(date) - 719_468
  }

  // ----- the calendar, independently of the conversions ----------------------------------

  predicate Leap(year: int) {
    year % 4 == 0 && (year % 100 != 0 || year % 400 == 0)
  }

  function MonthLength(year: int, month: int): int {
    if month == 2 then (if Leap(year) then 29 else 28)
    else if month == 4 || month == 6 || month == 9 || month == 11 then 30
    else 31
  }

  predicate Valid(date: Date) {
    1 <= date.month <= 12 && 1 <= date.day <= MonthLength(date.year, date.month)
  }

  /** Chronological order of dates, field by field. */
  predicate Before(a: Date, b: Date) {
    || a.year < b.year
    || (a.year == b.year && a.month < b.month)
    || (a.year == b.year && a.month == b.month && a.day < b.day)
  }

  // ----- division ---------------------------------------------------------------------------

  lemma DivisionUnique(a: int, n: int, q: int, r: int)
    requires 0 < n && a == n * q + r && 0 <= r < n
    ensures a / n == q && a % n == r
  {
    var d := a / n - q;
    assert n * d == r - a % n;
    assert d >= 1 ==> n * d >= n;
    assert d <= -1 ==> n * d <= -n;
  }

  lemma DivisionStep(a: int, n: int)
    requires 0 < n
    ensures (a + 1) / n == a / n + (if (a + 1) % n == 0 then 1 else 0)
  {
    if a % n == n - 1 {
      DivisionUnique(a + 1, n, a / n + 1, 0);
    } else {
      DivisionUnique(a + 1, n, a / n, a % n + 1);
    }
  }

  // ----- years within an era ---------------------------------------------------------------

  /** Days of the year that starts on 1 March of year `yoe` of an era: its last month is
      the February of the next year. */
  function YearLength(yoe: int): int {
    if Leap(yoe + 1) then 366 else 365
  }

  /** The heart of the conversion: the division formula recovers the year. */
  lemma YearOfEraParts(cent: int, quad: int, r: int, doy: int)
    requires 0 <= cent < 4 && 0 <= quad < 25 && 0 <= r < 4
    requires 0 <= doy < YearLength(100 * cent + 4 * quad + r)
    ensures YearOfEra(36_524 * cent + 1461 * quad + 365 * r + doy) == 100 * cent + 4 * quad + r
  {
    var doe := 36_524 * cent + 1461 * quad + 365 * r + doy;
    var yoe := 100 * cent + 4 * quad + r;
    if doy == 365 {
      assert Leap(yoe + 1);
      assert (yoe + 1) % 4 == 0;
      assert r == 3;
      assert quad == 24 ==> cent == 3;
    }
    var e := if 24 * cent + quad + 365 * r + doy >= 1460 then 1 else 0;
    DivisionUnique(doe, 1460, 25 * cent + quad + e, 24 * cent + quad + 365 * r + doy - 1460 * e);
    if doe == 146_096 {
      assert cent == 3;
    } else {
      DivisionUnique(doe, 36_524, cent, doe - 36_524 * cent);
      DivisionUnique(doe, 146_096, 0, doe);
    }
    DivisionUnique(365 * yoe + doy - e, 365, yoe, doy - e);
  }

  lemma YearOfEraExact(yoe: int, doy: int)
    requires 0 <= yoe < 400 && 0 <= doy < YearLength(yoe)
    ensures YearOfEra(YearStart(yoe) + doy) == yoe
  {
    var cent, quad, r := yoe / 100, yoe % 100 / 4, yoe % 4;
    DivisionUnique(yoe, 4, 25 * cent + quad, r);
    YearOfEraParts(cent, quad, r, doy);
  }

  /** Every day of an era belongs to exactly one of its years. */
  lemma SplitEra(doe: int) returns (yoe: int, doy: int)
    requires 0 <= doe < ERA_DAYS
    ensures 0 <= yoe < 400 && 0 <= doy < YearLength(yoe)
    ensures doe == YearStart(yoe) + doy
  {
    var cent := if doe / 36_524 < 4 then doe / 36_524 else 3;
    var inCent := doe - 36_524 * cent;
    var quad := inCent / 1461;
    var inQuad := inCent % 1461;
    var r := if inQuad / 365 < 4 then inQuad / 365 else 3;
    yoe, doy := 100 * cent + 4 * quad + r, inQuad - 365 * r;
    assert 0 <= quad < 25;
    assert yoe / 4 == 25 * cent + quad && yoe / 100 == cent;
    if doy == 365 {
      assert r == 3 && inQuad == 1460;
      assert quad == 24 ==> cent == 3;
      assert (yoe + 1) % 100 == 0 ==> quad == 24;
    }
  }

  // ----- both conversions, each the inverse of the other -------------------------------------

  lemma LeapPeriod(year: int, era: int)
    ensures Leap(year + 400 * era) == Leap(year)
  {
    var later := year + 400 * era;
    DivisionUnique(later, 4, year / 4 + 100 * era, year % 4);
    DivisionUnique(later, 100, year / 100 + 4 * era, year % 100);
    DivisionUnique(later, 400, year / 400 + era, year % 400);
  }

  lemma DayOfYearBound(date: Date)
    requires Valid(date)
    ensures 0 <= DayOfYear(date) < YearLength(MarchYear(date) % 400)
    ensures MarchMonth(date) < 11 ==> DayOfYear(date) < MonthStart(MarchMonth(date) + 1)
  {
  }

  lemma CivilOfParts(days: int, era: int, yoe: int, doy: int)
    requires 0 <= yoe < 400 && 0 <= doy < YearLength(yoe)
    requires days == era * ERA_DAYS + YearStart(yoe) + doy - 719_468
    ensures CivilFromDays(days) == DateOf(yoe + era * 400, doy)
  {
    YearFitsEra(yoe, doy);
    YearOfEraExact(yoe, doy);
    EraDivision(days + 719_468, era, YearStart(yoe) + doy);
    CivilOfDay(days, era, YearStart(yoe) + doy);
  }

  lemma CivilOfDay(days: int, era: int, doe: int)
    requires (days + 719_468) / ERA_DAYS == era && (days + 719_468) % ERA_DAYS == doe
    ensures CivilFromDays(days) == DateOf(YearOfEra(doe) + era * 400, doe - YearStart(YearOfEra(doe)))
  {
  }

  lemma EraDivision(z: int, era: int, doe: int)
    requires z == era * ERA_DAYS + doe && 0 <= doe < ERA_DAYS
    ensures z / ERA_DAYS == era && z % ERA_DAYS == doe
  {
  }

  lemma YearFitsEra(yoe: int, doy: int)
    requires 0 <= yoe < 400 && 0 <= doy < YearLength(yoe)
    ensures 0 <= YearStart(yoe) + doy < ERA_DAYS
  {
  }

  /** Taking a day of a year apart and putting it together again. */
  lemma DateOfParts(y: int, doy: int)
    requires 0 <= doy < YearLength(y)
    ensures
      var date := DateOf(y, doy);
      && Valid(date)
      && MarchYear(date) == y
      && DayOfYear(date) == doy
  {
  }

  lemma PartsOfDate(date: Date)
    requires Valid(date)
    ensures DateOf(MarchYear(date), DayOfYear(date)) == date
  {
  }

  /** A day number as era, year of the era and day of the year. */
  lemma SplitDays(days: int) returns (era: int, yoe: int, doy: int)
    ensures 0 <= yoe < 400 && 0 <= doy < YearLength(yoe)
    ensures days == era * ERA_DAYS + YearStart(yoe) + doy - 719_468
  {
    var z := days + 719_468;
    era := z / ERA_DAYS;
    yoe, doy := SplitEra(z % ERA_DAYS);
  }

  lemma YearOriginParts(era: int, yoe: int)
    requires 0 <= yoe < 400
    ensures YearOrigin(yoe + era * 400) == era * ERA_DAYS + YearStart(yoe)
    ensures YearLength(yoe + era * 400) == YearLength(yoe)
  {
    DivisionUnique(yoe + era * 400, 400, era, yoe);
    LeapPeriod(yoe + 1, era);
  }

  lemma DaysOfParts(date: Date, era: int, yoe: int, doy: int)
    requires 0 <= yoe < 400 && 0 <= doy < YearLength(yoe)
    requires date == DateOf(yoe + era * 400, doy)
    ensures Valid(date)
    ensures DaysFromCivil(date) == era * ERA_DAYS + YearStart(yoe) + doy - 719_468
  {
    YearOriginParts(era, yoe);
    DateOfParts(yoe + era * 400, doy);
  }

  /** Every day number is a valid date, and that date gives the number back. */
  lemma CivilRoundTrip(days: int)
    ensures Valid(CivilFromDays(days))
    ensures DaysFromCivil(CivilFromDays(days)) == days
  {
    var era, yoe, doy := SplitDays(days);
    CivilOfParts(days, era, yoe, doy);
    DaysOfParts(CivilFromDays(days), era, yoe, doy);
  }

  /** Every valid date has a day number that gives the date back. */
  lemma DateRoundTrip(date: Date)
    requires Valid(date)
    ensures CivilFromDays(DaysFromCivil(date)) == date
  {
    var y := MarchYear(date);
    DayOfYearBound(date);
    CivilOfParts(DaysFromCivil(date), y / 400, y % 400, DayOfYear(date));
    PartsOfDate(date);
  }

  // ----- order ----------------------------------------------------------------------------

  lemma YearOriginStep(y: int)
    ensures YearOrigin(y + 1) == YearOrigin(y) + YearLength(y % 400)
  {
    var era, yoe := y / 400, y % 400;
    DivisionStep(yoe, 4);
    DivisionStep(yoe, 100);
    if yoe == 399 {
      DivisionUnique(y + 1, 400, era + 1, 0);
    } else {
      DivisionUnique(y + 1, 400, era, yoe + 1);
      LeapInEra(yoe + 1);
    }
  }

  lemma LeapInEra(year: int)
    requires 0 < year < 400
    ensures Leap(year) <==> year % 4 == 0 && year % 100 != 0
    ensures year % 100 == 0 ==> year % 4 == 0
  {
  }

  lemma {:induction false} YearOriginMonotone(y1: int, y2: int)
    requires y1 <= y2
    ensures YearOrigin(y1) <= YearOrigin(y2)
    decreases y2 - y1
  {
  }

  lemma MonthStartMonotone(m1: int, m2: int)
    requires 0 <= m1 <= m2 <= 11
    ensures MonthStart(m1) <= MonthStart(m2)
  {
  }

  lemma BeforeIsLess(a: Date, b: Date)
    requires Valid(a) && Valid(b) && Before(a, b)
    ensures DaysFromCivil(a) < DaysFromCivil(b)
  {
    DayOfYearBound(a);
    DayOfYearBound(b);
    var ya, yb := MarchYear(a), MarchYear(b);
    if ya < yb {
      YearOriginStep(ya);
      YearOriginMonotone(ya + 1, yb);
    } else {
      assert ya == yb;
      if MarchMonth(a) < MarchMonth(b) {
        MonthStartMonotone(MarchMonth(a) + 1, MarchMonth(b));
      }
    }
  }

  /** Day numbers order dates exactly as the calendar does. */
  lemma OrderAgrees(a: Date, b: Date)
    requires Valid(a) && Valid(b)
    ensures Before(a, b) <==> DaysFromCivil(a) < DaysFromCivil(b)
  {
    if Before(a, b) {
      BeforeIsLess(a, b);
    } else if a != b {
      BeforeIsLess(b, a);
    }
  }
}
