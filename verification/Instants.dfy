/** Which time stamps denote an instant: the check looks at digits and separators only. */
module Instants {
  import opened Basics
  import opened Json
  import opened Fields
  import opened Calendar
  import opened Rfc3339

  // ----- the fields of a time stamp, at their fixed positions -------------------------------

  function DateIn(s: Bytes): Date
    requires |s| == 20
  {
    Date(DecimalValue(s[0..4]), DecimalValue(s[5..7]), DecimalValue(s[8..10]))
  }

  function HourIn(s: Bytes): int
    requires |s| == 20
  {
    DecimalValue(s[11..13])
  }

  function MinuteIn(s: Bytes): int
    requires |s| == 20
  {
    DecimalValue(s[14..16])
  }

  function SecondIn(s: Bytes): int
    requires |s| == 20
  {
    DecimalValue(s[17..19])
  }

  /** The numeric ranges that the check does not look at. */
  predicate OnCalendar(s: Bytes)
    requires |s| == 20
  {
    Valid(DateIn(s)) && HourIn(s) < 24 && MinuteIn(s) < 60 && SecondIn(s) < 60
  }

  /** The text is what formatting some instant gives. */
  ghost predicate Denotes(s: Bytes) {
    exists t :: InRange(t) && s == Format(t)
  }

  // ----- digits ------------------------------------------------------------------------------

  lemma TwoDigits(d: Bytes)
    requires |d| == 2 && AllDigits(d)
    ensures 0 <= DecimalValue(d) < 100 && Two(DecimalValue(d)) == d
  {
    assert d[..1] == [d[0]] && d[..1][..0] == "";
    assert IsDigit(d[0]) && IsDigit(d[1]);
    var a, b := DigitValue(d[0]), DigitValue(d[1]);
    assert DecimalValue(d[..1]) == a;
    assert DecimalValue(d) == 10 * a + b;
  }

  lemma FourDigits(d: Bytes)
    requires |d| == 4 && AllDigits(d)
    ensures 0 <= DecimalValue(d) < 10_000 && Four(DecimalValue(d)) == d
  {
    TwoDigits(d[..2]);
    TwoDigits(d[2..]);
    SplitValue(d);
    DivisionUnique(DecimalValue(d), 100, DecimalValue(d[..2]), DecimalValue(d[2..]));
    assert d == d[..2] + d[2..];
  }

  lemma SplitValue(d: Bytes)
    requires |d| == 4
    ensures DecimalValue(d) == 100 * DecimalValue(d[..2]) + DecimalValue(d[2..])
  {
    LastDigit(d);
    LastDigit(d[..3]);
    LastDigit(d[2..]);
    LastDigit([d[2]]);
    assert d[..3][..2] == d[..2] && d[2..][..1] == [d[2]] && [d[2]][..0] == "";
  }

  lemma LastDigit(d: Bytes)
    requires d != ""
    ensures DecimalValue(d) == 10 * DecimalValue(d[..|d| - 1]) + DigitValue(d[|d| - 1])
  {
  }

  lemma FieldDigits(s: Bytes)
    requires ValidTimestamp(s)
    ensures 0 <= DateIn(s).year < 10_000 && Four(DateIn(s).year) == s[0..4]
    ensures 0 <= DateIn(s).month < 100 && Two(DateIn(s).month) == s[5..7]
    ensures 0 <= DateIn(s).day < 100 && Two(DateIn(s).day) == s[8..10]
    ensures 0 <= HourIn(s) < 100 && Two(HourIn(s)) == s[11..13]
    ensures 0 <= MinuteIn(s) < 100 && Two(MinuteIn(s)) == s[14..16]
    ensures 0 <= SecondIn(s) < 100 && Two(SecondIn(s)) == s[17..19]
  {
    FourDigits(s[0..4]);
    TwoDigits(s[5..7]);
    TwoDigits(s[8..10]);
    TwoDigits(s[11..13]);
    TwoDigits(s[14..16]);
    TwoDigits(s[17..19]);
  }

  // ----- the exact condition ---------------------------------------------------------------

  lemma ClockOf(h: int, m: int, s: int)
    requires 0 <= h < 24 && 0 <= m < 60 && 0 <= s < 60
    ensures
      var x := h * 3600 + m * 60 + s;
      0 <= x < 86_400 && x / 3600 == h && x % 3600 / 60 == m && x % 60 == s
  {
  }

  /** Texts of twenty characters that agree on the fields and the separators are equal. */
  lemma SameText(a: Bytes, b: Bytes)
    requires |a| == 20 && |b| == 20
    requires a[0..4] == b[0..4] && a[5..7] == b[5..7] && a[8..10] == b[8..10]
    requires a[11..13] == b[11..13] && a[14..16] == b[14..16] && a[17..19] == b[17..19]
    requires a[4] == b[4] && a[7] == b[7] && a[10] == b[10] && a[13] == b[13] && a[16] == b[16] && a[19] == b[19]
    ensures a == b
  {
    Assemble(a);
    Assemble(b);
  }

  lemma Assemble(a: Bytes)
    requires |a| == 20
    ensures a == a[0..4] + [a[4]] + a[5..7] + [a[7]] + a[8..10] + [a[10]]
               + a[11..13] + [a[13]] + a[14..16] + [a[16]] + a[17..19] + [a[19]]
  {
  }

  /** On the calendar, a time stamp is the writing of the seconds read from it. */
  lemma CalendarText(s: Bytes)
    requires ValidTimestamp(s) && OnCalendar(s)
    ensures InRange(SecondsOf(s)) && s == Format(SecondsOf(s))
  {
    FieldDigits(s);
    var date := DateIn(s);
    var x := HourIn(s) * 3600 + MinuteIn(s) * 60 + SecondIn(s);
    ClockOf(HourIn(s), MinuteIn(s), SecondIn(s));
    SecondsSplit(s, x);
    FormatSlices(date, x);
    SameText(s, DateText(date) + "T" + TimeText(x) + "Z");
    YearRange(SecondsOf(s));
  }

  lemma SecondsSplit(s: Bytes, x: int)
    requires |s| == 20 && Valid(DateIn(s)) && 0 <= x < 86_400
    requires x == HourIn(s) * 3600 + MinuteIn(s) * 60 + SecondIn(s)
    ensures CivilFromDays(SecondsOf(s) / 86_400) == DateIn(s) && SecondsOf(s) % 86_400 == x
  {
    DateRoundTrip(DateIn(s));
    DivisionUnique(SecondsOf(s), 86_400, DaysFromCivil(DateIn(s)), x);
  }

  lemma FormattedOnCalendar(t: int)
    requires InRange(t)
    ensures |Format(t)| == 20 && OnCalendar(Format(t))
  {
    YearRange(t);
    var date, x := CivilFromDays(t / 86_400), t % 86_400;
    FormatSlices(date, x);
    FourValue(date.year);
    TwoValue(date.month);
    TwoValue(date.day);
    TwoValue(x / 3600);
    TwoValue(x % 3600 / 60);
    TwoValue(x % 60);
  }

  /** An accepted time stamp denotes an instant if and only if its date is on the calendar
      and its hour, minute and second are in range; the instant is then the one that is
      read from it. */
  lemma DenotesIffOnCalendar(s: Bytes)
    requires ValidTimestamp(s)
    ensures Denotes(s) <==> OnCalendar(s)
    ensures Denotes(s) ==> s == Format(SecondsOf(s))
  {
    if Denotes(s) {
      var t :| InRange(t) && s == Format(t);
      FormattedOnCalendar(t);
    }
    if OnCalendar(s) { CalendarText(s); }
  }

  lemma NoSuchMonth(s: Bytes)
    requires ValidTimestamp(s) && s[5] == '9'
    ensures !OnCalendar(s) && !Denotes(s)
  {
    FieldDigits(s);
    assert s[5..7][0] == '9';
    assert Digit(DateIn(s).month / 10) == '9';
    DenotesIffOnCalendar(s);
  }

  /** The promised ranges are not checked: this is accepted and denotes nothing. */
  lemma AcceptedButNoInstant()
    ensures ValidTimestamp("2026-99-99T99:99:99Z") && !Denotes("2026-99-99T99:99:99Z")
  {
    NoSuchMonth("2026-99-99T99:99:99Z");
  }

  // ----- comparing raw strings -----------------------------------------------------------------

  /** Between time stamps that are on the calendar, comparing the strings is comparing the
      instants. */
  lemma RawOrder(a: Bytes, b: Bytes)
    requires ValidTimestamp(a) && ValidTimestamp(b) && OnCalendar(a) && OnCalendar(b)
    ensures Less(a, b) <==> SecondsOf(a) < SecondsOf(b)
    ensures LessEq(a, b) <==> SecondsOf(a) <= SecondsOf(b)
  {
    CalendarText(a);
    CalendarText(b);
    FormatOrder(SecondsOf(a), SecondsOf(b));
  }

  /** Midnight of a day that need not be on the calendar. */
  function Midnight(year: int, month: int, day: int): Bytes {
    Four(year) + ("-" + (Two(month) + ("-" + Two(day)))) + "T" + ("00" + (":" + ("00" + (":" + "00")))) + "Z"
  }

  /** Off the calendar it need not be: 30 February comes before 1 March as a string, and
      the seconds read from it are those of 2 March. */
  lemma RawOrderFails()
    ensures
      var a, b := Midnight(2026, 2, 30), Midnight(2026, 3, 1);
      && ValidTimestamp(a) && ValidTimestamp(b)
      && Less(a, b) && SecondsOf(a) > SecondsOf(b)
  {
    MidnightText(2026, 2, 30);
    MidnightText(2026, 3, 1);
    MidnightOrder(2026, 2, 30, 3, 1);
    FebruaryThirty();
  }

  lemma MidnightOrder(year: int, month: int, day: int, later: int, other: int)
    requires 0 <= month < later < 100
    ensures Less(Midnight(year, month, day), Midnight(year, later, other))
  {
    var tail: Bytes := "T" + ("00" + (":" + ("00" + (":" + "00")))) + "Z";
    var y, m, n := Four(year), Two(month), Two(later);
    var a, b := "-" + Two(day) + tail, "-" + Two(other) + tail;
    assert Midnight(year, month, day) == y + ("-" + (m + a));
    assert Midnight(year, later, other) == y + ("-" + (n + b));
    TwoOrder(month, later);
    LessConcat(m, n, a, b);
    LessSeparated("-", m + a, n + b);
    LessConcat(y, y, "-" + (m + a), "-" + (n + b));
  }

  lemma FebruaryThirty()
    ensures DaysFromCivil(Date(2026, 2, 30)) == DaysFromCivil(Date(2026, 3, 1)) + 1
  {
    OriginOf(Date(2026, 2, 30), 5, 25, 366);
    OriginOf(Date(2026, 3, 1), 5, 26, 0);
  }

  lemma MidnightText(year: int, month: int, day: int)
    requires 0 <= year < 10_000 && 0 <= month < 100 && 0 <= day < 100
    ensures ValidTimestamp(Midnight(year, month, day))
    ensures SecondsOf(Midnight(year, month, day)) == DaysFromCivil(Date(year, month, day)) * 86_400
  {
    TripleSlices("-", Four(year), Two(month), Two(day));
    TripleSlices(":", "00", "00", "00");
    JoinSlices(Four(year) + ("-" + (Two(month) + ("-" + Two(day)))), "00" + (":" + ("00" + (":" + "00"))));
    FourValue(year);
    TwoValue(month);
    TwoValue(day);
    TwoValue(0);
    assert Two(0) == "00";
  }
}
