/** Fixed-width UTC timestamps: formatting, reading back, and their order as text. */
module Rfc3339 {
  import opened Basics
  import opened Json
  import opened Fields
  import opened Calendar

  const FIRST_SECOND: int := -62_167_219_200
  const LAST_SECOND: int := 253_402_300_799

  // ----- formatting ----------------------------------------------------------------------

  function Zeros(n: int): Bytes {
    if n <= 0 then "" else "0" + Zeros(n - 1)
  }

  /** Decimal text filled with zeros up to a minimum width, the sign counted in. */
  function Pad(n: int, width: int): Bytes {
    if n < 0 then "-" + Zeros(width - 1 - |Decimal(-n)|) + Decimal(-n)
    else Zeros(width - |Decimal(n)|) + Decimal(n)
  }

  function DateText(date: Date): Bytes {
    Pad(date.year, 4) + "-" + Pad(date.month, 2) + "-" + Pad(date.day, 2)
  }

  function TimeText(secondsOfDay: int): Bytes {
    Pad(secondsOfDay / 3600, 2) + ":" + Pad(secondsOfDay % 3600 / 60, 2) + ":" + Pad(secondsOfDay % 60, 2)
  }

  function Format(seconds: int): Bytes {
    DateText(CivilFromDays(seconds / 86_400)) + "T" + TimeText(seconds % 86_400) + "Z"
  }

  /** Seconds of a timestamp, read from its fixed positions. */
  function SecondsOf(text: Bytes): int
    requires |text| == 20
  {
    DaysFromCivil(Date(DecimalValue(text[0..4]), DecimalValue(text[5..7]), DecimalValue(text[8..10]))) * 86_400
    + DecimalValue(text[11..13]) * 3600 + DecimalValue(text[14..16]) * 60 + DecimalValue(text[17..19])
  }

  // ----- fixed-width digits ----------------------------------------------------------------

  function Two(n: int): Bytes {
    [Digit(n / 10), Digit(n % 10)]
  }

  function Four(n: int): Bytes {
    Two(n / 100) + Two(n % 100)
  }

  lemma ZerosShort()
    ensures Zeros(0) == "" && Zeros(1) == "0" && Zeros(2) == "00" && Zeros(3) == "000"
  {
  }

  lemma DecimalTwo(n: int)
    requires 10 <= n < 100
    ensures Decimal(n) == Two(n)
  {
  }

  lemma DecimalThree(n: int)
    requires 100 <= n < 1000
    ensures Decimal(n) == [Digit(n / 100)] + Two(n % 100)
  {
    DecimalTwo(n / 10);
    assert n / 10 / 10 == n / 100 && n / 10 % 10 == n % 100 / 10 && n % 100 % 10 == n % 10;
  }

  lemma DecimalFour(n: int)
    requires 1000 <= n < 10_000
    ensures Decimal(n) == Four(n)
  {
    DecimalThree(n / 10);
    assert n / 10 / 100 == n / 100 / 10 && n / 10 % 100 / 10 == n / 100 % 10;
    assert n / 10 % 100 % 10 == n % 100 / 10 && n % 100 % 10 == n % 10;
  }

  lemma PadTwo(n: int)
    requires 0 <= n < 100
    ensures Pad(n, 2) == Two(n)
  {
    ZerosShort();
    if n >= 10 { DecimalTwo(n); }
  }

  lemma PadFour(n: int)
    requires 0 <= n < 10_000
    ensures Pad(n, 4) == Four(n)
  {
    ZerosShort();
    if n < 10 {
    } else if n < 100 {
      DecimalTwo(n);
    } else if n < 1000 {
      DecimalThree(n);
    } else {
      DecimalFour(n);
    }
  }

  lemma DigitOrder(a: int, b: int)
    requires 0 <= a < 10 && 0 <= b < 10
    ensures Digit(a) < Digit(b) <==> a < b
    ensures Digit(a) == Digit(b) <==> a == b
  {
  }

  lemma TwoValue(n: int)
    requires 0 <= n < 100
    ensures DecimalValue(Two(n)) == n && AllDigits(Two(n))
  {
    var s := Two(n);
    assert s[..1] == [Digit(n / 10)];
    assert [Digit(n / 10)][..0] == "";
    assert DecimalValue(s[..1]) == n / 10;
    assert s[|s| - 1] == Digit(n % 10);
    assert DecimalValue(s) == 10 * (n / 10) + n % 10;
  }

  lemma FourValue(n: int)
    requires 0 <= n < 10_000
    ensures DecimalValue(Four(n)) == n && AllDigits(Four(n))
  {
    var s := Four(n);
    TwoValue(n / 100);
    assert s[..3] == Two(n / 100) + [Digit(n % 100 / 10)];
    assert s[..3][..2] == Two(n / 100);
    assert DecimalValue(s[..3]) == 10 * (n / 100) + n % 100 / 10;
  }

  lemma TwoOrder(a: int, b: int)
    requires 0 <= a < 100 && 0 <= b < 100
    ensures Less(Two(a), Two(b)) <==> a < b
    ensures Two(a) == Two(b) <==> a == b
  {
    DigitOrder(a / 10, b / 10);
    DigitOrder(a % 10, b % 10);
    var x, y := Two(a), Two(b);
    assert x[0] == Digit(a / 10) && y[0] == Digit(b / 10);
    assert x[1..] == [Digit(a % 10)] && y[1..] == [Digit(b % 10)];
    assert x[1..][1..] == "" && y[1..][1..] == "";
    assert Less(x[1..], y[1..]) <==> a % 10 < b % 10;
    TwoValue(a);
    TwoValue(b);
  }

  lemma FourOrder(a: int, b: int)
    requires 0 <= a < 10_000 && 0 <= b < 10_000
    ensures Less(Four(a), Four(b)) <==> a < b
    ensures Four(a) == Four(b) <==> a == b
  {
    FourValue(a);
    FourValue(b);
    TwoOrder(a / 100, b / 100);
    TwoOrder(a % 100, b % 100);
    LessConcat(Two(a / 100), Two(b / 100), Two(a % 100), Two(b % 100));
  }

  // ----- dates and times as text ---------------------------------------------------------------

  predicate Printable(date: Date) {
    0 <= date.year < 10_000 && 1 <= date.month <= 12 && 1 <= date.day <= 31
  }

  lemma DateTextFixed(date: Date)
    requires Printable(date)
    ensures DateText(date) == Four(date.year) + ("-" + (Two(date.month) + ("-" + Two(date.day))))
  {
    PadFour(date.year);
    PadTwo(date.month);
    PadTwo(date.day);
  }

  lemma TimeTextFixed(s: int)
    requires 0 <= s < 86_400
    ensures TimeText(s) == Two(s / 3600) + (":" + (Two(s % 3600 / 60) + (":" + Two(s % 60))))
  {
    PadTwo(s / 3600);
    PadTwo(s % 3600 / 60);
    PadTwo(s % 60);
  }

  /** Two strings with a common separator compare by what follows it. */
  lemma LessSeparated(sep: Bytes, x: Bytes, y: Bytes)
    ensures Less(sep + x, sep + y) <==> Less(x, y)
    ensures sep + x == sep + y <==> x == y
  {
    LessConcat(sep, sep, x, y);
    LessIrreflexive(sep);
    assert (sep + x)[|sep|..] == x && (sep + y)[|sep|..] == y;
  }

  /** Three two-part comparisons chained: the common shape of a date and of a time. */
  lemma LessTriple(sep: Bytes, a: Bytes, b: Bytes, c: Bytes, x: Bytes, y: Bytes, z: Bytes)
    requires |a| == |x| && |b| == |y|
    ensures Less(a + (sep + (b + (sep + c))), x + (sep + (y + (sep + z)))) <==>
      Less(a, x) || (a == x && (Less(b, y) || (b == y && Less(c, z))))
  {
    LessConcat(a, x, sep + (b + (sep + c)), sep + (y + (sep + z)));
    LessSeparated(sep, b + (sep + c), y + (sep + z));
    LessConcat(b, y, sep + c, sep + z);
    LessSeparated(sep, c, z);
  }

  lemma DateTextLess(a: Date, b: Date)
    requires Printable(a) && Printable(b)
    ensures |DateText(a)| == 10
    ensures Less(DateText(a), DateText(b)) <==> Before(a, b)
  {
    DateTextFixed(a);
    DateTextFixed(b);
    FourOrder(a.year, b.year);
    TwoOrder(a.month, b.month);
    TwoOrder(a.day, b.day);
    LessTriple("-", Four(a.year), Two(a.month), Two(a.day), Four(b.year), Two(b.month), Two(b.day));
  }

  lemma DateTextOrder(a: Date, b: Date)
    requires Printable(a) && Printable(b)
    ensures |DateText(a)| == |DateText(b)| == 10
    ensures Less(DateText(a), DateText(b)) <==> Before(a, b)
    ensures DateText(a) == DateText(b) <==> a == b
  {
    DateTextLess(a, b);
    DateTextLess(b, a);
    LessIrreflexive(DateText(a));
  }

  lemma TimeTextOrder(s: int, t: int)
    requires 0 <= s < 86_400 && 0 <= t < 86_400
    ensures |TimeText(s)| == |TimeText(t)| == 8
    ensures Less(TimeText(s), TimeText(t)) <==> s < t
  {
    TimeTextFixed(s);
    TimeTextFixed(t);
    TwoOrder(s / 3600, t / 3600);
    TwoOrder(s % 3600 / 60, t % 3600 / 60);
    TwoOrder(s % 60, t % 60);
    LessTriple(":", Two(s / 3600), Two(s % 3600 / 60), Two(s % 60), Two(t / 3600), Two(t % 3600 / 60), Two(t % 60));
    ClockOrder(s, t);
  }

  lemma ClockOrder(s: int, t: int)
    requires 0 <= s < 86_400 && 0 <= t < 86_400
    ensures s < t <==>
      || s / 3600 < t / 3600
      || (s / 3600 == t / 3600 && s % 3600 / 60 < t % 3600 / 60)
      || (s / 3600 == t / 3600 && s % 3600 / 60 == t % 3600 / 60 && s % 60 < t % 60)
  {
  }

  // ----- timestamps ------------------------------------------------------------------------

  /** The four-digit years are exactly the documented range of seconds. */
  lemma YearRange(seconds: int)
    ensures
      var date := CivilFromDays(seconds / 86_400);
      && Valid(date)
      && (0 <= date.year < 10_000 <==> FIRST_SECOND <= seconds <= LAST_SECOND)
  {
    var days := seconds / 86_400;
    var date := CivilFromDays(days);
    var first, last := Date(0, 1, 1), Date(9999, 12, 31);
    CivilRoundTrip(days);
    OrderAgrees(date, first);
    OrderAgrees(last, date);
    FirstAndLastDay();
    assert Before(date, first) <==> date.year < 0;
    assert Before(last, date) <==> date.year > 9999;
  }

  lemma FirstAndLastDay()
    ensures DaysFromCivil(Date(0, 1, 1)) == -719_528
    ensures DaysFromCivil(Date(9999, 12, 31)) == 2_932_896
  {
    OriginOf(Date(0, 1, 1), -1, 399, 306);
    OriginOf(Date(9999, 12, 31), 24, 399, 305);
  }

  lemma OriginOf(date: Date, era: int, yoe: int, doy: int)
    requires MarchYear(date) == 400 * era + yoe && 0 <= yoe < 400 && DayOfYear(date) == doy
    ensures DaysFromCivil(date) == era * ERA_DAYS + YearStart(yoe) + doy - 719_468
  {
    DivisionUnique(MarchYear(date), 400, era, yoe);
  }

  predicate InRange(seconds: int) {
    FIRST_SECOND <= seconds <= LAST_SECOND
  }

  lemma FormatShape(date: Date, x: int)
    requires Printable(date) && 0 <= x < 86_400
    ensures |DateText(date)| == 10 && |TimeText(x)| == 8
    ensures DateText(date) + "T" + TimeText(x) + "Z" == DateText(date) + ("T" + (TimeText(x) + "Z"))
  {
    DateTextOrder(date, date);
    TimeTextOrder(x, x);
  }

  lemma FormatParts(seconds: int)
    requires InRange(seconds)
    ensures
      var date, x := CivilFromDays(seconds / 86_400), seconds % 86_400;
      && Printable(date)
      && |DateText(date)| == 10 && |TimeText(x)| == 8
      && Format(seconds) == DateText(date) + ("T" + (TimeText(x) + "Z"))
  {
    YearRange(seconds);
    FormatShape(CivilFromDays(seconds / 86_400), seconds % 86_400);
  }

  /** Comparing formatted timestamps as text is comparing the instants. */
  lemma FormatOrder(s: int, t: int)
    requires InRange(s) && InRange(t)
    ensures Less(Format(s), Format(t)) <==> s < t
    ensures Format(s) == Format(t) <==> s == t
  {
    FormatLess(s, t);
    FormatLess(t, s);
    LessIrreflexive(Format(s));
  }

  lemma FormatLess(s: int, t: int)
    requires InRange(s) && InRange(t)
    ensures Less(Format(s), Format(t)) <==> s < t
  {
    FormatParts(s);
    FormatParts(t);
    var a, b := CivilFromDays(s / 86_400), CivilFromDays(t / 86_400);
    var x, y := s % 86_400, t % 86_400;
    CivilRoundTrip(s / 86_400);
    CivilRoundTrip(t / 86_400);
    OrderAgrees(a, b);
    DateTextOrder(a, b);
    TimeTextOrder(x, y);
    LessConcat(DateText(a), DateText(b), "T" + (TimeText(x) + "Z"), "T" + (TimeText(y) + "Z"));
    LessSeparated("T", TimeText(x) + "Z", TimeText(y) + "Z");
    LessConcat(TimeText(x), TimeText(y), "Z", "Z");
    LessIrreflexive("Z");
    assert a == b <==> s / 86_400 == t / 86_400;
  }

  // ----- reading back --------------------------------------------------------------------------

  lemma TripleSlices(sep: Bytes, a: Bytes, b: Bytes, c: Bytes)
    requires |sep| == 1 && |b| == 2 && |c| == 2
    ensures
      var s, n := a + (sep + (b + (sep + c))), |a|;
      && |s| == n + 6
      && s[0..n] == a && s[n + 1..n + 3] == b && s[n + 4..n + 6] == c
      && s[n] == sep[0] && s[n + 3] == sep[0]
  {
  }

  lemma FormatSlices(date: Date, x: int)
    requires Printable(date) && 0 <= x < 86_400
    ensures
      var text := DateText(date) + "T" + TimeText(x) + "Z";
      && |text| == 20
      && text[0..4] == Four(date.year) && text[5..7] == Two(date.month) && text[8..10] == Two(date.day)
      && text[11..13] == Two(x / 3600) && text[14..16] == Two(x % 3600 / 60) && text[17..19] == Two(x % 60)
      && text[4] == '-' && text[7] == '-' && text[10] == 'T' && text[13] == ':' && text[16] == ':' && text[19] == 'Z'
  {
    DateTextFixed(date);
    TimeTextFixed(x);
    TripleSlices("-", Four(date.year), Two(date.month), Two(date.day));
    TripleSlices(":", Two(x / 3600), Two(x % 3600 / 60), Two(x % 60));
    JoinSlices(DateText(date), TimeText(x));
  }

  lemma JoinSlices(d: Bytes, t: Bytes)
    requires |d| == 10 && |t| == 8
    ensures
      var text := d + "T" + t + "Z";
      && |text| == 20
      && text[0..4] == d[0..4] && text[5..7] == d[5..7] && text[8..10] == d[8..10]
      && text[11..13] == t[0..2] && text[14..16] == t[3..5] && text[17..19] == t[6..8]
      && text[4] == d[4] && text[7] == d[7] && text[10] == 'T' && text[13] == t[2] && text[16] == t[5] && text[19] == 'Z'
  {
  }

  lemma DigitsAt(text: Bytes, from: int, digits: Bytes, i: int)
    requires 0 <= from <= i < from + |digits| <= |text|
    requires text[from..from + |digits|] == digits && AllDigits(digits)
    ensures IsDigit(text[i])
  {
    assert text[i] == digits[i - from];
  }

  lemma FormatValid(date: Date, x: int)
    requires Printable(date) && 0 <= x < 86_400
    ensures ValidTimestamp(DateText(date) + "T" + TimeText(x) + "Z")
  {
    var text := DateText(date) + "T" + TimeText(x) + "Z";
    FormatSlices(date, x);
    FourValue(date.year);
    TwoValue(date.month);
    TwoValue(date.day);
    TwoValue(x / 3600);
    TwoValue(x % 3600 / 60);
    TwoValue(x % 60);
    forall i | 0 <= i < 20 && i !in {4, 7, 10, 13, 16, 19}
      ensures IsDigit(text[i])
    {
      if i < 4 { DigitsAt(text, 0, Four(date.year), i); }
      else if i < 7 { DigitsAt(text, 5, Two(date.month), i); }
      else if i < 10 { DigitsAt(text, 8, Two(date.day), i); }
      else if i < 13 { DigitsAt(text, 11, Two(x / 3600), i); }
      else if i < 16 { DigitsAt(text, 14, Two(x % 3600 / 60), i); }
      else { DigitsAt(text, 17, Two(x % 60), i); }
    }
  }

  lemma {:induction false} DecimalLong(n: nat, k: nat, bound: nat)
    requires n >= bound && k >= 1 && bound == Power10(k)
    ensures |Decimal(n)| >= k + 1
    decreases k
  {
    if k > 1 { DecimalLong(n / 10, k - 1, Power10(k - 1)); }
  }

  function Power10(k: nat): nat {
    if k == 0 then 1 else 10 * Power10(k - 1)
  }

  lemma FormatInvalid(date: Date, x: int)
    requires Valid(date) && !(0 <= date.year < 10_000) && 0 <= x < 86_400
    ensures !ValidTimestamp(DateText(date) + "T" + TimeText(x) + "Z")
  {
    TimeTextFixed(x);
    PadTwo(date.month);
    PadTwo(date.day);
    var text := DateText(date) + "T" + TimeText(x) + "Z";
    if date.year < 0 {
      assert text[0] == '-';
    } else {
      assert Power10(4) == 10_000 by { assert Power10(2) == 100; assert Power10(3) == 1000; }
      DecimalLong(date.year, 4, 10_000);
    }
  }

  /** The timestamp check accepts a formatted instant exactly in the years 0 to 9999. */
  lemma TimestampAccepts(seconds: int)
    ensures ValidTimestamp(Format(seconds)) <==> InRange(seconds)
  {
    YearRange(seconds);
    if InRange(seconds) {
      FormatValid(CivilFromDays(seconds / 86_400), seconds % 86_400);
    } else {
      FormatInvalid(CivilFromDays(seconds / 86_400), seconds % 86_400);
    }
  }

  lemma ClockParts(x: int)
    requires 0 <= x < 86_400
    ensures x / 3600 * 3600 + x % 3600 / 60 * 60 + x % 60 == x
  {
  }

  lemma SecondsOfText(date: Date, x: int)
    requires Printable(date) && 0 <= x < 86_400
    ensures |DateText(date) + "T" + TimeText(x) + "Z"| == 20
    ensures SecondsOf(DateText(date) + "T" + TimeText(x) + "Z") == DaysFromCivil(date) * 86_400 + x
  {
    FormatSlices(date, x);
    FourValue(date.year);
    TwoValue(date.month);
    TwoValue(date.day);
    TwoValue(x / 3600);
    TwoValue(x % 3600 / 60);
    TwoValue(x % 60);
    ClockParts(x);
  }

  /** A formatted instant reads back as the same number of seconds. */
  lemma SecondsRoundTrip(seconds: int)
    requires InRange(seconds)
    ensures |Format(seconds)| == 20
    ensures SecondsOf(Format(seconds)) == seconds
  {
    YearRange(seconds);
    CivilRoundTrip(seconds / 86_400);
    SecondsOfText(CivilFromDays(seconds / 86_400), seconds % 86_400);
  }
}
