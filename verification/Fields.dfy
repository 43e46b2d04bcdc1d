/** Validated field types shared by the emission suites. */
module Fields {
  import opened Basics

  /** Non-empty printable ASCII of bounded length without quote and backslash. */
  predicate BoundedAscii(s: Bytes, max: nat) {
    && 0 < |s| <= max
    && forall i | 0 <= i < |s| :: ' ' <= s[i] <= '~' && s[i] != '"' && s[i] != '\\'
  }

  type AuthorityDomain = s: Bytes | BoundedAscii(s, 128) witness "x"
  type ShortText = s: Bytes | BoundedAscii(s, 256) witness "x"
  type Justification = s: Bytes | BoundedAscii(s, 512) witness "x"
  type AuthMethodText = s: Bytes | BoundedAscii(s, 64) witness "x"

  /** `YYYY-MM-DDThh:mm:ssZ`: digits and separators in place, no calendar. */
  predicate ValidTimestamp(s: Bytes) {
    && |s| == 20
    && s[4] == '-' && s[7] == '-' && s[10] == 'T' && s[13] == ':' && s[16] == ':' && s[19] == 'Z'
    && forall i | 0 <= i < 20 && i !in {4, 7, 10, 13, 16, 19} :: IsDigit(s[i])
  }

  type Timestamp = s: Bytes | ValidTimestamp(s) witness "2026-08-23T10:00:00Z"

  /** `8-4-4-4-12` hexadecimal, with the version nibble 7 when it is required. */
  predicate ValidUuid(s: Bytes, requireV7: bool) {
    && |s| == 36
    && s[8] == '-' && s[13] == '-' && s[18] == '-' && s[23] == '-'
    && (forall i | 0 <= i < 36 && i !in {8, 13, 18, 23} :: IsHexDigit(s[i]))
    && (requireV7 ==> s[14] == '7')
  }

  type EventId = s: Bytes | ValidUuid(s, true) witness "0198e6c1-0000-7000-8000-000000000000"
  type RequestId = s: Bytes | ValidUuid(s, false) witness "0198e6c1-0000-7000-8000-000000000000"

  const MAX_SAFE_INTEGER: int := 0x1F_FFFF_FFFF_FFFF

  /** Position in a domain's chain, at most 2^53 - 1. */
  type Sequence = n: int | 0 <= n <= MAX_SAFE_INTEGER

  /** Five groups of hexadecimal digits with dashes between them. */
  predicate Grouped(s: Bytes, a: Bytes, b: Bytes, c: Bytes, d: Bytes, e: Bytes) {
    && |a| == 8 && |b| == 4 && |c| == 4 && |d| == 4 && |e| == 12
    && AllHex(a) && AllHex(b) && AllHex(c) && AllHex(d) && AllHex(e)
    && s == a + "-" + b + "-" + c + "-" + d + "-" + e
  }

  /** The version of an identifier is the first digit of its third group. */
  lemma UuidExact(s: Bytes, requireV7: bool)
    ensures ValidUuid(s, requireV7) <==>
      exists a, b, c, d, e :: Grouped(s, a, b, c, d, e) && (requireV7 ==> c[0] == '7')
  {
    if ValidUuid(s, requireV7) {
      assert s == s[..8] + "-" + s[9..13] + "-" + s[14..18] + "-" + s[19..23] + "-" + s[24..];
      assert Grouped(s, s[..8], s[9..13], s[14..18], s[19..23], s[24..]);
    }
    if a, b, c, d, e :| Grouped(s, a, b, c, d, e) && (requireV7 ==> c[0] == '7') {
      GroupedIsUuid(s, a, b, c, d, e);
    }
  }

  lemma GroupedIsUuid(s: Bytes, a: Bytes, b: Bytes, c: Bytes, d: Bytes, e: Bytes)
    requires Grouped(s, a, b, c, d, e)
    ensures ValidUuid(s, false) && s[14] == c[0]
  {
    assert s[..8] == a && s[9..13] == b && s[14..18] == c && s[19..23] == d && s[24..] == e;
    assert forall i | 0 <= i < 8 :: s[i] == a[i];
    assert forall i | 9 <= i < 13 :: s[i] == b[i - 9];
    assert forall i | 14 <= i < 18 :: s[i] == c[i - 14];
    assert forall i | 19 <= i < 23 :: s[i] == d[i - 19];
    assert forall i | 24 <= i < 36 :: s[i] == e[i - 24];
  }

  /** A date and a time of day in digits, in Coordinated Universal Time. */
  predicate Stamped(s: Bytes, year: Bytes, month: Bytes, day: Bytes, hour: Bytes, minute: Bytes, second: Bytes) {
    && |year| == 4 && |month| == 2 && |day| == 2 && |hour| == 2 && |minute| == 2 && |second| == 2
    && AllDigits(year + month + day + hour + minute + second)
    && s == year + "-" + month + "-" + day + "T" + hour + ":" + minute + ":" + second + "Z"
  }

  lemma TimestampExact(s: Bytes)
    ensures ValidTimestamp(s) <==>
      exists year, month, day, hour, minute, second :: Stamped(s, year, month, day, hour, minute, second)
  {
    if ValidTimestamp(s) {
      assert s == s[..4] + "-" + s[5..7] + "-" + s[8..10] + "T" + s[11..13] + ":" + s[14..16] + ":" + s[17..19] + "Z";
      assert Stamped(s, s[..4], s[5..7], s[8..10], s[11..13], s[14..16], s[17..19]);
    }
    if year, month, day, hour, minute, second :| Stamped(s, year, month, day, hour, minute, second) {
      StampedIsTimestamp(s, year, month, day, hour, minute, second);
    }
  }

  lemma StampedIsTimestamp(s: Bytes, year: Bytes, month: Bytes, day: Bytes, hour: Bytes, minute: Bytes, second: Bytes)
    requires Stamped(s, year, month, day, hour, minute, second)
    ensures ValidTimestamp(s)
  {
    var digits := year + month + day + hour + minute + second;
    assert forall i | 0 <= i < 4 :: s[i] == digits[i];
    assert forall i | 5 <= i < 7 :: s[i] == digits[i - 1];
    assert forall i | 8 <= i < 10 :: s[i] == digits[i - 2];
    assert forall i | 11 <= i < 13 :: s[i] == digits[i - 3];
    assert forall i | 14 <= i < 16 :: s[i] == digits[i - 4];
    assert forall i | 17 <= i < 19 :: s[i] == digits[i - 5];
  }

  lemma {:induction false} HexIsAscii(bytes: Bytes)
    ensures bytes != "" ==> BoundedAscii(HexEncode(bytes), 2 * |bytes|)
  {
    if bytes != "" {
      HexIsAscii(bytes[1..]);
      var n := bytes[0] as int;
      assert IsHexDigit(HexDigit(n / 16)) && IsHexDigit(HexDigit(n % 16));
    }
  }
}
