/** Shared vocabulary: optional values, results, octet strings, machine integers,
    the byte-wise order and hexadecimal text. */
module Basics {

  datatype Option<+T> = None | Some(value: T) {
    predicate IsFailure() { None? }

    function PropagateFailure<U>(): Option<U>
      requires None?
    {
      None
    }

    function Extract(): T
      requires Some?
    {
      value
    }
  }

  datatype Result<+T, +E> = Ok(value: T) | Err(error: E) {
    predicate IsFailure() { Err? }

    function PropagateFailure<U>(): Result<U, E>
      requires Err?
    {
      Err(error)
    }

    function Extract(): T
      requires Ok?
    {
      value
    }
  }

  /** An octet string. One `char` stands for one octet of the original's byte
      buffers and UTF-8 strings, so text literals can be written as such. */
  type Bytes = string

  const U64_LIMIT: int := 0x1_0000_0000_0000_0000
  const U32_LIMIT: int := 0x1_0000_0000

  type U64 = n: int | 0 <= n < U64_LIMIT
  type U32 = n: int | 0 <= n < U32_LIMIT

  predicate IsOctets(s: Bytes) {
    forall i | 0 <= i < |s| :: s[i] as int < 256
  }

  type Octets = s: Bytes | IsOctets(s)

  const ZERO_DIGEST: Bytes := seq(32, _ => 0 as char)

  /** A SHA-256 output: exactly 32 octets. */
  type Digest = d: Bytes | |d| == 32 && IsOctets(d) witness ZERO_DIGEST

  /** The cryptographic operations the original delegates to foreign libraries:
      a hash, and the check of an ECDSA signature over a digest. */
  datatype Crypto = Crypto(
    sha256: Bytes -> Digest,
    checkDigest: (Bytes, Digest, Bytes) -> bool)
  {
    /** The verification call hashes the message itself, while the signing device
        is handed the digest: both paths meet in `checkDigest`. */
    predicate CheckMessage(key: Bytes, message: Bytes, signature: Bytes) {
      checkDigest(key, sha256(message), signature)
    }

    /** What the signing device guarantees of a signature it returns. */
    predicate Genuine(key: Bytes, digest: Digest, signature: Bytes) {
      |signature| == 64 && IsOctets(signature) && checkDigest(key, digest, signature)
    }
  }

  // ----- byte-wise lexicographic order -------------------------------------------------

  predicate Less(a: Bytes, b: Bytes) {
    if b == "" then false
    else if a == "" then true
    else a[0] < b[0] || (a[0] == b[0] && Less(a[1..], b[1..]))
  }

  predicate LessEq(a: Bytes, b: Bytes) {
    a == b || Less(a, b)
  }

  lemma {:induction false} LessIrreflexive(a: Bytes)
    ensures !Less(a, a)
  {
    if a != "" { LessIrreflexive(a[1..]); }
  }

  lemma {:induction false} LessTransitive(a: Bytes, b: Bytes, c: Bytes)
    requires Less(a, b) && Less(b, c)
    ensures Less(a, c)
  {
    if a != "" && a[0] == b[0] && b[0] == c[0] { LessTransitive(a[1..], b[1..], c[1..]); }
  }

  lemma {:induction false} LessTotal(a: Bytes, b: Bytes)
    ensures Less(a, b) || a == b || Less(b, a)
  {
    if a == "" || b == "" {
    } else if a[0] == b[0] {
      LessTotal(a[1..], b[1..]);
      assert a == [a[0]] + a[1..];
      assert b == [b[0]] + b[1..];
    }
  }

  /** Strings whose first parts have the same length compare first part first. */
  lemma {:induction false} LessConcat(a: Bytes, b: Bytes, x: Bytes, y: Bytes)
    requires |a| == |b|
    ensures Less(a + x, b + y) <==> Less(a, b) || (a == b && Less(x, y))
  {
    if a == "" {
      assert a + x == x && b + y == y;
    } else {
      assert (a + x)[1..] == a[1..] + x;
      assert (b + y)[1..] == b[1..] + y;
      LessConcat(a[1..], b[1..], x, y);
      assert a == [a[0]] + a[1..];
      assert b == [b[0]] + b[1..];
      if a == b { LessIrreflexive(a); }
    }
  }

  // ----- hexadecimal text --------------------------------------------------------------

  predicate IsDigit(c: char) { '0' <= c <= '9' }

  predicate AllDigits(s: Bytes) {
    forall i | 0 <= i < |s| :: IsDigit(s[i])
  }

  predicate IsHexDigit(c: char) {
    IsDigit(c) || 'a' <= c <= 'f' || 'A' <= c <= 'F'
  }

  function HexDigit(n: int): (c: char)
    ensures IsHexDigit(c)
    ensures 0 <= n < 16 ==> HexValue(c) == n
  {
    if 0 <= n < 10 then ('0' as int + n) as char
    else if 10 <= n < 16 then ('a' as int + n - 10) as char
    else '0'
  }

  function HexValue(c: char): (n: int)
    ensures 0 <= n < 16
  {
    if IsDigit(c) then c as int - '0' as int
    else if 'a' <= c <= 'f' then c as int - 'a' as int + 10
    else if 'A' <= c <= 'F' then c as int - 'A' as int + 10
    else 0
  }

  function HexEncode(bytes: Bytes): (text: Bytes)
    ensures |text| == 2 * |bytes|
  {
    if bytes == "" then ""
    else [HexDigit(bytes[0] as int / 16), HexDigit(bytes[0] as int % 16)] + HexEncode(bytes[1..])
  }

  function HexDecode(text: Bytes): (r: Option<Bytes>)
    ensures r.Some? ==> IsOctets(r.value) && 2 * |r.value| == |text|
  {
    if text == "" then Some("")
    else if |text| == 1 || !IsHexDigit(text[0]) || !IsHexDigit(text[1]) then None
    else
      match HexDecode(text[2..])
      case None => None
      case Some(rest) => Some([(16 * HexValue(text[0]) + HexValue(text[1])) as char] + rest)
  }

  lemma {:induction false} HexRoundTrip(bytes: Bytes)
    requires IsOctets(bytes)
    ensures HexDecode(HexEncode(bytes)) == Some(bytes)
  {
    if bytes != "" {
      HexRoundTrip(bytes[1..]);
      var text := HexEncode(bytes);
      assert text[2..] == HexEncode(bytes[1..]);
      var n := bytes[0] as int;
      assert n < 256 && 16 * (n / 16) + n % 16 == n;
      assert bytes == [bytes[0]] + bytes[1..];
    }
  }

  predicate AllHex(text: Bytes) {
    forall i | 0 <= i < |text| :: IsHexDigit(text[i])
  }

  function Lower(c: char): char {
    if 'A' <= c <= 'F' then (c as int + 32) as char else c
  }

  function LowerText(text: Bytes): (r: Bytes)
    ensures |r| == |text| && forall i | 0 <= i < |text| :: r[i] == Lower(text[i])
  {
    seq(|text|, i requires 0 <= i < |text| => Lower(text[i]))
  }

  /** Decoding accepts exactly the even-length texts of hexadecimal digits of either case. */
  lemma {:induction false} HexDecodable(text: Bytes)
    ensures HexDecode(text).Some? <==> |text| % 2 == 0 && AllHex(text)
  {
    if |text| >= 2 {
      HexDecodable(text[2..]);
      assert forall i | 2 <= i < |text| :: text[i] == text[2..][i - 2];
    }
  }

  lemma DigitPair(c: char, d: char)
    requires IsHexDigit(c) && IsHexDigit(d)
    ensures
      var n := 16 * HexValue(c) + HexValue(d);
      0 <= n < 256 && HexDigit(n / 16) == Lower(c) && HexDigit(n % 16) == Lower(d)
  {
  }

  /** What is decoded is what the lower-case form of the text encodes. */
  lemma {:induction false} HexDecodeExact(text: Bytes)
    requires HexDecode(text).Some?
    ensures HexEncode(HexDecode(text).value) == LowerText(text)
  {
    if |text| >= 2 {
      HexDecodeExact(text[2..]);
      DigitPair(text[0], text[1]);
      var bytes := HexDecode(text).value;
      assert bytes[1..] == HexDecode(text[2..]).value;
      assert LowerText(text) == [Lower(text[0]), Lower(text[1])] + LowerText(text[2..]);
    }
  }

  /** Decoding exactly: the text is hexadecimal, and in lower case it is the encoding. */
  lemma HexDecodes(text: Bytes, bytes: Bytes)
    ensures HexDecode(text) == Some(bytes) <==> IsOctets(bytes) && AllHex(text) && LowerText(text) == HexEncode(bytes)
  {
    HexDecodable(text);
    if HexDecode(text).Some? {
      HexDecodeExact(text);
      HexRoundTrip(HexDecode(text).value);
    }
    if IsOctets(bytes) && AllHex(text) && LowerText(text) == HexEncode(bytes) {
      HexRoundTrip(bytes);
    }
  }
}
