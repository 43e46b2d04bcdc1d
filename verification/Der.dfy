/** Unwrapping the DER octet string around an elliptic-curve point. */
module Der {
  import opened Basics
  import opened Integers

  const OCTET_STRING_TAG: char := 0x04 as char

  /** How the length is written (section 8.1.3 of ITU-T X.690): in one octet below 128, or
      on 1 to 4 octets after an octet that counts them. */
  datatype LengthForm = Short | Long(octets: nat)

  predicate Fits(content: Bytes, form: LengthForm) {
    match form
    case Short => |content| < 128
    case Long(k) => 1 <= k <= 4 && |content| < Power256(k)
  }

  function Header(length: nat, form: LengthForm): Bytes
    requires form.Long? ==> form.octets <= 4
    requires form.Short? ==> length < 128
  {
    match form
    case Short => [OCTET_STRING_TAG, length as char]
    case Long(k) => [OCTET_STRING_TAG, (128 + k) as char] + BigEndian(length, k)
  }

  function Encode(content: Bytes, form: LengthForm): Bytes
    requires Fits(content, form)
  {
    Header(|content|, form) + content
  }

  /** `der` starts with an encoding of `content`; whatever follows is ignored, as the
      original does. */
  predicate EncodesAs(der: Bytes, content: Bytes, form: LengthForm) {
    Fits(content, form) && Encode(content, form) <= der
  }

  ghost predicate Encodes(der: Bytes, content: Bytes) {
    exists form :: EncodesAs(der, content, form)
  }

  lemma ShortDecodes(der: Bytes, content: Bytes)
    requires EncodesAs(der, content, Short)
    ensures |der| >= 2 + |content| && der[0] == OCTET_STRING_TAG && der[1] as int == |content|
    ensures der[2..2 + |content|] == content
  {
  }

  lemma LongDecodes(der: Bytes, content: Bytes, k: nat)
    requires EncodesAs(der, content, Long(k))
    ensures |der| >= 2 + k + |content| && der[0] == OCTET_STRING_TAG && der[1] as int == 128 + k
    ensures BigEndianValue(der[2..2 + k]) == |content|
    ensures der[2 + k..2 + k + |content|] == content
  {
    var length := BigEndian(|content|, k);
    var header := Header(|content|, Long(k));
    assert header == [OCTET_STRING_TAG, (128 + k) as char] + length;
    var whole := header + content;
    assert whole <= der;
    assert header[2..] == length && |header| == 2 + k;
    assert whole[2..2 + k] == length && whole[2 + k..] == content;
    assert der[2..2 + k] == whole[2..2 + k];
    assert der[2 + k..2 + k + |content|] == whole[2 + k..];
    assert der[0] == whole[0] && der[1] == whole[1];
    BigEndianRoundTrip(|content|, k);
  }

  lemma ShortEncodes(der: Bytes)
    requires |der| >= 2 && der[0] == OCTET_STRING_TAG && der[1] as int < 128 && |der| >= 2 + der[1] as int
    ensures EncodesAs(der, der[2..2 + der[1] as int], Short)
  {
  }

  lemma LongEncodes(der: Octets, k: nat, n: nat)
    requires |der| >= 2 + k && der[0] == OCTET_STRING_TAG && der[1] as int == 128 + k && 1 <= k <= 4
    requires n == BigEndianValue(der[2..2 + k]) && |der| >= 2 + k + n
    ensures EncodesAs(der, der[2 + k..2 + k + n], Long(k))
  {
    var length := der[2..2 + k];
    BigEndianBound(length);
    BigEndianOfValue(length);
    var content := der[2 + k..2 + k + n];
    assert der[..2 + k + n] == [OCTET_STRING_TAG, (128 + k) as char] + length + content;
  }

  /** The decoder returns a content exactly when the input starts with an encoding of it,
      minimal or not, and refuses every other input; no index is ever out of bounds. */
  method DecodeEcPoint(der: Octets) returns (r: Option<Bytes>)
    ensures forall content :: Encodes(der, content) <==> r == Some(content)
  {
    if |der| < 2 || der[0] != OCTET_STRING_TAG { return None; }
    var contentStart := 2;
    var length := der[1] as int;
    if length >= 128 {
      var lengthBytes := length % 128;
      if lengthBytes == 0 || lengthBytes > 4 || |der| < 2 + lengthBytes {
        NoEncoding(der);
        return None;
      }
      length := 0;
      for i := 0 to lengthBytes
        invariant length == BigEndianValue(der[2..2 + i])
      {
        assert der[2..2 + (i + 1)][..i] == der[2..2 + i];
        length := 256 * length + der[2 + i] as int;
      }
      contentStart := 2 + lengthBytes;
    }
    if contentStart + length > |der| {
      TooShort(der, contentStart, length);
      return None;
    }
    r := Some(der[contentStart..contentStart + length]);
    Found(der, contentStart, length);
  }

  /** How the two header octets and the length octets place the content. */
  predicate Placed(der: Octets, start: nat, length: nat) {
    && |der| >= 2 && der[0] == OCTET_STRING_TAG
    && if der[1] as int < 128
       then start == 2 && length == der[1] as int
       else 3 <= start <= 6 && start <= |der| && der[1] as int == 126 + start && length == BigEndianValue(der[2..start])
  }

  /** An uncompressed point of 65 octets (section 2.3.3 of SEC 1) under its usual header. */
  lemma PointEncodes(point: Bytes, tail: Bytes)
    requires |point| == 65
    ensures Encodes([4 as char, 65 as char] + point + tail, point)
  {
    assert Encode(point, Short) == [4 as char, 65 as char] + point;
    assert EncodesAs([4 as char, 65 as char] + point + tail, point, Short);
  }

  lemma NoEncoding(der: Octets)
    requires |der| >= 2 && der[1] as int >= 128
    requires var k := der[1] as int % 128; k == 0 || k > 4 || |der| < 2 + k
    ensures forall content :: !Encodes(der, content)
  {
  }

  lemma PlacedUnique(der: Octets, start: nat, length: nat, content: Bytes)
    requires Placed(der, start, length) && Encodes(der, content)
    ensures start + length <= |der| && content == der[start..start + length]
  {
    var form :| EncodesAs(der, content, form);
    if form.Short? { ShortDecodes(der, content); } else { LongDecodes(der, content, form.octets); }
  }

  lemma TooShort(der: Octets, start: nat, length: nat)
    requires Placed(der, start, length) && start + length > |der|
    ensures forall content :: !Encodes(der, content)
  {
    forall content | Encodes(der, content)
      ensures false
    {
      PlacedUnique(der, start, length, content);
    }
  }

  lemma Found(der: Octets, start: nat, length: nat)
    requires Placed(der, start, length) && start + length <= |der|
    ensures forall content :: Encodes(der, content) <==> content == der[start..start + length]
  {
    if der[1] as int < 128 {
      ShortEncodes(der);
    } else {
      LongEncodes(der, start - 2, length);
    }
    forall content | Encodes(der, content)
      ensures content == der[start..start + length]
    {
      PlacedUnique(der, start, length, content);
    }
  }

  /** Whatever follows an encoding is ignored: the content is decoded all the same. */
  lemma TailIsIgnored(content: Bytes, form: LengthForm, tail: Bytes)
    requires Fits(content, form) && IsOctets(Encode(content, form) + tail)
    ensures forall x :: Encodes(Encode(content, form) + tail, x) <==> x == content
  {
    var der := Encode(content, form) + tail;
    assert EncodesAs(der, content, form);
    forall x | Encodes(der, x)
      ensures x == content
    {
      EncodedOnce(der, x, content);
    }
  }

  lemma PlaceOf(der: Octets, content: Bytes) returns (start: nat)
    requires Encodes(der, content)
    ensures Placed(der, start, |content|) && start + |content| <= |der| && content == der[start..start + |content|]
  {
    var form :| EncodesAs(der, content, form);
    if form.Short? {
      ShortDecodes(der, content);
      start := 2;
    } else {
      LongDecodes(der, content, form.octets);
      start := 2 + form.octets;
    }
  }

  /** No input encodes two contents, in whatever forms. */
  lemma EncodedOnce(der: Octets, a: Bytes, b: Bytes)
    requires Encodes(der, a) && Encodes(der, b)
    ensures a == b
  {
    var start := PlaceOf(der, a);
    PlacedUnique(der, start, |a|, b);
  }
}
