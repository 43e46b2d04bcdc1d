/** Standard base64 with padding (section 4 of RFC 4648), and its unique decoding. */
module Base64 {
  import opened Basics

  function Symbol(n: int): (c: char)
    ensures 0 <= n < 64 ==> Value(c) == n && c != '='
  {
    if 0 <= n < 26 then ('A' as int + n) as char
    else if 26 <= n < 52 then ('a' as int + n - 26) as char
    else if 52 <= n < 62 then ('0' as int + n - 52) as char
    else if n == 62 then '+'
    else '/'
  }

  function Value(c: char): (n: int)
    ensures 0 <= n < 64
  {
    if 'A' <= c <= 'Z' then c as int - 'A' as int
    else if 'a' <= c <= 'z' then c as int - 'a' as int + 26
    else if '0' <= c <= '9' then c as int - '0' as int + 52
    else if c == '+' then 62
    else 63
  }

  /** The standard alphabet: the letters of either case, the digits, and two more. */
  lemma AlphabetExact()
    ensures [Symbol(0), Symbol(25), Symbol(26), Symbol(51), Symbol(52), Symbol(61), Symbol(62), Symbol(63)] == "AZaz09+/"
    ensures forall n | 0 <= n < 61 && n !in {25, 51} :: Symbol(n + 1) as int == Symbol(n) as int + 1
  {
  }

  function Encode(s: Bytes): Bytes {
    if s == "" then ""
    else if |s| == 1 then
      LastOne(s[0] as int)
    else if |s| == 2 then
      LastTwo(s[0] as int, s[1] as int)
    else Group(s[0] as int, s[1] as int, s[2] as int) + Encode(s[3..])
  }

  function LastOne(a: int): Bytes {
    [Symbol(a / 4), Symbol(a % 4 * 16), '=', '=']
  }

  function LastTwo(a: int, b: int): Bytes {
    [Symbol(a / 4), Symbol(a % 4 * 16 + b / 16), Symbol(b % 16 * 4), '=']
  }

  function Group(a: int, b: int, c: int): Bytes {
    [Symbol(a / 4), Symbol(a % 4 * 16 + b / 16), Symbol(b % 16 * 4 + c / 64), Symbol(c % 64)]
  }

  /** Reads groups of four symbols; padding ends the text. */
  function Decode(text: Bytes): Bytes {
    if |text| < 4 then ""
    else
      var p, q := Value(text[0]), Value(text[1]);
      var first := (p * 4 + q / 16) as char;
      if text[2] == '=' then [first]
      else
        var r := Value(text[2]);
        var second := (q % 16 * 16 + r / 4) as char;
        if text[3] == '=' then [first, second]
        else [first, second, (r % 4 * 64 + Value(text[3])) as char] + Decode(text[4..])
  }

  lemma DecodeGroup(p: int, q: int, r: int, t: int, rest: Bytes)
    requires 0 <= p < 64 && 0 <= q < 64 && 0 <= r < 64 && 0 <= t < 64
    ensures Decode([Symbol(p), Symbol(q), Symbol(r), Symbol(t)] + rest) ==
      [(p * 4 + q / 16) as char, (q % 16 * 16 + r / 4) as char, (r % 4 * 64 + t) as char] + Decode(rest)
  {
    var text := [Symbol(p), Symbol(q), Symbol(r), Symbol(t)] + rest;
    assert text[4..] == rest;
  }

  lemma DecodeOne(p: int, q: int, a: int)
    requires 0 <= p < 64 && 0 <= q < 64 && 0 <= a < 256 && p * 4 + q / 16 == a
    ensures Decode([Symbol(p), Symbol(q), '=', '=']) == [a as char]
  {
  }

  lemma DecodeTwo(p: int, q: int, r: int, a: int, b: int)
    requires 0 <= p < 64 && 0 <= q < 64 && 0 <= r < 64 && 0 <= a < 256 && 0 <= b < 256
    requires p * 4 + q / 16 == a && q % 16 * 16 + r / 4 == b
    ensures Decode([Symbol(p), Symbol(q), Symbol(r), '=']) == [a as char, b as char]
  {
  }

  lemma {:induction false} DecodeUndoesEncode(s: Bytes)
    requires IsOctets(s)
    ensures Decode(Encode(s)) == s
  {
    if s == "" {
    } else if |s| <= 2 {
      ShortEncode(s);
    } else {
      LongEncode(s);
      DecodeUndoesEncode(s[3..]);
      assert s == [s[0], s[1], s[2]] + s[3..];
    }
  }

  lemma ShortEncode(s: Bytes)
    requires IsOctets(s) && 1 <= |s| <= 2
    ensures Decode(Encode(s)) == s
  {
    if |s| == 1 {
      LastOneDecodes(s[0] as int);
    } else {
      LastTwoDecodes(s[0] as int, s[1] as int);
    }
  }

  lemma LastOneDecodes(a: int)
    requires 0 <= a < 256
    ensures Decode(LastOne(a)) == [a as char]
  {
    OneOctet(a);
    DecodeOne(a / 4, a % 4 * 16, a);
  }

  lemma LastTwoDecodes(a: int, b: int)
    requires 0 <= a < 256 && 0 <= b < 256
    ensures Decode(LastTwo(a, b)) == [a as char, b as char]
  {
    TwoOctets(a, b);
    DecodeTwo(a / 4, a % 4 * 16 + b / 16, b % 16 * 4, a, b);
  }

  lemma LongEncode(s: Bytes)
    requires IsOctets(s) && |s| >= 3
    ensures Decode(Encode(s)) == [s[0], s[1], s[2]] + Decode(Encode(s[3..]))
  {
    GroupDecodes(s[0] as int, s[1] as int, s[2] as int, Encode(s[3..]));
  }

  lemma GroupDecodes(a: int, b: int, c: int, rest: Bytes)
    requires 0 <= a < 256 && 0 <= b < 256 && 0 <= c < 256
    ensures Decode(Group(a, b, c) + rest) == [a as char, b as char, c as char] + Decode(rest)
  {
    ThreeOctets(a, b, c);
    DecodeSextets(a / 4, a % 4 * 16 + b / 16, b % 16 * 4 + c / 64, c % 64, a, b, c, rest);
  }

  lemma DecodeSextets(p: int, q: int, r: int, t: int, a: int, b: int, c: int, rest: Bytes)
    requires 0 <= p < 64 && 0 <= q < 64 && 0 <= r < 64 && 0 <= t < 64
    requires 0 <= a < 256 && 0 <= b < 256 && 0 <= c < 256
    requires p * 4 + q / 16 == a && q % 16 * 16 + r / 4 == b && r % 4 * 64 + t == c
    ensures Decode([Symbol(p), Symbol(q), Symbol(r), Symbol(t)] + rest) == [a as char, b as char, c as char] + Decode(rest)
  {
    DecodeGroup(p, q, r, t, rest);
  }

  lemma OneOctet(a: int)
    requires 0 <= a < 256
    ensures 0 <= a / 4 < 64 && 0 <= a % 4 * 16 < 64
    ensures a / 4 * 4 + a % 4 * 16 / 16 == a
  {
  }

  lemma TwoOctets(a: int, b: int)
    requires 0 <= a < 256 && 0 <= b < 256
    ensures
      var p, q, r := a / 4, a % 4 * 16 + b / 16, b % 16 * 4;
      && 0 <= p < 64 && 0 <= q < 64 && 0 <= r < 64
      && p * 4 + q / 16 == a && q % 16 * 16 + r / 4 == b
  {
  }

  lemma ThreeOctets(a: int, b: int, c: int)
    requires 0 <= a < 256 && 0 <= b < 256 && 0 <= c < 256
    ensures
      var p, q, r, t := a / 4, a % 4 * 16 + b / 16, b % 16 * 4 + c / 64, c % 64;
      && 0 <= p < 64 && 0 <= q < 64 && 0 <= r < 64 && 0 <= t < 64
      && p * 4 + q / 16 == a && q % 16 * 16 + r / 4 == b && r % 4 * 64 + t == c
  {
  }

  /** One text for each octet string, and one octet string for each text that is an encoding. */
  lemma EncodeInjective(s: Bytes, t: Bytes)
    requires IsOctets(s) && IsOctets(t)
    ensures Encode(s) == Encode(t) <==> s == t
  {
    DecodeUndoesEncode(s);
    DecodeUndoesEncode(t);
  }
}
