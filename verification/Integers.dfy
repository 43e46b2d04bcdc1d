/** Unsigned integers written on a fixed number of octets, most significant first. */
module Integers {
  import opened Basics

  function Power256(k: nat): nat {
    if k == 0 then 1 else 256 * Power256(k - 1)
  }

  /** The low `k` octets of `n`, most significant first. */
  function BigEndian(n: nat, k: nat): (s: Bytes)
    ensures |s| == k
  {
    if k == 0 then "" else BigEndian(n / 256, k - 1) + [(n % 256) as char]
  }

  function BigEndianValue(s: Bytes): nat {
    if s == "" then 0 else 256 * BigEndianValue(s[..|s| - 1]) + s[|s| - 1] as int
  }

  lemma {:induction false} BigEndianRoundTrip(n: nat, k: nat)
    requires n < Power256(k)
    ensures BigEndianValue(BigEndian(n, k)) == n
  {
    if k > 0 {
      BigEndianRoundTrip(n / 256, k - 1);
      assert BigEndian(n, k)[..k - 1] == BigEndian(n / 256, k - 1);
    }
  }

  lemma {:induction false} BigEndianBound(s: Bytes)
    requires IsOctets(s)
    ensures BigEndianValue(s) < Power256(|s|)
  {
    if s != "" {
      var n := |s| - 1;
      assert s[n] as int < 256;
      BigEndianBound(s[..n]);
    }
  }

  /** Every octet string is the writing of its value: the two are inverse bijections. */
  lemma {:induction false} BigEndianOfValue(s: Bytes)
    requires IsOctets(s)
    ensures BigEndian(BigEndianValue(s), |s|) == s
  {
    if s != "" {
      var n := |s| - 1;
      assert s[n] as int < 256;
      BigEndianOfValue(s[..n]);
      var v := BigEndianValue(s);
      assert v / 256 == BigEndianValue(s[..n]) && v % 256 == s[n] as int;
      assert s == s[..n] + [s[n]];
    }
  }
}
