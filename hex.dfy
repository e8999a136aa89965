/**
 * Lower-case hexadecimal strings and their big-endian value.
 *
 * `NatToHex` stands in for the digits of BigNumber's `toHexString()`: the only
 * thing the encoder relies on is that the digits are hex and denote the number.
 */
module Hex {

  /** 16^k */
  function Pow16(k: nat): (p: nat)
    ensures p >= 1
  {
    if k == 0 then 1 else 16 * Pow16(k - 1)
  }

  /** 2^256, the exclusive upper bound of a Solidity `uint256`. */
  const U256_BOUND: nat := 0x1_0000_0000_0000_0000_0000_0000_0000_0000_0000_0000_0000_0000_0000_0000_0000_0000

  predicate IsHexDigit(c: char)
  {
    '0' <= c <= '9' || 'a' <= c <= 'f'
  }

  predicate IsHex(s: string)
  {
    forall i :: 0 <= i < |s| ==> IsHexDigit(s[i])
  }

  function DigitValue(c: char): (v: nat)
    requires IsHexDigit(c)
    ensures v < 16
  {
    if '0' <= c <= '9' then c as int - '0' as int else c as int - 'a' as int + 10
  }

  function Digit(d: nat): (c: char)
    requires d < 16
    ensures IsHexDigit(c) && DigitValue(c) == d
  {
    if d < 10 then ('0' as int + d) as char else ('a' as int + d - 10) as char
  }

  /** The big-endian base-16 value of a hex string (the empty string is 0). */
  function HexValue(s: string): nat
    requires IsHex(s)
  {
    if |s| == 0 then 0 else HexValue(s[..|s| - 1]) * 16 + DigitValue(s[|s| - 1])
  }

  /** The minimal hex rendering of n: no leading zeros, "0" for zero. */
  function NatToHex(n: nat): (h: string)
    ensures |h| >= 1 && IsHex(h) && HexValue(h) == n
  {
    if n < 16 then [Digit(n)]
    else
      var h := NatToHex(n / 16) + [Digit(n % 16)];
      assert h[..|h| - 1] == NatToHex(n / 16);
      h
  }

  /** The model of `new BigNumber(n).toHexString()`: "0x" followed by hex digits denoting n. */
  function ToHexString(n: nat): (s: string)
    ensures |s| >= 3 && s[..2] == "0x" && IsHex(s[2..]) && HexValue(s[2..]) == n
  {
    var s := "0x" + NatToHex(n);
    assert s[2..] == NatToHex(n);
    s
  }

  function Repeat(c: char, k: nat): (s: string)
    ensures |s| == k && forall i :: 0 <= i < k ==> s[i] == c
  {
    seq(k, _ => c)
  }

  lemma {:induction false} Pow16Add(a: nat, b: nat)
    ensures Pow16(a + b) == Pow16(a) * Pow16(b)
  {
    if b > 0 {
      Pow16Add(a, b - 1);
      assert Pow16(a + b) == 16 * Pow16(a + b - 1);
    }
  }

  /** 16^64 is 2^256: a word of 64 hex digits is a `uint256`. */
  lemma Pow16At64()
    ensures Pow16(64) == U256_BOUND
  {
    assert Pow16(4) == 0x1_0000;
    Pow16Add(4, 4);
    Pow16Add(8, 8);
    Pow16Add(16, 16);
    Pow16Add(32, 32);
  }

  /** A hex string of k digits denotes a number below 16^k. */
  lemma {:induction false} HexValueBound(s: string)
    requires IsHex(s)
    ensures HexValue(s) < Pow16(|s|)
  {
    if |s| > 0 {
      HexValueBound(s[..|s| - 1]);
    }
  }

  /** The minimal rendering of n fits in k digits exactly when n < 16^k. */
  lemma {:induction false} NatToHexFits(n: nat, k: nat)
    requires k >= 1
    ensures |NatToHex(n)| <= k <==> n < Pow16(k)
  {
    if n >= 16 {
      var q := n / 16;
      assert n == 16 * q + n % 16;
      assert |NatToHex(n)| == |NatToHex(q)| + 1;
      if k == 1 {
        assert Pow16(1) == 16;
      } else {
        NatToHexFits(q, k - 1);
        assert Pow16(k) == 16 * Pow16(k - 1);
        assert q < Pow16(k - 1) <==> n < 16 * Pow16(k - 1);
      }
    } else {
      assert Pow16(k) >= 16 by { Pow16Add(1, k - 1); }
    }
  }

  /** Leading zeros do not change the value of a hex string. */
  lemma {:induction false} LeadingZeros(k: nat, s: string)
    requires IsHex(s)
    ensures IsHex(Repeat('0', k) + s) && HexValue(Repeat('0', k) + s) == HexValue(s)
  {
    var t := Repeat('0', k) + s;
    if |s| == 0 {
      assert t == Repeat('0', k);
      ZerosValue(k);
    } else {
      LeadingZeros(k, s[..|s| - 1]);
      assert t[..|t| - 1] == Repeat('0', k) + s[..|s| - 1];
    }
  }

  lemma {:induction false} ZerosValue(k: nat)
    ensures IsHex(Repeat('0', k)) && HexValue(Repeat('0', k)) == 0
  {
    if k > 0 {
      ZerosValue(k - 1);
      assert Repeat('0', k)[..k - 1] == Repeat('0', k - 1);
    }
  }

  /** Two hex strings of the same width with the same value are the same string. */
  lemma {:induction false} HexValueInjective(s: string, t: string)
    requires IsHex(s) && IsHex(t) && |s| == |t|
    requires HexValue(s) == HexValue(t)
    ensures s == t
  {
    if |s| > 0 {
      var n := |s| - 1;
      var sn, tn := s[..n], t[..n];
      assert IsHex(sn) && IsHex(tn);
      assert HexValue(s) == HexValue(sn) * 16 + DigitValue(s[n]);
      assert HexValue(t) == HexValue(tn) * 16 + DigitValue(t[n]);
      SplitDigit(HexValue(sn), DigitValue(s[n]), HexValue(tn), DigitValue(t[n]));
      assert s[n] == t[n];
      HexValueInjective(sn, tn);
      assert s == sn + [s[n]] && t == tn + [t[n]];
    }
  }

  /** The last digit and the rest of a base-16 number are determined by its value. */
  lemma SplitDigit(a: nat, d: nat, b: nat, e: nat)
    requires d < 16 && e < 16
    requires a * 16 + d == b * 16 + e
    ensures a == b && d == e
  {
  }
}
