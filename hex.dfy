/**
 * GenerateKeypair.toHex: "0x" followed by BigInteger.toString(16) of a
 * non-negative value, and the base-16 parse that inverts it.
 */
module Hex {

  predicate IsHexDigit(c: char)
  {
    '0' <= c <= '9' || 'a' <= c <= 'f'
  }

  /** The lowercase digit Character.forDigit gives for v in radix 16. */
  function DigitChar(v: nat): (c: char)
    requires v < 16
    ensures IsHexDigit(c) && DigitValue(c) == v
  {
    if v < 10 then ('0' as int + v) as char else ('a' as int + v - 10) as char
  }

  function DigitValue(c: char): (v: nat)
    requires IsHexDigit(c)
    ensures v < 16
  {
    if c <= '9' then c as int - '0' as int else c as int - 'a' as int + 10
  }

  /** A digit string as BigInteger.toString(16) writes one: non-empty, no leading zero unless it is "0". */
  predicate IsCanonical(s: string)
  {
    |s| >= 1 && (forall i :: 0 <= i < |s| ==> IsHexDigit(s[i])) && (s[0] == '0' ==> |s| == 1)
  }

  /** The value of a string of hex digits, most significant first. */
  function ParseHex(s: string): nat
    requires forall i :: 0 <= i < |s| ==> IsHexDigit(s[i])
  {
    if s == [] then 0 else 16 * ParseHex(s[..|s| - 1]) + DigitValue(s[|s| - 1])
  }

  /** BigInteger.toString(16) for x >= 0: canonical digits that parse back to x. */
  function Digits(x: nat): (s: string)
    ensures IsCanonical(s)
    ensures ParseHex(s) == x
    ensures s[0] == '0' <==> x == 0
  {
    if x < 16 then [DigitChar(x)]
    else
      var init := Digits(x / 16);
      var s := init + [DigitChar(x % 16)];
      assert s[..|s| - 1] == init;
      s
  }

  /** "0x" + bi.toString(16): only hex digits after the prefix, no padding, and the digits parse back to x. */
  function ToHex(x: nat): (s: string)
    ensures |s| >= 3 && s[..2] == "0x"
    ensures forall i :: 2 <= i < |s| ==> IsHexDigit(s[i])
    ensures s[2] == '0' <==> x == 0
    ensures x == 0 ==> s == "0x0"
    ensures ParseHex(s[2..]) == x
  {
    var digits := Digits(x);
    assert ("0x" + digits)[2..] == digits;
    "0x" + digits
  }

  lemma {:induction false} LeadingDigitPositive(s: string)
    requires |s| >= 1 && (forall i :: 0 <= i < |s| ==> IsHexDigit(s[i])) && s[0] != '0'
    ensures ParseHex(s) > 0
    decreases |s|
  {
    if |s| > 1 {
      LeadingDigitPositive(s[..|s| - 1]);
    }
  }

  /** The other half of the round trip: every canonical digit string is the rendering of its value. */
  lemma {:induction false} DigitsOfParse(s: string)
    requires IsCanonical(s)
    ensures Digits(ParseHex(s)) == s
    decreases |s|
  {
    if |s| > 1 {
      var init := s[..|s| - 1];
      LeadingDigitPositive(init);
      DigitsOfParse(init);
      var x := ParseHex(s);
      DivMod16(x, ParseHex(init), DigitValue(s[|s| - 1]));
    }
  }

  lemma DivMod16(x: int, hi: int, lo: int)
    requires x == 16 * hi + lo && 0 <= lo < 16
    ensures x / 16 == hi && x % 16 == lo
  {
  }
}
