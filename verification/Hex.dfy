/** Hexadecimal formatting of unsigned numbers, and its reader. */
module Hex {
  predicate IsHexDigit(c: char) {
    '0' <= c <= '9' || 'A' <= c <= 'F' || 'a' <= c <= 'f'
  }

  function DigitValue(c: char): (v: nat)
    requires IsHexDigit(c)
    ensures v < 16
  {
    if '0' <= c <= '9' then c as nat - '0' as nat
    else if 'A' <= c <= 'F' then c as nat - 'A' as nat + 10
    else c as nat - 'a' as nat + 10
  }

  predicate IsUpperHex(c: char) { '0' <= c <= '9' || 'A' <= c <= 'F' }

  function Digit(v: nat): (c: char)
    requires v < 16
    ensures IsHexDigit(c) && DigitValue(c) == v && IsUpperHex(c)
  {
    if v < 10 then ('0' as nat + v) as char else ('A' as nat + v - 10) as char
  }

  /** "%X": upper case, no padding. */
  function FormatHexInt(n: nat): (s: string)
    ensures s != [] && forall k | 0 <= k < |s| :: IsHexDigit(s[k]) && IsUpperHex(s[k])
    ensures s[0] == '0' <==> n == 0
  {
    if n < 16 then [Digit(n)] else FormatHexInt(n / 16) + [Digit(n % 16)]
  }

  /** "%02X" of a byte. */
  function FormatByte(n: nat): (s: string)
    requires n < 256
    ensures |s| == 2 && forall k | 0 <= k < |s| :: IsHexDigit(s[k]) && IsUpperHex(s[k])
  {
    [Digit(n / 16), Digit(n % 16)]
  }

  function HexValue(s: string): nat
    requires forall k | 0 <= k < |s| :: IsHexDigit(s[k])
  {
    if s == [] then 0 else 16 * HexValue(s[..|s| - 1]) + DigitValue(s[|s| - 1])
  }

  lemma {:induction false} FormattedValue(n: nat)
    ensures HexValue(FormatHexInt(n)) == n
  {
    if n < 16 {
      assert HexValue([Digit(n)][..0]) == 0;
    } else {
      FormattedValue(n / 16);
      var s := FormatHexInt(n / 16);
      assert (s + [Digit(n % 16)])[..|s|] == s;
    }
  }

  lemma FormattedByteValue(n: nat)
    requires n < 256
    ensures HexValue(FormatByte(n)) == n
  {
    var s := FormatByte(n);
    assert s[..1] == [s[0]] && s[..1][..0] == [];
    assert HexValue(s[..1]) == DigitValue(s[0]);
  }

  /** How many characters the greedy hexadecimal number at the head of s has. */
  function HexRun(s: string): (n: nat)
    ensures n <= |s| && forall k | 0 <= k < n :: IsHexDigit(s[k])
    ensures n < |s| ==> !IsHexDigit(s[n])
  {
    if s == [] || !IsHexDigit(s[0]) then 0 else 1 + HexRun(s[1..])
  }

  lemma {:induction false} HexRunOf(digits: string, rest: string)
    requires forall k | 0 <= k < |digits| :: IsHexDigit(digits[k])
    requires rest == [] || !IsHexDigit(rest[0])
    ensures HexRun(digits + rest) == |digits|
  {
    if digits == [] {
      assert digits + rest == rest;
    } else {
      HexRunOf(digits[1..], rest);
      assert (digits + rest)[1..] == digits[1..] + rest;
    }
  }
}
