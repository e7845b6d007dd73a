/** Wide strings to UTF-8. Code units and octets are 32-bit words; every octet fits in a char. */
module Utf {
  import opened Hex

  const MAX_CODE_POINT_1: bv32 := 0x7F
  const MAX_CODE_POINT_2: bv32 := 0x7FF
  const MAX_CODE_POINT_3: bv32 := 0xFFFF
  const MAX_CODE_POINT_4: bv32 := 0x1F_FFFF

  function Low6(x: bv32): bv32 { x & 0x3F }
  function Mark(bits: bv32, x: bv32): bv32 { bits | x }
  function Tail(x: bv32): bv32 { Mark(0x80, Low6(x)) }
  function Shift6(x: bv32): bv32 { x >> 6 }

  /** The encoding of a code point of up to 21 bits. */
  function Encode(cp: bv32): (s: seq<bv32>)
    requires cp <= MAX_CODE_POINT_4
  {
    if cp <= MAX_CODE_POINT_1 then [cp]
    else
      var cp6 := Shift6(cp);
      if cp <= MAX_CODE_POINT_2 then [Mark(0xC0, cp6), Tail(cp)]
      else
        var cp12 := Shift6(cp6);
        if cp <= MAX_CODE_POINT_3 then [Mark(0xE0, cp12), Tail(cp6), Tail(cp)]
        else [Mark(0xF0, Shift6(cp12)), Tail(cp12), Tail(cp6), Tail(cp)]
  }

  // ----- The layout of one to four octets, and the standard -----

  /** The fixed high bits of each octet. */
  predicate IsTail(b: bv32) { b <= 0xFF && b & 0xC0 == 0x80 }
  predicate IsLead2(a: bv32) { a <= 0xFF && a & 0xE0 == 0xC0 }
  predicate IsLead3(a: bv32) { a <= 0xFF && a & 0xF0 == 0xE0 }
  predicate IsLead4(a: bv32) { a <= 0xFF && a & 0xF8 == 0xF0 }

  /** The value in the remaining bits of the octets. */
  function Value2(a: bv32, b: bv32): bv32 { ((a & 0x1F) << 6) | (b & 0x3F) }
  function Value3(a: bv32, b: bv32, c: bv32): bv32 { ((a & 0x0F) << 12) | ((b & 0x3F) << 6) | (c & 0x3F) }
  function Value4(a: bv32, b: bv32, c: bv32, d: bv32): bv32 {
    ((a & 0x07) << 18) | ((b & 0x3F) << 12) | ((c & 0x3F) << 6) | (d & 0x3F)
  }

  /** The octets the layout gives a code point of up to 21 bits, in the shortest form. */
  predicate HasLayout(cp: bv32, s: seq<bv32>) {
    || (cp <= 0x7F && s == [cp])
    || (0x80 <= cp <= 0x7FF && |s| == 2 && IsLead2(s[0]) && IsTail(s[1]) && cp == Value2(s[0], s[1]))
    || (0x800 <= cp <= 0xFFFF && |s| == 3 && IsLead3(s[0]) && IsTail(s[1]) && IsTail(s[2])
        && cp == Value3(s[0], s[1], s[2]))
    || (0x1_0000 <= cp <= 0x1F_FFFF && |s| == 4 && IsLead4(s[0]) && IsTail(s[1]) && IsTail(s[2]) && IsTail(s[3])
        && cp == Value4(s[0], s[1], s[2], s[3]))
  }

  predicate IsSurrogate(cp: bv32) { 0xD800 <= cp <= 0xDFFF }

  /** The code points that may be encoded: up to U+10FFFF, the surrogates excepted. */
  predicate IsScalar(cp: bv32) { cp <= 0x10_FFFF && !IsSurrogate(cp) }

  /** Section 3 of RFC 3629: the rows of its table, which end at U+10FFFF, and its prohibition of surrogates. */
  predicate IsRfc3629(cp: bv32, s: seq<bv32>) {
    || (cp <= 0x7F && s == [cp])
    || (0x80 <= cp <= 0x7FF && |s| == 2 && IsLead2(s[0]) && IsTail(s[1]) && cp == Value2(s[0], s[1]))
    || (0x800 <= cp <= 0xFFFF && !IsSurrogate(cp) && |s| == 3 && IsLead3(s[0]) && IsTail(s[1]) && IsTail(s[2])
        && cp == Value3(s[0], s[1], s[2]))
    || (0x1_0000 <= cp <= 0x10_FFFF && |s| == 4 && IsLead4(s[0]) && IsTail(s[1]) && IsTail(s[2]) && IsTail(s[3])
        && cp == Value4(s[0], s[1], s[2], s[3]))
  }

  lemma TailExact(b: bv32, x: bv32)
    ensures IsTail(b) && Low6(b) == Low6(x) <==> b == Tail(x)
  {
  }

  lemma Compose2(cp: bv32)
    requires cp <= 0x7FF
    ensures var a := Mark(0xC0, Shift6(cp)); IsLead2(a) && cp == Value2(a, Low6(cp))
  {
  }

  lemma Compose3(cp: bv32)
    requires cp <= 0xFFFF
    ensures var a := Mark(0xE0, Shift6(Shift6(cp))); IsLead3(a) && cp == Value3(a, Low6(Shift6(cp)), Low6(cp))
  {
  }

  lemma Compose4(cp: bv32)
    requires cp <= 0x1F_FFFF
    ensures var a := Mark(0xF0, Shift6(Shift6(Shift6(cp))));
            IsLead4(a) && cp == Value4(a, Low6(Shift6(Shift6(cp))), Low6(Shift6(cp)), Low6(cp))
  {
  }

  lemma ValueOfLow(a: bv32, b: bv32, c: bv32, d: bv32)
    ensures Value2(a, b) == Value2(a, Low6(b)) && Value3(a, b, c) == Value3(a, Low6(b), Low6(c))
    ensures Value4(a, b, c, d) == Value4(a, Low6(b), Low6(c), Low6(d))
  {
  }

  lemma Decompose2(a: bv32, b: bv32)
    requires IsLead2(a)
    ensures var cp := Value2(a, b); Mark(0xC0, Shift6(cp)) == a && Low6(cp) == Low6(b)
  {
  }

  lemma Decompose3(a: bv32, b: bv32, c: bv32)
    requires IsLead3(a)
    ensures var cp := Value3(a, b, c);
            Mark(0xE0, Shift6(Shift6(cp))) == a && Low6(Shift6(cp)) == Low6(b) && Low6(cp) == Low6(c)
  {
  }

  lemma Decompose4(a: bv32, b: bv32, c: bv32, d: bv32)
    requires IsLead4(a)
    ensures var cp := Value4(a, b, c, d);
            && Mark(0xF0, Shift6(Shift6(Shift6(cp)))) == a
            && Low6(Shift6(Shift6(cp))) == Low6(b) && Low6(Shift6(cp)) == Low6(c) && Low6(cp) == Low6(d)
  {
  }

  /** The octets are exactly those of the layout, and no other octets have it. */
  lemma EncodeHasLayout(cp: bv32, s: seq<bv32>)
    ensures HasLayout(cp, s) <==> cp <= MAX_CODE_POINT_4 && s == Encode(cp)
  {
    if HasLayout(cp, s) {
      LayoutUnique(cp, s);
    }
    if cp <= MAX_CODE_POINT_4 {
      EncodeMeetsLayout(cp);
    }
  }

  /** The octets of a scalar value are exactly those the standard prescribes; it prescribes none for other values. */
  lemma EncodeIsRfc3629(cp: bv32, s: seq<bv32>)
    ensures IsRfc3629(cp, s) <==> IsScalar(cp) && s == Encode(cp)
  {
    hide IsTail, IsLead2, IsLead3, IsLead4, Value2, Value3, Value4, Encode;
    EncodeHasLayout(cp, s);
  }

  /** The encoder meets the standard exactly on the scalar values; it writes octets for other values as well. */
  lemma EncoderConforms(cp: bv32)
    requires cp <= MAX_CODE_POINT_4
    ensures IsRfc3629(cp, Encode(cp)) <==> IsScalar(cp)
    ensures !IsScalar(cp) ==> Encode(cp) != [] && forall s :: !IsRfc3629(cp, s)
  {
    forall s ensures IsRfc3629(cp, s) <==> IsScalar(cp) && s == Encode(cp) {
      EncodeIsRfc3629(cp, s);
    }
  }

  /** A surrogate and a value above U+10FFFF with the octets written for them. */
  lemma NonScalarExamples()
    ensures Encode(0xD800) == [0xED, 0xA0, 0x80] && forall s :: !IsRfc3629(0xD800, s)
    ensures Encode(0x11_0000) == [0xF4, 0x90, 0x80, 0x80] && forall s :: !IsRfc3629(0x11_0000, s)
  {
    EncoderConforms(0xD800);
    EncoderConforms(0x11_0000);
  }

  lemma LayoutUnique(cp: bv32, s: seq<bv32>)
    requires HasLayout(cp, s)
    ensures cp <= MAX_CODE_POINT_4 && s == Encode(cp)
  {
    hide IsTail, IsLead2, IsLead3, IsLead4, Value2, Value3, Value4, Mark, Low6, Shift6, Tail;
    if |s| == 2 {
      Decompose2(s[0], s[1]);
      TailExact(s[1], cp);
    } else if |s| == 3 {
      Decompose3(s[0], s[1], s[2]);
      TailExact(s[1], Shift6(cp));
      TailExact(s[2], cp);
    } else if |s| == 4 {
      Decompose4(s[0], s[1], s[2], s[3]);
      TailExact(s[1], Shift6(Shift6(cp)));
      TailExact(s[2], Shift6(cp));
      TailExact(s[3], cp);
    }
  }

  lemma EncodeMeetsLayout(cp: bv32)
    requires cp <= MAX_CODE_POINT_4
    ensures HasLayout(cp, Encode(cp))
  {
    hide IsTail, IsLead2, IsLead3, IsLead4, Value2, Value3, Value4, Mark, Low6, Shift6, Tail;
    if cp <= 0x7FF { Compose2(cp); }
    if cp <= 0xFFFF { Compose3(cp); }
    Compose4(cp);
    var x6, x12 := Shift6(cp), Shift6(Shift6(cp));
    TailExact(Tail(cp), cp);
    TailExact(Tail(x6), x6);
    TailExact(Tail(x12), x12);
    ValueOfLow(Mark(0xC0, x6), Tail(cp), cp, cp);
    ValueOfLow(Mark(0xE0, x12), Tail(x6), Tail(cp), cp);
    ValueOfLow(Mark(0xF0, Shift6(x12)), Tail(x12), Tail(x6), Tail(cp));
  }

  // ----- Reading UTF-8 back -----

  datatype Decoded = Malformed | CodePoints(cps: seq<bv32>)

  function Cons(cp: bv32, rest: Decoded): Decoded {
    if rest.Malformed? then Malformed else CodePoints([cp] + rest.cps)
  }

  /** How many octets the sequence with this first octet has; 0 for none. */
  function SequenceLength(a: bv32): (n: nat)
    ensures n <= 4
  {
    if a <= 0x7F then 1 else if IsLead2(a) then 2 else if IsLead3(a) then 3 else if IsLead4(a) then 4 else 0
  }

  function SequenceValue(s: seq<bv32>): bv32
    requires 1 <= |s| <= 4
  {
    if |s| == 1 then s[0] else if |s| == 2 then Value2(s[0], s[1])
    else if |s| == 3 then Value3(s[0], s[1], s[2]) else Value4(s[0], s[1], s[2], s[3])
  }

  /** Reads the layout; a strict reader refuses what the standard does not allow. */
  function Decode(s: seq<bv32>, strict: bool): Decoded {
    if s == [] then CodePoints([])
    else
      var n := SequenceLength(s[0]);
      if n == 0 || n > |s| then Malformed
      else if !(if strict then IsRfc3629(SequenceValue(s[..n]), s[..n]) else HasLayout(SequenceValue(s[..n]), s[..n]))
      then Malformed
      else Cons(SequenceValue(s[..n]), Decode(s[n..], strict))
  }

  predicate AllBelow(cps: seq<bv32>) {
    forall k | 0 <= k < |cps| :: cps[k] <= MAX_CODE_POINT_4
  }

  predicate AllScalar(cps: seq<bv32>) {
    forall k | 0 <= k < |cps| :: IsScalar(cps[k])
  }

  function EncodeAll(cps: seq<bv32>): seq<bv32>
    requires AllBelow(cps)
  {
    if cps == [] then [] else Encode(cps[0]) + EncodeAll(cps[1..])
  }

  lemma LeadsDistinct(a: bv32)
    ensures IsLead2(a) ==> a > 0x7F
    ensures IsLead3(a) ==> a > 0x7F && !IsLead2(a)
    ensures IsLead4(a) ==> a > 0x7F && !IsLead2(a) && !IsLead3(a)
  {
  }

  lemma SequenceOf(cp: bv32, s: seq<bv32>)
    requires HasLayout(cp, s)
    ensures s != [] && SequenceLength(s[0]) == |s| && SequenceValue(s) == cp
  {
    hide IsTail, IsLead2, IsLead3, IsLead4, Value2, Value3, Value4;
    LeadsDistinct(s[0]);
  }

  lemma DecodeHead(cp: bv32, rest: seq<bv32>, strict: bool)
    requires cp <= MAX_CODE_POINT_4
    ensures Decode(Encode(cp) + rest, strict) ==
            if strict && !IsScalar(cp) then Malformed else Cons(cp, Decode(rest, strict))
  {
    var s := Encode(cp);
    EncodeHasLayout(cp, s);
    EncodeIsRfc3629(cp, s);
    SequenceOf(cp, s);
    hide HasLayout, IsRfc3629, IsScalar, SequenceLength, SequenceValue, Encode;
    assert (s + rest)[..|s|] == s && (s + rest)[|s|..] == rest;
  }

  /** The concatenated encodings of any code points of up to 21 bits decode back to them; a reader
      of the standard accepts them exactly when all of them are scalar values. */
  lemma {:induction false} EncodingRoundTrip(cps: seq<bv32>, strict: bool)
    requires AllBelow(cps)
    ensures Decode(EncodeAll(cps), strict) == if strict && !AllScalar(cps) then Malformed else CodePoints(cps)
  {
    hide Decode, Encode, IsScalar;
    if cps == [] {
      DecodeNone(strict);
    } else {
      EncodingRoundTrip(cps[1..], strict);
      DecodeHead(cps[0], EncodeAll(cps[1..]), strict);
      assert cps == [cps[0]] + cps[1..];
      assert AllScalar(cps) <==> IsScalar(cps[0]) && AllScalar(cps[1..]);
    }
  }

  lemma DecodeNone(strict: bool)
    ensures Decode([], strict) == CodePoints([])
  {
  }

  // ----- Converting one code point -----

  /** The n lowest bits, and the other bits moved down by n. */
  function LowBits(bits: bv32, n: bv6): bv32
    requires n < 32
  {
    bits & (((1 as bv32) << n) - 1)
  }

  function HighBits(bits: bv32, n: bv6): bv32
    requires n < 32
  {
    bits >> n
  }

  /** The bits are those of low, which fit in n bits, below those of rest. */
  predicate Splits(bits: bv32, n: bv6, low: bv32, rest: bv32)
    requires n < 32
  {
    low < (1 as bv32) << n && (rest << n) | low == bits
  }

  lemma LowBitsFit(bits: bv32, n: bv6)
    requires n < 32
    ensures LowBits(bits, n) < (1 as bv32) << n
  {
  }

  lemma BitsRejoin(bits: bv32, n: bv6)
    requires n < 32
    ensures (HighBits(bits, n) << n) | LowBits(bits, n) == bits
  {
  }

  lemma BitsSplit(bits: bv32, n: bv6)
    requires n < 32
    ensures Splits(bits, n, LowBits(bits, n), HighBits(bits, n))
  {
    hide LowBits, HighBits;
    LowBitsFit(bits, n);
    BitsRejoin(bits, n);
  }

  lemma SixBits(bits: bv32)
    ensures LowBits(bits, 6) == Low6(bits) && HighBits(bits, 6) == Shift6(bits)
    ensures Mark(0x80, LowBits(bits, 6)) == Tail(bits)
  {
  }

  /** Splits off the n lowest bits; rest is the bit pattern after the shift. */
  method ChopLowBits(bits: bv32, n: bv6) returns (low: bv32, rest: bv32)
    requires n < 32
    ensures Splits(bits, n, low, rest)
    ensures n == 6 ==> low == Low6(bits) && rest == Shift6(bits) && Mark(0x80, low) == Tail(bits)
  {
    hide Low6, Shift6, Mark, Tail, Splits;
    low := LowBits(bits, n);
    rest := HighBits(bits, n);
    BitsSplit(bits, n);
    SixBits(bits);
  }

  function Octets(text: string): seq<bv32> {
    seq(|text|, i requires 0 <= i < |text| => if text[i] as int < 256 then text[i] as int as bv32 else 0)
  }

  /** The octets before the first NUL. */
  function UntilNul(s: seq<bv32>): seq<bv32> {
    if s == [] || s[0] == 0 then [] else [s[0]] + UntilNul(s[1..])
  }

  /** The notice for an invalid code point. */
  function Notice(cp: bv32): seq<bv32> { Octets("(Invalid Unicode 0x" + FormatHexInt(cp as nat) + ")") }

  /** The notice carries the code point as an upper-case hexadecimal number without leading zeros. */
  lemma NoticeReads(cp: bv32) returns (digits: string)
    ensures digits != "" && forall k | 0 <= k < |digits| :: IsHexDigit(digits[k]) && !('a' <= digits[k] <= 'f')
    ensures HexValue(digits) == cp as nat && (digits[0] == '0' <==> cp == 0)
    ensures Notice(cp) == Octets("(Invalid Unicode 0x" + digits + ")")
  {
    digits := FormatHexInt(cp as nat);
    FormattedValue(cp as nat);
  }

  /** What is written for a code point, which is nothing for a NUL. */
  function Utf8Text(cp: bv32): seq<bv32> {
    if cp > MAX_CODE_POINT_4 then Notice(cp)
    else if cp == 0 then []
    else Encode(cp)
  }

  lemma OctetsNonzero(cp: bv32)
    ensures (cp | 0x80) != 0 && Tail(cp) != 0 && Mark(0xC0, cp) != 0 && Mark(0xE0, cp) != 0 && Mark(0xF0, cp) != 0
  {
  }

  lemma UntilNulIs(s: seq<bv32>, n: nat)
    requires n < |s| && s[n] == 0 && forall k | 0 <= k < n :: s[k] != 0
    ensures UntilNul(s) == s[..n]
  {
    if n == 0 {
    } else {
      UntilNulIs(s[1..], n - 1);
      assert s[..n] == [s[0]] + s[1..][..n - 1];
    }
  }

  method CodePointToUtf8(codePoint: bv32) returns (utf8: seq<bv32>)
    ensures utf8 == Utf8Text(codePoint)
  {
    hide Mark, Low6, Shift6, UntilNul, Notice, Tail, Encode;
    if codePoint > MAX_CODE_POINT_4 {
      return Notice(codePoint);
    }
    var str := new bv32[5];
    var cp, low := codePoint, 0;
    if cp <= MAX_CODE_POINT_1 {
      str[1] := 0;
      str[0] := cp;
      UntilNulIs(str[..], if cp == 0 then 0 else 1);
      Encode1(codePoint);
      assert str[..][..1] == [codePoint];
    } else if cp <= MAX_CODE_POINT_2 {
      str[2] := 0;
      low, cp := ChopLowBits(cp, 6);
      str[1] := Mark(0x80, low);
      str[0] := Mark(0xC0, cp);
      assert str[..] == [str[0], str[1]] + str[2..];
      Encode2(codePoint);
      FinishUtf8(codePoint, [str[0], str[1]], str[2..]);
    } else if cp <= MAX_CODE_POINT_3 {
      str[3] := 0;
      low, cp := ChopLowBits(cp, 6);
      str[2] := Mark(0x80, low);
      low, cp := ChopLowBits(cp, 6);
      str[1] := Mark(0x80, low);
      str[0] := Mark(0xE0, cp);
      assert str[..] == [str[0], str[1], str[2]] + str[3..];
      Encode3(codePoint);
      FinishUtf8(codePoint, [str[0], str[1], str[2]], str[3..]);
    } else {
      str[4] := 0;
      low, cp := ChopLowBits(cp, 6);
      str[3] := Mark(0x80, low);
      low, cp := ChopLowBits(cp, 6);
      str[2] := Mark(0x80, low);
      low, cp := ChopLowBits(cp, 6);
      str[1] := Mark(0x80, low);
      str[0] := Mark(0xF0, cp);
      assert str[..] == [str[0], str[1], str[2], str[3]] + str[4..];
      Encode4(codePoint);
      FinishUtf8(codePoint, [str[0], str[1], str[2], str[3]], str[4..]);
    }
    utf8 := UntilNul(str[..]);
  }

  lemma Encode1(cp: bv32)
    requires cp <= MAX_CODE_POINT_1
    ensures Encode(cp) == [cp]
  {
  }

  lemma Encode2(cp: bv32)
    requires MAX_CODE_POINT_1 < cp <= MAX_CODE_POINT_2
    ensures Encode(cp) == [Mark(0xC0, Shift6(cp)), Tail(cp)]
  {
  }

  lemma Encode3(cp: bv32)
    requires MAX_CODE_POINT_2 < cp <= MAX_CODE_POINT_3
    ensures Encode(cp) == [Mark(0xE0, Shift6(Shift6(cp))), Tail(Shift6(cp)), Tail(cp)]
  {
  }

  lemma Encode4(cp: bv32)
    requires MAX_CODE_POINT_3 < cp <= MAX_CODE_POINT_4
    ensures Encode(cp) ==
            [Mark(0xF0, Shift6(Shift6(Shift6(cp)))), Tail(Shift6(Shift6(cp))), Tail(Shift6(cp)), Tail(cp)]
  {
  }

  lemma FinishUtf8(cp: bv32, octets: seq<bv32>, rest: seq<bv32>)
    requires MAX_CODE_POINT_1 < cp <= MAX_CODE_POINT_4 && octets == Encode(cp) && rest != [] && rest[0] == 0
    ensures UntilNul(octets + rest) == Encode(cp)
  {
    EncodeNonzero(cp);
    UntilNulIs(octets + rest, |octets|);
  }

  lemma EncodeNonzero(cp: bv32)
    requires 0 < cp <= MAX_CODE_POINT_4
    ensures forall k | 0 <= k < |Encode(cp)| :: Encode(cp)[k] != 0
  {
    hide Mark, Tail, Low6, Shift6;
    OctetsNonzero(cp);
    OctetsNonzero(Shift6(cp));
    OctetsNonzero(Shift6(Shift6(cp)));
    OctetsNonzero(Shift6(Shift6(Shift6(cp))));
  }

  // ----- Wide strings -----

  /** A null-terminated wide string before its terminator; units of a 16-bit wchar_t fit in 16 bits. */
  predicate IsWideString(str: seq<bv32>, wcharSize: nat) {
    && wcharSize in {2, 4}
    && forall k | 0 <= k < |str| :: str[k] != 0 && (wcharSize == 2 ==> str[k] <= 0xFFFF)
  }

  /** Reading a wide string, whose terminator may be read. */
  function At(str: seq<bv32>, i: nat): bv32
    requires i <= |str|
  {
    if i < |str| then str[i] else 0
  }

  predicate IsUtf16SurrogatePair(first: bv32, second: bv32, wcharSize: nat) {
    wcharSize == 2 && first & 0xFC00 == 0xD800 && second & 0xFC00 == 0xDC00
  }

  function CreateCodePointFromUtf16SurrogatePair(first: bv32, second: bv32, wcharSize: nat): bv32 {
    var mask := ((1 as bv32) << 10) - 1;
    if wcharSize == 2 then (((first & mask) << 10) | (second & mask)) + 0x1_0000 else first
  }

  /** The code points that the conversion finds in a wide string. */
  function CodePointsOf(str: seq<bv32>, wcharSize: nat): seq<bv32> {
    if str == [] then []
    else if |str| >= 2 && IsUtf16SurrogatePair(str[0], str[1], wcharSize) then
      [CreateCodePointFromUtf16SurrogatePair(str[0], str[1], wcharSize)] + CodePointsOf(str[2..], wcharSize)
    else [str[0]] + CodePointsOf(str[1..], wcharSize)
  }

  function Utf8OfAll(cps: seq<bv32>): seq<bv32> {
    if cps == [] then [] else Utf8Text(cps[0]) + Utf8OfAll(cps[1..])
  }

  function NulEscaped(c: bv32): seq<bv32> { if c == 0 then [0x5C, 0x30] else [c] }

  /** Replaces each NUL by a backslash and a zero digit. */
  function NulsEscaped(s: seq<bv32>): seq<bv32> {
    if s == [] then []
    else NulEscaped(s[0]) + NulsEscaped(s[1..])
  }

  lemma NulsEscapedStep(s: seq<bv32>, i: nat)
    requires i < |s|
    ensures NulsEscaped(s[i..]) == NulEscaped(s[i]) + NulsEscaped(s[i + 1..])
  {
    assert s[i..][1..] == s[i + 1..];
  }

  method StringStreamToString(stream: seq<bv32>) returns (result: seq<bv32>)
    ensures result == NulsEscaped(stream)
  {
    assert stream[0..] == stream && stream[|stream|..] == [] && NulsEscaped([]) == [];
    result := [];
    assert result + NulsEscaped(stream) == NulsEscaped(stream);
    hide NulsEscaped;
    for i := 0 to |stream|
      invariant result + NulsEscaped(stream[i..]) == NulsEscaped(stream)
    {
      NulsEscapedStep(stream, i);
      Regroup(result, NulEscaped(stream[i]), NulsEscaped(stream[i + 1..]));
      if stream[i] == 0 {
        result := result + [0x5C, 0x30];
      } else {
        result := result + [stream[i]];
      }
    }
    assert result + [] == result;
  }

  lemma Regroup(x: seq<bv32>, y: seq<bv32>, z: seq<bv32>)
    ensures x + (y + z) == x + y + z
  {
  }

  /** The part of the string that a character limit leaves; -1 stands for no limit. */
  function Limited(str: seq<bv32>, numChars: int): seq<bv32> {
    if numChars == -1 || numChars >= |str| then str else if numChars < 0 then [] else str[..numChars]
  }

  /** One step of the conversion, at a unit that is not the terminator. */
  lemma CodePointsStep(text: seq<bv32>, i: nat, wcharSize: nat)
    requires i < |text|
    ensures var paired := i + 1 < |text| && IsUtf16SurrogatePair(text[i], text[i + 1], wcharSize);
            CodePointsOf(text[i..], wcharSize) ==
            if paired then [CreateCodePointFromUtf16SurrogatePair(text[i], text[i + 1], wcharSize)]
                           + CodePointsOf(text[i + 2..], wcharSize)
            else [text[i]] + CodePointsOf(text[i + 1..], wcharSize)
  {
    hide IsUtf16SurrogatePair, CreateCodePointFromUtf16SurrogatePair;
    assert text[i..][1..] == text[i + 1..];
    assert i + 2 <= |text| ==> text[i..][2..] == text[i + 2..];
  }

  /** Below the limit the limited string is the string. */
  lemma LimitedAt(str: seq<bv32>, numChars: int, n: int, i: nat)
    requires n == (if numChars == -1 then |str| else numChars) && i < n && i < |str|
    ensures var text := Limited(str, numChars);
            && i < |text| && text[i] == str[i] && (i + 1 < |text| <==> i + 1 < n && i + 1 < |str|)
            && (i + 1 < |text| ==> text[i + 1] == str[i + 1])
  {
  }

  /** The code point at unit i, before unit n, and where the next one starts. */
  method NextCodePoint(str: seq<bv32>, i: nat, n: int, wcharSize: nat) returns (codePoint: bv32, next: nat)
    requires i < |str| && i < n && At(str, i) != 0
    ensures codePoint != 0 && (if i + 1 < n && i + 1 < |str| && IsUtf16SurrogatePair(str[i], str[i + 1], wcharSize)
              then codePoint == CreateCodePointFromUtf16SurrogatePair(str[i], str[i + 1], wcharSize) && next == i + 2
              else codePoint == str[i] && next == i + 1)
  {
    hide IsUtf16SurrogatePair, CreateCodePointFromUtf16SurrogatePair;
    PairNeedsUnit(At(str, i), wcharSize);
    if i + 1 < n && IsUtf16SurrogatePair(At(str, i), At(str, i + 1), wcharSize) {
      codePoint := CreateCodePointFromUtf16SurrogatePair(At(str, i), At(str, i + 1), wcharSize);
      PairNonzero(At(str, i), At(str, i + 1), wcharSize);
      next := i + 2;
    } else {
      codePoint := At(str, i);
      next := i + 1;
    }
  }

  method WideStringToUtf8(str: seq<bv32>, numChars: int, wcharSize: nat) returns (utf8: seq<bv32>)
    requires IsWideString(str, wcharSize)
    ensures utf8 == Utf8OfAll(CodePointsOf(Limited(str, numChars), wcharSize))
  {
    hide Utf8Text, IsUtf16SurrogatePair, CreateCodePointFromUtf16SurrogatePair, CodePointsOf, Utf8OfAll;
    hide NulsEscaped;
    var n := if numChars == -1 then |str| else numChars;
    ghost var text := Limited(str, numChars);
    ghost var goal := Utf8OfAll(CodePointsOf(text, wcharSize));
    var stream: seq<bv32> := [];
    var i := 0;
    assert text[0..] == text && text[|text|..] == [] && [] + goal == goal;
    EmptyText(wcharSize);
    while i < n
      invariant 0 <= i <= |text| && (i < n && i == |text| ==> text == str)
      invariant NoNuls(stream)
      invariant stream + Utf8OfAll(CodePointsOf(text[i..], wcharSize)) == goal
      decreases n - i
    {
      if At(str, i) == 0 {
        break;
      }
      LimitedAt(str, numChars, n, i);
      CodePointsStep(text, i, wcharSize);
      var codePoint;
      codePoint, i := NextCodePoint(str, i, n, wcharSize);
      ghost var rest := CodePointsOf(text[i..], wcharSize);
      Utf8Cons(codePoint, rest);
      TextNonzero(codePoint);
      var octets := CodePointToUtf8(codePoint);
      Regroup(stream, octets, Utf8OfAll(rest));
      stream := stream + octets;
    }
    assert stream + [] == stream;
    NoNulsToReplace(stream);
    utf8 := StringStreamToString(stream);
  }

  ghost predicate NoNuls(s: seq<bv32>) {
    forall k | 0 <= k < |s| :: s[k] != 0
  }

  lemma EmptyText(wcharSize: nat)
    ensures Utf8OfAll(CodePointsOf([], wcharSize)) == []
  {
  }

  lemma PairNeedsUnit(first: bv32, wcharSize: nat)
    ensures !IsUtf16SurrogatePair(first, 0, wcharSize)
  {
  }

  lemma PairNonzero(first: bv32, second: bv32, wcharSize: nat)
    requires IsUtf16SurrogatePair(first, second, wcharSize)
    ensures CreateCodePointFromUtf16SurrogatePair(first, second, wcharSize) != 0
  {
  }

  lemma Utf8Cons(cp: bv32, cps: seq<bv32>)
    ensures Utf8OfAll([cp] + cps) == Utf8Text(cp) + Utf8OfAll(cps)
  {
    assert ([cp] + cps)[1..] == cps;
  }

  lemma TextNonzero(cp: bv32)
    requires cp != 0
    ensures NoNuls(Utf8Text(cp))
  {
    if cp <= MAX_CODE_POINT_4 {
      EncodeNonzero(cp);
    } else {
      OctetsOfText("(Invalid Unicode 0x" + FormatHexInt(cp as nat) + ")");
    }
  }

  lemma OctetsOfText(text: string)
    requires forall k | 0 <= k < |text| :: 0 < text[k] as int < 256
    ensures NoNuls(Octets(text))
  {
  }

  lemma NoNulsToReplace(s: seq<bv32>)
    requires NoNuls(s)
    ensures NulsEscaped(s) == s
  {
    if s == [] {
    } else {
      NoNulsToReplace(s[1..]);
    }
  }

  /** Whatever surrounds it, a NUL becomes a backslash and a zero digit. */
  lemma {:induction false} NulReplaced(a: seq<bv32>, b: seq<bv32>)
    ensures NulsEscaped(a + [0] + b) == NulsEscaped(a) + [0x5C, 0x30] + NulsEscaped(b)
    decreases |a|
  {
    var all := a + [0] + b;
    if a == [] {
      assert all == [0] + b && all[1..] == b;
      assert NulsEscaped(all) == [0x5C, 0x30] + NulsEscaped(b);
    } else {
      var head, tail := NulEscaped(a[0]), NulsEscaped(a[1..]);
      assert all[0] == a[0] && all[1..] == a[1..] + [0] + b;
      assert NulsEscaped(all) == head + NulsEscaped(a[1..] + [0] + b);
      NulReplaced(a[1..], b);
      hide NulsEscaped, NulEscaped;
      Joined(head, tail, [0x5C, 0x30], NulsEscaped(b));
    }
  }

  lemma Joined(w: seq<bv32>, x: seq<bv32>, y: seq<bv32>, z: seq<bv32>)
    ensures w + (x + y + z) == (w + x) + y + z
  {
  }

  // ----- Section 2.2 of RFC 2781: decoding UTF-16 -----

  predicate IsHighSurrogate(w: bv32) { 0xD800 <= w <= 0xDBFF }
  predicate IsLowSurrogate(w: bv32) { 0xDC00 <= w <= 0xDFFF }
  function SurrogateValue(w1: bv32, w2: bv32): bv32 { 0x1_0000 + ((w1 - 0xD800) << 10) + (w2 - 0xDC00) }

  function DecodeUtf16(w: seq<bv32>): Decoded {
    if w == [] then CodePoints([])
    else if !IsHighSurrogate(w[0]) && !IsLowSurrogate(w[0]) then Cons(w[0], DecodeUtf16(w[1..]))
    else if IsHighSurrogate(w[0]) && |w| >= 2 && IsLowSurrogate(w[1]) then
      Cons(SurrogateValue(w[0], w[1]), DecodeUtf16(w[2..]))
    else Malformed
  }

  lemma SurrogateRanges(a: bv32, b: bv32)
    requires a <= 0xFFFF && b <= 0xFFFF
    ensures IsUtf16SurrogatePair(a, b, 2) <==> IsHighSurrogate(a) && IsLowSurrogate(b)
  {
  }

  lemma SurrogateBits(a: bv32, b: bv32)
    requires IsHighSurrogate(a) && IsLowSurrogate(b)
    ensures a & 0x3FF == a - 0xD800 < 0x400 && b & 0x3FF == b - 0xDC00 < 0x400
  {
  }

  lemma SurrogateSum(x: bv32, y: bv32)
    requires x < 0x400 && y < 0x400
    ensures ((x << 10) | y) + 0x1_0000 == 0x1_0000 + (x << 10) + y
    ensures 0x1_0000 <= 0x1_0000 + (x << 10) + y <= 0x10_FFFF
  {
  }

  lemma PairValue(a: bv32, b: bv32)
    requires IsHighSurrogate(a) && IsLowSurrogate(b)
    ensures CreateCodePointFromUtf16SurrogatePair(a, b, 2) == SurrogateValue(a, b)
    ensures 0 < SurrogateValue(a, b) <= MAX_CODE_POINT_4 && IsScalar(SurrogateValue(a, b))
  {
    SurrogateBits(a, b);
    SurrogateSum(a - 0xD800, b - 0xDC00);
    AboveSurrogates(SurrogateValue(a, b));
  }

  lemma AboveSurrogates(cp: bv32)
    requires 0x1_0000 <= cp <= 0x10_FFFF
    ensures 0 < cp <= MAX_CODE_POINT_4 && IsScalar(cp)
  {
  }

  predicate Encodable(cps: seq<bv32>) {
    forall k | 0 <= k < |cps| :: 0 < cps[k] <= MAX_CODE_POINT_4
  }

  /** A wide string is read as the code points the RFC says, unless one of them is a
      surrogate, which is when it is ill-formed. */
  lemma {:induction false} Utf16Read(w: seq<bv32>)
    requires IsWideString(w, 2)
    ensures var cps := CodePointsOf(w, 2);
            && Encodable(cps) && DecodeUtf16(w) == if AllScalar(cps) then CodePoints(cps) else Malformed
  {
    if w == [] {
    } else {
      hide IsUtf16SurrogatePair, CreateCodePointFromUtf16SurrogatePair, IsHighSurrogate, IsLowSurrogate, SurrogateValue;
      hide IsScalar;
      UnitScalar(w[0]);
      if |w| >= 2 {
        SurrogateRanges(w[0], w[1]);
      }
      if |w| >= 2 && IsUtf16SurrogatePair(w[0], w[1], 2) {
        PairValue(w[0], w[1]);
        Utf16Read(w[2..]);
        ScalarCons(SurrogateValue(w[0], w[1]), CodePointsOf(w[2..], 2));
      } else {
        Utf16Read(w[1..]);
        ScalarCons(w[0], CodePointsOf(w[1..], 2));
      }
    }
  }

  lemma ScalarCons(cp: bv32, cps: seq<bv32>)
    ensures AllScalar([cp] + cps) <==> IsScalar(cp) && AllScalar(cps)
    ensures Encodable([cp] + cps) <==> 0 < cp <= MAX_CODE_POINT_4 && Encodable(cps)
  {
    var all := [cp] + cps;
    assert forall k | 0 <= k < |cps| :: all[k + 1] == cps[k];
    assert all[0] == cp;
  }

  /** A unit of 16 bits is a scalar value unless it is half of a pair. */
  lemma UnitScalar(w: bv32)
    requires w <= 0xFFFF
    ensures IsScalar(w) <==> !IsHighSurrogate(w) && !IsLowSurrogate(w)
    ensures !(IsHighSurrogate(w) && IsLowSurrogate(w)) && w <= MAX_CODE_POINT_4
  {
  }

  lemma {:induction false} Utf8OfEncodable(cps: seq<bv32>)
    requires Encodable(cps)
    ensures AllBelow(cps) && Utf8OfAll(cps) == EncodeAll(cps)
  {
    hide Encode;
    if cps == [] {
    } else {
      Utf8OfEncodable(cps[1..]);
    }
  }

  /** A UTF-16 string converts to UTF-8 that a reader of the standard decodes to the same code points,
      and to something it refuses exactly when the string is ill-formed. */
  lemma Utf16Converts(w: seq<bv32>)
    requires IsWideString(w, 2)
    ensures Decode(Utf8OfAll(CodePointsOf(w, 2)), true) == DecodeUtf16(w)
    ensures DecodeUtf16(w).CodePoints? ==>
              AllBelow(DecodeUtf16(w).cps) && Utf8OfAll(CodePointsOf(w, 2)) == EncodeAll(DecodeUtf16(w).cps)
  {
    Utf16Read(w);
    Utf8OfEncodable(CodePointsOf(w, 2));
    EncodingRoundTrip(CodePointsOf(w, 2), true);
  }

  /** With a 32-bit wchar_t every unit is a code point of its own. */
  lemma {:induction false} Utf32Converts(w: seq<bv32>)
    ensures CodePointsOf(w, 4) == w
  {
    if w == [] {
    } else {
      Utf32Converts(w[1..]);
    }
  }

  // ----- The notice for invalid code points -----

  /** What the comments promise: the notice for every code point above U+10FFFF. */
  function PromisedText(cp: bv32): seq<bv32> {
    if cp > 0x10_FFFF then Notice(cp) else Utf8Text(cp)
  }

  function PromisedOfAll(cps: seq<bv32>): seq<bv32> {
    if cps == [] then [] else PromisedText(cps[0]) + PromisedOfAll(cps[1..])
  }

  /** The values that are invalid but are encoded all the same. */
  predicate IsOverlooked(cp: bv32) { 0x10_FFFF < cp <= MAX_CODE_POINT_4 }

  lemma NoticeIsLong(cp: bv32)
    ensures |Notice(cp)| > 4
  {
  }

  lemma EncodeIsShort(cp: bv32)
    requires cp <= MAX_CODE_POINT_4
    ensures |Encode(cp)| <= 4
  {
  }

  /** An overlooked code point is written shorter than promised, any other as promised. */
  lemma NoticeExact(cp: bv32)
    ensures Utf8Text(cp) == PromisedText(cp) <==> !IsOverlooked(cp)
    ensures IsOverlooked(cp) ==> |Utf8Text(cp)| < |PromisedText(cp)|
    ensures (Utf8Text(cp) == Notice(cp) <==> cp > 0x10_FFFF) <==> !IsOverlooked(cp)
  {
    hide Encode, Notice;
    NoticeIsLong(cp);
    if cp <= MAX_CODE_POINT_4 {
      EncodeIsShort(cp);
    }
  }

  /** A wide string converts as promised exactly when none of its code points is overlooked. */
  lemma {:induction false} PromisedExact(cps: seq<bv32>)
    ensures |Utf8OfAll(cps)| <= |PromisedOfAll(cps)|
    ensures Utf8OfAll(cps) == PromisedOfAll(cps) <==> forall k | 0 <= k < |cps| :: !IsOverlooked(cps[k])
  {
    hide Utf8Text, PromisedText, IsOverlooked;
    if cps == [] {
    } else {
      PromisedExact(cps[1..]);
      NoticeExact(cps[0]);
      var a, b, p, q := Utf8Text(cps[0]), Utf8OfAll(cps[1..]), PromisedText(cps[0]), PromisedOfAll(cps[1..]);
      SplitEqual(a, b, p, q);
      assert (forall k | 0 <= k < |cps| :: !IsOverlooked(cps[k])) <==>
             !IsOverlooked(cps[0]) && forall k | 0 <= k < |cps[1..]| :: !IsOverlooked(cps[1..][k]) by {
        assert forall k | 0 < k < |cps| :: cps[k] == cps[1..][k - 1];
      }
    }
  }

  lemma SplitEqual(a: seq<bv32>, b: seq<bv32>, p: seq<bv32>, q: seq<bv32>)
    requires |b| <= |q| && (a == p || |a| < |p|)
    ensures a + b == p + q <==> a == p && b == q
  {
    if a == p {
      assert (a + b)[|a|..] == b && (p + q)[|p|..] == q;
    } else {
      assert |a + b| < |p + q|;
    }
  }

  /** U+110000 in a 32-bit wide string: four octets are written instead of the notice. */
  lemma OverlookedExample()
    ensures IsWideString([0x11_0000], 4) && IsOverlooked(0x11_0000)
    ensures Utf8OfAll(CodePointsOf([0x11_0000], 4)) == [0xF4, 0x90, 0x80, 0x80] != PromisedOfAll([0x11_0000])
  {
    var w := [0x11_0000 as bv32];
    Utf32Converts(w);
    NonScalarExamples();
    assert w[1..] == [];
    assert Utf8OfAll(w) == Utf8Text(0x11_0000) + Utf8OfAll([]) && Utf8OfAll([]) == [];
    PromisedExact(w);
  }
}
