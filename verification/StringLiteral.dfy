/** Printing character arrays as C++ string literals, and reading them back. */
module StringLiteral {
  import opened Hex
  import opened Streams

  /** A char or wchar_t, as its unsigned value. */
  type Unit = nat

  const ALERT := 7
  const BACKSPACE := 8
  const TAB := 9
  const NEWLINE := 10
  const VERTICAL_TAB := 11
  const FORM_FEED := 12
  const RETURN := 13
  const BACKSLASH := '\\' as nat

  datatype CharFormat = AsIs | HexEscape | SpecialEscape

  predicate IsPrintableAscii(c: Unit) { 0x20 <= c <= 0x7E }

  /** isxdigit of a unit that fits in a byte. */
  predicate IsXDigit(c: Unit) { c < 256 && IsHexDigit(c as char) }

  lemma PrintableMeans(c: Unit)
    ensures IsPrintableAscii(c) <==> ' ' as nat <= c <= '~' as nat
  {
  }

  /** The text of a unit in a character literal: itself, a named escape or a hexadecimal one. */
  function CharLiteral(c: Unit): (string, CharFormat) {
    if c == 0 then ("\\0", SpecialEscape)
    else if c == '\'' as nat then ("\\'", SpecialEscape)
    else if c == BACKSLASH then ("\\\\", SpecialEscape)
    else if c == ALERT then ("\\a", SpecialEscape)
    else if c == BACKSPACE then ("\\b", SpecialEscape)
    else if c == FORM_FEED then ("\\f", SpecialEscape)
    else if c == NEWLINE then ("\\n", SpecialEscape)
    else if c == RETURN then ("\\r", SpecialEscape)
    else if c == TAB then ("\\t", SpecialEscape)
    else if c == VERTICAL_TAB then ("\\v", SpecialEscape)
    else if ' ' as nat <= c <= '~' as nat then ([c as char], AsIs)
    else ("\\x" + FormatHexInt(c), HexEscape)
  }

  function StringUnitLiteral(c: Unit): (string, CharFormat) {
    if c == '\'' as nat then ("'", AsIs)
    else if c == '"' as nat then ("\\\"", SpecialEscape)
    else CharLiteral(c)
  }

  /** The opening quote of a narrow or a wide literal. */
  function Opening(wide: bool): string { if wide then "L\"" else "\"" }

  /** The units that could continue a hexadecimal escape: 0-9, A-F and a-f. */
  predicate ContinuesHex(c: Unit) { 0x30 <= c <= 0x39 || 0x41 <= c <= 0x46 || 0x61 <= c <= 0x66 }

  lemma XDigitMeans(c: Unit)
    ensures IsXDigit(c) <==> ContinuesHex(c)
  {
  }

  /** The text of the units from one position on, up to the closing quote. */
  function Body(units: seq<Unit>, wide: bool, previousHex: bool): string {
    if units == [] then "\""
    else
      var (text, format) := StringUnitLiteral(units[0]);
      Gap(units[0], wide, previousHex) + (text + Body(units[1..], wide, format.HexEscape?))
  }

  /** A break between adjacent literals that keeps a hexadecimal escape from growing. */
  function Gap(c: Unit, wide: bool, previousHex: bool): string {
    if previousHex && ContinuesHex(c) then "\" " + Opening(wide) else ""
  }

  method PrintAsStringLiteralTo(c: Unit, os: OStream) returns (format: CharFormat)
    modifies os
    ensures os.out == old(os.out) + StringUnitLiteral(c).0 && format == StringUnitLiteral(c).1
  {
    if c == '\'' as nat {
      os.Write("'");
      return AsIs;
    } else if c == '"' as nat {
      os.Write("\\\"");
      return SpecialEscape;
    } else {
      format := PrintAsCharLiteralTo(c, os);
    }
  }

  method PrintAsCharLiteralTo(c: Unit, os: OStream) returns (format: CharFormat)
    modifies os
    ensures os.out == old(os.out) + CharLiteral(c).0 && format == CharLiteral(c).1
  {
    match c {
      case 0 => os.Write("\\0");
      case 39 => os.Write("\\'");
      case 92 => os.Write("\\\\");
      case 7 => os.Write("\\a");
      case 8 => os.Write("\\b");
      case 12 => os.Write("\\f");
      case 10 => os.Write("\\n");
      case 13 => os.Write("\\r");
      case 9 => os.Write("\\t");
      case 11 => os.Write("\\v");
      case _ =>
        if IsPrintableAscii(c) {
          os.Write([c as char]);
          return AsIs;
        } else {
          os.Write("\\x" + FormatHexInt(c));
          return HexEscape;
        }
    }
    return SpecialEscape;
  }

  lemma Regroup(a: string, b: string, c: string, d: string)
    ensures a + (b + (c + d)) == (a + b + c) + d
  {
  }

  lemma BodyEnd(wide: bool)
    ensures forall previousHex :: Body([], wide, previousHex) == "\""
  {
  }

  lemma BodyStep(units: seq<Unit>, k: nat, wide: bool, previousHex: bool)
    requires k < |units|
    ensures var (text, format) := StringUnitLiteral(units[k]);
            Body(units[k..], wide, previousHex) ==
            Gap(units[k], wide, previousHex) + (text + Body(units[k + 1..], wide, format.HexEscape?))
  {
    assert units[k..][1..] == units[k + 1..];
  }

  method PrintCharsAsStringTo(units: seq<Unit>, wide: bool, os: OStream)
    modifies os
    ensures os.out == old(os.out) + Print(units, wide)
  {
    var quoteBegin := if wide then "L\"" else "\"";
    hide Body, StringUnitLiteral;
    assert units[0..] == units && units[|units|..] == [];
    BodyEnd(wide);
    os.Write(quoteBegin);
    var isPreviousHex := false;
    for index := 0 to |units|
      invariant os.out + Body(units[index..], wide, isPreviousHex) == old(os.out) + Print(units, wide)
    {
      var cur := units[index];
      ghost var before, gap := os.out, Gap(cur, wide, isPreviousHex);
      BodyStep(units, index, wide, isPreviousHex);
      XDigitMeans(cur);
      if isPreviousHex && IsXDigit(cur) {
        os.Write("\" " + quoteBegin);
      }
      var format := PrintAsStringLiteralTo(cur, os);
      isPreviousHex := format == HexEscape;
      Regroup(before, gap, StringUnitLiteral(cur).0, Body(units[index + 1..], wide, isPreviousHex));
    }
    os.Write("\"");
  }

  function Print(units: seq<Unit>, wide: bool): string {
    Opening(wide) + Body(units, wide, false)
  }

  // ----- The reader: adjacent string literals of ISO/IEC 14882:2011 -----

  datatype Parsed = Bad | Units(units: seq<Unit>)

  function Prepend(c: Unit, rest: Parsed): Parsed {
    if rest.Bad? then Bad else Units([c] + rest.units)
  }

  predicate IsOctalDigit(c: char) { '0' <= c <= '7' }

  /** An octal escape has one, two or three digits (section 2.14.3). */
  function OctalRun(s: string): (n: nat)
    ensures n <= |s| && n <= 3
  {
    if |s| >= 1 && IsOctalDigit(s[0]) then
      if |s| >= 2 && IsOctalDigit(s[1]) then
        if |s| >= 3 && IsOctalDigit(s[2]) then 3 else 2
      else 1
    else 0
  }

  function OctalValue(s: string): nat
    requires forall k | 0 <= k < |s| :: IsOctalDigit(s[k])
  {
    if s == [] then 0
    else
      assert IsOctalDigit(s[|s| - 1]);
      8 * OctalValue(s[..|s| - 1]) + (s[|s| - 1] as int - '0' as int)
  }

  function SimpleEscape(c: char): (u: int) {
    match c
    case '\'' => 39
    case '"' => 34
    case '?' => 63
    case '\\' => 92
    case 'a' => 7
    case 'b' => 8
    case 'f' => 12
    case 'n' => 10
    case 'r' => 13
    case 't' => 9
    case 'v' => 11
    case _ => -1
  }

  /** Reads from inside a literal to the end of the last adjacent one. */
  function ReadBody(s: string, wide: bool): Parsed {
    if s == [] then Bad
    else if s[0] == '"' then ReadAdjacent(s[1..], wide)
    else if s[0] == '\n' then Bad
    else if s[0] != '\\' then Prepend(s[0] as nat, ReadBody(s[1..], wide))
    else
      var t := s[1..];
      if t == [] then Bad
      else if t[0] == 'x' then
        var n := HexRun(t[1..]);
        if n == 0 then Bad else Prepend(HexValue(t[1..][..n]), ReadBody(t[1..][n..], wide))
      else if OctalRun(t) > 0 then
        Prepend(OctalValue(t[..OctalRun(t)]), ReadBody(t[OctalRun(t)..], wide))
      else if SimpleEscape(t[0]) < 0 then Bad
      else Prepend(SimpleEscape(t[0]), ReadBody(t[1..], wide))
  }

  /** After a closing quote: the end, or spaces and another literal, which is concatenated (section 2.14.5). */
  function ReadAdjacent(s: string, wide: bool): Parsed {
    if s == [] then Units([])
    else if s[0] == ' ' then ReadAdjacent(s[1..], wide)
    else if Opening(wide) <= s then ReadBody(s[|Opening(wide)|..], wide)
    else Bad
  }

  function Read(s: string, wide: bool): Parsed {
    if Opening(wide) <= s then ReadBody(s[|Opening(wide)|..], wide) else Bad
  }

  // ----- What the printed text reads back as -----

  predicate IsOctalUnit(c: Unit) { '0' as nat <= c <= '7' as nat }

  predicate NulThenOctal(units: seq<Unit>, k: nat) {
    k + 1 < |units| && units[k] == 0 && IsOctalUnit(units[k + 1])
  }

  /** No NUL is directly followed by an octal digit. */
  ghost predicate NulsStandAlone(units: seq<Unit>) {
    forall k | 0 <= k < |units| :: !NulThenOctal(units, k)
  }

  /** The units the printed text reads back as: a NUL swallows up to two octal digits. */
  function Collapse(units: seq<Unit>): (r: seq<Unit>)
    ensures |r| <= |units|
  {
    if units == [] then []
    else if units[0] == 0 && |units| >= 2 && IsOctalUnit(units[1]) then
      var d := units[1] - '0' as nat;
      if |units| >= 3 && IsOctalUnit(units[2]) then [8 * d + (units[2] - '0' as nat)] + Collapse(units[3..])
      else [d] + Collapse(units[2..])
    else [units[0]] + Collapse(units[1..])
  }

  lemma {:induction false} CollapseIdentity(units: seq<Unit>)
    ensures NulsStandAlone(units) <==> Collapse(units) == units
    ensures NulsStandAlone(units) <==> |Collapse(units)| == |units|
  {
    if NulThenOctal(units, 0) || units == [] {
    } else {
      var rest := units[1..];
      CollapseIdentity(rest);
      assert forall k | 0 <= k < |rest| :: NulThenOctal(rest, k) <==> NulThenOctal(units, k + 1);
      assert NulsStandAlone(units) <==> NulsStandAlone(rest) by {
        if NulsStandAlone(rest) {
          forall k | 0 <= k < |units| ensures !NulThenOctal(units, k) {
            assert k > 0 ==> !NulThenOctal(rest, k - 1);
          }
        }
      }
      assert units == [units[0]] + rest;
    }
  }

  /** A hexadecimal escape is read back whole when no hexadecimal digit follows it. */
  lemma ReadHexEscape(c: Unit, rest: string, wide: bool)
    requires rest != [] && !IsHexDigit(rest[0])
    ensures ReadBody("\\x" + FormatHexInt(c) + rest, wide) == Prepend(c, ReadBody(rest, wide))
  {
    var h := FormatHexInt(c);
    var t := "x" + h + rest;
    assert ("\\x" + h + rest)[1..] == t && t[1..] == h + rest;
    HexRunOf(h, rest);
    assert (h + rest)[..|h|] == h && (h + rest)[|h|..] == rest;
    FormattedValue(c);
  }

  lemma ReadSimple(e: char, rest: string, wide: bool)
    requires SimpleEscape(e) >= 0
    ensures ReadBody(['\\', e] + rest, wide) == Prepend(SimpleEscape(e), ReadBody(rest, wide))
  {
    var t := [e] + rest;
    assert e != 'x' && !IsOctalDigit(e);
    hide SimpleEscape;
    assert (['\\', e] + rest)[1..] == t && t[1..] == rest && OctalRun(t) == 0;
  }

  lemma ReadPlain(c: char, rest: string, wide: bool)
    requires c !in {'"', '\n', '\\'}
    ensures ReadBody([c] + rest, wide) == Prepend(c as nat, ReadBody(rest, wide))
  {
    assert ([c] + rest)[1..] == rest;
  }

  lemma ReadGap(rest: string, wide: bool)
    ensures ReadBody("\" " + Opening(wide) + rest, wide) == ReadBody(rest, wide)
  {
    var q := Opening(wide);
    var s := " " + q + rest;
    assert ("\" " + q + rest)[1..] == s && s[1..] == q + rest;
    assert Opening(wide) <= q + rest && (q + rest)[|q|..] == rest;
    assert ReadAdjacent(q + rest, wide) == ReadBody(rest, wide);
    assert ReadAdjacent(s, wide) == ReadAdjacent(s[1..], wide);
  }

  /** The first character of a body, which decides how far an escape before it reaches. */
  lemma BodyHead(units: seq<Unit>, wide: bool, previousHex: bool)
    ensures var b := Body(units, wide, previousHex);
            && b != []
            && (previousHex ==> !IsHexDigit(b[0]))
            && (!previousHex && units != [] && IsOctalUnit(units[0]) ==>
                b[0] == units[0] as char && b[1..] == Body(units[1..], wide, false))
            && (IsOctalDigit(b[0]) ==> units != [] && IsOctalUnit(units[0]))
  {
  }

  /** Reading one unit that is not a NUL. */
  lemma ReadUnit(c: Unit, rest: string, wide: bool)
    requires c != 0
    requires StringUnitLiteral(c).1.HexEscape? ==> rest != [] && !IsHexDigit(rest[0])
    ensures ReadBody(StringUnitLiteral(c).0 + rest, wide) == Prepend(c, ReadBody(rest, wide))
  {
    var (text, format) := StringUnitLiteral(c);
    match format {
      case HexEscape => ReadHexEscape(c, rest, wide);
      case AsIs => ReadPlain(c as char, rest, wide);
      case SpecialEscape => ReadSimple(text[1], rest, wide);
    }
  }

  lemma OctalEscape(digits: string, rest: string, wide: bool)
    requires 1 <= |digits| <= 3 && forall k | 0 <= k < |digits| :: IsOctalDigit(digits[k])
    requires |digits| == 3 || rest == [] || !IsOctalDigit(rest[0])
    ensures ReadBody("\\" + digits + rest, wide) == Prepend(OctalValue(digits), ReadBody(rest, wide))
  {
    var t := digits + rest;
    assert ("\\" + digits + rest)[1..] == t;
    assert OctalRun(t) == |digits| && t[..|digits|] == digits && t[|digits|..] == rest;
  }

  lemma OctalValues(a: char, b: char)
    requires IsOctalDigit(a) && IsOctalDigit(b)
    ensures OctalValue("0") == 0
    ensures OctalValue(['0', a]) == a as int - '0' as int
    ensures OctalValue(['0', a, b]) == 8 * (a as int - '0' as int) + (b as int - '0' as int)
  {
    assert "0"[..0] == "" && ['0', a][..1] == "0" && ['0', a, b][..2] == ['0', a];
  }

  /** A NUL printed before n - 1 octal digits reads as one unit. */
  lemma ReadNulRun(digits: string, rest: string, wide: bool)
    requires |digits| <= 2 && forall k | 0 <= k < |digits| :: IsOctalDigit(digits[k])
    requires |digits| == 2 || (rest != [] && !IsOctalDigit(rest[0]))
    ensures ReadBody("\\0" + (digits + rest), wide) == Prepend(OctalValue("0" + digits), ReadBody(rest, wide))
  {
    hide ReadBody;
    OctalEscape("0" + digits, rest, wide);
    assert "\\0" + (digits + rest) == "\\" + ("0" + digits) + rest;
  }

  /** The octal digits that follow a printed NUL. */
  lemma BodyOctal(units: seq<Unit>, wide: bool)
    ensures var b := Body(units, wide, false);
            && b != [] && (IsOctalDigit(b[0]) <==> units != [] && IsOctalUnit(units[0]))
            && (IsOctalDigit(b[0]) ==> b == [units[0] as char] + Body(units[1..], wide, false))
  {
    BodyHead(units, wide, false);
  }

  /** The octal digits, at most two, that a NUL swallows. */
  function Swallowed(units: seq<Unit>): (digits: string)
    requires units != []
    ensures |digits| <= 2 && |digits| < |units| && forall k | 0 <= k < |digits| :: IsOctalDigit(digits[k])
  {
    if |units| < 2 || !IsOctalUnit(units[1]) then ""
    else if |units| < 3 || !IsOctalUnit(units[2]) then [units[1] as char]
    else [units[1] as char, units[2] as char]
  }

  lemma SwallowedBody(units: seq<Unit>, wide: bool)
    requires units != []
    ensures var digits := Swallowed(units); var rest := Body(units[|digits| + 1..], wide, false);
            && Body(units[1..], wide, false) == digits + rest
            && rest != [] && (|digits| == 2 || !IsOctalDigit(rest[0]))
  {
    hide Body;
    BodyOctal(units[1..], wide);
    if |units| >= 2 && IsOctalUnit(units[1]) {
      assert units[1..][1..] == units[2..];
      BodyOctal(units[2..], wide);
      if |units| >= 3 && IsOctalUnit(units[2]) {
        assert units[2..][1..] == units[3..];
        BodyOctal(units[3..], wide);
      }
    }
  }

  lemma SwallowedValue(units: seq<Unit>)
    requires units != [] && units[0] == 0
    ensures var digits := Swallowed(units);
            Collapse(units) == [OctalValue("0" + digits)] + Collapse(units[|digits| + 1..])
  {
    hide OctalValue;
    var digits := Swallowed(units);
    OctalValues('0', '0');
    assert "0" + "" == "0";
    if |digits| == 1 {
      OctalValues(digits[0], '0');
      assert "0" + digits == ['0', digits[0]];
    } else if |digits| == 2 {
      OctalValues(digits[0], digits[1]);
      assert "0" + digits == ['0', digits[0], digits[1]];
    }
  }

  /** A printed NUL with the octal digits it swallows. */
  lemma ReadNul(units: seq<Unit>, wide: bool) returns (n: nat)
    requires units != [] && units[0] == 0
    ensures 1 <= n <= |units|
    ensures Collapse(units) == [Collapse(units)[0]] + Collapse(units[n..])
    ensures ReadBody("\\0" + Body(units[1..], wide, false), wide) ==
            Prepend(Collapse(units)[0], ReadBody(Body(units[n..], wide, false), wide))
  {
    hide ReadBody, Body, OctalValue, Swallowed;
    var digits := Swallowed(units);
    n := |digits| + 1;
    SwallowedBody(units, wide);
    SwallowedValue(units);
    ReadNulRun(digits, Body(units[n..], wide, false), wide);
  }

  lemma {:induction false} ReadBodyOf(units: seq<Unit>, wide: bool, previousHex: bool)
    ensures ReadBody(Body(units, wide, previousHex), wide) == Units(Collapse(units))
    decreases |units|
  {
    if units == [] {
      assert "\""[1..] == "";
    } else {
      hide ReadBody;
      var c := units[0];
      var (text, format) := StringUnitLiteral(c);
      var rest := Body(units[1..], wide, format.HexEscape?);
      if previousHex && IsXDigit(c) {
        ReadGap(text + rest, wide);
        assert Body(units, wide, previousHex) == "\" " + Opening(wide) + (text + rest);
      } else {
        assert Body(units, wide, previousHex) == text + rest;
      }
      if c == 0 {
        var n := ReadNul(units, wide);
        ReadBodyOf(units[n..], wide, false);
      } else {
        BodyHead(units[1..], wide, format.HexEscape?);
        ReadUnit(c, rest, wide);
        ReadBodyOf(units[1..], wide, format.HexEscape?);
      }
    }
  }

  /** What the printed literal of any units reads as. */
  lemma ReadPrinted(units: seq<Unit>, wide: bool)
    ensures Read(Print(units, wide), wide) == Units(Collapse(units))
  {
    var q, b := Opening(wide), Body(units, wide, false);
    assert q <= q + b && (q + b)[|q|..] == b;
    ReadBodyOf(units, wide, false);
  }

  /** Printing round-trips exactly for the arrays in which no NUL precedes an octal digit. */
  lemma RoundTripExact(units: seq<Unit>, wide: bool)
    ensures Read(Print(units, wide), wide) == Units(units) <==> NulsStandAlone(units)
  {
    ReadPrinted(units, wide);
    CollapseIdentity(units);
  }

  /** The shortest array that is not read back: a NUL and the digit 1 read as one unit. */
  lemma DigitAfterNulIsLost(wide: bool)
    ensures Read(Print([0, '1' as nat], wide), wide) == Units([1])
  {
    ReadPrinted([0, '1' as nat], wide);
  }

  // ----- Printable text -----

  /** Printable ASCII that no literal has to escape. */
  predicate IsPlainUnit(c: Unit) { 0x20 <= c <= 0x7E && c != '"' as nat && c != '\\' as nat }

  predicate IsPlain(units: seq<Unit>) { forall k | 0 <= k < |units| :: IsPlainUnit(units[k]) }

  function Characters(units: seq<Unit>): (s: string)
    requires IsPlain(units)
    ensures |s| == |units| && forall k | 0 <= k < |s| :: s[k] == units[k] as char
  {
    seq(|units|, k requires 0 <= k < |units| => units[k] as char)
  }

  lemma {:induction false} PlainBody(units: seq<Unit>, wide: bool)
    requires IsPlain(units)
    ensures Body(units, wide, false) == Characters(units) + "\""
  {
    if units == [] {
    } else {
      PlainBody(units[1..], wide);
      assert StringUnitLiteral(units[0]) == ([units[0] as char], AsIs);
      assert Characters(units) == [units[0] as char] + Characters(units[1..]);
    }
  }

  /** Plain text is written as itself between the quotes. */
  lemma PlainPrinted(units: seq<Unit>)
    requires IsPlain(units)
    ensures Print(units, false) == "\"" + Characters(units) + "\""
    ensures Print(units, true) == "L\"" + Characters(units) + "\""
  {
    hide Body, Characters;
    PlainBody(units, false);
    PlainBody(units, true);
  }
}
