/** The XML report's character data: CDATA sections and escaped text. */
module Xml {
  import opened CStrings
  import opened Hex
  import opened Streams

  // ----- Searching -----

  predicate OccursAt(s: string, needle: string, k: nat) {
    k + |needle| <= |s| && s[k..k + |needle|] == needle
  }

  /** strstr: the first occurrence from an offset on, if there is one. */
  function FindFrom(s: string, needle: string, from: nat): (r: Option<nat>)
    requires from <= |s|
    ensures r.Some? ==> r.value >= from && OccursAt(s, needle, r.value)
                        && forall k | from <= k < r.value :: !OccursAt(s, needle, k)
    ensures r.None? ==> forall k | from <= k <= |s| :: !OccursAt(s, needle, k)
    decreases |s| - from
  {
    if OccursAt(s, needle, from) then Some(from)
    else if from == |s| then None
    else FindFrom(s, needle, from + 1)
  }

  function Find(s: string, needle: string): (r: Option<nat>)
    ensures r.Some? ==> OccursAt(s, needle, r.value) && forall k | 0 <= k < r.value :: !OccursAt(s, needle, k)
    ensures r.None? ==> forall k | 0 <= k <= |s| :: !OccursAt(s, needle, k)
  {
    FindFrom(s, needle, 0)
  }

  lemma OccursChar(s: string, c: char, k: nat)
    ensures OccursAt(s, [c], k) <==> k < |s| && s[k] == c
  {
    assert k < |s| ==> s[k..k + 1] == [s[k]];
  }

  lemma OccursClose(s: string, k: nat)
    ensures OccursAt(s, CLOSE, k) <==> k + 3 <= |s| && s[k] == s[k + 1] == ']' && s[k + 2] == '>'
  {
    assert k + 3 <= |s| ==> s[k..k + 3] == [s[k], s[k + 1], s[k + 2]];
  }

  lemma FindIs(s: string, needle: string, k: nat)
    requires OccursAt(s, needle, k) && forall j | 0 <= j < k :: !OccursAt(s, needle, j)
    ensures Find(s, needle) == Some(k)
  {
  }

  // ----- CDATA sections -----

  const OPEN := "<![CDATA["
  const CLOSE := "]]>"
  /** Ends a section, writes the closing mark as escaped text and opens the next section. */
  const SPLIT := "]]>]]&gt;<![CDATA["

  /** What is written after the opening mark for the data from a segment on. */
  function Sections(data: string): string {
    match Find(data, CLOSE)
    case None => data + CLOSE
    case Some(k) => data[..k] + (SPLIT + Sections(data[k + |CLOSE|..]))
  }

  lemma Regroup(a: string, b: string, c: string, d: string)
    ensures a + (b + (c + d)) == a + b + c + d && a + (b + c) == a + b + c
  {
  }

  lemma SliceOfSlice(s: string, from: nat, k: nat, k': nat)
    requires from + k <= |s| && from + k' <= |s|
    ensures s[from..][..k] == s[from..from + k] && s[from..][k'..] == s[from + k'..]
  {
  }

  lemma SectionsUnfold(s: string)
    ensures match Find(s, CLOSE)
            case None => Sections(s) == s + CLOSE
            case Some(k) => k + |CLOSE| <= |s| && Sections(s) == s[..k] + (SPLIT + Sections(s[k + |CLOSE|..]))
  {
  }

  method OutputXmlCDataSection(stream: OStream, data: CString)
    modifies stream
    ensures stream.out == old(stream.out) + (OPEN + Sections(data))
  {
    hide Sections;
    var segment := 0;
    stream.Write(OPEN);
    ghost var goal := stream.out + Sections(data);
    Regroup(old(stream.out), OPEN, Sections(data), "");
    assert data[0..] == data;
    while true
      invariant 0 <= segment <= |data|
      invariant stream.out + Sections(data[segment..]) == goal
      decreases |data| - segment
    {
      SectionsUnfold(data[segment..]);
      var nextSegment := Find(data[segment..], CLOSE);
      if nextSegment.Some? {
        var end := segment + nextSegment.value;
        SliceOfSlice(data, segment, nextSegment.value, nextSegment.value + |CLOSE|);
        Regroup(stream.out, data[segment..end], SPLIT, Sections(data[end + |CLOSE|..]));
        stream.Write(data[segment..end]);
        stream.Write(SPLIT);
        segment := end + |CLOSE|;
      } else {
        Regroup(stream.out, data[segment..], CLOSE, "");
        stream.Write(data[segment..]);
        break;
      }
    }
    stream.Write(CLOSE);
  }

  /** The five predefined entities (section 4.6) and hexadecimal character references (section 4.1). */
  function ReferenceChar(name: string): Option<char> {
    if name == "lt" then Some('<')
    else if name == "gt" then Some('>')
    else if name == "amp" then Some('&')
    else if name == "apos" then Some('\'')
    else if name == "quot" then Some('"')
    else if |name| > 2 && name[..2] == "#x" && HexRun(name[2..]) == |name| - 2 && HexValue(name[2..]) < 0xD800 then
      Some(HexValue(name[2..]) as char)
    else None
  }

  function Cons(a: string, rest: Option<string>): Option<string> {
    if rest.Some? then Some(a + rest.value) else None
  }

  /** The text of element content made of CDATA sections, references and
      character data (sections 2.4 and 2.7 of XML 1.0); None when not well-formed. */
  function Content(t: string): Option<string> {
    if t == "" then Some("")
    else if OPEN <= t then
      match Find(t[|OPEN|..], CLOSE) {
        case None => None
        case Some(k) => Cons(t[|OPEN|..][..k], Content(t[|OPEN|..][k + |CLOSE|..]))
      }
    else if t[0] == '&' then
      match Find(t, ";") {
        case None => None
        case Some(k) =>
          OccursChar(t, ';', k);
          var c := ReferenceChar(t[1..k]);
          if c.None? then None else Cons([c.value], Content(t[k + 1..]))
      }
    else if t[0] == '<' || CLOSE <= t then None
    else Cons([t[0]], Content(t[1..]))
  }

  lemma ConsConcat(a: string, b: string, rest: Option<string>)
    ensures Cons(a, Cons(b, rest)) == Cons(a + b, rest) && Cons("", rest) == rest
  {
    if rest.Some? {
      assert a + (b + rest.value) == a + b + rest.value && "" + rest.value == rest.value;
    }
  }

  /** A section closes where the data's own closing mark was, or at its end. */
  lemma SectionEnd(data: string, rest: string)
    ensures Find(data, CLOSE).None? ==> Find(data + CLOSE + rest, CLOSE) == Some(|data|)
    ensures Find(data, CLOSE).Some? ==>
              var k := Find(data, CLOSE).value;
              Find(data[..k] + CLOSE + rest, CLOSE) == Some(k)
  {
    var k := if Find(data, CLOSE).Some? then Find(data, CLOSE).value else |data|;
    var t := data[..k] + CLOSE + rest;
    assert data[..|data|] == data;
    assert t[k..k + |CLOSE|] == CLOSE;
    forall j | 0 <= j < k ensures !OccursAt(t, CLOSE, j) {
      OccursClose(t, j);
      OccursClose(data, j);
    }
    FindIs(t, CLOSE, k);
  }

  /** A section whose first closing mark is the one after raw. */
  lemma ContentSection(raw: string, rest: string)
    requires Find(raw + CLOSE + rest, CLOSE) == Some(|raw|)
    ensures Content(OPEN + (raw + CLOSE + rest)) == Cons(raw, Content(rest))
  {
    var body := raw + CLOSE + rest;
    assert (OPEN + body)[|OPEN|..] == body && OPEN <= OPEN + body;
    assert body[..|raw|] == raw && body[|raw| + |CLOSE|..] == rest;
  }

  lemma ContentGt(rest: string)
    ensures Content("&gt;" + rest) == Cons(">", Content(rest))
  {
    var u := "&gt;" + rest;
    assert u[1..3] == "gt" && u[4..] == rest;
    forall j | 0 <= j <= 3 ensures OccursAt(u, ";", j) <==> j == 3 { OccursChar(u, ';', j); }
    FindIs(u, ";", 3);
  }

  lemma ContentBracket(rest: string)
    requires (rest != [] && rest[0] == '&') || (|rest| >= 2 && rest[0] == ']' && rest[1] == '&')
    ensures Content("]" + rest) == Cons("]", Content(rest))
  {
    assert ("]" + rest)[1..] == rest;
  }

  lemma SplitContent(rest: string)
    ensures Content("]]&gt;" + rest) == Cons(CLOSE, Content(rest))
  {
    hide Content;
    ContentGt(rest);
    ContentBracket("&gt;" + rest);
    assert "]" + ("&gt;" + rest) == "]&gt;" + rest;
    ContentBracket("]&gt;" + rest);
    assert "]" + ("]&gt;" + rest) == "]]&gt;" + rest;
    ConsConcat("]", ">", Content(rest));
    assert "]" + ">" == "]>" && "]" + "]>" == CLOSE;
    ConsConcat("]", "]>", Content(rest));
  }

  lemma LastSection(data: string)
    requires Find(data, CLOSE).None?
    ensures Content(OPEN + Sections(data)) == Some(data)
  {
    SectionEnd(data, "");
    assert Sections(data) == data + CLOSE + "";
    ContentSection(data, "");
    assert data + "" == data;
  }

  lemma SplitSection(data: string, k: nat)
    requires Find(data, CLOSE) == Some(k)
    ensures var next := data[k + |CLOSE|..];
            Content(OPEN + Sections(data)) == Cons(data[..k] + CLOSE, Content(OPEN + Sections(next)))
  {
    hide Content, Sections;
    var tail := Sections(data[k + |CLOSE|..]);
    var rest := "]]&gt;" + (OPEN + tail);
    SectionEnd(data, rest);
    SectionsUnfold(data);
    SplitText(data[..k], tail);
    ContentSection(data[..k], rest);
    SplitContent(OPEN + tail);
    ConsConcat(data[..k], CLOSE, Content(OPEN + tail));
  }

  lemma SplitText(raw: string, tail: string)
    ensures raw + (SPLIT + tail) == raw + CLOSE + ("]]&gt;" + (OPEN + tail))
  {
    assert SPLIT == CLOSE + "]]&gt;" + OPEN;
    assert SPLIT + tail == CLOSE + ("]]&gt;" + (OPEN + tail));
  }

  /** Data without a closing mark becomes one section. */
  lemma OneSection(data: string)
    requires Find(data, "]]>").None?
    ensures OPEN + Sections(data) == "<![CDATA[" + data + "]]>"
  {
    hide Find, Sections;
    SectionsUnfold(data);
    ClosedForm(data);
  }

  /** Data with one ends its section there, writes it as escaped text and goes on in a new section. */
  lemma SeveralSections(data: string, k: nat)
    requires Find(data, "]]>") == Some(k)
    ensures k + 3 <= |data|
    ensures OPEN + Sections(data) == "<![CDATA[" + (data[..k] + ("]]>]]&gt;" + (OPEN + Sections(data[k + 3..]))))
  {
    hide Find, Sections;
    SectionsUnfold(data);
    SplitForm(Sections(data[k + 3..]));
  }

  lemma ClosedForm(data: string)
    ensures OPEN + (data + CLOSE) == "<![CDATA[" + data + "]]>"
  {
  }

  lemma SplitForm(rest: string)
    ensures SPLIT + rest == "]]>]]&gt;" + (OPEN + rest)
  {
    assert SPLIT == "]]>]]&gt;" + OPEN;
  }

  /** Parsing what was written for any text gives back the text. */
  lemma {:induction false} CDataRoundTrip(data: string)
    ensures Content(OPEN + Sections(data)) == Some(data)
    decreases |data|
  {
    hide Content, Sections;
    match Find(data, CLOSE) {
      case None =>
        LastSection(data);
      case Some(k) =>
        SplitSection(data, k);
        CDataRoundTrip(data[k + |CLOSE|..]);
        assert data == data[..k] + CLOSE + data[k + |CLOSE|..];
    }
  }

  // ----- Escaped text -----

  /** A plain char as a number, which is negative for bytes above 127 where char is signed. */
  function CharValue(c: char, signedChar: bool): int {
    if signedChar && 128 <= c as int < 256 then c as int - 256 else c as int
  }

  predicate IsNormalizableWhitespace(c: char) { c as int in {0x9, 0xA, 0xD} }

  predicate IsValidXmlCharacter(c: char, signedChar: bool) {
    IsNormalizableWhitespace(c) || CharValue(c, signedChar) >= 0x20
  }

  /** Tabs and line ends, and whatever is not a control character (section 2.2 of XML 1.0); of the
      bytes above 127, which are negative where char is signed, the code keeps none there. */
  predicate IsKept(c: char, signedChar: bool) {
    c in {'\t', '\n', '\r'} || 0x20 <= c as int < 0x80 || (c as int >= 0x80 && !(signedChar && c as int < 0x100))
  }

  lemma ValidMeansKept(c: char, signedChar: bool)
    ensures IsValidXmlCharacter(c, signedChar) <==> IsKept(c, signedChar)
  {
  }

  function EscapeChar(c: char, isAttribute: bool, signedChar: bool): string {
    if c == '<' then "&lt;"
    else if c == '>' then "&gt;"
    else if c == '&' then "&amp;"
    else if c == '\'' && isAttribute then "&apos;"
    else if c == '"' && isAttribute then "&quot;"
    else if !IsValidXmlCharacter(c, signedChar) then ""
    else if isAttribute && IsNormalizableWhitespace(c) then "&#x" + FormatByte(c as nat) + ";"
    else [c]
  }

  function Escaped(s: string, isAttribute: bool, signedChar: bool): string {
    if s == "" then ""
    else Escaped(s[..|s| - 1], isAttribute, signedChar) + EscapeChar(s[|s| - 1], isAttribute, signedChar)
  }

  function ValidOnly(s: string, signedChar: bool): string {
    if s == "" then ""
    else ValidOnly(s[..|s| - 1], signedChar) + if IsKept(s[|s| - 1], signedChar) then [s[|s| - 1]] else ""
  }

  method EscapeXml(s: string, isAttribute: bool, signedChar: bool) returns (m: string)
    ensures m == Escaped(s, isAttribute, signedChar)
  {
    m := "";
    for i := 0 to |s|
      invariant m == Escaped(s[..i], isAttribute, signedChar)
    {
      var ch := s[i];
      assert s[..i + 1][..i] == s[..i];
      match ch {
        case '<' => m := m + "&lt;";
        case '>' => m := m + "&gt;";
        case '&' => m := m + "&amp;";
        case '\'' => m := m + if isAttribute then "&apos;" else "'";
        case '"' => m := m + if isAttribute then "&quot;" else "\"";
        case _ =>
          if IsValidXmlCharacter(ch, signedChar) {
            if isAttribute && IsNormalizableWhitespace(ch) {
              m := m + ("&#x" + FormatByte(ch as nat) + ";");
            } else {
              m := m + [ch];
            }
          }
      }
    }
    assert s[..|s|] == s;
  }

  method RemoveInvalidXmlCharacters(s: string, signedChar: bool) returns (output: string)
    ensures output == ValidOnly(s, signedChar)
  {
    output := "";
    for i := 0 to |s|
      invariant output == ValidOnly(s[..i], signedChar)
    {
      assert s[..i + 1][..i] == s[..i];
      ValidMeansKept(s[i], signedChar);
      if IsValidXmlCharacter(s[i], signedChar) {
        output := output + [s[i]];
      }
    }
    assert s[..|s|] == s;
  }

  /** The text a processor reports for character data, or for an attribute value
      after the normalization of section 3.3.3; None when it is not well-formed. */
  function Resolve(t: string, isAttribute: bool): Option<string> {
    if t == "" then Some("")
    else if t[0] == '&' then
      match Find(t, ";") {
        case None => None
        case Some(k) =>
          OccursChar(t, ';', k);
          var c := ReferenceChar(t[1..k]);
          if c.None? then None else Cons([c.value], Resolve(t[k + 1..], isAttribute))
      }
    else if t[0] == '<' || (isAttribute && t[0] in {'"', '\''}) then None
    else if isAttribute && t[0] in {'\t', '\n', '\r'} then Cons(" ", Resolve(t[1..], isAttribute))
    else Cons([t[0]], Resolve(t[1..], isAttribute))
  }

  lemma ResolveReference(name: string, rest: string, isAttribute: bool)
    requires ';' !in name && ReferenceChar(name).Some?
    ensures Resolve("&" + name + ";" + rest, isAttribute) ==
        Cons([ReferenceChar(name).value], Resolve(rest, isAttribute))
  {
    var t := "&" + name + ";" + rest;
    var k := |name| + 1;
    assert t[k..k + 1] == ";" && t[1..k] == name && t[k + 1..] == rest;
    forall j | 0 <= j < k ensures !OccursAt(t, ";", j) {
      OccursChar(t, ';', j);
      assert j > 0 ==> t[j] == name[j - 1];
    }
    FindIs(t, ";", k);
  }

  lemma ResolvePlain(c: char, rest: string, isAttribute: bool)
    requires c !in {'&', '<'} && !(isAttribute && c in {'"', '\'', '\t', '\n', '\r'})
    ensures Resolve([c] + rest, isAttribute) == Cons([c], Resolve(rest, isAttribute))
  {
    assert ([c] + rest)[1..] == rest;
  }

  lemma ByteReference(c: char)
    requires IsNormalizableWhitespace(c)
    ensures ReferenceChar("#x" + FormatByte(c as nat)) == Some(c)
    ensures ';' !in "#x" + FormatByte(c as nat)
  {
    var h := FormatByte(c as nat);
    assert ("#x" + h)[..2] == "#x" && ("#x" + h)[2..] == h;
    FormattedByteValue(c as nat);
    HexRunOf(h, "");
    assert h + "" == h;
  }

  /** The references that escaping writes. */
  const REFERENCES: set<string> := {"lt", "gt", "amp", "apos", "quot", "#x09", "#x0A", "#x0D"}

  lemma WrittenByte(c: char, isAttribute: bool, signedChar: bool)
    requires isAttribute && IsNormalizableWhitespace(c)
    ensures EscapeChar(c, isAttribute, signedChar) == "&" + ("#x" + FormatByte(c as nat)) + ";"
  {
    hide FormatByte;
    assert "&" + ("#x" + FormatByte(c as nat)) + ";" == "&#x" + FormatByte(c as nat) + ";";
  }

  lemma WhitespaceBytes()
    ensures FormatByte(9) == "09" && FormatByte(10) == "0A" && FormatByte(13) == "0D"
    ensures "#x" + "09" == "#x09" && "#x" + "0A" == "#x0A" && "#x" + "0D" == "#x0D"
  {
  }

  /** A character that is escaped is written as a reference to it. */
  lemma EntityEscape(c: char, isAttribute: bool, signedChar: bool) returns (name: string)
    requires c in {'<', '>', '&'} || (isAttribute && c in {'\'', '"', '\t', '\n', '\r'})
    ensures EscapeChar(c, isAttribute, signedChar) == "&" + name + ";"
    ensures name in REFERENCES && ReferenceChar(name) == Some(c)
    ensures forall d | d in name :: d !in {'&', ';', '<', '"', '\'', '\t', '\n', '\r'}
  {
    if IsNormalizableWhitespace(c) {
      WhitespaceBytes();
      ByteReference(c);
      hide FormatByte, EscapeChar, ReferenceChar;
      name := "#x" + FormatByte(c as nat);
      WrittenByte(c, isAttribute, signedChar);
    } else {
      name := NamedEntity(c, isAttribute, signedChar);
    }
  }

  lemma NamedEntity(c: char, isAttribute: bool, signedChar: bool) returns (name: string)
    requires c in {'<', '>', '&'} || (isAttribute && c in {'\'', '"'})
    ensures EscapeChar(c, isAttribute, signedChar) == "&" + name + ";"
    ensures name in {"lt", "gt", "amp", "apos", "quot"} && ReferenceChar(name) == Some(c)
  {
    match c {
      case '<' => name := "lt";
      case '>' => name := "gt";
      case '&' => name := "amp";
      case '"' => name := "quot";
      case '\'' => name := "apos";
    }
  }

  lemma ValidOnlyChar(c: char, signedChar: bool)
    ensures ValidOnly([c], signedChar) == if IsKept(c, signedChar) then [c] else ""
  {
    assert [c][..0] == "";
  }

  /** One escaped character resolves to itself, or to nothing when it is invalid. */
  lemma ResolveChar(c: char, rest: string, isAttribute: bool, signedChar: bool)
    ensures Resolve(EscapeChar(c, isAttribute, signedChar) + rest, isAttribute) ==
            Cons(ValidOnly([c], signedChar), Resolve(rest, isAttribute))
  {
    hide Resolve, ReferenceChar;
    ValidOnlyChar(c, signedChar);
    ValidMeansKept(c, signedChar);
    ConsConcat("", "", Resolve(rest, isAttribute));
    if c in {'<', '>', '&'} || (isAttribute && c in {'\'', '"', '\t', '\n', '\r'}) {
      var name := EntityEscape(c, isAttribute, signedChar);
      ResolveReference(name, rest, isAttribute);
    } else if IsValidXmlCharacter(c, signedChar) {
      ResolvePlain(c, rest, isAttribute);
    } else {
      assert EscapeChar(c, isAttribute, signedChar) + rest == rest;
    }
  }

  lemma {:induction false} ResolveEscaped(s: string, rest: string, isAttribute: bool, signedChar: bool)
    ensures Resolve(Escaped(s, isAttribute, signedChar) + rest, isAttribute) ==
            Cons(ValidOnly(s, signedChar), Resolve(rest, isAttribute))
    decreases |s|
  {
    hide Resolve, EscapeChar;
    ConsConcat("", "", Resolve(rest, isAttribute));
    if s == "" {
      assert "" + rest == rest;
    } else {
      var front, c := s[..|s| - 1], s[|s| - 1];
      var e := EscapeChar(c, isAttribute, signedChar);
      ResolveEscaped(front, e + rest, isAttribute, signedChar);
      ResolveChar(c, rest, isAttribute, signedChar);
      assert Escaped(front, isAttribute, signedChar) + (e + rest) == Escaped(s, isAttribute, signedChar) + rest;
      ValidOnlyChar(c, signedChar);
      ConsConcat(ValidOnly(front, signedChar), ValidOnly([c], signedChar), Resolve(rest, isAttribute));
    }
  }

  /** A processor reports for escaped text exactly the valid characters of the original. */
  lemma EscapeRoundTrip(s: string, isAttribute: bool, signedChar: bool)
    ensures Resolve(Escaped(s, isAttribute, signedChar), isAttribute) == Some(ValidOnly(s, signedChar))
  {
    ResolveEscaped(s, "", isAttribute, signedChar);
    assert Escaped(s, isAttribute, signedChar) + "" == Escaped(s, isAttribute, signedChar);
    assert ValidOnly(s, signedChar) + "" == ValidOnly(s, signedChar);
    assert Resolve("", isAttribute) == Some("");
  }

  ghost predicate StartsReference(t: string, k: nat)
    requires k <= |t|
  {
    exists name: string | name in REFERENCES :: "&" + name + ";" <= t[k..]
  }

  /** No "<" at all, no "&" but in front of a reference, and in attributes neither quotes nor
      whitespace that normalization would change. */
  ghost predicate IsClean(t: string, isAttribute: bool) {
    && (forall c | c in t :: c != '<' && (isAttribute ==> c !in {'"', '\'', '\t', '\n', '\r'}))
    && (forall k | 0 <= k < |t| && t[k] == '&' :: StartsReference(t, k))
  }

  /** Escaped text has no raw markup. */
  lemma {:induction false} NoRawMarkup(s: string, isAttribute: bool, signedChar: bool)
    ensures IsClean(Escaped(s, isAttribute, signedChar), isAttribute)
  {
    if s == "" {
    } else {
      hide EscapeChar, IsClean;
      var front, c := s[..|s| - 1], s[|s| - 1];
      NoRawMarkup(front, isAttribute, signedChar);
      CleanChar(c, isAttribute, signedChar);
      CleanConcat(Escaped(front, isAttribute, signedChar), EscapeChar(c, isAttribute, signedChar), isAttribute);
    }
  }

  lemma CleanConcat(t: string, u: string, isAttribute: bool)
    requires IsClean(t, isAttribute) && IsClean(u, isAttribute)
    ensures IsClean(t + u, isAttribute)
  {
    forall k | 0 <= k < |t + u| && (t + u)[k] == '&' ensures StartsReference(t + u, k) {
      if k < |t| {
        assert StartsReference(t, k) && (t + u)[k..] == t[k..] + u;
      } else {
        assert StartsReference(u, k - |t|) && (t + u)[k..] == u[k - |t|..];
      }
    }
  }

  lemma CleanChar(c: char, isAttribute: bool, signedChar: bool)
    ensures IsClean(EscapeChar(c, isAttribute, signedChar), isAttribute)
  {
    if c in {'<', '>', '&'} || (isAttribute && c in {'\'', '"', '\t', '\n', '\r'}) {
      hide EscapeChar, IsClean, ReferenceChar;
      var name := EntityEscape(c, isAttribute, signedChar);
      CleanReference(name, isAttribute);
    } else {
      assert EscapeChar(c, isAttribute, signedChar) in {[c], ""};
    }
  }

  lemma CleanReference(name: string, isAttribute: bool)
    requires name in REFERENCES && forall d | d in name :: d !in {'&', ';', '<', '"', '\'', '\t', '\n', '\r'}
    ensures IsClean("&" + name + ";", isAttribute)
  {
    var t := "&" + name + ";";
    assert t[0..] == t;
    forall k | 0 < k < |t| - 1 ensures t[k] in name {
      assert t[k] == name[k - 1];
    }
  }

  // ----- What is kept and what is dropped -----

  /** Printable ASCII, delete, tabs and line ends. */
  predicate IsPlainText(s: string) {
    forall k | 0 <= k < |s| :: s[k] in {'\t', '\n', '\r'} || 0x20 <= s[k] as int <= 0x7F
  }

  lemma {:induction false} PlainTextKept(s: string, signedChar: bool)
    requires IsPlainText(s)
    ensures ValidOnly(s, signedChar) == s
  {
    if s == "" {
    } else {
      PlainTextKept(s[..|s| - 1], signedChar);
      assert s == s[..|s| - 1] + [s[|s| - 1]];
    }
  }

  /** Plain text is left alone, and comes back whole from its escaped form in both modes. */
  lemma PlainTextSurvives(s: string, isAttribute: bool, signedChar: bool)
    requires IsPlainText(s)
    ensures ValidOnly(s, signedChar) == s && Resolve(Escaped(s, isAttribute, signedChar), isAttribute) == Some(s)
  {
    PlainTextKept(s, signedChar);
    EscapeRoundTrip(s, isAttribute, signedChar);
  }

  predicate HasNoControls(s: string) {
    forall k | 0 <= k < |s| :: s[k] in {'\t', '\n', '\r'} || s[k] as int >= 0x20
  }

  /** No other control character is ever written. */
  lemma {:induction false} ControlsDropped(s: string, isAttribute: bool, signedChar: bool)
    ensures HasNoControls(ValidOnly(s, signedChar)) && HasNoControls(Escaped(s, isAttribute, signedChar))
  {
    if s == "" {
    } else {
      hide EscapeChar;
      ControlsDropped(s[..|s| - 1], isAttribute, signedChar);
      ControlsDroppedIn(s[|s| - 1], isAttribute, signedChar);
    }
  }

  lemma ControlsDroppedIn(c: char, isAttribute: bool, signedChar: bool)
    ensures HasNoControls(EscapeChar(c, isAttribute, signedChar))
  {
    ValidMeansKept(c, signedChar);
    if IsNormalizableWhitespace(c) {
      assert forall d | d in FormatByte(c as nat) :: IsHexDigit(d);
    }
  }

  // ----- Bytes above 127 -----

  function AsciiOnly(s: string): string {
    if s == "" then "" else AsciiOnly(s[..|s| - 1]) + if s[|s| - 1] as int < 128 then [s[|s| - 1]] else ""
  }

  predicate IsBytes(s: string) { forall k | 0 <= k < |s| :: s[k] as int < 256 }

  predicate IsAscii(s: string) { forall k | 0 <= k < |s| :: s[k] as int < 128 }

  lemma AsciiOnlyNext(s: string, c: char)
    ensures AsciiOnly(s + [c]) == AsciiOnly(s) + if c as int < 128 then [c] else ""
    ensures IsAscii(s + [c]) <==> IsAscii(s) && (c as int) < 128
  {
    assert (s + [c])[..|s|] == s && (s + [c])[|s|] == c;
    assert forall k | 0 <= k < |s| :: (s + [c])[k] == s[k];
  }

  lemma ValidOnlyNext(s: string, c: char, signedChar: bool)
    ensures ValidOnly(s + [c], signedChar) ==
        ValidOnly(s, signedChar) + if IsKept(c, signedChar) then [c] else ""
  {
    assert (s + [c])[..|s|] == s;
  }

  lemma EscapedNext(s: string, c: char, isAttribute: bool, signedChar: bool)
    ensures Escaped(s + [c], isAttribute, signedChar) ==
            Escaped(s, isAttribute, signedChar) + EscapeChar(c, isAttribute, signedChar)
  {
    hide EscapeChar;
    assert (s + [c])[..|s|] == s;
  }

  /** Shorter parts join to the same whole only when they are the same parts. */
  lemma SameParts(a: string, x: string, b: string, y: string)
    requires |a| <= |b| && |x| <= |y|
    ensures a + x == b + y <==> a == b && x == y
  {
    if a + x == b + y {
      assert |a + x| == |b + y|;
      assert a == (a + x)[..|a|] && b == (b + y)[..|b|] && x == (a + x)[|a|..] && y == (b + y)[|b|..];
    }
  }

  /** Where char is signed, exactly the bytes above 127 are lost on top of what is invalid anyway, so
      such a platform keeps the same text as others exactly when it is ASCII. */
  lemma {:induction false} NonAsciiBytes(s: string)
    requires IsBytes(s)
    ensures ValidOnly(s, true) == ValidOnly(AsciiOnly(s), false)
    ensures |ValidOnly(s, true)| <= |ValidOnly(s, false)|
    ensures ValidOnly(s, true) == ValidOnly(s, false) <==> IsAscii(s)
  {
    if s == "" {
    } else {
      var front, c := s[..|s| - 1], s[|s| - 1];
      assert s == front + [c];
      NonAsciiBytes(front);
      hide ValidOnly, AsciiOnly, IsAscii;
      AsciiOnlyNext(front, c);
      assert AsciiOnly(front) + "" == AsciiOnly(front) && ValidOnly(front, true) + "" == ValidOnly(front, true);
      ValidOnlyNext(front, c, true);
      ValidOnlyNext(front, c, false);
      ValidOnlyNext(AsciiOnly(front), c, false);
      var x, y := if IsKept(c, true) then [c] else "", if IsKept(c, false) then [c] else "";
      SameParts(ValidOnly(front, true), x, ValidOnly(front, false), y);
    }
  }

  /** The same of escaped text. */
  lemma {:induction false} NonAsciiEscaped(s: string, isAttribute: bool)
    requires IsBytes(s)
    ensures Escaped(s, isAttribute, true) == Escaped(AsciiOnly(s), isAttribute, false)
    ensures |Escaped(s, isAttribute, true)| <= |Escaped(s, isAttribute, false)|
    ensures Escaped(s, isAttribute, true) == Escaped(s, isAttribute, false) <==> IsAscii(s)
  {
    if s == "" {
    } else {
      var front, c := s[..|s| - 1], s[|s| - 1];
      assert s == front + [c];
      NonAsciiEscaped(front, isAttribute);
      hide Escaped, EscapeChar, AsciiOnly, IsAscii;
      EscapeByte(c, isAttribute);
      AsciiOnlyNext(front, c);
      assert AsciiOnly(front) + "" == AsciiOnly(front);
      assert Escaped(front, isAttribute, true) + "" == Escaped(front, isAttribute, true);
      EscapedNext(front, c, isAttribute, true);
      EscapedNext(front, c, isAttribute, false);
      EscapedNext(AsciiOnly(front), c, isAttribute, false);
      SameParts(Escaped(front, isAttribute, true), EscapeChar(c, isAttribute, true),
                Escaped(front, isAttribute, false), EscapeChar(c, isAttribute, false));
    }
  }

  lemma EscapeByte(c: char, isAttribute: bool)
    requires c as int < 256
    ensures EscapeChar(c, isAttribute, true) == if c as int < 128 then EscapeChar(c, isAttribute, false) else ""
    ensures c as int >= 128 ==> EscapeChar(c, isAttribute, false) == [c]
  {
  }

  /** "a", an e with an acute accent in UTF-8, and "b": where char is signed the two middle bytes are lost. */
  lemma NonAsciiExample(signedChar: bool)
    ensures ValidOnly("a" + [0xC3 as char] + [0xA9 as char] + "b", signedChar) ==
            if signedChar then "ab" else "a" + [0xC3 as char] + [0xA9 as char] + "b"
  {
    hide ValidOnly;
    ValidOnlyChar('a', signedChar);
    ValidOnlyNext("a", 0xC3 as char, signedChar);
    ValidOnlyNext("a" + [0xC3 as char], 0xA9 as char, signedChar);
    ValidOnlyNext("a" + [0xC3 as char] + [0xA9 as char], 'b', signedChar);
  }
}
