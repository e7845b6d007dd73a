/** The simple regular expressions of Google Test: syntax validation, matching
    and the anchored pattern used for full matches. */
module SimpleRegex {
  import opened CStrings

  const FORM_FEED: char := '\U{00000C}'
  const VERTICAL_TAB: char := '\U{00000B}'

  // ----- Character classes -----

  predicate IsAsciiDigit(ch: char) { '0' <= ch <= '9' }

  predicate IsAsciiPunct(ch: char) {
    IsInSet(ch, {'^', '-', '!', '\"', '#', '$', '%', '&', '\'', '(', ')', '*', '+', ',', '.', '/', ':', ';',
                 '<', '=', '>', '?', '@', '[', '\\', ']', '_', '`', '{', '|', '}', '~'})
  }

  predicate IsRepeat(ch: char) { IsInSet(ch, {'?', '*', '+'}) }

  predicate IsAsciiWhiteSpace(ch: char) {
    IsInSet(ch, {' ', FORM_FEED, '\n', '\r', '\t', VERTICAL_TAB})
  }

  predicate IsAsciiWordChar(ch: char) {
    'a' <= ch <= 'z' || 'A' <= ch <= 'Z' || '0' <= ch <= '9' || ch == '_'
  }

  predicate IsValidEscape(c: char) {
    IsAsciiPunct(c) || IsInSet(c, {'d', 'D', 'f', 'n', 'r', 's', 'S', 't', 'v', 'w', 'W'})
  }

  function AtomMatchesChar(escaped: bool, patternChar: char, ch: char): bool {
    if escaped then
      match patternChar
      case 'd' => IsAsciiDigit(ch)
      case 'D' => !IsAsciiDigit(ch)
      case 'f' => ch == FORM_FEED
      case 'n' => ch == '\n'
      case 'r' => ch == '\r'
      case 's' => IsAsciiWhiteSpace(ch)
      case 'S' => !IsAsciiWhiteSpace(ch)
      case 't' => ch == '\t'
      case 'v' => ch == VERTICAL_TAB
      case 'w' => IsAsciiWordChar(ch)
      case 'W' => !IsAsciiWordChar(ch)
      case _ => IsAsciiPunct(patternChar) && patternChar == ch
    else
      (patternChar == '.' && ch != '\n') || patternChar == ch
  }

  // ----- Syntax trees -----

  /** ASCII punctuation is what lies between the control characters, digits and letters. */
  predicate IsPunctuation(c: char) {
    '!' <= c <= '/' || ':' <= c <= '@' || '[' <= c <= '`' || '{' <= c <= '~'
  }

  /** The escapes the documentation lists: the named ones, and any punctuation. */
  predicate IsSupportedEscape(c: char) {
    c in {'d', 'D', 'f', 'n', 'r', 's', 'S', 't', 'v', 'w', 'W'} || IsPunctuation(c)
  }

  lemma PunctuationListed(c: char)
    ensures IsAsciiPunct(c) ==> IsPunctuation(c)
  {
  }

  lemma PunctuationComplete(c: char)
    ensures IsPunctuation(c) ==> IsAsciiPunct(c)
  {
  }

  /** The code's two sets hold exactly the documented escapes. */
  lemma EscapesListed(c: char)
    ensures IsValidEscape(c) <==> IsSupportedEscape(c)
  {
    PunctuationListed(c);
    PunctuationComplete(c);
    hide IsAsciiPunct, IsPunctuation;
  }

  datatype Repeat = Once | Optional | Star | Plus

  /** An atom ("c" or "\c") and what may follow it. */
  datatype Item = Item(escaped: bool, c: char, repeat: Repeat) {
    predicate Supported() {
      if escaped then IsSupportedEscape(c)
      else c !in {NUL, '\\', '^', '$', '(', ')', '[', ']', '{', '}', '|', '?', '*', '+'}
    }
  }

  /** A whole simple regex: optional '^', items, optional '$'. */
  datatype Syntax = Syntax(bol: bool, items: seq<Item>, eol: bool) {
    predicate Supported() { AllSupported(items) }
  }

  predicate AllSupported(items: seq<Item>) {
    forall i | 0 <= i < |items| :: items[i].Supported()
  }

  function RepeatText(r: Repeat): string {
    match r
    case Once => ""
    case Optional => "?"
    case Star => "*"
    case Plus => "+"
  }

  function AtomText(it: Item): string {
    if it.escaped then ['\\', it.c] else [it.c]
  }

  /** The text of a regex from its items on. */
  function TailText(items: seq<Item>, eol: bool): string {
    if items == [] then (if eol then "$" else "")
    else AtomText(items[0]) + (RepeatText(items[0].repeat) + TailText(items[1..], eol))
  }

  function Text(t: Syntax): string {
    (if t.bol then "^" else "") + TailText(t.items, t.eol)
  }

  ghost predicate IsSyntax(regex: string) {
    exists t: Syntax :: t.Supported() && Text(t) == regex
  }

  // ----- Languages -----

  /** w is a run of characters the item's atom matches, of a length its repeat allows. */
  ghost predicate InItem(it: Item, w: string) {
    && (it.repeat.Once? || it.repeat.Plus? ==> |w| >= 1)
    && (it.repeat.Once? || it.repeat.Optional? ==> |w| <= 1)
    && forall k | 0 <= k < |w| :: AtomMatchesChar(it.escaped, it.c, w[k])
  }

  /** w is a concatenation of one word of each item. */
  ghost predicate InLang(items: seq<Item>, w: string) {
    if items == [] then w == []
    else exists k | 0 <= k <= |w| :: InItem(items[0], w[..k]) && InLang(items[1..], w[k..])
  }

  /** Some prefix of w is in the language; all of w when the regex is end-anchored. */
  ghost predicate HeadMatches(items: seq<Item>, eol: bool, w: string) {
    exists k | 0 <= k <= |w| :: InLang(items, w[..k]) && (eol ==> k == |w|)
  }

  /** Some substring w[i..j], respecting both anchors, is in the language. */
  ghost predicate Finds(t: Syntax, w: string) {
    exists i, j | 0 <= i <= j <= |w| ::
      InLang(t.items, w[i..j]) && (t.bol ==> i == 0) && (t.eol ==> j == |w|)
  }

  /** The documented meaning of an atom: the characters it stands for. */
  ghost predicate Denotes(escaped: bool, c: char, ch: char)
    decreases if c in {'D', 'S', 'W'} then 2 else if c == 'w' then 1 else 0
  {
    if !escaped then (if c == '.' then ch != '\n' else ch == c)
    else if c == 'd' then ch in "0123456789"
    else if c == 's' then ch in {' ', '\t', '\n', '\r'} || ch as int in {0x0B, 0x0C}
    else if c == 'w' then 'a' <= ch <= 'z' || 'A' <= ch <= 'Z' || ch == '_' || Denotes(true, 'd', ch)
    else if c == 'D' then !Denotes(true, 'd', ch)
    else if c == 'S' then !Denotes(true, 's', ch)
    else if c == 'W' then !Denotes(true, 'w', ch)
    else if c == 'f' then ch as int == 0x0C
    else if c == 'n' then ch == '\n'
    else if c == 'r' then ch == '\r'
    else if c == 't' then ch == '\t'
    else if c == 'v' then ch as int == 0x0B
    else ch == c
  }

  lemma AtomMeaning(it: Item, ch: char)
    requires it.Supported()
    ensures AtomMatchesChar(it.escaped, it.c, ch) <==> Denotes(it.escaped, it.c, ch)
  {
    if IsAsciiDigit(ch) {
      DigitListed(ch);
    }
    assert IsAsciiWhiteSpace(ch) <==> Denotes(true, 's', ch);
    assert IsAsciiWordChar(ch) <==> Denotes(true, 'w', ch);
    if it.escaped && it.c !in {'d','D','s','S','w','W','f','n','r','t','v'} {
       assert IsAsciiPunct(it.c);
    }
  }

  lemma DigitListed(ch: char)
    requires IsAsciiDigit(ch)
    ensures ch in "0123456789"
  {
    var digits := "0123456789";
    assert digits[(ch - '0') as int] == ch;
  }

  // ----- Validation -----

  predicate IsUnsupported(ch: char) { IsInSet(ch, {'(', ')', '[', ']', '{', '}', '|'}) }

  predicate IsRepeatable(ch: char) { !IsInSet(ch, {'^', '$', '?', '*', '+'}) }

  function TokenSize(s: string): nat
    requires s != []
  {
    if s[0] == '\\' then 2 else 1
  }

  /** Does the validation loop find no fault with the token at the head of s? */
  predicate TokenOk(s: string, atStart: bool, prevRepeatable: bool)
    requires s != []
    ensures TokenOk(s, atStart, prevRepeatable) ==> |s| >= TokenSize(s)
  {
    if s[0] == '\\' then |s| >= 2 && IsValidEscape(s[1])
    else
      && !(s[0] == '^' && !atStart)
      && !(s[0] == '$' && |s| > 1)
      && !IsUnsupported(s[0])
      && !(IsRepeat(s[0]) && !prevRepeatable)
  }

  /** Does it find no fault with all of s? */
  predicate Scan(s: string, atStart: bool, prevRepeatable: bool) {
    s != [] ==>
      && TokenOk(s, atStart, prevRepeatable)
      && Scan(s[TokenSize(s)..], false, IsRepeatable(s[0]))
  }

  lemma ScanNil()
    ensures forall atStart, prev :: Scan([], atStart, prev)
  {
  }

  lemma ScanAt(regex: CString, i: nat, prev: bool)
    requires i < |regex|
    ensures At(regex, i) == '\\' ==>
              (Scan(regex[i..], i == 0, prev) <==>
               At(regex, i + 1) != NUL && IsValidEscape(At(regex, i + 1)) && Scan(regex[i + 2..], false, true))
    ensures At(regex, i) != '\\' ==>
              (Scan(regex[i..], i == 0, prev) <==>
               TokenOk(regex[i..], i == 0, prev) && Scan(regex[i + 1..], false, IsRepeatable(At(regex, i))))
  {
    var s := regex[i..];
    assert s[1..] == regex[i + 1..];
    assert |s| >= 2 ==> s[2..] == regex[i + 2..];
  }

  method ValidateRegex(maybeRegex: Option<CString>) returns (ok: bool)
    ensures ok <==> maybeRegex.Some? && IsSyntax(maybeRegex.value)
  {
    if maybeRegex.None? {
      return false;
    }
    var regex := maybeRegex.value;
    hide Scan, IsSyntax, IsValidEscape, IsUnsupported, IsRepeat, IsRepeatable;
    ScanIsSyntax(regex);
    ScanNil();
    assert regex[0..] == regex && regex[|regex|..] == [];
    var isValid := true;
    var prevRepeatable := false;
    var i := 0;
    while At(regex, i) != NUL
      invariant 0 <= i <= |regex|
      invariant isValid && Scan(regex[i..], i == 0, prevRepeatable) <==> Scan(regex, true, false)
      decreases |regex| - i
    {
      ScanAt(regex, i, prevRepeatable);
      if At(regex, i) == '\\' {
        i := i + 1;
        if At(regex, i) == NUL {
          return false;
        }
        if !IsValidEscape(At(regex, i)) {
          isValid := false;
        }
        prevRepeatable := true;
      } else {
        var ch := At(regex, i);
        if ch == '^' && i > 0 {
          isValid := false;
        } else if ch == '$' && At(regex, i + 1) != NUL {
          isValid := false;
        } else if IsUnsupported(ch) {
          isValid := false;
        } else if IsRepeat(ch) && !prevRepeatable {
          isValid := false;
        }
        prevRepeatable := IsRepeatable(ch);
      }
      i := i + 1;
    }
    return isValid;
  }

  lemma TailCons(it: Item, items: seq<Item>, eol: bool)
    ensures TailText([it] + items, eol) == AtomText(it) + (RepeatText(it.repeat) + TailText(items, eol))
  {
    assert ([it] + items)[1..] == items;
  }

  /** Every accepted remainder is an optional repeat mark followed by items. */
  lemma {:induction false} ScanSound(s: CString, prev: bool) returns (lead: Repeat, items: seq<Item>, eol: bool)
    requires Scan(s, false, prev)
    ensures AllSupported(items) && (lead.Once? || prev)
    ensures s == RepeatText(lead) + TailText(items, eol)
  {
    hide TailText, TokenOk, IsValidEscape, IsSupportedEscape, IsUnsupported;
    if s == [] {
      lead, items, eol := Once, [], false;
    } else {
      TokenSound(s, prev);
      lead, items, eol := ScanSound(s[TokenSize(s)..], IsRepeatable(s[0]));
      if s == "$" {
        items, eol := [], true;
      } else if IsRepeat(s[0]) {
        lead := MarkSound(s, items, eol);
        return;
      } else {
        var it := Item(s[0] == '\\', s[TokenSize(s) - 1], lead);
        ItemSound(s, it, items, eol);
        lead, items := Once, [it] + items;
      }
    }
    TailEnd(eol);
    assert RepeatText(Once) + TailText(items, eol) == TailText(items, eol);
  }

  /** A repeat mark and what follows it. */
  lemma MarkSound(s: string, items: seq<Item>, eol: bool) returns (lead: Repeat)
    requires s != [] && IsRepeat(s[0]) && s[1..] == RepeatText(Once) + TailText(items, eol)
    ensures !lead.Once? && s == RepeatText(lead) + TailText(items, eol)
  {
    hide TailText;
    assert s == [s[0]] + s[1..] && RepeatText(Once) + TailText(items, eol) == TailText(items, eol);
    lead := if s[0] == '?' then Optional else if s[0] == '*' then Star else Plus;
  }

  /** An atom and what follows it. */
  lemma ItemSound(s: string, it: Item, items: seq<Item>, eol: bool)
    requires |s| >= |AtomText(it)| && s[..|AtomText(it)|] == AtomText(it)
    requires s[|AtomText(it)|..] == RepeatText(it.repeat) + TailText(items, eol)
    ensures s == TailText([it] + items, eol)
  {
    hide TailText, RepeatText, AtomText;
    TailCons(it, items, eol);
    assert s == s[..|AtomText(it)|] + s[|AtomText(it)|..];
  }

  lemma TokenSound(s: string, prev: bool)
    requires s != [] && TokenOk(s, false, prev) && s[0] != NUL
    ensures s[0] == '\\' ==> |s| > 1 && IsSupportedEscape(s[1])
    ensures s[0] != '\\' ==>
              s == "$" || (IsRepeat(s[0]) && prev) ||
                  (IsRepeatable(s[0]) && forall r :: Item(false, s[0], r).Supported())
  {
    if s[0] == '\\' {
      EscapesListed(s[1]);
    }
  }

  lemma TailEnd(eol: bool)
    ensures TailText([], eol) == if eol then "$" else ""
  {
  }

  lemma ScanAtom(it: Item, rest: string, atStart: bool, prev: bool)
    requires it.Supported()
    ensures Scan(AtomText(it) + rest, atStart, prev) == Scan(rest, false, true)
  {
    EscapesListed(it.c);
    hide IsAsciiPunct, IsSupportedEscape, IsValidEscape;
    var s := AtomText(it) + rest;
    assert s[|AtomText(it)|..] == rest;
    assert it.escaped ==> s[0] == '\\' && s[1] == it.c;
    assert !it.escaped ==> s[0] == it.c && !IsRepeat(it.c);
  }

  lemma ScanMark(r: Repeat, rest: string)
    requires !r.Once?
    ensures Scan(RepeatText(r) + rest, false, true) == Scan(rest, false, false)
  {
    assert (RepeatText(r) + rest)[1..] == rest;
  }

  /** Every text of supported items, after an optional repeat mark, is accepted. */
  lemma {:induction false} ScanComplete(lead: Repeat, items: seq<Item>, eol: bool, prev: bool, atStart: bool)
    requires AllSupported(items) && (lead.Once? || (prev && !atStart))
    ensures Scan(RepeatText(lead) + TailText(items, eol), atStart, prev)
    decreases items, !lead.Once?
  {
    var tail := TailText(items, eol);
    if !lead.Once? {
      ScanComplete(Once, items, eol, false, false);
      assert RepeatText(Once) + tail == tail;
      ScanMark(lead, tail);
    } else {
      assert RepeatText(lead) + tail == tail;
      if items == [] {
        ScanEnd(eol, atStart, prev);
      } else {
        ScanComplete(items[0].repeat, items[1..], eol, true, false);
        ScanAtom(items[0], RepeatText(items[0].repeat) + TailText(items[1..], eol), atStart, prev);
      }
    }
  }

  lemma ScanEnd(eol: bool, atStart: bool, prev: bool)
    ensures Scan(TailText([], eol), atStart, prev)
  {
  }

  /** The validator's scan accepts exactly the texts of supported syntax trees. */
  lemma ScanIsSyntax(regex: CString)
    ensures Scan(regex, true, false) <==> IsSyntax(regex)
  {
    hide Text, Scan;
    if Scan(regex, true, false) {
      var t := ScannedSyntax(regex);
    }
    if t: Syntax :| t.Supported() && Text(t) == regex {
      ScanSyntax(t);
    }
  }

  lemma ScannedSyntax(regex: CString) returns (t: Syntax)
    requires Scan(regex, true, false)
    ensures t.Supported() && Text(t) == regex
  {
    var bol := regex != [] && regex[0] == '^';
    var s := if bol then regex[1..] else regex;
    var _, items, eol := ScanSound(s, false);
    t := Syntax(bol, items, eol);
  }

  lemma ScanSyntax(t: Syntax)
    requires t.Supported() && NUL !in Text(t)
    ensures Scan(Text(t), true, false)
  {
    hide TailText;
    ScanComplete(Once, t.items, t.eol, false, !t.bol);
    assert RepeatText(Once) + TailText(t.items, t.eol) == TailText(t.items, t.eol);
    if t.bol {
      ScanCaret(TailText(t.items, t.eol));
    }
  }

  lemma ScanCaret(rest: string)
    ensures Scan("^" + rest, true, false) == Scan(rest, false, false)
  {
    assert ("^" + rest)[1..] == rest;
  }

  // ----- Matching -----

  /** The greatest repetition count of '*' and '+', SIZE_MAX - 1 where size_t has 64 bits. */
  const MAX_COUNT: nat := 0xFFFF_FFFF_FFFF_FFFE

  /** Matching an item and the rest at the head of w, by the length of the item's word. */
  lemma HeadUnfold(items: seq<Item>, eol: bool, w: string)
    requires items != []
    ensures HeadMatches(items, eol, w) <==>
            exists i | 0 <= i <= |w| :: InItem(items[0], w[..i]) && HeadMatches(items[1..], eol, w[i..])
  {
    if HeadMatches(items, eol, w) {
      var k :| 0 <= k <= |w| && InLang(items, w[..k]) && (eol ==> k == |w|);
      var i :| 0 <= i <= k && InItem(items[0], w[..k][..i]) && InLang(items[1..], w[..k][i..]);
      assert w[..k][..i] == w[..i] && w[..k][i..] == w[i..][..k - i];
      assert HeadMatches(items[1..], eol, w[i..]);
    }
    if i :| 0 <= i <= |w| && InItem(items[0], w[..i]) && HeadMatches(items[1..], eol, w[i..]) {
      var k :| 0 <= k <= |w[i..]| && InLang(items[1..], w[i..][..k]) && (eol ==> k == |w[i..]|);
      assert w[..i + k][..i] == w[..i] && w[..i + k][i..] == w[i..][..k];
      assert InLang(items, w[..i + k]);
    }
  }

  lemma AtomHead(it: Item)
    requires it.Supported()
    ensures var c := AtomText(it)[0];
            c != '$' && c != '^' && !IsRepeat(c) && (c == '\\' <==> it.escaped)
  {
  }

  lemma TailHead(items: seq<Item>, eol: bool)
    requires AllSupported(items)
    ensures var s := TailText(items, eol);
            && (s == [] <==> items == [] && !eol)
            && (s != [] ==> !IsRepeat(s[0]) && s[0] != '^' && (s[0] == '$' <==> items == [] && eol))
  {
    if items != [] {
      AtomHead(items[0]);
    }
  }

  lemma SliceConcat(a: string, m: string, rest: string)
    ensures (a + (m + rest))[|a|..] == m + rest && (a + (m + rest))[|a| + |m|..] == rest
    ensures forall k | 0 <= k < |a| :: (a + (m + rest))[k] == a[k]
  {
  }

  lemma TailParts(items: seq<Item>, eol: bool, s: string)
    requires items != [] && AllSupported(items) && s == TailText(items, eol)
    ensures var it, n, rest := items[0], |AtomText(items[0])|, TailText(items[1..], eol);
            && |s| >= n && s[n - 1] == it.c && (s[0] == '\\' <==> it.escaped) && s[0] != '$'
            && (it.repeat.Once? ==> s[n..] == rest && (|s| > n ==> !IsRepeat(s[n])))
            && (!it.repeat.Once? ==> |s| > n && RepeatText(it.repeat) == [s[n]] && IsRepeat(s[n]) && s[n + 1..] == rest)
  {
    var it := items[0];
    AtomHead(it);
    TailHead(items[1..], eol);
    var rest := TailText(items[1..], eol);
    SliceConcat(AtomText(it), RepeatText(it.repeat), rest);
    assert RepeatText(Once) + rest == rest;
    var n := |AtomText(it)|;
    assert !it.repeat.Once? ==> s[n] == s[n..][0] == RepeatText(it.repeat)[0];
  }

  /** Where the matcher finds the atom, the repeat mark and the rest of a regex. */
  lemma TailLayout(items: seq<Item>, eol: bool, regex: CString, r: nat)
    requires items != [] && AllSupported(items) && r <= |regex| && regex[r..] == TailText(items, eol)
    ensures var it, n := items[0], r + |AtomText(items[0])|;
            && n <= |regex| && regex[n - 1] == it.c && (regex[r] == '\\' <==> it.escaped) && regex[r] != '$'
            && (it.repeat.Once? ==> regex[n..] == TailText(items[1..], eol) && !IsRepeat(At(regex, n)))
            && (!it.repeat.Once? ==> n < |regex| && RepeatText(it.repeat) == [regex[n]] && IsRepeat(regex[n])
                                     && regex[n + 1..] == TailText(items[1..], eol))
  {
    var n := |AtomText(items[0])|;
    TailParts(items, eol, regex[r..]);
    assert regex[r..][n..] == regex[r + n..];
    assert !items[0].repeat.Once? ==> regex[r..][n + 1..] == regex[r + n + 1..];
  }

  lemma HeadEmpty(eol: bool, w: string)
    ensures HeadMatches([], eol, w) <==> (eol ==> w == [])
  {
    assert InLang([], w[..0]) && w[..|w|] == w;
  }

  /** An atom without a repeat mark consumes exactly one matching character. */
  lemma HeadSingle(items: seq<Item>, eol: bool, w: string)
    requires items != [] && items[0].repeat.Once?
    ensures HeadMatches(items, eol, w) <==>
            w != [] && AtomMatchesChar(items[0].escaped, items[0].c, w[0]) && HeadMatches(items[1..], eol, w[1..])
  {
    HeadUnfold(items, eol, w);
    assert forall i | 0 <= i <= |w| :: InItem(items[0], w[..i]) ==> i == 1;
    assert w != [] ==> w[..1] == [w[0]];
  }

  /** The words of an item among the prefixes of w, given that its atom matches the first n characters. */
  lemma WordsOf(it: Item, w: string, n: nat)
    requires n <= |w| && forall k | 0 <= k < n :: AtomMatchesChar(it.escaped, it.c, w[k])
    ensures InItem(it, w[..n]) <==>
        (it.repeat.Once? || it.repeat.Plus? ==> n >= 1) && (it.repeat.Once? || it.repeat.Optional? ==> n <= 1)
    ensures it.repeat.Optional? ==> forall k | 1 < k <= |w| :: !InItem(it, w[..k])
    ensures n < |w| && !AtomMatchesChar(it.escaped, it.c, w[n]) ==> forall k | n < k <= |w| :: !InItem(it, w[..k])
  {
    assert forall k | n < k <= |w| :: w[..k][n] == w[n];
  }

  /** Matches the atom repeated as `repeat` says, then the items at offset r of regex. */
  method MatchRepetitionAndRegexAtHead(escaped: bool, c: char, repeat: char,
                                       regex: CString, r: nat, str: CString, s: nat,
                                       ghost it: Item, ghost rest: seq<Item>, ghost eol: bool)
    returns (matched: bool)
    requires r <= |regex| && s <= |str| <= MAX_COUNT
    requires it.escaped == escaped && it.c == c && RepeatText(it.repeat) == [repeat]
    requires AllSupported(rest) && regex[r..] == TailText(rest, eol)
    ensures matched <==> HeadMatches([it] + rest, eol, str[s..])
    decreases |regex| - r, 1
  {
    hide AtomMatchesChar, HeadMatches, TailText, InItem;
    var minCount := if repeat == '+' then 1 else 0;
    var maxCount := if repeat == '?' then 1 else MAX_COUNT;
    ghost var w := str[s..];
    HeadUnfold([it] + rest, eol, w);
    WordsOf(it, w, 0);
    var i := 0;
    while i <= maxCount
      invariant 0 <= i <= maxCount + 1 && i <= |w|
      invariant forall k | 0 <= k < i :: InItem(it, w[..k]) ==> !HeadMatches(rest, eol, w[k..])
      invariant forall k | 0 <= k < i :: AtomMatchesChar(escaped, c, w[k])
      decreases maxCount + 1 - i
    {
      WordsOf(it, w, i);
      if i >= minCount {
        var tailMatched := MatchRegexAtHead(regex, r, str, s + i, rest, eol);
        assert w[i..] == str[s + i..];
        if tailMatched {
          return true;
        }
      }
      if At(str, s + i) == NUL || !AtomMatchesChar(escaped, c, At(str, s + i)) {
        return false;
      }
      i := i + 1;
    }
    return false;
  }

  /** Does the regex from offset r match a prefix of str from offset s? */
  method MatchRegexAtHead(regex: CString, r: nat, str: CString, s: nat, ghost items: seq<Item>, ghost eol: bool)
    returns (matched: bool)
    requires r <= |regex| && s <= |str| <= MAX_COUNT
    requires AllSupported(items) && regex[r..] == TailText(items, eol)
    ensures matched <==> HeadMatches(items, eol, str[s..])
    decreases |regex| - r, 0
  {
    hide AtomMatchesChar, HeadMatches, TailText;
    ghost var w := str[s..];
    TailHead(items, eol);
    HeadEmpty(eol, w);
    if At(regex, r) == NUL {
      return true;
    }
    if At(regex, r) == '$' {
      return At(str, s) == NUL;
    }
    TailLayout(items, eol, regex, r);
    var escaped := At(regex, r) == '\\';
    var p := if escaped then r + 1 else r;
    if IsRepeat(At(regex, p + 1)) {
      assert [items[0]] + items[1..] == items;
      matched := MatchRepetitionAndRegexAtHead(escaped, At(regex, p), At(regex, p + 1), regex, p + 2, str, s,
                                               items[0], items[1..], eol);
    } else {
      HeadSingle(items, eol, w);
      if At(str, s) == NUL || !AtomMatchesChar(escaped, At(regex, p), At(str, s)) {
        return false;
      }
      assert w[1..] == str[s + 1..];
      matched := MatchRegexAtHead(regex, p + 1, str, s + 1, items[1..], eol);
    }
  }

  lemma FindsAtHead(t: Syntax, w: string)
    ensures Finds(t, w) <==>
            exists i | 0 <= i <= |w| :: (t.bol ==> i == 0) && HeadMatches(t.items, t.eol, w[i..])
  {
    if i, j :| 0 <= i <= j <= |w| && InLang(t.items, w[i..j]) && (t.bol ==> i == 0) && (t.eol ==> j == |w|) {
      assert w[i..][..j - i] == w[i..j];
      assert HeadMatches(t.items, t.eol, w[i..]);
    }
    if i :| 0 <= i <= |w| && (t.bol ==> i == 0) && HeadMatches(t.items, t.eol, w[i..]) {
      var k :| 0 <= k <= |w[i..]| && InLang(t.items, w[i..][..k]) && (t.eol ==> k == |w[i..]|);
      assert w[i..][..k] == w[i..i + k];
    }
  }

  /** Does the regex match any substring of str? Either may be the null pointer. */
  method MatchRegexAnywhere(maybeRegex: Option<CString>, maybeStr: Option<CString>, ghost t: Syntax)
    returns (matched: bool)
    requires maybeRegex.Some? ==> t.Supported() && Text(t) == maybeRegex.value
    requires maybeStr.Some? ==> |maybeStr.value| <= MAX_COUNT
    ensures matched <==> maybeRegex.Some? && maybeStr.Some? && Finds(t, maybeStr.value)
  {
    if maybeRegex.None? || maybeStr.None? {
      return false;
    }
    var regex, str := maybeRegex.value, maybeStr.value;
    FindsAtHead(t, str);
    TailHead(t.items, t.eol);
    if At(regex, 0) == '^' {
      assert regex[1..] == TailText(t.items, t.eol);
      matched := MatchRegexAtHead(regex, 1, str, 0, t.items, t.eol);
      assert str[0..] == str;
      return;
    }
    assert regex[0..] == TailText(t.items, t.eol);
    var s := 0;
    while true
      invariant 0 <= s <= |str|
      invariant forall i | 0 <= i < s :: !HeadMatches(t.items, t.eol, str[i..])
      decreases |str| - s
    {
      var here := MatchRegexAtHead(regex, 0, str, s, t.items, t.eol);
      if here {
        return true;
      }
      if At(str, s) == NUL {
        return false;
      }
      s := s + 1;
    }
  }

  // ----- Unique reading -----

  /** The text of items determines the items and the end anchor. */
  lemma {:induction false} TailUnique(items: seq<Item>, eol: bool, items': seq<Item>, eol': bool)
    requires AllSupported(items) && AllSupported(items')
    requires TailText(items, eol) == TailText(items', eol')
    ensures items == items' && eol == eol'
  {
    hide TailText;
    TailHead(items, eol);
    TailHead(items', eol');
    if items != [] && items' != [] {
      var s := TailText(items, eol);
      TailParts(items, eol, s);
      TailParts(items', eol', s);
      assert items[0] == items'[0];
      TailUnique(items[1..], eol, items'[1..], eol');
      assert items == [items[0]] + items[1..] && items' == [items'[0]] + items'[1..];
    }
  }

  lemma TextTail(t: Syntax)
    ensures t.bol ==> Text(t) != [] && Text(t)[0] == '^' && Text(t)[1..] == TailText(t.items, t.eol)
    ensures !t.bol ==> Text(t) == TailText(t.items, t.eol)
  {
    assert !t.bol ==> "" + TailText(t.items, t.eol) == TailText(t.items, t.eol);
  }

  lemma SyntaxUnique(t: Syntax, t': Syntax)
    requires t.Supported() && t'.Supported() && Text(t) == Text(t')
    ensures t == t'
  {
    hide TailText;
    TailHead(t.items, t.eol);
    TailHead(t'.items, t'.eol);
    TextTail(t);
    TextTail(t');
    TailUnique(t.items, t.eol, t'.items, t'.eol);
  }

  ghost function Tree(regex: string): (t: Syntax)
    requires IsSyntax(regex)
    ensures t.Supported() && Text(t) == regex
  {
    var t: Syntax :| t.Supported() && Text(t) == regex;
    t
  }

  // ----- Anchored patterns and the RE class -----

  /** The pattern a full match searches for. */
  function Anchored(regex: string): string {
    (if regex == [] || regex[0] != '^' then "^" else "") + regex
    + (if regex == [] || regex[|regex| - 1] != '$' then "$" else "")
  }

  /** Is the last token of the regex an escaped '$' without a repeat mark? */
  predicate EndsInEscapedDollar(s: string) {
    |s| >= 2 &&
    if s[0] != '\\' then EndsInEscapedDollar(s[1..])
    else if |s| == 2 then s[1] == '$'
    else EndsInEscapedDollar(s[2..])
  }

  ghost predicate LastItemIsDollar(items: seq<Item>) {
    items != [] && items[|items| - 1] == Item(true, '$', Once)
  }

  lemma EscapedDollarConcat(a: Item, rest: string)
    requires a.Supported()
    ensures EndsInEscapedDollar(AtomText(a) + rest) <==>
            if rest == [] then a.escaped && a.c == '$' else EndsInEscapedDollar(rest)
  {
    var s := AtomText(a) + rest;
    assert s[|AtomText(a)|..] == rest;
  }

  lemma LastOfConcat(a: string, b: string)
    requires a + b != []
    ensures (a + b)[|a + b| - 1] == if b != [] then b[|b| - 1] else a[|a| - 1]
  {
  }

  lemma EscapedDollarMark(r: Repeat, rest: string)
    ensures EndsInEscapedDollar(RepeatText(r) + rest) <==> EndsInEscapedDollar(rest)
  {
    assert (RepeatText(r) + rest)[|RepeatText(r)|..] == rest;
    assert r.Once? ==> RepeatText(r) + rest == rest;
  }

  lemma TailLast(items: seq<Item>, eol: bool)
    requires AllSupported(items)
    ensures var s := TailText(items, eol);
            && (EndsInEscapedDollar(s) <==> !eol && LastItemIsDollar(items))
            && (s != [] && s[|s| - 1] == '$' <==> eol || LastItemIsDollar(items))
  {
    TailEscapedDollar(items, eol);
    TailDollar(items, eol);
  }

  lemma {:induction false} TailEscapedDollar(items: seq<Item>, eol: bool)
    requires AllSupported(items)
    ensures EndsInEscapedDollar(TailText(items, eol)) <==> !eol && LastItemIsDollar(items)
  {
    if items == [] {
    } else {
      hide EndsInEscapedDollar;
      var it, rest := items[0], TailText(items[1..], eol);
      TailEscapedDollar(items[1..], eol);
      TailHead(items[1..], eol);
      EscapedDollarConcat(it, RepeatText(it.repeat) + rest);
      EscapedDollarMark(it.repeat, rest);
      assert |items| > 1 ==> items[1..][|items| - 2] == items[|items| - 1];
    }
  }

  lemma {:induction false} TailDollar(items: seq<Item>, eol: bool)
    requires AllSupported(items)
    ensures var s := TailText(items, eol); s != [] && s[|s| - 1] == '$' <==> eol || LastItemIsDollar(items)
  {
    if items == [] {
    } else {
      var it, rest := items[0], TailText(items[1..], eol);
      TailDollar(items[1..], eol);
      TailHead(items[1..], eol);
      AtomHead(it);
      LastOfConcat(AtomText(it), RepeatText(it.repeat) + rest);
      if RepeatText(it.repeat) + rest != [] {
        LastOfConcat(RepeatText(it.repeat), rest);
      }
      assert |items| > 1 ==> items[1..][|items| - 2] == items[|items| - 1];
    }
  }

  /** The anchored pattern is a valid regex: the same items with both anchors,
      except that an escaped '$' at the end keeps the end anchor from being added. */
  lemma AnchoredSyntax(t: Syntax)
    requires t.Supported()
    ensures Anchored(Text(t)) == Text(Syntax(true, t.items, !EndsInEscapedDollar(Text(t))))
    ensures EndsInEscapedDollar(Text(t)) <==> !t.eol && LastItemIsDollar(t.items)
  {
    hide EndsInEscapedDollar, TailText, LastItemIsDollar;
    var regex, tail := Text(t), TailText(t.items, t.eol);
    TailHead(t.items, t.eol);
    TailLast(t.items, t.eol);
    CaretKeepsEnd(tail);
    EolText(t.items);
    TextTail(t);
    assert t.bol ==> regex == "^" + tail;
    LastOfConcat("^", tail);
    var closed := TailText(t.items, !EndsInEscapedDollar(regex));
    assert closed == tail + if tail == [] || tail[|tail| - 1] != '$' then "$" else "";
    assert Anchored(regex) == "^" + closed;
  }

  lemma CaretKeepsEnd(tail: string)
    ensures EndsInEscapedDollar("^" + tail) <==> EndsInEscapedDollar(tail)
  {
    assert ("^" + tail)[1..] == tail;
  }

  lemma {:induction false} EolText(items: seq<Item>)
    ensures TailText(items, true) == TailText(items, false) + "$"
  {
    if items == [] {
    } else {
      EolText(items[1..]);
    }
  }

  ghost predicate FullMatches(regex: string, w: string)
    requires IsSyntax(regex)
  {
    Finds(Syntax(true, Tree(regex).items, !EndsInEscapedDollar(regex)), w)
  }

  /** Copies the text into the buffer from offset n on. */
  method CopyInto(buffer: array<char>, n: nat, text: string)
    requires n + |text| <= buffer.Length
    modifies buffer
    ensures buffer[..n + |text|] == old(buffer[..n]) + text
  {
    for i := 0 to |text|
      invariant buffer[..n] == old(buffer[..n])
      invariant buffer[n..n + i] == text[..i]
    {
      buffer[n + i] := text[i];
    }
    assert buffer[..n + |text|] == buffer[..n] + buffer[n..n + |text|];
  }

  /** Builds the anchored pattern in a buffer with room for both anchors and the terminator. */
  method BuildAnchored(regex: CString) returns (full: Option<CString>)
    ensures full == Some(Anchored(regex))
  {
    var len := |regex|;
    var buffer := new char[len + 3];
    var n := 0;
    if At(regex, 0) != '^' {
      buffer[n] := '^';
      n := n + 1;
    }
    CopyInto(buffer, n, regex);
    n := n + len;
    if len == 0 || regex[len - 1] != '$' {
      buffer[n] := '$';
      n := n + 1;
    }
    buffer[n] := NUL;
    assert buffer[..n] == Anchored(regex);
    full := Some(buffer[..n]);
  }

  /** A compiled simple regex. */
  class RE {
    var pattern: Option<CString>
    var fullPattern: Option<CString>
    var isValid: bool

    ghost predicate Valid()
      reads this
    {
      && (isValid <==> pattern.Some? && IsSyntax(pattern.value))
      && (isValid ==> fullPattern == Some(Anchored(pattern.value)))
    }

    constructor (regex: Option<CString>)
      ensures Valid() && pattern == regex
    {
      pattern, fullPattern, isValid := None, None, false;
      new;
      Init(regex);
    }

    method Init(regex: Option<CString>)
      modifies this
      ensures Valid() && pattern == regex
    {
      pattern, fullPattern := None, None;
      if regex.Some? {
        pattern := regex;
      }
      isValid := ValidateRegex(regex);
      if !isValid {
        return;
      }
      fullPattern := BuildAnchored(regex.value);
    }

    /** Does the regex match the whole of str? */
    static method FullMatch(str: Option<CString>, re: RE) returns (matched: bool)
      requires re.Valid() && (str.Some? ==> |str.value| <= MAX_COUNT)
      ensures matched <==> re.isValid && str.Some? && FullMatches(re.pattern.value, str.value)
    {
      if !re.isValid {
        return false;
      }
      ghost var regex := re.pattern.value;
      AnchoredSyntax(Tree(regex));
      matched := MatchRegexAnywhere(re.fullPattern, str,
                                    Syntax(true, Tree(regex).items, !EndsInEscapedDollar(regex)));
    }

    /** Does the regex match some substring of str? */
    static method PartialMatch(str: Option<CString>, re: RE) returns (matched: bool)
      requires re.Valid() && (str.Some? ==> |str.value| <= MAX_COUNT)
      ensures matched <==> re.isValid && str.Some? && Finds(Tree(re.pattern.value), str.value)
    {
      if !re.isValid {
        return false;
      }
      matched := MatchRegexAnywhere(re.pattern, str, Tree(re.pattern.value));
    }
  }

  // ----- What a full match means -----

  lemma AtomInhabited(it: Item) returns (ch: char)
    requires it.Supported()
    ensures ch != NUL && AtomMatchesChar(it.escaped, it.c, ch)
  {
    ch := if !it.escaped then (if it.c == '.' then 'a' else it.c)
          else match it.c
            case 'd' => '0' case 'D' => 'a' case 'f' => FORM_FEED case 'n' => '\n' case 'r' => '\r'
            case 's' => ' ' case 'S' => 'a' case 't' => '\t' case 'v' => VERTICAL_TAB
            case 'w' => 'a' case 'W' => ' ' case _ => it.c;
  }

  lemma {:induction false} LangInhabited(items: seq<Item>) returns (w: CString)
    requires AllSupported(items)
    ensures InLang(items, w)
  {
    w := [];
    if items == [] {
    } else {
      var ch := AtomInhabited(items[0]);
      var rest := LangInhabited(items[1..]);
      w := [ch] + rest;
      assert w[..1] == [ch] && w[1..] == rest;
      assert InItem(items[0], w[..1]);
    }
  }

  lemma {:induction false} LastDollar(items: seq<Item>, w: string)
    requires LastItemIsDollar(items) && InLang(items, w)
    ensures w != [] && w[|w| - 1] == '$'
  {
    var k :| 0 <= k <= |w| && InItem(items[0], w[..k]) && InLang(items[1..], w[k..]);
    if |items| > 1 {
      LastDollar(items[1..], w[k..]);
    } else {
      assert w[..k] == w && AtomMatchesChar(true, '$', w[0]);
    }
  }

  /** Without an escaped '$' at its end, a regex fully matches exactly the words of its language. */
  lemma FullMatchMeansMembership(regex: CString, w: string)
    requires IsSyntax(regex) && !EndsInEscapedDollar(regex)
    ensures FullMatches(regex, w) <==> InLang(Tree(regex).items, w)
  {
    assert w[0..|w|] == w;
  }

  /** With one, it fully matches exactly the strings with a prefix in its language. */
  lemma FullMatchMeansPrefix(regex: CString, w: string)
    requires IsSyntax(regex) && EndsInEscapedDollar(regex)
    ensures FullMatches(regex, w) <==> exists k | 0 <= k <= |w| :: InLang(Tree(regex).items, w[..k])
  {
    if FullMatches(regex, w) {
      var i, j :| 0 <= i <= j <= |w| && InLang(Tree(regex).items, w[i..j]) && i == 0;
      assert w[i..j] == w[..j];
    }
    if k :| 0 <= k <= |w| && InLang(Tree(regex).items, w[..k]) {
      assert w[0..k] == w[..k];
    }
  }

  /** FullMatch means membership of the whole string exactly for the regexes not ending in an escaped '$'. */
  lemma FullMatchExact(regex: CString)
    requires IsSyntax(regex)
    ensures (forall w: CString :: FullMatches(regex, w) <==> InLang(Tree(regex).items, w))
            <==> !EndsInEscapedDollar(regex)
  {
    if EndsInEscapedDollar(regex) {
      AnchoredSyntax(Tree(regex));
      var items := Tree(regex).items;
      var v := LangInhabited(items);
      var w: CString := v + "a";
      FullMatchMeansPrefix(regex, w);
      assert w[..|v|] == v;
      if InLang(items, w) {
        LastDollar(items, w);
      }
    } else {
      forall w: CString ensures FullMatches(regex, w) <==> InLang(Tree(regex).items, w) {
        FullMatchMeansMembership(regex, w);
      }
    }
  }

  /** The regex \\$ is meant to match the string $ only, and fully matches $a as well. */
  lemma EscapedDollarExample()
    ensures IsSyntax("\\$") && FullMatches("\\$", "$a") && !InLang(Tree("\\$").items, "$a")
  {
    var t := Syntax(false, [Item(true, '$', Once)], false);
    assert t.items[1..] == [];
    assert Text(t) == "\\$";
    SyntaxUnique(t, Tree("\\$"));
    assert "$a"[0..1][..1] == "$" && "$a"[0..1][1..] == [];
    assert InLang(t.items, "$a"[0..1]);
    if InLang(t.items, "$a") {
      LastDollar(t.items, "$a");
    }
  }
}
