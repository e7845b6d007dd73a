/** Wildcard patterns and the test filter. */
module Glob {
  import opened CStrings

  // ----- The glob relation -----

  /** The strings one pattern character stands for. */
  predicate Piece(c: char, w: string) {
    c == '*' || (c == '?' && |w| == 1) || (c !in {'*', '?'} && w == [c])
  }

  /** s splits into one piece for each character of the pattern. */
  ghost predicate Matches(pattern: string, s: string) {
    if pattern == [] then s == []
    else exists k | 0 <= k <= |s| :: Piece(pattern[0], s[..k]) && Matches(pattern[1..], s[k..])
  }

  /** The text before the first occurrence of a separator. */
  function Before(s: string, separator: char): (r: string)
    ensures separator !in r && r <= s && (|r| < |s| ==> s[|r|] == separator)
  {
    if s == [] || s[0] == separator then [] else [s[0]] + Before(s[1..], separator)
  }

  // ----- The matcher -----

  /** Recursive matching; ':' or the terminator ends the pattern. */
  predicate PatternMatchesString(pattern: CString, str: CString)
    decreases |pattern| + |str|
  {
    var c := At(pattern, 0);
    if c == NUL || c == ':' then At(str, 0) == NUL
    else if c == '?' then At(str, 0) != NUL && PatternMatchesString(pattern[1..], str[1..])
    else if c == '*' then
      (At(str, 0) != NUL && PatternMatchesString(pattern, str[1..])) || PatternMatchesString(pattern[1..], str)
    else c == At(str, 0) && PatternMatchesString(pattern[1..], str[1..])
  }

  lemma StarUnfold(rest: string, s: string)
    ensures Matches("*" + rest, s) <==> Matches(rest, s) || (s != [] && Matches("*" + rest, s[1..]))
  {
    var p := "*" + rest;
    assert p[1..] == rest;
    if Matches(p, s) {
      var k :| 0 <= k <= |s| && Matches(rest, s[k..]);
      if k == 0 {
        assert s[0..] == s;
      } else {
        assert s[1..][k - 1..] == s[k..];
      }
    }
    if Matches(rest, s) {
      assert s[0..] == s;
    }
    if s != [] && Matches(p, s[1..]) {
      var k :| 0 <= k <= |s[1..]| && Matches(rest, s[1..][k..]);
      assert s[1..][k..] == s[k + 1..];
    }
  }

  lemma CharUnfold(c: char, rest: string, s: string)
    requires c != '*'
    ensures Matches([c] + rest, s) <==> s != [] && (c == '?' || s[0] == c) && Matches(rest, s[1..])
  {
    var p := [c] + rest;
    assert p[1..] == rest;
    assert forall k | 0 <= k <= |s| :: Piece(c, s[..k]) ==> k == 1;
    assert s != [] ==> s[..1] == [s[0]];
  }

  /** The matcher decides the glob relation for the pattern up to ':' or its end. */
  lemma {:induction false} MatcherExact(pattern: CString, str: CString)
    ensures PatternMatchesString(pattern, str) <==> Matches(Before(pattern, ':'), str)
    decreases |pattern| + |str|
  {
    if pattern == [] || pattern[0] == ':' {
      assert Before(pattern, ':') == [];
    } else {
      hide Matches;
      var rest := Before(pattern[1..], ':');
      assert Before(pattern, ':') == [pattern[0]] + rest;
      if pattern[0] == '*' {
        StarUnfold(rest, str);
        MatcherExact(pattern[1..], str);
        if str != [] {
          MatcherExact(pattern, str[1..]);
        }
      } else {
        CharUnfold(pattern[0], rest, str);
        if str != [] {
          MatcherExact(pattern[1..], str[1..]);
        }
      }
    }
  }

  // ----- Filters -----

  /** The patterns of a ':'-separated list, of which there is always at least one. */
  function Pieces(filter: string): (r: seq<string>)
    ensures r != [] && forall k | 0 <= k < |r| :: ':' !in r[k]
  {
    var first := Before(filter, ':');
    if |first| == |filter| then [first] else [first] + Pieces(filter[|first| + 1..])
  }

  ghost predicate MatchesAny(pieces: seq<string>, name: string) {
    exists k | 0 <= k < |pieces| :: Matches(pieces[k], name)
  }

  method MatchesFilter(name: CString, filter: CString) returns (matched: bool)
    ensures matched <==> MatchesAny(Pieces(filter), name)
  {
    var cur := 0;
    assert filter[0..] == filter;
    while true
      invariant 0 <= cur <= |filter|
      invariant MatchesAny(Pieces(filter), name) <==> MatchesAny(Pieces(filter[cur..]), name)
      decreases |filter| - cur
    {
      ghost var rest := filter[cur..];
      MatcherExact(rest, name);
      NextPiece(rest, name);
      if PatternMatchesString(filter[cur..], name) {
        return true;
      }
      var next := Before(filter[cur..], ':');
      if |next| == |filter| - cur {
        return false;
      }
      cur := cur + |next| + 1;
      assert rest[|next| + 1..] == filter[cur..];
    }
  }

  lemma NextPiece(filter: string, name: string)
    ensures var first := Before(filter, ':');
            MatchesAny(Pieces(filter), name) <==>
            Matches(first, name) || (|first| < |filter| && MatchesAny(Pieces(filter[|first| + 1..]), name))
  {
    hide Matches;
    var pieces := Pieces(filter);
    var first := Before(filter, ':');
    assert pieces[0] == first;
    if |first| < |filter| {
      var rest := Pieces(filter[|first| + 1..]);
      assert forall k | 0 <= k < |rest| :: rest[k] == pieces[k + 1];
    }
  }

  /** Some pattern before the first '-' matches and none after it does; a flag
      that starts with '-' selects everything the negative patterns leave. */
  ghost predicate FilterSelects(flag: string, fullName: string) {
    var positive := Before(flag, '-');
    && ((positive == "" && flag != "") || MatchesAny(Pieces(positive), fullName))
    && (positive == flag || !MatchesAny(Pieces(flag[|positive| + 1..]), fullName))
  }

  lemma NoPattern(name: string)
    requires name != ""
    ensures !MatchesAny(Pieces(""), name)
  {
    assert Pieces("") == [""];
  }

  method FilterMatchesTest(testCaseName: CString, testName: CString, flag: CString) returns (selected: bool)
    ensures selected <==> FilterSelects(flag, testCaseName + "." + testName)
  {
    var fullName: CString := testCaseName + "." + testName;
    var dash := Before(flag, '-');
    var positive: CString, negative: CString;
    if |dash| == |flag| {
      positive := flag;
      negative := "";
      NoPattern(fullName);
      assert dash == flag;
    } else {
      positive := dash;
      negative := flag[|dash| + 1..];
      if positive == "" {
        positive := "*";
        UniversalMatches(fullName);
      }
    }
    var selectedIn := MatchesFilter(fullName, positive);
    if !selectedIn {
      return false;
    }
    var selectedOut := MatchesFilter(fullName, negative);
    return !selectedOut;
  }

  lemma UniversalMatches(name: string)
    ensures MatchesAny(Pieces("*"), name)
  {
    assert Before("*", ':') == "*" by { assert Before("*"[1..], ':') == ""; }
    assert Pieces("*")[0] == "*";
    assert name[..|name|] == name && name[|name|..] == "" && "*"[1..] == "";
    assert Matches("*", name);
  }

  // ----- What the built-in filters select -----

  lemma {:induction false} LiteralMatches(text: string, rest: string, s: string)
    requires '*' !in text && '?' !in text
    ensures Matches(text + rest, s) <==> text <= s && Matches(rest, s[|text|..])
  {
    if text == "" {
      assert text + rest == rest && s[0..] == s;
    } else {
      assert text + rest == [text[0]] + (text[1..] + rest);
      CharUnfold(text[0], text[1..] + rest, s);
      assert s != [] ==> (text <= s <==> s[0] == text[0] && text[1..] <= s[1..]);
      if s != [] {
        LiteralMatches(text[1..], rest, s[1..]);
        assert |text| <= |s| ==> s[1..][|text| - 1..] == s[|text|..];
      }
    }
  }

  ghost predicate Contains(s: string, text: string) {
    exists k | 0 <= k <= |s| :: text <= s[k..]
  }

  ghost predicate EndsWith(s: string, text: string) {
    |text| <= |s| && s[|s| - |text|..] == text
  }

  lemma StarMeaning(rest: string, s: string)
    ensures Matches("*" + rest, s) <==> exists k | 0 <= k <= |s| :: Matches(rest, s[k..])
  {
    assert ("*" + rest)[1..] == rest;
  }

  lemma StarAlone(s: string)
    ensures Matches("*", s)
  {
    assert "*"[1..] == "" && s[|s|..] == "";
    assert Piece('*', s[..|s|]);
  }

  /** "*text" selects the names ending in the text, "*text*" those containing it, "text*" those starting with it. */
  lemma WildcardForms(text: string, s: string)
    requires '*' !in text && '?' !in text
    ensures Matches("*" + text, s) <==> EndsWith(s, text)
    ensures Matches("*" + (text + "*"), s) <==> Contains(s, text)
    ensures Matches(text + "*", s) <==> text <= s
  {
    hide Matches;
    StarMeaning(text, s);
    StarMeaning(text + "*", s);
    forall k | 0 <= k <= |s| ensures Matches(text, s[k..]) <==> s[k..] == text {
      LiteralMatches(text, "", s[k..]);
      assert text + "" == text;
      EmptyMatches(if text <= s[k..] then s[k..][|text|..] else "");
    }
    forall k | 0 <= k <= |s| ensures Matches(text + "*", s[k..]) <==> text <= s[k..] {
      LiteralMatches(text, "*", s[k..]);
      if text <= s[k..] {
        StarAlone(s[k..][|text|..]);
      }
    }
    assert s[0..] == s;
    if EndsWith(s, text) {
      assert Matches(text, s[|s| - |text|..]);
    }
  }

  lemma EmptyMatches(s: string)
    ensures Matches("", s) <==> s == ""
  {
  }

  const DEATH_TEST_CASE_FILTER := "*DeathTest:*DeathTest/*"
  const DISABLE_TEST_FILTER := "DISABLED_*:*/DISABLED_*"

  lemma TwoPieces(a: string, b: string, name: string)
    requires ':' !in a && ':' !in b
    ensures MatchesAny(Pieces(a + ":" + b), name) <==> Matches(a, name) || Matches(b, name)
  {
    hide Matches;
    var filter := a + ":" + b;
    BeforeIs(a, ":" + b);
    assert filter == a + (":" + b) && filter[|a| + 1..] == b;
    NextPiece(filter, name);
    BeforeIs(b, "");
    assert b + "" == b;
    NextPiece(b, name);
  }

  lemma {:induction false} BeforeIs(a: string, rest: string)
    requires ':' !in a && (rest == "" || rest[0] == ':')
    ensures Before(a + rest, ':') == a
  {
    if a == "" {
      assert a + rest == rest;
    } else {
      assert (a + rest)[1..] == a[1..] + rest;
      BeforeIs(a[1..], rest);
    }
  }

  predicate IsPlain(text: string) { forall k | 0 <= k < |text| :: text[k] !in {'*', '?', ':'} }

  lemma SuffixOrInfix(text: string, infix: string, name: string)
    requires IsPlain(text) && IsPlain(infix)
    ensures MatchesAny(Pieces("*" + text + ":*" + infix + "*"), name) <==> EndsWith(name, text) || Contains(name, infix)
  {
    hide EndsWith, Contains, Matches, MatchesAny, Pieces;
    assert "*" + text + ":*" + infix + "*" == ("*" + text) + ":" + ("*" + (infix + "*"));
    TwoPieces("*" + text, "*" + (infix + "*"), name);
    WildcardForms(text, name);
    WildcardForms(infix, name);
  }

  lemma PrefixOrInfix(text: string, infix: string, name: string)
    requires IsPlain(text) && IsPlain(infix)
    ensures MatchesAny(Pieces(text + "*:*" + infix + "*"), name) <==> text <= name || Contains(name, infix)
  {
    hide EndsWith, Contains, Matches, MatchesAny, Pieces;
    assert text + "*:*" + infix + "*" == (text + "*") + ":" + ("*" + (infix + "*"));
    TwoPieces(text + "*", "*" + (infix + "*"), name);
    WildcardForms(text, name);
    WildcardForms(infix, name);
  }

  /** Death test cases are those whose name ends in DeathTest or contains DeathTest and a slash. */
  lemma DeathTestNames(name: string)
    ensures MatchesAny(Pieces(DEATH_TEST_CASE_FILTER), name) <==>
        EndsWith(name, "DeathTest") || Contains(name, "DeathTest/")
  {
    hide EndsWith, Contains, MatchesAny, Pieces;
    assert DEATH_TEST_CASE_FILTER == "*" + "DeathTest" + ":*" + "DeathTest/" + "*";
    SuffixOrInfix("DeathTest", "DeathTest/", name);
  }

  /** Disabled names start with DISABLED_ or contain it after a slash. */
  lemma DisabledNames(name: string)
    ensures MatchesAny(Pieces(DISABLE_TEST_FILTER), name) <==> "DISABLED_" <= name || Contains(name, "/DISABLED_")
  {
    hide EndsWith, Contains, MatchesAny, Pieces;
    assert DISABLE_TEST_FILTER == "DISABLED_" + "*:*" + "/DISABLED_" + "*";
    PrefixOrInfix("DISABLED_", "/DISABLED_", name);
  }
}
