/** Parsing the command line: recognised flags are stored and removed from argv in place. */
module Argv {
  import opened CStrings

  datatype Kind = BoolFlag | Int32Flag | StringFlag

  datatype Value = Bool(b: bool) | Int32(n: int) | Text(s: CString)

  const PREFIX: string := "--gtest_"

  /** The flags in the order in which an argument is tried against them. */
  const FLAGS: seq<(string, Kind)> := [
    ("also_run_disabled_tests", BoolFlag), ("break_on_failure", BoolFlag), ("catch_exceptions", BoolFlag),
    ("color", StringFlag), ("death_test_style", StringFlag), ("death_test_use_fork", BoolFlag),
    ("filter", StringFlag), ("internal_run_death_test", StringFlag), ("list_tests", BoolFlag),
    ("output", StringFlag), ("print_time", BoolFlag), ("random_seed", Int32Flag), ("repeat", Int32Flag),
    ("shuffle", BoolFlag), ("stack_trace_depth", Int32Flag), ("stream_result_to", StringFlag),
    ("throw_on_failure", BoolFlag)]

  const FLAG_COUNT: nat := 17

  function Flag(k: nat): (string, Kind)
    requires k < FLAG_COUNT
  {
    FLAGS[k]
  }

  /** What the C library gives: strtol in base 10, as the value and the number of characters
      read, and the range of long. */
  datatype Platform = Platform(strtol: string -> (int, nat), longMin: int, longMax: int)

  // ----- One argument -----

  /** The text after "--gtest_<flag>=", or nothing after "--gtest_<flag>" when the value is optional. */
  function ParseFlagValue(str: CString, flag: string, defOptional: bool): Option<CString> {
    var flagStr := PREFIX + flag;
    if !(flagStr <= str) then None
    else
      var flagEnd: CString := str[|flagStr|..];
      if defOptional && At(flagEnd, 0) == NUL then Some(flagEnd)
      else if At(flagEnd, 0) != '=' then None
      else Some(flagEnd[1..])
  }

  function ParseBoolFlag(str: CString, flag: string): Option<Value> {
    match ParseFlagValue(str, flag, true)
    case None => None
    case Some(v) => Some(Bool(!(At(v, 0) == '0' || At(v, 0) == 'f' || At(v, 0) == 'F')))
  }

  function ParseInt32(str: CString, c: Platform): Option<Value> {
    var (value, read) := c.strtol(str);
    if read != |str| then None
    else if value == c.longMax || value == c.longMin || !(-0x8000_0000 <= value < 0x8000_0000) then None
    else Some(Int32(value))
  }

  function ParseInt32Flag(str: CString, flag: string, c: Platform): Option<Value> {
    match ParseFlagValue(str, flag, false)
    case None => None
    case Some(v) => ParseInt32(v, c)
  }

  function ParseStringFlag(str: CString, flag: string): Option<Value> {
    match ParseFlagValue(str, flag, false)
    case None => None
    case Some(v) => Some(Text(v))
  }

  function ParseFlag(str: CString, flag: (string, Kind), c: Platform): Option<Value> {
    match flag.1
    case BoolFlag => ParseBoolFlag(str, flag.0)
    case Int32Flag => ParseInt32Flag(str, flag.0, c)
    case StringFlag => ParseStringFlag(str, flag.0)
  }

  /** The first flag from number k on that accepts the argument. */
  function Accepted(str: CString, k: nat, c: Platform): Option<nat>
    requires k <= FLAG_COUNT
    decreases FLAG_COUNT - k
  {
    if k == FLAG_COUNT then None
    else if ParseFlag(str, Flag(k), c).Some? then Some(k)
    else Accepted(str, k + 1, c)
  }

  function SkipPrefix(prefix: string, str: CString): Option<CString> {
    if prefix <= str then Some(str[|prefix|..]) else None
  }

  function HasGoogleTestFlagPrefix(str: CString): bool {
    var dashes := if SkipPrefix("--", str).Some? then SkipPrefix("--", str)
                  else if SkipPrefix("-", str).Some? then SkipPrefix("-", str)
                  else SkipPrefix("/", str);
    match dashes
    case None => false
    case Some(rest) =>
      SkipPrefix("gtest_internal_", rest).None? &&
          (SkipPrefix("gtest_", rest).Some? || SkipPrefix("gtest-", rest).Some?)
  }

  predicate AsksForHelp(str: CString) {
    str == "--help" || str == "-h" || str == "-?" || str == "/?" || HasGoogleTestFlagPrefix(str)
  }

  // ----- What the flags mean -----

  /** The argument gives a flag the value v. A bool flag is true when named alone, and otherwise false exactly when
      its text starts with one of 0, f and F; a string flag gets its text; an int flag gets the number that its
      text is, to the last character, unless that is out of range. */
  ghost predicate Gives(str: CString, name: string, kind: Kind, v: Value, c: Platform) {
    var flag := "--gtest_" + name;
    if flag + "=" <= str then
      var text := str[|flag| + 1..];
      match kind
      case BoolFlag => v == Bool(text == "" || text[0] !in {'0', 'f', 'F'})
      case StringFlag => v == Text(text)
      case Int32Flag =>
        && v.Int32? && c.strtol(text) == (v.n, |text|)
        && -0x8000_0000 <= v.n <= 0x7FFF_FFFF && v.n != c.longMin && v.n != c.longMax
    else kind == BoolFlag && str == flag && v == Bool(true)
  }

  /** Parsing finds the value that the argument gives. */
  lemma ParsedIsGiven(str: CString, name: string, kind: Kind, v: Value, c: Platform)
    ensures ParseFlag(str, (name, kind), c) == Some(v) <==> Gives(str, name, kind, v, c)
  {
    var flag := PREFIX + name;
    assert PREFIX + name == "--gtest_" + name;
    if flag <= str {
      assert str == flag + str[|flag|..];
      assert flag + "=" <= str <==> |str| > |flag| && str[|flag|] == '=';
      assert str == flag <==> |str| == |flag|;
    } else {
      assert !(flag + "=" <= str);
    }
  }

  /** The argument gives flag number k the value v. */
  ghost predicate Sets(str: CString, k: nat, v: Value, c: Platform)
    requires k < FLAG_COUNT
  {
    Gives(str, Flag(k).0, Flag(k).1, v, c)
  }

  lemma SetsMeans(str: CString, k: nat, c: Platform)
    requires k < FLAG_COUNT
    ensures forall v :: Sets(str, k, v, c) <==> ParseFlag(str, Flag(k), c) == Some(v)
    ensures (exists v :: Sets(str, k, v, c)) <==> ParseFlag(str, Flag(k), c).Some?
  {
    hide Gives, ParseFlag, Flag;
    forall v ensures Sets(str, k, v, c) <==> ParseFlag(str, Flag(k), c) == Some(v) {
      ParsedIsGiven(str, Flag(k).0, Flag(k).1, v, c);
    }
    if ParseFlag(str, Flag(k), c).Some? {
      assert Sets(str, k, ParseFlag(str, Flag(k), c).value, c);
    }
  }

  /** Some flag is given a value. */
  ghost predicate Recognized(str: CString, c: Platform) {
    exists k, v | 0 <= k < FLAG_COUNT :: Sets(str, k, v, c)
  }

  /** Arguments after which usage is shown. */
  ghost predicate IsHelpRequest(str: CString) {
    || str in {"--help", "-h", "-?", "/?"}
    || HasPrefix(str, "--") || HasPrefix(str, "-") || HasPrefix(str, "/")
  }

  /** Does the argument start like a flag of this library, though not like an internal one? */
  ghost predicate HasPrefix(str: CString, dashes: string) {
    (dashes + "gtest_" <= str || dashes + "gtest-" <= str) && !(dashes + "gtest_internal_" <= str)
  }

  lemma SkipsMore(str: CString, dashes: string, word: string)
    requires dashes <= str
    ensures SkipPrefix(word, str[|dashes|..]).Some? <==> dashes + word <= str
  {
    assert str == dashes + str[|dashes|..];
    if word <= str[|dashes|..] {
      assert str[|dashes|..] == word + str[|dashes|..][|word|..];
      assert str == (dashes + word) + str[|dashes|..][|word|..];
    }
    if dashes + word <= str {
      assert (dashes + word)[|dashes|..] == word;
    }
  }

  lemma PrefixMeans(str: CString, dashes: string)
    ensures HasPrefix(str, dashes) ==> dashes <= str
    ensures dashes <= str ==>
              (HasPrefix(str, dashes) <==>
               var rest := str[|dashes|..];
               SkipPrefix("gtest_internal_", rest).None? &&
               (SkipPrefix("gtest_", rest).Some? || SkipPrefix("gtest-", rest).Some?))
  {
    if dashes <= str {
      SkipsMore(str, dashes, "gtest_internal_");
      SkipsMore(str, dashes, "gtest_");
      SkipsMore(str, dashes, "gtest-");
    }
  }

  lemma HelpMeans(str: CString)
    ensures AsksForHelp(str) <==> IsHelpRequest(str)
  {
    PrefixMeans(str, "--");
    PrefixMeans(str, "-");
    PrefixMeans(str, "/");
    if "--" <= str {
      assert str[0] == '-' && str[1] == '-';
      assert !HasPrefix(str, "-") && !HasPrefix(str, "/");
    }
  }

  predicate IsName(name: string) { '=' !in name }

  lemma FlagNames()
    ensures forall k | 0 <= k < FLAG_COUNT :: IsName(Flag(k).0)
  {
  }

  lemma FlagNamesEnd()
    ensures forall k | 0 <= k < FLAG_COUNT :: NUL !in Flag(k).0
  {
  }

  /** The value found is what follows the prefix, the name and the equals sign; only an
      optional value may be left out. */
  lemma FlagValueMeans(str: CString, flag: string, defOptional: bool, v: CString)
    ensures ParseFlagValue(str, flag, defOptional) == Some(v) <==>
            str == PREFIX + flag + "=" + v || (defOptional && v == "" && str == PREFIX + flag)
  {
    var flagStr := PREFIX + flag;
    if str == flagStr + "=" + v {
      assert str[|flagStr|..] == "=" + v;
    }
    if flagStr <= str {
      assert str == flagStr + str[|flagStr|..];
    }
  }

  /** An argument that follows one name with nothing or an equals sign follows no other name so. */
  lemma NameUnique(str: CString, a: string, b: string)
    requires IsName(a) && IsName(b)
    requires ParseFlagValue(str, a, true).Some? && ParseFlagValue(str, b, true).Some?
    ensures a == b
  {
    var n := |PREFIX|;
    assert forall k | 0 <= k < |a| :: (PREFIX + a)[n + k] == a[k] == str[n + k];
    assert forall k | 0 <= k < |b| :: (PREFIX + b)[n + k] == b[k] == str[n + k];
    assert |str| > n + |a| ==> str[n + |a|] == '=';
    assert |str| > n + |b| ==> str[n + |b|] == '=';
    if |a| == |b| {
      assert a == b;
    }
  }

  lemma FlagHasValue(str: CString, flag: (string, Kind), c: Platform)
    requires ParseFlag(str, flag, c).Some?
    ensures ParseFlagValue(str, flag.0, true).Some?
  {
  }

  lemma FlagsDistinct(j: nat, k: nat)
    requires j < k < FLAG_COUNT
    ensures Flag(j).0 != Flag(k).0
  {
  }

  /** At most one flag accepts an argument, so the order in which they are tried does not matter. */
  lemma {:induction false} AcceptedIsUnique(str: CString, from: nat, k: nat, c: Platform)
    requires from <= k < FLAG_COUNT
    ensures Accepted(str, from, c) == Some(k) <==> ParseFlag(str, Flag(k), c).Some?
    decreases k - from
  {
    if from < k {
      AcceptedIsUnique(str, from + 1, k, c);
      if ParseFlag(str, Flag(from), c).Some? && ParseFlag(str, Flag(k), c).Some? {
        FlagHasValue(str, Flag(from), c);
        FlagHasValue(str, Flag(k), c);
        FlagNames();
        NameUnique(str, Flag(from).0, Flag(k).0);
        FlagsDistinct(from, k);
      }
    } else {
      AcceptedFrom(str, from + 1, c);
    }
  }

  lemma {:induction false} AcceptedFrom(str: CString, from: nat, c: Platform)
    requires from <= FLAG_COUNT
    ensures Accepted(str, from, c).Some? ==>
              from <= Accepted(str, from, c).value < FLAG_COUNT &&
                  ParseFlag(str, Flag(Accepted(str, from, c).value), c).Some?
    decreases FLAG_COUNT - from
  {
    hide Flag, ParseFlag;
    if from >= FLAG_COUNT {
    } else {
      AcceptedFrom(str, from + 1, c);
    }
  }

  /** Some flag accepts an argument exactly when it gives some flag a value. */
  lemma RecognizedMeans(str: CString, c: Platform)
    ensures Recognized(str, c) <==> Accepted(str, 0, c).Some?
  {
    hide Flag, ParseFlag, Sets, Accepted;
    AcceptedFrom(str, 0, c);
    if Accepted(str, 0, c).Some? {
      SetsMeans(str, Accepted(str, 0, c).value, c);
    }
    if k, v :| 0 <= k < FLAG_COUNT && Sets(str, k, v, c) {
      SetsMeans(str, k, c);
      AcceptedIsUnique(str, 0, k, c);
    }
  }

  /** The argument that names a flag, and gives it a text unless it stands alone, sets flag k. */
  ghost predicate SetBy(name: string, text: Option<CString>, k: nat, v: Value, c: Platform)
    requires k < FLAG_COUNT
  {
    && NUL !in name
    && Sets("--gtest_" + name + if text.Some? then "=" + text.value else "", k, v, c)
  }

  lemma NamedWithText(k: nat, text: CString, v: Value, c: Platform)
    requires k < FLAG_COUNT
    requires match Flag(k).1
             case BoolFlag => v == Bool(text == "" || text[0] !in {'0', 'f', 'F'})
             case StringFlag => v == Text(text)
             case Int32Flag =>
               && v.Int32? && c.strtol(text) == (v.n, |text|)
               && -0x8000_0000 <= v.n <= 0x7FFF_FFFF && v.n != c.longMin && v.n != c.longMax
    ensures SetBy(Flag(k).0, Some(text), k, v, c)
  {
    FlagNamesEnd();
    hide Flag;
    var flag := "--gtest_" + Flag(k).0;
    assert (flag + ("=" + text))[|flag| + 1..] == text;
  }

  lemma NamedAlone(k: nat, c: Platform)
    requires k < FLAG_COUNT && Flag(k).1 == BoolFlag
    ensures SetBy(Flag(k).0, None, k, Bool(true), c)
  {
    FlagNamesEnd();
    hide Flag;
    var flag := "--gtest_" + Flag(k).0;
    assert flag + "" == flag;
  }

  /** The flags that take a text, counted from 0. */
  lemma StringFlags(text: CString, c: Platform)
    ensures SetBy("color", Some(text), 3, Text(text), c)
    ensures SetBy("death_test_style", Some(text), 4, Text(text), c)
    ensures SetBy("filter", Some(text), 6, Text(text), c)
    ensures SetBy("internal_run_death_test", Some(text), 7, Text(text), c)
    ensures SetBy("output", Some(text), 9, Text(text), c)
    ensures SetBy("stream_result_to", Some(text), 15, Text(text), c)
  {
    hide SetBy;
    NamedWithText(3, text, Text(text), c);
    NamedWithText(4, text, Text(text), c);
    NamedWithText(6, text, Text(text), c);
    NamedWithText(7, text, Text(text), c);
    NamedWithText(9, text, Text(text), c);
    NamedWithText(15, text, Text(text), c);
  }

  /** The flags that take a number. */
  lemma Int32Flags(text: CString, n: int, c: Platform)
    requires c.strtol(text) == (n, |text|) && -0x8000_0000 <= n <= 0x7FFF_FFFF && n != c.longMin && n != c.longMax
    ensures SetBy("random_seed", Some(text), 11, Int32(n), c)
    ensures SetBy("repeat", Some(text), 12, Int32(n), c)
    ensures SetBy("stack_trace_depth", Some(text), 14, Int32(n), c)
  {
    hide SetBy;
    NamedWithText(11, text, Int32(n), c);
    NamedWithText(12, text, Int32(n), c);
    NamedWithText(14, text, Int32(n), c);
  }

  /** The flags that are on or off: on when named alone. */
  lemma BoolFlags(c: Platform)
    ensures SetBy("also_run_disabled_tests", None, 0, Bool(true), c)
    ensures SetBy("break_on_failure", None, 1, Bool(true), c)
    ensures SetBy("catch_exceptions", None, 2, Bool(true), c)
    ensures SetBy("death_test_use_fork", None, 5, Bool(true), c)
    ensures SetBy("list_tests", None, 8, Bool(true), c)
    ensures SetBy("print_time", None, 10, Bool(true), c)
    ensures SetBy("shuffle", None, 13, Bool(true), c)
    ensures SetBy("throw_on_failure", None, 16, Bool(true), c)
  {
    hide SetBy;
    NamedAlone(0, c);
    NamedAlone(1, c);
    NamedAlone(2, c);
    NamedAlone(5, c);
    NamedAlone(8, c);
    NamedAlone(10, c);
    NamedAlone(13, c);
    NamedAlone(16, c);
  }

  // ----- The whole command line -----

  /** An element of argv, which may be a null pointer. */
  type Arg = Option<CString>

  /** The text an argument is converted to. */
  function ArgText(arg: Arg): CString { if arg.Some? then arg.value else "(null)" }

  /** The values of the flags, in the order of FLAGS. */
  type FlagValues = v: seq<Value> | |v| == FLAG_COUNT witness seq(FLAG_COUNT, i => Bool(false))

  function Apply(values: FlagValues, str: CString, c: Platform): (r: FlagValues) {
    AcceptedFrom(str, 0, c);
    match Accepted(str, 0, c)
    case None => values
    case Some(k) => values[k := ParseFlag(str, Flag(k), c).value]
  }

  /** The values after a list of arguments. */
  function ApplyAll(values: FlagValues, args: seq<Arg>, c: Platform): FlagValues {
    if args == [] then values else Apply(ApplyAll(values, args[..|args| - 1], c), ArgText(args[|args| - 1]), c)
  }

  /** The arguments that no flag accepts, in order. */
  ghost function Unrecognized(args: seq<Arg>, c: Platform): (r: seq<Arg>)
    ensures |r| <= |args|
  {
    if args == [] then []
    else
      var last := args[|args| - 1];
      Unrecognized(args[..|args| - 1], c) + if Recognized(ArgText(last), c) then [] else [last]
  }

  /** A flag that was given no value before is left as it was; otherwise it has the last one given. */
  ghost predicate LastGiven(was: Value, now: Value, args: seq<Arg>, k: nat, c: Platform)
    requires k < FLAG_COUNT
  {
    if exists i, v | 0 <= i < |args| :: Sets(ArgText(args[i]), k, v, c)
    then exists i | 0 <= i < |args| :: Sets(ArgText(args[i]), k, now, c) && NotGiven(args[i + 1..], k, c)
    else now == was
  }

  ghost predicate NotGiven(args: seq<Arg>, k: nat, c: Platform)
    requires k < FLAG_COUNT
  {
    forall i, v | 0 <= i < |args| :: !Sets(ArgText(args[i]), k, v, c)
  }

  lemma NothingGiven(value: Value, k: nat, c: Platform)
    requires k < FLAG_COUNT
    ensures LastGiven(value, value, [], k, c)
  {
  }

  /** Flag k ends with the last value that an argument gives it, or keeps its own when none does. */
  lemma {:induction false} LastValueWins(values: FlagValues, args: seq<Arg>, k: nat, c: Platform)
    requires k < FLAG_COUNT
    ensures LastGiven(values[k], ApplyAll(values, args, c)[k], args, k, c)
    decreases |args|
  {
    hide Flag, ParseFlag, Apply, Sets, LastGiven;
    if args == [] {
      NothingGiven(values[k], k, c);
    } else {
      var n := |args| - 1;
      var before, last := args[..n], args[n];
      LastValueWins(values, before, k, c);
      AppliedAt(ApplyAll(values, before, c), ArgText(last), k, c);
      SetsMeans(ArgText(last), k, c);
      LastGivenNext(values[k], ApplyAll(values, before, c)[k], ApplyAll(values, args, c)[k], before, last, k, c);
      assert args == before + [last];
    }
  }

  /** One more argument overrides those before it, if it gives the flag a value. */
  lemma LastGivenNext(was: Value, now: Value, next: Value, args: seq<Arg>, last: Arg, k: nat, c: Platform)
    requires k < FLAG_COUNT && LastGiven(was, now, args, k, c)
    requires if exists v :: Sets(ArgText(last), k, v, c) then Sets(ArgText(last), k, next, c) else next == now
    ensures LastGiven(was, next, args + [last], k, c)
  {
    hide Sets;
    var n, all := |args|, args + [last];
    assert all[n] == last && all[n + 1..] == [] && forall i | 0 <= i < n :: all[i] == args[i];
    if v :| Sets(ArgText(last), k, v, c) {
      assert Sets(ArgText(all[n]), k, next, c) && NotGiven(all[n + 1..], k, c);
    } else if i :| 0 <= i < n && Sets(ArgText(args[i]), k, now, c) && NotGiven(args[i + 1..], k, c) {
      assert all[i + 1..] == args[i + 1..] + [last];
      assert Sets(ArgText(all[i]), k, next, c) && NotGiven(all[i + 1..], k, c);
    }
  }

  lemma AppliedAt(values: FlagValues, str: CString, k: nat, c: Platform)
    requires k < FLAG_COUNT
    ensures Apply(values, str, c)[k] ==
            if ParseFlag(str, Flag(k), c).Some? then ParseFlag(str, Flag(k), c).value else values[k]
  {
    hide ParseFlag, Accepted;
    AcceptedFrom(str, 0, c);
    AcceptedIsUnique(str, 0, k, c);
  }

  /** What main passes: the arguments, and a null pointer after the last one. */
  predicate IsArgv(argc: int, argv: seq<Arg>) {
    0 <= argc < |argv| && argv[argc] == None
  }

  /** The kept arguments, then those still to come, then null pointers; was is argv before anything was removed. */
  ghost predicate Compacted(argv: seq<Arg>, was: seq<Arg>, argc: nat, kept: seq<Arg>, removed: nat)
    requires argc < |was| && |kept| + removed <= argc
  {
    && |argv| == |was| && (argc > 0 ==> argv[0] == was[0])
    && (forall k | 1 <= k <= |kept| :: argv[k] == kept[k - 1])
    && (forall k | |kept| < k < argc - removed && 0 < k :: argv[k] == was[k + removed])
    && (forall k | argc - removed <= k <= argc :: argv[k] == None)
    && (forall k | argc < k < |argv| :: argv[k] == was[k])
  }

  /** argv after q of the arguments. */
  ghost predicate Parsed(argv: seq<Arg>, was: seq<Arg>, argc: nat, rest: seq<Arg>, q: nat, c: Platform)
    requires argc < |was| && q <= |rest| <= argc
  {
    var kept := Unrecognized(rest[..q], c);
    Compacted(argv, was, argc, kept, q - |kept|)
  }

  lemma NothingCompacted(was: seq<Arg>, argc: nat)
    requires IsArgv(argc, was)
    ensures Compacted(was, was, argc, [], 0)
  {
  }

  lemma UnrecognizedNext(rest: seq<Arg>, q: nat, c: Platform)
    requires q < |rest|
    ensures Unrecognized(rest[..q + 1], c) ==
        Unrecognized(rest[..q], c) + if Recognized(ArgText(rest[q]), c) then [] else [rest[q]]
    ensures |Unrecognized(rest[..q], c)| <= q
  {
    assert rest[..q + 1][..q] == rest[..q];
  }

  /** next is argv without the element at i. */
  ghost predicate Shifted(argv: seq<Arg>, next: seq<Arg>, i: int, left: int) {
    |next| == |argv| && 0 <= i < left < |argv|
    && (forall k | i <= k < left :: next[k] == argv[k + 1])
    && (forall k | 0 <= k < i || left <= k < |argv| :: next[k] == argv[k])
  }

  lemma ShiftCompacts(argv: seq<Arg>, next: seq<Arg>, was: seq<Arg>, argc: nat, kept: seq<Arg>, removed: nat)
    requires IsArgv(argc, was) && 1 + |kept| + removed < argc && Compacted(argv, was, argc, kept, removed)
    requires Shifted(argv, next, 1 + |kept|, argc - removed)
    ensures Compacted(next, was, argc, kept, removed + 1)
  {
    var left := argc - removed;
    forall k | left - 1 <= k <= argc ensures next[k] == None {
      if k < left {
        assert next[k] == argv[left];
      } else {
        assert next[k] == argv[k];
      }
    }
  }

  /** A recognised argument has been removed. */
  lemma ParsedRemove(argv: seq<Arg>, next: seq<Arg>, was: seq<Arg>,
                     argc: nat, rest: seq<Arg>, q: nat, c: Platform)
    requires IsArgv(argc, was) && |rest| + 1 == argc && q < |rest| && Parsed(argv, was, argc, rest, q, c)
    requires Recognized(ArgText(rest[q]), c)
    requires var i := 1 + |Unrecognized(rest[..q], c)|; Shifted(argv, next, i, argc - (q + 1 - i))
    ensures Parsed(next, was, argc, rest, q + 1, c)
  {
    hide Recognized, Compacted, Shifted;
    UnrecognizedNext(rest, q, c);
    var kept := Unrecognized(rest[..q], c);
    assert argc - (q + 1 - (1 + |kept|)) == argc - (q - |kept|) && kept + [] == kept;
    ShiftCompacts(argv, next, was, argc, kept, q - |kept|);
  }

  /** An argument has been passed over. */
  lemma ParsedKeep(argv: seq<Arg>, was: seq<Arg>, argc: nat, rest: seq<Arg>, q: nat, c: Platform)
    requires IsArgv(argc, was) && |rest| + 1 == argc && rest == was[1..argc] && q < |rest|
    requires Parsed(argv, was, argc, rest, q, c) && !Recognized(ArgText(rest[q]), c)
    ensures Parsed(argv, was, argc, rest, q + 1, c)
  {
    hide Recognized, Unrecognized;
    UnrecognizedNext(rest, q, c);
    assert was[q + 1] == rest[q];
    var kept, kept' := Unrecognized(rest[..q], c), Unrecognized(rest[..q + 1], c);
    forall k | 1 <= k <= |kept'| ensures argv[k] == kept'[k - 1] {
      if k == |kept| + 1 {
        assert argv[k] == was[k + (q - |kept|)];
      }
    }
  }

  class GoogleTest {
    var flags: FlagValues
    var helpFlag: bool

    constructor (defaults: FlagValues)
      ensures flags == defaults && !helpFlag
    {
      flags, helpFlag := defaults, false;
    }

    /** Tries the argument against the flags in their order, and stores its value. */
    method ParseFlags(str: CString, c: Platform) returns (recognized: bool)
      modifies this`flags
      ensures recognized == Recognized(str, c) && flags == Apply(old(flags), str, c)
    {
      hide ParseFlag, Recognized;
      RecognizedMeans(str, c);
      for k := 0 to FLAG_COUNT
        invariant Accepted(str, 0, c) == Accepted(str, k, c) && flags == old(flags)
      {
        var value := ParseFlag(str, Flag(k), c);
        if value.Some? {
          flags := flags[k := value.value];
          return true;
        }
      }
      return false;
    }

    /** Tries the argument at i, and removes it when it is a flag, stepping back. */
    method ParseArgument(i: int, left: int, argv: array<Arg>, c: Platform,
                         ghost was: seq<Arg>, ghost argc: nat, ghost rest: seq<Arg>, ghost q: nat)
      returns (i': int, left': int)
      requires IsArgv(argc, was) && |rest| + 1 == argc && rest == was[1..argc] && q < |rest|
      requires Parsed(argv[..], was, argc, rest, q, c)
      requires i == 1 + |Unrecognized(rest[..q], c)| && left == argc - (q + 1 - i) && i < left
      modifies this, argv
      ensures Parsed(argv[..], was, argc, rest, q + 1, c)
      ensures if Recognized(ArgText(rest[q]), c) then i' == i - 1 && left' == left - 1 else i' == i && left' == left
      ensures flags == Apply(old(flags), ArgText(rest[q]), c)
      ensures helpFlag <==> old(helpFlag) || (!Recognized(ArgText(rest[q]), c) && IsHelpRequest(ArgText(rest[q])))
    {
      hide Recognized, Parsed, Apply, AsksForHelp, IsHelpRequest, Unrecognized, IsArgv;
      NextArgument(argv[..], was, argc, rest, q, c);
      ghost var before := argv[..];
      i', left' := i, left;
      var arg := ArgText(argv[i]);
      var recognized := ParseFlags(arg, c);
      if recognized {
        Shift(argv, i, left);
        ParsedRemove(before, argv[..], was, argc, rest, q, c);
        left' := left - 1;
        i' := i - 1;
      } else {
        ParsedKeep(before, was, argc, rest, q, c);
        HelpMeans(arg);
        if AsksForHelp(arg) {
          helpFlag := true;
        }
      }
    }

    /** Removes the recognised flags from argv, moving the rest and the null pointer down. */
    method ParseGoogleTestFlagsOnly(argc: int, argv: array<Arg>, c: Platform) returns (left: int)
      requires IsArgv(argc, argv[..])
      modifies this, argv
      ensures var args := old(argv[..argc]); var rest := if argc == 0 then [] else args[1..];
              && IsArgv(left, argv[..])
              && argv[..left] == args[..argc - |rest|] + Unrecognized(rest, c)
              && (forall k | 0 <= k < FLAG_COUNT :: LastGiven(old(flags)[k], flags[k], rest, k, c))
              && (helpFlag <==> old(helpFlag) || AnyAsksForHelp(rest, c))
      ensures forall k | left <= k <= argc :: argv[k] == None
      ensures forall k | argc < k < argv.Length :: argv[k] == old(argv[k])
    {
      hide Flag, Recognized, Parsed, Apply, ApplyAll, AnyAsksForHelp, Unrecognized, LastGiven;
      left := argc;
      ghost var q, was := 0, argv[..];
      ghost var rest := if argc == 0 then [] else was[1..argc];
      StartParsing(flags, was, argc, rest, c);
      hide IsArgv;
      var i := 1;
      while i < left
        invariant q <= |rest| && i == 1 + |Unrecognized(rest[..q], c)| && left == argc - (q + 1 - i)
        invariant Parsed(argv[..], was, argc, rest, q, c)
        invariant flags == ApplyAll(old(flags), rest[..q], c)
        invariant helpFlag <==> old(helpFlag) || AnyAsksForHelp(rest[..q], c)
        decreases left - i
      {
        UnrecognizedNext(rest, q, c);
        AppliedNext(old(flags), rest, q, c);
        i, left := ParseArgument(i, left, argv, c, was, argc, rest, q);
        i := i + 1;
        q := q + 1;
      }
      assert rest[..|rest|] == rest;
      EndParsing(argv[..], was, argc, rest, c);
      forall k | 0 <= k < FLAG_COUNT ensures LastGiven(old(flags)[k], flags[k], rest, k, c) {
        LastValueWins(old(flags), rest, k, c);
      }
    }
  }

  ghost predicate AnyAsksForHelp(args: seq<Arg>, c: Platform) {
    exists k | 0 <= k < |args| :: !Recognized(ArgText(args[k]), c) && IsHelpRequest(ArgText(args[k]))
  }

  lemma AppliedNext(values: FlagValues, rest: seq<Arg>, q: nat, c: Platform)
    requires q < |rest|
    ensures ApplyAll(values, rest[..q + 1], c) == Apply(ApplyAll(values, rest[..q], c), ArgText(rest[q]), c)
    ensures AnyAsksForHelp(rest[..q + 1], c) <==>
        AnyAsksForHelp(rest[..q], c) || (!Recognized(ArgText(rest[q]), c) && IsHelpRequest(ArgText(rest[q])))
  {
    hide Apply, Recognized, IsHelpRequest;
    var next := rest[..q + 1];
    assert next[..q] == rest[..q] && next[q] == rest[q];
    assert forall k | 0 <= k < q :: rest[..q][k] == next[k];
  }

  lemma StartParsing(values: FlagValues, was: seq<Arg>, argc: nat, rest: seq<Arg>, c: Platform)
    requires IsArgv(argc, was) && rest == if argc == 0 then [] else was[1..argc]
    ensures argc < |was| && |rest| <= argc && rest[..0] == []
    ensures Parsed(was, was, argc, rest, 0, c) && Unrecognized([], c) == []
    ensures ApplyAll(values, [], c) == values && !AnyAsksForHelp([], c)
  {
    hide Flag, Recognized, IsHelpRequest, Apply, ApplyAll, AnyAsksForHelp, ParseFlag, Accepted;
    hide Compacted;
    NothingParsed(values, c);
    NothingCompacted(was, argc);
    assert rest[..0] == [];
  }

  lemma NothingParsed(values: FlagValues, c: Platform)
    ensures Unrecognized([], c) == [] && ApplyAll(values, [], c) == values && !AnyAsksForHelp([], c)
  {
  }

  lemma NextArgument(argv: seq<Arg>, was: seq<Arg>, argc: nat, rest: seq<Arg>, q: nat, c: Platform)
    requires IsArgv(argc, was) && |rest| + 1 == argc && rest == was[1..argc] && q < |rest|
    requires Parsed(argv, was, argc, rest, q, c)
    ensures var i := 1 + |Unrecognized(rest[..q], c)|; i < argc < |argv| && argv[i] == rest[q]
  {
    hide Unrecognized;
    UnrecognizedNext(rest, q, c);
    assert was[q + 1] == rest[q];
  }

  lemma EndParsing(argv: seq<Arg>, was: seq<Arg>, argc: nat, rest: seq<Arg>, c: Platform)
    requires IsArgv(argc, was) && rest == if argc == 0 then [] else was[1..argc]
    requires Parsed(argv, was, argc, rest, |rest|, c)
    ensures var kept := Unrecognized(rest, c); var left := argc - |rest| + |kept|;
            && IsArgv(left, argv)
            && argv[..left] == was[..argc - |rest|] + kept
            && (forall k | left <= k <= argc :: argv[k] == None)
            && (forall k | argc < k < |argv| :: argv[k] == was[k])
  {
    hide Unrecognized;
    assert rest[..|rest|] == rest;
  }

  /** Moves what is between i and argc one place down. */
  method Shift(argv: array<Arg>, i: int, argc: int)
    requires 0 <= i < argc < argv.Length
    modifies argv
    ensures Shifted(old(argv[..]), argv[..], i, argc)
  {
    var j := i;
    while j != argc
      invariant i <= j <= argc
      invariant forall k | 0 <= k < argv.Length :: argv[k] == if i <= k < j then old(argv[k + 1]) else old(argv[k])
    {
      argv[j] := argv[j + 1];
      j := j + 1;
    }
  }
}
