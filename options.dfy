/** Command-line option parsing of jacobi.c (`parse_arguments`, `parse_int`,
    `parse_double`). Instead of printing and calling `exit`, parsing ends in a
    ParseResult: the settings, a request for help (exit status 0) or an error
    with the message the program prints (exit status 1). */
module Options {

  datatype Option<T> = None | Some(value: T)

  /** The solver parameters jacobi.c keeps in the globals N, MAX_ITERATIONS,
      CONVERGENCE_THRESHOLD and SEED. */
  datatype Settings = Settings(order: int, maxIterations: int, threshold: real, seed: int)

  function Defaults(): Settings
  {
    Settings(1000, 20000, 0.0001, 0)
  }

  /** Every parameter is non-negative, as the parser checks. */
  predicate NonNegative(s: Settings)
  {
    s.order >= 0 && s.maxIterations >= 0 && s.threshold >= 0.0 && s.seed >= 0
  }

  datatype ParseResult = Config(settings: Settings) | Help | Invalid(message: string)

  /** The process exit status a parse outcome leads to (a configuration goes on to
      solve, and `main` then returns 0). */
  function ExitStatus(r: ParseResult): int
  {
    if r.Invalid? then 1 else 0
  }

  /** What a C library conversion reports: the value read and the part of the
      string it did not consume. */
  datatype Conversion<T> = Conversion(value: T, rest: string)

  predicate IsDigit(c: char)
  {
    '0' <= c <= '9'
  }

  predicate AllDigits(s: string)
  {
    forall i :: 0 <= i < |s| ==> IsDigit(s[i])
  }

  /** The length of the longest prefix of s made of decimal digits. */
  function DigitRun(s: string): (k: nat)
    ensures k <= |s|
    ensures AllDigits(s[..k])
    ensures k < |s| ==> !IsDigit(s[k])
  {
    if s == [] || !IsDigit(s[0]) then 0
    else
      var k := 1 + DigitRun(s[1..]);
      assert s[..k] == [s[0]] + s[1..][..k - 1];
      k
  }

  /** The number a string of decimal digits denotes, most significant first. */
  function DigitsValue(s: string): nat
    requires AllDigits(s)
  {
    if s == [] then 0
    else 10 * DigitsValue(s[..|s| - 1]) + (s[|s| - 1] as int - '0' as int)
  }

  const ULongMax: nat := 0xFFFF_FFFF_FFFF_FFFF

  /** `strtoul(str, &next, 10)` on a 64-bit platform, for strings without leading
      white space or sign: it reads the leading digits, saturates at ULONG_MAX,
      and leaves the rest; with no digit at all it reads 0 and leaves the whole
      string. */
  function StrToUL(s: string): (c: Conversion<nat>)
    ensures c.value <= ULongMax
    ensures c.rest == [] <==> AllDigits(s)
    ensures AllDigits(s) && DigitsValue(s) <= ULongMax ==> c.value == DigitsValue(s)
  {
    var k := DigitRun(s);
    assert AllDigits(s) ==> k == |s|;
    assert s[..|s|] == s;
    var v := DigitsValue(s[..k]);
    Conversion(if v > ULongMax then ULongMax else v, s[k..])
  }

  /** Conversion of an unsigned long to a 32-bit int: the low 32 bits, read in
      two's complement. */
  function ToInt32(v: nat): (r: int)
    ensures -0x8000_0000 <= r < 0x8000_0000
    ensures (v - r) % 0x1_0000_0000 == 0
    ensures v < 0x8000_0000 ==> r == v
  {
    var w := v % 0x1_0000_0000;
    if w < 0x8000_0000 then w else w - 0x1_0000_0000
  }

  /** `parse_int`: the converted value when the whole string was consumed, -1
      otherwise. The empty string is consumed whole and yields 0. */
  function ParseInt(s: string): (r: int)
    ensures !AllDigits(s) ==> r == -1
    ensures AllDigits(s) && DigitsValue(s) < 0x8000_0000 ==> r == DigitsValue(s)
    ensures s == [] ==> r == 0
  {
    var c := StrToUL(s);
    if |c.rest| != 0 then -1 else ToInt32(c.value)
  }

  /** `parse_double`, with strtod supplied by the caller: the converted value
      when the whole string was consumed, -1 otherwise. */
  function ParseDouble(s: string, strtod: string -> Conversion<real>): real
  {
    var c := strtod(s);
    if |c.rest| != 0 then -1.0 else c.value
  }

  /** The decimal digits of v, most significant first, without leading zeros. */
  function Decimal(v: nat): (s: string)
    ensures |s| >= 1
    decreases v
  {
    if v < 10 then [('0' as int + v) as char]
    else Decimal(v / 10) + [('0' as int + v % 10) as char]
  }

  lemma {:induction false} DecimalDigits(v: nat)
    ensures AllDigits(Decimal(v))
    ensures DigitsValue(Decimal(v)) == v
    decreases v
  {
    var s := Decimal(v);
    if v >= 10 {
      DecimalDigits(v / 10);
      assert s[..|s| - 1] == Decimal(v / 10);
    }
  }

  /** parse_int reads back every value an int can hold, written in decimal. */
  lemma ParseIntOfDecimal(v: nat)
    requires v < 0x8000_0000
    ensures ParseInt(Decimal(v)) == v
  {
    DecimalDigits(v);
  }

  /** The options that take a value, and help. */
  datatype Flag = ConvergenceFlag | IterationsFlag | OrderFlag | SeedFlag | HelpFlag

  /** The long and the short spelling of each option. */
  function FlagOf(arg: string): Option<Flag>
  {
    if arg == "--convergence" || arg == "-c" then Some(ConvergenceFlag)
    else if arg == "--iterations" || arg == "-i" then Some(IterationsFlag)
    else if arg == "--norder" || arg == "-n" then Some(OrderFlag)
    else if arg == "--seed" || arg == "-s" then Some(SeedFlag)
    else if arg == "--help" || arg == "-h" then Some(HelpFlag)
    else None
  }

  /** The message printed when the value of an option is missing or negative. */
  function InvalidMessage(f: Flag): string
  {
    match f
    case ConvergenceFlag => "Invalid convergence threshold"
    case IterationsFlag => "Invalid number of iterations"
    case OrderFlag => "Invalid matrix order"
    case SeedFlag => "Invalid seed"
    case HelpFlag => ""
  }

  function Unrecognized(arg: string): string
  {
    "Unrecognized argument '" + arg + "' (try '--help')"
  }

  /** The value an option reads: the threshold through parse_double, the other
      parameters through parse_int. */
  function OptionValue(f: Flag, value: string, strtod: string -> Conversion<real>): real
  {
    if f == ConvergenceFlag then ParseDouble(value, strtod) else ParseInt(value) as real
  }

  /** The settings after option f has accepted `value`. */
  function WithOption(f: Flag, value: string, s: Settings, strtod: string -> Conversion<real>): Settings
  {
    match f
    case ConvergenceFlag => s.(threshold := ParseDouble(value, strtod))
    case IterationsFlag => s.(maxIterations := ParseInt(value))
    case OrderFlag => s.(order := ParseInt(value))
    case SeedFlag => s.(seed := ParseInt(value))
    case HelpFlag => s
  }

  /** Option f read from `value`: None when the value reads as negative,
      otherwise the settings with that one parameter replaced. */
  function SetOption(f: Flag, value: string, s: Settings, strtod: string -> Conversion<real>): Option<Settings>
    requires f != HelpFlag
  {
    if OptionValue(f, value, strtod) < 0.0 then None else Some(WithOption(f, value, s, strtod))
  }

  /** The outcome of walking args from index i with the settings s read so far:
      each option that takes a value consumes the next argument. */
  function ParseFrom(args: seq<string>, i: nat, s: Settings, strtod: string -> Conversion<real>): ParseResult
    requires i <= |args|
    decreases |args| - i
  {
    if i == |args| then Config(s)
    else match FlagOf(args[i])
      case None => Invalid(Unrecognized(args[i]))
      case Some(HelpFlag) => Help
      case Some(f) =>
        if i + 1 == |args| then Invalid(InvalidMessage(f))
        else match SetOption(f, args[i + 1], s, strtod)
          case None => Invalid(InvalidMessage(f))
          case Some(s') => ParseFrom(args, i + 2, s', strtod)
  }

  /** How one pass of the argument loop ends: the walk goes on at index i with
      settings s, or it stops with a result. */
  datatype Step = Next(i: nat, s: Settings) | Stop(result: ParseResult)

  /** One pass of the loop in parse_arguments: recognise args[i] in its long or
      short spelling and, for an option that takes a value, read and check the
      argument after it. */
  method ParseOneArgument(args: seq<string>, i: nat, s: Settings, strtod: string -> Conversion<real>)
    returns (step: Step)
    requires i < |args|
    ensures step.Next? ==> i < step.i <= |args|
                           && ParseFrom(args, step.i, step.s, strtod) == ParseFrom(args, i, s, strtod)
    ensures step.Stop? ==> step.result == ParseFrom(args, i, s, strtod)
  {
    var arg := args[i];
    if arg == "--convergence" || arg == "-c" {
      if i + 1 >= |args| {
        return Stop(Invalid(InvalidMessage(ConvergenceFlag)));
      }
      var v := ParseDouble(args[i + 1], strtod);
      if v < 0.0 {
        return Stop(Invalid(InvalidMessage(ConvergenceFlag)));
      }
      return Next(i + 2, s.(threshold := v));
    } else if arg == "--iterations" || arg == "-i" {
      if i + 1 >= |args| {
        return Stop(Invalid(InvalidMessage(IterationsFlag)));
      }
      var v := ParseInt(args[i + 1]);
      if v < 0 {
        return Stop(Invalid(InvalidMessage(IterationsFlag)));
      }
      return Next(i + 2, s.(maxIterations := v));
    } else if arg == "--norder" || arg == "-n" {
      if i + 1 >= |args| {
        return Stop(Invalid(InvalidMessage(OrderFlag)));
      }
      var v := ParseInt(args[i + 1]);
      if v < 0 {
        return Stop(Invalid(InvalidMessage(OrderFlag)));
      }
      return Next(i + 2, s.(order := v));
    } else if arg == "--seed" || arg == "-s" {
      if i + 1 >= |args| {
        return Stop(Invalid(InvalidMessage(SeedFlag)));
      }
      var v := ParseInt(args[i + 1]);
      if v < 0 {
        return Stop(Invalid(InvalidMessage(SeedFlag)));
      }
      return Next(i + 2, s.(seed := v));
    } else if arg == "--help" || arg == "-h" {
      return Stop(Help);
    } else {
      return Stop(Invalid(Unrecognized(arg)));
    }
  }

  /** parse_arguments over argv[1..]: starts from the defaults and walks the
      arguments with an index that each option advances past its value. */
  method ParseArguments(args: seq<string>, strtod: string -> Conversion<real>) returns (r: ParseResult)
    ensures r == ParseFrom(args, 0, Defaults(), strtod)
    ensures args == [] ==> r == Config(Defaults())
  {
    var s := Defaults();
    var i := 0;
    while i < |args|
      invariant i <= |args|
      invariant ParseFrom(args, i, s, strtod) == ParseFrom(args, 0, Defaults(), strtod)
      decreases |args| - i
    {
      var step := ParseOneArgument(args, i, s, strtod);
      match step
      case Stop(result) =>
        return result;
      case Next(i', s') =>
        i, s := i', s';
    }
    r := Config(s);
  }

  /** Every configuration the parser accepts has non-negative parameters. */
  lemma {:induction false} ParsedSettingsNonNegative(args: seq<string>, i: nat, s: Settings,
                                                     strtod: string -> Conversion<real>)
    requires i <= |args| && NonNegative(s)
    ensures ParseFrom(args, i, s, strtod).Config? ==> NonNegative(ParseFrom(args, i, s, strtod).settings)
    decreases |args| - i
  {
    if i < |args| && i + 1 < |args| {
      match FlagOf(args[i])
      case None =>
      case Some(f) =>
        if f != HelpFlag {
          match SetOption(f, args[i + 1], s, strtod)
          case None =>
          case Some(s') => ParsedSettingsNonNegative(args, i + 2, s', strtod);
        }
    }
  }

  /** Walking the arguments after a prefix is walking them on their own. */
  lemma {:induction false} ParseFromShift(p: seq<string>, q: seq<string>, j: nat, s: Settings,
                                          strtod: string -> Conversion<real>)
    requires j <= |q|
    ensures ParseFrom(p + q, |p| + j, s, strtod) == ParseFrom(q, j, s, strtod)
    decreases |q| - j
  {
    if j < |q| {
      assert (p + q)[|p| + j] == q[j];
      if j + 1 < |q| {
        assert (p + q)[|p| + j + 1] == q[j + 1];
        match FlagOf(q[j])
        case None =>
        case Some(f) =>
          if f != HelpFlag {
            match SetOption(f, q[j + 1], s, strtod)
            case None =>
            case Some(s') => ParseFromShift(p, q, j + 2, s', strtod);
          }
      }
    }
  }

  lemma {:induction false} ParseFromAppend(p: seq<string>, q: seq<string>, i: nat, s: Settings, c: Settings,
                                           strtod: string -> Conversion<real>)
    requires i <= |p| && ParseFrom(p, i, s, strtod) == Config(c)
    ensures ParseFrom(p + q, i, s, strtod) == ParseFrom(q, 0, c, strtod)
    decreases |p| - i
  {
    if i == |p| {
      ParseFromShift(p, q, 0, c, strtod);
    } else {
      assert (p + q)[i] == p[i];
      assert i + 1 < |p|;
      assert (p + q)[i + 1] == p[i + 1];
      match FlagOf(p[i])
      case Some(f) =>
        match SetOption(f, p[i + 1], s, strtod)
        case Some(s') => ParseFromAppend(p, q, i + 2, s', c, strtod);
    }
  }

  /** Parsing composes: once a prefix of the arguments has been read into a
      configuration, the rest is read starting from that configuration. */
  lemma ParseAppend(p: seq<string>, q: seq<string>, c: Settings, strtod: string -> Conversion<real>)
    requires ParseFrom(p, 0, Defaults(), strtod) == Config(c)
    ensures ParseFrom(p + q, 0, Defaults(), strtod) == ParseFrom(q, 0, c, strtod)
  {
    ParseFromAppend(p, q, 0, Defaults(), c, strtod);
  }

  /** The settings with the parameter option f sets reset to zero: two settings
      with the same Cleared(f, _) differ at most in that parameter. */
  function Cleared(f: Flag, s: Settings): Settings
  {
    match f
    case ConvergenceFlag => s.(threshold := 0.0)
    case IterationsFlag => s.(maxIterations := 0)
    case OrderFlag => s.(order := 0)
    case SeedFlag => s.(seed := 0)
    case HelpFlag => s
  }

  /** Two walks from settings that differ at most in f's parameter end alike:
      with the same error or help, or with configurations that again differ at
      most in f's parameter. */
  lemma {:induction false} WalkIgnoresOption(args: seq<string>, i: nat, f: Flag, s1: Settings, s2: Settings,
                                             strtod: string -> Conversion<real>)
    requires i <= |args| && Cleared(f, s1) == Cleared(f, s2)
    ensures ParseFrom(args, i, s1, strtod).Config? == ParseFrom(args, i, s2, strtod).Config?
    ensures ParseFrom(args, i, s1, strtod).Config? ==>
              Cleared(f, ParseFrom(args, i, s1, strtod).settings) == Cleared(f, ParseFrom(args, i, s2, strtod).settings)
    ensures !ParseFrom(args, i, s1, strtod).Config? ==> ParseFrom(args, i, s1, strtod) == ParseFrom(args, i, s2, strtod)
    decreases |args| - i
  {
    if i < |args| && i + 1 < |args| {
      match FlagOf(args[i])
      case None =>
      case Some(g) =>
        if g != HelpFlag && OptionValue(g, args[i + 1], strtod) >= 0.0 {
          WalkIgnoresOption(args, i + 2, f, WithOption(g, args[i + 1], s1, strtod),
                            WithOption(g, args[i + 1], s2, strtod), strtod);
        }
    }
  }

  /** An option given again later overrides the earlier value, with any complete
      options in between and any arguments after. */
  lemma LaterOptionOverrides(p: seq<string>, c: Settings, first: string, v: string, m: seq<string>,
                             second: string, w: string, q: seq<string>, strtod: string -> Conversion<real>)
    requires ParseFrom(p, 0, Defaults(), strtod) == Config(c)
    requires FlagOf(first).Some? && FlagOf(first) == FlagOf(second) && FlagOf(first) != Some(HelpFlag)
    requires SetOption(FlagOf(first).value, v, c, strtod).Some?
    requires ParseFrom(m, 0, c, strtod).Config?
    ensures ParseFrom(p + [first, v] + m + [second, w] + q, 0, Defaults(), strtod)
            == ParseFrom(p + m + [second, w] + q, 0, Defaults(), strtod)
  {
    var f := FlagOf(first).value;
    var c' := WithOption(f, v, c, strtod);
    var tail := [second, w] + q;
    WalkIgnoresOption(m, 0, f, c, c', strtod);
    var d := ParseFrom(m, 0, c, strtod).settings;
    var d' := ParseFrom(m, 0, c', strtod).settings;
    // the run without the first occurrence
    assert p + m + [second, w] + q == p + (m + tail);
    ParseAppend(p, m + tail, c, strtod);
    ParseFromAppend(m, tail, 0, c, d, strtod);
    // the run with it
    var long := [first, v] + (m + tail);
    assert p + [first, v] + m + [second, w] + q == p + long;
    ParseAppend(p, long, c, strtod);
    assert long[0] == first && long[1] == v;
    assert ParseFrom(long, 0, c, strtod) == ParseFrom(long, 2, c', strtod);
    ParseFromShift([first, v], m + tail, 0, c', strtod);
    ParseFromAppend(m, tail, 0, c', d', strtod);
    // both continue with `second w`, which overwrites the one parameter they differ in
    assert tail[0] == second && tail[1] == w;
    assert WithOption(f, w, d, strtod) == WithOption(f, w, d', strtod);
  }

  /** An option that takes a value is rejected when it is the last argument. */
  lemma MissingValueRejected(p: seq<string>, c: Settings, flag: string, strtod: string -> Conversion<real>)
    requires ParseFrom(p, 0, Defaults(), strtod) == Config(c)
    requires FlagOf(flag).Some? && FlagOf(flag) != Some(HelpFlag)
    ensures ParseFrom(p + [flag], 0, Defaults(), strtod) == Invalid(InvalidMessage(FlagOf(flag).value))
    ensures ExitStatus(ParseFrom(p + [flag], 0, Defaults(), strtod)) == 1
  {
    ParseAppend(p, [flag], c, strtod);
  }

  /** An option whose value reads as negative is rejected with that option's
      message and exit status 1, whatever follows. */
  lemma NegativeValueRejected(p: seq<string>, c: Settings, flag: string, v: string, q: seq<string>,
                              strtod: string -> Conversion<real>)
    requires ParseFrom(p, 0, Defaults(), strtod) == Config(c)
    requires FlagOf(flag).Some? && FlagOf(flag) != Some(HelpFlag)
    requires OptionValue(FlagOf(flag).value, v, strtod) < 0.0
    ensures ParseFrom(p + [flag, v] + q, 0, Defaults(), strtod) == Invalid(InvalidMessage(FlagOf(flag).value))
    ensures ExitStatus(ParseFrom(p + [flag, v] + q, 0, Defaults(), strtod)) == 1
  {
    var rest := [flag, v] + q;
    assert p + [flag, v] + q == p + rest;
    ParseAppend(p, rest, c, strtod);
    assert rest[0] == flag && rest[1] == v;
  }

  /** A value with characters left over after the number is rejected: for the
      threshold, when strtod stops before the end; for the integer options, when
      the value is not all digits (a letter, a decimal point, or a sign or space
      after the first digit). */
  lemma TrailingCharactersRejected(p: seq<string>, c: Settings, flag: string, v: string, q: seq<string>,
                                   strtod: string -> Conversion<real>)
    requires ParseFrom(p, 0, Defaults(), strtod) == Config(c)
    requires FlagOf(flag).Some? && FlagOf(flag) != Some(HelpFlag)
    requires if FlagOf(flag) == Some(ConvergenceFlag) then strtod(v).rest != [] else !AllDigits(v)
    ensures ParseFrom(p + [flag, v] + q, 0, Defaults(), strtod) == Invalid(InvalidMessage(FlagOf(flag).value))
  {
    NegativeValueRejected(p, c, flag, v, q, strtod);
  }

  /** An option whose value reads as non-negative sets exactly that parameter,
      and the walk goes on with the arguments after the value. */
  lemma OptionValueAccepted(p: seq<string>, c: Settings, flag: string, v: string, q: seq<string>,
                            strtod: string -> Conversion<real>)
    requires ParseFrom(p, 0, Defaults(), strtod) == Config(c)
    requires FlagOf(flag).Some? && FlagOf(flag) != Some(HelpFlag)
    requires OptionValue(FlagOf(flag).value, v, strtod) >= 0.0
    ensures ParseFrom(p + [flag, v] + q, 0, Defaults(), strtod)
            == ParseFrom(q, 0, WithOption(FlagOf(flag).value, v, c, strtod), strtod)
  {
    var f := FlagOf(flag).value;
    var rest := [flag, v] + q;
    assert p + [flag, v] + q == p + rest;
    ParseAppend(p, rest, c, strtod);
    assert rest[0] == flag && rest[1] == v;
    ParseFromShift([flag, v], q, 0, WithOption(f, v, c, strtod), strtod);
  }

  /** parse_int of any value strtoul can return, written in decimal: the value
      truncated to a 32-bit int, so values of 2^31 and above are not read back. */
  lemma ParseIntOfLargeDecimal(v: nat)
    requires v <= ULongMax
    ensures ParseInt(Decimal(v)) == ToInt32(v)
    ensures 0x8000_0000 <= v < 0x1_0000_0000 ==> ParseInt(Decimal(v)) < 0
  {
    var c := StrToUL(Decimal(v));
    DecimalDigits(v);
    assert c.rest == [];
    assert c.value == v;
    assert 0x8000_0000 <= v < 0x1_0000_0000 ==> ToInt32(v) < 0;
  }

  lemma DecimalOfTwoTo32()
    ensures Decimal(0x1_0000_0000) == "4294967296"
  {
    assert Decimal(4) == "4";
    assert Decimal(42) == "42";
    assert Decimal(429) == "429";
    assert Decimal(4294) == "4294";
    assert Decimal(42949) == "42949";
    assert Decimal(429496) == "429496";
    assert Decimal(4294967) == "4294967";
    assert Decimal(42949672) == "42949672";
    assert Decimal(429496729) == "429496729";
    assert Decimal(4294967296) == "4294967296";
  }

  lemma DecimalOfTwoTo31()
    ensures Decimal(0x8000_0000) == "2147483648"
  {
    assert Decimal(2) == "2";
    assert Decimal(21) == "21";
    assert Decimal(214) == "214";
    assert Decimal(2147) == "2147";
    assert Decimal(21474) == "21474";
    assert Decimal(214748) == "214748";
    assert Decimal(2147483) == "2147483";
    assert Decimal(21474836) == "21474836";
    assert Decimal(214748364) == "214748364";
    assert Decimal(2147483648) == "2147483648";
  }

  /** The 32-bit conversion in parse_int: "4294967296" reads as 0 and is
      accepted, "2147483648" reads as a negative int and is rejected. */
  lemma ParseIntWraps()
    ensures ParseInt("4294967296") == 0
    ensures ParseInt("2147483648") == -0x8000_0000
  {
    DecimalOfTwoTo32();
    ParseIntOfLargeDecimal(0x1_0000_0000);
    DecimalOfTwoTo31();
    ParseIntOfLargeDecimal(0x8000_0000);
  }


  /** Help stops the walk, and the program exits with status 0: whatever follows
      it is not looked at. */
  lemma HelpStops(p: seq<string>, c: Settings, help: string, q: seq<string>, strtod: string -> Conversion<real>)
    requires ParseFrom(p, 0, Defaults(), strtod) == Config(c)
    requires help == "--help" || help == "-h"
    ensures ParseFrom(p + [help] + q, 0, Defaults(), strtod) == Help
    ensures ExitStatus(ParseFrom(p + [help] + q, 0, Defaults(), strtod)) == 0
  {
    var rest := [help] + q;
    assert p + [help] + q == p + rest;
    ParseAppend(p, rest, c, strtod);
    assert rest[0] == help && FlagOf(help) == Some(HelpFlag);
  }

  /** An unrecognised argument stops the walk with an error naming it. */
  lemma UnrecognizedRejected(p: seq<string>, c: Settings, arg: string, q: seq<string>,
                             strtod: string -> Conversion<real>)
    requires ParseFrom(p, 0, Defaults(), strtod) == Config(c)
    requires FlagOf(arg).None?
    ensures ParseFrom(p + [arg] + q, 0, Defaults(), strtod) == Invalid(Unrecognized(arg))
    ensures ExitStatus(ParseFrom(p + [arg] + q, 0, Defaults(), strtod)) == 1
  {
    var rest := [arg] + q;
    assert p + [arg] + q == p + rest;
    ParseAppend(p, rest, c, strtod);
    assert rest[0] == arg;
  }
}
