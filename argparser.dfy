/**
 * The command-line grammar of the `bro` driver (`ParseArgv` in tools/bro.cc).
 *
 * The specification comes in two layers. `Lex` reads the tokens after the
 * program name into options: a switch is one token, a value flag is a token
 * followed by whatever the next token is. `Interpret` then turns the options
 * into a configuration: `--force`, `--verbose`, `--input` and `--output` may
 * each appear once, numeric values must be one or two digits, and the last
 * occurrence of a numeric flag wins. `ParseArgv` is the driver's own
 * index-driven scan, proved to agree with `ParseArgvSpec`.
 */
module ArgParser {
  import opened Wrappers
  import opened CStrings
  import opened QualityParser

  datatype Flag = Force | Decompress | Verbose | Input | Output | Quality | Repeat | Window | Mode
  {
    /** Value flags consume the token after them. */
    predicate TakesValue() {
      !(Force? || Decompress? || Verbose?)
    }

    /** Flags whose value is read by `ParseQuality`. */
    predicate Numeric() {
      Quality? || Repeat? || Window? || Mode?
    }

    /** Flags whose second appearance is a usage error. */
    predicate AtMostOnce() {
      Force? || Verbose? || Input? || Output?
    }

    function LongName(): string
    {
      match this
      case Force => "--force"
      case Decompress => "--decompress"
      case Verbose => "--verbose"
      case Input => "--input"
      case Output => "--output"
      case Quality => "--quality"
      case Repeat => "--repeat"
      case Window => "--window"
      case Mode => "--mode"
    }

    function ShortName(): string
    {
      match this
      case Force => "-f"
      case Decompress => "-d"
      case Verbose => "-v"
      case Input => "-i"
      case Output => "-o"
      case Quality => "-q"
      case Repeat => "-r"
      case Window => "-w"
      case Mode => "-m"
    }
  }

  /** The flag a token names: its C string compared with each of the driver's spellings. */
  function FlagNamed(token: string): Option<Flag> {
    match CStr(token)
    case "--force" => Some(Force)
    case "-f" => Some(Force)
    case "--decompress" => Some(Decompress)
    case "--uncompress" => Some(Decompress)
    case "-d" => Some(Decompress)
    case "--verbose" => Some(Verbose)
    case "-v" => Some(Verbose)
    case "--input" => Some(Input)
    case "--in" => Some(Input)
    case "-i" => Some(Input)
    case "--output" => Some(Output)
    case "--out" => Some(Output)
    case "-o" => Some(Output)
    case "--quality" => Some(Quality)
    case "-q" => Some(Quality)
    case "--repeat" => Some(Repeat)
    case "-r" => Some(Repeat)
    case "--window" => Some(Window)
    case "-w" => Some(Window)
    case "--mode" => Some(Mode)
    case "-m" => Some(Mode)
    case _ => None
  }

  /** Every spelling of a flag: its long and short names, and three extra long aliases. */
  function Spellings(f: Flag): (names: set<string>)
    ensures f.LongName() in names && f.ShortName() in names
  {
    match f
    case Decompress => {f.LongName(), "--uncompress", f.ShortName()}
    case Input => {f.LongName(), "--in", f.ShortName()}
    case Output => {f.LongName(), "--out", f.ShortName()}
    case _ => {f.LongName(), f.ShortName()}
  }

  /** A token names `f` exactly when its C string is one of the spellings of `f`. */
  lemma FlagNamedSpellings(token: string, f: Flag)
    ensures FlagNamed(token) == Some(f) <==> CStr(token) in Spellings(f)
  {
  }

  /** A spelling without a NUL, given as a whole token, names its flag. */
  lemma FlagNamedSpelling(f: Flag, name: string)
    requires name in Spellings(f)
    ensures FlagNamed(name) == Some(f)
  {
    assert NulFree(name) by {
      match f
      case Force =>
      case Decompress =>
      case Verbose =>
      case Input =>
      case Output =>
      case Quality =>
      case Repeat =>
      case Window =>
      case Mode =>
    }
    CStrOfNulFree(name);
    FlagNamedSpellings(name, f);
  }

  /** One recognised option; `value` is the raw following token for a value flag and "" for a switch. */
  datatype Opt = Opt(flag: Flag, value: string)

  predicate WellFormed(o: Opt) {
    !o.flag.TakesValue() ==> o.value == ""
  }

  /** The number of command-line tokens an option occupies. */
  function Width(opts: seq<Opt>): nat {
    if opts == [] then 0 else (if opts[0].flag.TakesValue() then 2 else 1) + Width(opts[1..])
  }

  function Prefixed(done: seq<Opt>, rest: Option<seq<Opt>>): Option<seq<Opt>> {
    match rest
    case None => None
    case Some(opts) => Some(done + opts)
  }

  /**
   * The options in `argv[k..]`, or None when a token names no flag or a value
   * flag is the last token.
   */
  function Lex(argv: seq<string>, k: nat): (r: Option<seq<Opt>>)
    requires k <= |argv|
    ensures r.Some? ==> Width(r.value) == |argv| - k
    ensures r.Some? ==> forall i :: 0 <= i < |r.value| ==> WellFormed(r.value[i])
    decreases |argv| - k
  {
    if k == |argv| then Some([])
    else match FlagNamed(argv[k])
      case None => None
      case Some(f) =>
        if !f.TakesValue() then Prefixed([Opt(f, "")], Lex(argv, k + 1))
        else if k + 1 < |argv| then Prefixed([Opt(f, argv[k + 1])], Lex(argv, k + 2))
        else None
  }

  /** Occurrences of `f` among the options. */
  function Count(opts: seq<Opt>, f: Flag): (n: nat)
    ensures n <= |opts|
  {
    if opts == [] then 0
    else Count(opts[..|opts| - 1], f) + (if opts[|opts| - 1].flag == f then 1 else 0)
  }

  /** The value of the last occurrence of `f`, if any. */
  function LastValue(opts: seq<Opt>, f: Flag): (r: Option<string>)
    ensures r.Some? <==> Count(opts, f) > 0
    ensures r.Some? ==> exists i :: 0 <= i < |opts| && opts[i] == Opt(f, r.value) &&
                                  (forall j :: i < j < |opts| ==> opts[j].flag != f)
  {
    if opts == [] then None
    else if opts[|opts| - 1].flag == f then Some(opts[|opts| - 1].value)
    else
      var r := LastValue(opts[..|opts| - 1], f);
      assert forall i :: 0 <= i < |opts| - 1 ==> opts[..|opts| - 1][i] == opts[i];
      r
  }

  /** Every numeric flag carries one or two digits. */
  predicate NumbersWellFormed(opts: seq<Opt>) {
    forall i :: 0 <= i < |opts| && opts[i].flag.Numeric() ==> IsSmallDecimal(CStr(opts[i].value))
  }

  /** The options the driver refuses: a repeated once-only flag, or a malformed number. */
  predicate Rejected(opts: seq<Opt>) {
    || Count(opts, Force) > 1
    || Count(opts, Verbose) > 1
    || Count(opts, Input) > 1
    || Count(opts, Output) > 1
    || !NumbersWellFormed(opts)
  }

  /** A path flag's C string, if the flag was given. */
  function PathOf(opts: seq<Opt>, f: Flag): Option<string> {
    match LastValue(opts, f)
    case None => None
    case Some(v) => Some(CStr(v))
  }

  /** The value of the last occurrence of a numeric flag, or `default` when it does not occur. */
  function NumberOr(opts: seq<Opt>, f: Flag, default: int): (n: int)
    requires NumbersWellFormed(opts) && f.Numeric()
    ensures Count(opts, f) > 0 ==> 0 <= n <= 99
    ensures Count(opts, f) == 0 ==> n == default
  {
    match LastValue(opts, f)
    case None => default
    case Some(v) =>
      SmallDecimalBound(CStr(v));
      DecimalValue(CStr(v))
  }

  /** The driver's run configuration; the fields are those `ParseArgv` writes through its pointers. */
  datatype Config = Config(
    inputPath: Option<string>,
    outputPath: Option<string>,
    force: bool,
    quality: int,
    decompress: bool,
    repeat: int,
    verbose: bool,
    lgwin: int,
    mode: int)

  datatype Parsed = Ok(config: Config) | UsageError

  /** A program name whose C string ends in "unbro" starts the driver in decompression mode. */
  predicate InvokedAsUnbro(name: string) {
    var n := CStr(name);
    |n| >= 5 && CStr(n[|n| - 5..]) == "unbro"
  }

  /**
   * The configuration accepted options describe. Quality, window and mode keep
   * the caller's values unless their flag appears; force, verbose, the paths
   * and the repeat count start from the driver's own defaults.
   */
  function Summary(name: string, opts: seq<Opt>, quality: int, lgwin: int, mode: int): Config
    requires NumbersWellFormed(opts)
  {
    Config(
      inputPath := PathOf(opts, Input),
      outputPath := PathOf(opts, Output),
      force := Count(opts, Force) > 0,
      quality := NumberOr(opts, Quality, quality),
      decompress := InvokedAsUnbro(name) || Count(opts, Decompress) > 0,
      repeat := NumberOr(opts, Repeat, 1),
      verbose := Count(opts, Verbose) > 0,
      lgwin := NumberOr(opts, Window, lgwin),
      mode := NumberOr(opts, Mode, mode))
  }

  function Interpret(name: string, opts: seq<Opt>, quality: int, lgwin: int, mode: int): Parsed {
    if Rejected(opts) then UsageError else Ok(Summary(name, opts, quality, lgwin, mode))
  }

  function ParseArgvSpec(argv: seq<string>, quality: int, lgwin: int, mode: int): Parsed
    requires |argv| >= 1
  {
    match Lex(argv, 1)
    case None => UsageError
    case Some(opts) => Interpret(argv[0], opts, quality, lgwin, mode)
  }

  /** The configuration before any option is read. */
  function Initial(name: string, quality: int, lgwin: int, mode: int): Config {
    Config(None, None, false, quality, InvokedAsUnbro(name), 1, false, lgwin, mode)
  }

  /** Whether a once-only flag has already been given, read off the configuration built so far. */
  predicate AlreadySet(c: Config, f: Flag) {
    match f
    case Force => c.force
    case Verbose => c.verbose
    case Input => c.inputPath.Some?
    case Output => c.outputPath.Some?
    case _ => false
  }

  /** The scan stops at an option that repeats a once-only flag or carries a malformed number. */
  predicate Refuses(c: Config, o: Opt) {
    AlreadySet(c, o.flag) || (o.flag.Numeric() && !IsSmallDecimal(CStr(o.value)))
  }

  /** The effect of one accepted option on the configuration. */
  function Apply(c: Config, o: Opt): Config
    requires !Refuses(c, o)
  {
    match o.flag
    case Force => c.(force := true)
    case Decompress => c.(decompress := true)
    case Verbose => c.(verbose := true)
    case Input => c.(inputPath := Some(CStr(o.value)))
    case Output => c.(outputPath := Some(CStr(o.value)))
    case Quality => c.(quality := DecimalValue(CStr(o.value)))
    case Repeat => c.(repeat := DecimalValue(CStr(o.value)))
    case Window => c.(lgwin := DecimalValue(CStr(o.value)))
    case Mode => c.(mode := DecimalValue(CStr(o.value)))
  }

  /** The options read one at a time from the left, as the driver's loop reads them. */
  function Scan(name: string, opts: seq<Opt>, quality: int, lgwin: int, mode: int): Parsed {
    if opts == [] then Ok(Initial(name, quality, lgwin, mode))
    else match Scan(name, opts[..|opts| - 1], quality, lgwin, mode)
      case UsageError => UsageError
      case Ok(c) =>
        var o := opts[|opts| - 1];
        if Refuses(c, o) then UsageError else Ok(Apply(c, o))
  }

  lemma CountAppend(a: seq<Opt>, b: seq<Opt>, f: Flag)
    ensures Count(a + b, f) == Count(a, f) + Count(b, f)
    decreases |b|
  {
    if b != [] {
      var b' := b[..|b| - 1];
      assert (a + b)[..|a + b| - 1] == a + b';
      CountAppend(a, b', f);
    } else {
      assert a + b == a;
    }
  }

  /** Adding one option to a prefix. */
  lemma Snoc(done: seq<Opt>, o: Opt)
    ensures forall f :: Count(done + [o], f) == Count(done, f) + (if o.flag == f then 1 else 0)
    ensures forall f :: LastValue(done + [o], f) == if o.flag == f then Some(o.value) else LastValue(done, f)
  {
    assert (done + [o])[..|done + [o]| - 1] == done;
  }

  /** One more option is refused exactly for a repeated once-only flag or a malformed number. */
  lemma RejectedSnoc(name: string, done: seq<Opt>, o: Opt, quality: int, lgwin: int, mode: int, c: Config)
    requires !Rejected(done) && c == Summary(name, done, quality, lgwin, mode)
    ensures Rejected(done + [o]) <==> Refuses(c, o)
  {
    Snoc(done, o);
    assert (done + [o])[|done|] == o;
    assert forall i :: 0 <= i < |done| ==> (done + [o])[i] == done[i];
  }

  lemma NumberOrSnoc(done: seq<Opt>, o: Opt, f: Flag, default: int)
    requires NumbersWellFormed(done + [o]) && f.Numeric()
    ensures NumbersWellFormed(done)
    ensures o.flag.Numeric() ==> IsSmallDecimal(CStr(o.value))
    ensures NumberOr(done + [o], f, default) ==
      if o.flag == f then DecimalValue(CStr(o.value)) else NumberOr(done, f, default)
  {
    assert (done + [o])[|done|] == o;
    assert forall i :: 0 <= i < |done| ==> (done + [o])[i] == done[i];
    Snoc(done, o);
  }

  lemma PathOfSnoc(done: seq<Opt>, o: Opt, f: Flag)
    ensures PathOf(done + [o], f) == if o.flag == f then Some(CStr(o.value)) else PathOf(done, f)
  {
    Snoc(done, o);
  }

  /** An accepted option updates the configuration as `Apply` says. */
  lemma SummarySnoc(name: string, done: seq<Opt>, o: Opt, quality: int, lgwin: int, mode: int, c: Config)
    requires !Rejected(done) && c == Summary(name, done, quality, lgwin, mode)
    requires !Rejected(done + [o]) && !Refuses(c, o)
    ensures Summary(name, done + [o], quality, lgwin, mode) == Apply(c, o)
  {
    var opts := done + [o];
    Snoc(done, o);
    PathOfSnoc(done, o, Input);
    PathOfSnoc(done, o, Output);
    NumberOrSnoc(done, o, Quality, quality);
    NumberOrSnoc(done, o, Repeat, 1);
    NumberOrSnoc(done, o, Window, lgwin);
    NumberOrSnoc(done, o, Mode, mode);
    var c' := Config(
      PathOf(opts, Input), PathOf(opts, Output), Count(opts, Force) > 0,
      NumberOr(opts, Quality, quality), InvokedAsUnbro(name) || Count(opts, Decompress) > 0,
      NumberOr(opts, Repeat, 1), Count(opts, Verbose) > 0,
      NumberOr(opts, Window, lgwin), NumberOr(opts, Mode, mode));
    assert c' == Summary(name, opts, quality, lgwin, mode);
  }

  /**
   * Reading the options one at a time, stopping at the first refused one,
   * gives the declarative reading: refused exactly when a once-only flag
   * repeats or a number is malformed, and otherwise the flags that appear and
   * the last value of each.
   */
  lemma {:induction false} ScanMatchesInterpret(name: string, opts: seq<Opt>, quality: int, lgwin: int, mode: int)
    ensures Scan(name, opts, quality, lgwin, mode) == Interpret(name, opts, quality, lgwin, mode)
    decreases |opts|
  {
    if opts != [] {
      var done, o := opts[..|opts| - 1], opts[|opts| - 1];
      assert opts == done + [o];
      ScanMatchesInterpret(name, done, quality, lgwin, mode);
      if Rejected(done) {
        RejectedExtends(done, [o]);
      } else {
        var c := Summary(name, done, quality, lgwin, mode);
        RejectedSnoc(name, done, o, quality, lgwin, mode, c);
        if !Refuses(c, o) {
          SummarySnoc(name, done, o, quality, lgwin, mode, c);
        }
      }
    }
  }

  /** Once the options seen so far are refused, no continuation is accepted. */
  lemma RejectedExtends(a: seq<Opt>, b: seq<Opt>)
    requires Rejected(a)
    ensures Rejected(a + b)
  {
    CountAppend(a, b, Force);
    CountAppend(a, b, Verbose);
    CountAppend(a, b, Input);
    CountAppend(a, b, Output);
    if !NumbersWellFormed(a) {
      var i :| 0 <= i < |a| && a[i].flag.Numeric() && !IsSmallDecimal(CStr(a[i].value));
      assert (a + b)[i] == a[i];
    }
  }

  /** The scan never recovers from a refused option. */
  lemma {:induction false} ScanRefusedExtends(name: string, a: seq<Opt>, b: seq<Opt>, quality: int, lgwin: int, mode: int)
    requires Scan(name, a, quality, lgwin, mode) == UsageError
    ensures Scan(name, a + b, quality, lgwin, mode) == UsageError
    decreases |b|
  {
    if b == [] {
      assert a + b == a;
    } else {
      assert (a + b)[..|a + b| - 1] == a + b[..|b| - 1];
      ScanRefusedExtends(name, a, b[..|b| - 1], quality, lgwin, mode);
    }
  }

  /** A recognised flag at `k` is one option, followed by the options from the next flag position. */
  lemma LexStep(argv: seq<string>, k: nat, o: Opt, next: nat)
    requires k < next <= |argv|
    requires FlagNamed(argv[k]) == Some(o.flag)
    requires next == if o.flag.TakesValue() then k + 2 else k + 1
    requires o.value == if o.flag.TakesValue() then argv[k + 1] else ""
    ensures Lex(argv, k) == Prefixed([o], Lex(argv, next))
  {
  }

  /** An unknown token, or a value flag with nothing after it, stops the lexer. */
  lemma LexStops(argv: seq<string>, k: nat)
    requires 1 <= k < |argv|
    requires FlagNamed(argv[k]).None? || (FlagNamed(argv[k]).value.TakesValue() && k + 1 == |argv|)
    ensures Lex(argv, k).None?
  {
  }

  /** Options read in two pieces are the concatenation of the pieces. */
  lemma PrefixedConcat(a: seq<Opt>, b: seq<Opt>, rest: Option<seq<Opt>>)
    ensures Prefixed(a, Prefixed(b, rest)) == Prefixed(a + b, rest)
  {
    if rest.Some? {
      assert a + (b + rest.value) == (a + b) + rest.value;
    }
  }

  /** Once the scan has refused a prefix, any command line with that prefix is a usage error. */
  lemma RefusedPrefix(name: string, done: seq<Opt>, rest: Option<seq<Opt>>, quality: int, lgwin: int, mode: int)
    requires Scan(name, done, quality, lgwin, mode) == UsageError
    ensures Prefixed(done, rest).Some? ==> Interpret(name, Prefixed(done, rest).value, quality, lgwin, mode) == UsageError
  {
    if rest.Some? {
      ScanRefusedExtends(name, done, rest.value, quality, lgwin, mode);
      ScanMatchesInterpret(name, done + rest.value, quality, lgwin, mode);
    }
  }

  /** The tokens that spell an option with its flag's long name. */
  function Tokens(o: Opt): seq<string> {
    if o.flag.TakesValue() then [o.flag.LongName(), o.value] else [o.flag.LongName()]
  }

  /** A command line (without the program name) that spells out `opts`. */
  function Render(opts: seq<Opt>): seq<string> {
    if opts == [] then [] else Tokens(opts[0]) + Render(opts[1..])
  }

  /**
   * Lexing the tokens that spell `opts`, whatever follows them, reads back
   * `opts` first: a value token is taken as it stands, even when it looks
   * like a flag.
   */
  lemma {:induction false} LexRenderThen(prefix: seq<string>, opts: seq<Opt>, tail: seq<string>)
    requires forall i :: 0 <= i < |opts| ==> WellFormed(opts[i])
    ensures var argv := prefix + Render(opts) + tail;
      Lex(argv, |prefix|) == Prefixed(opts, Lex(argv, |prefix| + |Render(opts)|))
    decreases |opts|
  {
    var argv := prefix + Render(opts) + tail;
    if opts == [] {
      match Lex(argv, |prefix|)
      case None =>
      case Some(r) => assert [] + r == r;
    } else {
      var o, rest := opts[0], opts[1..];
      var prefix' := prefix + Tokens(o);
      assert argv == prefix' + Render(rest) + tail;
      LexRenderThen(prefix', rest, tail);
      FlagNamedSpelling(o.flag, o.flag.LongName());
      assert argv[|prefix|] == o.flag.LongName();
      if o.flag.TakesValue() {
        assert argv[|prefix| + 1] == o.value;
      }
      LexStep(argv, |prefix|, o, |prefix'|);
      PrefixedConcat([o], rest, Lex(argv, |prefix| + |Render(opts)|));
      assert [o] + rest == opts;
    }
  }

  /** Lexing a rendered command line gives back exactly its options. */
  lemma LexRender(prefix: seq<string>, opts: seq<Opt>)
    requires forall i :: 0 <= i < |opts| ==> WellFormed(opts[i])
    ensures Lex(prefix + Render(opts), |prefix|) == Some(opts)
  {
    var argv := prefix + Render(opts);
    LexRenderThen(prefix, opts, []);
    assert argv + [] == argv;
    LexEnd(argv);
    assert Prefixed(opts, Some([])) == Some(opts) by {
      assert opts + [] == opts;
    }
  }

  /** Nothing is left to lex at the end of the command line. */
  lemma LexEnd(argv: seq<string>)
    ensures Lex(argv, |argv|) == Some([])
  {
  }

  /** A rendered command line is accepted or refused as its options say. */
  lemma ParseRendered(name: string, opts: seq<Opt>, quality: int, lgwin: int, mode: int)
    requires forall i :: 0 <= i < |opts| ==> WellFormed(opts[i])
    ensures ParseArgvSpec([name] + Render(opts), quality, lgwin, mode) == Interpret(name, opts, quality, lgwin, mode)
  {
    LexRender([name], opts);
  }

  /**
   * What an accepted command line sets: each once-only flag was given at most
   * once, a numeric field holds a number of at most two digits when its flag
   * appears and the caller's value otherwise, and the repeat count defaults to 1.
   */
  lemma AcceptedConfig(argv: seq<string>, quality: int, lgwin: int, mode: int)
    requires |argv| >= 1 && ParseArgvSpec(argv, quality, lgwin, mode).Ok?
    ensures Lex(argv, 1).Some?
    ensures var opts, c := Lex(argv, 1).value, ParseArgvSpec(argv, quality, lgwin, mode).config;
      && (c.force <==> Count(opts, Force) == 1)
      && (c.verbose <==> Count(opts, Verbose) == 1)
      && (c.inputPath.Some? <==> Count(opts, Input) == 1)
      && (c.outputPath.Some? <==> Count(opts, Output) == 1)
      && (c.decompress <==> InvokedAsUnbro(argv[0]) || Count(opts, Decompress) > 0)
      && (if Count(opts, Quality) == 0 then c.quality == quality else 0 <= c.quality <= 99)
      && (if Count(opts, Window) == 0 then c.lgwin == lgwin else 0 <= c.lgwin <= 99)
      && (if Count(opts, Mode) == 0 then c.mode == mode else 0 <= c.mode <= 99)
      && (if Count(opts, Repeat) == 0 then c.repeat == 1 else 0 <= c.repeat <= 99)
  {
  }

  /** A name whose C string ends in "unbro" selects decompression, and only such a name does. */
  lemma InvokedAsUnbroSuffix(name: string, prefix: string)
    requires NulFree(prefix)
    ensures InvokedAsUnbro(prefix + "unbro")
    ensures InvokedAsUnbro(name) ==> exists p :: CStr(name) == p + "unbro"
  {
    UnbroSuffixSelects(prefix);
    if InvokedAsUnbro(name) {
      UnbroOnlySuffix(name);
    }
  }

  /** A NUL-free name followed by "unbro" selects decompression. */
  lemma UnbroSuffixSelects(prefix: string)
    requires NulFree(prefix)
    ensures InvokedAsUnbro(prefix + "unbro")
  {
    var n := prefix + "unbro";
    assert NulFree(n);
    CStrOfNulFree(n);
    assert n[|n| - 5..] == "unbro";
    CStrOfNulFree("unbro");
  }

  /** A name that selects decompression has a C string ending in "unbro". */
  lemma UnbroOnlySuffix(name: string)
    requires InvokedAsUnbro(name)
    ensures exists p :: CStr(name) == p + "unbro"
  {
    var t := CStr(name);
    var tail := t[|t| - 5..];
    assert NulFree(tail) by {
      forall i | 0 <= i < |tail| ensures tail[i] != NUL {
        assert tail[i] == t[|t| - 5 + i];
      }
    }
    CStrOfNulFree(tail);
    var p := t[..|t| - 5];
    assert t == p + tail;
    assert CStr(name) == p + "unbro";
  }

  /** A lexed command line is decided by the left-to-right scan of its options. */
  lemma ParseByScan(argv: seq<string>, opts: seq<Opt>, quality: int, lgwin: int, mode: int)
    requires |argv| >= 1 && Lex(argv, 1) == Some(opts)
    ensures ParseArgvSpec(argv, quality, lgwin, mode) == Scan(argv[0], opts, quality, lgwin, mode)
  {
    ScanMatchesInterpret(argv[0], opts, quality, lgwin, mode);
  }

  /** Two occurrences of a flag count as at least two. */
  lemma {:induction false} CountTwo(opts: seq<Opt>, i: nat, j: nat, f: Flag)
    requires i < j < |opts| && opts[i].flag == f && opts[j].flag == f
    ensures Count(opts, f) >= 2
    decreases |opts|
  {
    var init := opts[..|opts| - 1];
    if j < |opts| - 1 {
      assert init[i] == opts[i] && init[j] == opts[j];
      CountTwo(init, i, j, f);
    } else {
      assert init[i] == opts[i];
      CountOne(init, i, f);
    }
  }

  lemma {:induction false} CountOne(opts: seq<Opt>, i: nat, f: Flag)
    requires i < |opts| && opts[i].flag == f
    ensures Count(opts, f) >= 1
    decreases |opts|
  {
    var init := opts[..|opts| - 1];
    if i < |opts| - 1 {
      assert init[i] == opts[i];
      CountOne(init, i, f);
    }
  }

  /**
   * A command line in which `--force`, `--verbose`, `--input` or `--output`
   * occurs twice, in any spellings, is a usage error.
   */
  lemma OnceOnlyFlagTwiceRefused(argv: seq<string>, i: nat, j: nat, f: Flag, quality: int, lgwin: int, mode: int)
    requires |argv| >= 1 && Lex(argv, 1).Some? && f.AtMostOnce()
    requires i < j < |Lex(argv, 1).value| && Lex(argv, 1).value[i].flag == f && Lex(argv, 1).value[j].flag == f
    ensures ParseArgvSpec(argv, quality, lgwin, mode) == UsageError
  {
    CountTwo(Lex(argv, 1).value, i, j, f);
  }

  /** A value flag takes the next token as it stands, even when it spells a flag ("-o -f" writes to a file named "-f"). */
  lemma ValueFlagTakesNextToken(argv: seq<string>, quality: int, lgwin: int, mode: int)
    requires |argv| == 3 && !InvokedAsUnbro(argv[0]) && CStr(argv[1]) in Spellings(Output)
    ensures ParseArgvSpec(argv, quality, lgwin, mode) ==
      Ok(Config(None, Some(CStr(argv[2])), false, quality, false, 1, false, lgwin, mode))
  {
    var o := Opt(Output, argv[2]);
    FlagNamedSpellings(argv[1], Output);
    assert Lex(argv, 3) == Some([]);
    LexStep(argv, 1, o, 3);
    assert [o] + [] == [o];
    ParseByScan(argv, [o], quality, lgwin, mode);
    assert [o][..0] == [];
  }

  /** A value flag in the last position is a usage error, whatever options come before it. */
  lemma TrailingValueFlagRefused(name: string, opts: seq<Opt>, token: string, f: Flag, quality: int, lgwin: int, mode: int)
    requires forall i :: 0 <= i < |opts| ==> WellFormed(opts[i])
    requires f.TakesValue() && CStr(token) in Spellings(f)
    ensures ParseArgvSpec([name] + Render(opts) + [token], quality, lgwin, mode) == UsageError
  {
    var argv := [name] + Render(opts) + [token];
    LexRenderThen([name], opts, [token]);
    var k := 1 + |Render(opts)|;
    assert argv[k] == token && k + 1 == |argv|;
    FlagNamedSpellings(token, f);
    LexStops(argv, k);
  }

  /**
   * A token that spells no flag, in a position where a flag is expected, is a
   * usage error whatever comes before or after it.
   */
  lemma UnknownFlagRefused(name: string, opts: seq<Opt>, token: string, rest: seq<string>, quality: int, lgwin: int, mode: int)
    requires forall i :: 0 <= i < |opts| ==> WellFormed(opts[i])
    requires forall f: Flag :: CStr(token) !in Spellings(f)
    ensures ParseArgvSpec([name] + Render(opts) + ([token] + rest), quality, lgwin, mode) == UsageError
  {
    var argv := [name] + Render(opts) + ([token] + rest);
    LexRenderThen([name], opts, [token] + rest);
    var k := 1 + |Render(opts)|;
    assert argv[k] == token;
    if FlagNamed(token).Some? {
      FlagNamedSpellings(token, FlagNamed(token).value);
    }
    LexStops(argv, k);
  }

  /** Two switches in a row are two options, whatever their spellings. */
  lemma LexTwoSwitches(argv: seq<string>, f: Flag)
    requires |argv| == 3 && !f.TakesValue()
    requires CStr(argv[1]) in Spellings(f) && CStr(argv[2]) in Spellings(f)
    ensures Lex(argv, 1) == Some([Opt(f, ""), Opt(f, "")])
  {
    var o := Opt(f, "");
    FlagNamedSpellings(argv[1], f);
    FlagNamedSpellings(argv[2], f);
    assert Lex(argv, 3) == Some([]);
    LexStep(argv, 2, o, 3);
    assert [o] + [] == [o];
    LexStep(argv, 1, o, 2);
    assert [o] + [o] == [o, o];
  }

  /** A repeated decompress flag, in any spellings, is not an error. */
  lemma RepeatedDecompressAccepted(argv: seq<string>, quality: int, lgwin: int, mode: int)
    requires |argv| == 3 && CStr(argv[1]) in Spellings(Decompress) && CStr(argv[2]) in Spellings(Decompress)
    ensures ParseArgvSpec(argv, quality, lgwin, mode) ==
      Ok(Config(None, None, false, quality, true, 1, false, lgwin, mode))
  {
    var o := Opt(Decompress, "");
    LexTwoSwitches(argv, Decompress);
    ParseByScan(argv, [o, o], quality, lgwin, mode);
    var c := Initial(argv[0], quality, lgwin, mode).(decompress := true);
    assert [o, o][..1] == [o] && [o][..0] == [];
    assert Scan(argv[0], [o], quality, lgwin, mode) == Ok(c);
  }

  /** Two value flags in a row are two options, whatever their spellings and values. */
  lemma LexTwoValues(argv: seq<string>, f: Flag)
    requires |argv| == 5 && f.TakesValue()
    requires CStr(argv[1]) in Spellings(f) && CStr(argv[3]) in Spellings(f)
    ensures Lex(argv, 1) == Some([Opt(f, argv[2]), Opt(f, argv[4])])
  {
    var o1, o2 := Opt(f, argv[2]), Opt(f, argv[4]);
    FlagNamedSpellings(argv[1], f);
    FlagNamedSpellings(argv[3], f);
    assert Lex(argv, 5) == Some([]);
    LexStep(argv, 3, o2, 5);
    assert [o2] + [] == [o2];
    LexStep(argv, 1, o1, 3);
    assert [o1] + [o2] == [o1, o2];
  }

  /** A numeric flag may repeat, and the value of its last occurrence wins. */
  lemma LastQualityWins(argv: seq<string>, quality: int, lgwin: int, mode: int)
    requires |argv| == 5 && !InvokedAsUnbro(argv[0])
    requires CStr(argv[1]) in Spellings(Quality) && CStr(argv[3]) in Spellings(Quality)
    requires IsSmallDecimal(CStr(argv[2])) && IsSmallDecimal(CStr(argv[4]))
    ensures ParseArgvSpec(argv, quality, lgwin, mode) ==
      Ok(Config(None, None, false, DecimalValue(CStr(argv[4])), false, 1, false, lgwin, mode))
  {
    var o1, o2 := Opt(Quality, argv[2]), Opt(Quality, argv[4]);
    LexTwoValues(argv, Quality);
    ParseByScan(argv, [o1, o2], quality, lgwin, mode);
    var c := Initial(argv[0], quality, lgwin, mode).(quality := DecimalValue(CStr(argv[2])));
    assert [o1, o2][..1] == [o1] && [o1][..0] == [];
    assert Scan(argv[0], [o1], quality, lgwin, mode) == Ok(c);
  }

  /** A value flag followed by one token is one option. */
  lemma LexOneValue(argv: seq<string>, f: Flag)
    requires |argv| == 3 && f.TakesValue() && CStr(argv[1]) in Spellings(f)
    ensures Lex(argv, 1) == Some([Opt(f, argv[2])])
  {
    var o := Opt(f, argv[2]);
    FlagNamedSpellings(argv[1], f);
    assert Lex(argv, 3) == Some([]);
    LexStep(argv, 1, o, 3);
    assert [o] + [] == [o];
  }

  /** A repeat count of zero is accepted. */
  lemma ZeroRepeatAccepted(argv: seq<string>, quality: int, lgwin: int, mode: int)
    requires |argv| == 3 && !InvokedAsUnbro(argv[0]) && CStr(argv[1]) in Spellings(Repeat) && CStr(argv[2]) == "0"
    ensures ParseArgvSpec(argv, quality, lgwin, mode) ==
      Ok(Config(None, None, false, quality, false, 0, false, lgwin, mode))
  {
    var o := Opt(Repeat, argv[2]);
    LexOneValue(argv, Repeat);
    ParseByScan(argv, [o], quality, lgwin, mode);
    assert [o][..0] == [];
    assert "0"[..0] == [];
  }

  /** A numeric value that is not one or two digits is a usage error. */
  lemma MalformedNumberRefused(argv: seq<string>, f: Flag, quality: int, lgwin: int, mode: int)
    requires |argv| == 3 && f.Numeric() && CStr(argv[1]) in Spellings(f) && !IsSmallDecimal(CStr(argv[2]))
    ensures ParseArgvSpec(argv, quality, lgwin, mode) == UsageError
  {
    LexOneValue(argv, f);
    assert Opt(f, argv[2]) == [Opt(f, argv[2])][0];
  }

  /**
   * The body of the driver's switch on one recognised option: a repeated
   * once-only flag or a malformed number is refused, anything else is written
   * into the configuration built so far.
   */
  method TakeOption(c: Config, o: Opt) returns (accepted: bool, c': Config)
    ensures accepted <==> !Refuses(c, o)
    ensures accepted ==> c' == Apply(c, o)
  {
    c' := c;
    match o.flag {
      case Force =>
        if c.force { return false, c; }
        c' := c.(force := true);
      case Decompress =>
        c' := c.(decompress := true);
      case Verbose =>
        if c.verbose { return false, c; }
        c' := c.(verbose := true);
      case Input =>
        if c.inputPath.Some? { return false, c; }
        c' := c.(inputPath := Some(CStr(o.value)));
      case Output =>
        if c.outputPath.Some? { return false, c; }
        c' := c.(outputPath := Some(CStr(o.value)));
      case _ =>
        // The four numeric flags share one reader, each writing into its own field.
        var target := match o.flag
          case Quality => c.quality
          case Repeat => c.repeat
          case Window => c.lgwin
          case _ => c.mode;
        var parsed := ParseQuality(o.value, target);
        ParseQualityAcceptsExactly(o.value, target);
        if !parsed.ok { return false, c; }
        match o.flag {
          case Quality => c' := c.(quality := parsed.value);
          case Repeat => c' := c.(repeat := parsed.value);
          case Window => c' := c.(lgwin := parsed.value);
          case _ => c' := c.(mode := parsed.value);
        }
    }
    accepted := true;
  }

  /**
   * The driver's scan: an index `k` over `argv`, advanced one extra step after
   * a value flag, with the results written step by step and every error
   * leaving through one exit. It agrees with the two-layer specification.
   */
  method ParseArgv(argv: seq<string>, quality0: int, lgwin0: int, mode0: int) returns (r: Parsed)
    requires |argv| >= 1
    ensures r == ParseArgvSpec(argv, quality0, lgwin0, mode0)
  {
    var name := CStr(argv[0]);
    var decompress := |name| >= 5 && CStr(name[|name| - 5..]) == "unbro";
    var c := Config(None, None, false, quality0, decompress, 1, false, lgwin0, mode0);
    var k := 1;
    ghost var done: seq<Opt> := [];
    assert Prefixed(done, Lex(argv, k)) == Lex(argv, 1) by {
      if Lex(argv, 1).Some? {
        assert done + Lex(argv, 1).value == Lex(argv, 1).value;
      }
    }
    while k < |argv|
      invariant 1 <= k <= |argv|
      invariant Lex(argv, 1) == Prefixed(done, Lex(argv, k))
      invariant Scan(argv[0], done, quality0, lgwin0, mode0) == Ok(c)
    {
      var flag := FlagNamed(argv[k]);
      if flag.None? || (flag.value.TakesValue() && k + 1 >= |argv|) {
        LexStops(argv, k);
        return UsageError;
      }
      var f := flag.value;
      var next := if f.TakesValue() then k + 2 else k + 1;
      var o := Opt(f, if f.TakesValue() then argv[k + 1] else "");
      LexStep(argv, k, o, next);
      PrefixedConcat(done, [o], Lex(argv, next));
      ghost var extended := done + [o];
      assert extended[..|extended| - 1] == done;
      var accepted, c' := TakeOption(c, o);
      if !accepted {
        RefusedPrefix(argv[0], extended, Lex(argv, next), quality0, lgwin0, mode0);
        return UsageError;
      }
      done, c, k := extended, c', next;
    }
    assert done + [] == done;
    ScanMatchesInterpret(argv[0], done, quality0, lgwin0, mode0);
    r := Ok(c);
  }
}
