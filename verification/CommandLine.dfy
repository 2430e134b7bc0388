/** The two entry points of the command-line parser, from text and from arguments, end to end. */
module CommandLine {
  import opened Common
  import opened Lexer
  import opened LexerProofs
  import opened CommandParser
  import opened CommandNames
  import opened CommandProofs
  import opened CommandValues
  import opened CommandRender
  import opened CommandHandlers
  import opened WrittenCommands
  import opened SpelledText
  import opened PrintedTokens
  import opened TextRuns

  datatype LineResult = LexFailure(error: LexError) | Parsed(outcome: Outcome) | LeftOver(k: Kind)

  /** The complaint about arguments that a successful parse did not consume. */
  function Guarded(toks: seq<Kind>, r: Outcome): LineResult {
    if r.status == Success && r.st.i < |toks| then LeftOver(toks[r.st.i]) else Parsed(r)
  }

  /** ArgumentParser::parse(argc, argv). */
  function ParseArguments(cmd: Command, args: seq<Text>, strtod: Strtod): LineResult
    requires NoPositionalFlags(cmd)
  {
    var toks := ArgTokens(args, strtod, false);
    Guarded(toks, Parse(cmd, toks, 0, []))
  }

  /** ArgumentParser::parse(command_line): the end-of-input token is dropped before parsing. */
  function ParseLine(cmd: Command, line: Text, strtod: Strtod): LineResult
    requires NoPositionalFlags(cmd)
  {
    var ts := Tokenize(line, strtod);
    if ts.Err? then LexFailure(ts.error)
    else
      var all := Kinds(ts.value);
      var toks := if all != [] && all[|all| - 1].Eof? then all[..|all| - 1] else all;
      Guarded(toks, Parse(cmd, toks, 0, []))
  }

  /** Neither entry point ever has anything left over to complain about. */
  lemma {:induction false} NothingLeftOver(cmd: Command, args: seq<Text>, line: Text, strtod: Strtod)
    requires NoPositionalFlags(cmd)
    ensures ParseArguments(cmd, args, strtod).Parsed?
    ensures !ParseLine(cmd, line, strtod).LeftOver?
  {
    ParseIsSound(cmd, ArgTokens(args, strtod, false), 0, []);
    var ts := Tokenize(line, strtod);
    if ts.Ok? {
      var all := Kinds(ts.value);
      ParseIsSound(cmd, if all != [] && all[|all| - 1].Eof? then all[..|all| - 1] else all, 0, []);
    }
  }

  // ---------- command lines as text ----------

  /**
    * From values to text and to the call: a command line that names subcommands and options and
    * gives values, quoted or plain, whatever characters they hold, runs the handler of the command it
    * leads to exactly when everything required is given, and with exactly what was written.
    */
  lemma {:induction false} WrittenLineRunsHandler(chain: seq<Command>, words: seq<Text>, items: seq<Item>,
                                                  passed: Option<seq<Kind>>, strtod: Strtod)
    requires Chained(chain, words) && NoPositionalFlags(chain[0]) && AllSpellable(WholeLine(words, items, passed))
    requires var cmd := chain[|words|];
             DistinctNames(cmd.args) && Readable(cmd, items, 0) && (passed.Some? ==> cmd.allowPassthrough)
    ensures var cmd, r := chain[|words|], ParseLine(chain[0], Line(WholeLine(words, items, passed)), strtod);
            && r.Parsed?
            && (r.outcome.ran.Some? <==> cmd.handler && Sufficient(cmd, items))
            && (r.outcome.ran.Some? ==>
                  && CalledAsWritten(cmd, items, r.outcome.ran.value.args)
                  && r.outcome.ran.value.path == PathOf(chain)
                  && r.outcome.ran.value.passthrough == if passed.Some? then AllPrinted(passed.value) else [])
  {
    var toks := WholeLine(words, items, passed);
    LineGives(chain[0], toks, strtod);
    WrittenRunsHandler(chain, words, items, passed);
  }

  lemma {:induction false} LineGives(cmd: Command, toks: seq<Kind>, strtod: Strtod)
    requires NoPositionalFlags(cmd) && AllSpellable(toks)
    ensures ParseLine(cmd, Line(toks), strtod) == Parsed(Parse(cmd, toks, 0, []))
  {
    var line := Line(toks);
    assert TextAt(line, 0, line);
    LineTokens(line, 0, toks, strtod);
    assert (toks + [Eof])[..|toks|] == toks;
    ParseIsSound(cmd, toks, 0, []);
  }

  // ---------- command lines as arguments ----------

  /** The tokens that an argument of their text stands for; a star, or a word in apostrophes, is not itself. */
  predicate Arguable(k: Kind) {
    && Spellable(k) && !k.Times? && !k.DoubleMinus?
    && (k.Id? ==> k.text[0] != APOSTROPHE || k.text[|k.text| - 1] != APOSTROPHE || |k.text| == 1)
  }

  predicate AllArguable(toks: seq<Kind>) { forall k :: 0 <= k < |toks| ==> Arguable(toks[k]) }

  function ArgumentsOf(toks: seq<Kind>): (args: seq<Text>)
    requires AllArguable(toks)
    ensures |args| == |toks|
  {
    if toks == [] then [] else [Spelled(toks[0])] + ArgumentsOf(toks[1..])
  }

  lemma {:induction false} WordArgument(k: Kind, strtod: Strtod)
    requires Arguable(k) && (k.Id? || k.True? || k.False?)
    ensures ArgToken(Spelled(k), strtod) == k
  {
    var arg := Spelled(k);
    WordLexes(arg, strtod);
    OnlyToken(arg, k, strtod);
    assert arg[0] != MINUS && arg[0] != QUOTE;
  }

  lemma {:induction false} IntegerArgument(v: nat, base: Radix, strtod: Strtod)
    requires v <= MAX_LONG
    ensures ArgToken(Spelled(IntLit(v, base)), strtod) == IntLit(v, base)
  {
    var arg := Spelled(IntLit(v, base));
    InBaseValue(v, base);
    PrintedIntegerLexesBack(v, base, strtod);
    assert arg[0] != MINUS && arg[0] != QUOTE && arg[0] != APOSTROPHE;
  }

  lemma {:induction false} ArgumentStandsFor(k: Kind, strtod: Strtod)
    requires Arguable(k)
    ensures ArgToken(Spelled(k), strtod) == k && Spelled(k) != [MINUS, MINUS]
  {
    match k
    case FlagLong(name) => assert Spelled(k)[2..] == name;
    case FlagShort(name) => assert Spelled(k)[1..] == name && Spelled(k)[1] == name[0];
    case StrLit(raw) => assert Spelled(k)[1..|Spelled(k)| - 1] == raw;
    case IntLit(v, base) => IntegerArgument(v, base, strtod);
    case Id(_) => WordArgument(k, strtod);
    case True => WordArgument(k, strtod);
    case False => WordArgument(k, strtod);
  }

  /** What is behind the first `--`, as arguments. */
  function PassedArguments(passed: Option<seq<Text>>): seq<Text> {
    if passed.None? then [] else [[MINUS, MINUS]] + passed.value
  }

  function PassedTokens(passed: Option<seq<Text>>): Option<seq<Kind>> {
    if passed.None? then None else Some(Ids(passed.value))
  }

  lemma {:induction false} RawArguments(args: seq<Text>, strtod: Strtod)
    ensures ArgTokens(args, strtod, true) == Ids(args) && AllPrinted(Ids(args)) == args
  {
    if args != [] {
      RawArguments(args[1..], strtod);
      assert Ids(args)[1..] == Ids(args[1..]);
      assert args == [args[0]] + args[1..];
    }
  }

  lemma {:induction false} FirstArgument(arg: Text, rest: seq<Text>, k: Kind, strtod: Strtod)
    requires ArgToken(arg, strtod) == k && !k.DoubleMinus?
    ensures ArgTokens([arg] + rest, strtod, false) == [k] + ArgTokens(rest, strtod, false)
  {
    assert ([arg] + rest)[1..] == rest;
  }

  lemma {:induction false} DelimiterArgument(passed: Option<seq<Text>>, strtod: Strtod)
    ensures ArgTokens(PassedArguments(passed), strtod, false) == Passed(PassedTokens(passed))
  {
    if passed.Some? {
      RawArguments(passed.value, strtod);
      assert ([[MINUS, MINUS]] + passed.value)[1..] == passed.value;
    }
  }

  lemma {:induction false} ArgumentsGive(toks: seq<Kind>, passed: Option<seq<Text>>, strtod: Strtod)
    requires AllArguable(toks)
    ensures ArgTokens(ArgumentsOf(toks) + PassedArguments(passed), strtod, false) == toks + Passed(PassedTokens(passed))
    decreases |toks|
  {
    var behind := PassedArguments(passed);
    DelimiterArgument(passed, strtod);
    if toks == [] {
      assert [] + behind == behind && toks + Passed(PassedTokens(passed)) == Passed(PassedTokens(passed));
    } else {
      ArgumentStandsFor(toks[0], strtod);
      ArgumentsGive(toks[1..], passed, strtod);
      FirstArgument(Spelled(toks[0]), ArgumentsOf(toks[1..]) + behind, toks[0], strtod);
      AppendAssoc([Spelled(toks[0])], ArgumentsOf(toks[1..]), behind);
      AppendAssoc([toks[0]], toks[1..], Passed(PassedTokens(passed)));
      assert [toks[0]] + toks[1..] == toks;
    }
  }

  /** The same for a command line that comes as arguments, one for each word, flag and value. */
  lemma {:induction false} ArgumentsRunHandler(chain: seq<Command>, words: seq<Text>, items: seq<Item>,
                                               passed: Option<seq<Text>>, strtod: Strtod)
    requires Chained(chain, words) && NoPositionalFlags(chain[0])
    requires AllArguable(Ids(words) + Written(items))
    requires var cmd := chain[|words|];
             DistinctNames(cmd.args) && Readable(cmd, items, 0) && (passed.Some? ==> cmd.allowPassthrough)
    ensures var args := ArgumentsOf(Ids(words) + Written(items)) + PassedArguments(passed);
            var cmd, r := chain[|words|], ParseArguments(chain[0], args, strtod);
            && r.Parsed?
            && (r.outcome.ran.Some? <==> cmd.handler && Sufficient(cmd, items))
            && (r.outcome.ran.Some? ==>
                  && CalledAsWritten(cmd, items, r.outcome.ran.value.args)
                  && r.outcome.ran.value.path == PathOf(chain)
                  && r.outcome.ran.value.passthrough == if passed.Some? then passed.value else [])
  {
    var toks := Ids(words) + Written(items);
    ArgumentsGive(toks, passed, strtod);
    AppendAssoc(Ids(words), Written(items), Passed(PassedTokens(passed)));
    assert toks + Passed(PassedTokens(passed)) == WholeLine(words, items, PassedTokens(passed));
    ParseIsSound(chain[0], WholeLine(words, items, PassedTokens(passed)), 0, []);
    WrittenRunsHandler(chain, words, items, PassedTokens(passed));
    if passed.Some? {
      RawArguments(passed.value, strtod);
    }
  }
}
