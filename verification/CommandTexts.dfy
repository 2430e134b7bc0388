/** Which texts reach a handler as they were written: values of arguments, and what is passed through. */
module CommandTexts {
  import opened Common
  import opened Lexer
  import opened LexerProofs
  import opened SpelledText
  import opened TextRuns
  import opened PrintedTokens
  import opened CommandParser
  import opened CommandProofs
  import opened CommandLine

  // ---------- arguments taken as strings ----------

  /** The arguments that are themselves as strings; the printed form of a float is a parameter. */
  predicate Verbatim(arg: Text, k: Kind) {
    match k
    case Id(_) => true
    case IntLit(_, base) => CanonicalInteger(arg, base)
    case FloatLit(_, printed, _) => arg == printed
    case True => arg == TRUE_WORD
    case False => arg == FALSE_WORD
    case _ => false
  }

  lemma {:induction false} LiteralShorter(raw: Text)
    ensures |LiteralValue(raw)| <= |raw|
    decreases |raw|
  {
    if raw != [] {
      if raw[0] != BACKSLASH {
        LiteralShorter(raw[1..]);
      } else if |raw| > 1 {
        LiteralShorter(raw[2..]);
      }
    }
  }

  /**
    * An argument in front of the first `--`, taken for an option or positional that wants strings,
    * is passed on as it is exactly when the lexer makes no literal of it, or one that is printed as
    * it is written.
    */
  lemma {:induction false} StringArgumentExactly(arg: Text, ty: ArgType, coerce: bool, strtod: Strtod)
    requires ty == Multiple || (ty == Single && coerce)
    ensures TokenValue(ArgToken(arg, strtod), ty, coerce) == VStr(arg) <==> Verbatim(arg, ArgToken(arg, strtod))
  {
    var k := ArgToken(arg, strtod);
    match k
    case StrLit(raw) => LiteralShorter(raw);
    case IntLit(v, base) =>
      LexedInteger(arg, strtod);
      PrintedAsWrittenExactly(arg, v, base, strtod);
    case _ =>
  }

  lemma {:induction false} LexedInteger(arg: Text, strtod: Strtod)
    requires ArgToken(arg, strtod).IntLit?
    ensures Tokenize(arg, strtod).Ok? && Tokenize(arg, strtod).value != []
    ensures Tokenize(arg, strtod).value[0].kind == ArgToken(arg, strtod) && ArgToken(arg, strtod).value >= 0
  {
    TokensSpell(arg, 0, strtod);
    var t := Tokenize(arg, strtod).value[0];
    assert Spells(arg[t.start..t.end], t.kind, strtod);
  }

  /** `007` is passed on as `7`. */
  lemma {:induction false} LeadingZerosLost(strtod: Strtod)
    ensures TokenValue(ArgToken([ZERO, ZERO, ZERO + 7], strtod), Multiple, false) == VStr([ZERO + 7])
  {
    var arg := [ZERO, ZERO, ZERO + 7];
    NoneToDrop(arg);
    assert arg[0..3] == arg;
    SevenIsItsValue();
    DecimalLexes(arg, 0, 3, strtod);
    OnlyToken(arg, IntLit(7, Dec), strtod);
  }

  lemma {:induction false} SevenIsItsValue()
    ensures Value([ZERO, ZERO, ZERO + 7], 10) == 7
  {
    assert [ZERO, ZERO, ZERO + 7][..2] == [ZERO, ZERO] && [ZERO, ZERO][..1] == [ZERO] && [ZERO][..0] == [];
    assert Value([ZERO], 10) == Value([], 10) * 10;
    assert Value([ZERO, ZERO], 10) == Value([ZERO], 10) * 10;
  }

  // ---------- what a command line passes through ----------

  lemma {:induction false} KindsAt(ts: seq<Token>, k: nat)
    requires k < |ts|
    ensures Kinds(ts)[k] == ts[k].kind
  {
    if k > 0 {
      KindsAt(ts[1..], k - 1);
    }
  }

  lemma {:induction false} AllPrintedAt(toks: seq<Kind>, k: nat)
    requires k < |toks|
    ensures AllPrinted(toks)[k] == Printed(toks[k])
  {
    if k > 0 {
      AllPrintedAt(toks[1..], k - 1);
    }
  }

  /** The tokens of a line without the end-of-input token. */
  function LineKinds(line: Text, strtod: Strtod): seq<Kind>
    requires Tokenize(line, strtod).Ok?
  {
    var all := Kinds(Tokenize(line, strtod).value);
    if all != [] && all[|all| - 1].Eof? then all[..|all| - 1] else all
  }

  /** The tokens that come out of printing as they went in. */
  predicate Survives(k: Kind, strtod: Strtod) { if k.FloatLit? then PrintsBack(k, strtod) else Printable(k) }

  lemma {:induction false} LineKindsPrintBack(line: Text, k: nat, strtod: Strtod)
    requires Tokenize(line, strtod).Ok? && k < |LineKinds(line, strtod)|
    ensures PrintsBack(LineKinds(line, strtod)[k], strtod) <==> Survives(LineKinds(line, strtod)[k], strtod)
  {
    var ts := Tokenize(line, strtod).value;
    KindsAt(ts, k);
    if !ts[k].kind.FloatLit? {
      TokensPrintBackExactly(line, ts[k], strtod);
    }
  }

  /** Where what a line passes through begins: behind its first `--`. */
  function PassedFrom(line: Text, strtod: Strtod): nat
    requires Tokenize(line, strtod).Ok?
  {
    Min(DelimiterAt(LineKinds(line, strtod), 0) + 1, |LineKinds(line, strtod)|)
  }

  /** Each text passed through is the printed form of its token. */
  predicate PassesPrinted(passed: seq<Text>, toks: seq<Kind>, from: nat) {
    from <= |toks| && |passed| == |toks| - from && forall k :: from <= k < |toks| ==> passed[k - from] == Printed(toks[k])
  }

  /** All of them lex back to their tokens. */
  predicate AllLexBack(passed: seq<Text>, toks: seq<Kind>, from: nat, strtod: Strtod)
    requires PassesPrinted(passed, toks, from)
  {
    forall k :: from <= k < |toks| ==> LexesTo(passed[k - from], toks[k], strtod)
  }

  predicate AllSurvive(toks: seq<Kind>, from: nat, strtod: Strtod) {
    forall k :: from <= k < |toks| ==> Survives(toks[k], strtod)
  }

  lemma {:induction false} LexBackExactly(line: Text, passed: seq<Text>, from: nat, strtod: Strtod)
    requires Tokenize(line, strtod).Ok? && PassesPrinted(passed, LineKinds(line, strtod), from)
    ensures AllLexBack(passed, LineKinds(line, strtod), from, strtod) <==> AllSurvive(LineKinds(line, strtod), from, strtod)
  {
    var toks := LineKinds(line, strtod);
    forall k | from <= k < |toks|
      ensures LexesTo(passed[k - from], toks[k], strtod) <==> Survives(toks[k], strtod)
    {
      LineKindsPrintBack(line, k, strtod);
    }
  }

  lemma {:induction false} LinePasses(cmd: Command, line: Text, strtod: Strtod)
    requires NoPositionalFlags(cmd) && ParseLine(cmd, line, strtod).Parsed?
    requires ParseLine(cmd, line, strtod).outcome.status == Success
    ensures Tokenize(line, strtod).Ok?
    ensures ParseLine(cmd, line, strtod).outcome.st.passthrough == Behind(LineKinds(line, strtod), 0)
  {
    SuccessPasses(cmd, LineKinds(line, strtod));
  }

  /**
    * On success a command line passes through the printed form of each token behind its first `--`,
    * and each of them lexes back to its token exactly when none of the tokens is `-`, `--` or `*`,
    * a literal with characters that are not printable, or a float that does not print back.
    */
  lemma {:induction false} LinePassthroughExactly(cmd: Command, line: Text, strtod: Strtod)
    requires NoPositionalFlags(cmd) && ParseLine(cmd, line, strtod).Parsed?
    requires ParseLine(cmd, line, strtod).outcome.status == Success
    ensures Tokenize(line, strtod).Ok?
    ensures var passed := ParseLine(cmd, line, strtod).outcome.st.passthrough;
            var toks, from := LineKinds(line, strtod), PassedFrom(line, strtod);
            && PassesPrinted(passed, toks, from)
            && (AllLexBack(passed, toks, from, strtod) <==> AllSurvive(toks, from, strtod))
  {
    LinePasses(cmd, line, strtod);
    var passed := ParseLine(cmd, line, strtod).outcome.st.passthrough;
    BehindIs(LineKinds(line, strtod), passed);
    LexBackExactly(line, passed, PassedFrom(line, strtod), strtod);
  }

  lemma {:induction false} BehindIs(toks: seq<Kind>, passed: seq<Text>)
    requires passed == Behind(toks, 0)
    ensures PassesPrinted(passed, toks, Min(DelimiterAt(toks, 0) + 1, |toks|))
  {
    var from := DelimiterAt(toks, 0) + 1;
    if from <= |toks| {
      PrintedFrom(toks, from);
    }
  }

  lemma {:induction false} PrintedFrom(toks: seq<Kind>, from: nat)
    requires from <= |toks|
    ensures PassesPrinted(AllPrinted(toks[from..]), toks, from)
  {
    var rest := toks[from..];
    forall k | from <= k < |toks|
      ensures AllPrinted(rest)[k - from] == Printed(toks[k])
    {
      AllPrintedAt(rest, k - from);
      assert rest[k - from] == toks[k];
    }
  }

  // ---------- a concrete command line ----------

  /** A command that only passes through. */
  function Passing(name: Text): Command { Command(name, [], [], [], true, None, true) }

  lemma {:induction false} TokensOfStar(strtod: Strtod)
    ensures var line := [MINUS, MINUS, BLANK, STAR];
            Tokenize(line, strtod) == Ok([Token(DoubleMinus, 0, 2), Token(Times, 3, 4), Token(Eof, 4, 4)])
  {
    var line := [MINUS, MINUS, BLANK, STAR];
    assert Tokens(line, 4, strtod) == Ok([Token(Eof, 4, 4)]);
    assert GapEnd(line, 2) == GapEnd(line, 3) == 3;
    assert Tokens(line, 2, strtod) == Ok([Token(Times, 3, 4)] + [Token(Eof, 4, 4)]);
    assert NextToken(line, 0, strtod) == Ok(Token(DoubleMinus, 0, 2));
    assert [Token(DoubleMinus, 0, 2)] + ([Token(Times, 3, 4)] + [Token(Eof, 4, 4)]) ==
           [Token(DoubleMinus, 0, 2), Token(Times, 3, 4), Token(Eof, 4, 4)];
  }

  /** `-- *` hands the number of a token kind to the handler, not a star. */
  lemma {:induction false} StarIsLost(name: Text, strtod: Strtod)
    ensures var line := [MINUS, MINUS, BLANK, STAR];
            var r := ParseLine(Passing(name), line, strtod);
            r.Parsed? && r.outcome.ran.Some? && r.outcome.ran.value.passthrough == [UnknownKind(5)]
  {
    var cmd := Passing(name);
    var toks := [DoubleMinus, Times];
    TokensOfStar(strtod);
    var ts := [Token(DoubleMinus, 0, 2), Token(Times, 3, 4), Token(Eof, 4, 4)];
    assert ts[1..] == [Token(Times, 3, 4), Token(Eof, 4, 4)] && ts[1..][1..] == [Token(Eof, 4, 4)];
    assert Kinds(ts) == toks + [Eof];
    assert (toks + [Eof])[..2] == toks;
    var st := Initial(cmd, 0);
    assert toks[1..] == [Times] && AllPrinted([Times]) == [Printed(Times)] + AllPrinted([Times][1..]);
    assert Step(cmd, toks, st) == Leave(st.(i := 2, passthrough := [] + [UnknownKind(5)]));
    assert [] + [UnknownKind(5)] == [UnknownKind(5)];
  }
}
