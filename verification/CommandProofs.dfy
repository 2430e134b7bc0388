/** What holds of every parse of a command line. */
module CommandProofs {
  import opened Common
  import opened Lexer
  import opened CommandParser

  // ---------- success means that everything was consumed and is complete ----------

  /** The command itself or one below it. */
  ghost predicate Below(cmd: Command, c: Command) {
    c == cmd || exists sub :: sub in cmd.subs && Below(sub, c)
  }

  /** All required options and positionals are there, and no two options that were seen conflict. */
  predicate Complete(cmd: Command, st: State) {
    && (forall a :: a in cmd.args && !a.positional && !a.isHelp && a.required ==> a.name in st.seen)
    && (forall k :: st.pos <= k < |Positionals(cmd.args)| ==> !Positionals(cmd.args)[k].required)
    && (forall a, b :: a in cmd.args && b in cmd.args && a.name in st.seen && b.name in st.seen && a.name != b.name
          ==> b.name !in a.conflicts && a.name !in b.conflicts)
  }

  lemma {:induction false} NoPairsNoConflict(args: seq<ArgumentDef>, seen: set<Text>)
    requires ConflictPairs(args, seen) == {}
    ensures forall a, b :: a in args && b in args && a.name in seen && b.name in seen && a.name != b.name
              ==> b.name !in a.conflicts && a.name !in b.conflicts
  {
    forall a | a in args && a.name in seen
      ensures forall c :: c in a.conflicts && c in seen ==> c == a.name
    {
      PairsListed(a, seen);
    }
  }

  lemma {:induction false} PairsListed(a: ArgumentDef, seen: set<Text>)
    requires a.name in seen
    ensures forall c :: c in a.conflicts && c in seen && c != a.name ==> {a.name, c} in PairsOf(a, seen)
  {
  }

  lemma {:induction false} FinishIsComplete(cmd: Command, start: nat, st: State, prefix: Text)
    ensures var r := Finish(cmd, start, st, prefix);
            && r.command == cmd && r.start == start && r.st.i == st.i && r.st.seen == st.seen && r.st.pos == st.pos
            && r.st.passthrough == st.passthrough && r.st.dynamics == st.dynamics
            && (r.ran.Some? <==> r.status == Success && cmd.handler)
            && (r.status == Success || r.status == HelpRequested ==> Complete(cmd, r.st))
            && (r.status == Success ==> cmd.handler || cmd.subs == [])
  {
    var r := Finish(cmd, start, st, prefix);
    if r.status == Success || r.status == HelpRequested {
      NoPairsNoConflict(cmd.args, st.seen);
      var ps := Positionals(cmd.args);
      forall k | st.pos <= k < |ps|
        ensures !ps[k].required
      {
        assert ps[k] == ps[st.pos..][k - st.pos];
        assert ps[k] in ps[st.pos..];
      }
    }
  }

  lemma {:induction false} NeverSucceedsEarly(cmd: Command, toks: seq<Kind>, st: State)
    requires st.i < |toks|
    ensures Step(cmd, toks, st).Stop? ==> Step(cmd, toks, st).status != Success
    ensures Step(cmd, toks, st).Leave? ==> Step(cmd, toks, st).st.i == |toks|
  {
    if toks[st.i].FlagShort? {
      CombinedNeverSucceeds(cmd, toks[st.i].name, st.(i := st.i + 1));
    }
  }

  lemma {:induction false} CombinedNeverSucceeds(cmd: Command, name: Text, st: State)
    ensures var n := Combined(cmd, name, st); n.Continue? || (n.Stop? && n.status != Success)
    decreases |name|
  {
    if name != [] {
      var a := FindKeyword(cmd.args, [name[0]], true);
      if a.Some? {
        CombinedNeverSucceeds(cmd, name[1..],
                              st.(seen := st.seen + {a.value.name}, values := st.values[a.value.name := VBool(true)]));
      }
    }
  }

  /** What is promised of every outcome. */
  ghost predicate Sound(cmd: Command, toks: seq<Kind>, r: Outcome) {
    && Below(cmd, r.command)
    && (r.status == Success ==> r.st.i == |toks| && Complete(r.command, r.st) && (r.command.handler || r.command.subs == []))
    && (r.ran.Some? <==> r.status == Success && r.command.handler)
  }

  lemma {:induction false} ParseFromIsSound(cmd: Command, toks: seq<Kind>, start: nat, st: State, prefix: Text)
    requires st.i <= |toks| && NoPositionalFlags(cmd)
    ensures Sound(cmd, toks, ParseFrom(cmd, toks, start, st, prefix))
    decreases |toks| - st.i, 0
  {
    if st.i == |toks| {
      FinishIsComplete(cmd, start, st, prefix);
    } else {
      StepAdvances(cmd, toks, st);
      NeverSucceedsEarly(cmd, toks, st);
      match Step(cmd, toks, st)
      case Continue(next) => ParseFromIsSound(cmd, toks, start, next, prefix);
      case Leave(last) => FinishIsComplete(cmd, start, last, prefix);
      case Stop(_, _) =>
      case Descend(sub, next) => ParseIsSound(sub, toks, next.i, prefix + cmd.name + [BLANK]);
    }
  }

  /**
    * Every parse: a success has consumed every token, so no argument is left over for the callers
    * to complain about; a handler runs exactly on success, and only for a command below the root
    * whose required options and positionals are present and whose options do not conflict.
    */
  lemma {:induction false} ParseIsSound(cmd: Command, toks: seq<Kind>, i: nat, prefix: Text)
    requires i <= |toks| && NoPositionalFlags(cmd)
    ensures Sound(cmd, toks, Parse(cmd, toks, i, prefix))
    decreases |toks| - i, 1
  {
    ParseFromIsSound(cmd, toks, i, Initial(cmd, i), prefix);
  }

  // ---------- no value loop swallows a flag or the delimiter ----------

  predicate NoDelimiter(toks: seq<Kind>, i: nat, j: nat)
    requires i <= j <= |toks|
  {
    forall k :: i <= k < j ==> !toks[k].DoubleMinus?
  }

  /** The first `--` from `i` on, or the end. */
  function DelimiterAt(toks: seq<Kind>, i: nat): (j: nat)
    requires i <= |toks|
    ensures i <= j <= |toks| && NoDelimiter(toks, i, j)
    ensures j < |toks| ==> toks[j].DoubleMinus?
    decreases |toks| - i
  {
    if i == |toks| || toks[i].DoubleMinus? then i else DelimiterAt(toks, i + 1)
  }

  lemma {:induction false} DelimiterBehind(toks: seq<Kind>, i: nat, j: nat)
    requires i <= j <= |toks| && NoDelimiter(toks, i, j)
    ensures DelimiterAt(toks, i) == DelimiterAt(toks, j)
    decreases j - i
  {
    if i < j {
      DelimiterBehind(toks, i + 1, j);
    }
  }

  /** What the options say of the flag tokens from `i` to `j`: the names of the arguments they name. */
  function NamesOf(cmd: Command, k: Kind): set<Text> {
    match k
    case FlagShort(name) => if |name| > 1 then LetterNames(cmd, name) else NameOf(cmd, name, true)
    case FlagLong(name) => NameOf(cmd, name, false)
    case _ => {}
  }

  function NameOf(cmd: Command, name: Text, short: bool): set<Text> {
    var a := FindKeyword(cmd.args, name, short);
    if a.None? then {} else {a.value.name}
  }

  function LetterNames(cmd: Command, name: Text): set<Text> {
    if name == [] then {} else NameOf(cmd, [name[0]], true) + LetterNames(cmd, name[1..])
  }

  function FlagsIn(cmd: Command, toks: seq<Kind>, i: nat, j: nat): set<Text>
    requires i <= j <= |toks|
    decreases j - i
  {
    if i == j then {} else NamesOf(cmd, toks[i]) + FlagsIn(cmd, toks, i + 1, j)
  }

  lemma {:induction false} FlagsInSplit(cmd: Command, toks: seq<Kind>, i: nat, j: nat, k: nat)
    requires i <= j <= k <= |toks|
    ensures FlagsIn(cmd, toks, i, k) == FlagsIn(cmd, toks, i, j) + FlagsIn(cmd, toks, j, k)
    decreases j - i
  {
    if i < j {
      FlagsInSplit(cmd, toks, i + 1, j, k);
    }
  }

  lemma {:induction false} NoFlagsNoNames(cmd: Command, toks: seq<Kind>, i: nat, j: nat)
    requires i <= j <= |toks| && forall k :: i <= k < j ==> !IsFlag(toks[k])
    ensures FlagsIn(cmd, toks, i, j) == {}
    decreases j - i
  {
    if i < j {
      NoFlagsNoNames(cmd, toks, i + 1, j);
    }
  }

  lemma {:induction false} CombinedSees(cmd: Command, name: Text, st: State)
    ensures var n := Combined(cmd, name, st); n.Continue? ==> n.st.seen == st.seen + LetterNames(cmd, name)
    decreases |name|
  {
    if name != [] {
      var a := FindKeyword(cmd.args, [name[0]], true);
      if a.Some? {
        CombinedSees(cmd, name[1..],
                     st.(seen := st.seen + {a.value.name}, values := st.values[a.value.name := VBool(true)]));
      }
    }
  }

  /** The tokens that one turn takes as values: neither flags nor the delimiter are among them. */
  predicate OnlyValues(toks: seq<Kind>, i: nat, j: nat)
    requires i <= j <= |toks|
  {
    forall k :: i <= k < j ==> !IsFlag(toks[k]) && !toks[k].DoubleMinus?
  }

  lemma {:induction false} DynamicTakesValues(ty: ArgType, toks: seq<Kind>, name: Text, st: State)
    requires st.i <= |toks| && Dynamic(ty, toks, name, st).Continue?
    ensures var n := Dynamic(ty, toks, name, st).st;
            OnlyValues(toks, st.i, n.i) && n.seen == st.seen && n.passthrough == st.passthrough && n.pos == st.pos
  {
  }

  lemma {:induction false} OptionTakesValues(a: ArgumentDef, toks: seq<Kind>, st: State)
    requires st.i <= |toks| && OptionValue(a, toks, st).Continue?
    ensures var n := OptionValue(a, toks, st).st;
            OnlyValues(toks, st.i, n.i) && n.seen == st.seen && n.passthrough == st.passthrough && n.pos == st.pos
  {
  }

  lemma {:induction false} PositionalTakesValues(cmd: Command, toks: seq<Kind>, st: State)
    requires st.i < |toks| && !IsFlag(toks[st.i]) && PositionalStep(cmd, toks, st).Continue?
    ensures var n := PositionalStep(cmd, toks, st).st;
            OnlyValues(toks, st.i, n.i) && n.seen == st.seen && n.passthrough == st.passthrough
  {
  }

  /** A turn that goes on takes one flag or none, and values behind it. */
  predicate TakesOneFlag(cmd: Command, toks: seq<Kind>, st: State, next: State)
    requires st.i < |toks|
  {
    && st.i <= next.i <= |toks| && NoDelimiter(toks, st.i, next.i) && next.passthrough == st.passthrough
    && next.seen == st.seen + FlagsIn(cmd, toks, st.i, next.i)
  }

  lemma {:induction false} OneFlagThenValues(cmd: Command, toks: seq<Kind>, st: State, next: State)
    requires st.i < next.i <= |toks| && OnlyValues(toks, st.i + 1, next.i) && !toks[st.i].DoubleMinus?
    requires next.passthrough == st.passthrough && next.seen == st.seen + NamesOf(cmd, toks[st.i])
    ensures TakesOneFlag(cmd, toks, st, next)
  {
    NoFlagsNoNames(cmd, toks, st.i + 1, next.i);
  }

  lemma {:induction false} KeywordTakesOneFlag(cmd: Command, toks: seq<Kind>, name: Text, short: bool, st: State)
    requires st.i < |toks| && KeywordStep(cmd, toks, name, short, st).Continue?
    requires toks[st.i] == (if short then FlagShort(name) else FlagLong(name)) && (short ==> |name| <= 1)
    ensures TakesOneFlag(cmd, toks, st, KeywordStep(cmd, toks, name, short, st).st)
  {
    var a := FindKeyword(cmd.args, name, short);
    if a.None? {
      DynamicTakesValues(cmd.dynamicKeywords.value, toks, name, st.(i := st.i + 1));
    } else {
      OptionTakesValues(a.value, toks, st.(i := st.i + 1, seen := st.seen + {a.value.name}));
    }
    OneFlagThenValues(cmd, toks, st, KeywordStep(cmd, toks, name, short, st).st);
  }

  lemma {:induction false} CombinedTakesOneFlag(cmd: Command, toks: seq<Kind>, name: Text, st: State)
    requires st.i < |toks| && toks[st.i] == FlagShort(name) && |name| > 1
    requires Combined(cmd, name, st.(i := st.i + 1)).Continue?
    ensures TakesOneFlag(cmd, toks, st, Combined(cmd, name, st.(i := st.i + 1)).st)
  {
    CombinedSees(cmd, name, st.(i := st.i + 1));
    CombinedKeepsPlace(cmd, name, st.(i := st.i + 1));
    OneFlagThenValues(cmd, toks, st, Combined(cmd, name, st.(i := st.i + 1)).st);
  }

  lemma {:induction false} ValueStepTakesNone(cmd: Command, toks: seq<Kind>, st: State)
    requires st.i < |toks| && !IsFlag(toks[st.i]) && PositionalStep(cmd, toks, st).Continue?
    ensures TakesOneFlag(cmd, toks, st, PositionalStep(cmd, toks, st).st)
  {
    PositionalTakesValues(cmd, toks, st);
    NoFlagsNoNames(cmd, toks, st.i, PositionalStep(cmd, toks, st).st.i);
  }

  lemma {:induction false} StepTakesOneFlag(cmd: Command, toks: seq<Kind>, st: State)
    requires st.i < |toks|
    ensures var n := Step(cmd, toks, st);
            && (n.Continue? ==> TakesOneFlag(cmd, toks, st, n.st))
            && (n.Descend? ==> n.st == st.(i := st.i + 1) && toks[st.i].Id?)
            && (n.Leave? ==> toks[st.i].DoubleMinus? && cmd.allowPassthrough
                             && n.st == st.(i := |toks|, passthrough := st.passthrough + AllPrinted(toks[st.i + 1..])))
  {
    var n := Step(cmd, toks, st);
    match toks[st.i]
    case DoubleMinus =>
    case FlagShort(name) =>
      if n.Continue? {
        if |name| > 1 {
          CombinedTakesOneFlag(cmd, toks, name, st);
        } else {
          KeywordTakesOneFlag(cmd, toks, name, true, st);
        }
      } else {
        CombinedKeepsPlace(cmd, name, st.(i := st.i + 1));
      }
    case FlagLong(name) => if n.Continue? { KeywordTakesOneFlag(cmd, toks, name, false, st); }
    case Id(_) => if n.Continue? { ValueStepTakesNone(cmd, toks, st); }
    case _ => if n.Continue? { ValueStepTakesNone(cmd, toks, st); }
  }

  // ---------- whole parses ----------

  /** What a `--` at or behind `i` passes through. */
  function Behind(toks: seq<Kind>, i: nat): seq<Text>
    requires i <= |toks|
  {
    var d := DelimiterAt(toks, i);
    if d < |toks| then AllPrinted(toks[d + 1..]) else []
  }

  /**
    * What a success has made of the tokens from `i` on: the options it has seen are those that the
    * flag tokens of the command's own part name, and everything behind the first `--`, and nothing
    * else, is passed through.
    */
  ghost predicate Accounts(toks: seq<Kind>, i: nat, r: Outcome)
    requires i <= |toks|
  {
    var d := DelimiterAt(toks, i);
    && i <= r.start <= d
    && r.st.seen == FlagsIn(r.command, toks, r.start, d)
    && r.st.passthrough == Behind(toks, i)
    && (d < |toks| ==> r.command.allowPassthrough)
  }

  lemma {:induction false} ParseFromAccounts(cmd: Command, toks: seq<Kind>, start: nat, st: State, prefix: Text)
    requires start <= st.i <= |toks| && NoPositionalFlags(cmd)
    requires NoDelimiter(toks, start, st.i) && st.passthrough == [] && st.seen == FlagsIn(cmd, toks, start, st.i)
    ensures var r := ParseFrom(cmd, toks, start, st, prefix); r.status == Success ==> Accounts(toks, start, r)
    decreases |toks| - st.i, 0
  {
    if st.i == |toks| {
      FinishAccounts(cmd, toks, start, st, prefix);
    } else {
      StepAdvances(cmd, toks, st);
      NeverSucceedsEarly(cmd, toks, st);
      StepTakesOneFlag(cmd, toks, st);
      match Step(cmd, toks, st)
      case Continue(next) =>
        FlagsInSplit(cmd, toks, start, st.i, next.i);
        ParseFromAccounts(cmd, toks, start, next, prefix);
      case Leave(last) => DelimiterAccounts(cmd, toks, start, st, prefix);
      case Stop(_, _) =>
      case Descend(sub, next) =>
        ParseAccounts(sub, toks, next.i, prefix + cmd.name + [BLANK]);
        SubAccounts(toks, start, next.i, Parse(sub, toks, next.i, prefix + cmd.name + [BLANK]));
    }
  }

  /** At the end of the tokens, with no delimiter among them. */
  lemma {:induction false} FinishAccounts(cmd: Command, toks: seq<Kind>, start: nat, st: State, prefix: Text)
    requires start <= st.i == |toks|
    requires NoDelimiter(toks, start, st.i) && st.passthrough == [] && st.seen == FlagsIn(cmd, toks, start, st.i)
    ensures Accounts(toks, start, Finish(cmd, start, st, prefix))
  {
    DelimiterBehind(toks, start, st.i);
    FinishIsComplete(cmd, start, st, prefix);
  }

  /** At the delimiter, of a command that passes on what is behind it. */
  lemma {:induction false} DelimiterAccounts(cmd: Command, toks: seq<Kind>, start: nat, st: State, prefix: Text)
    requires start <= st.i < |toks| && toks[st.i].DoubleMinus? && cmd.allowPassthrough
    requires NoDelimiter(toks, start, st.i) && st.passthrough == [] && st.seen == FlagsIn(cmd, toks, start, st.i)
    ensures var last := st.(i := |toks|, passthrough := st.passthrough + AllPrinted(toks[st.i + 1..]));
            Accounts(toks, start, Finish(cmd, start, last, prefix))
  {
    DelimiterBehind(toks, start, st.i);
    var last := st.(i := |toks|, passthrough := st.passthrough + AllPrinted(toks[st.i + 1..]));
    FinishIsComplete(cmd, start, last, prefix);
    assert [] + AllPrinted(toks[st.i + 1..]) == AllPrinted(toks[st.i + 1..]);
  }

  lemma {:induction false} SubAccounts(toks: seq<Kind>, start: nat, i: nat, r: Outcome)
    requires start <= i <= |toks| && NoDelimiter(toks, start, i)
    ensures Accounts(toks, i, r) ==> Accounts(toks, start, r)
  {
    DelimiterBehind(toks, start, i);
  }

  /** Every successful parse accounts for the flags and the delimiter among its tokens. */
  lemma {:induction false} ParseAccounts(cmd: Command, toks: seq<Kind>, i: nat, prefix: Text)
    requires i <= |toks| && NoPositionalFlags(cmd)
    ensures var r := Parse(cmd, toks, i, prefix); r.status == Success ==> Accounts(toks, i, r)
    decreases |toks| - i, 1
  {
    ParseFromAccounts(cmd, toks, i, Initial(cmd, i), prefix);
  }

  // ---------- command lines given as arguments ----------

  /** The token for an argument in front of the first `--`. */
  function ArgToken(arg: Text, strtod: Strtod): (k: Kind)
    ensures k.DoubleMinus? <==> arg == [MINUS, MINUS]
  {
    if arg == [MINUS, MINUS] then DoubleMinus
    else if |arg| > 2 && arg[0] == MINUS && arg[1] == MINUS then FlagLong(arg[2..])
    else if |arg| > 1 && arg[0] == MINUS then FlagShort(arg[1..])
    else if |arg| >= 2 && arg[0] == arg[|arg| - 1] && arg[0] in {QUOTE, APOSTROPHE} then StrLit(arg[1..|arg| - 1])
    else
      var toks := Tokenize(arg, strtod);
      if toks.Ok? && |toks.value| == 2 && toks.value[1].kind.Eof? && IsLiteral(toks.value[0].kind)
      then toks.value[0].kind
      else Id(arg)
  }

  predicate IsLiteral(k: Kind) { k.IntLit? || k.FloatLit? || k.True? || k.False? }

  /** ArgumentParser::parse(argc, argv): behind the first `--` every argument stands for itself. */
  function ArgTokens(args: seq<Text>, strtod: Strtod, passthrough: bool): (toks: seq<Kind>)
    ensures |toks| == |args|
  {
    if args == [] then []
    else
      var k := if passthrough then Id(args[0]) else ArgToken(args[0], strtod);
      [k] + ArgTokens(args[1..], strtod, passthrough || k.DoubleMinus?)
  }

  method TokenizeArguments(args: seq<Text>, strtod: Strtod) returns (tokens: seq<Kind>)
    ensures tokens == ArgTokens(args, strtod, false)
  {
    tokens := [];
    var passthrough := false;
    assert args[0..] == args;
    for i := 0 to |args|
      invariant ArgTokens(args, strtod, false) == tokens + ArgTokens(args[i..], strtod, passthrough)
    {
      var arg := args[i];
      ghost var before := tokens;
      ghost var k := if passthrough then Id(arg) else ArgToken(arg, strtod);
      assert args[i..][1..] == args[i + 1..];
      if passthrough {
        tokens := tokens + [Id(arg)];
      } else if arg == [MINUS, MINUS] {
        tokens := tokens + [DoubleMinus];
        passthrough := true;
      } else if |arg| > 2 && arg[0] == MINUS && arg[1] == MINUS {
        tokens := tokens + [FlagLong(arg[2..])];
      } else if |arg| > 1 && arg[0] == MINUS {
        tokens := tokens + [FlagShort(arg[1..])];
      } else if |arg| >= 2 && ((arg[0] == QUOTE && arg[|arg| - 1] == QUOTE) ||
                               (arg[0] == APOSTROPHE && arg[|arg| - 1] == APOSTROPHE)) {
        tokens := tokens + [StrLit(arg[1..|arg| - 1])];
      } else {
        var toks := LexAll(arg, strtod);
        if toks.Ok? && |toks.value| == 2 && toks.value[1].kind.Eof? && IsLiteral(toks.value[0].kind) {
          tokens := tokens + [toks.value[0].kind];
        } else {
          tokens := tokens + [Id(arg)];
        }
      }
      AppendAssoc(before, [k], ArgTokens(args[i + 1..], strtod, passthrough));
    }
    assert args[|args|..] == [];
  }

  /** The arguments behind the first `--`. */
  function BehindDelimiter(args: seq<Text>): seq<Text> {
    if args == [] then []
    else if args[0] == [MINUS, MINUS] then args[1..]
    else BehindDelimiter(args[1..])
  }

  lemma {:induction false} PassedArePlain(args: seq<Text>, strtod: Strtod)
    ensures AllPrinted(ArgTokens(args, strtod, true)) == args
  {
    if args != [] {
      PassedArePlain(args[1..], strtod);
      var toks := ArgTokens(args, strtod, true);
      assert toks[1..] == ArgTokens(args[1..], strtod, true);
      assert args == [args[0]] + args[1..];
    }
  }

  lemma {:induction false} DelimiterOfArguments(args: seq<Text>, strtod: Strtod)
    ensures var toks := ArgTokens(args, strtod, false);
            BehindDelimiter(args) == Behind(toks, 0)
  {
    if args != [] {
      var toks := ArgTokens(args, strtod, false);
      if args[0] == [MINUS, MINUS] {
        PassedArePlain(args[1..], strtod);
        assert toks[1..] == ArgTokens(args[1..], strtod, true);
      } else {
        DelimiterOfArguments(args[1..], strtod);
        var rest := ArgTokens(args[1..], strtod, false);
        assert toks[1..] == rest;
        DelimiterShift(toks, rest, 0);
        var d := DelimiterAt(rest, 0);
        if d < |rest| {
          assert toks[d + 2..] == rest[d + 1..];
        }
      }
    }
  }

  lemma {:induction false} DelimiterShift(toks: seq<Kind>, rest: seq<Kind>, i: nat)
    requires toks != [] && toks[1..] == rest && i <= |rest|
    ensures DelimiterAt(toks, i + 1) == DelimiterAt(rest, i) + 1
    decreases |rest| - i
  {
    if i < |rest| && !rest[i].DoubleMinus? {
      assert toks[i + 1] == rest[i];
      DelimiterShift(toks, rest, i + 1);
    } else if i < |rest| {
      assert toks[i + 1] == rest[i];
    }
  }

  lemma {:induction false} SuccessPasses(cmd: Command, toks: seq<Kind>)
    requires NoPositionalFlags(cmd)
    ensures var r := Parse(cmd, toks, 0, []);
            r.status == Success ==> r.st.passthrough == Behind(toks, 0) && r.st.i == |toks|
  {
    ParseAccounts(cmd, toks, 0, []);
    ParseIsSound(cmd, toks, 0, []);
  }

  /** On success the arguments behind the first `--` are passed through, verbatim and in order. */
  lemma {:induction false} PassthroughVerbatim(cmd: Command, args: seq<Text>, strtod: Strtod)
    requires NoPositionalFlags(cmd)
    ensures var r := Parse(cmd, ArgTokens(args, strtod, false), 0, []);
            r.status == Success ==> r.st.passthrough == BehindDelimiter(args) && r.st.i == |args|
  {
    var toks := ArgTokens(args, strtod, false);
    SuccessPasses(cmd, toks);
    DelimiterOfArguments(args, strtod);
  }
}
