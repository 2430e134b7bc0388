/**
  * The command-line parser of native/c/parser.hpp: trees of commands, the state machine that
  * Command::parse runs over a list of tokens, and the loops that implement it.
  */
module CommandParser {
  import opened Common
  import opened Lexer

  datatype ArgType = Flag | Single | Multiple

  datatype ArgValue =
    | VNone
    | VBool(b: bool)
    | VInt(i: int)
    | VFloat(number: Text)
    | VStr(s: Text)
    | VStrs(ss: seq<Text>)

  datatype ArgumentDef = ArgumentDef(
    name: Text, aliases: seq<Text>, ty: ArgType, positional: bool, required: bool, coerce: bool,
    default: ArgValue, isHelp: bool, conflicts: seq<Text>)

  datatype Command = Command(
    name: Text, aliases: seq<Text>, args: seq<ArgumentDef>, subs: seq<Command>, handler: bool,
    dynamicKeywords: Option<ArgType>, allowPassthrough: bool)

  datatype Failure =
    | UnexpectedDelimiter
    | UnknownCombined(c: byte)
    | CombinedNeedsValue(c: byte)
    | UnknownOption(name: Text)
    | NeedsValue(name: Text)
    | InvalidValue(name: Text)
    | AmbiguousAlias(name: Text)
    | UnknownCommand(name: Text)
    | InvalidPositional(name: Text)
    | UnexpectedArgument(k: Kind)
    | MissingOption(name: Text)
    | MissingPositional(name: Text)
    | Conflicting(pairs: set<set<Text>>)
    | InternalError

  datatype Status = Success | HelpRequested | ParseError(failure: Failure)

  /** What one call of Command::parse has gathered: `i` tokens are consumed, `pos` positionals filled. */
  datatype State = State(i: nat, values: map<Text, ArgValue>, dynamics: map<Text, ArgValue>,
                         seen: set<Text>, pos: nat, passthrough: seq<Text>)

  /** What a handler is called with. */
  datatype Invocation = Invocation(path: Text, args: map<Text, ArgValue>, passthrough: seq<Text>)

  /** `command` is the one whose parse ended, `start` where its own tokens began. */
  datatype Outcome = Outcome(status: Status, command: Command, start: nat, st: State, ran: Option<Invocation>)

  datatype Next =
    | Continue(st: State)
    | Leave(st: State)
    | Stop(status: Status, st: State)
    | Descend(sub: Command, st: State)

  // ---------- single tokens ----------

  predicate IsFlag(k: Kind) { k.FlagShort? || k.FlagLong? }

  function TokenValue(k: Kind, ty: ArgType, coerce: bool): ArgValue {
    var expectString := ty != Flag;
    var preferString := ty == Multiple || coerce;
    if ty == Flag && k.Id? then VBool(k.text == TRUE_WORD)
    else if ty == Flag && k.StrLit? then VBool(LiteralValue(k.raw) == TRUE_WORD)
    else
      match k
      case IntLit(v, _) => if !expectString then VNone else if preferString then VStr(Printed(k)) else VInt(v)
      case FloatLit(n, _, _) => if !expectString then VNone else if preferString then VStr(Printed(k)) else VFloat(n)
      case True => if expectString then VStr(TRUE_WORD) else VBool(true)
      case False => if expectString then VStr(FALSE_WORD) else VBool(false)
      case StrLit(raw) => if expectString then VStr(LiteralValue(raw)) else VNone
      case Id(text) => if expectString then VStr(text) else VNone
      case Times => if expectString then VStr([STAR]) else VNone
      case _ => VNone
  }

  /** The end of the run of tokens from `i` that can be values of a multiple argument. */
  function StringsEnd(toks: seq<Kind>, i: nat): (j: nat)
    requires i <= |toks|
    ensures i <= j <= |toks|
    ensures forall k :: i <= k < j ==> !IsFlag(toks[k]) && TokenValue(toks[k], Multiple, false).VStr?
    decreases |toks| - i
  {
    if i < |toks| && !IsFlag(toks[i]) && TokenValue(toks[i], Multiple, false).VStr? then StringsEnd(toks, i + 1) else i
  }

  function StringsOf(toks: seq<Kind>): (ss: seq<Text>)
    requires forall k :: k in toks ==> TokenValue(k, Multiple, false).VStr?
    ensures |ss| == |toks|
  {
    if toks == [] then [] else [TokenValue(toks[0], Multiple, false).s] + StringsOf(toks[1..])
  }

  function AllPrinted(toks: seq<Kind>): (ss: seq<Text>)
    ensures |ss| == |toks|
  {
    if toks == [] then [] else [Printed(toks[0])] + AllPrinted(toks[1..])
  }

  // ---------- looking up names ----------

  predicate AliasMatches(alias: Text, name: Text, short: bool) {
    if short then |alias| == 2 && alias == [MINUS] + name else |alias| > 2 && alias == [MINUS, MINUS] + name
  }

  predicate Matches(a: ArgumentDef, name: Text, short: bool) {
    !a.positional && (a.name == name || exists alias :: alias in a.aliases && AliasMatches(alias, name, short))
  }

  /** find_keyword_arg: the first argument the flag names. */
  function FindKeyword(args: seq<ArgumentDef>, name: Text, short: bool): (r: Option<ArgumentDef>)
    ensures r.Some? ==> r.value in args && Matches(r.value, name, short)
    ensures r.None? ==> forall a :: a in args ==> !Matches(a, name, short)
  {
    if args == [] then None
    else if Matches(args[0], name, short) then Some(args[0])
    else FindKeyword(args[1..], name, short)
  }

  datatype Lookup = Nothing | Found(sub: Command) | Ambiguous

  function FindByName(subs: seq<Command>, name: Text): (r: Option<Command>)
    ensures r.Some? ==> r.value in subs && r.value.name == name
    ensures r.None? ==> forall c :: c in subs ==> c.name != name
  {
    if subs == [] then None else if subs[0].name == name then Some(subs[0]) else FindByName(subs[1..], name)
  }

  /** Goes on from what the subcommands before `subs` gave. */
  function FindByAlias(subs: seq<Command>, name: Text, before: Lookup): (r: Lookup)
    ensures r.Found? ==> r.sub in subs || r == before
  {
    if subs == [] || before == Ambiguous then before
    else if name in subs[0].aliases then
      FindByAlias(subs[1..], name, if before == Nothing then Found(subs[0]) else Ambiguous)
    else FindByAlias(subs[1..], name, before)
  }

  function FindSub(subs: seq<Command>, name: Text): (r: Lookup)
    ensures r.Found? ==> r.sub in subs
  {
    var direct := FindByName(subs, name);
    if direct.Some? then Found(direct.value) else FindByAlias(subs, name, Nothing)
  }

  function Positionals(args: seq<ArgumentDef>): seq<ArgumentDef> {
    if args == [] then []
    else (if args[0].positional && !args[0].isHelp then [args[0]] else []) + Positionals(args[1..])
  }

  // ---------- one turn of the main loop ----------

  function Combined(cmd: Command, name: Text, st: State): Next
    decreases |name|
  {
    if name == [] then Continue(st)
    else
      var a := FindKeyword(cmd.args, [name[0]], true);
      if a.None? then Stop(ParseError(UnknownCombined(name[0])), st)
      else if a.value.isHelp then Stop(HelpRequested, st)
      else if a.value.ty != Flag then Stop(ParseError(CombinedNeedsValue(name[0])), st)
      else Combined(cmd, name[1..],
                    st.(seen := st.seen + {a.value.name}, values := st.values[a.value.name := VBool(true)]))
  }

  predicate NoValueAt(toks: seq<Kind>, i: nat) { i >= |toks| || IsFlag(toks[i]) }

  /** An undeclared long option, its flag consumed. */
  function Dynamic(ty: ArgType, toks: seq<Kind>, name: Text, st: State): (n: Next)
    requires st.i <= |toks|
    ensures (n.Continue? || n.Stop?) && st.i <= n.st.i <= |toks|
  {
    if ty == Flag then Stop(ParseError(InternalError), st)
    else if NoValueAt(toks, st.i) then Stop(ParseError(NeedsValue(name)), st)
    else if ty == Single then
      var v := TokenValue(toks[st.i], Single, false);
      if v == VNone then Stop(ParseError(InvalidValue(name)), st)
      else Continue(st.(i := st.i + 1, dynamics := st.dynamics[name := v]))
    else
      var j := StringsEnd(toks, st.i);
      if j == st.i then Stop(ParseError(InvalidValue(name)), st)
      else Continue(st.(i := j, dynamics := st.dynamics[name := VStrs(StringsOf(toks[st.i..j]))]))
  }

  function FlagValue(a: ArgumentDef, toks: seq<Kind>, st: State): (r: State)
    requires st.i <= |toks|
    ensures st.i <= r.i <= |toks|
  {
    if NoValueAt(toks, st.i) || TokenValue(toks[st.i], Flag, false) == VNone
    then st.(values := st.values[a.name := VBool(true)])
    else st.(i := st.i + 1, values := st.values[a.name := TokenValue(toks[st.i], Flag, false)])
  }

  function GivenSoFar(values: map<Text, ArgValue>, name: Text): seq<Text> {
    if name in values && values[name].VStrs? then values[name].ss else []
  }

  /** A declared option, its flag consumed and marked as seen. */
  function OptionValue(a: ArgumentDef, toks: seq<Kind>, st: State): (n: Next)
    requires st.i <= |toks|
    ensures (n.Continue? || n.Stop?) && st.i <= n.st.i <= |toks|
  {
    if a.ty == Flag then Continue(FlagValue(a, toks, st))
    else if NoValueAt(toks, st.i) then Stop(ParseError(NeedsValue(a.name)), st)
    else
      var v := TokenValue(toks[st.i], a.ty, a.coerce);
      if v == VNone then Stop(ParseError(InvalidValue(a.name)), st)
      else if a.ty == Single then Continue(st.(i := st.i + 1, values := st.values[a.name := v]))
      else if !v.VStr? then Stop(ParseError(InternalError), st)
      else
        var j := StringsEnd(toks, st.i + 1);
        var all := GivenSoFar(st.values, a.name) + [v.s] + StringsOf(toks[st.i + 1..j]);
        Continue(st.(i := j, values := st.values[a.name := VStrs(all)]))
  }

  function KeywordStep(cmd: Command, toks: seq<Kind>, name: Text, short: bool, st: State): (n: Next)
    requires st.i < |toks|
    ensures (n.Continue? || n.Stop?) && st.i <= n.st.i <= |toks|
    ensures n.Continue? ==> st.i < n.st.i
  {
    var a := FindKeyword(cmd.args, name, short);
    if a.None? then
      if !short && cmd.dynamicKeywords.Some? then Dynamic(cmd.dynamicKeywords.value, toks, name, st.(i := st.i + 1))
      else Stop(ParseError(UnknownOption(name)), st)
    else if a.value.isHelp then Stop(HelpRequested, st)
    else OptionValue(a.value, toks, st.(i := st.i + 1, seen := st.seen + {a.value.name}))
  }

  function PositionalStep(cmd: Command, toks: seq<Kind>, st: State): (n: Next)
    requires st.i < |toks|
    ensures (n.Continue? || n.Stop?) && st.i <= n.st.i <= |toks|
    ensures n.Continue? ==> st.pos < |Positionals(cmd.args)|
    ensures n.Continue? && Positionals(cmd.args)[st.pos].ty != Flag ==> st.i < n.st.i
  {
    var ps := Positionals(cmd.args);
    if st.pos >= |ps| then Stop(ParseError(UnexpectedArgument(toks[st.i])), st)
    else
      var p := ps[st.pos];
      var v := TokenValue(toks[st.i], p.ty, p.coerce);
      if v == VNone then Stop(ParseError(InvalidPositional(p.name)), st)
      else if p.ty == Flag then Continue(st)
      else if p.ty == Single then Continue(st.(i := st.i + 1, pos := st.pos + 1, values := st.values[p.name := v]))
      else if !v.VStr? then Stop(ParseError(InternalError), st)
      else
        var j := StringsEnd(toks, st.i + 1);
        Continue(st.(i := j, pos := st.pos + 1,
                     values := st.values[p.name := VStrs([v.s] + StringsOf(toks[st.i + 1..j]))]))
  }

  function WordStep(cmd: Command, toks: seq<Kind>, word: Text, st: State): Next
    requires st.i < |toks|
  {
    match FindSub(cmd.subs, word)
    case Ambiguous => Stop(ParseError(AmbiguousAlias(word)), st)
    case Found(sub) => Descend(sub, st.(i := st.i + 1))
    case Nothing =>
      if cmd.subs != [] && st.pos == 0 && !cmd.handler then Stop(ParseError(UnknownCommand(word)), st)
      else PositionalStep(cmd, toks, st)
  }

  function Step(cmd: Command, toks: seq<Kind>, st: State): Next
    requires st.i < |toks|
  {
    match toks[st.i]
    case DoubleMinus =>
      if !cmd.allowPassthrough then Stop(ParseError(UnexpectedDelimiter), st)
      else Leave(st.(i := |toks|, passthrough := st.passthrough + AllPrinted(toks[st.i + 1..])))
    case FlagShort(name) =>
      if |name| > 1 then Combined(cmd, name, st.(i := st.i + 1)) else KeywordStep(cmd, toks, name, true, st)
    case FlagLong(name) => KeywordStep(cmd, toks, name, false, st)
    case Id(text) => WordStep(cmd, toks, text, st)
    case _ => PositionalStep(cmd, toks, st)
  }

  lemma {:induction false} FlagTurn(cmd: Command, toks: seq<Kind>, flag: Kind, st: State)
    requires IsFlag(flag) && (flag.FlagShort? ==> |flag.name| <= 1) && st.i < |toks| && toks[st.i] == flag
    ensures Step(cmd, toks, st) == KeywordStep(cmd, toks, flag.name, flag.FlagShort?, st)
  {
  }

  lemma {:induction false} CombinedTurn(cmd: Command, toks: seq<Kind>, name: Text, st: State)
    requires st.i < |toks| && toks[st.i] == FlagShort(name) && |name| > 1
    ensures Step(cmd, toks, st) == Combined(cmd, name, st.(i := st.i + 1))
  {
  }

  // ---------- the checks behind the loop ----------

  function FirstMissing(args: seq<ArgumentDef>, seen: set<Text>): (r: Option<ArgumentDef>)
    ensures r.None? <==> forall a :: a in args && !a.positional && !a.isHelp && a.required ==> a.name in seen
    ensures r.Some? ==> r.value in args
  {
    if args == [] then None
    else
      var a := args[0];
      if !a.positional && !a.isHelp && a.required && a.name !in seen then Some(a) else FirstMissing(args[1..], seen)
  }

  /** Optional positionals not given get their defaults; a required one is missing. */
  function FillPositionals(ps: seq<ArgumentDef>, values: map<Text, ArgValue>): (r: (map<Text, ArgValue>, Option<ArgumentDef>))
    ensures r.1.None? <==> forall p :: p in ps ==> !p.required
  {
    if ps == [] then (values, None)
    else if ps[0].required then (values, Some(ps[0]))
    else FillPositionals(ps[1..], values[ps[0].name := ps[0].default])
  }

  /** The pairs of seen arguments of which `a` declares a conflict. */
  function PairsOf(a: ArgumentDef, seen: set<Text>): set<set<Text>> {
    if a.name !in seen then {}
    else set c | c in a.conflicts && c in seen && c != a.name :: {a.name, c}
  }

  function ConflictPairs(args: seq<ArgumentDef>, seen: set<Text>): (r: set<set<Text>>)
    ensures r == {} <==> forall a :: a in args ==> PairsOf(a, seen) == {}
  {
    if args == [] then {} else PairsOf(args[0], seen) + ConflictPairs(args[1..], seen)
  }

  function Finish(cmd: Command, start: nat, st: State, prefix: Text): Outcome {
    var missing := FirstMissing(cmd.args, st.seen);
    if missing.Some? then Outcome(ParseError(MissingOption(missing.value.name)), cmd, start, st, None)
    else
      var ps := Positionals(cmd.args);
      var filled := FillPositionals(if st.pos <= |ps| then ps[st.pos..] else [], st.values);
      var done := st.(values := filled.0);
      if filled.1.Some? then Outcome(ParseError(MissingPositional(filled.1.value.name)), cmd, start, done, None)
      else
        var pairs := ConflictPairs(cmd.args, st.seen);
        if pairs != {} then Outcome(ParseError(Conflicting(pairs)), cmd, start, done, None)
        else if cmd.handler then
          Outcome(Success, cmd, start, done,
                  Some(Invocation(prefix + cmd.name, done.values + done.dynamics, done.passthrough)))
        else Outcome(if cmd.subs != [] then HelpRequested else Success, cmd, start, done, None)
  }

  // ---------- the whole parse ----------

  /** No positional argument is a flag, as add_positional_arg demands. */
  predicate NoPositionalFlags(cmd: Command) {
    && (forall a :: a in cmd.args && a.positional ==> a.ty != Flag)
    && (forall c :: c in cmd.subs ==> NoPositionalFlags(c))
  }

  function Defaults(args: seq<ArgumentDef>, values: map<Text, ArgValue>): map<Text, ArgValue> {
    if args == [] then values
    else Defaults(args[1..], if args[0].isHelp then values else values[args[0].name := args[0].default])
  }

  function Initial(cmd: Command, i: nat): State { State(i, Defaults(cmd.args, map[]), map[], {}, 0, []) }

  lemma {:induction false} PositionalsAre(args: seq<ArgumentDef>)
    ensures forall p :: p in Positionals(args) <==> p in args && p.positional && !p.isHelp
  {
    if args != [] {
      PositionalsAre(args[1..]);
      assert forall p :: p in args <==> p == args[0] || p in args[1..];
    }
  }

  lemma {:induction false} PositionalAdvances(cmd: Command, toks: seq<Kind>, st: State)
    requires st.i < |toks| && NoPositionalFlags(cmd)
    ensures var n := PositionalStep(cmd, toks, st);
            (n.Continue? || n.Stop?) && st.i <= n.st.i <= |toks| && (n.Continue? ==> st.i < n.st.i)
  {
    PositionalsAre(cmd.args);
    var ps := Positionals(cmd.args);
    assert st.pos < |ps| ==> ps[st.pos] in ps;
  }

  /** A turn that goes on has consumed a token: without positional flags parsing comes to an end. */
  lemma {:induction false} StepAdvances(cmd: Command, toks: seq<Kind>, st: State)
    requires st.i < |toks| && NoPositionalFlags(cmd)
    ensures var n := Step(cmd, toks, st); st.i <= n.st.i <= |toks| && (!n.Stop? ==> st.i < n.st.i)
    ensures Step(cmd, toks, st).Descend? ==> Step(cmd, toks, st).sub in cmd.subs
  {
    match toks[st.i]
    case DoubleMinus =>
    case FlagShort(name) => CombinedKeepsPlace(cmd, name, st.(i := st.i + 1));
    case FlagLong(_) =>
    case Id(text) => PositionalAdvances(cmd, toks, st);
    case _ => PositionalAdvances(cmd, toks, st);
  }

  lemma {:induction false} CombinedKeepsPlace(cmd: Command, name: Text, st: State)
    ensures var n := Combined(cmd, name, st);
            (n.Continue? || n.Stop?) && n.st.i == st.i && n.st.pos == st.pos && n.st.passthrough == st.passthrough &&
            n.st.dynamics == st.dynamics
    decreases |name|
  {
    if name != [] {
      var a := FindKeyword(cmd.args, [name[0]], true);
      if a.Some? && !a.value.isHelp && a.value.ty == Flag {
        CombinedKeepsPlace(cmd, name[1..],
                           st.(seen := st.seen + {a.value.name}, values := st.values[a.value.name := VBool(true)]));
      }
    }
  }

  function ParseFrom(cmd: Command, toks: seq<Kind>, start: nat, st: State, prefix: Text): Outcome
    requires st.i <= |toks| && NoPositionalFlags(cmd)
    decreases |toks| - st.i, 0
  {
    if st.i == |toks| then Finish(cmd, start, st, prefix)
    else
      StepAdvances(cmd, toks, st);
      match Step(cmd, toks, st)
      case Continue(next) => ParseFrom(cmd, toks, start, next, prefix)
      case Leave(last) => Finish(cmd, start, last, prefix)
      case Stop(status, last) => Outcome(status, cmd, start, last, None)
      case Descend(sub, next) => Parse(sub, toks, next.i, prefix + cmd.name + [BLANK])
  }

  /** Command::parse. */
  function Parse(cmd: Command, toks: seq<Kind>, i: nat, prefix: Text): Outcome
    requires i <= |toks| && NoPositionalFlags(cmd)
    decreases |toks| - i, 1
  {
    ParseFrom(cmd, toks, i, Initial(cmd, i), prefix)
  }

  /** Neither flag nor delimiter, and no subcommand nor what would have to be one. */
  predicate ReachesPositional(cmd: Command, k: Kind, st: State) {
    && !IsFlag(k) && !k.DoubleMinus?
    && (k.Id? ==> FindSub(cmd.subs, k.text) == Nothing && (cmd.subs == [] || st.pos > 0 || cmd.handler))
  }

  /** The next positional is a flag, and the token can be its value. */
  predicate FlagIsNext(cmd: Command, k: Kind, st: State) {
    && st.pos < |Positionals(cmd.args)| && Positionals(cmd.args)[st.pos].ty == Flag
    && TokenValue(k, Flag, Positionals(cmd.args)[st.pos].coerce) != VNone
  }

  lemma {:induction false} PositionalStands(cmd: Command, toks: seq<Kind>, st: State)
    requires st.i < |toks|
    ensures var n := PositionalStep(cmd, toks, st);
            && (n.Continue? && n.st.i == st.i <==> FlagIsNext(cmd, toks[st.i], st))
            && (FlagIsNext(cmd, toks[st.i], st) ==> n == Continue(st))
  {
  }

  /**
    * When the main loop stands still, for any command: exactly when a token reaches a positional of
    * type Flag, which only register_argument lets through, and can be its value. The state is then
    * the same as before, so the loop never ends.
    */
  lemma {:induction false} StandsStillExactly(cmd: Command, toks: seq<Kind>, st: State)
    requires st.i < |toks|
    ensures var n, stuck := Step(cmd, toks, st), ReachesPositional(cmd, toks[st.i], st) && FlagIsNext(cmd, toks[st.i], st);
            && (n.Continue? && n.st.i == st.i <==> stuck)
            && (stuck ==> n == Continue(st))
  {
    match toks[st.i]
    case DoubleMinus =>
    case FlagShort(name) => CombinedKeepsPlace(cmd, name, st.(i := st.i + 1));
    case FlagLong(_) =>
    case Id(_) => PositionalStands(cmd, toks, st);
    case _ => PositionalStands(cmd, toks, st);
  }

  /** The first `n` turns of the loop, `None` once it has ended. */
  function Turns(cmd: Command, toks: seq<Kind>, st: State, n: nat): Option<State>
    decreases n
  {
    if n == 0 then Some(st)
    else if st.i >= |toks| || !Step(cmd, toks, st).Continue? then None
    else Turns(cmd, toks, Step(cmd, toks, st).st, n - 1)
  }

  /** A command with one positional flag, given `true`, is never done. */
  lemma {:induction false} FlagPositionalNeverEnds(name: Text, n: nat)
    ensures var flag := ArgumentDef(name, [], Flag, true, true, false, VNone, false, []);
            var cmd := Command(name, [], [flag], [], true, None, false);
            var st := Initial(cmd, 0);
            Turns(cmd, [True], st, n) == Some(st)
  {
    var flag := ArgumentDef(name, [], Flag, true, true, false, VNone, false, []);
    var cmd := Command(name, [], [flag], [], true, None, false);
    var st := Initial(cmd, 0);
    assert Positionals(cmd.args) == [flag] + Positionals([flag][1..]);
    StandsStillExactly(cmd, [True], st);
    if n > 0 {
      FlagPositionalNeverEnds(name, n - 1);
    }
  }

  // ---------- the loops ----------

  /** The loop over the aliases of one argument. */
  method HasAlias(a: ArgumentDef, name: Text, short: bool) returns (found: bool)
    ensures found <==> exists alias :: alias in a.aliases && AliasMatches(alias, name, short)
  {
    for j := 0 to |a.aliases|
      invariant forall k :: 0 <= k < j ==> !AliasMatches(a.aliases[k], name, short)
    {
      var alias := a.aliases[j];
      if short {
        if |alias| == 2 && alias[0] == MINUS && alias[1..] == name {
          assert alias == [MINUS] + name && AliasMatches(alias, name, short);
          return true;
        }
      } else if |alias| > 2 && alias[..2] == [MINUS, MINUS] && alias[2..] == name {
        assert alias == alias[..2] + alias[2..];
        assert AliasMatches(alias, name, short);
        return true;
      }
    }
    return false;
  }

  method FindKeywordArg(args: seq<ArgumentDef>, name: Text, short: bool) returns (r: Option<ArgumentDef>)
    ensures r == FindKeyword(args, name, short)
  {
    assert args[0..] == args;
    for i := 0 to |args|
      invariant FindKeyword(args, name, short) == FindKeyword(args[i..], name, short)
    {
      var a := args[i];
      assert args[i..][1..] == args[i + 1..];
      if a.positional {
        continue;
      }
      if a.name == name {
        return Some(a);
      }
      var aliased := HasAlias(a, name, short);
      if aliased {
        return Some(a);
      }
    }
    return None;
  }

  method FindSubcommand(subs: seq<Command>, name: Text) returns (r: Lookup)
    ensures r == FindSub(subs, name)
  {
    assert subs[0..] == subs;
    for i := 0 to |subs|
      invariant FindByName(subs, name) == FindByName(subs[i..], name)
    {
      if subs[i].name == name {
        return Found(subs[i]);
      }
    }
    r := Nothing;
    for i := 0 to |subs|
      invariant r != Ambiguous && FindByAlias(subs, name, Nothing) == FindByAlias(subs[i..], name, r)
    {
      if name in subs[i].aliases {
        if r != Nothing {
          return Ambiguous;
        }
        r := Found(subs[i]);
      }
    }
  }

  lemma {:induction false} StringsOfSnoc(toks: seq<Kind>, k: Kind)
    requires forall t :: t in toks + [k] ==> TokenValue(t, Multiple, false).VStr?
    ensures StringsOf(toks + [k]) == StringsOf(toks) + [TokenValue(k, Multiple, false).s]
  {
    if toks == [] {
      assert toks + [k] == [k];
    } else {
      assert (toks + [k])[1..] == toks[1..] + [k];
      StringsOfSnoc(toks[1..], k);
    }
  }

  /** The loops over the values of a multiple argument. */
  method CollectStrings(toks: seq<Kind>, i: nat) returns (ss: seq<Text>, j: nat)
    requires i <= |toks|
    ensures j == StringsEnd(toks, i) && ss == StringsOf(toks[i..j])
  {
    ss, j := [], i;
    while j < |toks| && !IsFlag(toks[j])
      invariant i <= j <= |toks| && StringsEnd(toks, i) == StringsEnd(toks, j)
      invariant forall k :: k in toks[i..j] ==> TokenValue(k, Multiple, false).VStr?
      invariant ss == StringsOf(toks[i..j])
    {
      var v := TokenValue(toks[j], Multiple, false);
      if !v.VStr? {
        break;
      }
      assert toks[i..j + 1] == toks[i..j] + [toks[j]];
      StringsOfSnoc(toks[i..j], toks[j]);
      ss, j := ss + [v.s], j + 1;
    }
  }

  method CollectPassthrough(toks: seq<Kind>, i: nat) returns (ss: seq<Text>)
    requires i <= |toks|
    ensures ss == AllPrinted(toks[i..])
  {
    ss := [];
    for j := i to |toks|
      invariant AllPrinted(toks[i..]) == ss + AllPrinted(toks[j..])
    {
      assert toks[j..][1..] == toks[j + 1..];
      AppendAssoc(ss, [Printed(toks[j])], AllPrinted(toks[j + 1..]));
      ss := ss + [Printed(toks[j])];
    }
  }

  /** A group of one-letter flags behind one dash. */
  method CombinedFlags(cmd: Command, name: Text, before: State) returns (n: Next)
    ensures n == Combined(cmd, name, before)
  {
    var st := before;
    assert name[0..] == name;
    for i := 0 to |name|
      invariant Combined(cmd, name, before) == Combined(cmd, name[i..], st)
    {
      assert name[i..][1..] == name[i + 1..];
      var a := FindKeywordArg(cmd.args, [name[i]], true);
      if a.None? {
        return Stop(ParseError(UnknownCombined(name[i])), st);
      }
      if a.value.isHelp {
        return Stop(HelpRequested, st);
      }
      if a.value.ty != Flag {
        return Stop(ParseError(CombinedNeedsValue(name[i])), st);
      }
      st := st.(seen := st.seen + {a.value.name}, values := st.values[a.value.name := VBool(true)]);
    }
    return Continue(st);
  }

  method TakeDynamic(ty: ArgType, toks: seq<Kind>, name: Text, st: State) returns (n: Next)
    requires st.i <= |toks|
    ensures n == Dynamic(ty, toks, name, st)
  {
    if ty == Single {
      if NoValueAt(toks, st.i) {
        return Stop(ParseError(NeedsValue(name)), st);
      }
      var v := TokenValue(toks[st.i], Single, false);
      if v == VNone {
        return Stop(ParseError(InvalidValue(name)), st);
      }
      return Continue(st.(i := st.i + 1, dynamics := st.dynamics[name := v]));
    }
    if ty == Multiple {
      if NoValueAt(toks, st.i) {
        return Stop(ParseError(NeedsValue(name)), st);
      }
      var ss, j := CollectStrings(toks, st.i);
      if |ss| == 0 {
        return Stop(ParseError(InvalidValue(name)), st);
      }
      return Continue(st.(i := j, dynamics := st.dynamics[name := VStrs(ss)]));
    }
    return Stop(ParseError(InternalError), st);
  }

  method TakeOption(a: ArgumentDef, toks: seq<Kind>, st: State) returns (n: Next)
    requires st.i <= |toks|
    ensures n == OptionValue(a, toks, st)
  {
    if a.ty == Flag {
      var i, v := st.i, VBool(true);
      if i < |toks| && !IsFlag(toks[i]) {
        var given := TokenValue(toks[i], Flag, false);
        if given != VNone {
          i, v := i + 1, given;
        }
      }
      return Continue(st.(i := i, values := st.values[a.name := v]));
    }
    if NoValueAt(toks, st.i) {
      return Stop(ParseError(NeedsValue(a.name)), st);
    }
    var v := TokenValue(toks[st.i], a.ty, a.coerce);
    if v == VNone {
      return Stop(ParseError(InvalidValue(a.name)), st);
    }
    if a.ty == Single {
      return Continue(st.(i := st.i + 1, values := st.values[a.name := v]));
    }
    if !v.VStr? {
      return Stop(ParseError(InternalError), st);
    }
    var all: seq<Text> := [];
    if a.name in st.values && st.values[a.name].VStrs? {
      all := st.values[a.name].ss;
    }
    var more, j := CollectStrings(toks, st.i + 1);
    return Continue(st.(i := j, values := st.values[a.name := VStrs(all + [v.s] + more)]));
  }

  method TakePositional(cmd: Command, toks: seq<Kind>, st: State) returns (n: Next)
    requires st.i < |toks|
    ensures n == PositionalStep(cmd, toks, st)
  {
    var ps := Positionals(cmd.args);
    if st.pos >= |ps| {
      return Stop(ParseError(UnexpectedArgument(toks[st.i])), st);
    }
    var p := ps[st.pos];
    var v := TokenValue(toks[st.i], p.ty, p.coerce);
    if v == VNone {
      return Stop(ParseError(InvalidPositional(p.name)), st);
    }
    if p.ty == Single {
      return Continue(st.(i := st.i + 1, pos := st.pos + 1, values := st.values[p.name := v]));
    } else if p.ty == Multiple {
      if !v.VStr? {
        return Stop(ParseError(InternalError), st);
      }
      var more, j := CollectStrings(toks, st.i + 1);
      return Continue(st.(i := j, pos := st.pos + 1, values := st.values[p.name := VStrs([v.s] + more)]));
    }
    return Continue(st);
  }

  method TakeFlag(cmd: Command, toks: seq<Kind>, name: Text, short: bool, st: State) returns (n: Next)
    requires st.i < |toks|
    ensures n == KeywordStep(cmd, toks, name, short, st)
  {
    var a := FindKeywordArg(cmd.args, name, short);
    if a.None? {
      if !short && cmd.dynamicKeywords.Some? {
        n := TakeDynamic(cmd.dynamicKeywords.value, toks, name, st.(i := st.i + 1));
        return;
      }
      return Stop(ParseError(UnknownOption(name)), st);
    }
    if a.value.isHelp {
      return Stop(HelpRequested, st);
    }
    n := TakeOption(a.value, toks, st.(i := st.i + 1, seen := st.seen + {a.value.name}));
  }

  method TakeToken(cmd: Command, toks: seq<Kind>, st: State) returns (n: Next)
    requires st.i < |toks|
    ensures n == Step(cmd, toks, st)
  {
    var k := toks[st.i];
    if k.DoubleMinus? {
      if !cmd.allowPassthrough {
        return Stop(ParseError(UnexpectedDelimiter), st);
      }
      var rest := CollectPassthrough(toks, st.i + 1);
      return Leave(st.(i := |toks|, passthrough := st.passthrough + rest));
    }
    if k.FlagShort? && |k.name| > 1 {
      n := CombinedFlags(cmd, k.name, st.(i := st.i + 1));
      return;
    }
    if IsFlag(k) {
      n := TakeFlag(cmd, toks, k.name, k.FlagShort?, st);
      return;
    }
    if k.Id? {
      var sub := FindSubcommand(cmd.subs, k.text);
      if sub.Ambiguous? {
        return Stop(ParseError(AmbiguousAlias(k.text)), st);
      }
      if sub.Found? {
        return Descend(sub.sub, st.(i := st.i + 1));
      }
      if cmd.subs != [] && st.pos == 0 && !cmd.handler {
        return Stop(ParseError(UnknownCommand(k.text)), st);
      }
    }
    n := TakePositional(cmd, toks, st);
  }

  // ---------- the checks ----------

  method CheckRequired(args: seq<ArgumentDef>, seen: set<Text>) returns (r: Option<ArgumentDef>)
    ensures r == FirstMissing(args, seen)
  {
    assert args[0..] == args;
    for i := 0 to |args|
      invariant FirstMissing(args, seen) == FirstMissing(args[i..], seen)
    {
      var a := args[i];
      assert args[i..][1..] == args[i + 1..];
      if a.positional || a.isHelp {
        continue;
      }
      if a.required && a.name !in seen {
        return Some(a);
      }
    }
    return None;
  }

  method CheckPositionals(ps: seq<ArgumentDef>, from: nat, before: map<Text, ArgValue>)
    returns (values: map<Text, ArgValue>, missing: Option<ArgumentDef>)
    ensures (values, missing) == FillPositionals(if from <= |ps| then ps[from..] else [], before)
  {
    values := before;
    var i := from;
    while i < |ps|
      invariant from <= i
      invariant FillPositionals(if from <= |ps| then ps[from..] else [], before) ==
                FillPositionals(if i <= |ps| then ps[i..] else [], values)
    {
      assert ps[i..][1..] == ps[i + 1..];
      if ps[i].required {
        return values, Some(ps[i]);
      }
      values := values[ps[i].name := ps[i].default];
      i := i + 1;
    }
    return values, None;
  }

  method ConflictsOf(a: ArgumentDef, seen: set<Text>) returns (pairs: set<set<Text>>)
    ensures pairs == PairsOf(a, seen)
  {
    pairs := {};
    if a.name !in seen {
      return;
    }
    for j := 0 to |a.conflicts|
      invariant forall p :: p in pairs <==> exists k :: 0 <= k < j && PairAt(a, seen, k, p)
    {
      var c := a.conflicts[j];
      ghost var before := pairs;
      if c in seen && c != a.name {
        pairs := pairs + {{a.name, c}};
      }
      assert forall p :: p in pairs <==> p in before || PairAt(a, seen, j, p);
    }
    PairsOfAre(a, seen);
  }

  predicate PairAt(a: ArgumentDef, seen: set<Text>, k: nat, p: set<Text>)
    requires k < |a.conflicts|
  {
    a.conflicts[k] in seen && a.conflicts[k] != a.name && p == {a.name, a.conflicts[k]}
  }

  lemma {:induction false} PairsOfAre(a: ArgumentDef, seen: set<Text>)
    requires a.name in seen
    ensures forall p :: p in PairsOf(a, seen) <==> exists k :: 0 <= k < |a.conflicts| && PairAt(a, seen, k, p)
  {
    forall p | p in PairsOf(a, seen)
      ensures exists k :: 0 <= k < |a.conflicts| && PairAt(a, seen, k, p)
    {
      var c :| c in a.conflicts && c in seen && c != a.name && p == {a.name, c};
      var k :| 0 <= k < |a.conflicts| && a.conflicts[k] == c;
      assert PairAt(a, seen, k, p);
    }
  }

  method Conflicts(args: seq<ArgumentDef>, seen: set<Text>) returns (pairs: set<set<Text>>)
    ensures pairs == ConflictPairs(args, seen)
  {
    pairs := {};
    assert args[0..] == args;
    for i := 0 to |args|
      invariant ConflictPairs(args, seen) == pairs + ConflictPairs(args[i..], seen)
    {
      var more := ConflictsOf(args[i], seen);
      assert args[i..][1..] == args[i + 1..];
      pairs := pairs + more;
    }
  }

  /** What the parser leaves behind: the handlers it has called, in order. */
  class Session {
    var runs: seq<Invocation>

    constructor ()
      ensures runs == []
    {
      runs := [];
    }

    method FinishCommand(cmd: Command, start: nat, st: State, prefix: Text) returns (r: Outcome)
      modifies this
      ensures r == Finish(cmd, start, st, prefix)
      ensures runs == old(runs) + (if r.ran.Some? then [r.ran.value] else [])
    {
      var missing := CheckRequired(cmd.args, st.seen);
      if missing.Some? {
        return Outcome(ParseError(MissingOption(missing.value.name)), cmd, start, st, None);
      }
      var values, absent := CheckPositionals(Positionals(cmd.args), st.pos, st.values);
      var done := st.(values := values);
      if absent.Some? {
        return Outcome(ParseError(MissingPositional(absent.value.name)), cmd, start, done, None);
      }
      var pairs := Conflicts(cmd.args, st.seen);
      if pairs != {} {
        return Outcome(ParseError(Conflicting(pairs)), cmd, start, done, None);
      }
      if cmd.handler {
        var call := Invocation(prefix + cmd.name, values + st.dynamics, st.passthrough);
        runs := runs + [call];
        return Outcome(Success, cmd, start, done, Some(call));
      }
      return Outcome(if cmd.subs != [] then HelpRequested else Success, cmd, start, done, None);
    }

    /** Command::parse, the handler's call included. */
    method ParseCommand(cmd: Command, toks: seq<Kind>, i: nat, prefix: Text) returns (r: Outcome)
      requires i <= |toks| && NoPositionalFlags(cmd)
      modifies this
      ensures r == Parse(cmd, toks, i, prefix)
      ensures runs == old(runs) + (if r.ran.Some? then [r.ran.value] else [])
      decreases |toks| - i
    {
      var st := Initial(cmd, i);
      while st.i < |toks|
        invariant st.i <= |toks| && i <= st.i && runs == old(runs)
        invariant Parse(cmd, toks, i, prefix) == ParseFrom(cmd, toks, i, st, prefix)
        decreases |toks| - st.i
      {
        StepAdvances(cmd, toks, st);
        var n := TakeToken(cmd, toks, st);
        match n
        case Continue(next) => st := next;
        case Stop(status, last) => return Outcome(status, cmd, i, last, None);
        case Descend(sub, next) =>
          r := ParseCommand(sub, toks, next.i, prefix + cmd.name + [BLANK]);
          return;
        case Leave(last) =>
          r := FinishCommand(cmd, i, last, prefix);
          return;
      }
      r := FinishCommand(cmd, i, st, prefix);
    }
  }
}
