/** What the handler of a command is called with. */
module CommandHandlers {
  import opened Common
  import opened Lexer
  import opened CommandParser
  import opened CommandNames
  import opened CommandProofs
  import opened CommandValues
  import opened CommandRender
  import opened TokenRuns

  // ---------- every call ----------

  /** The arguments of a call: what is dynamic goes over what is declared, and nothing else is there. */
  predicate CalledWith(call: Invocation, st: State) {
    && call.args.Keys == st.values.Keys + st.dynamics.Keys
    && (forall n :: n in st.dynamics ==> call.args[n] == st.dynamics[n])
    && (forall n :: n in st.values && n !in st.dynamics ==> call.args[n] == st.values[n])
    && call.passthrough == st.passthrough
  }

  /**
    * `chain` leads from `root` to `command`: each of its commands is a subcommand of the one before,
    * entered by the word among the tokens that `at` gives the place of.
    */
  predicate Leads(root: Command, chain: seq<Command>, toks: seq<Kind>, at: seq<nat>, i: nat, command: Command, start: nat)
    decreases |at|
  {
    && |chain| == |at| + 1 && chain[0] == root
    && if at == [] then command == root && start == i
       else && i <= at[0] < |toks| && toks[at[0]].Id? && Enters(root.subs, toks[at[0]].text, chain[1])
            && Leads(chain[1], chain[1..], toks, at[1..], at[0] + 1, command, start)
  }

  /** The names of the commands, joined by blanks. */
  function PathOf(chain: seq<Command>): Text {
    if chain == [] then []
    else if |chain| == 1 then chain[0].name
    else chain[0].name + [0x40] + PathOf(chain[1..])
  }

  ghost predicate Reached(root: Command, toks: seq<Kind>, i: nat, prefix: Text, r: Outcome) {
    exists chain, at :: Leads(root, chain, toks, at, i, r.command, r.start) &&
                        (r.ran.Some? ==> r.ran.value.path == prefix + PathOf(chain))
  }

  lemma {:induction false} FinishCalls(cmd: Command, toks: seq<Kind>, start: nat, st: State, prefix: Text)
    ensures var r := Finish(cmd, start, st, prefix);
            (r.ran.Some? ==> CalledWith(r.ran.value, r.st)) && Reached(cmd, toks, start, prefix, r)
  {
    var r := Finish(cmd, start, st, prefix);
    assert Leads(cmd, [cmd], toks, [], start, r.command, r.start);
    assert PathOf([cmd]) == cmd.name;
  }

  lemma {:induction false} ReachedBelow(cmd: Command, sub: Command, toks: seq<Kind>, i: nat, at: nat, prefix: Text, r: Outcome)
    requires i <= at < |toks| && toks[at].Id? && Enters(cmd.subs, toks[at].text, sub)
    requires Reached(sub, toks, at + 1, prefix + cmd.name + [BLANK], r)
    ensures Reached(cmd, toks, i, prefix, r)
  {
    var chain, ats :| Leads(sub, chain, toks, ats, at + 1, r.command, r.start) &&
                      (r.ran.Some? ==> r.ran.value.path == prefix + cmd.name + [BLANK] + PathOf(chain));
    var longer := [cmd] + chain;
    assert longer[1..] == chain && ([at] + ats)[1..] == ats;
    assert Leads(cmd, longer, toks, [at] + ats, i, r.command, r.start);
    PathBelow(prefix, cmd, chain);
  }

  lemma {:induction false} PathBelow(prefix: Text, cmd: Command, chain: seq<Command>)
    requires chain != []
    ensures prefix + cmd.name + [BLANK] + PathOf(chain) == prefix + PathOf([cmd] + chain)
  {
    assert ([cmd] + chain)[1..] == chain;
    assert prefix + cmd.name + [BLANK] + PathOf(chain) == prefix + (cmd.name + [BLANK] + PathOf(chain));
  }

  lemma {:induction false} DescendsByWord(cmd: Command, toks: seq<Kind>, st: State)
    requires st.i < |toks| && Step(cmd, toks, st).Descend?
    ensures var n := Step(cmd, toks, st);
            toks[st.i].Id? && Enters(cmd.subs, toks[st.i].text, n.sub) && n.st.i == st.i + 1
  {
    StepTakesOneFlag(cmd, toks, st);
    WordEntersExactly(cmd.subs, toks[st.i].text, Step(cmd, toks, st).sub);
  }

  lemma {:induction false} ParseFromCalls(cmd: Command, toks: seq<Kind>, start: nat, st: State, prefix: Text)
    requires start <= st.i <= |toks| && NoPositionalFlags(cmd)
    ensures var r := ParseFrom(cmd, toks, start, st, prefix);
            (r.ran.Some? ==> CalledWith(r.ran.value, r.st)) && Reached(cmd, toks, start, prefix, r)
    decreases |toks| - st.i, 0
  {
    if st.i == |toks| {
      FinishCalls(cmd, toks, start, st, prefix);
    } else {
      StepAdvances(cmd, toks, st);
      match Step(cmd, toks, st)
      case Continue(next) => ParseFromCalls(cmd, toks, start, next, prefix);
      case Leave(last) => FinishCalls(cmd, toks, start, last, prefix);
      case Stop(status, last) => assert Leads(cmd, [cmd], toks, [], start, cmd, start);
      case Descend(sub, next) =>
        DescendsByWord(cmd, toks, st);
        HandlerIsCalledWith(sub, toks, next.i, prefix + cmd.name + [BLANK]);
        ReachedBelow(cmd, sub, toks, start, st.i, prefix, Parse(sub, toks, next.i, prefix + cmd.name + [BLANK]));
    }
  }

  /**
    * Every call of a handler: its arguments are the parsed values and the dynamic ones, which win,
    * what is passed through goes with them, and its path is that of the commands whose names or
    * aliases stand among the tokens, from the root down to its own.
    */
  lemma {:induction false} HandlerIsCalledWith(cmd: Command, toks: seq<Kind>, i: nat, prefix: Text)
    requires i <= |toks| && NoPositionalFlags(cmd)
    ensures var r := Parse(cmd, toks, i, prefix);
            && (r.ran.Some? ==> CalledWith(r.ran.value, r.st))
            && exists chain, at :: Leads(cmd, chain, toks, at, i, r.command, r.start) &&
                                   (r.ran.Some? ==> r.ran.value.path == prefix + PathOf(chain))
    decreases |toks| - i, 1
  {
    ParseFromCalls(cmd, toks, i, Initial(cmd, i), prefix);
    assert Reached(cmd, toks, i, prefix, Parse(cmd, toks, i, prefix));
  }

  // ---------- which names a handler finds ----------

  /** Values are kept for the declared arguments, dynamic ones under names that name none of them. */
  predicate KeysOk(cmd: Command, st: State) {
    && st.values.Keys == Declared(cmd.args)
    && forall n, a :: n in st.dynamics && a in cmd.args ==> !IsNamed(a, FlagLong(n))
  }

  lemma {:induction false} SetKeepsKeys(cmd: Command, st: State, a: ArgumentDef, next: State)
    requires KeysOk(cmd, st) && a in cmd.args && !a.isHelp && next.dynamics == st.dynamics
    requires a.name in next.values && next.values == st.values[a.name := next.values[a.name]]
    ensures KeysOk(cmd, next)
  {
    assert a.name in Declared(cmd.args);
  }

  lemma {:induction false} CombinedKeepsKeys(cmd: Command, name: Text, st: State)
    requires KeysOk(cmd, st) && Combined(cmd, name, st).Continue?
    ensures KeysOk(cmd, Combined(cmd, name, st).st)
    decreases |name|
  {
    if name != [] {
      var a := FindKeyword(cmd.args, [name[0]], true).value;
      var next := st.(seen := st.seen + {a.name}, values := st.values[a.name := VBool(true)]);
      SetKeepsKeys(cmd, st, a, next);
      CombinedKeepsKeys(cmd, name[1..], next);
    }
  }

  lemma {:induction false} KeywordKeepsKeys(cmd: Command, toks: seq<Kind>, flag: Kind, st: State)
    requires KeysOk(cmd, st) && st.i < |toks| && IsFlag(flag)
    requires KeywordStep(cmd, toks, flag.name, flag.FlagShort?, st).Continue?
    ensures KeysOk(cmd, KeywordStep(cmd, toks, flag.name, flag.FlagShort?, st).st)
  {
    var a, next := FindKeyword(cmd.args, flag.name, flag.FlagShort?), KeywordStep(cmd, toks, flag.name, flag.FlagShort?, st).st;
    if a.Some? {
      SetKeepsKeys(cmd, st, a.value, next);
    } else {
      FlagLeadsExactly(cmd.args, flag, ArgumentDef([], [], Flag, true, true, false, VNone, false, []));
      assert next.dynamics.Keys == st.dynamics.Keys + {flag.name};
    }
  }

  lemma {:induction false} PositionalKeepsKeys(cmd: Command, toks: seq<Kind>, st: State)
    requires KeysOk(cmd, st) && st.i < |toks| && NoPositionalFlags(cmd) && PositionalStep(cmd, toks, st).Continue?
    ensures KeysOk(cmd, PositionalStep(cmd, toks, st).st)
  {
    var p := Positionals(cmd.args)[st.pos];
    PositionalsAre(cmd.args);
    assert p in Positionals(cmd.args);
    SetKeepsKeys(cmd, st, p, PositionalStep(cmd, toks, st).st);
  }

  lemma {:induction false} StepKeepsKeys(cmd: Command, toks: seq<Kind>, st: State)
    requires KeysOk(cmd, st) && st.i < |toks| && NoPositionalFlags(cmd)
    ensures var n := Step(cmd, toks, st); n.Continue? || n.Leave? ==> KeysOk(cmd, n.st)
  {
    var n := Step(cmd, toks, st);
    if n.Continue? {
      match toks[st.i]
      case FlagShort(name) =>
        if |name| > 1 {
          CombinedKeepsKeys(cmd, name, st.(i := st.i + 1));
        } else {
          KeywordKeepsKeys(cmd, toks, toks[st.i], st);
        }
      case FlagLong(_) => KeywordKeepsKeys(cmd, toks, toks[st.i], st);
      case _ => PositionalKeepsKeys(cmd, toks, st);
    } else if n.Leave? {
      StepTakesOneFlag(cmd, toks, st);
    }
  }

  lemma {:induction false} DefaultKeys(args: seq<ArgumentDef>, values: map<Text, ArgValue>)
    ensures Defaults(args, values).Keys == values.Keys + Declared(args)
  {
    if args != [] {
      DefaultKeys(args[1..], if args[0].isHelp then values else values[args[0].name := args[0].default]);
      assert Declared(args) == Declared([args[0]]) + Declared(args[1..]) by {
        assert forall a :: a in args <==> a in [args[0]] || a in args[1..];
      }
    }
  }

  lemma {:induction false} ParseFromKeys(cmd: Command, toks: seq<Kind>, start: nat, st: State, prefix: Text)
    requires st.i <= |toks| && NoPositionalFlags(cmd) && DistinctTree(cmd) && ValuesOk(cmd, st) && KeysOk(cmd, st)
    ensures var r := ParseFrom(cmd, toks, start, st, prefix); r.status == Success ==> KeysOk(r.command, r.st)
    decreases |toks| - st.i, 0
  {
    if st.i == |toks| {
      FinishOk(cmd, start, st, prefix);
    } else {
      StepAdvances(cmd, toks, st);
      NeverSucceedsEarly(cmd, toks, st);
      StepOk(cmd, toks, st);
      StepKeepsKeys(cmd, toks, st);
      match Step(cmd, toks, st)
      case Continue(next) => ParseFromKeys(cmd, toks, start, next, prefix);
      case Leave(last) => FinishOk(cmd, start, last, prefix);
      case Stop(_, _) =>
      case Descend(sub, next) => ParsedKeys(sub, toks, next.i, prefix + cmd.name + [BLANK]);
    }
  }

  lemma {:induction false} ParsedKeys(cmd: Command, toks: seq<Kind>, i: nat, prefix: Text)
    requires i <= |toks| && NoPositionalFlags(cmd) && DistinctTree(cmd)
    ensures var r := Parse(cmd, toks, i, prefix); r.status == Success ==> KeysOk(r.command, r.st)
    decreases |toks| - i, 1
  {
    InitialOk(cmd, i);
    DefaultKeys(cmd.args, map[]);
    ParseFromKeys(cmd, toks, i, Initial(cmd, i), prefix);
  }

  /** What a handler finds for each argument of its command. */
  predicate FindsAll(cmd: Command, st: State, args: map<Text, ArgValue>) {
    var ps := Positionals(cmd.args);
    && args.Keys == Declared(cmd.args) + st.dynamics.Keys
    && (forall a :: a in cmd.args && !a.isHelp && !a.positional ==>
          a.name in args && if a.name in st.seen then HasKind(a, args[a.name]) else args[a.name] == a.default)
    && (forall k :: 0 <= k < |ps| && ps[k].name !in st.dynamics ==>
          ps[k].name in args && if k < st.pos then HasKind(ps[k], args[ps[k].name]) else args[ps[k].name] == ps[k].default)
  }

  /**
    * A handler finds a value for each declared argument: one of its kind if it was given, its default
    * if not. Only a positional can be hidden by a dynamic option, of the same name.
    */
  lemma {:induction false} HandlerFindsAll(cmd: Command, toks: seq<Kind>, i: nat, prefix: Text)
    requires i <= |toks| && NoPositionalFlags(cmd) && DistinctTree(cmd)
    ensures var r := Parse(cmd, toks, i, prefix); r.ran.Some? ==> FindsAll(r.command, r.st, r.ran.value.args)
  {
    var r := Parse(cmd, toks, i, prefix);
    ParseIsSound(cmd, toks, i, prefix);
    ParsedValues(cmd, toks, i, prefix);
    ParsedKeys(cmd, toks, i, prefix);
    HandlerIsCalledWith(cmd, toks, i, prefix);
    if r.ran.Some? {
      CallFinds(r.command, r.st, r.ran.value);
    }
  }

  lemma {:induction false} CallFinds(cmd: Command, st: State, call: Invocation)
    requires CalledWith(call, st) && ValuesOk(cmd, st) && KeysOk(cmd, st)
    ensures FindsAll(cmd, st, call.args)
  {
    forall a | a in cmd.args && !a.isHelp && !a.positional
      ensures a.name !in st.dynamics
    {
      assert IsNamed(a, FlagLong(a.name));
    }
  }
}
