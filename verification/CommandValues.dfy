/** The values a command ends up with: of the right kind, and the defaults where nothing was given. */
module CommandValues {
  import opened Common
  import opened Lexer
  import opened CommandParser
  import opened CommandProofs

  // ---------- every value is of the kind its argument asks for ----------

  predicate HasKind(a: ArgumentDef, v: ArgValue) {
    match a.ty
    case Flag => v.VBool?
    case Single => v.VStr? || (!a.coerce && (v.VInt? || v.VFloat?))
    case Multiple => v.VStrs? && v.ss != []
  }

  /** register_argument refuses a name that is taken. */
  predicate DistinctNames(args: seq<ArgumentDef>) {
    forall i, j :: 0 <= i < j < |args| ==> args[i].name != args[j].name
  }

  predicate DistinctTree(cmd: Command) {
    DistinctNames(cmd.args) && forall c :: c in cmd.subs ==> DistinctTree(c)
  }

  predicate OptionsOk(args: seq<ArgumentDef>, values: map<Text, ArgValue>, seen: set<Text>) {
    forall a :: a in args && !a.isHelp && !a.positional ==>
      a.name in values && if a.name in seen then HasKind(a, values[a.name]) else values[a.name] == a.default
  }

  predicate PositionalsOk(ps: seq<ArgumentDef>, values: map<Text, ArgValue>, pos: nat) {
    && pos <= |ps|
    && forall k :: 0 <= k < |ps| ==>
         ps[k].name in values && if k < pos then HasKind(ps[k], values[ps[k].name]) else values[ps[k].name] == ps[k].default
  }

  /** What a state holds for each argument of the command. */
  predicate ValuesOk(cmd: Command, st: State) {
    OptionsOk(cmd.args, st.values, st.seen) && PositionalsOk(Positionals(cmd.args), st.values, st.pos)
  }

  lemma {:induction false} PositionalsDistinct(args: seq<ArgumentDef>)
    requires DistinctNames(args)
    ensures DistinctNames(Positionals(args))
  {
    if args != [] {
      PositionalsDistinct(args[1..]);
      PositionalsAre(args[1..]);
      var rest := Positionals(args[1..]);
      forall j | 0 <= j < |rest|
        ensures rest[j].name != args[0].name
      {
        assert rest[j] in args[1..];
      }
    }
  }

  lemma {:induction false} SameNameSameArg(args: seq<ArgumentDef>, a: ArgumentDef, b: ArgumentDef)
    requires DistinctNames(args) && a in args && b in args && a.name == b.name
    ensures a == b
  {
  }

  lemma {:induction false} SetOption(cmd: Command, st: State, a: ArgumentDef, v: ArgValue, next: State)
    requires DistinctNames(cmd.args) && ValuesOk(cmd, st)
    requires a in cmd.args && !a.positional && HasKind(a, v)
    requires next.values == st.values[a.name := v] && next.seen == st.seen + {a.name} && next.pos == st.pos
    ensures ValuesOk(cmd, next)
  {
    forall b | b in cmd.args && !b.isHelp && !b.positional
      ensures b.name in next.values &&
              if b.name in next.seen then HasKind(b, next.values[b.name]) else next.values[b.name] == b.default
    {
      if b.name == a.name {
        SameNameSameArg(cmd.args, a, b);
      }
    }
    var ps := Positionals(cmd.args);
    PositionalsAre(cmd.args);
    forall k | 0 <= k < |ps|
      ensures ps[k].name != a.name
    {
      assert ps[k] in ps;
      if ps[k].name == a.name {
        SameNameSameArg(cmd.args, a, ps[k]);
      }
    }
  }

  lemma {:induction false} SetPositional(cmd: Command, st: State, v: ArgValue, next: State)
    requires DistinctNames(cmd.args) && ValuesOk(cmd, st)
    requires st.pos < |Positionals(cmd.args)| && HasKind(Positionals(cmd.args)[st.pos], v)
    requires next.values == st.values[Positionals(cmd.args)[st.pos].name := v] && next.seen == st.seen && next.pos == st.pos + 1
    ensures ValuesOk(cmd, next)
  {
    var ps := Positionals(cmd.args);
    var p := ps[st.pos];
    PositionalsDistinct(cmd.args);
    PositionalsAre(cmd.args);
    assert p in ps;
    forall b | b in cmd.args && !b.isHelp && !b.positional
      ensures b.name != p.name
    {
      if b.name == p.name {
        SameNameSameArg(cmd.args, p, b);
      }
    }
  }

  lemma {:induction false} CombinedOk(cmd: Command, name: Text, st: State)
    requires DistinctNames(cmd.args) && ValuesOk(cmd, st) && Combined(cmd, name, st).Continue?
    ensures ValuesOk(cmd, Combined(cmd, name, st).st)
    decreases |name|
  {
    if name != [] {
      var a := FindKeyword(cmd.args, [name[0]], true).value;
      var next := st.(seen := st.seen + {a.name}, values := st.values[a.name := VBool(true)]);
      SetOption(cmd, st, a, VBool(true), next);
      CombinedOk(cmd, name[1..], next);
    }
  }

  lemma {:induction false} OptionOk(cmd: Command, toks: seq<Kind>, a: ArgumentDef, st: State)
    requires DistinctNames(cmd.args) && ValuesOk(cmd, st) && st.i <= |toks| && a in cmd.args && !a.positional
    requires OptionValue(a, toks, st.(seen := st.seen + {a.name})).Continue?
    ensures ValuesOk(cmd, OptionValue(a, toks, st.(seen := st.seen + {a.name})).st)
  {
    var n := OptionValue(a, toks, st.(seen := st.seen + {a.name})).st;
    SetOption(cmd, st, a, n.values[a.name], n);
  }

  lemma {:induction false} PositionalOk(cmd: Command, toks: seq<Kind>, st: State)
    requires DistinctNames(cmd.args) && NoPositionalFlags(cmd) && ValuesOk(cmd, st) && st.i < |toks|
    requires PositionalStep(cmd, toks, st).Continue?
    ensures ValuesOk(cmd, PositionalStep(cmd, toks, st).st)
  {
    var p := Positionals(cmd.args)[st.pos];
    PositionalsAre(cmd.args);
    assert p in Positionals(cmd.args);
    var n := PositionalStep(cmd, toks, st).st;
    SetPositional(cmd, st, n.values[p.name], n);
  }

  lemma {:induction false} KeywordOk(cmd: Command, toks: seq<Kind>, name: Text, short: bool, st: State)
    requires DistinctNames(cmd.args) && ValuesOk(cmd, st) && st.i < |toks| && KeywordStep(cmd, toks, name, short, st).Continue?
    ensures ValuesOk(cmd, KeywordStep(cmd, toks, name, short, st).st)
  {
    var a := FindKeyword(cmd.args, name, short);
    if a.Some? {
      OptionOk(cmd, toks, a.value, st.(i := st.i + 1));
    }
  }

  lemma {:induction false} StepOk(cmd: Command, toks: seq<Kind>, st: State)
    requires DistinctNames(cmd.args) && NoPositionalFlags(cmd) && ValuesOk(cmd, st) && st.i < |toks|
    ensures var n := Step(cmd, toks, st); n.Continue? || n.Leave? ==> ValuesOk(cmd, n.st)
  {
    var n := Step(cmd, toks, st);
    if n.Continue? {
      match toks[st.i]
      case FlagShort(name) =>
        if |name| > 1 {
          CombinedOk(cmd, name, st.(i := st.i + 1));
        } else {
          KeywordOk(cmd, toks, name, true, st);
        }
      case FlagLong(name) => KeywordOk(cmd, toks, name, false, st);
      case _ => PositionalOk(cmd, toks, st);
    } else if n.Leave? {
      StepTakesOneFlag(cmd, toks, st);
    }
  }

  lemma {:induction false} DefaultsAre(args: seq<ArgumentDef>, values: map<Text, ArgValue>)
    requires DistinctNames(args)
    ensures var d := Defaults(args, values);
            && (forall a :: a in args && !a.isHelp ==> a.name in d && d[a.name] == a.default)
            && (forall n :: n in values && (forall a :: a in args ==> a.name != n) ==> n in d && d[n] == values[n])
  {
    if args != [] {
      var next := if args[0].isHelp then values else values[args[0].name := args[0].default];
      DefaultsAre(args[1..], next);
      assert forall a :: a in args[1..] ==> a.name != args[0].name;
      assert forall a :: a in args <==> a == args[0] || a in args[1..];
    }
  }

  lemma {:induction false} InitialOk(cmd: Command, i: nat)
    requires DistinctNames(cmd.args)
    ensures ValuesOk(cmd, Initial(cmd, i))
  {
    DefaultsAre(cmd.args, map[]);
    PositionalsAre(cmd.args);
    var ps := Positionals(cmd.args);
    assert forall k :: 0 <= k < |ps| ==> ps[k] in ps;
  }

  lemma {:induction false} FillingChangesNothing(ps: seq<ArgumentDef>, values: map<Text, ArgValue>)
    requires forall p :: p in ps ==> p.name in values && values[p.name] == p.default
    ensures FillPositionals(ps, values).0 == values
  {
    if ps != [] && !ps[0].required {
      assert values[ps[0].name := ps[0].default] == values;
      FillingChangesNothing(ps[1..], values);
    }
  }

  lemma {:induction false} FinishOk(cmd: Command, start: nat, st: State, prefix: Text)
    requires ValuesOk(cmd, st)
    ensures Finish(cmd, start, st, prefix).st == st && Finish(cmd, start, st, prefix).command == cmd
  {
    var ps := Positionals(cmd.args);
    forall p | p in ps[st.pos..]
      ensures p.name in st.values && st.values[p.name] == p.default
    {
      var k :| 0 <= k < |ps[st.pos..]| && ps[st.pos..][k] == p;
      assert ps[st.pos + k] == p;
    }
    FillingChangesNothing(ps[st.pos..], st.values);
  }

  lemma {:induction false} ParseFromOk(cmd: Command, toks: seq<Kind>, start: nat, st: State, prefix: Text)
    requires st.i <= |toks| && NoPositionalFlags(cmd) && DistinctTree(cmd) && ValuesOk(cmd, st)
    ensures var r := ParseFrom(cmd, toks, start, st, prefix); r.status == Success ==> ValuesOk(r.command, r.st)
    decreases |toks| - st.i, 0
  {
    if st.i == |toks| {
      FinishOk(cmd, start, st, prefix);
    } else {
      StepAdvances(cmd, toks, st);
      NeverSucceedsEarly(cmd, toks, st);
      StepOk(cmd, toks, st);
      match Step(cmd, toks, st)
      case Continue(next) => ParseFromOk(cmd, toks, start, next, prefix);
      case Leave(last) => FinishOk(cmd, start, last, prefix);
      case Stop(_, _) =>
      case Descend(sub, next) => ParsedValues(sub, toks, next.i, prefix + cmd.name + [BLANK]);
    }
  }

  /**
    * After every successful parse each option that was seen and each positional that was filled
    * holds a value of its argument's kind, and every other argument holds its default.
    */
  lemma {:induction false} ParsedValues(cmd: Command, toks: seq<Kind>, i: nat, prefix: Text)
    requires i <= |toks| && NoPositionalFlags(cmd) && DistinctTree(cmd)
    ensures var r := Parse(cmd, toks, i, prefix); r.status == Success ==> ValuesOk(r.command, r.st)
    decreases |toks| - i, 1
  {
    InitialOk(cmd, i);
    ParseFromOk(cmd, toks, i, Initial(cmd, i), prefix);
  }
}
