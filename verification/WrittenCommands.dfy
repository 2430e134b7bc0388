/** From what is written on a command line to what the handler is called with. */
module WrittenCommands {
  import opened Common
  import opened Lexer
  import opened CommandParser
  import opened CommandNames
  import opened CommandProofs
  import opened CommandValues
  import opened CommandRender
  import opened CommandHandlers
  import opened TokenRuns

  // ---------- one more item ----------

  lemma {:induction false} NamedNext(items: seq<Item>, it: Item)
    ensures Named(items + [it]) == Named(items) + NamesOfAll(ArgsOf(it))
  {
    assert forall x :: x in items + [it] <==> x in items || x == it;
  }

  lemma {:induction false} HeldNext(items: seq<Item>, it: Item, a: ArgumentDef)
    ensures a !in ArgsOf(it) ==> Held(items + [it], a) == Held(items, a)
    ensures it.Letters? && a in it.args ==> Held(items + [it], a) == VBool(true)
    ensures it.Chosen? && it.arg == a && Fits(it.words, a.ty) ==>
              Held(items + [it], a) ==
              match a.ty
              case Flag => VBool(it.words == [] || Truthful(it.words[0]))
              case Single => OneValue(it.words[0], a.coerce)
              case Multiple => VStrs((if Held(items, a).VStrs? then Held(items, a).ss else []) + Texts(it.words))
  {
    assert (items + [it])[..|items|] == items;
  }

  lemma {:induction false} FilledNext(items: seq<Item>, it: Item)
    ensures Filled(items + [it]) == if it.Positional? then Filled(items) + [it.words] else Filled(items)
  {
    assert (items + [it])[..|items|] == items;
  }

  lemma {:induction false} UndeclaredNext(items: seq<Item>, it: Item, name: Text, ty: ArgType)
    ensures UndeclaredNames(items + [it]) == UndeclaredNames(items) + if it.Undeclared? then {it.name} else {}
    ensures it.Undeclared? && it.name == name && it.words != [] ==>
              UndeclaredHeld(items + [it], name, ty) == if ty == Single then OneValue(it.words[0], false) else VStrs(Texts(it.words))
    ensures !it.Undeclared? || it.name != name ==> UndeclaredHeld(items + [it], name, ty) == UndeclaredHeld(items, name, ty)
  {
    assert (items + [it])[..|items|] == items;
    assert forall x :: x in items + [it] <==> x in items || x == it;
  }

  lemma {:induction false} SetAllIs(args: seq<ArgumentDef>, values: map<Text, ArgValue>)
    ensures var all := SetAll(args, values);
            && all.Keys == values.Keys + NamesOfAll(args)
            && (forall n :: n in NamesOfAll(args) ==> all[n] == VBool(true))
            && (forall n :: n in values && n !in NamesOfAll(args) ==> all[n] == values[n])
  {
    if args != [] {
      SetAllIs(args[1..], values[args[0].name := VBool(true)]);
      assert NamesOfAll(args) == {args[0].name} + NamesOfAll(args[1..]) by {
        assert forall b :: b in args <==> b == args[0] || b in args[1..];
      }
    }
  }

  /** The arguments an item names are declared ones, and no positionals. */
  lemma {:induction false} NamedAreDeclared(cmd: Command, it: Item, pos: nat)
    requires Legal(cmd, it, pos)
    ensures forall a :: a in ArgsOf(it) ==> a in cmd.args && !a.positional && !a.isHelp
  {
    forall a | a in ArgsOf(it)
      ensures a in cmd.args && !a.positional && !a.isHelp
    {
      if it.Letters? {
        var k :| 0 <= k < |it.args| && it.args[k] == a;
        assert Letter(cmd, it.name[k], it.args[k]);
      }
    }
  }

  lemma {:induction false} OptionsNext(cmd: Command, items: seq<Item>, it: Item, st: State)
    requires DistinctNames(cmd.args) && Holds(cmd, items, st) && Legal(cmd, it, st.pos)
    ensures OptionsHold(cmd, items + [it], After(cmd, it, st).values)
  {
    var after := After(cmd, it, st).values;
    forall a | a in cmd.args && !a.isHelp && !a.positional
      ensures a.name in after && after[a.name] == Held(items + [it], a)
    {
      OneOptionNext(cmd, items, it, st, a);
    }
  }

  lemma {:induction false} OneOptionNext(cmd: Command, items: seq<Item>, it: Item, st: State, a: ArgumentDef)
    requires DistinctNames(cmd.args) && Legal(cmd, it, st.pos) && a in cmd.args && !a.isHelp && !a.positional
    requires a.name in st.values && st.values[a.name] == Held(items, a)
    ensures a.name in After(cmd, it, st).values && After(cmd, it, st).values[a.name] == Held(items + [it], a)
  {
    HeldNext(items, it, a);
    NamedAreDeclared(cmd, it, st.pos);
    match it
    case Positional(_) =>
      PositionalsAre(cmd.args);
      assert Positionals(cmd.args)[st.pos] in Positionals(cmd.args);
    case Chosen(_, b, _) =>
      if b.name == a.name {
        SameNameSameArg(cmd.args, a, b);
      }
    case Letters(_, args) =>
      SetAllIs(args, st.values);
      if a.name in NamesOfAll(args) {
        var b :| b in args && b.name == a.name;
        SameNameSameArg(cmd.args, a, b);
      }
    case Undeclared(_, _) =>
  }

  lemma {:induction false} PositionalsNext(cmd: Command, items: seq<Item>, it: Item, st: State)
    requires DistinctNames(cmd.args) && Holds(cmd, items, st) && Legal(cmd, it, st.pos)
    ensures PositionalsHold(cmd, Filled(items + [it]), After(cmd, it, st).values)
  {
    var ps := Positionals(cmd.args);
    FilledNext(items, it);
    PositionalsAre(cmd.args);
    PositionalsDistinct(cmd.args);
    NamedAreDeclared(cmd, it, st.pos);
    forall k | 0 <= k < |ps|
      ensures var after := After(cmd, it, st).values;
              ps[k].name in after && after[ps[k].name] == PositionalHeld(Filled(items + [it]), ps[k], k)
    {
      assert ps[k] in ps;
      OnePositionalNext(cmd, it, st, ps[k], k, Filled(items));
    }
  }

  lemma {:induction false} OnePositionalNext(cmd: Command, it: Item, st: State, p: ArgumentDef, k: nat, filled: seq<seq<Word>>)
    requires DistinctNames(cmd.args) && DistinctNames(Positionals(cmd.args)) && Legal(cmd, it, st.pos) && st.pos == |filled|
    requires k < |Positionals(cmd.args)| && p == Positionals(cmd.args)[k] && p in cmd.args && p.positional && !p.isHelp
    requires p.name in st.values && st.values[p.name] == PositionalHeld(filled, p, k)
    ensures var after := After(cmd, it, st).values;
            p.name in after && after[p.name] == PositionalHeld(if it.Positional? then filled + [it.words] else filled, p, k)
  {
    NamedAreDeclared(cmd, it, st.pos);
    match it
    case Positional(_) => assert k != st.pos ==> p.name != Positionals(cmd.args)[st.pos].name;
    case Chosen(_, b, _) =>
      if b.name == p.name {
        SameNameSameArg(cmd.args, p, b);
      }
    case Letters(_, args) =>
      SetAllIs(args, st.values);
      forall b | b in args
        ensures b.name != p.name
      {
        if b.name == p.name {
          SameNameSameArg(cmd.args, p, b);
        }
      }
    case Undeclared(_, _) =>
  }

  lemma {:induction false} UndeclaredHoldNext(cmd: Command, items: seq<Item>, it: Item, st: State)
    requires UndeclaredHold(cmd, items, st.dynamics) && Legal(cmd, it, st.pos)
    ensures UndeclaredHold(cmd, items + [it], After(cmd, it, st).dynamics)
  {
    var after := After(cmd, it, st).dynamics;
    UndeclaredNext(items, it, [], Single);
    forall n | n in after
      ensures cmd.dynamicKeywords.Some? && after[n] == UndeclaredHeld(items + [it], n, cmd.dynamicKeywords.value)
    {
      if cmd.dynamicKeywords.Some? {
        UndeclaredNext(items, it, n, cmd.dynamicKeywords.value);
      }
    }
  }

  lemma {:induction false} KeysNext(cmd: Command, it: Item, st: State)
    requires Legal(cmd, it, st.pos) && st.values.Keys == Declared(cmd.args)
    ensures After(cmd, it, st).values.Keys == Declared(cmd.args)
  {
    NamedAreDeclared(cmd, it, st.pos);
    match it
    case Positional(_) =>
      PositionalsAre(cmd.args);
      assert Positionals(cmd.args)[st.pos] in Positionals(cmd.args);
    case Chosen(_, a, _) => assert a in ArgsOf(it);
    case Letters(_, args) => SetAllIs(args, st.values);
    case Undeclared(_, _) =>
  }

  lemma {:induction false} SeenNext(cmd: Command, items: seq<Item>, it: Item, st: State)
    requires Legal(cmd, it, st.pos) && st.seen == Named(items)
    ensures After(cmd, it, st).seen == Named(items + [it])
    ensures After(cmd, it, st).passthrough == st.passthrough
    ensures After(cmd, it, st).pos == if it.Positional? then st.pos + 1 else st.pos
  {
    NamedNext(items, it);
    assert it.Chosen? ==> NamesOfAll([it.arg]) == {it.arg.name};
    assert !it.Chosen? && !it.Letters? ==> NamesOfAll(ArgsOf(it)) == {};
  }

  lemma {:induction false} HoldsNext(cmd: Command, items: seq<Item>, it: Item, st: State)
    requires DistinctNames(cmd.args) && Holds(cmd, items, st) && Legal(cmd, it, st.pos)
    ensures Holds(cmd, items + [it], After(cmd, it, st))
  {
    OptionsNext(cmd, items, it, st);
    PositionalsNext(cmd, items, it, st);
    UndeclaredHoldNext(cmd, items, it, st);
    KeysNext(cmd, it, st);
    SeenNext(cmd, items, it, st);
    FilledNext(items, it);
  }

  lemma {:induction false} HoldsFirst(cmd: Command, i: nat)
    requires DistinctNames(cmd.args)
    ensures Holds(cmd, [], Initial(cmd, i))
  {
    InitialOk(cmd, i);
    DefaultKeys(cmd.args, map[]);
  }

  // ---------- a whole command line ----------

  /** The part is all that is left of the tokens. */
  predicate Left(toks: seq<Kind>, i: nat, part: seq<Kind>) { i <= |toks| && toks[i..] == part }

  function LineFrom(rest: seq<Item>, passed: Option<seq<Kind>>): seq<Kind> { Written(rest) + Passed(passed) }

  lemma {:induction false} LineParts(rest: seq<Item>, passed: Option<seq<Kind>>)
    requires rest != []
    ensures LineFrom(rest, passed) == ItemTokens(rest[0]) + LineFrom(rest[1..], passed)
  {
    AppendAssoc(ItemTokens(rest[0]), Written(rest[1..]), Passed(passed));
  }

  lemma {:induction false} LeftSplit(toks: seq<Kind>, i: nat, a: seq<Kind>, b: seq<Kind>)
    requires Left(toks, i, a + b)
    ensures StandsAt(toks, i, a) && Left(toks, i + |a|, b)
  {
    assert |toks| == i + |a| + |b|;
    assert forall k :: i <= k < i + |a| ==> toks[k] == toks[i..][k - i] == a[k - i];
    assert toks[i + |a|..] == toks[i..][|a|..] == b;
  }

  lemma {:induction false} LeftBehind(toks: seq<Kind>, i: nat, rest: seq<Item>, passed: Option<seq<Kind>>)
    requires rest != [] && Left(toks, i, LineFrom(rest, passed))
    ensures StandsAt(toks, i, ItemTokens(rest[0])) && Left(toks, i + |ItemTokens(rest[0])|, LineFrom(rest[1..], passed))
  {
    LineParts(rest, passed);
    LeftSplit(toks, i, ItemTokens(rest[0]), LineFrom(rest[1..], passed));
  }

  lemma {:induction false} LineStartsWithoutWord(cmd: Command, rest: seq<Item>, passed: Option<seq<Kind>>, pos: nat)
    requires rest != [] ==> !rest[0].Positional? && Legal(cmd, rest[0], pos)
    ensures NoWordAt(LineFrom(rest, passed), 0)
  {
    if rest != [] {
      LineParts(rest, passed);
      assert ItemTokens(rest[0]) != [] && IsFlag(ItemTokens(rest[0])[0]);
    }
  }

  lemma {:induction false} NothingTaken(cmd: Command, toks: seq<Kind>, i: nat, rest: seq<Item>, passed: Option<seq<Kind>>, pos: nat)
    requires Left(toks, i, LineFrom(rest, passed)) && (rest != [] ==> !rest[0].Positional? && Legal(cmd, rest[0], pos))
    ensures NoWordAt(toks, i)
  {
    LineStartsWithoutWord(cmd, rest, passed, pos);
    assert i < |toks| ==> toks[i..][0] == toks[i];
  }

  function PosAfter(it: Item, pos: nat): nat { if it.Positional? then pos + 1 else pos }

  lemma {:induction false} ReadableParts(cmd: Command, items: seq<Item>, pos: nat)
    requires items != [] && Readable(cmd, items, pos)
    ensures Legal(cmd, items[0], pos) && Readable(cmd, items[1..], PosAfter(items[0], pos))
    ensures TakesMore(cmd, items[0], pos) && items[1..] != [] ==>
              !items[1..][0].Positional? && Legal(cmd, items[1..][0], PosAfter(items[0], pos))
  {
  }

  /** The first item of a line stands for the turn at its place. */
  lemma {:induction false} FirstItem(cmd: Command, toks: seq<Kind>, rest: seq<Item>, passed: Option<seq<Kind>>, st: State)
    requires rest != [] && Readable(cmd, rest, st.pos) && Left(toks, st.i, LineFrom(rest, passed))
    ensures ComesNext(cmd, toks, rest[0], st)
  {
    LeftBehind(toks, st.i, rest, passed);
    ReadableParts(cmd, rest, st.pos);
    if TakesMore(cmd, rest[0], st.pos) {
      NothingTaken(cmd, toks, st.i + |ItemTokens(rest[0])|, rest[1..], passed, PosAfter(rest[0], st.pos));
    }
  }

  predicate Gives(cmd: Command, toks: seq<Kind>, start: nat, st: State, prefix: Text, out: Outcome) {
    st.i <= |toks| && NoPositionalFlags(cmd) && ParseFrom(cmd, toks, start, st, prefix) == out
  }

  lemma {:induction false} TurnGoesOn(cmd: Command, toks: seq<Kind>, start: nat, st: State, next: State, prefix: Text, out: Outcome)
    requires st.i < |toks| && Step(cmd, toks, st) == Continue(next) && Gives(cmd, toks, start, next, prefix, out)
    ensures Gives(cmd, toks, start, st, prefix, out)
  {
    StepAdvances(cmd, toks, st);
  }

  lemma {:induction false} DelimiterLeaves(cmd: Command, toks: seq<Kind>, rest: seq<Kind>, st: State)
    requires cmd.allowPassthrough && st.passthrough == []
    requires st.i < |toks| && toks[st.i].DoubleMinus? && toks[st.i + 1..] == rest
    ensures Step(cmd, toks, st) == Leave(Ended(st, toks, Some(rest)))
  {
    assert [] + AllPrinted(rest) == AllPrinted(rest);
  }

  lemma {:induction false} DelimiterEnds(cmd: Command, toks: seq<Kind>, start: nat, rest: seq<Kind>, st: State, prefix: Text)
    requires NoPositionalFlags(cmd) && cmd.allowPassthrough && st.passthrough == []
    requires st.i < |toks| && toks[st.i].DoubleMinus? && toks[st.i + 1..] == rest
    ensures Gives(cmd, toks, start, st, prefix, Finish(cmd, start, Ended(st, toks, Some(rest)), prefix))
  {
    DelimiterLeaves(cmd, toks, rest, st);
  }

  lemma {:induction false} PassingEnds(cmd: Command, toks: seq<Kind>, start: nat, passed: Option<seq<Kind>>, st: State, prefix: Text)
    requires NoPositionalFlags(cmd) && (passed.Some? ==> cmd.allowPassthrough) && st.passthrough == []
    requires Left(toks, st.i, LineFrom([], passed))
    ensures Gives(cmd, toks, start, st, prefix, Finish(cmd, start, Ended(st, toks, passed), prefix))
  {
    assert LineFrom([], passed) == Passed(passed);
    if passed.Some? {
      LeftSplit(toks, st.i, [DoubleMinus], passed.value);
      assert toks[st.i] == toks[st.i..][0];
      DelimiterEnds(cmd, toks, start, passed.value, st, prefix);
    } else {
      assert Ended(st, toks, passed) == st;
    }
  }

  function Ended(st: State, toks: seq<Kind>, passed: Option<seq<Kind>>): State {
    st.(i := |toks|, passthrough := if passed.Some? then AllPrinted(passed.value) else [])
  }

  /** The state behind all items. */
  function AfterAll(cmd: Command, items: seq<Item>, st: State): State
    requires Readable(cmd, items, st.pos)
  {
    if items == [] then st else AfterAll(cmd, items[1..], After(cmd, items[0], st))
  }

  lemma {:induction false} AllHold(cmd: Command, done: seq<Item>, rest: seq<Item>, all: seq<Item>, st: State)
    requires DistinctNames(cmd.args) && Holds(cmd, done, st) && Readable(cmd, rest, st.pos) && all == done + rest
    ensures Holds(cmd, all, AfterAll(cmd, rest, st))
    decreases |rest|
  {
    if rest == [] {
      assert all == done;
    } else {
      HoldsNext(cmd, done, rest[0], st);
      Regrouped(done, rest);
      AllHold(cmd, done + [rest[0]], rest[1..], all, After(cmd, rest[0], st));
    }
  }

  lemma {:induction false} Regrouped(done: seq<Item>, rest: seq<Item>)
    requires rest != []
    ensures done + rest == done + [rest[0]] + rest[1..]
  {
  }

  lemma {:induction false} AfterMoves(cmd: Command, it: Item, st: State)
    requires Legal(cmd, it, st.pos)
    ensures After(cmd, it, st).i == st.i + |ItemTokens(it)| && After(cmd, it, st).pos == PosAfter(it, st.pos)
    ensures After(cmd, it, st).passthrough == st.passthrough
  {
  }

  lemma {:induction false} LeftAfter(cmd: Command, toks: seq<Kind>, rest: seq<Item>, passed: Option<seq<Kind>>, st: State)
    requires rest != [] && Readable(cmd, rest, st.pos) && Left(toks, st.i, LineFrom(rest, passed))
    ensures Left(toks, After(cmd, rest[0], st).i, LineFrom(rest[1..], passed))
    ensures Readable(cmd, rest[1..], After(cmd, rest[0], st).pos)
  {
    LeftBehind(toks, st.i, rest, passed);
    ReadableParts(cmd, rest, st.pos);
    AfterMoves(cmd, rest[0], st);
  }

  lemma {:induction false} EndsThere(cmd: Command, toks: seq<Kind>, rest: seq<Item>, passed: Option<seq<Kind>>, st: State)
    requires Readable(cmd, rest, st.pos) && Left(toks, st.i, LineFrom(rest, passed))
    ensures Left(toks, AfterAll(cmd, rest, st).i, LineFrom([], passed))
    decreases |rest|
  {
    if rest != [] {
      LeftAfter(cmd, toks, rest, passed, st);
      EndsThere(cmd, toks, rest[1..], passed, After(cmd, rest[0], st));
    }
  }

  lemma {:induction false} FirstGoesOn(cmd: Command, toks: seq<Kind>, start: nat, rest: seq<Item>, passed: Option<seq<Kind>>,
                                       st: State, prefix: Text, out: Outcome)
    requires rest != [] && Readable(cmd, rest, st.pos) && Left(toks, st.i, LineFrom(rest, passed))
    requires Gives(cmd, toks, start, After(cmd, rest[0], st), prefix, out)
    ensures Gives(cmd, toks, start, st, prefix, out)
  {
    FirstItem(cmd, toks, rest, passed, st);
    ItemIsTaken(cmd, toks, rest[0], st);
    TurnGoesOn(cmd, toks, start, st, After(cmd, rest[0], st), prefix, out);
  }

  lemma {:induction false} ItemsAreTaken(cmd: Command, toks: seq<Kind>, start: nat, rest: seq<Item>, passed: Option<seq<Kind>>,
                                         st: State, prefix: Text, out: Outcome)
    requires Readable(cmd, rest, st.pos) && Left(toks, st.i, LineFrom(rest, passed))
    requires Gives(cmd, toks, start, AfterAll(cmd, rest, st), prefix, out)
    ensures Gives(cmd, toks, start, st, prefix, out)
    decreases |rest|
  {
    if rest != [] {
      LeftAfter(cmd, toks, rest, passed, st);
      ItemsAreTaken(cmd, toks, start, rest[1..], passed, After(cmd, rest[0], st), prefix, out);
      FirstGoesOn(cmd, toks, start, rest, passed, st, prefix, out);
    }
  }

  // ---------- when the handler runs, and with what ----------

  /** Everything required is given, and no two of the options given conflict. */
  predicate Sufficient(cmd: Command, items: seq<Item>) {
    var ps := Positionals(cmd.args);
    && (forall a :: a in cmd.args && !a.positional && !a.isHelp && a.required ==> a.name in Named(items))
    && (forall k :: |Filled(items)| <= k < |ps| ==> !ps[k].required)
    && (forall a, c :: a in cmd.args && c in a.conflicts && a.name in Named(items) && c in Named(items) ==> c == a.name)
  }

  predicate CalledAsWritten(cmd: Command, items: seq<Item>, args: map<Text, ArgValue>) {
    var ps := Positionals(cmd.args);
    && args.Keys == Declared(cmd.args) + UndeclaredNames(items)
    && (forall a :: a in cmd.args && !a.isHelp && !a.positional ==> a.name in args && args[a.name] == Held(items, a))
    && (forall k :: 0 <= k < |ps| && ps[k].name !in UndeclaredNames(items) ==>
          ps[k].name in args && args[ps[k].name] == PositionalHeld(Filled(items), ps[k], k))
    && (forall n :: n in UndeclaredNames(items) ==>
          cmd.dynamicKeywords.Some? && n in args && args[n] == UndeclaredHeld(items, n, cmd.dynamicKeywords.value))
  }

  lemma {:induction false} ConflictsAreNone(args: seq<ArgumentDef>, seen: set<Text>)
    ensures ConflictPairs(args, seen) == {} <==>
            forall a, c :: a in args && c in a.conflicts && a.name in seen && c in seen ==> c == a.name
  {
    forall a | a in args
      ensures PairsOf(a, seen) == {} <==> (a.name in seen ==> forall c :: c in a.conflicts && c in seen ==> c == a.name)
    {
      if a.name in seen {
        PairsListed(a, seen);
      }
    }
  }

  lemma {:induction false} RequiredPositionals(ps: seq<ArgumentDef>, pos: nat)
    requires pos <= |ps|
    ensures (forall p :: p in ps[pos..] ==> !p.required) <==> forall k :: pos <= k < |ps| ==> !ps[k].required
  {
    forall k | pos <= k < |ps|
      ensures ps[k] in ps[pos..]
    {
      assert ps[pos..][k - pos] == ps[k];
    }
  }

  lemma {:induction false} NothingToFill(cmd: Command, filled: seq<seq<Word>>, values: map<Text, ArgValue>)
    requires |filled| <= |Positionals(cmd.args)| && PositionalsHold(cmd, filled, values)
    ensures FillPositionals(Positionals(cmd.args)[|filled|..], values).0 == values
  {
    var ps := Positionals(cmd.args);
    forall p | p in ps[|filled|..]
      ensures p.name in values && values[p.name] == p.default
    {
      var k :| 0 <= k < |ps[|filled|..]| && ps[|filled|..][k] == p;
      assert ps[|filled| + k] == p;
    }
    FillingChangesNothing(ps[|filled|..], values);
  }

  lemma {:induction false} FinishRuns(cmd: Command, start: nat, items: seq<Item>, st: State, prefix: Text)
    requires |Filled(items)| <= |Positionals(cmd.args)| && Holds(cmd, items, st.(passthrough := []))
    ensures var r := Finish(cmd, start, st, prefix);
            && (r.ran.Some? <==> cmd.handler && Sufficient(cmd, items))
            && (r.ran.Some? ==> r.st == st && r.command == cmd)
  {
    ConflictsAreNone(cmd.args, st.seen);
    RequiredPositionals(Positionals(cmd.args), st.pos);
    NothingToFill(cmd, Filled(items), st.values);
  }

  lemma {:induction false} UndeclaredNameNone(cmd: Command, items: seq<Item>, pos: nat)
    requires Readable(cmd, items, pos)
    ensures forall n, a :: n in UndeclaredNames(items) && a in cmd.args ==> !IsNamed(a, FlagLong(n))
    decreases |items|
  {
    if items != [] {
      UndeclaredNameNone(cmd, items[1..], if items[0].Positional? then pos + 1 else pos);
      forall n, a | n in UndeclaredNames(items) && a in cmd.args
        ensures !IsNamed(a, FlagLong(n))
      {
        var it :| it in items && it.Undeclared? && it.name == n;
        assert it == items[0] || n in UndeclaredNames(items[1..]);
      }
    }
  }

  lemma {:induction false} CallIsAsWritten(cmd: Command, items: seq<Item>, st: State, call: Invocation)
    requires Readable(cmd, items, 0) && Holds(cmd, items, st.(passthrough := [])) && CalledWith(call, st)
    ensures CalledAsWritten(cmd, items, call.args)
  {
    UndeclaredNameNone(cmd, items, 0);
    forall a | a in cmd.args && !a.isHelp && !a.positional
      ensures a.name !in st.dynamics
    {
      assert IsNamed(a, FlagLong(a.name));
    }
  }

  lemma {:induction false} FilledFits(cmd: Command, done: seq<Item>, rest: seq<Item>)
    requires Readable(cmd, rest, |Filled(done)|) && |Filled(done)| <= |Positionals(cmd.args)|
    ensures |Filled(done + rest)| <= |Positionals(cmd.args)|
    decreases |rest|
  {
    if rest == [] {
      assert done + rest == done;
    } else {
      FilledNext(done, rest[0]);
      FilledFits(cmd, done + [rest[0]], rest[1..]);
      assert done + [rest[0]] + rest[1..] == done + rest;
    }
  }

  /** The handler runs exactly when enough is written, with what is written. */
  predicate RunsAsWritten(cmd: Command, items: seq<Item>, passed: Option<seq<Kind>>, path: Text, ran: Option<Invocation>) {
    && (ran.Some? <==> cmd.handler && Sufficient(cmd, items))
    && (ran.Some? ==>
          && CalledAsWritten(cmd, items, ran.value.args) && ran.value.path == path
          && ran.value.passthrough == if passed.Some? then AllPrinted(passed.value) else [])
  }

  lemma {:induction false} FinishAsWritten(cmd: Command, toks: seq<Kind>, start: nat, items: seq<Item>, passed: Option<seq<Kind>>,
                                           last: State, prefix: Text)
    requires Readable(cmd, items, 0) && Holds(cmd, items, last)
    ensures RunsAsWritten(cmd, items, passed, prefix + cmd.name, Finish(cmd, start, Ended(last, toks, passed), prefix).ran)
  {
    var end := Ended(last, toks, passed);
    FilledFits(cmd, [], items);
    assert [] + items == items;
    assert last == end.(i := last.i, passthrough := []);
    HoldsAnywhere(cmd, items, end, last.i);
    FinishRuns(cmd, start, items, end, prefix);
    FinishCalls(cmd, toks, start, end, prefix);
    var r := Finish(cmd, start, end, prefix);
    if r.ran.Some? {
      CallIsAsWritten(cmd, items, end, r.ran.value);
    }
  }

  lemma {:induction false} HoldsAnywhere(cmd: Command, items: seq<Item>, st: State, i: nat)
    requires Holds(cmd, items, st.(i := i, passthrough := []))
    ensures Holds(cmd, items, st.(passthrough := []))
  {
  }

  /** What parsing the items makes of them, of a command reached with `i` tokens consumed. */
  lemma {:induction false} ItemsRunHandler(cmd: Command, toks: seq<Kind>, i: nat, items: seq<Item>, passed: Option<seq<Kind>>, prefix: Text)
    requires NoPositionalFlags(cmd) && DistinctNames(cmd.args) && Readable(cmd, items, 0)
    requires passed.Some? ==> cmd.allowPassthrough
    requires Left(toks, i, LineFrom(items, passed))
    ensures RunsAsWritten(cmd, items, passed, prefix + cmd.name, Parse(cmd, toks, i, prefix).ran)
  {
    var st := Initial(cmd, i);
    var last := AfterAll(cmd, items, st);
    HoldsFirst(cmd, i);
    AllHold(cmd, [], items, items, st);
    EndsThere(cmd, toks, items, passed, st);
    PassingEnds(cmd, toks, i, passed, last, prefix);
    ItemsAreTaken(cmd, toks, i, items, passed, st, prefix, Finish(cmd, i, Ended(last, toks, passed), prefix));
    FinishAsWritten(cmd, toks, i, items, passed, last, prefix);
  }

  // ---------- the words in front ----------

  /** Each word enters a subcommand of the command before. */
  predicate Chained(chain: seq<Command>, words: seq<Text>) {
    |chain| == |words| + 1 && forall k :: 0 <= k < |words| ==> Enters(chain[k].subs, words[k], chain[k + 1])
  }

  function Ids(words: seq<Text>): (toks: seq<Kind>)
    ensures |toks| == |words|
  {
    if words == [] then [] else [Id(words[0])] + Ids(words[1..])
  }

  /** A whole command line: the subcommands, the items, and what is passed through. */
  function WholeLine(words: seq<Text>, items: seq<Item>, passed: Option<seq<Kind>>): seq<Kind> {
    Ids(words) + LineFrom(items, passed)
  }

  lemma {:induction false} WordDescends(cmd: Command, toks: seq<Kind>, i: nat, sub: Command, prefix: Text)
    requires NoPositionalFlags(cmd) && i < |toks| && toks[i].Id? && Enters(cmd.subs, toks[i].text, sub)
    ensures NoPositionalFlags(sub) && Parse(cmd, toks, i, prefix) == Parse(sub, toks, i + 1, prefix + cmd.name + [BLANK])
  {
    WordEntersExactly(cmd.subs, toks[i].text, sub);
    assert sub in cmd.subs;
    assert Step(cmd, toks, Initial(cmd, i)) == Descend(sub, Initial(cmd, i).(i := i + 1));
  }

  lemma {:induction false} FirstWordDescends(chain: seq<Command>, words: seq<Text>, toks: seq<Kind>, i: nat, rest: seq<Kind>, prefix: Text)
    requires words != [] && Chained(chain, words) && NoPositionalFlags(chain[0]) && Left(toks, i, Ids(words) + rest)
    ensures Chained(chain[1..], words[1..]) && NoPositionalFlags(chain[1]) && Left(toks, i + 1, Ids(words[1..]) + rest)
    ensures Parse(chain[0], toks, i, prefix) == Parse(chain[1], toks, i + 1, prefix + chain[0].name + [BLANK])
  {
    AppendAssoc([Id(words[0])], Ids(words[1..]), rest);
    LeftSplit(toks, i, [Id(words[0])], Ids(words[1..]) + rest);
    assert toks[i] == toks[i..][0];
    WordDescends(chain[0], toks, i, chain[1], prefix);
    assert forall k :: 0 <= k < |words[1..]| ==> words[1..][k] == words[k + 1];
  }

  /** Behind the words, the parse is that of the last command, with the names of the others in front of its path. */
  predicate Descends(chain: seq<Command>, words: seq<Text>, toks: seq<Kind>, i: nat, rest: seq<Kind>, prefix: Text, path: Text)
    requires |chain| == |words| + 1
  {
    && NoPositionalFlags(chain[0]) && NoPositionalFlags(chain[|words|]) && i <= |toks|
    && Left(toks, i + |words|, rest) && path + chain[|words|].name == prefix + PathOf(chain)
    && Parse(chain[0], toks, i, prefix) == Parse(chain[|words|], toks, i + |words|, path)
  }

  lemma {:induction false} DescendsFurther(chain: seq<Command>, words: seq<Text>, toks: seq<Kind>, i: nat, rest: seq<Kind>, prefix: Text, path: Text)
    requires words != [] && Chained(chain, words) && NoPositionalFlags(chain[0]) && Left(toks, i, Ids(words) + rest)
    requires Descends(chain[1..], words[1..], toks, i + 1, rest, prefix + chain[0].name + [BLANK], path)
    ensures Descends(chain, words, toks, i, rest, prefix, path)
  {
    FirstWordDescends(chain, words, toks, i, rest, prefix);
    assert path + chain[|words|].name == prefix + PathOf(chain) by {
      PathBelow(prefix, chain[0], chain[1..]);
      assert [chain[0]] + chain[1..] == chain;
    }
  }

  lemma {:induction false} WordsDescend(chain: seq<Command>, words: seq<Text>, toks: seq<Kind>, i: nat, rest: seq<Kind>, prefix: Text)
    returns (path: Text)
    requires Chained(chain, words) && NoPositionalFlags(chain[0]) && Left(toks, i, Ids(words) + rest)
    ensures Descends(chain, words, toks, i, rest, prefix, path)
    decreases |words|
  {
    if words == [] {
      assert Ids(words) + rest == rest;
      path := prefix;
    } else {
      FirstWordDescends(chain, words, toks, i, rest, prefix);
      path := WordsDescend(chain[1..], words[1..], toks, i + 1, rest, prefix + chain[0].name + [BLANK]);
      DescendsFurther(chain, words, toks, i, rest, prefix, path);
    }
  }

  /**
    * From what is written to what is called: words that lead down to a command, any items in any
    * order, and what is passed through. The handler of that command runs exactly when everything
    * required is given and nothing conflicts, and what it is called with is what was written.
    */
  lemma {:induction false} WrittenRunsHandler(chain: seq<Command>, words: seq<Text>, items: seq<Item>, passed: Option<seq<Kind>>)
    requires Chained(chain, words) && NoPositionalFlags(chain[0])
    requires var cmd := chain[|words|];
             DistinctNames(cmd.args) && Readable(cmd, items, 0) && (passed.Some? ==> cmd.allowPassthrough)
    ensures var cmd, r := chain[|words|], Parse(chain[0], WholeLine(words, items, passed), 0, []);
            && (r.ran.Some? <==> cmd.handler && Sufficient(cmd, items))
            && (r.ran.Some? ==>
                  && CalledAsWritten(cmd, items, r.ran.value.args)
                  && r.ran.value.path == PathOf(chain)
                  && r.ran.value.passthrough == if passed.Some? then AllPrinted(passed.value) else [])
  {
    var toks, rest := WholeLine(words, items, passed), LineFrom(items, passed);
    assert toks[0..] == toks;
    var path := WordsDescend(chain, words, toks, 0, rest, []);
    assert [] + PathOf(chain) == PathOf(chain);
    ItemsRunHandler(chain[|words|], toks, |words|, items, passed, path);
  }
}
