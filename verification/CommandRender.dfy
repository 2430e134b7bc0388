/** Command lines written from the values they are to give, and what parsing makes of them. */
module CommandRender {
  import opened Common
  import opened Lexer
  import opened CommandParser
  import opened CommandNames
  import opened CommandValues
  import opened TokenRuns

  // ---------- what is written ----------

  /** A piece of a command line, with the words it gives. */
  datatype Item =
    | Positional(words: seq<Word>)
    | Chosen(flag: Kind, arg: ArgumentDef, words: seq<Word>)
    | Letters(name: Text, args: seq<ArgumentDef>)
    | Undeclared(name: Text, words: seq<Word>)

  function ItemTokens(it: Item): (toks: seq<Kind>)
    ensures |toks| == if it.Letters? then 1 else if it.Positional? then |it.words| else 1 + |it.words|
  {
    match it
    case Positional(words) => WordTokens(words)
    case Chosen(flag, _, words) => [flag] + WordTokens(words)
    case Letters(name, _) => [FlagShort(name)]
    case Undeclared(name, words) => [FlagLong(name)] + WordTokens(words)
  }

  function Written(items: seq<Item>): seq<Kind> {
    if items == [] then [] else ItemTokens(items[0]) + Written(items[1..])
  }

  /** What follows the first `--`, if there is one. */
  function Passed(passed: Option<seq<Kind>>): seq<Kind> {
    if passed.None? then [] else [DoubleMinus] + passed.value
  }

  // ---------- what may be written ----------

  predicate Fits(words: seq<Word>, ty: ArgType) {
    match ty
    case Flag => words == [] || (|words| == 1 && IsTruth(words[0]))
    case Single => |words| == 1
    case Multiple => words != []
  }

  /** A bare word in a positional's place must neither be nor have to be a subcommand. */
  predicate NoCommand(cmd: Command, w: Word, pos: nat) {
    w.Bare? ==> Unknown(cmd.subs, w.text) && (cmd.subs == [] || pos > 0 || cmd.handler)
  }

  predicate Letter(cmd: Command, c: byte, a: ArgumentDef) {
    FirstNamed(cmd.args, FlagShort([c]), a) && !a.isHelp && a.ty == Flag
  }

  /** The item means what it says, `pos` positionals being filled. */
  predicate Legal(cmd: Command, it: Item, pos: nat) {
    match it
    case Positional(words) =>
      var ps := Positionals(cmd.args);
      pos < |ps| && ps[pos].ty != Flag && Fits(words, ps[pos].ty) && NoCommand(cmd, words[0], pos)
    case Chosen(flag, a, words) =>
      IsFlag(flag) && (flag.FlagShort? ==> |flag.name| <= 1) && FirstNamed(cmd.args, flag, a) && !a.isHelp && Fits(words, a.ty)
    case Letters(name, args) =>
      |name| > 1 && |args| == |name| && forall k :: 0 <= k < |name| ==> Letter(cmd, name[k], args[k])
    case Undeclared(name, words) =>
      && cmd.dynamicKeywords.Some? && cmd.dynamicKeywords.value != Flag && Fits(words, cmd.dynamicKeywords.value)
      && forall a :: a in cmd.args ==> !IsNamed(a, FlagLong(name))
  }

  /** A word behind the item would be taken for one of its values. */
  predicate TakesMore(cmd: Command, it: Item, pos: nat)
    requires Legal(cmd, it, pos)
  {
    match it
    case Positional(_) => Positionals(cmd.args)[pos].ty == Multiple
    case Chosen(_, a, words) => a.ty == Multiple || (a.ty == Flag && words == [])
    case Letters(_, _) => false
    case Undeclared(_, _) => cmd.dynamicKeywords.value == Multiple
  }

  predicate Readable(cmd: Command, items: seq<Item>, pos: nat) {
    items != [] ==>
      && Legal(cmd, items[0], pos)
      && (TakesMore(cmd, items[0], pos) && |items| > 1 ==> !items[1].Positional?)
      && Readable(cmd, items[1..], if items[0].Positional? then pos + 1 else pos)
  }

  // ---------- what it means ----------

  /** The names of the options that are given. */
  function Named(items: seq<Item>): set<Text> {
    set it, a | it in items && a in ArgsOf(it) :: a.name
  }

  function ArgsOf(it: Item): seq<ArgumentDef> {
    match it
    case Chosen(_, a, _) => [a]
    case Letters(_, args) => args
    case _ => []
  }

  /** What an option holds: flags and single values what was said last, multiple values all that was said. */
  function Held(items: seq<Item>, a: ArgumentDef): ArgValue {
    if items == [] then a.default
    else
      var last, before := items[|items| - 1], Held(items[..|items| - 1], a);
      if last.Letters? && a in last.args then VBool(true)
      else if last.Chosen? && last.arg == a && Fits(last.words, a.ty) then
        match a.ty
        case Flag => VBool(last.words == [] || Truthful(last.words[0]))
        case Single => OneValue(last.words[0], a.coerce)
        case Multiple => VStrs((if before.VStrs? then before.ss else []) + Texts(last.words))
      else before
  }

  /** The words of the positionals, one after the other. */
  function Filled(items: seq<Item>): seq<seq<Word>> {
    if items == [] then []
    else
      var last, before := items[|items| - 1], Filled(items[..|items| - 1]);
      if last.Positional? then before + [last.words] else before
  }

  function PositionalHeld(filled: seq<seq<Word>>, p: ArgumentDef, k: nat): ArgValue {
    if k >= |filled| || !Fits(filled[k], p.ty) then p.default
    else
      match p.ty
      case Flag => p.default
      case Single => OneValue(filled[k][0], p.coerce)
      case Multiple => VStrs(Texts(filled[k]))
  }

  function UndeclaredNames(items: seq<Item>): set<Text> {
    set it | it in items && it.Undeclared? :: it.name
  }

  /** What an undeclared option holds: what was said last. */
  function UndeclaredHeld(items: seq<Item>, name: Text, ty: ArgType): ArgValue {
    if items == [] then VNone
    else
      var last := items[|items| - 1];
      if last.Undeclared? && last.name == name && last.words != [] then
        if ty == Single then OneValue(last.words[0], false) else VStrs(Texts(last.words))
      else UndeclaredHeld(items[..|items| - 1], name, ty)
  }

  predicate OptionsHold(cmd: Command, items: seq<Item>, values: map<Text, ArgValue>) {
    forall a :: a in cmd.args && !a.isHelp && !a.positional ==> a.name in values && values[a.name] == Held(items, a)
  }

  predicate PositionalsHold(cmd: Command, filled: seq<seq<Word>>, values: map<Text, ArgValue>) {
    var ps := Positionals(cmd.args);
    forall k :: 0 <= k < |ps| ==> ps[k].name in values && values[ps[k].name] == PositionalHeld(filled, ps[k], k)
  }

  predicate UndeclaredHold(cmd: Command, items: seq<Item>, dynamics: map<Text, ArgValue>) {
    && dynamics.Keys == UndeclaredNames(items)
    && forall n :: n in dynamics ==>
         cmd.dynamicKeywords.Some? && dynamics[n] == UndeclaredHeld(items, n, cmd.dynamicKeywords.value)
  }

  function Declared(args: seq<ArgumentDef>): set<Text> { set a | a in args && !a.isHelp :: a.name }

  /** The state behind the items: nothing but what they give. */
  predicate Holds(cmd: Command, items: seq<Item>, st: State) {
    && st.seen == Named(items) && st.pos == |Filled(items)| && st.passthrough == []
    && st.values.Keys == Declared(cmd.args)
    && OptionsHold(cmd, items, st.values) && PositionalsHold(cmd, Filled(items), st.values)
    && UndeclaredHold(cmd, items, st.dynamics)
  }

  // ---------- one item is one turn ----------

  function SetAll(args: seq<ArgumentDef>, values: map<Text, ArgValue>): map<Text, ArgValue> {
    if args == [] then values else SetAll(args[1..], values[args[0].name := VBool(true)])
  }

  function NamesOfAll(args: seq<ArgumentDef>): set<Text> { set a | a in args :: a.name }

  function GivenValue(a: ArgumentDef, words: seq<Word>, values: map<Text, ArgValue>): ArgValue
    requires Fits(words, a.ty)
  {
    match a.ty
    case Flag => VBool(words == [] || Truthful(words[0]))
    case Single => OneValue(words[0], a.coerce)
    case Multiple => VStrs(GivenSoFar(values, a.name) + Texts(words))
  }

  function UndeclaredValue(words: seq<Word>, ty: ArgType): ArgValue
    requires words != []
  {
    if ty == Single then OneValue(words[0], false) else VStrs(Texts(words))
  }

  function After(cmd: Command, it: Item, st: State): State
    requires Legal(cmd, it, st.pos)
  {
    var next := st.(i := st.i + |ItemTokens(it)|);
    match it
    case Positional(words) =>
      var p := Positionals(cmd.args)[st.pos];
      next.(pos := st.pos + 1,
            values := st.values[p.name := if p.ty == Single then OneValue(words[0], p.coerce) else VStrs(Texts(words))])
    case Chosen(_, a, words) => next.(seen := st.seen + {a.name}, values := st.values[a.name := GivenValue(a, words, st.values)])
    case Letters(_, args) => next.(seen := st.seen + NamesOfAll(args), values := SetAll(args, st.values))
    case Undeclared(name, words) =>
      next.(dynamics := st.dynamics[name := UndeclaredValue(words, cmd.dynamicKeywords.value)])
  }

  lemma {:induction false} LettersAreTaken(cmd: Command, name: Text, args: seq<ArgumentDef>, st: State)
    requires |args| == |name| && forall k :: 0 <= k < |name| ==> Letter(cmd, name[k], args[k])
    ensures Combined(cmd, name, st) == Continue(st.(seen := st.seen + NamesOfAll(args), values := SetAll(args, st.values)))
    decreases |name|
  {
    if name == [] {
      assert st.seen + NamesOfAll(args) == st.seen;
    } else {
      var a := args[0];
      assert Letter(cmd, name[0], a);
      FlagLeadsExactly(cmd.args, FlagShort([name[0]]), a);
      var next := st.(seen := st.seen + {a.name}, values := st.values[a.name := VBool(true)]);
      assert forall k :: 0 <= k < |name[1..]| ==> name[1..][k] == name[k + 1] && args[1..][k] == args[k + 1];
      LettersAreTaken(cmd, name[1..], args[1..], next);
      assert NamesOfAll(args) == {a.name} + NamesOfAll(args[1..]) by {
        assert forall b :: b in args <==> b == a || b in args[1..];
      }
      assert st.seen + {a.name} + NamesOfAll(args[1..]) == st.seen + NamesOfAll(args);
    }
  }

  lemma {:induction false} FlagIsTaken(toks: seq<Kind>, a: ArgumentDef, words: seq<Word>, st: State)
    requires a.ty == Flag && Fits(words, Flag) && StandsAt(toks, st.i, WordTokens(words))
    requires words == [] ==> NoWordAt(toks, st.i)
    ensures OptionValue(a, toks, st) ==
            Continue(st.(i := st.i + |words|, values := st.values[a.name := VBool(words == [] || Truthful(words[0]))]))
  {
    if words != [] {
      FirstWord(toks, st.i, words);
      WordAsValue(words[0], Flag, false);
    }
  }

  lemma {:induction false} SingleIsTaken(toks: seq<Kind>, a: ArgumentDef, w: Word, st: State)
    requires a.ty == Single && st.i < |toks| && toks[st.i] == WordToken(w)
    ensures OptionValue(a, toks, st) == Continue(st.(i := st.i + 1, values := st.values[a.name := OneValue(w, a.coerce)]))
  {
    WordAsValue(w, Single, a.coerce);
  }

  lemma {:induction false} MultipleIsTaken(toks: seq<Kind>, a: ArgumentDef, words: seq<Word>, st: State)
    requires a.ty == Multiple && words != [] && StandsAt(toks, st.i, WordTokens(words)) && NoWordAt(toks, st.i + |words|)
    ensures OptionValue(a, toks, st) ==
            Continue(st.(i := st.i + |words|, values := st.values[a.name := VStrs(GivenSoFar(st.values, a.name) + Texts(words))]))
  {
    FirstWord(toks, st.i, words);
    WordAsValue(words[0], Multiple, a.coerce);
    RestOfWords(toks, st.i, words);
    MultipleIs(toks, a, st, AsText(words[0]), st.i + |words|, Texts(words));
  }

  /** What the loop over the values of an option makes of a first value and those up to `j`. */
  lemma {:induction false} MultipleIs(toks: seq<Kind>, a: ArgumentDef, st: State, first: Text, j: nat, texts: seq<Text>)
    requires a.ty == Multiple && st.i < |toks| && !IsFlag(toks[st.i]) && TokenValue(toks[st.i], Multiple, a.coerce) == VStr(first)
    requires StringsEnd(toks, st.i + 1) == j
    requires GivenSoFar(st.values, a.name) + [first] + StringsOf(toks[st.i + 1..j]) == GivenSoFar(st.values, a.name) + texts
    ensures OptionValue(a, toks, st) ==
            Continue(st.(i := j, values := st.values[a.name := VStrs(GivenSoFar(st.values, a.name) + texts)]))
  {
  }

  lemma {:induction false} OptionValueIsTaken(toks: seq<Kind>, a: ArgumentDef, words: seq<Word>, st: State)
    requires Fits(words, a.ty) && StandsAt(toks, st.i, WordTokens(words))
    requires a.ty == Multiple || (a.ty == Flag && words == []) ==> NoWordAt(toks, st.i + |words|)
    ensures OptionValue(a, toks, st) ==
            Continue(st.(i := st.i + |words|, values := st.values[a.name := GivenValue(a, words, st.values)]))
  {
    match a.ty
    case Flag => FlagIsTaken(toks, a, words, st);
    case Single =>
      FirstWord(toks, st.i, words);
      SingleIsTaken(toks, a, words[0], st);
    case Multiple => MultipleIsTaken(toks, a, words, st);
  }

  lemma {:induction false} UndeclaredIsTaken(ty: ArgType, toks: seq<Kind>, name: Text, words: seq<Word>, st: State)
    requires ty != Flag && Fits(words, ty) && StandsAt(toks, st.i, WordTokens(words))
    requires ty == Multiple ==> NoWordAt(toks, st.i + |words|)
    ensures Dynamic(ty, toks, name, st) ==
            Continue(st.(i := st.i + |words|, dynamics := st.dynamics[name := UndeclaredValue(words, ty)]))
  {
    FirstWord(toks, st.i, words);
    if ty == Single {
      WordAsValue(words[0], Single, false);
    } else {
      WordsAreTaken(toks, st.i, words);
    }
  }

  lemma {:induction false} PositionalIsTaken(cmd: Command, toks: seq<Kind>, words: seq<Word>, st: State)
    requires Legal(cmd, Positional(words), st.pos) && StandsAt(toks, st.i, WordTokens(words))
    requires Positionals(cmd.args)[st.pos].ty == Multiple ==> NoWordAt(toks, st.i + |words|)
    ensures st.i < |toks| && PositionalStep(cmd, toks, st) == Continue(After(cmd, Positional(words), st))
  {
    var p := Positionals(cmd.args)[st.pos];
    FirstWord(toks, st.i, words);
    WordAsValue(words[0], p.ty, p.coerce);
    if p.ty == Multiple {
      RestOfWords(toks, st.i, words);
      assert [] + [AsText(words[0])] == [AsText(words[0])];
      assert [] + Texts(words) == Texts(words);
    }
  }

  /** The item stands at the turn's token, and no word behind it that it would take. */
  predicate ComesNext(cmd: Command, toks: seq<Kind>, it: Item, st: State) {
    && Legal(cmd, it, st.pos) && StandsAt(toks, st.i, ItemTokens(it))
    && (TakesMore(cmd, it, st.pos) ==> NoWordAt(toks, st.i + |ItemTokens(it)|))
  }

  lemma {:induction false} ChosenIsTaken(cmd: Command, toks: seq<Kind>, flag: Kind, a: ArgumentDef, words: seq<Word>, st: State)
    requires IsFlag(flag) && FirstNamed(cmd.args, flag, a) && !a.isHelp && Fits(words, a.ty)
    requires st.i < |toks| && StandsAt(toks, st.i + 1, WordTokens(words))
    requires a.ty == Multiple || (a.ty == Flag && words == []) ==> NoWordAt(toks, st.i + 1 + |words|)
    ensures KeywordStep(cmd, toks, flag.name, flag.FlagShort?, st) ==
            Continue(st.(i := st.i + 1 + |words|, seen := st.seen + {a.name},
                         values := st.values[a.name := GivenValue(a, words, st.values)]))
  {
    FlagLeadsExactly(cmd.args, flag, a);
    OptionValueIsTaken(toks, a, words, st.(i := st.i + 1, seen := st.seen + {a.name}));
  }

  lemma {:induction false} UndeclaredTurn(cmd: Command, toks: seq<Kind>, name: Text, words: seq<Word>, st: State)
    requires cmd.dynamicKeywords.Some? && cmd.dynamicKeywords.value != Flag && Fits(words, cmd.dynamicKeywords.value)
    requires forall a :: a in cmd.args ==> !IsNamed(a, FlagLong(name))
    requires st.i < |toks| && StandsAt(toks, st.i + 1, WordTokens(words))
    requires cmd.dynamicKeywords.value == Multiple ==> NoWordAt(toks, st.i + 1 + |words|)
    ensures KeywordStep(cmd, toks, name, false, st) ==
            Continue(st.(i := st.i + 1 + |words|,
                         dynamics := st.dynamics[name := UndeclaredValue(words, cmd.dynamicKeywords.value)]))
  {
    FlagLeadsExactly(cmd.args, FlagLong(name), ArgumentDef(name, [], Flag, true, true, false, VNone, false, []));
    UndeclaredIsTaken(cmd.dynamicKeywords.value, toks, name, words, st.(i := st.i + 1));
  }

  lemma {:induction false} LettersTurn(cmd: Command, toks: seq<Kind>, name: Text, args: seq<ArgumentDef>, st: State)
    requires ComesNext(cmd, toks, Letters(name, args), st)
    ensures st.i < |toks| && Step(cmd, toks, st) == Continue(After(cmd, Letters(name, args), st))
  {
    StandsHead(toks, st.i, FlagShort(name), []);
    CombinedTurn(cmd, toks, name, st);
    LettersAreTaken(cmd, name, args, st.(i := st.i + 1));
  }

  lemma {:induction false} ChosenTurn(cmd: Command, toks: seq<Kind>, flag: Kind, a: ArgumentDef, words: seq<Word>, st: State)
    requires ComesNext(cmd, toks, Chosen(flag, a, words), st)
    ensures st.i < |toks| && Step(cmd, toks, st) == Continue(After(cmd, Chosen(flag, a, words), st))
  {
    StandsHead(toks, st.i, flag, WordTokens(words));
    ChosenIsTaken(cmd, toks, flag, a, words, st);
    FlagTurn(cmd, toks, flag, st);
  }

  lemma {:induction false} UndeclaredItemTurn(cmd: Command, toks: seq<Kind>, name: Text, words: seq<Word>, st: State)
    requires ComesNext(cmd, toks, Undeclared(name, words), st)
    ensures st.i < |toks| && Step(cmd, toks, st) == Continue(After(cmd, Undeclared(name, words), st))
  {
    StandsHead(toks, st.i, FlagLong(name), WordTokens(words));
    UndeclaredTurn(cmd, toks, name, words, st);
    FlagTurn(cmd, toks, FlagLong(name), st);
  }

  lemma {:induction false} WordTurn(cmd: Command, toks: seq<Kind>, w: Word, st: State)
    requires st.i < |toks| && toks[st.i] == WordToken(w) && NoCommand(cmd, w, st.pos)
    ensures Step(cmd, toks, st) == PositionalStep(cmd, toks, st)
  {
    if w.Bare? {
      WordEntersExactly(cmd.subs, w.text, cmd);
    }
  }

  lemma {:induction false} PositionalTurn(cmd: Command, toks: seq<Kind>, words: seq<Word>, st: State)
    requires ComesNext(cmd, toks, Positional(words), st)
    ensures st.i < |toks| && Step(cmd, toks, st) == Continue(After(cmd, Positional(words), st))
  {
    PositionalIsTaken(cmd, toks, words, st);
    FirstWord(toks, st.i, words);
    WordTurn(cmd, toks, words[0], st);
  }

  /** Each item, of any kind, is one turn of the loop. */
  lemma {:induction false} ItemIsTaken(cmd: Command, toks: seq<Kind>, it: Item, st: State)
    requires ComesNext(cmd, toks, it, st)
    ensures st.i < |toks| && Step(cmd, toks, st) == Continue(After(cmd, it, st))
  {
    match it
    case Positional(words) => PositionalTurn(cmd, toks, words, st);
    case Chosen(flag, a, words) => ChosenTurn(cmd, toks, flag, a, words, st);
    case Letters(name, args) => LettersTurn(cmd, toks, name, args, st);
    case Undeclared(name, words) => UndeclaredItemTurn(cmd, toks, name, words, st);
  }
}
