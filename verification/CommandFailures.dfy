/** When a turn of the parser ends the parse, and with which failure; when the final checks fail. */
module CommandFailures {
  import opened Common
  import opened Lexer
  import opened CommandParser
  import opened CommandNames
  import opened CommandProofs

  // ---------- turns that fail ----------

  /** The tokens no argument takes for a value. */
  predicate NoValue(k: Kind) { k.Eof? || k.Minus? || k.DoubleMinus? || IsFlag(k) }

  predicate NamesNone(cmd: Command, flag: Kind)
    requires IsFlag(flag)
  {
    forall a :: a in cmd.args ==> !IsNamed(a, flag)
  }

  predicate LetterGoesOn(cmd: Command, c: byte) {
    exists a :: a in cmd.args && FirstNamed(cmd.args, FlagShort([c]), a) && !a.isHelp && a.ty == Flag
  }

  /** The letter at `k` is the first that does not go on, and this is why. */
  predicate LetterStops(cmd: Command, name: Text, k: nat, status: Status)
    requires k < |name|
  {
    && (forall j :: 0 <= j < k ==> LetterGoesOn(cmd, name[j]))
    && if NamesNone(cmd, FlagShort([name[k]])) then status == ParseError(UnknownCombined(name[k]))
       else exists a :: a in cmd.args && FirstNamed(cmd.args, FlagShort([name[k]]), a) &&
                        if a.isHelp then status == HelpRequested
                        else a.ty != Flag && status == ParseError(CombinedNeedsValue(name[k]))
  }

  /** A value is wanted behind the flag at `i`: there is none, or what is there is none. */
  predicate ValueMissing(toks: seq<Kind>, i: nat, name: Text, status: Status) {
    if i + 1 >= |toks| || IsFlag(toks[i + 1]) then status == ParseError(NeedsValue(name))
    else NoValue(toks[i + 1]) && status == ParseError(InvalidValue(name))
  }

  predicate OptionStops(cmd: Command, toks: seq<Kind>, i: nat, status: Status)
    requires i < |toks| && IsFlag(toks[i])
  {
    if NamesNone(cmd, toks[i]) then
      if toks[i].FlagShort? || cmd.dynamicKeywords.None? then status == ParseError(UnknownOption(toks[i].name))
      else if cmd.dynamicKeywords.value == Flag then status == ParseError(InternalError)
      else ValueMissing(toks, i, toks[i].name, status)
    else
      exists a :: a in cmd.args && FirstNamed(cmd.args, toks[i], a) &&
                  if a.isHelp then status == HelpRequested else a.ty != Flag && ValueMissing(toks, i, a.name, status)
  }

  predicate PositionalStops(cmd: Command, k: Kind, pos: nat, status: Status) {
    var ps := Positionals(cmd.args);
    if pos >= |ps| then status == ParseError(UnexpectedArgument(k))
    else NoValue(k) && status == ParseError(InvalidPositional(ps[pos].name))
  }

  predicate WordStops(cmd: Command, word: Text, pos: nat, status: Status) {
    if Unknown(cmd.subs, word) then
      if cmd.subs != [] && pos == 0 && !cmd.handler then status == ParseError(UnknownCommand(word))
      else PositionalStops(cmd, Id(word), pos, status)
    else (forall c :: c in cmd.subs ==> !Enters(cmd.subs, word, c)) && status == ParseError(AmbiguousAlias(word))
  }

  predicate TurnStops(cmd: Command, toks: seq<Kind>, st: State, status: Status)
    requires st.i < |toks|
  {
    match toks[st.i]
    case DoubleMinus => !cmd.allowPassthrough && status == ParseError(UnexpectedDelimiter)
    case FlagShort(name) =>
      if |name| > 1 then exists k :: 0 <= k < |name| && LetterStops(cmd, name, k, status)
      else OptionStops(cmd, toks, st.i, status)
    case FlagLong(_) => OptionStops(cmd, toks, st.i, status)
    case Id(word) => WordStops(cmd, word, st.pos, status)
    case k => PositionalStops(cmd, k, st.pos, status)
  }

  predicate StopsWith(n: Next, status: Status) { n.Stop? && n.status == status }

  lemma {:induction false} NoValueExactly(k: Kind, ty: ArgType, coerce: bool)
    requires ty != Flag && !IsFlag(k)
    ensures TokenValue(k, ty, coerce) == VNone <==> NoValue(k)
    ensures ty == Multiple && !NoValue(k) ==> TokenValue(k, ty, coerce).VStr?
  {
  }

  lemma {:induction false} LookedUp(cmd: Command, flag: Kind)
    requires IsFlag(flag)
    ensures var a := FindKeyword(cmd.args, flag.name, flag.FlagShort?);
            && (a.None? <==> NamesNone(cmd, flag))
            && (a.Some? ==> FirstNamed(cmd.args, flag, a.value) && !NamesNone(cmd, flag)
                            && forall b :: FirstNamed(cmd.args, flag, b) ==> b == a.value)
  {
    var a := FindKeyword(cmd.args, flag.name, flag.FlagShort?);
    var none := ArgumentDef([], [], Flag, true, true, false, VNone, false, []);
    FlagLeadsExactly(cmd.args, flag, if a.Some? then a.value else none);
    forall b | FirstNamed(cmd.args, flag, b)
      ensures a == Some(b)
    {
      FlagLeadsExactly(cmd.args, flag, b);
    }
  }

  // ---------- combined letters ----------

  lemma {:induction false} FirstLetter(cmd: Command, c: byte)
    ensures var a := FindKeyword(cmd.args, [c], true);
            LetterGoesOn(cmd, c) <==> a.Some? && !a.value.isHelp && a.value.ty == Flag
  {
    LookedUp(cmd, FlagShort([c]));
    FlagLeads(cmd, c);
  }

  lemma {:induction false} FlagLeads(cmd: Command, c: byte)
    ensures FindKeyword(cmd.args, FlagShort([c]).name, true) == FindKeyword(cmd.args, [c], true)
  {
  }

  lemma {:induction false} LetterHere(cmd: Command, name: Text, status: Status)
    requires name != []
    ensures var a := FindKeyword(cmd.args, [name[0]], true);
            LetterStops(cmd, name, 0, status) <==>
            if a.None? then status == ParseError(UnknownCombined(name[0]))
            else if a.value.isHelp then status == HelpRequested
            else a.value.ty != Flag && status == ParseError(CombinedNeedsValue(name[0]))
  {
    LookedUp(cmd, FlagShort([name[0]]));
  }

  lemma {:induction false} LetterLater(cmd: Command, name: Text, k: nat, status: Status)
    requires name != [] && k < |name| - 1
    ensures LetterStops(cmd, name, k + 1, status) <==> LetterGoesOn(cmd, name[0]) && LetterStops(cmd, name[1..], k, status)
  {
    assert name[1..][k] == name[k + 1];
    if LetterGoesOn(cmd, name[0]) && LetterStops(cmd, name[1..], k, status) {
      forall j | 0 <= j < k + 1
        ensures LetterGoesOn(cmd, name[j])
      {
        if j > 0 {
          assert name[1..][j - 1] == name[j];
        }
      }
    }
    if LetterStops(cmd, name, k + 1, status) {
      assert LetterGoesOn(cmd, name[0]);
      assert forall j :: 0 <= j < k ==> name[1..][j] == name[j + 1];
    }
  }

  lemma {:induction false} LettersStopExactly(cmd: Command, name: Text, st: State, status: Status)
    ensures StopsWith(Combined(cmd, name, st), status) <==> exists k :: 0 <= k < |name| && LetterStops(cmd, name, k, status)
    decreases |name|
  {
    if name != [] {
      var a := FindKeyword(cmd.args, [name[0]], true);
      FirstLetter(cmd, name[0]);
      LetterHere(cmd, name, status);
      if LetterGoesOn(cmd, name[0]) {
        LettersStopExactly(cmd, name[1..],
                           st.(seen := st.seen + {a.value.name}, values := st.values[a.value.name := VBool(true)]), status);
        LettersShift(cmd, name, status);
      } else {
        LettersEnd(cmd, name, status);
      }
    }
  }

  lemma {:induction false} LettersShift(cmd: Command, name: Text, status: Status)
    requires name != [] && LetterGoesOn(cmd, name[0]) && !LetterStops(cmd, name, 0, status)
    ensures (exists k :: 0 <= k < |name| && LetterStops(cmd, name, k, status)) <==>
            exists k :: 0 <= k < |name[1..]| && LetterStops(cmd, name[1..], k, status)
  {
    forall k | 0 <= k < |name| - 1
      ensures LetterStops(cmd, name, k + 1, status) <==> LetterStops(cmd, name[1..], k, status)
    {
      LetterLater(cmd, name, k, status);
    }
    if exists k :: 0 <= k < |name| && LetterStops(cmd, name, k, status) {
      var k :| 0 <= k < |name| && LetterStops(cmd, name, k, status);
      assert LetterStops(cmd, name[1..], k - 1, status);
    }
  }

  lemma {:induction false} LettersEnd(cmd: Command, name: Text, status: Status)
    requires name != [] && !LetterGoesOn(cmd, name[0])
    ensures (exists k :: 0 <= k < |name| && LetterStops(cmd, name, k, status)) <==> LetterStops(cmd, name, 0, status)
  {
    forall k | 0 < k < |name|
      ensures !LetterStops(cmd, name, k, status)
    {
      assert !LetterGoesOn(cmd, name[0]);
    }
  }

  // ---------- options, words and positionals ----------

  lemma {:induction false} OptionStopsExactly(cmd: Command, toks: seq<Kind>, st: State, status: Status)
    requires st.i < |toks| && IsFlag(toks[st.i])
    ensures var k := toks[st.i];
            StopsWith(KeywordStep(cmd, toks, k.name, k.FlagShort?, st), status) <==> OptionStops(cmd, toks, st.i, status)
  {
    var k := toks[st.i];
    var a := FindKeyword(cmd.args, k.name, k.FlagShort?);
    LookedUp(cmd, k);
    if a.Some? {
      DeclaredStops(a.value, toks, st.(i := st.i + 1, seen := st.seen + {a.value.name}), status);
    } else if cmd.dynamicKeywords.Some? {
      UndeclaredStops(cmd.dynamicKeywords.value, toks, k.name, st.(i := st.i + 1), status);
    }
  }

  lemma {:induction false} DeclaredStops(a: ArgumentDef, toks: seq<Kind>, st: State, status: Status)
    requires 0 < st.i <= |toks|
    ensures StopsWith(OptionValue(a, toks, st), status) <==> a.ty != Flag && ValueMissing(toks, st.i - 1, a.name, status)
  {
    if a.ty != Flag && st.i < |toks| && !IsFlag(toks[st.i]) {
      NoValueExactly(toks[st.i], a.ty, a.coerce);
    }
  }

  lemma {:induction false} UndeclaredStops(ty: ArgType, toks: seq<Kind>, name: Text, st: State, status: Status)
    requires 0 < st.i <= |toks|
    ensures StopsWith(Dynamic(ty, toks, name, st), status) <==>
            if ty == Flag then status == ParseError(InternalError) else ValueMissing(toks, st.i - 1, name, status)
  {
    if ty != Flag && st.i < |toks| && !IsFlag(toks[st.i]) {
      NoValueExactly(toks[st.i], ty, false);
    }
  }

  lemma {:induction false} PositionalStopsExactly(cmd: Command, toks: seq<Kind>, st: State, status: Status)
    requires st.i < |toks| && !IsFlag(toks[st.i]) && NoPositionalFlags(cmd)
    ensures StopsWith(PositionalStep(cmd, toks, st), status) <==> PositionalStops(cmd, toks[st.i], st.pos, status)
  {
    var ps := Positionals(cmd.args);
    PositionalsAre(cmd.args);
    if st.pos < |ps| {
      assert ps[st.pos] in ps;
      NoValueExactly(toks[st.i], ps[st.pos].ty, ps[st.pos].coerce);
    }
  }

  lemma {:induction false} WordStopsExactly(cmd: Command, toks: seq<Kind>, st: State, status: Status)
    requires st.i < |toks| && toks[st.i].Id? && NoPositionalFlags(cmd)
    ensures StopsWith(WordStep(cmd, toks, toks[st.i].text, st), status) <==> WordStops(cmd, toks[st.i].text, st.pos, status)
  {
    var word := toks[st.i].text;
    var found := FindSub(cmd.subs, word);
    PositionalStopsExactly(cmd, toks, st, status);
    WordEntersExactly(cmd.subs, word, if found.Found? then found.sub else cmd);
    forall c
      ensures found == Found(c) <==> Enters(cmd.subs, word, c)
    {
      WordEntersExactly(cmd.subs, word, c);
    }
  }

  /**
    * When a turn ends the parse, with which failure or with help, for every command, token and state:
    * exactly in these cases. All other turns go on.
    */
  lemma {:induction false} TurnStopsExactly(cmd: Command, toks: seq<Kind>, st: State, status: Status)
    requires st.i < |toks| && NoPositionalFlags(cmd)
    ensures Step(cmd, toks, st).Stop? && Step(cmd, toks, st).status == status <==> TurnStops(cmd, toks, st, status)
  {
    if IsFlag(toks[st.i]) {
      FlagStopsExactly(cmd, toks, st, status);
    } else if toks[st.i].Id? {
      WordStopsExactly(cmd, toks, st, status);
    } else if !toks[st.i].DoubleMinus? {
      PositionalStopsExactly(cmd, toks, st, status);
    }
  }

  lemma {:induction false} FlagStopsExactly(cmd: Command, toks: seq<Kind>, st: State, status: Status)
    requires st.i < |toks| && IsFlag(toks[st.i])
    ensures StopsWith(Step(cmd, toks, st), status) <==> TurnStops(cmd, toks, st, status)
  {
    var k := toks[st.i];
    if k.FlagShort? && |k.name| > 1 {
      LettersStopExactly(cmd, k.name, st.(i := st.i + 1), status);
      CombinedTurn(cmd, toks, k.name, st);
    } else {
      OptionStopsExactly(cmd, toks, st, status);
      FlagTurn(cmd, toks, k, st);
    }
  }

  // ---------- the final checks ----------

  predicate Unseen(a: ArgumentDef, seen: set<Text>) { a.required && !a.positional && !a.isHelp && a.name !in seen }

  /** The first required option that was not seen. */
  predicate FirstUnseen(args: seq<ArgumentDef>, seen: set<Text>, a: ArgumentDef) {
    exists k :: 0 <= k < |args| && args[k] == a && Unseen(a, seen) && forall j :: 0 <= j < k ==> !Unseen(args[j], seen)
  }

  predicate Clash(args: seq<ArgumentDef>, seen: set<Text>, p: set<Text>) {
    exists a, c :: a in args && c in a.conflicts && a.name in seen && c in seen && c != a.name && p == {a.name, c}
  }

  lemma {:induction false} MissingExactly(args: seq<ArgumentDef>, seen: set<Text>)
    ensures var r := FirstMissing(args, seen);
            && (r.Some? ==> FirstUnseen(args, seen, r.value))
            && (r.None? <==> forall a :: a in args ==> !Unseen(a, seen))
  {
    if args != [] {
      MissingExactly(args[1..], seen);
      var r := FirstMissing(args, seen);
      assert forall a :: a in args <==> a == args[0] || a in args[1..];
      if Unseen(args[0], seen) {
        assert args[0] == args[0];
      } else if r.Some? {
        var k :| 0 <= k < |args[1..]| && args[1..][k] == r.value && forall j :: 0 <= j < k ==> !Unseen(args[1..][j], seen);
        assert args[k + 1] == r.value;
        assert forall j :: 0 < j < k + 1 ==> args[j] == args[1..][j - 1];
      }
    }
  }

  lemma {:induction false} ClashesExactly(args: seq<ArgumentDef>, seen: set<Text>)
    ensures forall p :: p in ConflictPairs(args, seen) <==> Clash(args, seen, p)
  {
    if args != [] {
      ClashesExactly(args[1..], seen);
      forall p
        ensures p in ConflictPairs(args, seen) <==> Clash(args, seen, p)
      {
        assert forall a :: a in args <==> a == args[0] || a in args[1..];
        assert Clash(args, seen, p) <==> p in PairsOf(args[0], seen) || Clash(args[1..], seen, p);
      }
    }
  }

  predicate FirstRequired(ps: seq<ArgumentDef>, pos: nat, p: ArgumentDef) {
    exists k :: pos <= k < |ps| && ps[k] == p && p.required && forall j :: pos <= j < k ==> !ps[j].required
  }

  lemma {:induction false} RequiredExactly(ps: seq<ArgumentDef>, pos: nat, values: map<Text, ArgValue>)
    requires pos <= |ps|
    ensures var r := FillPositionals(ps[pos..], values).1;
            && (r.Some? ==> FirstRequired(ps, pos, r.value))
            && (r.None? <==> forall k :: pos <= k < |ps| ==> !ps[k].required)
    decreases |ps| - pos
  {
    if pos < |ps| {
      assert ps[pos..][1..] == ps[pos + 1..] && ps[pos..][0] == ps[pos];
      RequiredExactly(ps, pos + 1, values[ps[pos].name := ps[pos].default]);
      if ps[pos].required {
        assert FirstRequired(ps, pos, ps[pos]);
      }
    }
  }

  /**
    * The checks behind the loop, in their order: the first required option that is missing, then the
    * first required positional, then all pairs of conflicting options at once; and success or help if
    * nothing is wrong.
    */
  ghost predicate ChecksSay(cmd: Command, st: State, status: Status) {
    var ps := Positionals(cmd.args);
    if exists a :: a in cmd.args && Unseen(a, st.seen) then
      exists a :: FirstUnseen(cmd.args, st.seen, a) && status == ParseError(MissingOption(a.name))
    else if exists k :: st.pos <= k < |ps| && ps[k].required then
      exists p :: FirstRequired(ps, st.pos, p) && status == ParseError(MissingPositional(p.name))
    else if exists a, c :: a in cmd.args && c in a.conflicts && a.name in st.seen && c in st.seen && c != a.name then
      status.ParseError? && status.failure.Conflicting? && forall p :: p in status.failure.pairs <==> Clash(cmd.args, st.seen, p)
    else status == if cmd.handler || cmd.subs == [] then Success else HelpRequested
  }

  lemma {:induction false} FinishSays(cmd: Command, start: nat, st: State, prefix: Text)
    ensures ChecksSay(cmd, st, Finish(cmd, start, st, prefix).status)
  {
    var ps := Positionals(cmd.args);
    MissingExactly(cmd.args, st.seen);
    ClashesExactly(cmd.args, st.seen);
    if st.pos <= |ps| {
      RequiredExactly(ps, st.pos, st.values);
    }
    if c :| c in ConflictPairs(cmd.args, st.seen) {
      assert Clash(cmd.args, st.seen, c);
    }
    if a, c :| a in cmd.args && c in a.conflicts && a.name in st.seen && c in st.seen && c != a.name {
      assert Clash(cmd.args, st.seen, {a.name, c});
    }
  }

  // ---------- the end of a parse ----------

  /** The loop ends at `st`: a turn stops it, or the tokens or the delimiter lead to the final checks. */
  ghost predicate EndsAt(cmd: Command, toks: seq<Kind>, st: State, status: Status) {
    if st.i < |toks| then
      || TurnStops(cmd, toks, st, status)
      || (toks[st.i].DoubleMinus? && cmd.allowPassthrough && ChecksSay(cmd, st, status))
    else ChecksSay(cmd, st, status)
  }

  ghost predicate EndsFrom(cmd: Command, toks: seq<Kind>, st: State, status: Status) {
    exists n: nat, s: State :: Turns(cmd, toks, st, n) == Some(s) && EndsAt(cmd, toks, s, status)
  }

  lemma {:induction false} EndsHere(cmd: Command, toks: seq<Kind>, st: State, status: Status)
    requires EndsAt(cmd, toks, st, status)
    ensures EndsFrom(cmd, toks, st, status)
  {
    assert Turns(cmd, toks, st, 0) == Some(st);
  }

  lemma {:induction false} EndsLater(cmd: Command, toks: seq<Kind>, st: State, next: State, status: Status)
    requires st.i < |toks| && Step(cmd, toks, st) == Continue(next) && EndsFrom(cmd, toks, next, status)
    ensures EndsFrom(cmd, toks, st, status)
  {
    var n: nat, s: State :| Turns(cmd, toks, next, n) == Some(s) && EndsAt(cmd, toks, s, status);
    assert Turns(cmd, toks, st, n + 1) == Some(s);
  }

  lemma {:induction false} SaysTheSame(cmd: Command, st: State, last: State, status: Status)
    requires ChecksSay(cmd, last, status) && st.seen == last.seen && st.pos == last.pos
    ensures ChecksSay(cmd, st, status)
  {
  }

  lemma {:induction false} DelimiterChecks(cmd: Command, toks: seq<Kind>, start: nat, st: State, last: State, prefix: Text)
    requires st.i < |toks| && Step(cmd, toks, st) == Leave(last)
    ensures EndsAt(cmd, toks, st, Finish(cmd, start, last, prefix).status)
  {
    StepTakesOneFlag(cmd, toks, st);
    FinishSays(cmd, start, last, prefix);
    SaysTheSame(cmd, st, last, Finish(cmd, start, last, prefix).status);
  }

  lemma {:induction false} ParseFromEnds(cmd: Command, toks: seq<Kind>, start: nat, st: State, prefix: Text)
    requires st.i <= |toks| && NoPositionalFlags(cmd)
    ensures var r := ParseFrom(cmd, toks, start, st, prefix);
            || (r.command == cmd && r.start == start && EndsFrom(cmd, toks, st, r.status))
            || EndsFrom(r.command, toks, Initial(r.command, r.start), r.status)
    decreases |toks| - st.i, 0
  {
    if st.i == |toks| {
      FinishSays(cmd, start, st, prefix);
      EndsHere(cmd, toks, st, Finish(cmd, start, st, prefix).status);
    } else {
      StepAdvances(cmd, toks, st);
      match Step(cmd, toks, st)
      case Continue(next) =>
        ParseFromEnds(cmd, toks, start, next, prefix);
        var r := ParseFrom(cmd, toks, start, next, prefix);
        if r.command == cmd && r.start == start && EndsFrom(cmd, toks, next, r.status) {
          EndsLater(cmd, toks, st, next, r.status);
        }
      case Leave(last) =>
        DelimiterChecks(cmd, toks, start, st, last, prefix);
        EndsHere(cmd, toks, st, Finish(cmd, start, last, prefix).status);
      case Stop(status, _) =>
        TurnStopsExactly(cmd, toks, st, status);
        EndsHere(cmd, toks, st, status);
      case Descend(sub, next) => ParseEnds(sub, toks, next.i, prefix + cmd.name + [BLANK]);
    }
  }

  /**
    * Every parse ends for one of these reasons, and with the status that belongs to it: a turn of the
    * command it has come to stops it, or that command's final checks decide.
    */
  lemma {:induction false} ParseEnds(cmd: Command, toks: seq<Kind>, i: nat, prefix: Text)
    requires i <= |toks| && NoPositionalFlags(cmd)
    ensures var r := Parse(cmd, toks, i, prefix); EndsFrom(r.command, toks, Initial(r.command, r.start), r.status)
    decreases |toks| - i, 1
  {
    ParseFromEnds(cmd, toks, i, Initial(cmd, i), prefix);
  }
}
