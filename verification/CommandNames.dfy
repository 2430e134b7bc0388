/** Which argument a flag names and which subcommand a word enters, said without the lookups. */
module CommandNames {
  import opened Common
  import opened Lexer
  import opened CommandParser

  // ---------- flags ----------

  /** The flag is the argument's name behind its dashes, or one of its aliases as it is written. */
  predicate IsNamed(a: ArgumentDef, flag: Kind)
    requires IsFlag(flag)
  {
    && !a.positional
    && (|| a.name == flag.name
        || (flag.FlagShort? && |flag.name| == 1 && [MINUS] + flag.name in a.aliases)
        || (flag.FlagLong? && flag.name != [] && [MINUS, MINUS] + flag.name in a.aliases))
  }

  predicate FirstNamed(args: seq<ArgumentDef>, flag: Kind, a: ArgumentDef)
    requires IsFlag(flag)
  {
    exists k :: 0 <= k < |args| && args[k] == a && IsNamed(a, flag) && forall j :: 0 <= j < k ==> !IsNamed(args[j], flag)
  }

  lemma {:induction false} MatchesIsNamed(a: ArgumentDef, flag: Kind)
    requires IsFlag(flag)
    ensures Matches(a, flag.name, flag.FlagShort?) <==> IsNamed(a, flag)
  {
    if IsNamed(a, flag) && a.name != flag.name {
      var alias := if flag.FlagShort? then [MINUS] + flag.name else [MINUS, MINUS] + flag.name;
      assert alias in a.aliases && AliasMatches(alias, flag.name, flag.FlagShort?);
    }
  }

  /** A flag leads to the first argument it names, and to none exactly when it names none. */
  lemma {:induction false} FlagLeadsExactly(args: seq<ArgumentDef>, flag: Kind, a: ArgumentDef)
    requires IsFlag(flag)
    ensures FindKeyword(args, flag.name, flag.FlagShort?) == Some(a) <==> FirstNamed(args, flag, a)
    ensures FindKeyword(args, flag.name, flag.FlagShort?) == None <==> forall b :: b in args ==> !IsNamed(b, flag)
  {
    if args != [] {
      MatchesIsNamed(args[0], flag);
      FlagLeadsExactly(args[1..], flag, a);
      FirstNamedTail(args, flag, a);
      assert forall b :: b in args <==> b == args[0] || b in args[1..];
    }
  }

  lemma {:induction false} FirstNamedTail(args: seq<ArgumentDef>, flag: Kind, a: ArgumentDef)
    requires IsFlag(flag) && args != []
    ensures FirstNamed(args, flag, a) <==>
            if IsNamed(args[0], flag) then args[0] == a else FirstNamed(args[1..], flag, a)
  {
    if FirstNamed(args, flag, a) && !IsNamed(args[0], flag) {
      var k :| 0 <= k < |args| && args[k] == a && IsNamed(a, flag) && forall j :: 0 <= j < k ==> !IsNamed(args[j], flag);
      assert args[1..][k - 1] == a;
    }
    if !IsNamed(args[0], flag) && FirstNamed(args[1..], flag, a) {
      var k :| 0 <= k < |args[1..]| && args[1..][k] == a && forall j :: 0 <= j < k ==> !IsNamed(args[1..][j], flag);
      assert args[k + 1] == a;
      assert forall j :: 0 < j < k + 1 ==> args[j] == args[1..][j - 1];
    }
    if IsNamed(args[0], flag) && args[0] == a {
      assert args[0] == a;
    }
  }

  // ---------- subcommands ----------

  /** The first subcommand of that name, or else the only one that has the word as an alias. */
  predicate Enters(subs: seq<Command>, word: Text, sub: Command) {
    || (exists k :: 0 <= k < |subs| && subs[k] == sub && sub.name == word && forall j :: 0 <= j < k ==> subs[j].name != word)
    || ((forall c :: c in subs ==> c.name != word)
        && exists k :: 0 <= k < |subs| && subs[k] == sub && OnlyAlias(subs, word, k))
  }

  predicate OnlyAlias(subs: seq<Command>, word: Text, k: nat)
    requires k < |subs|
  {
    word in subs[k].aliases && forall j :: 0 <= j < |subs| && j != k ==> word !in subs[j].aliases
  }

  predicate Unknown(subs: seq<Command>, word: Text) {
    forall c :: c in subs ==> c.name != word && word !in c.aliases
  }

  lemma {:induction false} NameFound(subs: seq<Command>, word: Text, sub: Command)
    ensures FindByName(subs, word) == Some(sub) <==>
            exists k :: 0 <= k < |subs| && subs[k] == sub && sub.name == word && forall j :: 0 <= j < k ==> subs[j].name != word
  {
    if subs != [] {
      NameFound(subs[1..], word, sub);
      if subs[0].name == word {
        assert subs[0] == subs[0];
      } else if FindByName(subs, word) == Some(sub) {
        var k :| 0 <= k < |subs[1..]| && subs[1..][k] == sub && forall j :: 0 <= j < k ==> subs[1..][j].name != word;
        assert subs[k + 1] == sub;
        assert forall j :: 0 < j < k + 1 ==> subs[j] == subs[1..][j - 1];
      }
    }
  }

  lemma {:induction false} AliasAbsent(subs: seq<Command>, word: Text, before: Lookup)
    requires forall c :: c in subs ==> word !in c.aliases
    ensures FindByAlias(subs, word, before) == before
  {
    if subs != [] {
      AliasAbsent(subs[1..], word, before);
    }
  }

  lemma {:induction false} AliasSecond(subs: seq<Command>, word: Text, before: Lookup)
    requires before != Nothing && exists c :: c in subs && word in c.aliases
    ensures FindByAlias(subs, word, before) == Ambiguous
  {
    if before != Ambiguous && word !in subs[0].aliases {
      assert forall c :: c in subs ==> c == subs[0] || c in subs[1..];
      AliasSecond(subs[1..], word, before);
    } else if before != Ambiguous {
      assert FindByAlias(subs[1..], word, Ambiguous) == Ambiguous;
    }
  }

  lemma {:induction false} AliasFirst(subs: seq<Command>, word: Text, k: nat)
    requires k < |subs| && word in subs[k].aliases && forall j :: 0 <= j < k ==> word !in subs[j].aliases
    ensures FindByAlias(subs, word, Nothing) ==
            if exists c :: c in subs[k + 1..] && word in c.aliases then Ambiguous else Found(subs[k])
  {
    if k == 0 {
      if exists c :: c in subs[1..] && word in c.aliases {
        AliasSecond(subs[1..], word, Found(subs[0]));
      } else {
        AliasAbsent(subs[1..], word, Found(subs[0]));
      }
    } else {
      assert subs[1..][k - 1] == subs[k] && subs[1..][k..] == subs[k + 1..];
      AliasFirst(subs[1..], word, k - 1);
    }
  }

  lemma {:induction false} AliasFound(subs: seq<Command>, word: Text, sub: Command)
    ensures FindByAlias(subs, word, Nothing) == Found(sub) <==>
            exists k :: 0 <= k < |subs| && subs[k] == sub && OnlyAlias(subs, word, k)
    ensures FindByAlias(subs, word, Nothing) == Nothing <==> forall c :: c in subs ==> word !in c.aliases
  {
    if exists j :: 0 <= j < |subs| && word in subs[j].aliases {
      var k := FirstWith(subs, word);
      AliasFirst(subs, word, k);
      assert !(exists c :: c in subs[k + 1..] && word in c.aliases) <==> OnlyAlias(subs, word, k);
      assert forall j :: 0 <= j < |subs| && OnlyAlias(subs, word, j) ==> j == k;
    } else {
      AliasAbsent(subs, word, Nothing);
    }
  }

  function FirstWith(subs: seq<Command>, word: Text): (k: nat)
    requires exists j :: 0 <= j < |subs| && word in subs[j].aliases
    ensures k < |subs| && word in subs[k].aliases && forall j :: 0 <= j < k ==> word !in subs[j].aliases
  {
    if word in subs[0].aliases then 0
    else
      assert exists j :: 0 <= j < |subs[1..]| && word in subs[1..][j].aliases by {
        var j :| 0 <= j < |subs| && word in subs[j].aliases;
        assert subs[1..][j - 1] == subs[j];
      }
      FirstWith(subs[1..], word) + 1
  }

  /**
    * A word enters a subcommand exactly when it is the first of that name, or, none having the
    * name, the only one with that alias; it is unknown exactly when it is neither name nor alias
    * of any, and ambiguous in all other cases.
    */
  lemma {:induction false} WordEntersExactly(subs: seq<Command>, word: Text, sub: Command)
    ensures FindSub(subs, word) == Found(sub) <==> Enters(subs, word, sub)
    ensures FindSub(subs, word) == Nothing <==> Unknown(subs, word)
  {
    NameFound(subs, word, sub);
    AliasFound(subs, word, sub);
    if FindByName(subs, word).Some? {
      NameFound(subs, word, FindByName(subs, word).value);
    }
  }
}
