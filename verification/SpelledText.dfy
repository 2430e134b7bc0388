/** Tokens written as text, and the lexer reading them back. */
module SpelledText {
  import opened Common
  import opened Lexer
  import opened LexerProofs
  import opened TextRuns

  function Kinds(ts: seq<Token>): (ks: seq<Kind>)
    ensures |ks| == |ts|
  {
    if ts == [] then [] else [ts[0].kind] + Kinds(ts[1..])
  }

  /** The tokens that have a text of their own; floats, whose text is a parameter, are left out. */
  predicate Spellable(k: Kind) {
    match k
    case FlagLong(name) => name != [] && All(name, IsLongFlagChar)
    case FlagShort(name) => name != [] && name[0] != MINUS && All(name, IsFlagChar)
    case StrLit(raw) => RawString(raw)
    case IntLit(v, _) => 0 <= v <= MAX_LONG
    case Id(text) => StartsWord(text) && All(text, IsIdent) && text != [HASH] && text != TRUE_WORD && text != FALSE_WORD
    case True | False | Times | DoubleMinus => true
    case _ => false
  }

  function Spelled(k: Kind): Text
    requires Spellable(k)
  {
    match k
    case FlagLong(name) => [MINUS, MINUS] + name
    case FlagShort(name) => [MINUS] + name
    case StrLit(raw) => [QUOTE] + raw + [QUOTE]
    case IntLit(v, base) => Prefix(base) + InBase(v, base)
    case Id(text) => text
    case True => TRUE_WORD
    case False => FALSE_WORD
    case Times => [STAR]
    case DoubleMinus => [MINUS, MINUS]
  }

  /** The tokens as text, each with a blank behind it. */
  function Line(ks: seq<Kind>): Text
    requires AllSpellable(ks)
  {
    if ks == [] then [] else Spelled(ks[0]) + ([BLANK] + Line(ks[1..]))
  }

  predicate AllSpellable(ks: seq<Kind>) { forall k :: k in ks ==> Spellable(k) }

  lemma {:induction false} FlagLexes(s: Text, i: nat, name: Text, strtod: Strtod)
    requires name != [] && All(name, IsLongFlagChar) && TextAt(s, i, [MINUS, MINUS] + name)
    requires !IsLongFlagChar(At(s, i + 2 + |name|))
    ensures NextToken(s, i, strtod) == Ok(Token(FlagLong(name), i, i + 2 + |name|))
  {
    var dashes, end := [MINUS, MINUS], i + 2 + |name|;
    TextAtSplit(s, i, dashes, name);
    TextAtSlice(s, i + 2, name);
    assert s[i] == dashes[0] && s[i + 1] == dashes[1];
    assert forall k :: i + 2 <= k < end ==> s[k] == name[k - i - 2];
    RunIs(s, i + 2, end, IsLongFlagChar);
    assert IsIdent(s[i + 2]);
  }

  lemma {:induction false} ShortFlagLexes(s: Text, i: nat, name: Text, strtod: Strtod)
    requires name != [] && name[0] != MINUS && All(name, IsFlagChar) && TextAt(s, i, [MINUS] + name)
    requires !IsFlagChar(At(s, i + 1 + |name|))
    ensures NextToken(s, i, strtod) == Ok(Token(FlagShort(name), i, i + 1 + |name|))
  {
    var end := i + 1 + |name|;
    TextAtSplit(s, i, [MINUS], name);
    TextAtSlice(s, i + 1, name);
    assert s[i + 0] == [MINUS][0] && s[i + 1 + 0] == name[0];
    assert forall k :: i + 1 <= k < end ==> s[k] == name[k - i - 1];
    RunIs(s, i + 1, end, IsFlagChar);
  }

  lemma {:induction false} WordLexesAt(s: Text, i: nat, word: Text, strtod: Strtod)
    requires StartsWord(word) && All(word, IsIdent) && TextAt(s, i, word) && !IsIdent(At(s, i + |word|))
    ensures NextToken(s, i, strtod) == Ok(Token(WordKind(word), i, i + |word|))
  {
    TextAtSlice(s, i, word);
    assert s[i + 0] == word[0];
    assert forall k :: i <= k < i + |word| ==> s[k] == word[k - i];
    RunIs(s, i + 1, i + |word|, IsIdent);
  }

  lemma {:induction false} DecimalLexesAt(s: Text, i: nat, v: nat, strtod: Strtod)
    requires v <= MAX_LONG && TextAt(s, i, InBase(v, Dec)) && At(s, i + |InBase(v, Dec)|) == BLANK
    ensures NextToken(s, i, strtod) == Ok(Token(IntLit(v, Dec), i, i + |InBase(v, Dec)|))
  {
    var digits := InBase(v, Dec);
    InBaseValue(v, Dec);
    FittedDigits(v, Dec, BUFFER);
    TextAtSlice(s, i, digits);
    assert forall k :: i <= k < i + |digits| ==> s[k] == digits[k - i];
    DecimalLexes(s, i, i + |digits|, strtod);
  }

  lemma {:induction false} PrefixAndDigits(s: Text, i: nat, prefix: Text, digits: Text)
    requires |prefix| == 2 && TextAt(s, i, prefix + digits)
    ensures i + 2 + |digits| <= |s| && s[i] == prefix[0] && s[i + 1] == prefix[1]
    ensures s[i + 2..i + 2 + |digits|] == digits
    ensures forall k :: i + 2 <= k < i + 2 + |digits| ==> s[k] == digits[k - i - 2]
  {
    TextAtSplit(s, i, prefix, digits);
    TextAtSlice(s, i + 2, digits);
    assert s[i + 0] == prefix[0] && s[i + 1] == prefix[1];
  }

  lemma {:induction false} PrefixedDigitsLex(s: Text, i: nat, v: nat, base: Radix, digits: Text, strtod: Strtod)
    requires base != Dec && i + 2 + |digits| <= |s| && digits != [] && IsDigit(base, digits[0]) && All(digits, DigitClass(base))
    requires s[i] == ZERO && s[i + 1] == (if base == Hex then LETTER_X else LETTER_B)
    requires s[i + 2..i + 2 + |digits|] == digits && At(s, i + 2 + |digits|) == BLANK
    requires forall k :: i + 2 <= k < i + 2 + |digits| ==> s[k] == digits[k - i - 2]
    requires v <= MAX_LONG && Value(Fitting(NoUnderscores(digits), BUFFER - 2), base.Base()) == v
    ensures NextToken(s, i, strtod) == Ok(Token(IntLit(v, base), i, i + 2 + |digits|))
  {
    PrefixedLexes(s, i, i + 2 + |digits|, base, strtod);
  }

  lemma {:induction false} PrefixedLexesAt(s: Text, i: nat, v: nat, base: Radix, digits: Text, strtod: Strtod)
    requires base != Dec && v <= MAX_LONG && digits == InBase(v, base) && TextAt(s, i, Prefix(base) + digits)
    requires At(s, i + 2 + |digits|) == BLANK
    ensures NextToken(s, i, strtod) == Ok(Token(IntLit(v, base), i, i + 2 + |digits|))
  {
    DigitsOf(v, base, digits);
    PrefixAndDigits(s, i, Prefix(base), digits);
    PrefixedDigitsLex(s, i, v, base, digits, strtod);
  }

  lemma {:induction false} DigitsOf(v: nat, base: Radix, digits: Text)
    requires base != Dec && v <= MAX_LONG && digits == InBase(v, base)
    ensures digits != [] && IsDigit(base, digits[0]) && All(digits, DigitClass(base))
    ensures Value(Fitting(NoUnderscores(digits), BUFFER - 2), base.Base()) == v
  {
    InBaseValue(v, base);
    FittedDigits(v, base, BUFFER - 2);
  }

  lemma {:induction false} IntegerLexesAt(s: Text, i: nat, v: nat, base: Radix, strtod: Strtod)
    requires v <= MAX_LONG && TextAt(s, i, Prefix(base) + InBase(v, base))
    requires At(s, i + |Prefix(base)| + |InBase(v, base)|) == BLANK
    ensures NextToken(s, i, strtod) == Ok(Token(IntLit(v, base), i, i + |Prefix(base)| + |InBase(v, base)|))
  {
    if base == Dec {
      assert Prefix(Dec) + InBase(v, Dec) == InBase(v, Dec);
      DecimalLexesAt(s, i, v, strtod);
    } else {
      PrefixedLexesAt(s, i, v, base, InBase(v, base), strtod);
    }
  }

  lemma {:induction false} SignLexesAt(s: Text, i: nat, k: Kind, strtod: Strtod)
    requires (k.Times? && TextAt(s, i, [STAR])) || (k.DoubleMinus? && TextAt(s, i, [MINUS, MINUS]))
    requires At(s, i + |Spelled(k)|) == BLANK
    ensures NextToken(s, i, strtod) == Ok(Token(k, i, i + |Spelled(k)|))
  {
    assert s[i + 0] == Spelled(k)[0];
    assert k.DoubleMinus? ==> s[i + 1] == Spelled(k)[1];
  }

  lemma {:induction false} StringLexesAt(s: Text, i: nat, raw: Text, strtod: Strtod)
    requires RawString(raw) && TextAt(s, i, [QUOTE] + raw + [QUOTE])
    ensures NextToken(s, i, strtod) == Ok(Token(StrLit(raw), i, i + 2 + |raw|))
  {
    LiteralPieces(s, i, raw);
    LiteralLexes(s, i, raw, i + 1 + |raw|, strtod);
  }

  lemma {:induction false} SpelledLexes(s: Text, i: nat, k: Kind, strtod: Strtod)
    requires Spellable(k) && TextAt(s, i, Spelled(k)) && At(s, i + |Spelled(k)|) == BLANK
    ensures NextToken(s, i, strtod) == Ok(Token(k, i, i + |Spelled(k)|))
  {
    match k
    case FlagLong(name) => FlagLexes(s, i, name, strtod);
    case FlagShort(name) => ShortFlagLexes(s, i, name, strtod);
    case StrLit(raw) => StringLexesAt(s, i, raw, strtod);
    case IntLit(v, base) => IntegerLexesAt(s, i, v, base, strtod);
    case Id(text) => WordLexesAt(s, i, text, strtod);
    case True => WordLexesAt(s, i, TRUE_WORD, strtod);
    case False => WordLexesAt(s, i, FALSE_WORD, strtod);
    case Times => SignLexesAt(s, i, k, strtod);
    case DoubleMinus => SignLexesAt(s, i, k, strtod);
  }

  lemma {:induction false} SpelledStart(k: Kind)
    requires Spellable(k)
    ensures Spelled(k) != [] && !IsWhitespace(Spelled(k)[0]) && Spelled(k)[0] != NUL
    ensures Spelled(k)[0] == HASH ==> |Spelled(k)| > 1 && Spelled(k)[1] != BLANK
  {
    match k
    case IntLit(v, base) => InBaseValue(v, base);
    case Id(text) => assert text[0] == HASH ==> text == [HASH] || IsIdent(text[1]);
    case _ =>
  }

  lemma {:induction false} SpelledIsNoGap(s: Text, i: nat, k: Kind)
    requires Spellable(k) && TextAt(s, i, Spelled(k))
    ensures GapEnd(s, i) == i
  {
    SpelledStart(k);
    assert s[i + 0] == Spelled(k)[0];
    assert |Spelled(k)| > 1 ==> s[i + 1] == Spelled(k)[1];
  }

  /** The kinds of a successful tokenization, in front of the end of the input. */
  predicate Yields(r: Result<seq<Token>, LexError>, ks: seq<Kind>) { r.Ok? && Kinds(r.value) == ks + [Eof] }

  /** One token, and the line behind it. */
  lemma {:induction false} HeadYields(s: Text, i: nat, next: nat, ks: seq<Kind>, strtod: Strtod)
    requires ks != [] && Spellable(ks[0]) && TextAt(s, i, Spelled(ks[0]))
    requires next == i + |Spelled(ks[0])| + 1 <= |s| && s[next - 1] == BLANK
    requires Yields(Tokens(s, next, strtod), ks[1..])
    ensures Yields(Tokens(s, i, strtod), ks)
  {
    HeadOfLine(s, i, ks[0], strtod);
    PrependedYields(Token(ks[0], i, next - 1), Tokens(s, next, strtod), ks[1..]);
    assert [ks[0]] + ks[1..] == ks;
  }

  lemma {:induction false} HeadOfRest(s: Text, i: nat, k: Kind, rest: Text)
    requires Spellable(k) && TextAt(s, i, Spelled(k) + ([BLANK] + rest))
    ensures var end := i + |Spelled(k)|;
            TextAt(s, i, Spelled(k)) && end < |s| && s[end] == BLANK && TextAt(s, end + 1, rest)
  {
    var end := i + |Spelled(k)|;
    TextAtSplit(s, i, Spelled(k), [BLANK] + rest);
    TextAtSplit(s, end, [BLANK], rest);
    assert s[end + 0] == [BLANK][0];
  }

  lemma {:induction false} LineParts(ks: seq<Kind>)
    requires ks != [] && AllSpellable(ks)
    ensures AllSpellable(ks[1..]) && Line(ks) == Spelled(ks[0]) + ([BLANK] + Line(ks[1..]))
  {
  }

  lemma {:induction false} LineSplit(s: Text, i: nat, next: nat, k: Kind, line: Text, rest: Text)
    requires Spellable(k) && line == Spelled(k) + ([BLANK] + rest)
    requires TextAt(s, i, line) && i + |line| == |s| && next == i + |Spelled(k)| + 1
    ensures TextAt(s, i, Spelled(k)) && next <= |s| && s[next - 1] == BLANK
    ensures TextAt(s, next, rest) && next + |rest| == |s|
  {
    HeadOfRest(s, i, k, rest);
  }

  lemma {:induction false} LineTokens(s: Text, i: nat, ks: seq<Kind>, strtod: Strtod)
    requires AllSpellable(ks) && TextAt(s, i, Line(ks)) && i + |Line(ks)| == |s|
    ensures Yields(Tokens(s, i, strtod), ks)
    decreases |ks|
  {
    if ks == [] {
      EmptyLine(s, strtod);
    } else {
      var next := i + |Spelled(ks[0])| + 1;
      LineParts(ks);
      LineSplit(s, i, next, ks[0], Line(ks), Line(ks[1..]));
      LineTokens(s, next, ks[1..], strtod);
      HeadYields(s, i, next, ks, strtod);
    }
  }

  lemma {:induction false} EmptyLine(s: Text, strtod: Strtod)
    ensures Yields(Tokens(s, |s|, strtod), [])
  {
    assert Kinds([Token(Eof, |s|, |s|)]) == [Eof];
  }

  lemma {:induction false} PrependedYields(t: Token, r: Result<seq<Token>, LexError>, ks: seq<Kind>)
    requires Yields(r, ks)
    ensures Yields(Prepended(t, r), [t.kind] + ks)
  {
    assert ([t] + r.value)[1..] == r.value;
    assert [t.kind] + ks + [Eof] == [t.kind] + (ks + [Eof]);
  }

  function Prepended(t: Token, r: Result<seq<Token>, LexError>): Result<seq<Token>, LexError> {
    if r.Err? then r else Ok([t] + r.value)
  }

  lemma {:induction false} HeadOfLine(s: Text, i: nat, k: Kind, strtod: Strtod)
    requires Spellable(k) && TextAt(s, i, Spelled(k))
    requires var end := i + |Spelled(k)|; end < |s| && s[end] == BLANK
    ensures var end := i + |Spelled(k)|;
            Tokens(s, i, strtod) == Prepended(Token(k, i, end), Tokens(s, end + 1, strtod))
  {
    SpelledLexes(s, i, k, strtod);
    SpelledIsNoGap(s, i, k);
    BlankIsSkipped(s, i + |Spelled(k)|, strtod);
  }

  lemma {:induction false} BlankIsSkipped(s: Text, i: nat, strtod: Strtod)
    requires i < |s| && s[i] == BLANK
    ensures Tokens(s, i, strtod) == Tokens(s, i + 1, strtod)
  {
    assert GapEnd(s, i) == GapEnd(s, i + 1);
  }
}
