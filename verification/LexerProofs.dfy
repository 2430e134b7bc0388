/** What holds of every tokenization, and the literals that survive writing and lexing. */
module LexerProofs {
  import opened Common
  import opened Lexer
  import opened TextRuns

  // ---------- the tokens tile the input ----------

  /** Whitespace and comments: a comment starts with a hash and a blank and ends with its line. */
  ghost predicate IsGap(s: Text, i: nat, j: nat)
    requires i <= j <= |s|
    decreases j - i
  {
    || i == j
    || (i < j && s[i] in {0x40, 0x05, 0x15, 0x0D} && IsGap(s, i + 1, j))
    || (i < j && s[i] == 0x7B && At(s, i + 1) == 0x40 &&
        exists k :: i < k <= j && IsLineRest(s, i, k) && IsGap(s, k, j))
  }

  predicate IsLineRest(s: Text, i: nat, k: nat)
    requires i <= k <= |s|
  {
    && (forall m :: i <= m < k ==> s[m] != NEWLINE && s[m] != NUL)
    && (At(s, k) == NEWLINE || At(s, k) == NUL)
  }

  lemma {:induction false} GapEndIsGap(s: Text, i: nat)
    requires i <= |s|
    ensures IsGap(s, i, GapEnd(s, i))
    ensures forall k :: i <= k < GapEnd(s, i) ==> s[k] != NUL
    ensures var c := At(s, GapEnd(s, i)); c !in {0x40, 0x05, 0x15, 0x0D} && (c != 0x7B || At(s, GapEnd(s, i) + 1) != 0x40)
    decreases |s| - i
  {
    if i < |s| && IsWhitespace(s[i]) {
      GapEndIsGap(s, i + 1);
    } else if i < |s| && s[i] == HASH && At(s, i + 1) == BLANK {
      var k := RunEnd(s, i + 1, InComment);
      GapEndIsGap(s, k);
      assert IsLineRest(s, i, k);
    }
  }

  /**
    * The tokens cover `s` from `i` to its first NUL: each comes behind the one before with only
    * gap between them and no gap behind that, and the end-of-input token, alone of its kind, comes last.
    */
  ghost predicate Tiles(s: Text, i: nat, ts: seq<Token>)
    decreases |ts|
  {
    && ts != [] && i <= ts[0].start <= ts[0].end <= |s|
    && IsGap(s, i, ts[0].start) && NoNul(s, i, ts[0].end)
    && At(s, ts[0].start) !in {0x40, 0x05, 0x15, 0x0D}
    && (At(s, ts[0].start) != 0x7B || At(s, ts[0].start + 1) != 0x40)
    && if ts[0].kind.Eof? then |ts| == 1 && ts[0].start == ts[0].end && At(s, ts[0].end) == NUL
       else ts[0].start < ts[0].end && Tiles(s, ts[0].end, ts[1..])
  }

  lemma {:induction false} TokensTile(s: Text, i: nat, strtod: Strtod)
    requires i <= |s| && Tokens(s, i, strtod).Ok?
    ensures Tiles(s, i, Tokens(s, i, strtod).value)
    decreases |s| - i
  {
    GapEndIsGap(s, i);
    var g := GapEnd(s, i);
    var t := NextToken(s, g, strtod).value;
    TokenHasNoNul(s, g, strtod);
    NoNulJoin(s, i, g, t.end);
    if !t.kind.Eof? {
      TokensTile(s, t.end, strtod);
      assert ([t] + Tokens(s, t.end, strtod).value)[1..] == Tokens(s, t.end, strtod).value;
    }
  }

  // ---------- every token is spelled by its piece of the input ----------

  /** The place-value sum of the digits. */
  function PlaceValue(digits: Text, base: nat): nat {
    if digits == [] then 0
    else DigitValue(digits[0]) * Power(base, |digits| - 1) + PlaceValue(digits[1..], base)
  }

  /** Accumulating digit by digit gives the place-value sum. */
  lemma {:induction false} ValueIsPlaceValue(digits: Text, base: nat)
    ensures Value(digits, base) == PlaceValue(digits, base)
  {
    if digits != [] {
      var first := [digits[0]];
      assert digits == first + digits[1..];
      ValueAppend(first, digits[1..], base);
      ValueIsPlaceValue(digits[1..], base);
      assert first[..0] == [];
      assert Value([], base) * base == 0;
      assert Value(first, base) == DigitValue(digits[0]);
    }
  }

  /** A literal of digits, the letter of a prefix in either case, underscores between digits. */
  predicate SpellsInteger(piece: Text, v: int, base: Radix) {
    var skip := if base == Dec then 0 else 2;
    && |piece| > skip && IsDigit(base, piece[skip]) && All(piece[skip..], DigitClass(base))
    && (base == Hex ==> piece[0] == 0xF0 && (piece[1] == 0xA7 || piece[1] == 0xE7))
    && (base == Bin ==> piece[0] == 0xF0 && (piece[1] == 0x82 || piece[1] == 0xC2))
    && v == PlaceValue(Fitting(NoUnderscores(piece[skip..]), 127 - skip), base.Base()) <= 9_223_372_036_854_775_807
  }

  /** A first character that starts no other token. */
  predicate StartsWord(text: Text) {
    text != [] && !IsDecDigit(text[0]) && text[0] != MINUS && text[0] != STAR && text[0] != QUOTE
  }

  /** How a token is written. */
  predicate Spells(piece: Text, kind: Kind, strtod: Strtod) {
    match kind
    case Eof => piece == []
    case True => piece == [0xA3, 0x99, 0xA4, 0x85]
    case False => piece == [0x86, 0x81, 0x93, 0xA2, 0x85]
    case Minus => piece == [0x60]
    case DoubleMinus => piece == [0x60, 0x60]
    case Times => piece == [0x5C]
    case Id(text) => piece == text && StartsWord(text) && All(text, IsIdent) && text != TRUE_WORD && text != FALSE_WORD
    case FlagShort(name) => piece == [0x60] + name && name != [] && name[0] != MINUS && All(name, IsFlagChar)
    case FlagLong(name) => piece == [0x60, 0x60] + name && name != [] && All(name, IsLongFlagChar)
    case StrLit(raw) => piece == [0x7F] + raw + [0x7F] && RawString(raw)
    case IntLit(v, base) => SpellsInteger(piece, v, base)
    case FloatLit(number, printed, _) => number == Kept(NoUnderscores(piece)) && strtod(number) == Fine(printed)
  }

  /** No word or flag stops before its last character. */
  predicate Munched(s: Text, t: Token) {
    && (t.kind.Id? || t.kind.True? || t.kind.False? || t.kind.FlagShort? ==> !IsIdent(At(s, t.end)))
    && (t.kind.FlagLong? ==> !IsLongFlagChar(At(s, t.end)))
    && (t.kind.IntLit? && t.kind.base != Dec ==> !DigitClass(t.kind.base)(At(s, t.end)))
    && (t.kind.DoubleMinus? ==> !IsIdent(At(s, t.end)))
    && (t.kind.Minus? ==> !IsFlagChar(At(s, t.end)) && At(s, t.end) != MINUS)
  }

  lemma {:induction false} StringSpells(s: Text, i: nat, strtod: Strtod)
    requires i < |s| && s[i] == QUOTE && StringToken(s, i).Ok?
    ensures var t := StringToken(s, i).value; Spells(s[i..t.end], t.kind, strtod)
  {
    ScannedIsRaw(s, i, i + 1);
    var close := StringScan(s, i, i + 1).value;
    assert s[i..close + 1] == [QUOTE] + s[i + 1..close] + [QUOTE];
  }

  lemma {:induction false} LongFlagSpells(s: Text, i: nat, strtod: Strtod)
    requires i + 2 < |s| && s[i] == MINUS && s[i + 1] == MINUS && IsIdent(s[i + 2])
    ensures var end := RunEnd(s, i + 2, IsLongFlagChar);
            Spells(s[i..end], FlagLong(s[i + 2..end]), strtod)
  {
    var end := RunEnd(s, i + 2, IsLongFlagChar);
    RunIsAll(s, i + 2, IsLongFlagChar);
    assert s[i..end] == [MINUS, MINUS] + s[i + 2..end];
  }

  lemma {:induction false} ShortFlagSpells(s: Text, i: nat, strtod: Strtod)
    requires i + 1 < |s| && s[i] == MINUS && s[i + 1] != MINUS && IsFlagChar(s[i + 1])
    ensures var end := RunEnd(s, i + 1, IsFlagChar);
            Spells(s[i..end], FlagShort(s[i + 1..end]), strtod)
  {
    var end := RunEnd(s, i + 1, IsFlagChar);
    RunIsAll(s, i + 1, IsFlagChar);
    assert s[i..end] == [MINUS] + s[i + 1..end];
  }

  lemma {:induction false} DashSpells(s: Text, i: nat, strtod: Strtod)
    requires i < |s| && s[i] == MINUS
    ensures var t := DashToken(s, i); Spells(s[i..t.end], t.kind, strtod) && Munched(s, t)
  {
    if At(s, i + 1) == MINUS {
      if IsIdent(At(s, i + 2)) {
        LongFlagSpells(s, i, strtod);
      } else {
        assert s[i..i + 2] == [MINUS, MINUS];
      }
    } else if IsFlagChar(At(s, i + 1)) {
      ShortFlagSpells(s, i, strtod);
    } else {
      assert s[i..i + 1] == [MINUS];
    }
  }

  lemma {:induction false} PrefixedSpells(s: Text, i: nat, base: Radix, strtod: Strtod)
    requires base != Dec && i + 2 <= |s| && s[i] == ZERO && PrefixedNumber(s, i, base).Ok?
    requires if base == Hex then s[i + 1] in {LETTER_X, CAPITAL_X} else s[i + 1] in {LETTER_B, CAPITAL_B}
    ensures var t := PrefixedNumber(s, i, base).value; Spells(s[i..t.end], t.kind, strtod) && Munched(s, t)
  {
    var end := RunEnd(s, i + 2, DigitClass(base));
    var piece := s[i..end];
    RunIsAll(s, i + 2, DigitClass(base));
    assert piece[2..] == s[i + 2..end];
    PrefixLeavesRoom(s[i..i + 2], NoUnderscores(s[i + 2..end]));
    PrefixedPiece(piece, base);
  }

  lemma {:induction false} PrefixedPiece(piece: Text, base: Radix)
    requires base != Dec && |piece| > 2 && IsDigit(base, piece[2]) && All(piece[2..], DigitClass(base)) && piece[0] == ZERO
    requires if base == Hex then piece[1] in {LETTER_X, CAPITAL_X} else piece[1] in {LETTER_B, CAPITAL_B}
    ensures var v := Value(Fitting(NoUnderscores(piece[2..]), BUFFER - 2), base.Base());
            v <= MAX_LONG ==> SpellsInteger(piece, v, base)
  {
    ValueIsPlaceValue(Fitting(NoUnderscores(piece[2..]), BUFFER - 2), base.Base());
  }

  lemma {:induction false} DecimalSpells(s: Text, i: nat, strtod: Strtod)
    requires i < |s| && IsDecDigit(s[i]) && DecimalNumber(s, i, strtod).Ok?
    ensures var t := DecimalNumber(s, i, strtod).value; Spells(s[i..t.end], t.kind, strtod) && Munched(s, t)
  {
    var t := DecimalNumber(s, i, strtod).value;
    if t.kind.IntLit? {
      var piece := s[i..t.end];
      assert piece[0..] == piece;
      ValueIsPlaceValue(Kept(NoUnderscores(piece)), 10);
    }
  }

  lemma {:induction false} ZeroSpells(strtod: Strtod)
    ensures Spells([ZERO], IntLit(0, Dec), strtod)
  {
    var piece := [ZERO];
    assert piece[0..] == piece && piece[1..] == [];
    assert NoUnderscores(piece) == piece + [];
    assert PlaceValue(piece, 10) == 0 * Power(10, 0) + PlaceValue([], 10);
  }

  lemma {:induction false} NumberSpells(s: Text, i: nat, strtod: Strtod)
    requires i < |s| && IsDecDigit(s[i]) && NumberToken(s, i, strtod).Ok?
    ensures var t := NumberToken(s, i, strtod).value; Spells(s[i..t.end], t.kind, strtod) && Munched(s, t)
  {
    var p := At(s, i + 1);
    if s[i] != ZERO {
      DecimalSpells(s, i, strtod);
    } else if p == LETTER_X || p == CAPITAL_X {
      PrefixedSpells(s, i, Hex, strtod);
    } else if p == LETTER_B || p == CAPITAL_B {
      PrefixedSpells(s, i, Bin, strtod);
    } else if !IsDecDigit(p) && p != DOT && !IsE(p) {
      ZeroSpells(strtod);
      assert s[i..i + 1] == [ZERO];
    } else {
      DecimalSpells(s, i, strtod);
    }
  }

  lemma {:induction false} TokenSpells(s: Text, i: nat, strtod: Strtod)
    requires i <= |s| && NextToken(s, i, strtod).Ok?
    ensures var t := NextToken(s, i, strtod).value; Spells(s[i..t.end], t.kind, strtod) && Munched(s, t)
  {
    var c := At(s, i);
    if c == MINUS {
      DashSpells(s, i, strtod);
    } else if c == QUOTE {
      StringSpells(s, i, strtod);
    } else if c != NUL && IsDecDigit(c) {
      NumberSpells(s, i, strtod);
    } else if c != NUL && c != STAR {
      var word := s[i..RunEnd(s, i + 1, IsIdent)];
      assert All(word, IsIdent);
    }
  }

  lemma {:induction false} TokensSpell(s: Text, i: nat, strtod: Strtod)
    requires i <= |s| && Tokens(s, i, strtod).Ok?
    ensures forall t :: t in Tokens(s, i, strtod).value ==>
              t.start <= t.end <= |s| && Spells(s[t.start..t.end], t.kind, strtod) && Munched(s, t)
    decreases |s| - i
  {
    var g := GapEnd(s, i);
    TokenSpells(s, g, strtod);
    var t := NextToken(s, g, strtod).value;
    if !t.kind.Eof? {
      TokensSpell(s, t.end, strtod);
    }
  }

  /**
    * Every successful tokenization: increasing, disjoint spans with nothing but whitespace and
    * comments between them up to the first NUL, and each token what its piece of the text spells.
    */
  lemma {:induction false} TokenizationTiles(s: Text, strtod: Strtod)
    requires Tokenize(s, strtod).Ok?
    ensures var ts := Tokenize(s, strtod).value;
            Tiles(s, 0, ts) &&
            forall t :: t in ts ==> t.start <= t.end <= |s| && Spells(s[t.start..t.end], t.kind, strtod) && Munched(s, t)
  {
    TokensTile(s, 0, strtod);
    TokensSpell(s, 0, strtod);
  }

  // ---------- quoting ----------

  function EscapedChar(c: byte): Text {
    if c == NEWLINE then [BACKSLASH, LETTER_N]
    else if c == RETURN then [BACKSLASH, LETTER_R]
    else if c == TAB then [BACKSLASH, LETTER_T]
    else if c == BACKSLASH then [BACKSLASH, BACKSLASH]
    else if c == QUOTE then [BACKSLASH, QUOTE]
    else if c == NUL then [BACKSLASH, ZERO]
    else [c]
  }

  function EscapedText(v: Text): Text {
    if v == [] then [] else EscapedChar(v[0]) + EscapedText(v[1..])
  }

  /** A string as a literal, written with the six escapes. */
  function Quoted(v: Text): Text { [QUOTE] + EscapedText(v) + [QUOTE] }

  lemma {:induction false} LiteralOfEscaped(v: Text)
    ensures LiteralValue(EscapedText(v)) == v
  {
    if v != [] {
      LiteralOfEscaped(v[1..]);
      var e, rest := EscapedChar(v[0]), EscapedText(v[1..]);
      assert (e + rest)[|e|..] == rest;
      assert v == [v[0]] + v[1..];
    }
  }

  lemma {:induction false} EscapedIsRaw(v: Text)
    ensures RawString(EscapedText(v))
  {
    if v != [] {
      EscapedIsRaw(v[1..]);
      var e, rest := EscapedChar(v[0]), EscapedText(v[1..]);
      assert (e + rest)[|e|..] == rest;
    }
  }

  /** Anywhere in a text a quoted string lexes to one literal with the string as its value. */
  lemma {:induction false} QuotedLexesBack(s: Text, i: nat, v: Text, strtod: Strtod)
    requires TextAt(s, i, Quoted(v))
    ensures NextToken(s, i, strtod) == Ok(Token(StrLit(EscapedText(v)), i, i + |Quoted(v)|))
    ensures LiteralValue(EscapedText(v)) == v
  {
    var raw := EscapedText(v);
    EscapedIsRaw(v);
    LiteralPieces(s, i, raw);
    LiteralLexes(s, i, raw, i + 1 + |raw|, strtod);
    LiteralOfEscaped(v);
  }

  /** A quoted string alone is one literal token and the end of the input. */
  lemma {:induction false} QuotedTokenizes(v: Text, strtod: Strtod)
    ensures var n := |Quoted(v)|;
            Tokenize(Quoted(v), strtod) == Ok([Token(StrLit(EscapedText(v)), 0, n), Token(Eof, n, n)])
  {
    var s := Quoted(v);
    var n := |s|;
    QuotedLexesBack(s, 0, v, strtod);
    OnlyToken(s, StrLit(EscapedText(v)), strtod);
  }

  /** A text that one token takes up. */
  lemma {:induction false} OnlyToken(s: Text, k: Kind, strtod: Strtod)
    requires s != [] && !k.Eof? && GapEnd(s, 0) == 0
    requires NextToken(s, 0, strtod) == Ok(Token(k, 0, |s|))
    ensures Tokenize(s, strtod) == Ok([Token(k, 0, |s|), Token(Eof, |s|, |s|)])
  {
    var t, eof := Token(k, 0, |s|), Token(Eof, |s|, |s|);
    assert Tokens(s, |s|, strtod) == Ok([eof]);
    assert [t] + [eof] == [t, eof];
  }

  // ---------- integer literals ----------

  /** The value with and without the digits that no longer fit. */
  lemma {:induction false} DroppedDigits(kept: Text, dropped: Text, base: nat)
    requires base >= 2 && dropped != []
    ensures Value(kept + dropped, base) >= Value(kept, base)
    ensures Value(kept + dropped, base) == Value(kept, base) <==> Value(kept + dropped, base) == 0
  {
    ValueAppend(kept, dropped, base);
    PowerAtLeastTwo(base, |dropped|);
    ShiftedGrows(Value(kept, base), Power(base, |dropped|), Value(dropped, base));
  }

  function Judged(v: nat): Option<nat> { if v > MAX_LONG then None else Some(v) }

  /**
    * A literal has the value its digits stand for, or is rejected as out of range, exactly when
    * all digits fit the buffer, those that fit are out of range already, or all are zeros.
    */
  lemma {:induction false} IntegerExactly(digits: Text, base: Radix, room: nat)
    ensures Judged(Value(Fitting(digits, room), base.Base())) == Judged(Value(digits, base.Base())) <==>
            || |digits| <= room
            || Value(digits[..room], base.Base()) > MAX_LONG
            || Value(digits, base.Base()) == 0
  {
    if |digits| > room {
      assert digits == digits[..room] + digits[room..];
      DroppedDigits(digits[..room], digits[room..], base.Base());
    }
  }

  /** What follows a number ends it. */
  predicate EndsNumber(c: byte, base: Radix) { !DigitClass(base)(c) && c != DOT && !IsE(c) }

  /** A run of digits is lexed to the value of those of its digits that fit. */
  lemma {:induction false} DecimalLexes(s: Text, i: nat, end: nat, strtod: Strtod)
    requires i < end <= |s| && IsDecDigit(s[i])
    requires forall k :: i <= k < end ==> DigitClass(Dec)(s[k])
    requires s[i] == ZERO && i + 1 < end ==> s[i + 1] != UNDERSCORE
    requires EndsNumber(At(s, end), Dec)
    requires s[i] == ZERO && end == i + 1 ==> At(s, end) !in {LETTER_X, CAPITAL_X, LETTER_B, CAPITAL_B}
    ensures NextToken(s, i, strtod) == IntegerToken(s, i, end, Dec, Fitting(NoUnderscores(s[i..end]), BUFFER))
  {
    RunIs(s, i, end, DigitClass(Dec));
    if s[i] == ZERO && end == i + 1 {
      assert s[i..end] == [ZERO];
      assert NoUnderscores([ZERO]) == [ZERO] + [];
      assert Value([ZERO], 10) == Value([], 10) * 10 + 0;
    }
  }

  lemma {:induction false} PrefixedLexes(s: Text, i: nat, end: nat, base: Radix, strtod: Strtod)
    requires base != Dec && i + 2 < end <= |s| && s[i] == ZERO
    requires if base == Hex then s[i + 1] in {LETTER_X, CAPITAL_X} else s[i + 1] in {LETTER_B, CAPITAL_B}
    requires IsDigit(base, s[i + 2]) && forall k :: i + 2 <= k < end ==> DigitClass(base)(s[k])
    requires EndsNumber(At(s, end), base)
    ensures NextToken(s, i, strtod) ==
            IntegerToken(s, i, end, base, Fitting(NoUnderscores(s[i + 2..end]), BUFFER - 2))
  {
    RunIs(s, i + 2, end, DigitClass(base));
    PrefixLeavesRoom(s[i..i + 2], NoUnderscores(s[i + 2..end]));
  }

  /** No digit is lost, or none that counts. */
  predicate DigitsCount(digits: Text, base: Radix, room: nat) {
    |digits| <= room || Value(digits[..room], base.Base()) > MAX_LONG || Value(digits, base.Base()) == 0
  }

  lemma {:induction false} TokenExactly(s: Text, i: nat, end: nat, base: Radix, digits: Text, room: nat)
    requires i < end <= |s|
    ensures IntegerToken(s, i, end, base, Fitting(digits, room)) == IntegerToken(s, i, end, base, digits) <==>
            DigitsCount(digits, base, room)
  {
    IntegerExactly(digits, base, room);
  }

  /** The token of a decimal literal is that of all its digits exactly then. */
  lemma {:induction false} DecimalTokenExactly(s: Text, i: nat, end: nat, strtod: Strtod)
    requires i < end <= |s| && IsDecDigit(s[i])
    requires forall k :: i <= k < end ==> DigitClass(Dec)(s[k])
    requires s[i] == ZERO && i + 1 < end ==> s[i + 1] != UNDERSCORE
    requires EndsNumber(At(s, end), Dec)
    requires s[i] == ZERO && end == i + 1 ==> At(s, end) !in {LETTER_X, CAPITAL_X, LETTER_B, CAPITAL_B}
    ensures NextToken(s, i, strtod) == IntegerToken(s, i, end, Dec, NoUnderscores(s[i..end])) <==>
            DigitsCount(NoUnderscores(s[i..end]), Dec, BUFFER)
  {
    DecimalLexes(s, i, end, strtod);
    TokenExactly(s, i, end, Dec, NoUnderscores(s[i..end]), BUFFER);
  }

  lemma {:induction false} PrefixedTokenExactly(s: Text, i: nat, end: nat, base: Radix, strtod: Strtod)
    requires base != Dec && i + 2 < end <= |s| && s[i] == ZERO
    requires if base == Hex then s[i + 1] in {LETTER_X, CAPITAL_X} else s[i + 1] in {LETTER_B, CAPITAL_B}
    requires IsDigit(base, s[i + 2]) && forall k :: i + 2 <= k < end ==> DigitClass(base)(s[k])
    requires EndsNumber(At(s, end), base)
    ensures NextToken(s, i, strtod) == IntegerToken(s, i, end, base, NoUnderscores(s[i + 2..end])) <==>
            DigitsCount(NoUnderscores(s[i + 2..end]), base, BUFFER - 2)
  {
    PrefixedLexes(s, i, end, base, strtod);
    TokenExactly(s, i, end, base, NoUnderscores(s[i + 2..end]), BUFFER - 2);
  }

  function Zeros(n: nat): (r: Text)
    ensures |r| == n && forall i :: 0 <= i < n ==> r[i] == ZERO
  {
    seq(n, i => ZERO)
  }

  lemma {:induction false} ZerosAreNothing(n: nat)
    ensures Value(Zeros(n), 10) == 0
  {
    if n > 0 {
      ZerosAreNothing(n - 1);
      assert Zeros(n)[..n - 1] == Zeros(n - 1);
    }
  }

  /** A one behind 127 zeros is lexed as zero. */
  lemma {:induction false} LastDigitLost(strtod: Strtod)
    ensures var s := Zeros(BUFFER) + [ZERO + 1];
            NextToken(s, 0, strtod) == Ok(Token(IntLit(0, Dec), 0, |s|)) && Value(NoUnderscores(s), 10) == 1
  {
    var s := Zeros(BUFFER) + [ZERO + 1];
    NoneToDrop(s);
    ZerosAreNothing(BUFFER);
    assert s[0..|s|] == s && s[..BUFFER] == Zeros(BUFFER) && s[..|s| - 1] == Zeros(BUFFER);
    DecimalLexes(s, 0, |s|, strtod);
  }

  // ---------- printed integers ----------

  lemma {:induction false} PrintedDecimal(v: nat, strtod: Strtod)
    requires v <= MAX_LONG
    ensures var s := InBase(v, Dec); NextToken(s, 0, strtod) == Ok(Token(IntLit(v, Dec), 0, |s|))
  {
    var s := InBase(v, Dec);
    assert s[0..|s|] == s;
    DigitsLex(s, 0, v, Dec);
    InBaseValue(v, Dec);
    DecimalLexes(s, 0, |s|, strtod);
  }

  lemma {:induction false} PrintedPrefixed(v: nat, base: Radix, strtod: Strtod)
    requires v <= MAX_LONG && base != Dec
    ensures var s := Prefix(base) + InBase(v, base); NextToken(s, 0, strtod) == Ok(Token(IntLit(v, base), 0, |s|))
  {
    var digits := InBase(v, base);
    var s := Prefix(base) + digits;
    assert s[2..|s|] == digits;
    DigitsLex(s, 2, v, base);
    InBaseValue(v, base);
    assert forall k :: 2 <= k < |s| ==> s[k] == digits[k - 2];
    PrefixedLexes(s, 0, |s|, base, strtod);
  }

  /** Printing an integer token and lexing the text gives it back, in its own radix. */
  lemma {:induction false} PrintedIntegerLexesBack(v: nat, base: Radix, strtod: Strtod)
    requires v <= MAX_LONG
    ensures var s := Printed(IntLit(v, base));
            Tokenize(s, strtod) == Ok([Token(IntLit(v, base), 0, |s|), Token(Eof, |s|, |s|)])
  {
    var s := Printed(IntLit(v, base));
    if base == Dec {
      assert s == InBase(v, base);
      PrintedDecimal(v, strtod);
    } else {
      PrintedPrefixed(v, base, strtod);
    }
    InBaseValue(v, base);
    OnlyToken(s, IntLit(v, base), strtod);
  }

  // ---------- printed string literals ----------

  /** Every character written plainly is one that printing keeps, itself or as an escape. */
  predicate PlainlyPrintable(raw: Text) {
    raw != [] ==>
      if raw[0] == BACKSLASH && |raw| > 1 then PlainlyPrintable(raw[2..])
      else (IsPrint(raw[0]) || raw[0] == TAB || raw[0] == RETURN || raw[0] == NOT_PRINTABLE) && PlainlyPrintable(raw[1..])
  }

  /** A literal as the lexer accepts it, printed, still has its value exactly when all is printable. */
  lemma {:induction false} PrintedLiteralExactly(raw: Text)
    requires RawString(raw)
    ensures LiteralValue(PrintedRaw(raw)) == LiteralValue(raw) <==> PlainlyPrintable(raw)
    decreases |raw|
  {
    if raw != [] {
      if raw[0] == BACKSLASH {
        PrintedLiteralExactly(raw[2..]);
        var printed := PrintedRaw(raw[2..]);
        assert ([BACKSLASH, raw[1]] + printed)[2..] == printed;
        SameTail(Unescape(raw[1]), Unescape(raw[1]), LiteralValue(printed), LiteralValue(raw[2..]));
      } else {
        PrintedLiteralExactly(raw[1..]);
        var c, rest := raw[0], PrintedRaw(raw[1..]);
        PrintedHead(c, rest);
        SameTail(if IsPrint(c) || c == TAB || c == RETURN then c else NOT_PRINTABLE, c,
                 LiteralValue(rest), LiteralValue(raw[1..]));
      }
    }
  }
}
