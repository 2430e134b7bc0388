/** Which tokens survive being printed: the text of the others no longer lexes to them. */
module PrintedTokens {
  import opened Common
  import opened Lexer
  import opened LexerProofs
  import opened TextRuns
  import opened SpelledText

  /** The same kind with the same value; a string literal may be written differently. */
  predicate SameValue(a: Kind, b: Kind) {
    a == b || (a.StrLit? && b.StrLit? && LiteralValue(a.raw) == LiteralValue(b.raw))
  }

  /** The text is one token, the one asked for. */
  predicate LexesTo(s: Text, k: Kind, strtod: Strtod) {
    var ts := Tokenize(s, strtod);
    ts.Ok? && |ts.value| == 2 && ts.value[1].kind.Eof? && SameValue(ts.value[0].kind, k)
  }

  predicate PrintsBack(k: Kind, strtod: Strtod) { LexesTo(Printed(k), k, strtod) }

  /** The tokens that Token::print has a text for, and that this text leaves as they are. */
  predicate Printable(k: Kind) {
    match k
    case Eof | Minus | DoubleMinus | Times => false
    case StrLit(raw) => PlainlyPrintable(raw)
    case _ => true
  }

  // ---------- each kind ----------

  lemma {:induction false} WordLexes(text: Text, strtod: Strtod)
    requires StartsWord(text) && All(text, IsIdent)
    ensures NextToken(text, 0, strtod) == Ok(Token(WordKind(text), 0, |text|)) && GapEnd(text, 0) == 0
  {
    RunIs(text, 1, |text|, IsIdent);
    assert text[0..|text|] == text;
    assert |text| > 1 ==> IsIdent(text[1]);
  }

  lemma {:induction false} WordPrintsBack(k: Kind, strtod: Strtod)
    requires k.True? || k.False? || (k.Id? && Spells(k.text, k, strtod))
    ensures PrintsBack(k, strtod)
  {
    WordLexes(Printed(k), strtod);
    OnlyToken(Printed(k), k, strtod);
  }

  lemma {:induction false} ShortPrintsBack(name: Text, strtod: Strtod)
    requires name != [] && name[0] != MINUS && All(name, IsFlagChar)
    ensures PrintsBack(FlagShort(name), strtod)
  {
    var s := [MINUS] + name;
    assert forall k :: 1 <= k < |s| ==> s[k] == name[k - 1];
    RunIs(s, 1, |s|, IsFlagChar);
    assert s[1..|s|] == name;
    OnlyToken(s, FlagShort(name), strtod);
  }

  lemma {:induction false} LongPrintsBack(name: Text, strtod: Strtod)
    requires name != [] && All(name, IsLongFlagChar)
    ensures PrintsBack(FlagLong(name), strtod)
  {
    var s := [MINUS, MINUS] + name;
    FlagLexes(s, 0, name, strtod);
    assert s[0] == MINUS;
    OnlyToken(s, FlagLong(name), strtod);
  }

  /** Printing keeps what the lexer demands of a literal. */
  lemma {:induction false} PrintedIsRaw(raw: Text)
    requires RawString(raw)
    ensures RawString(PrintedRaw(raw))
    decreases |raw|
  {
    if raw != [] {
      if raw[0] == BACKSLASH {
        PrintedIsRaw(raw[2..]);
        assert ([BACKSLASH, raw[1]] + PrintedRaw(raw[2..]))[2..] == PrintedRaw(raw[2..]);
      } else {
        PrintedIsRaw(raw[1..]);
        var p, rest := PrintedChar(raw[0]), PrintedRaw(raw[1..]);
        assert (p + rest)[|p|..] == rest;
      }
    }
  }

  lemma {:induction false} LiteralPrintsBack(raw: Text, strtod: Strtod)
    requires RawString(raw)
    ensures PrintsBack(StrLit(raw), strtod) <==> PlainlyPrintable(raw)
  {
    var printed := PrintedRaw(raw);
    var s := [QUOTE] + printed + [QUOTE];
    PrintedIsRaw(raw);
    LiteralPieces(s, 0, printed);
    LiteralLexes(s, 0, printed, 1 + |printed|, strtod);
    OnlyToken(s, StrLit(printed), strtod);
    PrintedLiteralExactly(raw);
  }

  lemma {:induction false} UnknownPrints(k: Kind, strtod: Strtod)
    requires k.Eof? || k.Minus? || k.DoubleMinus? || k.Times?
    ensures !PrintsBack(k, strtod)
  {
    var s := Printed(k);
    assert s[0] == 0x4C && GapEnd(s, 0) == 0;
    var t := NextToken(s, 0, strtod).value;
    assert t.kind.Id? || t.kind.True? || t.kind.False?;
    if Tokenize(s, strtod).Ok? {
      assert Tokenize(s, strtod).value[0] == t;
    }
  }

  /**
    * A token as the lexer makes it, printed, lexes back to one token with its value exactly when it
    * is not the end, `-`, `--` or `*`, nor a literal with characters that are not printable. The
    * printed form of a float is a parameter of the model.
    */
  lemma {:induction false} PrintsBackExactly(piece: Text, k: Kind, strtod: Strtod)
    requires Spells(piece, k, strtod) && !k.FloatLit?
    ensures PrintsBack(k, strtod) <==> Printable(k)
  {
    match k
    case True | False | Id(_) => WordPrintsBack(k, strtod);
    case FlagShort(name) => ShortPrintsBack(name, strtod);
    case FlagLong(name) => LongPrintsBack(name, strtod);
    case StrLit(raw) => LiteralPrintsBack(raw, strtod);
    case IntLit(v, base) => PrintedIntegerLexesBack(v, base, strtod);
    case _ => UnknownPrints(k, strtod);
  }

  /** The same of every token of every text. */
  lemma {:induction false} TokensPrintBackExactly(s: Text, t: Token, strtod: Strtod)
    requires Tokenize(s, strtod).Ok? && t in Tokenize(s, strtod).value && !t.kind.FloatLit?
    ensures PrintsBack(t.kind, strtod) <==> Printable(t.kind)
  {
    TokensSpell(s, 0, strtod);
    PrintsBackExactly(s[t.start..t.end], t.kind, strtod);
  }

  /** A control character in a literal is printed as another. */
  lemma {:induction false} ControlCharacterLost(strtod: Strtod)
    ensures RawString([BACKSPACE]) && !PrintsBack(StrLit([BACKSPACE]), strtod)
  {
    LiteralPrintsBack([BACKSPACE], strtod);
  }

  // ---------- integers ----------

  /** Digits without a needless zero in front. */
  predicate CanonicalDigits(digits: Text, base: Radix) {
    && digits != [] && (digits[0] == ZERO ==> |digits| == 1)
    && forall i :: 0 <= i < |digits| ==> IsDigit(base, digits[i]) && !(CAPITAL_A <= digits[i] < ZERO)
  }

  /** An integer as it is printed: small letters, no underscore, nothing before or behind it. */
  predicate CanonicalInteger(s: Text, base: Radix) {
    |Prefix(base)| < |s| && s[..|Prefix(base)|] == Prefix(base) && CanonicalDigits(s[|Prefix(base)|..], base)
  }

  lemma {:induction false} SmallDigits(v: nat, base: Radix)
    ensures forall i :: 0 <= i < |InBase(v, base)| ==> !(CAPITAL_A <= InBase(v, base)[i] < ZERO)
    decreases v
  {
    if v >= base.Base() {
      SmallDigits(v / base.Base(), base);
    }
  }

  lemma {:induction false} InBaseCanonical(v: nat, base: Radix)
    ensures CanonicalDigits(InBase(v, base), base)
  {
    InBaseValue(v, base);
    SmallDigits(v, base);
    var d := InBase(v, base);
    assert forall i :: 0 <= i < |d| ==> DigitClass(base)(d[i]) && d[i] in d;
  }

  lemma {:induction false} LeadingDigitCounts(digits: Text, base: Radix)
    requires CanonicalDigits(digits, base) && digits[0] != ZERO
    ensures Value(digits, base.Base()) >= 1
  {
    var init := digits[..|digits| - 1];
    if init != [] {
      LeadingDigitCounts(init, base);
      var v, b := Value(init, base.Base()), base.Base();
      ProductsGrow(0, v, b);
    } else {
      assert Value([], base.Base()) * base.Base() == 0;
    }
  }

  lemma {:induction false} DigitOf(c: byte, base: Radix)
    requires IsDigit(base, c) && !(CAPITAL_A <= c < ZERO)
    ensures DigitValue(c) < base.Base() && Digit(DigitValue(c)) == c
  {
  }

  /** The digits are what their value is printed as. */
  predicate IsInBase(digits: Text, base: Radix) { InBase(Value(digits, base.Base()), base) == digits }

  lemma {:induction false} OneDigit(c: byte, base: Radix)
    requires IsDigit(base, c) && !(CAPITAL_A <= c < ZERO)
    ensures IsInBase([c], base)
  {
    DigitOf(c, base);
    assert [c][..0] == [] && Value([], base.Base()) * base.Base() == 0;
  }

  lemma {:induction false} OneMoreDigit(init: Text, last: byte, base: Radix)
    requires IsDigit(base, last) && !(CAPITAL_A <= last < ZERO)
    requires Value(init, base.Base()) >= 1 && IsInBase(init, base)
    ensures IsInBase(init + [last], base)
  {
    var b := base.Base();
    var v, d := Value(init, b), DigitValue(last);
    DigitOf(last, base);
    assert (init + [last])[..|init|] == init;
    QuotientUnique(v * b + d, v, d, b);
    ProductsGrow(0, v, b);
  }

  /** Canonical digits are the only ones for their value. */
  lemma {:induction false} CanonicalIsInBase(digits: Text, base: Radix)
    requires CanonicalDigits(digits, base)
    ensures IsInBase(digits, base)
  {
    var init, last := digits[..|digits| - 1], digits[|digits| - 1];
    assert digits == init + [last];
    if init == [] {
      OneDigit(last, base);
      assert digits == [last];
    } else {
      assert CanonicalDigits(init, base);
      CanonicalIsInBase(init, base);
      LeadingDigitCounts(init, base);
      OneMoreDigit(init, last, base);
    }
  }

  lemma {:induction false} CanonicalNoUnderscore(digits: Text, base: Radix)
    requires CanonicalDigits(digits, base)
    ensures NoUnderscores(digits) == digits
  {
    forall i | 0 <= i < |digits|
      ensures digits[i] != UNDERSCORE
    {
      assert IsDigit(base, digits[i]);
    }
    NoneToDrop(digits);
  }

  lemma {:induction false} CanonicalDecimalLexes(s: Text, strtod: Strtod)
    requires CanonicalDigits(s, Dec)
    ensures GapEnd(s, 0) == 0 && NextToken(s, 0, strtod) == IntegerToken(s, 0, |s|, Dec, Fitting(s, BUFFER))
  {
    CanonicalNoUnderscore(s, Dec);
    assert s[0..|s|] == s;
    DecimalLexes(s, 0, |s|, strtod);
  }

  lemma {:induction false} CanonicalPrefixedLexes(digits: Text, base: Radix, strtod: Strtod)
    requires base != Dec && CanonicalDigits(digits, base)
    ensures var s := Prefix(base) + digits;
            && GapEnd(s, 0) == 0
            && NextToken(s, 0, strtod) == IntegerToken(s, 0, |s|, base, Fitting(digits, BUFFER - 2))
  {
    var s := Prefix(base) + digits;
    CanonicalNoUnderscore(digits, base);
    DigitsBehindPrefix(digits, base);
    PrefixedLexes(s, 0, |s|, base, strtod);
  }

  lemma {:induction false} DigitsBehindPrefix(digits: Text, base: Radix)
    requires base != Dec && CanonicalDigits(digits, base)
    ensures var s := Prefix(base) + digits;
            && s[2..|s|] == digits && s[0] == ZERO && s[1] == Prefix(base)[1] && IsDigit(base, s[2])
            && forall k :: 2 <= k < |s| ==> DigitClass(base)(s[k])
  {
    var s := Prefix(base) + digits;
    forall k | 2 <= k < |s|
      ensures DigitClass(base)(s[k])
    {
      assert s[k] == digits[k - 2];
    }
  }

  /** What the lexer makes of a canonical integer: the value of the digits that fit, or a rejection. */
  lemma {:induction false} CanonicalLexes(s: Text, base: Radix, strtod: Strtod)
    requires CanonicalInteger(s, base)
    ensures var skip := |Prefix(base)|;
            && GapEnd(s, 0) == 0
            && NextToken(s, 0, strtod) == IntegerToken(s, 0, |s|, base, Fitting(s[skip..], BUFFER - skip))
  {
    if base == Dec {
      assert s[0..] == s;
      CanonicalDecimalLexes(s, strtod);
    } else {
      assert s == Prefix(base) + s[2..];
      CanonicalPrefixedLexes(s[2..], base, strtod);
    }
  }

  /** Canonical digits that are too many for the buffer are too many for 64 bits. */
  lemma {:induction false} TooManyDigits(digits: Text, base: Radix, room: nat)
    requires CanonicalDigits(digits, base) && |digits| > room > 64
    ensures Value(digits[..room], base.Base()) > MAX_LONG
  {
    var kept := digits[..room];
    CanonicalIsInBase(kept, base);
    if Value(kept, base.Base()) <= MAX_LONG {
      PrintedFits(Value(kept, base.Base()), base);
    }
  }

  lemma {:induction false} CanonicalIsPrinted(s: Text, v: nat, base: Radix, strtod: Strtod)
    requires NextToken(s, GapEnd(s, 0), strtod).Ok? && NextToken(s, GapEnd(s, 0), strtod).value.kind == IntLit(v, base)
    requires CanonicalInteger(s, base)
    ensures Printed(IntLit(v, base)) == s
  {
    var skip := |Prefix(base)|;
    var digits := s[skip..];
    CanonicalLexes(s, base, strtod);
    if |digits| > BUFFER - skip {
      TooManyDigits(digits, base, BUFFER - skip);
    }
    CanonicalIsInBase(digits, base);
    assert s == s[..skip] + digits;
  }

  lemma {:induction false} PrintedIsCanonical(v: nat, base: Radix)
    ensures CanonicalInteger(Printed(IntLit(v, base)), base)
  {
    var printed, skip := Printed(IntLit(v, base)), |Prefix(base)|;
    InBaseCanonical(v, base);
    assert printed[..skip] == Prefix(base) && printed[skip..] == InBase(v, base);
  }

  /** A text that is one integer token is what printing the token gives exactly when it is canonical. */
  lemma {:induction false} PrintedAsWrittenExactly(s: Text, v: nat, base: Radix, strtod: Strtod)
    requires Tokenize(s, strtod).Ok? && Tokenize(s, strtod).value[0].kind == IntLit(v, base)
    ensures Printed(IntLit(v, base)) == s <==> CanonicalInteger(s, base)
  {
    PrintedIsCanonical(v, base);
    if CanonicalInteger(s, base) {
      CanonicalIsPrinted(s, v, base, strtod);
    }
  }
}
