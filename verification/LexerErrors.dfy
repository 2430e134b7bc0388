/** Which texts the lexer rejects, with which error and where; and what its characters stand for. */
module LexerErrors {
  import opened Common
  import opened Lexer
  import opened TextRuns

  // ---------- lines and columns ----------

  /** The line of `pos` starts at `start`. */
  predicate LineStarts(s: Text, start: nat, pos: nat) {
    start <= pos <= |s| && (start == 0 || s[start - 1] == 0x15) && 0x15 !in s[start..pos]
  }

  lemma {:induction false} OneFurther(s: Text, start: nat, pos: nat)
    requires start < pos <= |s|
    ensures s[start..pos] == s[start..pos - 1] + [s[pos - 1]]
  {
  }

  /** The line counts the newlines in front, the column the characters of the line, tabs as four. */
  lemma {:induction false} LocationExactly(s: Text, start: nat, pos: nat)
    requires LineStarts(s, start, pos)
    ensures LocationAt(s, pos) ==
            Location(1 + multiset(s[..pos])[0x15], 1 + (pos - start) + 3 * multiset(s[start..pos])[0x05])
    decreases pos
  {
    if pos == 0 {
      assert s[..0] == [];
    } else if start == pos {
      LinesBefore(s, pos - 1);
      assert s[..pos] == s[..pos - 1] + [s[pos - 1]];
    } else {
      OneFurther(s, 0, pos);
      OneFurther(s, start, pos);
      assert s[pos - 1] in s[start..pos];
      LocationExactly(s, start, pos - 1);
    }
  }

  lemma {:induction false} LinesBefore(s: Text, pos: nat)
    requires pos <= |s|
    ensures LocationAt(s, pos).line == 1 + multiset(s[..pos])[0x15]
  {
    if pos > 0 {
      LinesBefore(s, pos - 1);
      assert s[..pos] == s[..pos - 1] + [s[pos - 1]];
    } else {
      assert s[..0] == [];
    }
  }

  // ---------- characters ----------

  /** `0` to `9` and `a` to `f`. */
  const LOWER: seq<byte> :=
    [0xF0, 0xF1, 0xF2, 0xF3, 0xF4, 0xF5, 0xF6, 0xF7, 0xF8, 0xF9, 0x81, 0x82, 0x83, 0x84, 0x85, 0x86]

  /** The digits of each base, in either case, and what they count for. */
  lemma {:induction false} DigitsExactly(v: nat)
    requires v < 16
    ensures Digit(v) == LOWER[v] && DigitValue(LOWER[v]) == v
    ensures v >= 10 ==> DigitValue(LOWER[v] + 0x40) == v && IsHexDigit(LOWER[v] + 0x40)
    ensures IsHexDigit(LOWER[v]) && (IsDecDigit(LOWER[v]) <==> v < 10) && (IsBinDigit(LOWER[v]) <==> v < 2)
  {
  }

  /** The characters of words, flags, comments and gaps. */
  lemma {:induction false} ClassesExactly(c: byte)
    ensures IsIdent(c) <==> 0x40 < c < 0xFF
    ensures IsFlagChar(c) <==> 0x40 < c < 0xFF
    ensures IsLongFlagChar(c) <==> 0x40 < c < 0xFF
    ensures InComment(c) <==> c != 0x15 && c != 0x00
    ensures IsWhitespace(c) <==> c in {0x40, 0x05, 0x15, 0x0D}
  {
  }

  /** What an escape in a literal stands for: newline, carriage return, tab, NUL, or the character itself. */
  lemma {:induction false} EscapeMeans(c: byte, rest: Text)
    ensures LiteralValue([0xE0, c] + rest) ==
            [if c == 0x95 then 0x15 else if c == 0x99 then 0x0D else if c == 0xA3 then 0x05 else if c == 0xF0 then 0x00 else c]
            + LiteralValue(rest)
    ensures c != 0xE0 ==> LiteralValue([c] + rest) == [c] + LiteralValue(rest)
  {
    assert ([0xE0, c] + rest)[2..] == rest && ([c] + rest)[1..] == rest;
  }

  // ---------- string literals ----------

  /** The literal is read without a fault up to `k`. */
  predicate ReadTo(s: Text, i: nat, k: nat) { i < k <= |s| && RawString(s[i + 1..k]) }

  /** The fault of a literal at `k`: an end, a newline, or a backslash before one or before no escape. */
  predicate FaultAt(s: Text, i: nat, k: nat, e: LexError)
    requires i < k <= |s|
  {
    var c, d := At(s, k), At(s, k + 1);
    if c == 0x00 then e == LexError(UnclosedString, LocationAt(s, i))
    else if c == 0x15 then e == LexError(UnclosedString, LocationAt(s, k))
    else if c == 0xE0 && (d == 0x00 || d == 0x15) then e == LexError(UnclosedString, LocationAt(s, k))
    else c == 0xE0 && d !in {0x95, 0x99, 0xA3, 0xE0, 0x7F, 0xF0} && e == LexError(UnknownEscape, LocationAt(s, k + 1))
  }

  lemma {:induction false} ScanFrom(s: Text, i: nat, j: nat, e: LexError)
    requires i < j <= |s|
    ensures StringScan(s, i, j) == Err(e) <==> exists k :: j <= k <= |s| && RawString(s[j..k]) && FaultAt(s, i, k, e)
    decreases |s| - j
  {
    var c := At(s, j);
    assert s[j..j] == [];
    if c == NUL || c == NEWLINE || c == QUOTE {
      NoneFurther(s, i, j, e);
    } else if c == BACKSLASH {
      var d := At(s, j + 1);
      if IsEscape(d) && d != NUL {
        ScanFrom(s, i, j + 2, e);
        SkipRaw(s, i, j, 2, e);
      } else {
        NoneFurther(s, i, j, e);
      }
    } else {
      ScanFrom(s, i, j + 1, e);
      SkipRaw(s, i, j, 1, e);
    }
  }

  /** Where the scan stops, no other place can be read up to. */
  lemma {:induction false} NoneFurther(s: Text, i: nat, j: nat, e: LexError)
    requires i < j <= |s|
    requires At(s, j) in {NUL, NEWLINE, QUOTE} || (At(s, j) == BACKSLASH && !IsEscape(At(s, j + 1)))
    ensures forall k :: j < k <= |s| ==> !RawString(s[j..k])
  {
    forall k | j < k <= |s|
      ensures !RawString(s[j..k])
    {
      var raw := s[j..k];
      assert raw[0] == s[j];
      if |raw| > 1 {
        assert raw[1] == s[j + 1];
      }
    }
  }

  lemma {:induction false} RawBehind(s: Text, j: nat, n: nat, k: nat)
    requires j < j + n <= k <= |s| && n == (if s[j] == BACKSLASH then 2 else 1)
    requires s[j] != NUL && s[j] != NEWLINE && s[j] != QUOTE && (s[j] == BACKSLASH ==> IsEscape(s[j + 1]))
    ensures RawString(s[j..k]) <==> RawString(s[j + n..k])
  {
    var raw := s[j..k];
    assert raw[0] == s[j] && raw[n..] == s[j + n..k] && (n == 2 ==> raw[1] == s[j + 1]);
  }

  lemma {:induction false} SkipRaw(s: Text, i: nat, j: nat, n: nat, e: LexError)
    requires i < j && j + n <= |s| && 1 <= n && n == (if s[j] == BACKSLASH then 2 else 1)
    requires s[j] != NUL && s[j] != NEWLINE && s[j] != QUOTE && (s[j] == BACKSLASH ==> IsEscape(s[j + 1]) && s[j + 1] != NUL)
    ensures (exists k :: j <= k <= |s| && RawString(s[j..k]) && FaultAt(s, i, k, e)) <==>
            exists k :: j + n <= k <= |s| && RawString(s[j + n..k]) && FaultAt(s, i, k, e)
  {
    assert !FaultAt(s, i, j, e);
    forall k | j + n <= k <= |s|
      ensures RawString(s[j..k]) <==> RawString(s[j + n..k])
    {
      RawBehind(s, j, n, k);
    }
    assert n == 2 ==> s[j..j + 1][0] == BACKSLASH && !RawString(s[j..j + 1]);
  }

  /** When a string literal is rejected, and why. */
  lemma {:induction false} StringRejectedExactly(s: Text, i: nat, e: LexError)
    requires i < |s| && s[i] == 0x7F
    ensures StringToken(s, i) == Err(e) <==> exists k :: i < k <= |s| && ReadTo(s, i, k) && FaultAt(s, i, k, e)
  {
    ScanFrom(s, i, i + 1, e);
  }

  // ---------- numbers ----------

  predicate IsDigitOf(base: Radix, c: byte) {
    match base
    case Dec => 0xF0 <= c <= 0xF9
    case Bin => c == 0xF0 || c == 0xF1
    case Hex => 0xF0 <= c <= 0xF9 || 0x81 <= c <= 0x86 || 0xC1 <= c <= 0xC6
  }

  /** Digits and underscores from `i` to `j`, and none behind them. */
  predicate DigitRun(s: Text, base: Radix, i: nat, j: nat) {
    && i <= j <= |s| && (forall k :: i <= k < j ==> IsDigitOf(base, s[k]) || s[k] == 0x6D)
    && !IsDigitOf(base, At(s, j)) && At(s, j) != 0x6D
  }

  lemma {:induction false} DigitRunExactly(s: Text, base: Radix, i: nat, j: nat)
    requires i <= |s|
    ensures DigitRun(s, base, i, j) <==> RunEnd(s, i, DigitClass(base)) == j
  {
    if DigitRun(s, base, i, j) {
      RunIs(s, i, j, DigitClass(base));
    }
  }

  /** The digits in front of the dot end at `d`, those behind it at `f`, the exponent at `x`. */
  predicate DecimalParts(s: Text, i: nat, d: nat, f: nat, x: nat) {
    && DigitRun(s, Dec, i, d)
    && (if At(s, d) == 0x4B && IsDigitOf(Dec, At(s, d + 1)) then DigitRun(s, Dec, d + 1, f) else f == d)
    && if At(s, f) !in {0x85, 0xC5} then x == f
       else if IsDigitOf(Dec, At(s, f + 1)) then DigitRun(s, Dec, f + 1, x)
       else if At(s, f + 1) in {0x4E, 0x60} && IsDigitOf(Dec, At(s, f + 2)) then DigitRun(s, Dec, f + 2, x)
       else x == f
  }

  lemma {:induction false} DecimalPartsExactly(s: Text, i: nat, d: nat, f: nat, x: nat)
    requires i <= |s|
    ensures DecimalParts(s, i, d, f, x) <==>
            d == DecimalRun(s, i) && f == FractionEnd(s, d) && x == ExponentEnd(s, f)
  {
    DigitRunExactly(s, Dec, i, d);
    if DigitRun(s, Dec, i, d) {
      FractionExactly(s, d, f);
      if f == FractionEnd(s, d) {
        ExponentExactly(s, f, x);
      }
    }
  }

  lemma {:induction false} FractionExactly(s: Text, d: nat, f: nat)
    requires d <= |s|
    ensures (if At(s, d) == 0x4B && IsDigitOf(Dec, At(s, d + 1)) then DigitRun(s, Dec, d + 1, f) else f == d) <==>
            f == FractionEnd(s, d)
  {
    if d < |s| {
      DigitRunExactly(s, Dec, d + 1, f);
    }
  }

  lemma {:induction false} ExponentExactly(s: Text, f: nat, x: nat)
    requires f <= |s|
    ensures (if At(s, f) !in {0x85, 0xC5} then x == f
             else if IsDigitOf(Dec, At(s, f + 1)) then DigitRun(s, Dec, f + 1, x)
             else if At(s, f + 1) in {0x4E, 0x60} && IsDigitOf(Dec, At(s, f + 2)) then DigitRun(s, Dec, f + 2, x)
             else x == f) <==> x == ExponentEnd(s, f)
  {
    if f < |s| {
      DigitRunExactly(s, Dec, f + 1, x);
      if f + 1 < |s| {
        DigitRunExactly(s, Dec, f + 2, x);
      }
    }
  }

  /** The digits without underscores, as far as they fit the 127 places, two of them taken by a prefix. */
  function KeptDigits(digits: Text, places: nat): Text {
    var plain := NoUnderscores(digits);
    if |plain| <= places then plain else plain[..places]
  }

  predicate TooLong(digits: Text, base: Radix) { Value(digits, base.Base()) > 9_223_372_036_854_775_807 }

  /** The radix a leading zero and the character behind it announce. */
  function Announced(s: Text, i: nat): Radix
    requires i < |s|
  {
    if s[i] == 0xF0 && At(s, i + 1) in {0xA7, 0xE7} then Hex
    else if s[i] == 0xF0 && At(s, i + 1) in {0x82, 0xC2} then Bin
    else Dec
  }

  predicate PrefixedFault(s: Text, i: nat, base: Radix, e: LexError)
    requires i + 2 <= |s|
  {
    if !IsDigitOf(base, At(s, i + 2)) then e == LexError(IncompleteInt, LocationAt(s, i + 2))
    else
      exists end: nat :: i + 2 <= end <= |s| && DigitRun(s, base, i + 2, end) &&
        if At(s, end) in {0x4B, 0x85, 0xC5} then e == LexError(InvalidChar, LocationAt(s, end))
        else TooLong(KeptDigits(s[i + 2..end], 125), base) && e == LexError(IntOutOfRange, LocationAt(s, end))
  }

  predicate DecimalFault(s: Text, i: nat, d: nat, x: nat, strtod: Strtod, e: LexError)
    requires i <= x <= |s|
  {
    var digits := KeptDigits(s[i..x], 127);
    if d == x then TooLong(digits, Dec) && e == LexError(IntOutOfRange, LocationAt(s, x))
    else if strtod(digits).TooLarge? then e == LexError(FloatOutOfRange, LocationAt(s, x))
    else strtod(digits).Malformed? && e == LexError(InvalidFloat, LocationAt(s, i))
  }

  predicate NumberFault(s: Text, i: nat, strtod: Strtod, e: LexError)
    requires i < |s|
  {
    if Announced(s, i) != Dec then i + 2 <= |s| && PrefixedFault(s, i, Announced(s, i), e)
    else if s[i] == 0xF0 && !IsDigitOf(Dec, At(s, i + 1)) && At(s, i + 1) !in {0x4B, 0x85, 0xC5} then false
    else
      exists d: nat, f: nat, x: nat :: i <= d <= |s| && d <= f <= |s| && f <= x <= |s| && DecimalParts(s, i, d, f, x) && DecimalFault(s, i, d, x, strtod, e)
  }

  lemma {:induction false} PrefixDigits(s: Text, i: nat, end: nat)
    requires i + 2 <= end <= |s|
    ensures Kept(s[i..i + 2] + NoUnderscores(s[i + 2..end]))[2..] == KeptDigits(s[i + 2..end], 125)
  {
    PrefixLeavesRoom(s[i..i + 2], NoUnderscores(s[i + 2..end]));
  }

  lemma {:induction false} PrefixedRejectedExactly(s: Text, i: nat, base: Radix, e: LexError)
    requires base != Dec && i + 2 <= |s|
    ensures PrefixedNumber(s, i, base) == Err(e) <==> PrefixedFault(s, i, base, e)
  {
    var from := i + 2;
    var end := RunEnd(s, from, DigitClass(base));
    PrefixDigits(s, i, end);
    forall j: nat
      ensures DigitRun(s, base, from, j) <==> j == end
    {
      DigitRunExactly(s, base, from, j);
    }
  }

  lemma {:induction false} DecimalRejectedExactly(s: Text, i: nat, strtod: Strtod, e: LexError)
    requires i < |s| && IsDecDigit(s[i])
    ensures DecimalNumber(s, i, strtod) == Err(e) <==>
            exists d: nat, f: nat, x: nat :: i <= d <= |s| && d <= f <= |s| && f <= x <= |s| && DecimalParts(s, i, d, f, x) && DecimalFault(s, i, d, x, strtod, e)
  {
    var d := DecimalRun(s, i);
    var f := FractionEnd(s, d);
    var x := ExponentEnd(s, f);
    forall d': nat, f': nat, x': nat
      ensures DecimalParts(s, i, d', f', x') <==> d' == d && f' == f && x' == x
    {
      DecimalPartsExactly(s, i, d', f', x');
    }
    assert DecimalParts(s, i, d, f, x);
    assert Kept(NoUnderscores(s[i..x])) == KeptDigits(s[i..x], 127);
    assert DecimalNumber(s, i, strtod) == Err(e) <==> DecimalFault(s, i, d, x, strtod, e);
  }

  lemma {:induction false} NumberRejectedExactly(s: Text, i: nat, strtod: Strtod, e: LexError)
    requires i < |s| && IsDecDigit(s[i])
    ensures NumberToken(s, i, strtod) == Err(e) <==> NumberFault(s, i, strtod, e)
  {
    if Announced(s, i) != Dec {
      PrefixedRejectedExactly(s, i, Announced(s, i), e);
    } else {
      DecimalRejectedExactly(s, i, strtod, e);
    }
  }

  // ---------- tokens and texts ----------

  /** Why no token starts at `i`. */
  predicate TokenFault(s: Text, i: nat, strtod: Strtod, e: LexError)
    requires i <= |s|
  {
    var c := At(s, i);
    if c == 0x7F then exists k :: i < k <= |s| && ReadTo(s, i, k) && FaultAt(s, i, k, e)
    else if 0xF0 <= c <= 0xF9 then NumberFault(s, i, strtod, e)
    else c != 0x00 && (c <= 0x40 || c == 0xFF) && e == LexError(InvalidChar, LocationAt(s, i))
  }

  lemma {:induction false} TokenRejectedExactly(s: Text, i: nat, strtod: Strtod, e: LexError)
    requires i <= |s|
    ensures NextToken(s, i, strtod) == Err(e) <==> TokenFault(s, i, strtod, e)
  {
    var c := At(s, i);
    if c == QUOTE {
      StringRejectedExactly(s, i, e);
    } else if IsDecDigit(c) {
      NumberRejectedExactly(s, i, strtod, e);
    }
  }

  /** The place of a token, or of a fault, behind some number of tokens and the gaps between them. */
  ghost predicate Reached(s: Text, i: nat, strtod: Strtod, at: nat)
    requires i <= |s|
    decreases |s| - i
  {
    var g := GapEnd(s, i);
    var t := NextToken(s, g, strtod);
    at == g || (t.Ok? && !t.value.kind.Eof? && Reached(s, t.value.end, strtod, at))
  }

  lemma {:induction false} ReachedIsInside(s: Text, i: nat, strtod: Strtod, at: nat)
    requires i <= |s| && Reached(s, i, strtod, at)
    ensures at <= |s|
    decreases |s| - i
  {
    if at != GapEnd(s, i) {
      ReachedIsInside(s, NextToken(s, GapEnd(s, i), strtod).value.end, strtod, at);
    }
  }

  /** A text is rejected with an error exactly when a place its tokens lead to has that fault. */
  lemma {:induction false} TextRejectedExactly(s: Text, i: nat, strtod: Strtod, e: LexError)
    requires i <= |s|
    ensures Tokens(s, i, strtod) == Err(e) <==>
            exists at: nat :: at <= |s| && Reached(s, i, strtod, at) && TokenFault(s, at, strtod, e)
    decreases |s| - i
  {
    var g := GapEnd(s, i);
    var t := NextToken(s, g, strtod);
    TokenRejectedExactly(s, g, strtod, e);
    if t.Ok? && !t.value.kind.Eof? {
      TextRejectedExactly(s, t.value.end, strtod, e);
    }
  }
}
