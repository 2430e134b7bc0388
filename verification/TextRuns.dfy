/** Runs of characters: where they end, what they hold, and the numbers their digits stand for. */
module TextRuns {
  import opened Common
  import opened Lexer

  // ---------- no token holds a NUL ----------

  lemma {:induction false} StringHasNoNul(s: Text, open: nat, j: nat)
    requires open < j <= |s| && StringScan(s, open, j).Ok?
    ensures forall k :: j <= k < StringScan(s, open, j).value ==> s[k] != NUL
    decreases |s| - j
  {
    if At(s, j) == BACKSLASH {
      StringHasNoNul(s, open, j + 2);
    } else if At(s, j) != QUOTE {
      StringHasNoNul(s, open, j + 1);
    }
  }

  predicate NoNul(s: Text, i: nat, j: nat)
    requires i <= j <= |s|
  {
    forall k :: i <= k < j ==> s[k] != NUL
  }

  lemma {:induction false} NoNulJoin(s: Text, i: nat, j: nat, k: nat)
    requires i <= j <= k <= |s| && NoNul(s, i, j) && NoNul(s, j, k)
    ensures NoNul(s, i, k)
  {
  }

  lemma {:induction false} RunHasNoNul(s: Text, i: nat)
    requires i <= |s|
    ensures NoNul(s, i, DecimalRun(s, i))
  {
  }

  lemma {:induction false} FractionHasNoNul(s: Text, d: nat)
    requires d <= |s|
    ensures NoNul(s, d, FractionEnd(s, d))
  {
    if d < |s| && s[d] == DOT {
      RunHasNoNul(s, d + 1);
    }
  }

  lemma {:induction false} ExponentHasNoNul(s: Text, f: nat)
    requires f <= |s|
    ensures NoNul(s, f, ExponentEnd(s, f))
  {
    if IsE(At(s, f)) {
      RunHasNoNul(s, f + 1);
      if f + 2 <= |s| {
        RunHasNoNul(s, f + 2);
      }
    }
  }

  lemma {:induction false} DecimalHasNoNul(s: Text, i: nat)
    requires i <= |s|
    ensures NoNul(s, i, ExponentEnd(s, FractionEnd(s, DecimalRun(s, i))))
  {
    var d := DecimalRun(s, i);
    var f := FractionEnd(s, d);
    RunHasNoNul(s, i);
    FractionHasNoNul(s, d);
    ExponentHasNoNul(s, f);
    NoNulJoin(s, i, d, f);
    NoNulJoin(s, i, f, ExponentEnd(s, f));
  }

  lemma {:induction false} NumberHasNoNul(s: Text, i: nat, strtod: Strtod)
    requires i < |s| && IsDecDigit(s[i]) && NumberToken(s, i, strtod).Ok?
    ensures NoNul(s, i, NumberToken(s, i, strtod).value.end)
  {
    DecimalHasNoNul(s, i);
  }

  lemma {:induction false} TokenHasNoNul(s: Text, i: nat, strtod: Strtod)
    requires i <= |s| && NextToken(s, i, strtod).Ok?
    ensures NoNul(s, i, NextToken(s, i, strtod).value.end)
  {
    var c := At(s, i);
    if c == QUOTE {
      StringHasNoNul(s, i, i + 1);
    } else if c != NUL && IsDecDigit(c) {
      NumberHasNoNul(s, i, strtod);
    }
  }

  function Power(b: nat, n: nat): nat { if n == 0 then 1 else b * Power(b, n - 1) }

  // ---------- digits and runs ----------

  lemma {:induction false} ValueAppend(a: Text, b: Text, base: nat)
    ensures Value(a + b, base) == Value(a, base) * Power(base, |b|) + Value(b, base)
    decreases |b|
  {
    if b == [] {
      assert a + b == a;
    } else {
      var n := |b| - 1;
      assert (a + b)[..|a + b| - 1] == a + b[..n];
      ValueAppend(a, b[..n], base);
      ShiftDigits(Value(a, base), Power(base, n), Value(b[..n], base), base);
    }
  }

  lemma {:induction false} ShiftDigits(x: nat, p: nat, y: nat, base: nat)
    ensures (x * p + y) * base == x * (base * p) + y * base
  {
    assert x * p * base == x * (base * p);
  }

  predicate All(s: Text, p: byte -> bool) { forall k :: 0 <= k < |s| ==> p(s[k]) }

  function Fitting(digits: Text, room: nat): Text {
    if |digits| <= room then digits else digits[..room]
  }

  /** Escape sequences and other characters, no quote and no newline among them. */
  predicate RawString(raw: Text) {
    raw != [] ==>
      if raw[0] == BACKSLASH then |raw| > 1 && IsEscape(raw[1]) && RawString(raw[2..])
      else raw[0] != NUL && raw[0] != NEWLINE && raw[0] != QUOTE && RawString(raw[1..])
  }

  lemma {:induction false} ScannedIsRaw(s: Text, open: nat, j: nat)
    requires open < j <= |s| && StringScan(s, open, j).Ok?
    ensures RawString(s[j..StringScan(s, open, j).value])
    decreases |s| - j
  {
    var end := StringScan(s, open, j).value;
    if At(s, j) == BACKSLASH {
      ScannedIsRaw(s, open, j + 2);
      assert s[j..end][2..] == s[j + 2..end];
    } else if At(s, j) != QUOTE {
      ScannedIsRaw(s, open, j + 1);
      assert s[j..end][1..] == s[j + 1..end];
    }
  }

  lemma {:induction false} RunIsAll(s: Text, i: nat, p: byte -> bool)
    requires i <= |s|
    ensures All(s[i..RunEnd(s, i, p)], p)
  {
    var run := s[i..RunEnd(s, i, p)];
    assert forall k :: 0 <= k < |run| ==> run[k] == s[i + k];
  }

  lemma {:induction false} PrefixLeavesRoom(prefix: Text, digits: Text)
    requires |prefix| == 2
    ensures Kept(prefix + digits)[2..] == Fitting(digits, BUFFER - 2)
  {
  }

  // ---------- string literals ----------

  /** The literal opened at `open`, read up to `j`, ends with the quote at `close`. */
  predicate Closes(s: Text, open: nat, j: nat, close: nat)
    requires open < j <= |s|
  {
    StringScan(s, open, j) == Ok(close)
  }

  lemma {:induction false} ScannedLiteral(s: Text, i: nat, close: nat, strtod: Strtod)
    requires i < close < |s| && s[i] == QUOTE && Closes(s, i, i + 1, close)
    ensures NextToken(s, i, strtod) == Ok(Token(StrLit(s[i + 1..close]), i, close + 1))
  {
  }

  predicate TextAt(s: Text, i: nat, part: Text) {
    i + |part| <= |s| && forall k :: 0 <= k < |part| ==> s[i + k] == part[k]
  }

  lemma {:induction false} TextAtSplit(s: Text, i: nat, a: Text, b: Text)
    requires TextAt(s, i, a + b)
    ensures TextAt(s, i, a) && TextAt(s, i + |a|, b)
  {
    forall k | 0 <= k < |b|
      ensures s[i + |a| + k] == b[k]
    {
      assert s[i + (|a| + k)] == (a + b)[|a| + k];
    }
    assert forall k :: 0 <= k < |a| ==> (a + b)[k] == a[k];
  }

  lemma {:induction false} TextAtTail(s: Text, j: nat, raw: Text, n: nat)
    requires n <= |raw| && TextAt(s, j, raw)
    ensures TextAt(s, j + n, raw[n..])
  {
    assert raw == raw[..n] + raw[n..];
    TextAtSplit(s, j, raw[..n], raw[n..]);
  }

  lemma {:induction false} ScanRaw(s: Text, open: nat, j: nat, raw: Text)
    requires open < j && j + |raw| < |s| && RawString(raw)
    requires TextAt(s, j, raw) && s[j + |raw|] == QUOTE
    ensures Closes(s, open, j, j + |raw|)
    decreases |raw|
  {
    if raw != [] {
      assert s[j + 0] == raw[0];
      if raw[0] == BACKSLASH {
        assert s[j + 1] == raw[1];
        TextAtTail(s, j, raw, 2);
        ScanRaw(s, open, j + 2, raw[2..]);
      } else {
        TextAtTail(s, j, raw, 1);
        ScanRaw(s, open, j + 1, raw[1..]);
      }
    }
  }

  lemma {:induction false} TextAtSlice(s: Text, i: nat, a: Text)
    requires TextAt(s, i, a)
    ensures s[i..i + |a|] == a
  {
  }

  lemma {:induction false} LiteralCloses(s: Text, i: nat, raw: Text, close: nat)
    requires RawString(raw) && close == i + 1 + |raw| < |s| && TextAt(s, i + 1, raw) && s[close] == QUOTE
    ensures Closes(s, i, i + 1, close)
  {
    ScanRaw(s, i, i + 1, raw);
  }

  lemma {:induction false} LiteralLexes(s: Text, i: nat, raw: Text, close: nat, strtod: Strtod)
    requires RawString(raw) && close == i + 1 + |raw| < |s| && TextAt(s, i + 1, raw) && s[close] == QUOTE
    requires s[i] == QUOTE
    ensures NextToken(s, i, strtod) == Ok(Token(StrLit(s[i + 1..close]), i, close + 1))
  {
    LiteralCloses(s, i, raw, close);
    ScannedLiteral(s, i, close, strtod);
  }

  lemma {:induction false} LiteralPieces(s: Text, i: nat, raw: Text)
    requires TextAt(s, i, [QUOTE] + raw + [QUOTE])
    ensures TextAt(s, i + 1, raw) && s[i + 1..i + 1 + |raw|] == raw
    ensures i + 1 + |raw| < |s| && s[i] == QUOTE && s[i + 1 + |raw|] == QUOTE
  {
    TextAtSplit(s, i, [QUOTE] + raw, [QUOTE]);
    TextAtSplit(s, i, [QUOTE], raw);
    TextAtSlice(s, i + 1, raw);
    assert s[i + 1 + |raw|] == [QUOTE][0] && s[i] == [QUOTE][0];
  }

  // ---------- numbers ----------

  lemma {:induction false} PowerPositive(b: nat, n: nat)
    requires b > 0
    ensures Power(b, n) > 0
  {
    if n > 0 {
      PowerPositive(b, n - 1);
      var p := Power(b, n - 1);
      assert b * p > 0;
    }
  }

  lemma {:induction false} PowerAtLeastTwo(b: nat, n: nat)
    requires b >= 2 && n > 0
    ensures Power(b, n) >= 2
  {
    PowerPositive(b, n - 1);
    var p := Power(b, n - 1);
    ProductsGrow(1, b, p);
  }

  lemma {:induction false} ShiftedGrows(k: nat, p: nat, d: nat)
    requires p >= 2
    ensures k * p + d >= k
    ensures k * p + d == k <==> k * p + d == 0
  {
    ProductsGrow(1, p, k);
    assert k * p == p * k;
  }

  lemma {:induction false} RunIs(s: Text, i: nat, j: nat, p: byte -> bool)
    requires i <= j <= |s| && (forall k :: i <= k < j ==> p(s[k])) && (j == |s| || !p(s[j]))
    ensures RunEnd(s, i, p) == j
    decreases j - i
  {
    if i < j {
      RunIs(s, i + 1, j, p);
    }
  }

  lemma {:induction false} InBaseValue(v: nat, base: Radix)
    ensures Value(InBase(v, base), base.Base()) == v
    ensures All(InBase(v, base), DigitClass(base)) && IsDigit(base, InBase(v, base)[0])
    ensures UNDERSCORE !in InBase(v, base)
    ensures |InBase(v, base)| > 1 ==> InBase(v, base)[0] != ZERO
    decreases v
  {
    var b, r := base.Base(), InBase(v, base);
    if v < b {
      assert r[..0] == [];
    } else {
      InBaseValue(v / b, base);
      assert r[..|r| - 1] == InBase(v / b, base);
    }
  }

  lemma {:induction false} LengthInBase(v: nat, base: Radix, n: nat)
    requires v < Power(base.Base(), n) && n > 0
    ensures |InBase(v, base)| <= n
    decreases n
  {
    var b := base.Base();
    if v >= b {
      assert n > 1 by {
        assert Power(b, 1) == b * Power(b, 0);
      }
      QuotientBelow(v, b, Power(b, n - 1));
      LengthInBase(v / b, base, n - 1);
    }
  }

  lemma {:induction false} QuotientBelow(v: nat, b: nat, p: nat)
    requires b > 0 && v < b * p
    ensures v / b < p
  {
    var q := v / b;
    assert q * b <= v;
    if q >= p {
      ProductsGrow(p - 1, q, b);
    }
  }

  lemma {:induction false} NoneToDrop(s: Text)
    requires UNDERSCORE !in s
    ensures NoUnderscores(s) == s
  {
    if s != [] {
      NoneToDrop(s[1..]);
    }
  }

  lemma {:induction false} PowerAdd(b: nat, m: nat, n: nat)
    ensures Power(b, m + n) == Power(b, m) * Power(b, n)
  {
    if m > 0 {
      PowerAdd(b, m - 1, n);
      var p, q := Power(b, m - 1), Power(b, n);
      assert b * (p * q) == b * p * q;
    }
  }

  lemma {:induction false} PowersOfTwo()
    ensures Power(2, 64) == MAX_LONG * 2 + 2
  {
    assert Power(2, 1) == 2 * Power(2, 0);
    PowerAdd(2, 1, 1);
    PowerAdd(2, 2, 2);
    PowerAdd(2, 4, 4);
    PowerAdd(2, 8, 8);
    PowerAdd(2, 16, 16);
    PowerAdd(2, 32, 32);
  }

  lemma {:induction false} PowerGrows(b: nat, n: nat)
    requires b >= 2
    ensures Power(b, n) >= Power(2, n)
  {
    if n > 0 {
      PowerGrows(b, n - 1);
      var p, q := Power(b, n - 1), Power(2, n - 1);
      ProductsGrow(1, b, p);
      assert b * p >= 2 * p;
    }
  }

  lemma {:induction false} PrintedFits(v: nat, base: Radix)
    requires v <= MAX_LONG
    ensures |InBase(v, base)| <= 64
  {
    PowersOfTwo();
    PowerGrows(base.Base(), 64);
    LengthInBase(v, base, 64);
  }

  lemma {:induction false} DigitsLex(s: Text, skip: nat, v: nat, base: Radix)
    requires v <= MAX_LONG && skip <= 2 && skip <= |s| && s[skip..|s|] == InBase(v, base)
    ensures IntegerToken(s, 0, |s|, base, Fitting(NoUnderscores(s[skip..|s|]), BUFFER - skip)) ==
            Ok(Token(IntLit(v, base), 0, |s|))
  {
    FittedDigits(v, base, BUFFER - skip);
  }

  lemma {:induction false} FittedDigits(v: nat, base: Radix, room: nat)
    requires v <= MAX_LONG && room >= 64
    ensures var digits := Fitting(NoUnderscores(InBase(v, base)), room);
            digits == InBase(v, base) && Value(digits, base.Base()) == v
  {
    InBaseValue(v, base);
    PrintedFits(v, base);
    NoneToDrop(InBase(v, base));
  }

  lemma {:induction false} PrintedHead(c: byte, rest: Text)
    requires c != BACKSLASH && c != NUL && c != NEWLINE && c != QUOTE
    ensures LiteralValue(PrintedChar(c) + rest) ==
            [if IsPrint(c) || c == TAB || c == RETURN then c else NOT_PRINTABLE] + LiteralValue(rest)
  {
    var p := PrintedChar(c);
    assert (p + rest)[|p|..] == rest;
  }

  lemma {:induction false} SameTail(x: byte, y: byte, a: Text, b: Text)
    ensures [x] + a == [y] + b <==> x == y && a == b
  {
    assert ([x] + a)[1..] == a && ([y] + b)[1..] == b;
    assert ([x] + a)[0] == x && ([y] + b)[0] == y;
  }
}
