/**
  * The lexer of native/c/lexer.hpp: what it makes of the text at each position, as functions, and
  * the iterator and the loops that compute them. Characters are bytes of IBM-1047.
  */
module Lexer {
  import opened Common

  type Text = seq<byte>

  /** `true` and `false`. */
  const TRUE_WORD: Text := [0xA3, 0x99, 0xA4, 0x85]
  const FALSE_WORD: Text := [0x86, 0x81, 0x93, 0xA2, 0x85]

  datatype Radix = Dec | Bin | Hex {
    function Base(): nat {
      match this case Dec => 10 case Bin => 2 case Hex => 16
    }
  }

  /** What a token stands for; names of flags come without their dashes. */
  datatype Kind =
    | Eof
    | True
    | False
    | Minus
    | DoubleMinus
    | Times
    | Id(text: Text)
    | IntLit(value: int, base: Radix)
    | FloatLit(number: Text, printed: Text, exponent: bool)
    | StrLit(raw: Text)
    | FlagShort(name: Text)
    | FlagLong(name: Text)

  datatype Token = Token(kind: Kind, start: nat, end: nat)

  datatype Location = Location(line: nat, col: nat)

  datatype ErrorKind =
    InvalidChar | UnclosedString | UnknownEscape | IntOutOfRange | IncompleteInt | FloatOutOfRange | InvalidFloat

  datatype LexError = LexError(kind: ErrorKind, at: Location)

  /** What the C library makes of the text of a float: its printed form, or a failure. */
  datatype FloatOutcome = Fine(printed: Text) | TooLarge | Malformed

  type Strtod = Text -> FloatOutcome

  // ---------- positions ----------

  function Advance(l: Location, c: byte): Location {
    if c == NEWLINE then Location(l.line + 1, 1)
    else if c == TAB then l.(col := l.col + 4)
    else l.(col := l.col + 1)
  }

  /** Line and column of a position in the input. */
  function LocationAt(s: Text, pos: nat): Location
    requires pos <= |s|
  {
    if pos == 0 then Location(1, 1) else Advance(LocationAt(s, pos - 1), s[pos - 1])
  }

  /** The character at a position, NUL behind the end. */
  function At(s: Text, i: nat): byte { if i < |s| then s[i] else NUL }

  /** The end of the run of characters from `i` that satisfy `p`. */
  function RunEnd(s: Text, i: nat, p: byte -> bool): (j: nat)
    requires i <= |s|
    ensures i <= j <= |s|
    ensures forall k :: i <= k < j ==> p(s[k])
    ensures j == |s| || !p(s[j])
    decreases |s| - i
  {
    if i < |s| && p(s[i]) then RunEnd(s, i + 1, p) else i
  }

  // ---------- character classes ----------

  predicate IsIdent(c: byte) { c != BLANK && !IsControl(c) }
  predicate IsFlagChar(c: byte) { IsIdent(c) || IsDecDigit(c) }
  predicate IsLongFlagChar(c: byte) { IsIdent(c) || c == MINUS }
  predicate InComment(c: byte) { c != NEWLINE && c != NUL }

  predicate IsDecDigit(c: byte) { ZERO <= c <= ZERO + 9 }
  predicate IsHexDigit(c: byte) {
    IsDecDigit(c) || LETTER_A <= c <= LETTER_A + 5 || CAPITAL_A <= c <= CAPITAL_A + 5
  }
  predicate IsBinDigit(c: byte) { c == ZERO || c == ZERO + 1 }

  predicate IsDigit(base: Radix, c: byte) {
    match base
    case Dec => IsDecDigit(c)
    case Hex => IsHexDigit(c)
    case Bin => IsBinDigit(c)
  }

  predicate IsDigitOrUnderscore(base: Radix, c: byte) { c == UNDERSCORE || IsDigit(base, c) }

  function DigitClass(base: Radix): byte -> bool { (c: byte) => IsDigitOrUnderscore(base, c) }

  predicate IsE(c: byte) { c == LETTER_E || c == CAPITAL_E }
  predicate IsSign(c: byte) { c == PLUS || c == MINUS }
  predicate IsEscape(c: byte) {
    c == LETTER_N || c == LETTER_R || c == LETTER_T || c == BACKSLASH || c == QUOTE || c == ZERO
  }

  // ---------- gaps between tokens ----------

  function GapEnd(s: Text, i: nat): (j: nat)
    requires i <= |s|
    ensures i <= j <= |s|
    decreases |s| - i
  {
    if i < |s| && IsWhitespace(s[i]) then GapEnd(s, i + 1)
    else if i < |s| && s[i] == HASH && At(s, i + 1) == BLANK then GapEnd(s, RunEnd(s, i + 1, InComment))
    else i
  }

  // ---------- words, flags and strings ----------

  function WordKind(word: Text): Kind {
    if word == TRUE_WORD then True else if word == FALSE_WORD then False else Id(word)
  }

  /** Where the closing quote is, scanning from `j` in a literal opened at `open`. */
  function StringScan(s: Text, open: nat, j: nat): (r: Result<nat, LexError>)
    requires open < j <= |s|
    ensures r.Ok? ==> j <= r.value < |s| && s[r.value] == QUOTE
    decreases |s| - j
  {
    var c := At(s, j);
    if c == NUL then Err(LexError(UnclosedString, LocationAt(s, open)))
    else if c == NEWLINE then Err(LexError(UnclosedString, LocationAt(s, j)))
    else if c == QUOTE then Ok(j)
    else if c == BACKSLASH then
      var d := At(s, j + 1);
      if d == NUL || d == NEWLINE then Err(LexError(UnclosedString, LocationAt(s, j)))
      else if IsEscape(d) then StringScan(s, open, j + 2)
      else Err(LexError(UnknownEscape, LocationAt(s, j + 1)))
    else StringScan(s, open, j + 1)
  }

  function StringToken(s: Text, i: nat): (r: Result<Token, LexError>)
    requires i < |s|
    ensures r.Ok? ==> r.value.start == i && i < r.value.end <= |s|
  {
    var close := StringScan(s, i, i + 1);
    if close.Err? then Err(close.error)
    else Ok(Token(StrLit(s[i + 1..close.value]), i, close.value + 1))
  }

  // ---------- numbers ----------

  const BUFFER := 127
  const MAX_LONG := 0x7FFF_FFFF_FFFF_FFFF

  function NoUnderscores(s: Text): Text {
    if s == [] then []
    else (if s[0] == UNDERSCORE then [] else [s[0]]) + NoUnderscores(s[1..])
  }

  /** What fits the number buffer. */
  function Kept(s: Text): Text { if |s| <= BUFFER then s else s[..BUFFER] }

  function DigitValue(c: byte): nat {
    if ZERO <= c then c - ZERO
    else if CAPITAL_A <= c then c - CAPITAL_A + 10
    else if LETTER_A <= c then c - LETTER_A + 10
    else 0
  }

  /** What the digits stand for, as strtoll accumulates it. */
  function Value(digits: Text, base: nat): nat {
    if digits == [] then 0
    else Value(digits[..|digits| - 1], base) * base + DigitValue(digits[|digits| - 1])
  }

  /** The integer token for the digits the buffer kept. */
  function IntegerToken(s: Text, i: nat, end: nat, base: Radix, digits: Text): (r: Result<Token, LexError>)
    requires i < end <= |s|
    ensures r.Ok? ==> r.value.start == i && r.value.end == end
  {
    var v := Value(digits, base.Base());
    if v > MAX_LONG then Err(LexError(IntOutOfRange, LocationAt(s, end)))
    else Ok(Token(IntLit(v, base), i, end))
  }

  /** A number with a prefix: its digits start behind `0x` or `0b`, which fill two places of the buffer. */
  function PrefixedNumber(s: Text, i: nat, base: Radix): (r: Result<Token, LexError>)
    requires base != Dec && i + 2 <= |s|
    ensures r.Ok? ==> r.value.start == i && i < r.value.end <= |s|
  {
    if !IsDigit(base, At(s, i + 2)) then Err(LexError(IncompleteInt, LocationAt(s, i + 2)))
    else
      var end := RunEnd(s, i + 2, DigitClass(base));
      if At(s, end) == DOT || IsE(At(s, end)) then Err(LexError(InvalidChar, LocationAt(s, end)))
      else IntegerToken(s, i, end, base, Kept(s[i..i + 2] + NoUnderscores(s[i + 2..end]))[2..])
  }

  function DecimalRun(s: Text, i: nat): (j: nat)
    requires i <= |s|
    ensures i <= j <= |s|
  {
    RunEnd(s, i, DigitClass(Dec))
  }

  /** The end of a fraction at `d`, `d` itself when there is none. */
  function FractionEnd(s: Text, d: nat): (f: nat)
    requires d <= |s|
    ensures d <= f <= |s|
  {
    if At(s, d) == DOT && IsDecDigit(At(s, d + 1)) then DecimalRun(s, d + 1) else d
  }

  /** The end of an exponent at `f`, `f` itself when there is none. */
  function ExponentEnd(s: Text, f: nat): (x: nat)
    requires f <= |s|
    ensures f <= x <= |s|
  {
    if !IsE(At(s, f)) then f
    else if IsDecDigit(At(s, f + 1)) then DecimalRun(s, f + 1)
    else if IsSign(At(s, f + 1)) && IsDecDigit(At(s, f + 2)) then DecimalRun(s, f + 2)
    else f
  }

  function DecimalNumber(s: Text, i: nat, strtod: Strtod): (r: Result<Token, LexError>)
    requires i < |s| && IsDecDigit(s[i])
    ensures r.Ok? ==> r.value.start == i && i < r.value.end <= |s|
  {
    var d := DecimalRun(s, i);
    var f := FractionEnd(s, d);
    var x := ExponentEnd(s, f);
    var number := Kept(NoUnderscores(s[i..x]));
    if x == d then IntegerToken(s, i, x, Dec, number)
    else FloatToken(s, i, x, number, f < x, strtod)
  }

  function FloatToken(s: Text, i: nat, end: nat, number: Text, exponent: bool, strtod: Strtod): (r: Result<Token, LexError>)
    requires i < end <= |s|
    ensures r.Ok? ==> r.value.start == i && r.value.end == end
  {
    match strtod(number)
    case TooLarge => Err(LexError(FloatOutOfRange, LocationAt(s, end)))
    case Malformed => Err(LexError(InvalidFloat, LocationAt(s, i)))
    case Fine(printed) => Ok(Token(FloatLit(number, printed, exponent), i, end))
  }

  function NumberToken(s: Text, i: nat, strtod: Strtod): (r: Result<Token, LexError>)
    requires i < |s| && IsDecDigit(s[i])
    ensures r.Ok? ==> r.value.start == i && i < r.value.end <= |s|
  {
    var p := At(s, i + 1);
    if s[i] != ZERO then DecimalNumber(s, i, strtod)
    else if p == LETTER_X || p == CAPITAL_X then PrefixedNumber(s, i, Hex)
    else if p == LETTER_B || p == CAPITAL_B then PrefixedNumber(s, i, Bin)
    else if !IsDecDigit(p) && p != DOT && !IsE(p) then Ok(Token(IntLit(0, Dec), i, i + 1))
    else DecimalNumber(s, i, strtod)
  }

  // ---------- tokens ----------

  function DashToken(s: Text, i: nat): (t: Token)
    requires i < |s| && s[i] == MINUS
    ensures t.start == i && i < t.end <= |s| && !t.kind.Eof?
  {
    if At(s, i + 1) == MINUS then
      if IsIdent(At(s, i + 2)) then
        var end := RunEnd(s, i + 2, IsLongFlagChar);
        Token(FlagLong(s[i + 2..end]), i, end)
      else Token(DoubleMinus, i, i + 2)
    else if IsFlagChar(At(s, i + 1)) then
      var end := RunEnd(s, i + 1, IsFlagChar);
      Token(FlagShort(s[i + 1..end]), i, end)
    else Token(Minus, i, i + 1)
  }

  function NextToken(s: Text, i: nat, strtod: Strtod): (r: Result<Token, LexError>)
    requires i <= |s|
    ensures r.Ok? ==> r.value.start == i && i <= r.value.end <= |s|
    ensures r.Ok? ==> (r.value.kind.Eof? <==> At(s, i) == NUL) && (r.value.kind.Eof? <==> r.value.end == i)
  {
    var c := At(s, i);
    if c == NUL then Ok(Token(Eof, i, i))
    else if c == STAR then Ok(Token(Times, i, i + 1))
    else if c == MINUS then Ok(DashToken(s, i))
    else if c == QUOTE then StringToken(s, i)
    else if IsDecDigit(c) then NumberToken(s, i, strtod)
    else if IsIdent(c) then
      var end := RunEnd(s, i + 1, IsIdent);
      Ok(Token(WordKind(s[i..end]), i, end))
    else Err(LexError(InvalidChar, LocationAt(s, i)))
  }

  /** All tokens from `i` on, the end-of-input token last. */
  function Tokens(s: Text, i: nat, strtod: Strtod): (r: Result<seq<Token>, LexError>)
    requires i <= |s|
    decreases |s| - i
  {
    var t := NextToken(s, GapEnd(s, i), strtod);
    if t.Err? then Err(t.error)
    else if t.value.kind.Eof? then Ok([t.value])
    else
      var rest := Tokens(s, t.value.end, strtod);
      if rest.Err? then rest else Ok([t.value] + rest.value)
  }

  /** Lexer::tokenize. */
  function Tokenize(s: Text, strtod: Strtod): Result<seq<Token>, LexError> { Tokens(s, 0, strtod) }

  // ---------- the value of a string literal ----------

  function Unescape(c: byte): byte {
    if c == LETTER_N then NEWLINE
    else if c == LETTER_R then RETURN
    else if c == LETTER_T then TAB
    else if c == ZERO then NUL
    else c
  }

  function LiteralValue(raw: Text): Text {
    if raw == [] then []
    else if raw[0] != BACKSLASH then [raw[0]] + LiteralValue(raw[1..])
    else if |raw| == 1 then [BACKSLASH]
    else [Unescape(raw[1])] + LiteralValue(raw[2..])
  }

  /** Token::get_str_lit_value. */
  method GetStrLitValue(raw: Text) returns (value: Text)
    ensures value == LiteralValue(raw)
  {
    value := [];
    var i := 0;
    while i < |raw|
      invariant 0 <= i <= |raw|
      invariant LiteralValue(raw) == value + LiteralValue(raw[i..])
      decreases |raw| - i
    {
      ghost var rest, before := raw[i..], value;
      var c := raw[i];
      if c == BACKSLASH {
        i := i + 1;
        if i >= |raw| {
          value := value + [BACKSLASH];
          break;
        }
        assert rest[2..] == raw[i + 1..];
        c := Unescape(raw[i]);
      } else {
        assert rest[1..] == raw[i + 1..];
      }
      i := i + 1;
      value := value + [c];
      AppendAssoc(before, [c], LiteralValue(raw[i..]));
    }
  }

  // ---------- printing ----------

  function Digit(v: nat): (c: byte)
    requires v < 16
    ensures DigitValue(c) == v && IsHexDigit(c)
    ensures v < 10 ==> IsDecDigit(c)
    ensures v < 2 ==> IsBinDigit(c)
  {
    if v < 10 then ZERO + v else LETTER_A + (v - 10)
  }

  function InBase(v: nat, base: Radix): (r: Text)
    ensures r != []
    decreases v
  {
    var b := base.Base();
    if v < b then [Digit(v)] else InBase(v / b, base) + [Digit(v % b)]
  }

  function Prefix(base: Radix): Text {
    match base case Dec => [] case Hex => [ZERO, LETTER_X] case Bin => [ZERO, LETTER_B]
  }

  /** The 95 printable characters of the C locale in IBM-1047. */
  predicate IsPrint(c: byte) {
    || c == BLANK || 0x4B <= c <= 0x50 || 0x5A <= c <= 0x61 || 0x6B <= c <= 0x6F || 0x79 <= c <= 0x7F
    || 0x81 <= c <= 0x89 || 0x91 <= c <= 0x99 || 0xA1 <= c <= 0xA9 || c == 0xAD || c == 0xBD
    || 0xC0 <= c <= 0xC9 || 0xD0 <= c <= 0xD9 || c == 0xE0 || 0xE2 <= c <= 0xE9 || 0xF0 <= c <= 0xF9
  }

  const NOT_PRINTABLE: byte := 0x3F

  function PrintedChar(c: byte): Text {
    if c == QUOTE then [BACKSLASH, QUOTE]
    else if c == NEWLINE then [BACKSLASH, LETTER_N]
    else if c == RETURN then [BACKSLASH, LETTER_R]
    else if c == TAB then [BACKSLASH, LETTER_T]
    else if IsPrint(c) then [c]
    else [NOT_PRINTABLE]
  }

  function PrintedRaw(raw: Text): Text {
    if raw == [] then []
    else if raw[0] == BACKSLASH && |raw| > 1 then [BACKSLASH, raw[1]] + PrintedRaw(raw[2..])
    else PrintedChar(raw[0]) + PrintedRaw(raw[1..])
  }

  /** `<unknown token_kind: ` and `>` around the number of the kind. */
  function UnknownKind(number: nat): Text
    requires number < 10
  {
    [0x4C, 0xA4, 0x95, 0x92, 0x95, 0x96, 0xA6, 0x95, 0x40, 0xA3, 0x96, 0x92, 0x85, 0x95, 0x6D, 0x92, 0x89, 0x95, 0x84,
     0x7A, 0x40, Digit(number), 0x6E]
  }

  /** Token::print. */
  function Printed(k: Kind): Text {
    match k
    case FlagShort(name) => [MINUS] + name
    case FlagLong(name) => [MINUS, MINUS] + name
    case Id(text) => text
    case StrLit(raw) => [QUOTE] + PrintedRaw(raw) + [QUOTE]
    case IntLit(v, base) => Prefix(base) + (if v >= 0 then InBase(v, base) else [MINUS] + InBase(-v, base))
    case FloatLit(_, printed, _) => printed
    case True => TRUE_WORD
    case False => FALSE_WORD
    case Eof => UnknownKind(0)
    case Minus => UnknownKind(3)
    case DoubleMinus => UnknownKind(4)
    case Times => UnknownKind(5)
  }

  // ---------- the iterator ----------

  class InputIter {
    const input: Text
    var line: nat
    var col: nat
    var pos: nat

    ghost predicate Valid()
      reads this
    {
      pos <= |input| && Location(line, col) == LocationAt(input, pos)
    }

    constructor (code: Text)
      ensures Valid() && input == code && pos == 0
    {
      input, line, col, pos := code, 1, 1, 0;
    }

    function Current(): byte
      reads this
    {
      At(input, pos)
    }

    function Peek(): byte
      reads this
    {
      At(input, pos + 1)
    }

    function Peek2(): byte
      reads this
    {
      At(input, pos + 2)
    }

    method GetLocation() returns (l: Location)
      requires Valid()
      ensures l == LocationAt(input, pos)
    {
      l := Location(line, col);
    }

    method Next()
      requires Valid()
      modifies this
      ensures Valid() && pos == (if old(pos) < |input| then old(pos) + 1 else old(pos))
    {
      if pos < |input| {
        if input[pos] == NEWLINE {
          line := line + 1;
          col := 1;
        } else if input[pos] == TAB {
          col := col + 4;
        } else {
          col := col + 1;
        }
        pos := pos + 1;
      }
    }

    /** The loops that consume a run of characters of one class. */
    method NextWhile(p: byte -> bool)
      requires Valid() && !p(NUL)
      modifies this
      ensures Valid() && pos == RunEnd(input, old(pos), p)
    {
      ghost var end := RunEnd(input, pos, p);
      while p(Current())
        invariant Valid() && end == RunEnd(input, pos, p)
        decreases |input| - pos
      {
        Next();
      }
    }
  }

  method EatWhitespaceAndComments(iter: InputIter)
    requires iter.Valid()
    modifies iter
    ensures iter.Valid() && iter.pos == GapEnd(iter.input, old(iter.pos))
  {
    ghost var end := GapEnd(iter.input, iter.pos);
    while true
      invariant iter.Valid() && end == GapEnd(iter.input, iter.pos)
      decreases |iter.input| - iter.pos
    {
      var c := iter.Current();
      if IsWhitespace(c) {
        iter.Next();
        continue;
      }
      if c == HASH && iter.Peek() == BLANK {
        iter.Next();
        iter.NextWhile(InComment);
        continue;
      }
      return;
    }
  }

  method LexIdentifierOrKeyword(iter: InputIter) returns (t: Token)
    requires iter.Valid() && IsIdent(iter.Current())
    modifies iter
    ensures iter.Valid() && iter.pos == RunEnd(iter.input, old(iter.pos) + 1, IsIdent)
    ensures t == Token(WordKind(iter.input[old(iter.pos)..iter.pos]), old(iter.pos), iter.pos)
  {
    var start := iter.pos;
    iter.Next();
    iter.NextWhile(IsIdent);
    var word := iter.input[start..iter.pos];
    if |word| == 4 && word[0] == 0xA3 && word[1] == 0x99 && word[2] == 0xA4 && word[3] == 0x85 {
      assert word == TRUE_WORD;
      return Token(True, start, iter.pos);
    }
    if |word| == 5 && word[0] == 0x86 && word[1] == 0x81 && word[2] == 0x93 && word[3] == 0xA2 && word[4] == 0x85 {
      assert word == FALSE_WORD;
      return Token(False, start, iter.pos);
    }
    return Token(Id(word), start, iter.pos);
  }

  method LexDash(iter: InputIter) returns (t: Token)
    requires iter.Valid() && iter.Current() == MINUS
    modifies iter
    ensures iter.Valid() && t == DashToken(iter.input, old(iter.pos)) && iter.pos == t.end
  {
    var start := iter.pos;
    iter.Next();
    if iter.Current() == MINUS {
      iter.Next();
      if IsIdent(iter.Current()) {
        var name := iter.pos;
        iter.NextWhile(IsLongFlagChar);
        return Token(FlagLong(iter.input[name..iter.pos]), start, iter.pos);
      }
      return Token(DoubleMinus, start, iter.pos);
    } else if IsFlagChar(iter.Current()) {
      var name := iter.pos;
      iter.NextWhile(IsFlagChar);
      return Token(FlagShort(iter.input[name..iter.pos]), start, iter.pos);
    }
    return Token(Minus, start, iter.pos);
  }

  method LexString(iter: InputIter) returns (r: Result<Token, LexError>)
    requires iter.Valid() && iter.Current() == QUOTE
    modifies iter
    ensures iter.Valid() && r == StringToken(iter.input, old(iter.pos))
    ensures r.Ok? ==> iter.pos == r.value.end
  {
    var start := iter.pos;
    var startLocation := iter.GetLocation();
    iter.Next();
    var content := iter.pos;
    ghost var close := StringScan(iter.input, start, content);
    while true
      invariant iter.Valid() && start < content <= iter.pos
      invariant close == StringScan(iter.input, start, iter.pos)
      decreases |iter.input| - iter.pos
    {
      var location := iter.GetLocation();
      var c := iter.Current();
      if c == NUL {
        return Err(LexError(UnclosedString, startLocation));
      }
      if c == NEWLINE {
        return Err(LexError(UnclosedString, location));
      }
      if c == QUOTE {
        break;
      }
      if c == BACKSLASH {
        iter.Next();
        var escaped := iter.Current();
        if escaped == NUL || escaped == NEWLINE {
          return Err(LexError(UnclosedString, location));
        }
        if !IsEscape(escaped) {
          location := iter.GetLocation();
          return Err(LexError(UnknownEscape, location));
        }
      }
      iter.Next();
    }
    var end := iter.pos;
    iter.Next();
    return Ok(Token(StrLit(iter.input[content..end]), start, iter.pos));
  }

  // ---------- the number buffer ----------

  /** The buffer of 128 characters: what no longer fits is dropped without a word. */
  class NumberBuffer {
    const chars: array<byte>
    var index: nat

    ghost predicate Valid()
      reads this
    {
      chars.Length == BUFFER + 1 && index <= BUFFER
    }

    function Contents(): Text
      requires Valid()
      reads this, chars
    {
      chars[..index]
    }

    constructor ()
      ensures Valid() && fresh(chars) && Contents() == []
    {
      chars := new byte[BUFFER + 1];
      index := 0;
    }

    method Store(c: byte, ghost all: Text)
      requires Valid() && Contents() == Kept(all)
      modifies this, chars
      ensures Valid() && Contents() == Kept(all + [c])
    {
      if index < BUFFER {
        chars[index] := c;
        index := index + 1;
      } else {
        assert |all| >= BUFFER;
        assert (all + [c])[..BUFFER] == all[..BUFFER];
      }
    }
  }

  lemma {:induction false} NoUnderscoresAppend(a: Text, b: Text)
    ensures NoUnderscores(a + b) == NoUnderscores(a) + NoUnderscores(b)
  {
    if a == [] {
      assert a + b == b;
    } else {
      assert (a + b)[1..] == a[1..] + b;
      NoUnderscoresAppend(a[1..], b);
    }
  }

  lemma {:induction false} NoUnderscoresStep(s: Text, from: nat, k: nat)
    requires from <= k < |s|
    ensures NoUnderscores(s[from..k + 1]) ==
            NoUnderscores(s[from..k]) + (if s[k] == UNDERSCORE then [] else [s[k]])
  {
    assert s[from..k + 1] == s[from..k] + [s[k]];
    NoUnderscoresAppend(s[from..k], [s[k]]);
    assert [s[k]][1..] == [];
  }

  /** What has gone to the buffer, kept there or not: `before`, and the digits from `from` to `k`. */
  function Gathered(before: Text, s: Text, from: nat, k: nat): Text
    requires from <= k <= |s|
  {
    before + NoUnderscores(s[from..k])
  }

  lemma {:induction false} MoreDigits(s: Text, from: nat, k: nat, before: Text)
    requires from <= k < |s|
    ensures Gathered(before, s, from, k + 1) ==
            if s[k] == UNDERSCORE then Gathered(before, s, from, k) else Gathered(before, s, from, k) + [s[k]]
  {
    NoUnderscoresStep(s, from, k);
    AppendAssoc(before, NoUnderscores(s[from..k]), [s[k]]);
  }

  lemma {:induction false} NothingGathered(before: Text, s: Text, from: nat)
    requires from <= |s|
    ensures Gathered(before, s, from, from) == before
  {
    assert s[from..from] == [];
  }

  /** The loops that gather digits, underscores left out; `before` is what went to the buffer already. */
  method StoreDigits(iter: InputIter, buffer: NumberBuffer, base: Radix, ghost before: Text)
    requires iter.Valid() && buffer.Valid() && buffer.Contents() == Kept(before)
    modifies iter, buffer, buffer.chars
    ensures iter.Valid() && buffer.Valid()
    ensures iter.pos == RunEnd(iter.input, old(iter.pos), DigitClass(base))
    ensures buffer.Contents() == Kept(Gathered(before, iter.input, old(iter.pos), iter.pos))
  {
    ghost var from := iter.pos;
    ghost var p := DigitClass(base);
    ghost var end := RunEnd(iter.input, from, p);
    NothingGathered(before, iter.input, from);
    while IsDigitOrUnderscore(base, iter.Current())
      invariant iter.Valid() && buffer.Valid() && from <= iter.pos
      invariant end == RunEnd(iter.input, iter.pos, p)
      invariant buffer.Contents() == Kept(Gathered(before, iter.input, from, iter.pos))
      decreases |iter.input| - iter.pos
    {
      StoreDigit(iter, buffer, from, before);
    }
  }

  method StoreDigit(iter: InputIter, buffer: NumberBuffer, ghost from: nat, ghost before: Text)
    requires iter.Valid() && buffer.Valid() && from <= iter.pos < |iter.input|
    requires buffer.Contents() == Kept(Gathered(before, iter.input, from, iter.pos))
    modifies iter, buffer, buffer.chars
    ensures iter.Valid() && buffer.Valid() && iter.pos == old(iter.pos) + 1
    ensures buffer.Contents() == Kept(Gathered(before, iter.input, from, iter.pos))
  {
    MoreDigits(iter.input, from, iter.pos, before);
    var c := iter.Current();
    if c != UNDERSCORE {
      buffer.Store(c, Gathered(before, iter.input, from, iter.pos));
    }
    iter.Next();
  }

  // ---------- lexing numbers ----------

  /** strtoll on a text of digits: `None` when it is out of range. */
  method Strtoll(digits: Text, base: Radix) returns (v: Option<int>)
    ensures v == if Value(digits, base.Base()) > MAX_LONG then None else Some(Value(digits, base.Base()))
  {
    var n := 0;
    for i := 0 to |digits|
      invariant n == Value(digits[..i], base.Base())
    {
      assert digits[..i + 1][..i] == digits[..i];
      n := n * base.Base() + DigitValue(digits[i]);
    }
    assert digits[..|digits|] == digits;
    v := if n > MAX_LONG then None else Some(n);
  }

  method FinishInteger(iter: InputIter, start: nat, base: Radix, digits: Text) returns (r: Result<Token, LexError>)
    requires iter.Valid() && start < iter.pos
    ensures r == IntegerToken(iter.input, start, iter.pos, base, digits)
  {
    var v := Strtoll(digits, base);
    if v.None? {
      var location := iter.GetLocation();
      return Err(LexError(IntOutOfRange, location));
    }
    return Ok(Token(IntLit(v.value, base), start, iter.pos));
  }

  /** Behind `0` and the letter of the prefix, both in the buffer. */
  method LexPrefixed(iter: InputIter, buffer: NumberBuffer, start: nat, base: Radix) returns (r: Result<Token, LexError>)
    requires iter.Valid() && buffer.Valid() && base != Dec && iter.pos == start + 2 <= |iter.input|
    requires buffer.Contents() == iter.input[start..start + 2]
    modifies iter, buffer, buffer.chars
    ensures iter.Valid() && r == PrefixedNumber(iter.input, start, base)
    ensures r.Ok? ==> iter.pos == r.value.end
  {
    if !IsDigit(base, iter.Current()) {
      var location := iter.GetLocation();
      return Err(LexError(IncompleteInt, location));
    }
    StoreDigits(iter, buffer, base, iter.input[start..start + 2]);
    if iter.Current() == DOT || IsE(iter.Current()) {
      var location := iter.GetLocation();
      return Err(LexError(InvalidChar, location));
    }
    r := FinishInteger(iter, start, base, buffer.chars[2..buffer.index]);
    assert buffer.chars[2..buffer.index] == buffer.Contents()[2..];
  }

  /** A dot or sign, and the digits behind it. */
  method StoreOneThenDigits(iter: InputIter, buffer: NumberBuffer, ghost start: nat)
    requires iter.Valid() && buffer.Valid() && start <= iter.pos < |iter.input|
    requires iter.Current() != UNDERSCORE
    requires buffer.Contents() == Kept(NoUnderscores(iter.input[start..iter.pos]))
    modifies iter, buffer, buffer.chars
    ensures iter.Valid() && buffer.Valid() && start <= iter.pos <= |iter.input|
    ensures iter.pos == DecimalRun(iter.input, old(iter.pos) + 1)
    ensures buffer.Contents() == Kept(NoUnderscores(iter.input[start..iter.pos]))
  {
    StoreOne(iter, buffer, start);
    StoreMoreDigits(iter, buffer, start);
  }

  method StoreOne(iter: InputIter, buffer: NumberBuffer, ghost start: nat)
    requires iter.Valid() && buffer.Valid() && start <= iter.pos < |iter.input|
    requires iter.Current() != UNDERSCORE
    requires buffer.Contents() == Kept(NoUnderscores(iter.input[start..iter.pos]))
    modifies iter, buffer, buffer.chars
    ensures iter.Valid() && buffer.Valid() && iter.pos == old(iter.pos) + 1
    ensures buffer.Contents() == Kept(NoUnderscores(iter.input[start..iter.pos]))
  {
    NoUnderscoresStep(iter.input, start, iter.pos);
    buffer.Store(iter.Current(), NoUnderscores(iter.input[start..iter.pos]));
    iter.Next();
  }

  method StoreMoreDigits(iter: InputIter, buffer: NumberBuffer, ghost start: nat)
    requires iter.Valid() && buffer.Valid() && start <= iter.pos
    requires buffer.Contents() == Kept(NoUnderscores(iter.input[start..iter.pos]))
    modifies iter, buffer, buffer.chars
    ensures iter.Valid() && buffer.Valid() && start <= iter.pos
    ensures iter.pos == DecimalRun(iter.input, old(iter.pos))
    ensures buffer.Contents() == Kept(NoUnderscores(iter.input[start..iter.pos]))
  {
    ghost var from, s := iter.pos, iter.input;
    StoreDigits(iter, buffer, Dec, NoUnderscores(s[start..from]));
    assert s[start..iter.pos] == s[start..from] + s[from..iter.pos];
    NoUnderscoresAppend(s[start..from], s[from..iter.pos]);
  }

  method StoreFraction(iter: InputIter, buffer: NumberBuffer, ghost start: nat)
    requires iter.Valid() && buffer.Valid() && start <= iter.pos
    requires buffer.Contents() == Kept(NoUnderscores(iter.input[start..iter.pos]))
    modifies iter, buffer, buffer.chars
    ensures iter.Valid() && buffer.Valid() && iter.pos == FractionEnd(iter.input, old(iter.pos))
    ensures buffer.Contents() == Kept(NoUnderscores(iter.input[start..iter.pos]))
  {
    if iter.Current() == DOT && IsDecDigit(iter.Peek()) {
      StoreOneThenDigits(iter, buffer, start);
    }
  }

  method StoreExponent(iter: InputIter, buffer: NumberBuffer, ghost start: nat)
    requires iter.Valid() && buffer.Valid() && start <= iter.pos
    requires buffer.Contents() == Kept(NoUnderscores(iter.input[start..iter.pos]))
    modifies iter, buffer, buffer.chars
    ensures iter.Valid() && buffer.Valid() && iter.pos == ExponentEnd(iter.input, old(iter.pos))
    ensures buffer.Contents() == Kept(NoUnderscores(iter.input[start..iter.pos]))
  {
    if IsE(iter.Current()) {
      var peek, peek2 := iter.Peek(), iter.Peek2();
      if IsDecDigit(peek) || (IsSign(peek) && IsDecDigit(peek2)) {
        StoreOne(iter, buffer, start);
        if IsSign(iter.Current()) {
          StoreOne(iter, buffer, start);
        }
        StoreMoreDigits(iter, buffer, start);
      }
    }
  }

  /** A decimal number from `start`, of which `iter.pos - start` digits are in the buffer. */
  method LexDecimal(iter: InputIter, buffer: NumberBuffer, start: nat, startLocation: Location, strtod: Strtod)
    returns (r: Result<Token, LexError>)
    requires iter.Valid() && buffer.Valid() && start <= iter.pos && start < |iter.input|
    requires startLocation == LocationAt(iter.input, start)
    requires IsDecDigit(iter.input[start]) && DecimalRun(iter.input, start) == DecimalRun(iter.input, iter.pos)
    requires buffer.Contents() == Kept(NoUnderscores(iter.input[start..iter.pos]))
    modifies iter, buffer, buffer.chars
    ensures iter.Valid() && r == DecimalNumber(iter.input, start, strtod)
    ensures r.Ok? ==> iter.pos == r.value.end
  {
    StoreMoreDigits(iter, buffer, start);
    var digitsEnd := iter.pos;
    StoreFraction(iter, buffer, start);
    var fractionEnd := iter.pos;
    StoreExponent(iter, buffer, start);
    var number := buffer.chars[..buffer.index];
    if iter.pos == digitsEnd {
      r := FinishInteger(iter, start, Dec, number);
    } else {
      match strtod(number)
      case TooLarge =>
        var location := iter.GetLocation();
        r := Err(LexError(FloatOutOfRange, location));
      case Malformed => r := Err(LexError(InvalidFloat, startLocation));
      case Fine(printed) => r := Ok(Token(FloatLit(number, printed, fractionEnd < iter.pos), start, iter.pos));
    }
  }

  /** Behind a leading zero, which is in the buffer. */
  method LexAfterZero(iter: InputIter, buffer: NumberBuffer, start: nat, startLocation: Location, strtod: Strtod)
    returns (r: Result<Token, LexError>)
    requires iter.Valid() && buffer.Valid() && iter.pos == start + 1 <= |iter.input|
    requires iter.input[start] == ZERO && startLocation == LocationAt(iter.input, start)
    requires buffer.Contents() == Kept(NoUnderscores(iter.input[start..iter.pos]))
    modifies iter, buffer, buffer.chars
    ensures iter.Valid() && r == NumberToken(iter.input, start, strtod)
    ensures r.Ok? ==> iter.pos == r.value.end
  {
    var p := iter.Current();
    if p == LETTER_X || p == CAPITAL_X {
      StoreOne(iter, buffer, start);
      PrefixKept(iter.input, start);
      r := LexPrefixed(iter, buffer, start, Hex);
    } else if p == LETTER_B || p == CAPITAL_B {
      StoreOne(iter, buffer, start);
      PrefixKept(iter.input, start);
      r := LexPrefixed(iter, buffer, start, Bin);
    } else if !IsDecDigit(p) && p != DOT && !IsE(p) {
      r := Ok(Token(IntLit(0, Dec), start, iter.pos));
    } else {
      r := LexDecimal(iter, buffer, start, startLocation, strtod);
    }
  }

  method LexNumber(iter: InputIter, strtod: Strtod) returns (r: Result<Token, LexError>)
    requires iter.Valid() && IsDecDigit(iter.Current())
    modifies iter
    ensures iter.Valid() && r == NumberToken(iter.input, old(iter.pos), strtod)
    ensures r.Ok? ==> iter.pos == r.value.end
  {
    var start := iter.pos;
    var startLocation := iter.GetLocation();
    var buffer := new NumberBuffer();
    assert iter.input[start..start] == [];
    if iter.Current() == ZERO {
      StoreOne(iter, buffer, start);
      r := LexAfterZero(iter, buffer, start, startLocation, strtod);
    } else {
      r := LexDecimal(iter, buffer, start, startLocation, strtod);
    }
  }

  lemma {:induction false} PrefixKept(s: Text, i: nat)
    requires i + 2 <= |s| && s[i] != UNDERSCORE && s[i + 1] != UNDERSCORE
    ensures Kept(NoUnderscores(s[i..i + 2])) == s[i..i + 2]
  {
    NoUnderscoresStep(s, i, i);
    NoUnderscoresStep(s, i, i + 1);
    assert s[i..i] == [];
  }

  method LexToken(iter: InputIter, strtod: Strtod) returns (r: Result<Token, LexError>)
    requires iter.Valid()
    modifies iter
    ensures iter.Valid() && r == NextToken(iter.input, old(iter.pos), strtod)
    ensures r.Ok? ==> iter.pos == r.value.end
  {
    var start := iter.pos;
    var startLocation := iter.GetLocation();
    var c := iter.Current();
    if c == NUL {
      return Ok(Token(Eof, start, start));
    } else if c == STAR {
      iter.Next();
      return Ok(Token(Times, start, iter.pos));
    } else if c == MINUS {
      var t := LexDash(iter);
      return Ok(t);
    } else if c == QUOTE {
      r := LexString(iter);
    } else if IsDecDigit(c) {
      r := LexNumber(iter, strtod);
    } else if IsIdent(c) {
      var t := LexIdentifierOrKeyword(iter);
      return Ok(t);
    } else {
      return Err(LexError(InvalidChar, startLocation));
    }
  }

  method LexAll(code: Text, strtod: Strtod) returns (r: Result<seq<Token>, LexError>)
    ensures r == Tokenize(code, strtod)
  {
    var iter := new InputIter(code);
    var tokens: seq<Token> := [];
    ghost var whole := Tokenize(code, strtod);
    assert Followed([], whole) == whole by {
      if whole.Ok? {
        assert [] + whole.value == whole.value;
      }
    }
    while true
      invariant iter.Valid() && iter.input == code
      invariant whole == Followed(tokens, Tokens(code, iter.pos, strtod))
      decreases |code| - iter.pos
    {
      ghost var from := iter.pos;
      EatWhitespaceAndComments(iter);
      var t := LexToken(iter, strtod);
      if t.Err? {
        return Err(t.error);
      }
      FollowedStep(code, from, strtod, tokens);
      tokens := tokens + [t.value];
      if t.value.kind.Eof? {
        return Ok(tokens);
      }
    }
  }

  function Followed(a: seq<Token>, b: Result<seq<Token>, LexError>): Result<seq<Token>, LexError> {
    if b.Err? then b else Ok(a + b.value)
  }

  lemma {:induction false} FollowedStep(s: Text, i: nat, strtod: Strtod, before: seq<Token>)
    requires i <= |s|
    ensures var t := NextToken(s, GapEnd(s, i), strtod);
            t.Ok? ==> Followed(before, Tokens(s, i, strtod)) ==
                      if t.value.kind.Eof? then Ok(before + [t.value])
                      else Followed(before + [t.value], Tokens(s, t.value.end, strtod))
  {
    var t := NextToken(s, GapEnd(s, i), strtod);
    if t.Ok? && !t.value.kind.Eof? && Tokens(s, t.value.end, strtod).Ok? {
      AppendAssoc(before, [t.value], Tokens(s, t.value.end, strtod).value);
    }
  }
}
