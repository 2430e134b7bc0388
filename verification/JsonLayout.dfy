/** Escapes and indentation as they look in the bytes of a JSON text. */
module JsonLayout {
  import opened Common
  import opened JsonText

  // ---------- what is escaped, and how ----------

  /** Quote, backslash, backspace, form feed, newline, carriage return and tab, with the letter of each escape. */
  const SHORT: map<byte, byte> :=
    map[0x7F := 0x7F, 0xE0 := 0xE0, 0x16 := 0x82, 0x0C := 0x86, 0x15 := 0x95, 0x0D := 0x99, 0x05 := 0xA3]

  /** `0123456789abcdef`. */
  const DIGITS: seq<byte> :=
    [0xF0, 0xF1, 0xF2, 0xF3, 0xF4, 0xF5, 0xF6, 0xF7, 0xF8, 0xF9, 0x81, 0x82, 0x83, 0x84, 0x85, 0x86]

  function Shown(c: byte): seq<byte> {
    if c in SHORT then [0xE0, SHORT[c]]
    else if c < 0x40 || c == 0xFF then [0xE0, 0xA4, 0xF0, 0xF0, DIGITS[c / 16], DIGITS[c % 16]]
    else [c]
  }

  lemma {:induction false} HexDigitIs(v: nat)
    requires v < 16
    ensures HexDigit(v) == DIGITS[v]
  {
  }

  lemma {:induction false} EscapeIsShown(c: byte)
    ensures Escape(c) == Shown(c)
  {
    HexDigitIs(c / 16);
    HexDigitIs(c % 16);
  }

  function AllShown(s: seq<byte>): (pieces: seq<seq<byte>>)
    ensures |pieces| == |s|
  {
    seq(|s|, k requires 0 <= k < |s| => Shown(s[k]))
  }

  /** Every character of the text is shown by its escape, or as itself. */
  lemma {:induction false} EscapedExactly(s: seq<byte>)
    ensures Escaped(s) == Flatten(AllShown(s))
  {
    if s != [] {
      EscapedExactly(s[1..]);
      EscapeIsShown(s[0]);
      assert AllShown(s)[1..] == AllShown(s[1..]);
    }
  }

  // ---------- what escapes mean ----------

  /** The letters behind a backslash that stand for a character, a slash among them. */
  const MEANT: map<byte, byte> :=
    map[0x7F := 0x7F, 0xE0 := 0xE0, 0x61 := 0x61, 0x82 := 0x16, 0x86 := 0x0C, 0x95 := 0x15, 0x99 := 0x0D, 0xA3 := 0x05]

  /** A hexadecimal digit in either case, and its value. */
  predicate IsHexDigit(c: byte, v: nat) {
    (0xF0 <= c <= 0xF9 && v == c - 0xF0) || (0x81 <= c <= 0x86 && v == c - 0x77) || (0xC1 <= c <= 0xC6 && v == c - 0xB7)
  }

  lemma {:induction false} OneStep(s: seq<byte>, n: nat, out: seq<byte>)
    requires s != [] && UnescapeStep(s) == (n, out)
    ensures Unescaped(s) == out + Unescaped(s[n..])
  {
  }

  lemma {:induction false} PlainMeansItself(c: byte, rest: seq<byte>)
    requires c != 0xE0
    ensures Unescaped([c] + rest) == [c] + Unescaped(rest)
  {
    var s := [c] + rest;
    assert s[1..] == rest;
    OneStep(s, 1, [c]);
  }

  /** A backslash and one character: its meaning, or both as they are; a lone one at the end stays. */
  lemma {:induction false} ShortEscapeMeans(c: byte, rest: seq<byte>)
    requires c != 0xA4
    ensures Unescaped([0xE0, c] + rest) == (if c in MEANT then [MEANT[c]] else [0xE0, c]) + Unescaped(rest)
    ensures Unescaped([0xE0]) == [0xE0]
  {
    var s := [0xE0, c] + rest;
    assert s[2..] == rest;
    OneStep(s, 2, if c in MEANT then [MEANT[c]] else [0xE0, c]);
    assert UnescapeStep([0xE0]) == (1, [0xE0]);
    OneStep([0xE0], 1, [0xE0]);
  }

  lemma {:induction false} HexDigitMeans(c: byte, v: nat)
    ensures IsHexDigit(c, v) <==> HexValue(c) == Some(v)
  {
  }

  lemma {:induction false} LeadingHexOf(h: seq<byte>, v: seq<nat>)
    requires |h| == |v| == 4 && forall k :: 0 <= k < 4 ==> IsHexDigit(h[k], v[k])
    ensures LeadingHex(h, 0) == v[0] * 4096 + v[1] * 256 + v[2] * 16 + v[3]
  {
    HexDigitMeans(h[0], v[0]);
    HexDigitMeans(h[1], v[1]);
    HexDigitMeans(h[2], v[2]);
    HexDigitMeans(h[3], v[3]);
    assert h[1..][1..] == h[2..] && h[2..][1..] == h[3..] && h[3..][1..] == [];
    assert LeadingHex(h[3..], (v[0] * 16 + v[1]) * 16 + v[2]) == LeadingHex([], ((v[0] * 16 + v[1]) * 16 + v[2]) * 16 + v[3]);
    assert LeadingHex(h[2..], v[0] * 16 + v[1]) == LeadingHex(h[3..], (v[0] * 16 + v[1]) * 16 + v[2]);
    assert LeadingHex(h[1..], v[0]) == LeadingHex(h[2..], v[0] * 16 + v[1]);
  }

  /** `u` and four hexadecimal digits: the character of that number, or itself where it is none. */
  lemma {:induction false} HexEscapeMeans(h: seq<byte>, v: seq<nat>, rest: seq<byte>)
    requires |h| == |v| == 4 && forall k :: 0 <= k < 4 ==> IsHexDigit(h[k], v[k])
    ensures var n := v[0] * 4096 + v[1] * 256 + v[2] * 16 + v[3];
            Unescaped([0xE0, 0xA4] + h + rest) == (if n < 256 then [n] else [0xE0, 0xA4] + h) + Unescaped(rest)
  {
    var s := [0xE0, 0xA4] + h + rest;
    LeadingHexOf(h, v);
    NoPrefix(h, v);
    assert s[2..6] == h && s[6..] == rest;
    OneStep(s, 6, UnescapedHex(h));
  }

  lemma {:induction false} NoPrefix(h: seq<byte>, v: seq<nat>)
    requires |h| == |v| == 4 && forall k :: 0 <= k < 4 ==> IsHexDigit(h[k], v[k])
    ensures Strtoul(h) == Some(LeadingHex(h, 0))
  {
    HexDigitMeans(h[0], v[0]);
    assert !IsSpace(h[0]) && h[0] != PLUS && h[0] != MINUS;
    assert IsHexDigit(h[1], v[1]) && h[1] !in {LETTER_X, CAPITAL_X};
  }

  /** With fewer than four characters behind it, `\u` stays as it is. */
  lemma {:induction false} ShortHexStays(rest: seq<byte>)
    requires |rest| < 4
    ensures Unescaped([0xE0, 0xA4] + rest) == [0xE0, 0xA4] + Unescaped(rest)
  {
    var s := [0xE0, 0xA4] + rest;
    assert s[2..] == rest;
    OneStep(s, 2, [0xE0, 0xA4]);
  }

  // ---------- indented texts ----------

  /** A piece of a JSON text: brackets, commas, colons, whole strings, and any other character. */
  datatype Piece = Open(c: byte) | Close(c: byte) | Separator | Colon | Quoted(raw: seq<byte>) | Other(c: byte)

  /** Nothing in it ends the string it is the content of. */
  predicate IsRaw(raw: seq<byte>) {
    raw != [] ==> if raw[0] == 0xE0 then |raw| > 1 && IsRaw(raw[2..]) else raw[0] != 0x7F && IsRaw(raw[1..])
  }

  predicate IsPiece(p: Piece) {
    match p
    case Open(c) => c == 0xC0 || c == 0xAD
    case Close(c) => c == 0xD0 || c == 0xBD
    case Quoted(raw) => IsRaw(raw)
    case Other(c) => c !in {0xC0, 0xAD, 0xD0, 0xBD, 0x6B, 0x7A, 0x7F}
    case _ => true
  }

  function PieceText(p: Piece): seq<byte> {
    match p
    case Open(c) => [c]
    case Close(c) => [c]
    case Separator => [0x6B]
    case Colon => [0x7A]
    case Quoted(raw) => [0x7F] + raw + [0x7F]
    case Other(c) => [c]
  }

  function TextOf(ps: seq<Piece>): seq<byte> {
    if ps == [] then [] else PieceText(ps[0]) + TextOf(ps[1..])
  }

  /** How many brackets are open behind the piece, if `level` are in front of it. */
  function LevelBehind(level: int, p: Piece): int {
    if p.Open? then level + 1 else if p.Close? then level - 1 else level
  }

  predicate BreaksLine(p: Piece) { p.Open? || p.Close? || p.Separator? }

  function NewLine(width: nat): seq<byte> { [0x15] + seq(width, i => 0x40) }

  /** A new line behind an opening bracket and a comma, and in front of a closing one; a blank behind a colon. */
  function LaidOut(p: Piece, width: nat): seq<byte> {
    match p
    case Open(c) => [c] + NewLine(width)
    case Close(c) => NewLine(width) + [c]
    case Separator => [0x6B] + NewLine(width)
    case Colon => [0x7A, 0x40]
    case _ => PieceText(p)
  }

  /** Each piece laid out with the depth it stands at; `None` where a new line would be indented by less than nothing. */
  function Layout(ps: seq<Piece>, level: int, spaces: int): Option<seq<byte>> {
    if ps == [] then Some([])
    else
      var next := LevelBehind(level, ps[0]);
      if BreaksLine(ps[0]) && next * spaces < 0 then None
      else
        var rest := Layout(ps[1..], next, spaces);
        if rest.None? then None
        else Some(LaidOut(ps[0], if BreaksLine(ps[0]) then next * spaces else 0) + rest.value)
  }

  lemma {:induction false} InString(raw: seq<byte>, rest: seq<byte>, spaces: int, level: int)
    requires IsRaw(raw)
    ensures Indented(raw + ([0x7F] + rest), spaces, level, INSIDE) ==
            Prefixed(raw + [0x7F], Indented(rest, spaces, level, OUTSIDE))
    decreases |raw|
  {
    var s := raw + ([0x7F] + rest);
    if raw == [] {
      assert s == [0x7F] + rest && s[1..] == rest && [] + [0x7F] == [0x7F];
    } else if raw[0] == 0xE0 {
      InString(raw[2..], rest, spaces, level);
      EscapedPair(raw, [0x7F] + rest, spaces, level);
      PrefixedTwice(raw[..2], raw[2..] + [0x7F], Indented(rest, spaces, level, OUTSIDE));
      assert raw[..2] + (raw[2..] + [0x7F]) == raw + [0x7F];
    } else {
      InString(raw[1..], rest, spaces, level);
      PlainInString(raw, [0x7F] + rest, spaces, level);
      PrefixedTwice(raw[..1], raw[1..] + [0x7F], Indented(rest, spaces, level, OUTSIDE));
      assert raw[..1] + (raw[1..] + [0x7F]) == raw + [0x7F];
    }
  }

  lemma {:induction false} PlainInString(raw: seq<byte>, rest: seq<byte>, spaces: int, level: int)
    requires raw != [] && raw[0] != 0xE0 && raw[0] != 0x7F
    ensures Indented(raw + rest, spaces, level, INSIDE) == Prefixed(raw[..1], Indented(raw[1..] + rest, spaces, level, INSIDE))
  {
    assert (raw + rest)[1..] == raw[1..] + rest && raw[..1] == [raw[0]];
  }

  lemma {:induction false} EscapedPair(raw: seq<byte>, rest: seq<byte>, spaces: int, level: int)
    requires |raw| > 1 && raw[0] == 0xE0
    ensures Indented(raw + rest, spaces, level, INSIDE) == Prefixed(raw[..2], Indented(raw[2..] + rest, spaces, level, INSIDE))
  {
    var s, behind := raw + rest, INSIDE.(escapeNext := true);
    assert s[1..] == raw[1..] + rest && s[1..][1..] == raw[2..] + rest;
    assert Indented(s[1..], spaces, level, behind) == Prefixed([raw[1]], Indented(raw[2..] + rest, spaces, level, INSIDE));
    PrefixedTwice([raw[0]], [raw[1]], Indented(raw[2..] + rest, spaces, level, INSIDE));
    assert [raw[0]] + [raw[1]] == raw[..2];
  }

  lemma {:induction false} QuotedPiece(raw: seq<byte>, rest: seq<byte>, spaces: int, level: int)
    requires IsRaw(raw)
    ensures Indented([0x7F] + raw + [0x7F] + rest, spaces, level, OUTSIDE) ==
            Prefixed([0x7F] + raw + [0x7F], Indented(rest, spaces, level, OUTSIDE))
  {
    var s := [0x7F] + raw + [0x7F] + rest;
    assert s[1..] == raw + ([0x7F] + rest);
    InString(raw, rest, spaces, level);
    PrefixedTwice([0x7F], raw + [0x7F], Indented(rest, spaces, level, OUTSIDE));
    assert [0x7F] + (raw + [0x7F]) == [0x7F] + raw + [0x7F];
  }

  lemma {:induction false} SinglePiece(p: Piece, rest: seq<byte>, spaces: int, level: int)
    requires IsPiece(p) && !p.Quoted?
    ensures var next := LevelBehind(level, p);
            Indented(PieceText(p) + rest, spaces, level, OUTSIDE) ==
            if BreaksLine(p) && next * spaces < 0 then None
            else Prefixed(LaidOut(p, if BreaksLine(p) then next * spaces else 0), Indented(rest, spaces, next, OUTSIDE))
  {
    var s, next := PieceText(p) + rest, LevelBehind(level, p);
    assert s[1..] == rest;
    assert LevelAfter(level, OUTSIDE, s[0]) == next && ScanNext(OUTSIDE, s[0]) == OUTSIDE;
    if BreaksLine(p) && next * spaces >= 0 {
      assert Blanks(next * spaces) == seq(next * spaces, i => 0x40);
      assert Break(next, spaces) == Some(NewLine(next * spaces));
    }
  }

  lemma {:induction false} PieceIsLaidOut(p: Piece, rest: seq<byte>, spaces: int, level: int)
    requires IsPiece(p)
    ensures var next := LevelBehind(level, p);
            Indented(PieceText(p) + rest, spaces, level, OUTSIDE) ==
            if BreaksLine(p) && next * spaces < 0 then None
            else Prefixed(LaidOut(p, if BreaksLine(p) then next * spaces else 0), Indented(rest, spaces, next, OUTSIDE))
  {
    if p.Quoted? {
      QuotedPiece(p.raw, rest, spaces, level);
    } else {
      SinglePiece(p, rest, spaces, level);
    }
  }

  /** A text made of such pieces is indented piece by piece, each at its depth. */
  lemma {:induction false} IndentedIsLayout(ps: seq<Piece>, spaces: int, level: int)
    requires forall p :: p in ps ==> IsPiece(p)
    ensures Indented(TextOf(ps), spaces, level, OUTSIDE) == Layout(ps, level, spaces)
    decreases |ps|
  {
    if ps != [] {
      IndentedIsLayout(ps[1..], spaces, LevelBehind(level, ps[0]));
      PieceIsLaidOut(ps[0], TextOf(ps[1..]), spaces, level);
    }
  }
}
