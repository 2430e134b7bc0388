/**
  * JSON text handling of native/c/zjson.hpp: escaping and unescaping of string contents, and
  * the indentation of a JSON text. Characters are bytes of IBM-1047, the native code page.
  */
module JsonText {
  import opened Common

  // ---------- escaping ----------

  function HexDigit(v: nat): (c: byte)
    requires v < 16
  {
    if v < 10 then ZERO + v else 0x81 + (v - 10)
  }

  function Escape(c: byte): (e: seq<byte>)
    ensures |e| >= 1
  {
    if c == QUOTE then [BACKSLASH, QUOTE]
    else if c == BACKSLASH then [BACKSLASH, BACKSLASH]
    else if c == BACKSPACE then [BACKSLASH, LETTER_B]
    else if c == FORM_FEED then [BACKSLASH, LETTER_F]
    else if c == NEWLINE then [BACKSLASH, LETTER_N]
    else if c == RETURN then [BACKSLASH, LETTER_R]
    else if c == TAB then [BACKSLASH, LETTER_T]
    else if IsControl(c) then [BACKSLASH, LETTER_U, ZERO, ZERO, HexDigit(c / 16), HexDigit(c % 16)]
    else [c]
  }

  function Escaped(s: seq<byte>): seq<byte> {
    if s == [] then [] else Escape(s[0]) + Escaped(s[1..])
  }

  lemma {:induction false} EscapedSnoc(s: seq<byte>, c: byte)
    ensures Escaped(s + [c]) == Escaped(s) + Escape(c)
  {
    if s == [] {
      assert (s + [c])[1..] == [];
    } else {
      assert (s + [c])[1..] == s[1..] + [c];
      EscapedSnoc(s[1..], c);
    }
  }

  method EscapeString(input: seq<byte>) returns (output: seq<byte>)
    ensures output == Escaped(input)
  {
    output := [];
    for i := 0 to |input|
      invariant output == Escaped(input[..i])
    {
      var c := input[i];
      EscapedSnoc(input[..i], c);
      assert input[..i + 1] == input[..i] + [c];
      output := output + Escape(c);
    }
    assert input[..|input|] == input;
  }

  // ---------- unescaping ----------

  function HexValue(c: byte): Option<nat> {
    if ZERO <= c < ZERO + 10 then Some(c - ZERO)
    else if 0x81 <= c < 0x87 then Some(c - 0x81 + 10)
    else if 0xC1 <= c < 0xC7 then Some(c - 0xC1 + 10)
    else None
  }

  predicate IsSpace(c: byte) { c in {BLANK, TAB, NEWLINE, VERTICAL_TAB, FORM_FEED, RETURN} }

  /** The hexadecimal number at the start of `s`, up to the first other character. */
  function LeadingHex(s: seq<byte>, value: nat): nat {
    if s == [] || HexValue(s[0]).None? then value else LeadingHex(s[1..], value * 16 + HexValue(s[0]).value)
  }

  predicate StartsHex(s: seq<byte>) { s != [] && HexValue(s[0]).Some? }

  const ULONG_VALUES := 0x1_0000_0000_0000_0000

  /** `strtoul` in base 16: `None` when there is no number to convert. */
  function Strtoul(s: seq<byte>): Option<nat> {
    if s == [] then None
    else if IsSpace(s[0]) then Strtoul(s[1..])
    else if s[0] == PLUS then Unsigned(s[1..])
    else if s[0] == MINUS then
      var v := Unsigned(s[1..]);
      if v.None? || v.value == 0 || v.value >= ULONG_VALUES then v else Some(ULONG_VALUES - v.value)
    else Unsigned(s)
  }

  function Unsigned(s: seq<byte>): Option<nat> {
    if |s| > 2 && s[0] == ZERO && s[1] in {LETTER_X, CAPITAL_X} && StartsHex(s[2..]) then Some(LeadingHex(s[2..], 0))
    else if StartsHex(s) then Some(LeadingHex(s, 0))
    else None
  }

  /** What `\uXXXX` becomes: one byte, or itself where it does not fit one. */
  function UnescapedHex(hex: seq<byte>): seq<byte> {
    var v := Strtoul(hex);
    if v.Some? && v.value < 256 then [v.value] else [BACKSLASH, LETTER_U] + hex
  }

  /** What one step takes from a non-empty text, and what it puts out. */
  function UnescapeStep(s: seq<byte>): (r: (nat, seq<byte>))
    requires s != []
    ensures 1 <= r.0 <= |s|
  {
    if s[0] != BACKSLASH || |s| == 1 then (1, [s[0]])
    else
      var c := s[1];
      if c == QUOTE || c == BACKSLASH || c == SLASH then (2, [c])
      else if c == LETTER_B then (2, [BACKSPACE])
      else if c == LETTER_F then (2, [FORM_FEED])
      else if c == LETTER_N then (2, [NEWLINE])
      else if c == LETTER_R then (2, [RETURN])
      else if c == LETTER_T then (2, [TAB])
      else if c == LETTER_U && |s| >= 6 then (6, UnescapedHex(s[2..6]))
      else (2, [BACKSLASH, c])
  }

  function Unescaped(s: seq<byte>): seq<byte>
    decreases |s|
  {
    if s == [] then []
    else
      var (n, out) := UnescapeStep(s);
      out + Unescaped(s[n..])
  }

  method UnescapeString(s: seq<byte>) returns (res: seq<byte>)
    ensures res == Unescaped(s)
  {
    res := [];
    var i := 0;
    while i < |s|
      invariant 0 <= i <= |s|
      invariant Unescaped(s) == res + Unescaped(s[i..])
      decreases |s| - i
    {
      ghost var rest := s[i..];
      ghost var start, before := i, res;
      if s[i] == BACKSLASH && i + 1 < |s| {
        i := i + 1;
        if s[i] == QUOTE {
          res := res + [QUOTE];
        } else if s[i] == BACKSLASH {
          res := res + [BACKSLASH];
        } else if s[i] == SLASH {
          res := res + [SLASH];
        } else if s[i] == LETTER_B {
          res := res + [BACKSPACE];
        } else if s[i] == LETTER_F {
          res := res + [FORM_FEED];
        } else if s[i] == LETTER_N {
          res := res + [NEWLINE];
        } else if s[i] == LETTER_R {
          res := res + [RETURN];
        } else if s[i] == LETTER_T {
          res := res + [TAB];
        } else if s[i] == LETTER_U {
          if i + 4 < |s| {
            var hex := s[i + 1..i + 5];
            assert rest[2..6] == hex;
            var val := Strtoul(hex);
            if val.Some? && val.value < 256 {
              res := res + [val.value];
            } else {
              res := res + ([BACKSLASH, LETTER_U] + hex);
            }
            i := i + 4;
          } else {
            res := res + [BACKSLASH, LETTER_U];
          }
        } else {
          res := res + [BACKSLASH, s[i]];
        }
      } else {
        res := res + [s[i]];
      }
      i := i + 1;
      assert UnescapeStep(rest) == (i - start, res[|before|..]);
      assert rest[i - start..] == s[i..];
      AppendAssoc(before, res[|before|..], Unescaped(s[i..]));
      assert res == before + res[|before|..];
    }
  }

  // ---------- unescape undoes escape ----------

  lemma {:induction false} HexByte(c: byte)
    ensures Strtoul([ZERO, ZERO, HexDigit(c / 16), HexDigit(c % 16)]) == Some(c)
  {
    var hi, lo := HexDigit(c / 16), HexDigit(c % 16);
    var s := [ZERO, ZERO, hi, lo];
    assert HexValue(hi) == Some(c / 16) && HexValue(lo) == Some(c % 16);
    assert s[1..] == [ZERO, hi, lo] && s[2..] == [hi, lo] && s[3..] == [lo] && s[4..] == [];
    assert [ZERO, hi, lo][1..] == [hi, lo] && [hi, lo][1..] == [lo] && [lo][1..] == [];
    assert LeadingHex([lo], c / 16) == LeadingHex([], c / 16 * 16 + c % 16);
    assert LeadingHex([hi, lo], 0) == LeadingHex([lo], c / 16);
    assert LeadingHex([ZERO, hi, lo], 0) == LeadingHex([hi, lo], 0);
  }

  lemma {:induction false} UnescapeOne(c: byte, rest: seq<byte>)
    ensures UnescapeStep(Escape(c) + rest) == (|Escape(c)|, [c])
  {
    var e := Escape(c);
    var s := e + rest;
    if |e| == 6 {
      HexByte(c);
      assert s[2..6] == e[2..6] == [ZERO, ZERO, HexDigit(c / 16), HexDigit(c % 16)];
    }
  }

  /** On every byte string, control bytes and `\u00xx` included. */
  lemma {:induction false} UnescapeEscape(s: seq<byte>)
    ensures Unescaped(Escaped(s)) == s
  {
    if s != [] {
      UnescapeEscape(s[1..]);
      UnescapeOne(s[0], Escaped(s[1..]));
      var e, rest := Escape(s[0]), Escaped(s[1..]);
      assert (e + rest)[|e|..] == rest;
      assert s == [s[0]] + s[1..];
    }
  }

  // ---------- indentation ----------

  /** Where in the text a scan is: inside a string, right behind a backslash there. */
  datatype Scan = Scan(inString: bool, escapeNext: bool)

  const OUTSIDE := Scan(false, false)
  const INSIDE := Scan(true, false)

  function ScanNext(st: Scan, c: byte): Scan {
    if st.escapeNext then st.(escapeNext := false)
    else if c == BACKSLASH && st.inString then st.(escapeNext := true)
    else if c == QUOTE then st.(inString := !st.inString)
    else st
  }

  /** Characters that stand for structure, not for the contents of a string. */
  predicate Structural(st: Scan, c: byte) {
    !st.escapeNext && !st.inString && c != QUOTE
  }

  function LevelAfter(level: int, st: Scan, c: byte): int {
    if !Structural(st, c) then level
    else if c == OPEN_BRACE || c == OPEN_BRACKET then level + 1
    else if c == CLOSE_BRACE || c == CLOSE_BRACKET then level - 1
    else level
  }

  /** A line break and the indentation behind it; `append` throws on a negative length. */
  function Break(level: int, spaces: int): Option<seq<byte>> {
    if level * spaces < 0 then None else Some([NEWLINE] + Blanks(level * spaces))
  }

  /** What one character becomes; `next` is the level behind it. */
  function IndentedChar(st: Scan, c: byte, next: int, spaces: int): Option<seq<byte>> {
    if !Structural(st, c) then Some([c])
    else if c == OPEN_BRACE || c == OPEN_BRACKET || c == COMMA then Prefixed([c], Break(next, spaces))
    else if c == CLOSE_BRACE || c == CLOSE_BRACKET then Followed(Break(next, spaces), [c])
    else if c == COLON then Some([c, BLANK])
    else Some([c])
  }

  /** `None`: the indentation throws. */
  function Indented(s: seq<byte>, spaces: int, level: int, st: Scan): Option<seq<byte>> {
    if s == [] then Some([])
    else
      var next := LevelAfter(level, st, s[0]);
      var piece := IndentedChar(st, s[0], next, spaces);
      if piece.None? then None else Prefixed(piece.value, Indented(s[1..], spaces, next, ScanNext(st, s[0])))
  }

  /** add_json_indentation. */
  method AddIndentation(s: seq<byte>, spaces: int) returns (result: Option<seq<byte>>)
    ensures result == Indented(s, spaces, 0, OUTSIDE)
  {
    var out: seq<byte> := [];
    var level := 0;
    var inString, escapeNext := false, false;
    ghost var whole := Indented(s, spaces, 0, OUTSIDE);
    IndentedFromStart(s, spaces);
    for i := 0 to |s|
      invariant whole == Prefixed(out, Indented(s[i..], spaces, level, Scan(inString, escapeNext)))
    {
      var ch := s[i];
      ghost var st, was := Scan(inString, escapeNext), level;
      var piece := Some([ch]);
      if escapeNext {
        escapeNext := false;
      } else if ch == BACKSLASH && inString {
        escapeNext := true;
      } else if ch == QUOTE {
        inString := !inString;
      } else if !inString {
        if ch == OPEN_BRACE || ch == OPEN_BRACKET {
          level := level + 1;
          piece := Prefixed([ch], Break(level, spaces));
        } else if ch == CLOSE_BRACE || ch == CLOSE_BRACKET {
          level := level - 1;
          piece := Followed(Break(level, spaces), [ch]);
        } else if ch == COMMA {
          piece := Prefixed([ch], Break(level, spaces));
        } else if ch == COLON {
          piece := Some([ch, BLANK]);
        }
      }
      assert level == LevelAfter(was, st, ch) && Scan(inString, escapeNext) == ScanNext(st, ch);
      assert piece == IndentedChar(st, ch, level, spaces);
      IndentedStep(s, i, spaces, was, st, out);
      if piece.None? {
        return None;
      }
      out := out + piece.value;
    }
    result := Some(out);
    assert s[|s|..] == [] && out + [] == out;
  }

  lemma {:induction false} IndentedFromStart(s: seq<byte>, spaces: int)
    ensures Indented(s, spaces, 0, OUTSIDE) == Prefixed([], Indented(s[0..], spaces, 0, OUTSIDE))
  {
    assert s[0..] == s;
    var r := Indented(s, spaces, 0, OUTSIDE);
    if r.Some? {
      assert [] + r.value == r.value;
    }
  }

  lemma {:induction false} IndentedStep(s: seq<byte>, i: nat, spaces: int, level: int, st: Scan, out: seq<byte>)
    requires i < |s|
    ensures var next := LevelAfter(level, st, s[i]);
            var piece := IndentedChar(st, s[i], next, spaces);
            Prefixed(out, Indented(s[i..], spaces, level, st)) ==
            if piece.None? then None
            else Prefixed(out + piece.value, Indented(s[i + 1..], spaces, next, ScanNext(st, s[i])))
  {
    var next := LevelAfter(level, st, s[i]);
    var piece := IndentedChar(st, s[i], next, spaces);
    assert s[i..][1..] == s[i + 1..];
    if piece.Some? {
      PrefixedTwice(out, piece.value, Indented(s[i + 1..], spaces, next, ScanNext(st, s[i])));
    }
  }

  function Followed(a: Option<seq<byte>>, b: seq<byte>): Option<seq<byte>> {
    if a.None? then None else Some(a.value + b)
  }

  function Prefixed(a: seq<byte>, b: Option<seq<byte>>): Option<seq<byte>> {
    if b.None? then None else Some(a + b.value)
  }

  lemma {:induction false} PrefixedTwice(a: seq<byte>, b: seq<byte>, c: Option<seq<byte>>)
    ensures Prefixed(a, Prefixed(b, c)) == Prefixed(a + b, c)
  {
    if c.Some? {
      AppendAssoc(a, b, c.value);
    }
  }

  // ---------- what indentation keeps ----------

  /** The text without the whitespace outside strings. */
  function Compact(s: seq<byte>, st: Scan): seq<byte> {
    if s == [] then []
    else if Structural(st, s[0]) && IsWhitespace(s[0]) then Compact(s[1..], st)
    else [s[0]] + Compact(s[1..], ScanNext(st, s[0]))
  }

  lemma {:induction false} CompactBlanks(n: nat, rest: seq<byte>)
    ensures Compact(Blanks(n) + rest, OUTSIDE) == Compact(rest, OUTSIDE)
  {
    if n == 0 {
      assert Blanks(0) + rest == rest;
    } else {
      CompactBlanks(n - 1, rest);
      assert (Blanks(n) + rest)[1..] == Blanks(n - 1) + rest;
    }
  }

  lemma {:induction false} CompactNewline(n: nat, rest: seq<byte>)
    ensures Compact([NEWLINE] + Blanks(n) + rest, OUTSIDE) == Compact(rest, OUTSIDE)
  {
    CompactBlanks(n, rest);
    assert ([NEWLINE] + Blanks(n) + rest)[1..] == Blanks(n) + rest;
  }

  lemma {:induction false} CompactChar(st: Scan, c: byte, next: int, spaces: int, rest: seq<byte>)
    requires st.escapeNext ==> st.inString
    requires IndentedChar(st, c, next, spaces).Some?
    ensures Compact(IndentedChar(st, c, next, spaces).value + rest, st) == Compact([c] + rest, st)
  {
    var piece := IndentedChar(st, c, next, spaces).value;
    if Structural(st, c) {
      if c == COLON {
        assert ([c, BLANK] + rest)[1..] == [BLANK] + rest && ([BLANK] + rest)[1..] == rest;
      } else if c == CLOSE_BRACE || c == CLOSE_BRACKET {
        CompactNewline(next * spaces, [c] + rest);
        AppendAssoc([NEWLINE] + Blanks(next * spaces), [c], rest);
      } else if c == OPEN_BRACE || c == OPEN_BRACKET || c == COMMA {
        CompactNewline(next * spaces, rest);
        AppendAssoc([c], [NEWLINE] + Blanks(next * spaces), rest);
        CompactBehind(c, [NEWLINE] + Blanks(next * spaces) + rest, rest);
      }
    }
  }

  lemma {:induction false} CompactBehind(c: byte, a: seq<byte>, b: seq<byte>)
    requires Structural(OUTSIDE, c) && Compact(a, OUTSIDE) == Compact(b, OUTSIDE)
    ensures Compact([c] + a, OUTSIDE) == Compact([c] + b, OUTSIDE)
  {
    assert ([c] + a)[1..] == a && ([c] + b)[1..] == b;
  }

  /** Indenting and then dropping whitespace outside strings is dropping it from the original. */
  lemma {:induction false} IndentKeepsText(s: seq<byte>, spaces: int, level: int, st: Scan)
    requires st.escapeNext ==> st.inString
    requires Indented(s, spaces, level, st).Some?
    ensures Compact(Indented(s, spaces, level, st).value, st) == Compact(s, st)
  {
    if s != [] {
      var c, next := s[0], LevelAfter(level, st, s[0]);
      var rest := Indented(s[1..], spaces, next, ScanNext(st, c)).value;
      IndentKeepsText(s[1..], spaces, next, ScanNext(st, c));
      CompactChar(st, c, next, spaces, rest);
      assert ([c] + rest)[1..] == rest;
      assert Structural(st, c) && IsWhitespace(c) ==> ScanNext(st, c) == st;
    }
  }

  /** No closing bracket outside a string comes before its opening one. */
  predicate NeverBelowZero(s: seq<byte>, level: int, st: Scan) {
    level >= 0 && (s == [] || NeverBelowZero(s[1..], LevelAfter(level, st, s[0]), ScanNext(st, s[0])))
  }

  lemma {:induction false} WidthSign(level: int, spaces: int)
    requires spaces >= 0
    ensures level * spaces < 0 <==> level < 0 && spaces > 0
  {
    if level < 0 {
      ProductsGrow(level, 0, spaces);
    }
  }

  /** With a width above zero exactly the texts whose brackets never close below zero are indented. */
  lemma {:induction false} IndentSucceedsExactly(s: seq<byte>, spaces: nat, level: nat, st: Scan)
    requires spaces > 0
    ensures Indented(s, spaces, level, st).Some? <==> NeverBelowZero(s, level, st)
  {
    if s != [] {
      var next := LevelAfter(level, st, s[0]);
      WidthSign(next, spaces);
      if next >= 0 {
        IndentSucceedsExactly(s[1..], spaces, next, ScanNext(st, s[0]));
      }
    }
  }

  /** With no indentation there is nothing to go wrong. */
  lemma {:induction false} NoWidthSucceeds(s: seq<byte>, level: int, st: Scan)
    ensures Indented(s, 0, level, st).Some?
  {
    if s != [] {
      WidthSign(LevelAfter(level, st, s[0]), 0);
      NoWidthSucceeds(s[1..], LevelAfter(level, st, s[0]), ScanNext(st, s[0]));
    }
  }

  // ---------- an escaped string stays one string ----------

  function ScanAll(st: Scan, s: seq<byte>): Scan
    decreases |s|
  {
    if s == [] then st else ScanAll(ScanNext(st, s[0]), s[1..])
  }

  /** Between its quotes an escaped string never ends the string nor puts out a control byte. */
  lemma {:induction false} EscapedStaysInside(s: seq<byte>, k: nat)
    requires k <= |Escaped(s)|
    ensures ScanAll(INSIDE, Escaped(s)[..k]).inString
    ensures ScanAll(INSIDE, Escaped(s)) == INSIDE
    ensures forall i :: 0 <= i < |Escaped(s)| ==> !IsControl(Escaped(s)[i])
  {
    if s != [] {
      var e, rest := Escape(s[0]), Escaped(s[1..]);
      EscapedStaysInside(s[1..], if k < |e| then 0 else k - |e|);
      EscapeStaysInside(s[0], if k < |e| then k else |e|);
      ScanAppend(INSIDE, e, rest);
      if k < |e| {
        assert (e + rest)[..k] == e[..k];
      } else {
        assert (e + rest)[..k] == e + rest[..k - |e|];
        ScanAppend(INSIDE, e, rest[..k - |e|]);
        assert e[..|e|] == e;
      }
    }
  }

  lemma {:induction false} ScanAppend(st: Scan, a: seq<byte>, b: seq<byte>)
    ensures ScanAll(st, a + b) == ScanAll(ScanAll(st, a), b)
    decreases |a|
  {
    if a == [] {
      assert a + b == b;
    } else {
      assert (a + b)[1..] == a[1..] + b;
      ScanAppend(ScanNext(st, a[0]), a[1..], b);
    }
  }

  lemma {:induction false} PlainStaysInside(s: seq<byte>)
    requires forall i :: 0 <= i < |s| ==> s[i] != QUOTE && s[i] != BACKSLASH
    ensures ScanAll(INSIDE, s) == INSIDE
  {
    if s != [] {
      PlainStaysInside(s[1..]);
    }
  }

  lemma {:induction false} EscapeStaysInside(c: byte, k: nat)
    requires k <= |Escape(c)|
    ensures ScanAll(INSIDE, Escape(c)[..k]).inString
    ensures ScanAll(INSIDE, Escape(c)) == INSIDE
    ensures forall i :: 0 <= i < |Escape(c)| ==> !IsControl(Escape(c)[i])
  {
    var e := Escape(c);
    if |e| == 1 {
      assert e[1..] == [];
      assert k == 0 || e[..k] == e;
    } else {
      var tail := e[2..];
      PlainStaysInside(tail);
      assert e[1..][1..] == tail;
      assert ScanAll(INSIDE, e) == ScanAll(INSIDE, tail);
      if k >= 2 {
        assert e[..k][1..][1..] == tail[..k - 2];
        PlainStaysInside(tail[..k - 2]);
      } else if k == 1 {
        assert e[..1][1..] == [];
      }
    }
  }
}
