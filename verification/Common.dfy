/** Vocabulary shared by every component of the model. */
module Common {

  type byte = x: int | 0 <= x < 256

  // ---------- IBM-1047, the native code page ----------

  const NUL: byte := 0x00
  const TAB: byte := 0x05
  const VERTICAL_TAB: byte := 0x0B
  const FORM_FEED: byte := 0x0C
  const RETURN: byte := 0x0D
  const NEWLINE: byte := 0x15
  const BACKSPACE: byte := 0x16
  const BLANK: byte := 0x40
  const DOT: byte := 0x4B
  const PLUS: byte := 0x4E
  const STAR: byte := 0x5C
  const MINUS: byte := 0x60
  const SLASH: byte := 0x61
  const COMMA: byte := 0x6B
  const UNDERSCORE: byte := 0x6D
  const QUERY: byte := 0x6F
  const COLON: byte := 0x7A
  const HASH: byte := 0x7B
  const APOSTROPHE: byte := 0x7D
  const EQUALS: byte := 0x7E
  const QUOTE: byte := 0x7F
  const LETTER_A: byte := 0x81
  const LETTER_B: byte := 0x82
  const LETTER_E: byte := 0x85
  const LETTER_F: byte := 0x86
  const LETTER_N: byte := 0x95
  const LETTER_R: byte := 0x99
  const LETTER_T: byte := 0xA3
  const LETTER_U: byte := 0xA4
  const LETTER_X: byte := 0xA7
  const OPEN_BRACKET: byte := 0xAD
  const CLOSE_BRACKET: byte := 0xBD
  const OPEN_BRACE: byte := 0xC0
  const CAPITAL_A: byte := 0xC1
  const CAPITAL_B: byte := 0xC2
  const CAPITAL_E: byte := 0xC5
  const CLOSE_BRACE: byte := 0xD0
  const BACKSLASH: byte := 0xE0
  const CAPITAL_X: byte := 0xE7
  const ZERO: byte := 0xF0

  /** `iscntrl`. */
  predicate IsControl(c: byte) { c < BLANK || c == 0xFF }

  predicate IsWhitespace(c: byte) { c == BLANK || c == TAB || c == NEWLINE || c == RETURN }

  // ---------- values ----------

  /** The return code of a step that failed. */
  const FAILURE := -1

  datatype Option<+T> = None | Some(value: T) {
    function GetOr(default: T): T {
      if this.Some? then value else default
    }
  }

  datatype Result<+T, +E> = Ok(value: T) | Err(error: E)

  function Blanks(n: nat): (r: seq<byte>)
    ensures |r| == n && forall i :: 0 <= i < n ==> r[i] == BLANK
  {
    seq(n, i => BLANK)
  }

  function Min(a: int, b: int): int { if a < b then a else b }

  /** The concatenation, in order, of the pieces of `ss`. */
  function Flatten<T>(ss: seq<seq<T>>): seq<T> {
    if ss == [] then [] else ss[0] + Flatten(ss[1..])
  }

  lemma {:induction false} FlattenAppend<T>(ss: seq<seq<T>>, tt: seq<seq<T>>)
    ensures Flatten(ss + tt) == Flatten(ss) + Flatten(tt)
  {
    if ss == [] {
      assert ss + tt == tt;
    } else {
      FlattenAppend(ss[1..], tt);
      assert (ss + tt)[0] == ss[0] && (ss + tt)[1..] == ss[1..] + tt;
      AppendAssoc(ss[0], Flatten(ss[1..]), Flatten(tt));
    }
  }

  lemma {:induction false} FlattenSnoc<T>(ss: seq<seq<T>>, s: seq<T>)
    ensures Flatten(ss + [s]) == Flatten(ss) + s
  {
    FlattenAppend(ss, [s]);
    assert Flatten([s]) == s;
  }

  lemma {:induction false} AppendAssoc<T>(a: seq<T>, b: seq<T>, c: seq<T>)
    ensures a + (b + c) == a + b + c
  {
  }

  lemma {:induction false} ProductsGrow(p: int, q: int, m: nat)
    requires p < q
    ensures p * m + m <= q * m
  {
    assert (q - p - 1) * m >= 0;
  }

  lemma {:induction false} QuotientUnique(x: int, k: int, r: int, m: nat)
    requires 0 <= r < m && x == k * m + r
    ensures x / m == k && x % m == r
  {
    var q, t := x / m, x % m;
    if q < k {
      ProductsGrow(q, k, m);
    } else if k < q {
      ProductsGrow(k, q, m);
    }
  }
}
