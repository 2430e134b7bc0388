/** Values as they are written on a command line, and how the value loops take runs of them. */
module TokenRuns {
  import opened Common
  import opened Lexer
  import opened LexerProofs
  import opened CommandParser

  /** One value: a quoted text, an integer, a floating-point number, a truth value, a bare word or a star. */
  datatype Word =
    | Literal(text: Text)
    | Number(value: int, base: Radix)
    | Fraction(number: Text, printed: Text, exponent: bool)
    | Truth(b: bool)
    | Bare(text: Text)
    | Asterisk

  function WordToken(w: Word): Kind {
    match w
    case Literal(text) => StrLit(EscapedText(text))
    case Number(v, base) => IntLit(v, base)
    case Fraction(number, printed, exponent) => FloatLit(number, printed, exponent)
    case Truth(b) => if b then True else False
    case Bare(text) => Id(text)
    case Asterisk => Times
  }

  function WordTokens(words: seq<Word>): (toks: seq<Kind>)
    ensures |toks| == |words|
  {
    if words == [] then [] else [WordToken(words[0])] + WordTokens(words[1..])
  }

  // ---------- what a word means ----------

  function AsText(w: Word): Text {
    match w
    case Literal(text) => text
    case Number(v, base) => Printed(IntLit(v, base))
    case Fraction(_, printed, _) => printed
    case Truth(b) => if b then [0xA3, 0x99, 0xA4, 0x85] else [0x86, 0x81, 0x93, 0xA2, 0x85]
    case Bare(text) => text
    case Asterisk => [0x5C]
  }

  function Texts(words: seq<Word>): (ss: seq<Text>)
    ensures |ss| == |words|
  {
    if words == [] then [] else [AsText(words[0])] + Texts(words[1..])
  }

  /** As the one value of an argument: numbers stay numbers unless strings are asked for. */
  function OneValue(w: Word, coerce: bool): ArgValue {
    if w.Number? && !coerce then VInt(w.value)
    else if w.Fraction? && !coerce then VFloat(w.number)
    else VStr(AsText(w))
  }

  /** As the value of a flag: words other than `true` are false. */
  predicate IsTruth(w: Word) { w.Truth? || w.Bare? || w.Literal? }

  predicate Truthful(w: Word) { AsText(w) == [0xA3, 0x99, 0xA4, 0x85] }

  // ---------- runs of tokens ----------

  /** `part` stands in `toks` at `i`. */
  predicate StandsAt(toks: seq<Kind>, i: nat, part: seq<Kind>) {
    i + |part| <= |toks| && forall k :: i <= k < i + |part| ==> toks[k] == part[k - i]
  }

  /** No value stands there: the end, a flag or the delimiter. */
  predicate NoWordAt(toks: seq<Kind>, i: nat) { i >= |toks| || IsFlag(toks[i]) || toks[i].DoubleMinus? }

  lemma {:induction false} StandsSplit(toks: seq<Kind>, i: nat, a: seq<Kind>, b: seq<Kind>)
    requires StandsAt(toks, i, a + b)
    ensures StandsAt(toks, i, a) && StandsAt(toks, i + |a|, b)
  {
    forall k | i <= k < i + |a|
      ensures toks[k] == a[k - i]
    {
      assert (a + b)[k - i] == a[k - i];
    }
    forall k | i + |a| <= k < i + |a| + |b|
      ensures toks[k] == b[k - (i + |a|)]
    {
      assert (a + b)[k - i] == b[k - i - |a|];
    }
  }

  lemma {:induction false} StandsHead(toks: seq<Kind>, i: nat, k: Kind, rest: seq<Kind>)
    requires StandsAt(toks, i, [k] + rest)
    ensures i < |toks| && toks[i] == k && StandsAt(toks, i + 1, rest)
  {
    StandsSplit(toks, i, [k], rest);
  }

  lemma {:induction false} WordAsValue(w: Word, ty: ArgType, coerce: bool)
    ensures ty == Single ==> TokenValue(WordToken(w), ty, coerce) == OneValue(w, coerce)
    ensures ty == Multiple ==> TokenValue(WordToken(w), ty, coerce) == VStr(AsText(w))
    ensures ty == Flag && IsTruth(w) ==> TokenValue(WordToken(w), ty, coerce) == VBool(Truthful(w))
  {
    if w.Literal? {
      LiteralOfEscaped(w.text);
    }
  }

  lemma {:induction false} FirstWord(toks: seq<Kind>, i: nat, words: seq<Word>)
    requires words != [] && StandsAt(toks, i, WordTokens(words))
    ensures i < |toks| && toks[i] == WordToken(words[0]) && StandsAt(toks, i + 1, WordTokens(words[1..]))
  {
    StandsHead(toks, i, WordToken(words[0]), WordTokens(words[1..]));
  }

  lemma {:induction false} WordsAreTaken(toks: seq<Kind>, i: nat, words: seq<Word>)
    requires StandsAt(toks, i, WordTokens(words)) && NoWordAt(toks, i + |words|)
    ensures StringsEnd(toks, i) == i + |words| && StringsOf(toks[i..i + |words|]) == Texts(words)
    decreases |words|
  {
    if words == [] {
      assert toks[i..i] == [];
    } else {
      FirstWord(toks, i, words);
      WordAsValue(words[0], Multiple, false);
      WordsAreTaken(toks, i + 1, words[1..]);
      assert toks[i..i + |words|][1..] == toks[i + 1..i + |words|];
    }
  }

  /** The rest of several words, as the loops over values take them. */
  lemma {:induction false} RestOfWords(toks: seq<Kind>, i: nat, words: seq<Word>)
    requires words != [] && StandsAt(toks, i + 1, WordTokens(words[1..])) && NoWordAt(toks, i + |words|)
    ensures i + 1 <= |toks| && StringsEnd(toks, i + 1) == i + |words|
    ensures forall before: seq<Text> ::
              before + [AsText(words[0])] + StringsOf(toks[i + 1..StringsEnd(toks, i + 1)]) == before + Texts(words)
  {
    WordsAreTaken(toks, i + 1, words[1..]);
    forall before: seq<Text>
      ensures before + [AsText(words[0])] + Texts(words[1..]) == before + Texts(words)
    {
      AppendAssoc(before, [AsText(words[0])], Texts(words[1..]));
    }
  }
}
