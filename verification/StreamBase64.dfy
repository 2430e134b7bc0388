/**
  * Streaming Base64 of native/c/zbase64.h (RFC 4648, section 4). Characters are bytes in
  * IBM-1047, the code page of the decode table.
  */
module StreamBase64 {
  import opened Common

  const PAD: byte := EQUALS
  const PADDING_MARK := 254
  const INVALID := 255

  datatype DecodeError = InvalidLength | InvalidCharacter

  // ---------- the alphabet ----------

  /** `A`-`Z`, `a`-`z`, `0`-`9`, `+`, `/` in IBM-1047. */
  function EncodeChar(v: nat): (c: byte)
    requires v < 64
    ensures c != PAD
  {
    if v < 9 then 193 + v
    else if v < 18 then 209 + (v - 9)
    else if v < 26 then 226 + (v - 18)
    else if v < 35 then 129 + (v - 26)
    else if v < 44 then 145 + (v - 35)
    else if v < 52 then 162 + (v - 44)
    else if v < 62 then 240 + (v - 52)
    else if v == 62 then 78
    else 97
  }

  /** The entry of the decode table for one character. */
  function DecodeChar(c: byte): byte {
    if 193 <= c < 202 then c - 193
    else if 209 <= c < 218 then 9 + (c - 209)
    else if 226 <= c < 234 then 18 + (c - 226)
    else if 129 <= c < 138 then 26 + (c - 129)
    else if 145 <= c < 154 then 35 + (c - 145)
    else if 162 <= c < 170 then 44 + (c - 162)
    else if 240 <= c < 250 then 52 + (c - 240)
    else if c == 78 then 62
    else if c == 97 then 63
    else if c == PAD then PADDING_MARK
    else INVALID
  }

  /** The table inverts the alphabet, and marks everything else as padding or invalid. */
  lemma {:induction false} DecodeCharInvertsEncodeChar(c: byte)
    ensures DecodeChar(c) < 64 || DecodeChar(c) == PADDING_MARK || DecodeChar(c) == INVALID
    ensures DecodeChar(c) == PADDING_MARK <==> c == PAD
    ensures DecodeChar(c) < 64 ==> EncodeChar(DecodeChar(c)) == c
    ensures forall v: nat :: v < 64 && EncodeChar(v) == c ==> DecodeChar(c) == v
  {
  }

  /** get_ebcdic_decode_table: everything invalid, then the runs of the alphabet. */
  method BuildDecodeTable() returns (table: seq<byte>)
    ensures |table| == 256
    ensures forall c: byte :: table[c] == DecodeChar(c)
  {
    var t := new byte[256](i => INVALID);
    FillRun(t, 193, 0, 9);
    FillRun(t, 209, 9, 9);
    FillRun(t, 226, 18, 8);
    FillRun(t, 129, 26, 9);
    FillRun(t, 145, 35, 9);
    FillRun(t, 162, 44, 8);
    FillRun(t, 240, 52, 10);
    t[78], t[97], t[126] := 62, 63, 254;
    table := t[..];
  }

  method FillRun(t: array<byte>, first: nat, value: nat, n: nat)
    requires first + n <= t.Length && value + n <= 64
    modifies t
    ensures forall k :: first <= k < first + n ==> t[k] == value + (k - first)
    ensures forall k :: 0 <= k < t.Length && !(first <= k < first + n) ==> t[k] == old(t[k])
  {
    for i := 0 to n
      invariant forall k :: first <= k < first + i ==> t[k] == value + (k - first)
      invariant forall k :: 0 <= k < t.Length && !(first <= k < first + i) ==> t[k] == old(t[k])
    {
      t[first + i] := value + i;
    }
  }

  // ---------- what the encoding is ----------

  /** Three bytes as four groups of six bits. */
  function Sextets(a: byte, b: byte, c: byte): (q: seq<nat>)
    ensures |q| == 4 && forall k :: 0 <= k < 4 ==> q[k] < 64
  {
    [a / 4, a % 4 * 16 + b / 16, b % 16 * 4 + c / 64, c % 64]
  }

  function Quad(a: byte, b: byte, c: byte): (t: seq<byte>)
    ensures |t| == 4
  {
    var q := Sextets(a, b, c);
    [EncodeChar(q[0]), EncodeChar(q[1]), EncodeChar(q[2]), EncodeChar(q[3])]
  }

  /** The groups of three that `n` bytes begin. */
  function Triples(n: nat): nat { if n == 0 then 0 else if n <= 3 then 1 else 1 + Triples(n - 3) }

  lemma {:induction false} TriplesAre(n: nat)
    ensures Triples(n) == (n + 2) / 3
    decreases n
  {
    if n > 3 {
      TriplesAre(n - 3);
      var q := (n - 1) / 3;
      QuotientUnique(n + 2, q + 1, (n - 1) % 3, 3);
    }
  }

  function Encoded(s: seq<byte>): (t: seq<byte>)
    ensures |t| == 4 * Triples(|s|)
  {
    if |s| == 0 then []
    else if |s| == 1 then Quad(s[0], 0, 0)[..2] + [PAD, PAD]
    else if |s| == 2 then Quad(s[0], s[1], 0)[..3] + [PAD]
    else Quad(s[0], s[1], s[2]) + Encoded(s[3..])
  }

  /** The bytes four characters stand for. */
  function Unquad(t: seq<byte>): (r: Result<seq<byte>, DecodeError>)
    requires |t| == 4
    ensures r.Ok? ==> 1 <= |r.value| <= 3
  {
    var c0, c1 := DecodeChar(t[0]), DecodeChar(t[1]);
    var c2 := if t[2] == PAD then 0 else DecodeChar(t[2]);
    var c3 := if t[3] == PAD then 0 else DecodeChar(t[3]);
    if c0 >= 64 || c1 >= 64 || c2 >= 64 || c3 >= 64 then Err(InvalidCharacter)
    else
      Ok([c0 * 4 + c1 / 16]
         + (if t[2] == PAD then []
            else [c1 % 16 * 16 + c2 / 4] + if t[3] == PAD then [] else [c2 % 4 * 64 + c3]))
  }

  function DecodedQuads(t: seq<byte>): Result<seq<byte>, DecodeError>
    requires |t| % 4 == 0
  {
    if t == [] then Ok([])
    else
      var first := Unquad(t[..4]);
      if first.Err? then first
      else
        var rest := DecodedQuads(t[4..]);
        if rest.Err? then rest else Ok(first.value + rest.value)
  }

  function Decoded(t: seq<byte>): Result<seq<byte>, DecodeError> {
    if |t| % 4 != 0 then Err(InvalidLength) else DecodedQuads(t)
  }

  // ---------- one-shot encode and decode ----------

  function ShiftRight(n: nat, bits: nat): nat
    requires bits in {0, 6, 8, 12, 16, 18}
  {
    if bits == 0 then n
    else if bits == 6 then n / 0x40
    else if bits == 8 then n / 0x100
    else if bits == 12 then n / 0x1000
    else if bits == 16 then n / 0x1_0000
    else n / 0x4_0000
  }

  lemma {:induction false} CombinedSextets(a: byte, b: byte, c: byte)
    ensures var combined := a * 0x1_0000 + b * 0x100 + c;
            && ShiftRight(combined, 18) % 64 == Sextets(a, b, c)[0]
            && ShiftRight(combined, 12) % 64 == Sextets(a, b, c)[1]
            && ShiftRight(combined, 6) % 64 == Sextets(a, b, c)[2]
            && combined % 64 == Sextets(a, b, c)[3]
  {
    var combined := a * 0x1_0000 + b * 0x100 + c;
    QuotientUnique(combined, a / 4, a % 4 * 0x1_0000 + b * 0x100 + c, 0x4_0000);
    QuotientUnique(combined, a * 16 + b / 16, b % 16 * 0x100 + c, 0x1000);
    QuotientUnique(combined, a * 1024 + b * 4 + c / 64, c % 64, 0x40);
    QuotientUnique(a * 16 + b / 16, a / 4, a % 4 * 16 + b / 16, 64);
    QuotientUnique(a * 1024 + b * 4 + c / 64, a * 16 + b / 16, b % 16 * 4 + c / 64, 64);
  }

  /** Encoding `s + t` is encoding `s` and then `t`. */
  predicate EncodesApart(s: seq<byte>, t: seq<byte>) { Encoded(s + t) == Encoded(s) + Encoded(t) }

  lemma {:induction false} FirstGroup(s: seq<byte>, t: seq<byte>)
    requires |s| >= 3 && EncodesApart(s[3..], t)
    ensures EncodesApart(s, t)
  {
    assert (s + t)[3..] == s[3..] + t;
    assert (s + t)[0] == s[0] && (s + t)[1] == s[1] && (s + t)[2] == s[2];
    AppendAssoc(Quad(s[0], s[1], s[2]), Encoded(s[3..]), Encoded(t));
  }

  lemma {:induction false} EncodedAppend(s: seq<byte>, t: seq<byte>, k: nat)
    requires |s| == 3 * k
    ensures EncodesApart(s, t)
  {
    if k == 0 {
      assert s + t == t;
    } else {
      EncodedAppend(s[3..], t, k - 1);
      FirstGroup(s, t);
    }
  }

  /** One group of three bytes into four characters of the output. */
  method EncodeBlock(a: byte, b: byte, c: byte, dst: array<byte>, at: nat)
    requires at + 4 <= dst.Length
    modifies dst
    ensures dst[..at + 4] == old(dst[..at]) + Quad(a, b, c)
  {
    CombinedSextets(a, b, c);
    var combined: nat := a as int * 0x1_0000 + b as int * 0x100 + c as int;
    dst[at] := EncodeChar(ShiftRight(combined, 18) % 64);
    dst[at + 1] := EncodeChar(ShiftRight(combined, 12) % 64);
    dst[at + 2] := EncodeChar(ShiftRight(combined, 6) % 64);
    dst[at + 3] := EncodeChar(combined % 64);
  }

  lemma {:induction false} EncodedBlocksStep(input: seq<byte>, i: nat)
    requires 3 * (i + 1) <= |input|
    ensures Encoded(input[..3 * (i + 1)]) ==
            Encoded(input[..3 * i]) + Quad(input[3 * i], input[3 * i + 1], input[3 * i + 2])
  {
    var block := input[3 * i..3 * i + 3];
    assert input[..3 * (i + 1)] == input[..3 * i] + block;
    EncodedAppend(input[..3 * i], block, i);
    assert Encoded(block) == Quad(block[0], block[1], block[2]) + Encoded(block[3..]);
  }

  /** Whole groups: four at a time, then one at a time. */
  method EncodeFullBlocks(input: seq<byte>, fullBlocks: nat, dst: array<byte>)
    requires 3 * fullBlocks <= |input| && 4 * fullBlocks <= dst.Length
    modifies dst
    ensures dst[..4 * fullBlocks] == Encoded(input[..3 * fullBlocks])
  {
    var i: nat := 0;
    while i + 4 <= fullBlocks
      invariant i <= fullBlocks
      invariant dst[..4 * i] == Encoded(input[..3 * i])
    {
      EncodeFourBlocks(input, i, dst);
      i := i + 4;
    }
    while i < fullBlocks
      invariant i <= fullBlocks
      invariant dst[..4 * i] == Encoded(input[..3 * i])
    {
      EncodeBlockAt(input, i, dst);
      i := i + 1;
    }
  }

  method EncodeFourBlocks(input: seq<byte>, i: nat, dst: array<byte>)
    requires 3 * (i + 4) <= |input| && 4 * (i + 4) <= dst.Length
    requires dst[..4 * i] == Encoded(input[..3 * i])
    modifies dst
    ensures dst[..4 * (i + 4)] == Encoded(input[..3 * (i + 4)])
  {
    EncodeBlockAt(input, i, dst);
    EncodeBlockAt(input, i + 1, dst);
    EncodeBlockAt(input, i + 2, dst);
    EncodeBlockAt(input, i + 3, dst);
  }

  method EncodeBlockAt(input: seq<byte>, i: nat, dst: array<byte>)
    requires 3 * (i + 1) <= |input| && 4 * (i + 1) <= dst.Length
    requires dst[..4 * i] == Encoded(input[..3 * i])
    modifies dst
    ensures dst[..4 * (i + 1)] == Encoded(input[..3 * (i + 1)])
  {
    EncodedBlocksStep(input, i);
    EncodeBlock(input[3 * i], input[3 * i + 1], input[3 * i + 2], dst, 4 * i);
  }

  method Encode(input: seq<byte>) returns (output: seq<byte>)
    ensures output == Encoded(input)
  {
    if |input| == 0 {
      return [];
    }
    TriplesAre(|input|);
    var dst := new byte[(|input| + 2) / 3 * 4];
    var fullBlocks := |input| / 3;
    EncodeFullBlocks(input, fullBlocks, dst);
    var remaining := input[3 * fullBlocks..];
    EncodedSplit(input, fullBlocks);
    if |remaining| > 0 {
      EncodeRemaining(remaining, dst, 4 * fullBlocks);
    } else {
      assert dst[..] == dst[..4 * fullBlocks];
      assert Encoded(input) == Encoded(input[..3 * fullBlocks]) + [];
    }
    output := dst[..];
  }

  /** The last one or two bytes, padded. */
  method EncodeRemaining(rest: seq<byte>, dst: array<byte>, at: nat)
    requires |rest| in {1, 2} && dst.Length == at + 4
    modifies dst
    ensures dst[..] == old(dst[..at]) + Encoded(rest)
  {
    var second: byte := if |rest| > 1 then rest[1] else 0;
    EncodeBlock(rest[0], second, 0, dst, at);
    assert dst[..] == dst[..at + 4];
    if |rest| == 1 {
      dst[at + 2] := PAD;
    }
    dst[at + 3] := PAD;
  }

  lemma {:induction false} EncodedSplit(input: seq<byte>, k: nat)
    requires 3 * k <= |input|
    ensures Encoded(input) == Encoded(input[..3 * k]) + Encoded(input[3 * k..])
  {
    assert input == input[..3 * k] + input[3 * k..];
    EncodedAppend(input[..3 * k], input[3 * k..], k);
  }

  lemma {:induction false} DecodedAppend(s: seq<byte>, t: seq<byte>)
    requires |s| % 4 == 0 && |t| % 4 == 0
    ensures DecodedQuads(s + t) ==
            if DecodedQuads(s).Err? then DecodedQuads(s)
            else if DecodedQuads(t).Err? then DecodedQuads(t)
            else Ok(DecodedQuads(s).value + DecodedQuads(t).value)
  {
    if s == [] {
      assert s + t == t;
      assert DecodedQuads(t).Ok? ==> [] + DecodedQuads(t).value == DecodedQuads(t).value;
    } else {
      DecodedAppend(s[4..], t);
      assert (s + t)[..4] == s[..4] && (s + t)[4..] == s[4..] + t;
      if Unquad(s[..4]).Ok? && DecodedQuads(s[4..]).Ok? && DecodedQuads(t).Ok? {
        AppendAssoc(Unquad(s[..4]).value, DecodedQuads(s[4..]).value, DecodedQuads(t).value);
      }
    }
  }

  lemma {:induction false} CombinedBytes(c0: byte, c1: byte, c2: byte, c3: byte)
    requires c0 < 64 && c1 < 64 && c2 < 64 && c3 < 64
    ensures var combined := c0 * 0x4_0000 + c1 * 0x1000 + c2 * 0x40 + c3;
            && ShiftRight(combined, 16) % 256 == c0 * 4 + c1 / 16
            && ShiftRight(combined, 8) % 256 == c1 % 16 * 16 + c2 / 4
            && combined % 256 == c2 % 4 * 64 + c3
  {
    var combined := c0 * 0x4_0000 + c1 * 0x1000 + c2 * 0x40 + c3;
    QuotientUnique(combined, c0 * 4 + c1 / 16, c1 % 16 * 0x1000 + c2 * 0x40 + c3, 0x1_0000);
    QuotientUnique(combined, c0 * 1024 + c1 * 16 + c2 / 4, c2 % 4 * 0x40 + c3, 0x100);
    QuotientUnique(c0 * 1024 + c1 * 16 + c2 / 4, c0 * 4 + c1 / 16, c1 % 16 * 16 + c2 / 4, 256);
    QuotientUnique(combined, c0 * 1024 + c1 * 16 + c2 / 4, c2 % 4 * 64 + c3, 256);
  }

  /** One group of four characters. */
  method DecodeBlock(table: seq<byte>, src: seq<byte>) returns (output: Result<seq<byte>, DecodeError>)
    requires |table| == 256 && forall c: byte :: table[c] == DecodeChar(c)
    requires |src| == 4
    ensures output == Unquad(src)
  {
    var c0, c1 := table[src[0]], table[src[1]];
    var c2 := if src[2] == PAD then 0 else table[src[2]];
    var c3 := if src[3] == PAD then 0 else table[src[3]];
    forall k | 0 <= k < 4
      ensures DecodeChar(src[k]) < 64 || DecodeChar(src[k]) >= 0x80
    {
      DecodeCharInvertsEncodeChar(src[k]);
    }
    if c0 >= 0x80 || c1 >= 0x80 {
      return Err(InvalidCharacter);
    }
    if src[2] != PAD && c2 >= 0x80 {
      return Err(InvalidCharacter);
    }
    if src[3] != PAD && c3 >= 0x80 {
      return Err(InvalidCharacter);
    }
    CombinedBytes(c0, c1, c2, c3);
    var combined: nat := c0 as int * 0x4_0000 + c1 as int * 0x1000 + c2 as int * 0x40 + c3 as int;
    var out: seq<byte> := [ShiftRight(combined, 16) % 256];
    if src[2] != PAD {
      out := out + [ShiftRight(combined, 8) % 256];
      if src[3] != PAD {
        out := out + [combined % 256];
      }
    }
    assert out == Unquad(src).value;
    output := Ok(out);
  }

  lemma {:induction false} DecodedStep(input: seq<byte>, src: nat)
    requires src + 4 <= |input| && src % 4 == 0
    ensures DecodedQuads(input[..src + 4]) ==
            if DecodedQuads(input[..src]).Err? then DecodedQuads(input[..src])
            else if Unquad(input[src..src + 4]).Err? then Unquad(input[src..src + 4])
            else Ok(DecodedQuads(input[..src]).value + Unquad(input[src..src + 4]).value)
  {
    var quad := input[src..src + 4];
    assert input[..src + 4] == input[..src] + quad;
    DecodedAppend(input[..src], quad);
    assert quad[..4] == quad && quad[4..] == [];
    assert DecodedQuads([]) == Ok([]);
    assert Unquad(quad).Ok? ==> Unquad(quad).value + [] == Unquad(quad).value;
  }

  lemma {:induction false} DecodedStops(done: seq<byte>, rest: seq<byte>)
    requires |done| % 4 == 0 && |rest| % 4 == 0 && DecodedQuads(done).Err?
    ensures DecodedQuads(done + rest) == DecodedQuads(done)
  {
    DecodedAppend(done, rest);
  }

  lemma {:induction false} WholeQuads(n: nat, k: nat)
    requires n % 4 == 0 && k % 4 == 0 && k <= n
    ensures (n - k) % 4 == 0
  {
  }

  lemma {:induction false} DecodedTurn(input: seq<byte>, src: nat, out: seq<byte>, block: Result<seq<byte>, DecodeError>)
    requires |input| % 4 == 0 && src % 4 == 0 && src + 4 <= |input|
    requires DecodedQuads(input[..src]) == Ok(out) && block == Unquad(input[src..src + 4])
    ensures if block.Err? then DecodedQuads(input) == block else DecodedQuads(input[..src + 4]) == Ok(out + block.value)
  {
    DecodedStep(input, src);
    if block.Err? {
      WholeQuads(|input|, src + 4);
      DecodedStops(input[..src + 4], input[src + 4..]);
      assert input[..src + 4] + input[src + 4..] == input;
    }
  }

  method Decode(input: seq<byte>) returns (output: Result<seq<byte>, DecodeError>)
    ensures output == Decoded(input)
  {
    if |input| == 0 {
      return Ok([]);
    }
    if |input| % 4 != 0 {
      return Err(InvalidLength);
    }
    var table := BuildDecodeTable();
    var out: seq<byte> := [];
    var src := 0;
    while src + 4 <= |input|
      invariant 0 <= src <= |input| && src % 4 == 0
      invariant DecodedQuads(input[..src]) == Ok(out)
    {
      var block := DecodeBlock(table, input[src..src + 4]);
      DecodedTurn(input, src, out, block);
      if block.Err? {
        return block;
      }
      out := out + block.value;
      src := src + 4;
    }
    assert input[..src] == input;
    output := Ok(out);
  }

  // ---------- decoding undoes encoding ----------

  lemma {:induction false} EncodeCharRoundTrip(v: nat)
    requires v < 64
    ensures DecodeChar(EncodeChar(v)) == v && EncodeChar(v) != PAD
  {
  }

  lemma {:induction false} SextetsRoundTrip(a: byte, b: byte, c: byte)
    ensures var q := Sextets(a, b, c);
            && q[0] * 4 + q[1] / 16 == a
            && q[1] % 16 * 16 + q[2] / 4 == b
            && q[2] % 4 * 64 + q[3] == c
  {
  }

  lemma {:induction false} UnquadOfSextets(q0: nat, q1: nat, q2: nat, q3: nat)
    requires q0 < 64 && q1 < 64 && q2 < 64 && q3 < 64
    ensures Unquad([EncodeChar(q0), EncodeChar(q1), EncodeChar(q2), EncodeChar(q3)]) ==
            Ok([q0 * 4 + q1 / 16, q1 % 16 * 16 + q2 / 4, q2 % 4 * 64 + q3])
    ensures Unquad([EncodeChar(q0), EncodeChar(q1), EncodeChar(q2), PAD]) ==
            Ok([q0 * 4 + q1 / 16, q1 % 16 * 16 + q2 / 4])
    ensures Unquad([EncodeChar(q0), EncodeChar(q1), PAD, PAD]) == Ok([q0 * 4 + q1 / 16])
  {
    EncodeCharRoundTrip(q0);
    EncodeCharRoundTrip(q1);
    EncodeCharRoundTrip(q2);
    EncodeCharRoundTrip(q3);
    var t := [EncodeChar(q0), EncodeChar(q1), EncodeChar(q2), EncodeChar(q3)];
    assert Unquad(t).value == [q0 * 4 + q1 / 16, q1 % 16 * 16 + q2 / 4, q2 % 4 * 64 + q3];
    assert Unquad(t[3 := PAD]).value == [q0 * 4 + q1 / 16, q1 % 16 * 16 + q2 / 4];
    assert Unquad([t[0], t[1], PAD, PAD]).value == [q0 * 4 + q1 / 16];
    assert t[3 := PAD] == [t[0], t[1], t[2], PAD];
  }

  lemma {:induction false} QuadRoundTrip(a: byte, b: byte, c: byte)
    ensures Unquad(Quad(a, b, c)) == Ok([a, b, c])
  {
    var q := Sextets(a, b, c);
    SextetsRoundTrip(a, b, c);
    UnquadOfSextets(q[0], q[1], q[2], q[3]);
  }

  lemma {:induction false} PaddedRoundTrip(a: byte, b: byte)
    ensures Unquad(Quad(a, 0, 0)[..2] + [PAD, PAD]) == Ok([a])
    ensures Unquad(Quad(a, b, 0)[..3] + [PAD]) == Ok([a, b])
  {
    var q, r := Sextets(a, 0, 0), Sextets(a, b, 0);
    SextetsRoundTrip(a, 0, 0);
    SextetsRoundTrip(a, b, 0);
    UnquadOfSextets(q[0], q[1], q[2], q[3]);
    UnquadOfSextets(r[0], r[1], r[2], r[3]);
    assert Quad(a, 0, 0)[..2] + [PAD, PAD] == [EncodeChar(q[0]), EncodeChar(q[1]), PAD, PAD];
    assert Quad(a, b, 0)[..3] + [PAD] == [EncodeChar(r[0]), EncodeChar(r[1]), EncodeChar(r[2]), PAD];
  }

  lemma {:induction false} DecodeEncoded(s: seq<byte>)
    ensures DecodedQuads(Encoded(s)) == Ok(s)
  {
    if s != [] {
      var t := Encoded(s);
      var n := if |s| < 3 then |s| else 3;
      DecodeEncoded(s[n..]);
      if |s| < 3 {
        PaddedRoundTrip(s[0], if |s| == 2 then s[1] else 0);
        assert t[..4] == t && t[4..] == [];
        assert s[n..] == [];
      } else {
        QuadRoundTrip(s[0], s[1], s[2]);
        assert t[..4] == Quad(s[0], s[1], s[2]) && t[4..] == Encoded(s[3..]);
      }
      assert Unquad(t[..4]).value == s[..n];
      assert s == s[..n] + s[n..];
    }
  }

  // ---------- left-over carrying ----------

  /** What one call consumes of `all`, whole groups of `group`, and what it carries over. */
  function Take(all: seq<byte>, group: nat): (n: nat)
    requires group > 0
    ensures n <= |all|
  {
    |all| - |all| % group
  }

  /** The left-over overloads of `encode` and `decode`, with the caller's left-over vector. */
  class Carry {
    var leftOver: seq<byte>

    constructor ()
      ensures leftOver == []
    {
      leftOver := [];
    }

    /** load_leftover: the carried bytes in front of the new input, which empties the carry. */
    method LoadLeftover(input: seq<byte>) returns (combined: seq<byte>)
      modifies this
      ensures combined == old(leftOver) + input && leftOver == []
    {
      combined := leftOver + input;
      leftOver := [];
    }

    /** store_leftover: keeps the part that does not fill a group. */
    method StoreLeftover(combined: seq<byte>, group: nat) returns (n: nat)
      requires group in {3, 4} && leftOver == []
      modifies this
      ensures n == Take(combined, group) && leftOver == combined[n..]
    {
      var extra := |combined| % group;
      n := |combined| - extra;
      if extra > 0 {
        leftOver := combined[n..];
      }
    }

    method EncodeChunk(input: seq<byte>) returns (output: seq<byte>)
      modifies this
      ensures (output, leftOver) == EncodeStep(old(leftOver), input)
    {
      var combined := input;
      if leftOver != [] {
        combined := LoadLeftover(input);
      } else if |input| == 0 {
        return [];
      }
      assert combined == old(leftOver) + input;
      var n := StoreLeftover(combined, 3);
      output := Encode(combined[..n]);
    }

    method DecodeChunk(input: seq<byte>) returns (output: Result<seq<byte>, DecodeError>)
      modifies this
      ensures (output, leftOver) == DecodeStep(old(leftOver), input)
    {
      var combined := input;
      if leftOver != [] {
        combined := LoadLeftover(input);
      } else if |input| == 0 {
        return Ok([]);
      }
      assert combined == old(leftOver) + input;
      var n := StoreLeftover(combined, 4);
      output := Decode(combined[..n]);
    }
  }

  function EncodeStep(left: seq<byte>, input: seq<byte>): (seq<byte>, seq<byte>) {
    var all := left + input;
    var n := Take(all, 3);
    (Encoded(all[..n]), all[n..])
  }

  function DecodeStep(left: seq<byte>, input: seq<byte>): (Result<seq<byte>, DecodeError>, seq<byte>) {
    var all := left + input;
    var n := Take(all, 4);
    (Decoded(all[..n]), all[n..])
  }

  // ---------- streams ----------

  /** The bytes written so far and the carry, after the chunks of `chunks`. */
  function EncodeChunks(chunks: seq<seq<byte>>): (seq<byte>, seq<byte>) {
    if chunks == [] then ([], [])
    else
      var (out, left) := EncodeChunks(chunks[..|chunks| - 1]);
      var (more, left') := EncodeStep(left, chunks[|chunks| - 1]);
      (out + more, left')
  }

  function DecodeChunks(chunks: seq<seq<byte>>): Result<(seq<byte>, seq<byte>), DecodeError> {
    if chunks == [] then Ok(([], []))
    else
      var before := DecodeChunks(chunks[..|chunks| - 1]);
      if before.Err? then before
      else
        var (out, left) := before.value;
        var (more, left') := DecodeStep(left, chunks[|chunks| - 1]);
        if more.Err? then Err(more.error) else Ok((out + more.value, left'))
  }

  lemma {:induction false} FlattenLast(chunks: seq<seq<byte>>)
    requires chunks != []
    ensures Flatten(chunks) == Flatten(chunks[..|chunks| - 1]) + chunks[|chunks| - 1]
  {
    FlattenSnoc(chunks[..|chunks| - 1], chunks[|chunks| - 1]);
    assert chunks[..|chunks| - 1] + [chunks[|chunks| - 1]] == chunks;
  }

  /** However the input is cut, whole groups are encoded as they would be at once. */
  lemma {:induction false} EncodeChunksMeaning(chunks: seq<seq<byte>>)
    ensures var all := Flatten(chunks);
            EncodeChunks(chunks) == (Encoded(all[..Take(all, 3)]), all[Take(all, 3)..])
  {
    if chunks != [] {
      var init, last := chunks[..|chunks| - 1], chunks[|chunks| - 1];
      EncodeChunksMeaning(init);
      FlattenLast(chunks);
      EncodeNext(Flatten(init), last);
    }
  }

  lemma {:induction false} EncodeNext(before: seq<byte>, last: seq<byte>)
    ensures var all := before + last;
            var a := Take(before, 3);
            var (more, left) := EncodeStep(before[a..], last);
            Encoded(before[..a]) + more == Encoded(all[..Take(all, 3)]) && left == all[Take(all, 3)..]
  {
    var all := before + last;
    var a, n := Take(before, 3), Take(all, 3);
    CutAgain(before, last, 3);
    Groups(before, last, 3);
    EncodedAppend(before[..a], all[a..][..n - a], |before| / 3);
  }

  /** The whole groups of a text are those of a prefix and those of what the prefix leaves. */
  lemma {:induction false} CutAgain(before: seq<byte>, last: seq<byte>, group: nat)
    requires group in {3, 4}
    ensures var all := before + last;
            var a, n := Take(before, group), Take(all, group);
            && a <= n && n - a == Take(before[a..] + last, group)
            && before[a..] + last == all[a..]
            && all[..n] == before[..a] + all[a..][..n - a]
            && all[a..][n - a..] == all[n..]
  {
    var all := before + last;
    var a, n := Take(before, group), Take(all, group);
    Groups(before, last, group);
    assert before[a..] + last == all[a..];
    assert all[..n] == all[..a] + all[a..][..n - a];
    assert all[..a] == before[..a];
    assert all[a..][n - a..] == all[n..];
  }

  /** Whole groups of a prefix are whole groups of the text, and of the rest. */
  lemma {:induction false} Groups(before: seq<byte>, last: seq<byte>, group: nat)
    requires group in {3, 4}
    ensures Take(before, group) == group * (|before| / group)
    ensures Take(before, group) <= Take(before + last, group)
    ensures Take(before[Take(before, group)..] + last, group) == Take(before + last, group) - Take(before, group)
  {
    GroupCounts(|before|, |last|, group);
  }

  lemma {:induction false} GroupCounts(x: nat, y: nat, group: nat)
    requires group in {3, 4}
    ensures x - x % group == group * (x / group)
    ensures x - x % group <= (x + y) - (x + y) % group
    ensures (x % group + y) % group == (x + y) % group
  {
    var q, r := x / group, x % group;
    var p, s := (r + y) / group, (r + y) % group;
    assert x + y == (q + p) * group + s;
    QuotientUnique(x + y, q + p, s, group);
  }

  /** Concatenated left-over encodes plus the encode of the final carry are the one-shot encode. */
  lemma {:induction false} EncodeAnyChunks(chunks: seq<seq<byte>>)
    ensures EncodeChunks(chunks).0 + Encoded(EncodeChunks(chunks).1) == Encoded(Flatten(chunks))
  {
    var all := Flatten(chunks);
    EncodeChunksMeaning(chunks);
    Groups(all, [], 3);
    EncodedSplit(all, |all| / 3);
  }

  /** However the text is cut, the decoder reports what it would report at once. */
  lemma {:induction false} DecodeChunksMeaning(chunks: seq<seq<byte>>)
    ensures var all := Flatten(chunks);
            var whole := DecodedQuads(all[..Take(all, 4)]);
            DecodeChunks(chunks) == if whole.Err? then Err(whole.error) else Ok((whole.value, all[Take(all, 4)..]))
  {
    if chunks != [] {
      var init, last := chunks[..|chunks| - 1], chunks[|chunks| - 1];
      DecodeChunksMeaning(init);
      FlattenLast(chunks);
      DecodeNext(Flatten(init), last);
    }
  }

  lemma {:induction false} DecodeNext(before: seq<byte>, last: seq<byte>)
    ensures var all := before + last;
            var a := Take(before, 4);
            var first, whole := DecodedQuads(before[..a]), DecodedQuads(all[..Take(all, 4)]);
            var (more, left) := DecodeStep(before[a..], last);
            if first.Err? then whole == first
            else if more.Err? then whole == Err(more.error)
            else whole == Ok(first.value + more.value) && left == all[Take(all, 4)..]
  {
    var all := before + last;
    var a, n := Take(before, 4), Take(all, 4);
    CutAgain(before, last, 4);
    DecodedAppend(before[..a], all[a..][..n - a]);
  }

  /** For every chunking of an encoded text the decoder returns the bytes, carrying nothing. */
  lemma {:induction false} DecodeAnyChunksOfEncoded(chunks: seq<seq<byte>>, data: seq<byte>)
    requires Flatten(chunks) == Encoded(data)
    ensures DecodeChunks(chunks) == Ok((data, []))
  {
    var all := Flatten(chunks);
    DecodeChunksMeaning(chunks);
    DecodeEncoded(data);
    WholeText(all, Triples(|data|));
  }

  lemma {:induction false} WholeText(all: seq<byte>, k: nat)
    requires |all| == k * 4
    ensures Take(all, 4) == |all| && all[..Take(all, 4)] == all && all[Take(all, 4)..] == []
  {
  }

  /** The base64 loop of zds_read_streamed: chunks of a data set out to a pipe. */
  method ReadStreamed(chunks: seq<seq<byte>>) returns (pipe: seq<byte>, contentLen: nat)
    ensures pipe == Encoded(Flatten(chunks)) && contentLen == |Flatten(chunks)|
  {
    pipe, contentLen := [], 0;
    var carry := new Carry();
    assert chunks[..0] == [];
    for i := 0 to |chunks|
      invariant (pipe, carry.leftOver) == EncodeChunks(chunks[..i])
      invariant contentLen == |Flatten(chunks[..i])|
    {
      assert chunks[..i + 1][..i] == chunks[..i];
      FlattenLast(chunks[..i + 1]);
      contentLen := contentLen + |chunks[i]|;
      var encoded := carry.EncodeChunk(chunks[i]);
      pipe := pipe + encoded;
    }
    assert chunks[..|chunks|] == chunks;
    EncodeAnyChunks(chunks);
    if carry.leftOver != [] {
      var encoded := Encode(carry.leftOver);
      pipe := pipe + encoded;
    } else {
      assert pipe + [] == pipe;
    }
  }

  /** The base64 loop of zds_write_sequential_streamed: what arrives on the pipe, decoded. */
  /** A text without the characters behind its last group of four. */
  function WholeQuadsOf(text: seq<byte>): (t: seq<byte>)
    ensures |t| % 4 == 0
  {
    text[..Take(text, 4)]
  }

  lemma {:induction false} NoLengthError(t: seq<byte>)
    requires |t| % 4 == 0
    ensures DecodedQuads(t) != Err(InvalidLength)
  {
    if t != [] {
      NoLengthError(t[4..]);
    }
  }

  /**
    * What the stream loop makes of a pipe, its whole groups decoded and a final carry ignored, is
    * what the decoder makes of the whole text exactly when no group is left unfinished.
    */
  lemma {:induction false} StreamedAsWholeExactly(text: seq<byte>)
    ensures DecodedQuads(WholeQuadsOf(text)) == Decoded(text) <==> |text| % 4 == 0
  {
    NoLengthError(WholeQuadsOf(text));
    if |text| % 4 == 0 {
      assert text[..|text|] == text;
    }
  }

  /** One character more than an encoding: the decoder rejects it, the stream loop takes no notice. */
  lemma {:induction false} TrailingCharacterIgnored(sent: seq<byte>, c: byte)
    ensures var text := Encoded(sent) + [c];
            DecodedQuads(WholeQuadsOf(text)) == Ok(sent) && Decoded(text) == Err(InvalidLength)
  {
    var e := Encoded(sent);
    OneMoreCharacter(e, c);
    assert Decoded(e) == Ok(sent) by {
      DecodeEncoded(sent);
    }
  }

  lemma {:induction false} OneMoreCharacter(text: seq<byte>, c: byte)
    requires |text| % 4 == 0
    ensures WholeQuadsOf(text + [c]) == text && |text + [c]| % 4 != 0
  {
    assert (text + [c])[..|text|] == text;
  }

  method WriteStreamed(chunks: seq<seq<byte>>) returns (data: Result<seq<byte>, DecodeError>, contentLen: nat)
    ensures DecodeChunks(chunks).Ok? ==> data == Ok(DecodeChunks(chunks).value.0) && contentLen == |data.value|
    ensures DecodeChunks(chunks).Err? ==> data == Err(DecodeChunks(chunks).error)
    ensures forall sent :: Flatten(chunks) == Encoded(sent) ==> data == Ok(sent) && contentLen == |sent|
    ensures data == DecodedQuads(WholeQuadsOf(Flatten(chunks)))
  {
    DecodeChunksMeaning(chunks);
    forall sent | Flatten(chunks) == Encoded(sent)
      ensures DecodeChunks(chunks) == Ok((sent, []))
    {
      DecodeAnyChunksOfEncoded(chunks, sent);
    }
    var out := [];
    contentLen := 0;
    var carry := new Carry();
    assert chunks[..0] == [];
    for i := 0 to |chunks|
      invariant DecodeChunks(chunks[..i]) == Ok((out, carry.leftOver))
      invariant contentLen == |out|
    {
      assert chunks[..i + 1][..i] == chunks[..i];
      var decoded := carry.DecodeChunk(chunks[i]);
      if decoded.Err? {
        DecodeFailureStays(chunks, i + 1);
        data := Err(decoded.error);
        return;
      }
      contentLen := contentLen + |decoded.value|;
      out := out + decoded.value;
    }
    assert chunks[..|chunks|] == chunks;
    data := Ok(out);
  }

  lemma {:induction false} DecodeFailureStays(chunks: seq<seq<byte>>, k: nat)
    requires k <= |chunks| && DecodeChunks(chunks[..k]).Err?
    ensures DecodeChunks(chunks) == DecodeChunks(chunks[..k])
    decreases |chunks|
  {
    if k < |chunks| {
      var init := chunks[..|chunks| - 1];
      assert init[..k] == chunks[..k];
      DecodeFailureStays(init, k);
    } else {
      assert chunks[..k] == chunks;
    }
  }
}
