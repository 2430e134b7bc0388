/**
  * Base64 as RFC 4648, section 4, describes it: the bits of the bytes, taken six at a time, each six
  * of them a character of the alphabet.
  */
module Base64Bits {
  import opened Common
  import opened StreamBase64

  // ---------- bits ----------

  /** The lowest `width` bits of a number, the highest first. */
  function Bits(n: nat, width: nat): (b: seq<bool>)
    ensures |b| == width
  {
    if width == 0 then [] else Bits(n / 2, width - 1) + [n % 2 == 1]
  }

  function PowerOfTwo(n: nat): (p: nat)
    ensures p > 0
  {
    if n == 0 then 1 else 2 * PowerOfTwo(n - 1)
  }

  lemma {:induction false} HalfOf(high: nat, low: nat, p: nat)
    requires p > 0
    ensures (high * (2 * p) + low) / 2 == high * p + low / 2
    ensures (high * (2 * p) + low) % 2 == low % 2
  {
    var n := high * (2 * p) + low;
    assert high * (2 * p) == 2 * (high * p);
    QuotientUnique(n, high * p + low / 2, low % 2, 2);
  }

  lemma {:induction false} HalfIsBelow(low: nat, p: nat)
    requires low < 2 * p
    ensures low / 2 < p
  {
  }

  /** The bits of a number are those of its high part and those of its low part. */
  lemma {:induction false} BitsJoin(high: nat, low: nat, upper: nat, lower: nat)
    requires low < PowerOfTwo(lower)
    ensures Bits(high * PowerOfTwo(lower) + low, upper + lower) == Bits(high, upper) + Bits(low, lower)
    decreases lower
  {
    if lower == 0 {
      assert high * PowerOfTwo(0) + low == high;
    } else {
      var p := PowerOfTwo(lower - 1);
      HalfOf(high, low, p);
      HalfIsBelow(low, p);
      BitsJoin(high, low / 2, upper, lower - 1);
      AppendAssoc(Bits(high, upper), Bits(low / 2, lower - 1), [low % 2 == 1]);
    }
  }

  lemma {:induction false} Powers()
    ensures PowerOfTwo(2) == 4 && PowerOfTwo(4) == 16 && PowerOfTwo(6) == 64
  {
    assert PowerOfTwo(1) == 2 * PowerOfTwo(0);
    assert PowerOfTwo(3) == 2 * PowerOfTwo(2);
    assert PowerOfTwo(5) == 2 * PowerOfTwo(4);
  }

  function BitsOfBytes(s: seq<byte>): (b: seq<bool>)
    ensures |b| == 8 * |s|
  {
    if s == [] then [] else Bits(s[0], 8) + BitsOfBytes(s[1..])
  }

  function BitsOfSextets(vs: seq<nat>): (b: seq<bool>)
    ensures |b| == 6 * |vs|
  {
    if vs == [] then [] else Bits(vs[0], 6) + BitsOfSextets(vs[1..])
  }

  // ---------- the alphabet ----------

  /** `n` characters from `first` on. */
  function Run(first: nat, n: nat): (r: seq<nat>)
    ensures |r| == n && forall i :: 0 <= i < n ==> r[i] == first + i
  {
    seq(n, i => first + i)
  }

  /** The letters are not in one run in IBM-1047: `A`-`I`, `J`-`R`, `S`-`Z`, and the same for `a`-`z`. */
  function Letters(first: nat): (r: seq<nat>)
    ensures |r| == 26
  {
    Run(first, 9) + Run(first + 0x10, 9) + Run(first + 0x21, 8)
  }

  /** `A` to `Z`, `a` to `z`, `0` to `9`, `+` and `/`. */
  function Alphabet(): (r: seq<nat>)
    ensures |r| == 64
  {
    Letters(0xC1) + Letters(0x81) + Run(0xF0, 10) + [0x4E, 0x61]
  }

  /** The character stands for these six bits. */
  predicate Stands(c: byte, v: nat) { v < 64 && Alphabet()[v] == c }

  lemma {:induction false} CharStands(v: nat)
    requires v < 64
    ensures EncodeChar(v) == Alphabet()[v]
  {
    var upper, lower := Letters(0xC1), Letters(0x81);
    if v < 26 {
      assert Alphabet()[v] == upper[v];
    } else if v < 52 {
      assert Alphabet()[v] == lower[v - 26];
    } else if v < 62 {
      assert Alphabet()[v] == Run(0xF0, 10)[v - 52];
    }
  }

  lemma {:induction false} StandsExactly(c: byte, v: nat)
    ensures Stands(c, v) <==> v < 64 && DecodeChar(c) == v
    ensures Stands(c, v) ==> c != 0x7E
  {
    DecodeCharInvertsEncodeChar(c);
    if v < 64 {
      CharStands(v);
    }
  }

  // ---------- one group ----------

  lemma {:induction false} FirstByte(a: nat, p: nat, q: nat)
    requires a == p * 4 + q && q < 4
    ensures Bits(a, 8) == Bits(p, 6) + Bits(q, 2)
  {
    Powers();
    BitsJoin(p, q, 6, 2);
  }

  lemma {:induction false} SecondByte(b: nat, p: nat, q: nat)
    requires b == p * 16 + q && q < 16
    ensures Bits(b, 8) == Bits(p, 4) + Bits(q, 4)
  {
    Powers();
    BitsJoin(p, q, 4, 4);
  }

  lemma {:induction false} ThirdByte(c: nat, p: nat, q: nat)
    requires c == p * 64 + q && q < 64
    ensures Bits(c, 8) == Bits(p, 2) + Bits(q, 6)
  {
    Powers();
    BitsJoin(p, q, 2, 6);
  }

  lemma {:induction false} SecondSextet(x: nat, y: nat)
    requires x < 4 && y < 16
    ensures Bits(x * 16 + y, 6) == Bits(x, 2) + Bits(y, 4)
  {
    Powers();
    BitsJoin(x, y, 2, 4);
  }

  lemma {:induction false} ThirdSextet(z: nat, w: nat)
    requires z < 16 && w < 4
    ensures Bits(z * 4 + w, 6) == Bits(z, 4) + Bits(w, 2)
  {
    Powers();
    BitsJoin(z, w, 4, 2);
  }

  function Joined(a: seq<bool>, b: seq<bool>, c: seq<bool>, d: seq<bool>): seq<bool> { a + (b + (c + d)) }

  lemma {:induction false} FourBits(vs: seq<nat>)
    requires |vs| == 4
    ensures BitsOfSextets(vs) == Joined(Bits(vs[0], 6), Bits(vs[1], 6), Bits(vs[2], 6), Bits(vs[3], 6))
  {
    assert vs[1..][1..] == vs[2..] && vs[2..][1..] == vs[3..] && vs[3..][1..] == [];
    assert BitsOfSextets(vs[3..]) == Bits(vs[3], 6) + [];
    assert BitsOfSextets(vs[2..]) == Bits(vs[2], 6) + BitsOfSextets(vs[3..]);
  }

  lemma {:induction false} ThreeBytes(s: seq<byte>)
    requires |s| == 3
    ensures BitsOfBytes(s) == Joined(Bits(s[0], 8), Bits(s[1], 8), Bits(s[2], 8), [])
  {
    assert s[1..][1..] == s[2..] && s[2..][1..] == [];
    assert BitsOfBytes(s[2..]) == Bits(s[2], 8) + [];
  }

  lemma {:induction false} Regroup(a: seq<bool>, b: seq<bool>, c: seq<bool>, d: seq<bool>, e: seq<bool>, f: seq<bool>)
    ensures a + ((b + c) + ((d + e) + f)) == (a + b) + ((c + d) + (e + f))
  {
  }

  /** Three bytes and their four groups of six are the same bits. */
  /** `a`, `b` and `c` in two parts each, the parts numbered from 1 to 6. */
  lemma {:induction false} SameGroups(a: nat, b: nat, c: nat, p1: nat, p2: nat, p3: nat, p4: nat, p5: nat, p6: nat)
    requires a == p1 * 4 + p2 && b == p3 * 16 + p4 && c == p5 * 64 + p6
    requires p2 < 4 && p3 < 16 && p4 < 16 && p5 < 4 && p6 < 64
    ensures Joined(Bits(p1, 6), Bits(p2 * 16 + p3, 6), Bits(p4 * 4 + p5, 6), Bits(p6, 6)) ==
            Joined(Bits(a, 8), Bits(b, 8), Bits(c, 8), [])
  {
    FirstByte(a, p1, p2);
    SecondByte(b, p3, p4);
    ThirdByte(c, p5, p6);
    SecondSextet(p2, p3);
    ThirdSextet(p4, p5);
    assert Bits(c, 8) + [] == Bits(c, 8);
    Regroup(Bits(p1, 6), Bits(p2, 2), Bits(p3, 4), Bits(p4, 4), Bits(p5, 2), Bits(p6, 6));
  }

  lemma {:induction false} SextetsAs(vs: seq<nat>, bits: seq<bool>)
    requires |vs| == 4 && Joined(Bits(vs[0], 6), Bits(vs[1], 6), Bits(vs[2], 6), Bits(vs[3], 6)) == bits
    ensures BitsOfSextets(vs) == bits
  {
    FourBits(vs);
  }

  lemma {:induction false} BytesAs(s: seq<byte>, bits: seq<bool>)
    requires |s| == 3 && Joined(Bits(s[0], 8), Bits(s[1], 8), Bits(s[2], 8), []) == bits
    ensures BitsOfBytes(s) == bits
  {
    ThreeBytes(s);
  }

  lemma {:induction false} SameBitsOf(vs: seq<nat>, s: seq<byte>, bits: seq<bool>)
    requires |vs| == 4 && |s| == 3
    requires Joined(Bits(vs[0], 6), Bits(vs[1], 6), Bits(vs[2], 6), Bits(vs[3], 6)) == bits
    requires Joined(Bits(s[0], 8), Bits(s[1], 8), Bits(s[2], 8), []) == bits
    ensures BitsOfSextets(vs) == BitsOfBytes(s)
  {
    SextetsAs(vs, bits);
    BytesAs(s, bits);
  }

  /** Three bytes of six parts, and the four groups that are made of the same parts. */
  lemma {:induction false} SameParts(vs: seq<nat>, s: seq<byte>, p1: nat, p2: nat, p3: nat, p4: nat, p5: nat, p6: nat)
    requires |vs| == 4 && |s| == 3 && p2 < 4 && p3 < 16 && p4 < 16 && p5 < 4 && p6 < 64
    requires s[0] == p1 * 4 + p2 && s[1] == p3 * 16 + p4 && s[2] == p5 * 64 + p6
    requires vs[0] == p1 && vs[1] == p2 * 16 + p3 && vs[2] == p4 * 4 + p5 && vs[3] == p6
    ensures BitsOfSextets(vs) == BitsOfBytes(s)
  {
    SameGroups(s[0], s[1], s[2], p1, p2, p3, p4, p5, p6);
    SameBitsOf(vs, s, Joined(Bits(s[0], 8), Bits(s[1], 8), Bits(s[2], 8), []));
  }

  lemma {:induction false} SameBits(a: byte, b: byte, c: byte)
    ensures BitsOfSextets(Sextets(a, b, c)) == BitsOfBytes([a, b, c])
  {
    SameParts(Sextets(a, b, c), [a, b, c], a / 4, a % 4, b / 16, b % 16, c / 64, c % 64);
  }

  // ---------- whole texts ----------

  /** Characters and the six bits each of them stands for. */
  predicate AllStand(t: seq<byte>, vs: seq<nat>) {
    |t| == |vs| && forall k :: 0 <= k < |t| ==> Stands(t[k], vs[k])
  }

  function Falses(n: nat): (r: seq<bool>)
    ensures |r| == n
  {
    seq(n, i => false)
  }

  /**
    * The text is the Base64 of the bytes: characters for all their bits, zeros filling up the last of
    * them, and as many `=` as make the length a multiple of four.
    */
  predicate IsBase64(t: seq<byte>, s: seq<byte>, vs: seq<nat>) {
    && |vs| <= |t| && AllStand(t[..|vs|], vs) && Fills(vs, s) && Padded(t, |vs|)
  }

  /** The bits of the bytes, and less than six zeros. */
  predicate Fills(vs: seq<nat>, s: seq<byte>) {
    && 0 <= 6 * |vs| - 8 * |s| < 6
    && BitsOfSextets(vs) == BitsOfBytes(s) + Falses(6 * |vs| - 8 * |s|)
  }

  predicate Padded(t: seq<byte>, n: nat) {
    n <= |t| < n + 4 && |t| % 4 == 0 && forall k :: n <= k < |t| ==> t[k] == 0x7E
  }

  lemma {:induction false} BitsAppend(a: seq<nat>, b: seq<nat>)
    ensures BitsOfSextets(a + b) == BitsOfSextets(a) + BitsOfSextets(b)
  {
    if a == [] {
      assert a + b == b;
    } else {
      assert (a + b)[1..] == a[1..] + b;
      BitsAppend(a[1..], b);
      AppendAssoc(Bits(a[0], 6), BitsOfSextets(a[1..]), BitsOfSextets(b));
    }
  }

  lemma {:induction false} BytesAppend(a: seq<byte>, b: seq<byte>)
    ensures BitsOfBytes(a + b) == BitsOfBytes(a) + BitsOfBytes(b)
  {
    if a == [] {
      assert a + b == b;
    } else {
      assert (a + b)[1..] == a[1..] + b;
      BytesAppend(a[1..], b);
      AppendAssoc(Bits(a[0], 8), BitsOfBytes(a[1..]), BitsOfBytes(b));
    }
  }

  lemma {:induction false} QuadStands(a: byte, b: byte, c: byte)
    ensures AllStand(Quad(a, b, c), Sextets(a, b, c))
  {
    var q := Sextets(a, b, c);
    CharStands(q[0]);
    CharStands(q[1]);
    CharStands(q[2]);
    CharStands(q[3]);
  }

  lemma {:induction false} ZeroBits(width: nat)
    ensures Bits(0, width) == Falses(width)
  {
    if width > 0 {
      ZeroBits(width - 1);
      assert Falses(width) == Falses(width - 1) + [false];
    }
  }

  /** The last one or two bytes, with zeros for those that are missing. */
  lemma {:induction false} RestIsBase64(s: seq<byte>)
    requires |s| in {1, 2}
    ensures IsBase64(Encoded(s), s, Sextets(s[0], if |s| == 2 then s[1] else 0, 0)[..|s| + 1])
  {
    var b: byte := if |s| == 2 then s[1] else 0;
    var q, n := Sextets(s[0], b, 0), |s|;
    QuadStands(s[0], b, 0);
    SameBits(s[0], b, 0);
    assert q == q[..n + 1] + q[n + 1..];
    BitsAppend(q[..n + 1], q[n + 1..]);
    assert [s[0], b, 0] == s + [s[0], b, 0][n..];
    BytesAppend(s, [s[0], b, 0][n..]);
    ZeroTail(s[0], b, n);
    CutZeros(BitsOfSextets(q[..n + 1]), BitsOfSextets(q[n + 1..]), BitsOfBytes(s), BitsOfBytes([s[0], b, 0][n..]));
  }

  lemma {:induction false} ZeroTail(a: byte, b: byte, n: nat)
    requires n in {1, 2} && (n == 1 ==> b == 0)
    ensures BitsOfBytes([a, b, 0][n..]) == Falses(8 * (3 - n))
  {
    ZeroBits(8);
    var last: seq<byte> := [0];
    assert last[1..] == [] && BitsOfBytes(last) == Bits(0, 8) + BitsOfBytes([]);
    if n == 1 {
      var two: seq<byte> := [0, 0];
      assert [a, b, 0][1..] == two && two[1..] == last;
      assert Falses(16) == Falses(8) + Falses(8);
    } else {
      assert [a, b, 0][2..] == last;
    }
  }

  lemma {:induction false} CutZeros(kept: seq<bool>, dropped: seq<bool>, bits: seq<bool>, zeros: seq<bool>)
    requires kept + dropped == bits + zeros && |kept| >= |bits| && zeros == Falses(|zeros|)
    ensures kept == bits + Falses(|kept| - |bits|)
  {
    forall k | 0 <= k < |kept|
      ensures kept[k] == (bits + Falses(|kept| - |bits|))[k]
    {
      assert kept[k] == (bits + zeros)[k];
    }
  }

  lemma {:induction false} StandApart(a: seq<byte>, u: seq<nat>, b: seq<byte>, v: seq<nat>)
    requires AllStand(a, u) && |v| <= |b| && AllStand(b[..|v|], v)
    ensures AllStand((a + b)[..|u + v|], u + v)
  {
    assert (a + b)[..|u + v|] == a + b[..|v|];
  }

  lemma {:induction false} BitsApart(a: seq<byte>, u: seq<nat>, b: seq<byte>, v: seq<nat>)
    requires |a| == 3 && |u| == 4 && BitsOfSextets(u) == BitsOfBytes(a) && Fills(v, b)
    ensures Fills(u + v, a + b)
  {
    BitsAppend(u, v);
    BytesAppend(a, b);
    AppendAssoc(BitsOfBytes(a), BitsOfBytes(b), Falses(6 * |v| - 8 * |b|));
  }

  lemma {:induction false} PaddedApart(quad: seq<byte>, rest: seq<byte>, n: nat)
    requires |quad| == 4 && Padded(rest, n)
    ensures Padded(quad + rest, 4 + n)
  {
    forall k | 4 + n <= k < |quad + rest|
      ensures (quad + rest)[k] == 0x7E
    {
      assert (quad + rest)[k] == rest[k - 4];
    }
  }

  lemma {:induction false} Base64Apart(quad: seq<byte>, q: seq<nat>, three: seq<byte>, rest: seq<byte>, vs: seq<nat>, s: seq<byte>)
    requires |quad| == 4 && |three| == 3 && AllStand(quad, q) && BitsOfSextets(q) == BitsOfBytes(three)
    requires IsBase64(rest, s, vs)
    ensures IsBase64(quad + rest, three + s, q + vs)
  {
    StandApart(quad, q, rest, vs);
    BitsApart(three, q, s, vs);
    PaddedApart(quad, rest, |vs|);
  }

  lemma {:induction false} GroupThenRest(s: seq<byte>, vs: seq<nat>)
    requires |s| >= 3 && IsBase64(Encoded(s[3..]), s[3..], vs)
    ensures IsBase64(Encoded(s), s, Sextets(s[0], s[1], s[2]) + vs)
  {
    var a, b, c := s[0], s[1], s[2];
    QuadStands(a, b, c);
    SameBits(a, b, c);
    Base64Apart(Quad(a, b, c), Sextets(a, b, c), [a, b, c], Encoded(s[3..]), vs, s[3..]);
    assert s == [a, b, c] + s[3..];
  }

  /** Encoding any bytes gives their Base64. */
  lemma {:induction false} EncodedIsBase64(s: seq<byte>) returns (vs: seq<nat>)
    ensures IsBase64(Encoded(s), s, vs)
    decreases |s|
  {
    if s == [] {
      vs := [];
      assert Falses(0) == [];
    } else if |s| < 3 {
      RestIsBase64(s);
      vs := Sextets(s[0], if |s| == 2 then s[1] else 0, 0)[..|s| + 1];
    } else {
      var rest := EncodedIsBase64(s[3..]);
      GroupThenRest(s, rest);
      vs := Sextets(s[0], s[1], s[2]) + rest;
    }
  }

  // ---------- decoding ----------

  /** A character of the alphabet, or `=` in the third or fourth place of its group. */
  predicate MayStand(t: seq<byte>, k: nat)
    requires k < |t|
  {
    (k % 4 >= 2 && t[k] == 0x7E) || exists v: nat :: v < 64 && Stands(t[k], v)
  }

  /** The bytes of a group: `=` counts as zeros, and one or two of them leave that many bytes less. */
  function QuadLength(t: seq<byte>): (n: nat)
    requires |t| == 4
    ensures 1 <= n <= 3
  {
    if t[2] == 0x7E then 1 else if t[3] == 0x7E then 2 else 3
  }

  predicate SextetOf(t: seq<byte>, k: nat, v: nat)
    requires k < |t|
  {
    if k % 4 >= 2 && t[k] == 0x7E then v == 0 else Stands(t[k], v)
  }

  predicate QuadMeans(t: seq<byte>, s: seq<byte>, vs: seq<nat>)
    requires |t| == 4
  {
    && |vs| == 4 && |s| == QuadLength(t)
    && SextetOf(t, 0, vs[0]) && SextetOf(t, 1, vs[1]) && SextetOf(t, 2, vs[2]) && SextetOf(t, 3, vs[3])
    && BitsOfSextets(vs)[..8 * |s|] == BitsOfBytes(s)
  }

  lemma {:induction false} BitsTellApart(n: nat, m: nat, width: nat)
    requires n < PowerOfTwo(width) && m < PowerOfTwo(width) && Bits(n, width) == Bits(m, width)
    ensures n == m
    decreases width
  {
    if width > 0 {
      var x, y := Bits(n / 2, width - 1), Bits(m / 2, width - 1);
      assert Bits(n, width)[..width - 1] == x && Bits(m, width)[..width - 1] == y;
      assert Bits(n, width)[width - 1] == Bits(m, width)[width - 1];
      BitsTellApart(n / 2, m / 2, width - 1);
    }
  }

  lemma {:induction false} BytesTellApart(s: seq<byte>, u: seq<byte>)
    requires |s| == |u| && BitsOfBytes(s) == BitsOfBytes(u)
    ensures s == u
  {
    if s != [] {
      Powers();
      assert PowerOfTwo(7) == 2 * PowerOfTwo(6) && PowerOfTwo(8) == 2 * PowerOfTwo(7);
      assert Bits(s[0], 8) == BitsOfBytes(s)[..8] && Bits(u[0], 8) == BitsOfBytes(u)[..8];
      assert BitsOfBytes(s[1..]) == BitsOfBytes(s)[8..] && BitsOfBytes(u[1..]) == BitsOfBytes(u)[8..];
      BitsTellApart(s[0], u[0], 8);
      BytesTellApart(s[1..], u[1..]);
      assert s == [s[0]] + s[1..] && u == [u[0]] + u[1..];
    }
  }

  /** The three bytes that four groups of six bits make. */
  function BytesOfSextets(v0: nat, v1: nat, v2: nat, v3: nat): (s: seq<byte>)
    requires v0 < 64 && v1 < 64 && v2 < 64 && v3 < 64
    ensures |s| == 3
  {
    [v0 * 4 + v1 / 16, v1 % 16 * 16 + v2 / 4, v2 % 4 * 64 + v3]
  }

  lemma {:induction false} FirstBytes(s: seq<byte>, n: nat)
    requires n <= |s|
    ensures BitsOfBytes(s)[..8 * n] == BitsOfBytes(s[..n])
  {
    assert s == s[..n] + s[n..];
    BytesAppend(s[..n], s[n..]);
  }

  lemma {:induction false} PrefixMeans(vs: seq<nat>, n: nat, s: seq<byte>)
    requires |vs| == 4 && vs[0] < 64 && vs[1] < 64 && vs[2] < 64 && vs[3] < 64 && n <= 3 && |s| == n
    ensures BitsOfSextets(vs)[..8 * n] == BitsOfBytes(s) <==> s == BytesOfSextets(vs[0], vs[1], vs[2], vs[3])[..n]
  {
    var all := BytesOfSextets(vs[0], vs[1], vs[2], vs[3]);
    SameParts(vs, all, vs[0], vs[1] / 16, vs[1] % 16, vs[2] / 4, vs[2] % 4, vs[3]);
    FirstBytes(all, n);
    if BitsOfBytes(s) == BitsOfBytes(all[..n]) {
      BytesTellApart(s, all[..n]);
    }
  }

  lemma {:induction false} SextetExactly(t: seq<byte>, k: nat)
    requires k < |t|
    ensures MayStand(t, k) <==> (k % 4 >= 2 && t[k] == 0x7E) || DecodeChar(t[k]) < 64
    ensures forall v: nat :: SextetOf(t, k, v) <==>
                             v < 64 && v == if k % 4 >= 2 && t[k] == 0x7E then 0 else DecodeChar(t[k])
  {
    forall v: nat
      ensures Stands(t[k], v) <==> v < 64 && DecodeChar(t[k]) == v
    {
      StandsExactly(t[k], v);
    }
    if DecodeChar(t[k]) < 64 {
      assert Stands(t[k], DecodeChar(t[k]));
    }
  }

  /** The groups of six of four characters. */
  function SextetsRead(t: seq<byte>): seq<nat>
    requires |t| == 4
  {
    [DecodeChar(t[0]), DecodeChar(t[1]), if t[2] == 0x7E then 0 else DecodeChar(t[2]), if t[3] == 0x7E then 0 else DecodeChar(t[3])]
  }

  lemma {:induction false} QuadStandsExactly(t: seq<byte>)
    requires |t| == 4
    ensures (forall k :: 0 <= k < 4 ==> MayStand(t, k)) <==>
            var r := SextetsRead(t); r[0] < 64 && r[1] < 64 && r[2] < 64 && r[3] < 64
    ensures forall s, vs :: QuadMeans(t, s, vs) ==> vs == SextetsRead(t) && vs[0] < 64 && vs[1] < 64 && vs[2] < 64 && vs[3] < 64
  {
    SextetExactly(t, 0);
    SextetExactly(t, 1);
    SextetExactly(t, 2);
    SextetExactly(t, 3);
    assert MayStand(t, 0) && MayStand(t, 1) && MayStand(t, 2) && MayStand(t, 3) ==> forall k :: 0 <= k < 4 ==> MayStand(t, k);
  }

  lemma {:induction false} UnquadIs(t: seq<byte>)
    requires |t| == 4
    ensures var r := SextetsRead(t);
            Unquad(t) == if r[0] < 64 && r[1] < 64 && r[2] < 64 && r[3] < 64
                         then Ok(BytesOfSextets(r[0], r[1], r[2], r[3])[..QuadLength(t)]) else Err(InvalidCharacter)
  {
    var r := SextetsRead(t);
    if r[0] < 64 && r[1] < 64 && r[2] < 64 && r[3] < 64 {
      BytesUpTo(r[0], r[1], r[2], r[3], t[2] == 0x7E, t[3] == 0x7E);
    }
  }

  lemma {:induction false} BytesUpTo(v0: nat, v1: nat, v2: nat, v3: nat, one: bool, two: bool)
    requires v0 < 64 && v1 < 64 && v2 < 64 && v3 < 64
    ensures BytesOfSextets(v0, v1, v2, v3)[..if one then 1 else if two then 2 else 3] ==
            [v0 * 4 + v1 / 16] + (if one then [] else [v1 % 16 * 16 + v2 / 4] + if two then [] else [v2 % 4 * 64 + v3])
  {
    var all := BytesOfSextets(v0, v1, v2, v3);
    UpTo(all[0], all[1], all[2], one, two);
  }

  lemma {:induction false} UpTo(x: byte, y: byte, z: byte, one: bool, two: bool)
    ensures [x, y, z][..if one then 1 else if two then 2 else 3] == [x] + (if one then [] else [y] + if two then [] else [z])
  {
  }

  lemma {:induction false} QuadExactly(t: seq<byte>, s: seq<byte>)
    requires |t| == 4
    ensures Unquad(t) == Ok(s) <==> exists vs :: QuadMeans(t, s, vs)
    ensures Unquad(t) == Err(InvalidCharacter) <==> exists k :: 0 <= k < 4 && !MayStand(t, k)
    ensures Unquad(t).Ok? ==> |Unquad(t).value| == QuadLength(t)
  {
    var r := SextetsRead(t);
    UnquadIs(t);
    QuadStandsExactly(t);
    if r[0] < 64 && r[1] < 64 && r[2] < 64 && r[3] < 64 {
      if |s| == QuadLength(t) {
        PrefixMeans(r, |s|, s);
        SextetExactly(t, 0);
        SextetExactly(t, 1);
        SextetExactly(t, 2);
        SextetExactly(t, 3);
        assert QuadMeans(t, s, r) <==> s == BytesOfSextets(r[0], r[1], r[2], r[3])[..|s|];
      }
    }
  }

  ghost predicate SomeQuad(t: seq<byte>, s: seq<byte>)
    requires |t| == 4
  {
    exists vs :: QuadMeans(t, s, vs)
  }

  /** The text means the bytes: each four characters theirs, in order. */
  ghost predicate TextMeans(t: seq<byte>, s: seq<byte>)
    requires |t| % 4 == 0
    decreases |t|
  {
    if t == [] then s == []
    else
      var n := QuadLength(t[..4]);
      n <= |s| && SomeQuad(t[..4], s[..n]) && TextMeans(t[4..], s[n..])
  }

  predicate AllMayStand(t: seq<byte>) { forall k :: 0 <= k < |t| ==> MayStand(t, k) }

  lemma {:induction false} StandsInGroup(t: seq<byte>)
    requires |t| % 4 == 0 && t != []
    ensures AllMayStand(t) <==> AllMayStand(t[..4]) && AllMayStand(t[4..])
  {
    forall k | 0 <= k < |t|
      ensures k < 4 ==> (MayStand(t, k) <==> MayStand(t[..4], k))
      ensures k >= 4 ==> (MayStand(t, k) <==> MayStand(t[4..], k - 4))
    {
      if k >= 4 {
        assert k % 4 == (k - 4) % 4 && t[4..][k - 4] == t[k];
      }
    }
    if AllMayStand(t) {
      forall k | 0 <= k < |t[4..]|
        ensures MayStand(t[4..], k)
      {
        assert MayStand(t, k + 4);
      }
    }
  }

  lemma {:induction false} QuadsExactly(t: seq<byte>, s: seq<byte>)
    requires |t| % 4 == 0
    ensures DecodedQuads(t) == Ok(s) <==> TextMeans(t, s)
    ensures DecodedQuads(t) == Err(InvalidCharacter) <==> !AllMayStand(t)
    ensures DecodedQuads(t) != Err(InvalidLength)
    decreases |t|
  {
    if t != [] {
      var n := QuadLength(t[..4]);
      StandsInGroup(t);
      QuadExactly(t[..4], if n <= |s| then s[..n] else []);
      QuadsExactly(t[4..], if n <= |s| then s[n..] else []);
      if n <= |s| {
        assert s == s[..n] + s[n..];
      }
      FirstQuad(t, s, n);
    }
  }

  lemma {:induction false} FirstQuad(t: seq<byte>, s: seq<byte>, n: nat)
    requires |t| % 4 == 0 && t != [] && n == QuadLength(t[..4])
    requires Unquad(t[..4]).Ok? ==> |Unquad(t[..4]).value| == n
    ensures DecodedQuads(t) == Ok(s) <==>
            n <= |s| && Unquad(t[..4]) == Ok(s[..n]) && DecodedQuads(t[4..]) == Ok(s[n..])
  {
    var first, rest := Unquad(t[..4]), DecodedQuads(t[4..]);
    if first.Ok? && rest.Ok? {
      var all := first.value + rest.value;
      assert all[..n] == first.value && all[n..] == rest.value;
      if n <= |s| {
        assert s == s[..n] + s[n..];
      }
    }
  }

  /**
    * What the decoder makes of any text: the bytes it means, a complaint about its length when that
    * is no multiple of four, and a complaint about its characters exactly when one of them is neither
    * of the alphabet nor a `=` where it may stand.
    */
  lemma {:induction false} DecodesExactly(t: seq<byte>, s: seq<byte>)
    ensures Decoded(t) == Ok(s) <==> |t| % 4 == 0 && TextMeans(t, s)
    ensures Decoded(t) == Err(InvalidLength) <==> |t| % 4 != 0
    ensures Decoded(t) == Err(InvalidCharacter) <==> |t| % 4 == 0 && !AllMayStand(t)
  {
    if |t| % 4 == 0 {
      QuadsExactly(t, s);
    }
  }
}
