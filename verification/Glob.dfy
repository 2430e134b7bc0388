/**
  * The member-name matcher `is_match` of native/c/zds.cpp: `*` stands for any run of
  * characters and `?` for one. It keeps only the last `*` seen to fall back to.
  */
module Glob {
  import opened Common

  /** What a pattern means. */
  predicate Accepts(p: seq<byte>, s: seq<byte>)
    decreases |p| + |s|
  {
    if p == [] then s == []
    else if p[0] == 0x5C then Accepts(p[1..], s) || (s != [] && Accepts(p, s[1..]))
    else s != [] && (p[0] == 0x6F || p[0] == s[0]) && Accepts(p[1..], s[1..])
  }

  /** The text of one character of the pattern: any for a `*`, one for a `?`, itself otherwise. */
  predicate Fits(c: byte, piece: seq<byte>) {
    if c == 0x5C then true else if c == 0x6F then |piece| == 1 else piece == [c]
  }

  ghost predicate Divides(p: seq<byte>, s: seq<byte>, pieces: seq<seq<byte>>) {
    |pieces| == |p| && Flatten(pieces) == s && forall k :: 0 <= k < |p| ==> Fits(p[k], pieces[k])
  }

  /** A text is accepted exactly when it can be divided into one piece for each character of the pattern. */
  lemma {:induction false} AcceptsExactly(p: seq<byte>, s: seq<byte>)
    ensures Accepts(p, s) <==> exists pieces :: Divides(p, s, pieces)
    decreases |p|, |s|
  {
    if Accepts(p, s) {
      var pieces := Division(p, s);
    }
    if pieces :| Divides(p, s, pieces) {
      DividedIsAccepted(p, s, pieces);
    }
  }

  lemma {:induction false} Division(p: seq<byte>, s: seq<byte>) returns (pieces: seq<seq<byte>>)
    requires Accepts(p, s)
    ensures Divides(p, s, pieces)
    decreases |p| + |s|
  {
    if p == [] {
      pieces := [];
    } else if p[0] == 0x5C && !Accepts(p[1..], s) {
      var more := Division(p, s[1..]);
      pieces := [[s[0]] + more[0]] + more[1..];
      assert pieces[1..] == more[1..];
      AppendAssoc([s[0]], more[0], Flatten(more[1..]));
      assert s == [s[0]] + s[1..];
    } else {
      var n := if p[0] == 0x5C then 0 else 1;
      var rest := Division(p[1..], s[n..]);
      pieces := [s[..n]] + rest;
      assert pieces[1..] == rest;
      assert s == s[..n] + s[n..];
    }
  }

  lemma {:induction false} DividedIsAccepted(p: seq<byte>, s: seq<byte>, pieces: seq<seq<byte>>)
    requires Divides(p, s, pieces)
    ensures Accepts(p, s)
    decreases |p| + |s|
  {
    if p != [] {
      var first, rest := pieces[0], pieces[1..];
      assert s == first + Flatten(rest);
      if first == [] {
        assert s == Flatten(rest);
        DividedIsAccepted(p[1..], s, rest);
      } else if p[0] == 0x5C {
        var shorter := [first[1..]] + rest;
        assert shorter[1..] == rest && s[1..] == first[1..] + Flatten(rest);
        DividedIsAccepted(p, s[1..], shorter);
      } else {
        assert s[1..] == Flatten(rest);
        DividedIsAccepted(p[1..], s[1..], rest);
      }
    }
  }

  /** The last star met: where it is in the pattern, and where the text was by then. */
  datatype Star = NoStar | Star(p: nat, s: nat)

  predicate StarInRange(p: seq<byte>, s: seq<byte>, i: nat, j: nat, star: Star) {
    star.Star? ==> star.p < i <= |p| && p[star.p] == STAR && star.s <= j <= |s|
  }

  predicate OnlyStars(p: seq<byte>) {
    forall k :: 0 <= k < |p| ==> p[k] == STAR
  }

  /** The scan from position `i` of the pattern and `j` of the text. */
  predicate Scan(p: seq<byte>, s: seq<byte>, i: nat, j: nat, star: Star)
    requires i <= |p| && j <= |s| && StarInRange(p, s, i, j, star)
    decreases |s| + 1 - (if star.Star? then star.s + 1 else 0), |p| - i
  {
    if j == |s| then OnlyStars(p[i..])
    else if i < |p| && (p[i] == QUERY || p[i] == s[j]) then Scan(p, s, i + 1, j + 1, star)
    else if i < |p| && p[i] == STAR then Scan(p, s, i + 1, j, Star(i, j))
    else if star.Star? then Scan(p, s, star.p + 1, star.s + 1, Star(star.p, star.s + 1))
    else false
  }

  /**
    * Exact for every pattern and every name without a literal `*`; on any name, what it
    * lets through is a match.
    */
  method IsMatch(s: seq<byte>, p: seq<byte>) returns (r: bool)
    ensures r == Scan(p, s, 0, 0, NoStar)
    ensures STAR !in s ==> r == Accepts(p, s)
    ensures r ==> Accepts(p, s)
  {
    if Scan(p, s, 0, 0, NoStar) {
      ScanIsSound(p, s, 0, 0, NoStar);
    }
    if STAR !in s && Accepts(p, s) {
      ScanIsComplete(p, s, 0, 0, NoStar);
    }
    var star := NoStar;
    var i: nat, j: nat := 0, 0;
    while j < |s|
      invariant i <= |p| && j <= |s| && StarInRange(p, s, i, j, star)
      invariant Scan(p, s, 0, 0, NoStar) == Scan(p, s, i, j, star)
      decreases |s| + 1 - (if star.Star? then star.s + 1 else 0), |p| - i
    {
      if i < |p| && (p[i] == QUERY || p[i] == s[j]) {
        i, j := i + 1, j + 1;
      } else if i < |p| && p[i] == STAR {
        star := Star(i, j);
        i := i + 1;
      } else if star.Star? {
        star := Star(star.p, star.s + 1);
        i, j := star.p + 1, star.s;
      } else {
        return false;
      }
    }
    ghost var k := i;
    while i < |p| && p[i] == STAR
      invariant k <= i <= |p|
      invariant forall m :: k <= m < i ==> p[m] == STAR
    {
      i := i + 1;
    }
    assert i < |p| ==> p[i] == p[k..][i - k];
    r := i == |p|;
  }

  // ---------- what the scan accepts is a match ----------

  lemma {:induction false} ScanIsSound(p: seq<byte>, s: seq<byte>, i: nat, j: nat, star: Star)
    requires i <= |p| && j <= |s| && StarInRange(p, s, i, j, star)
    requires Scan(p, s, i, j, star)
    ensures Accepts(p[i..], s[j..]) || (star.Star? && star.s < |s| && Accepts(p[star.p..], s[star.s + 1..]))
    decreases |s| + 1 - (if star.Star? then star.s + 1 else 0), |p| - i
  {
    if j == |s| {
      OnlyStarsAccept(p[i..]);
    } else if i < |p| && (p[i] == QUERY || p[i] == s[j]) {
      ScanIsSound(p, s, i + 1, j + 1, star);
      Tails(p, i);
      Tails(s, j);
    } else if i < |p| && p[i] == STAR {
      ScanIsSound(p, s, i + 1, j, Star(i, j));
      Tails(p, i);
      Tails(s, j);
    } else {
      ScanIsSound(p, s, star.p + 1, star.s + 1, Star(star.p, star.s + 1));
      Tails(p, star.p);
      if star.s + 1 < |s| {
        Tails(s, star.s + 1);
      }
    }
  }

  lemma {:induction false} Tails(s: seq<byte>, i: nat)
    requires i < |s|
    ensures s[i..] != [] && s[i..][0] == s[i] && s[i..][1..] == s[i + 1..]
  {
  }

  lemma {:induction false} OnlyStarsAccept(p: seq<byte>)
    ensures OnlyStars(p) <==> Accepts(p, [])
  {
    if p != [] {
      OnlyStarsAccept(p[1..]);
      assert OnlyStars(p) <==> p[0] == STAR && OnlyStars(p[1..]) by {
        assert forall k :: 1 <= k < |p| ==> p[k] == p[1..][k - 1];
      }
    }
  }

  // ---------- on a name without stars every match is found ----------

  /** Since the last star the scan has only matched character by character. */
  predicate Aligned(p: seq<byte>, s: seq<byte>, i: nat, j: nat, star: Star)
    requires i <= |p| && j <= |s| && StarInRange(p, s, i, j, star)
  {
    star.Star? ==> i - star.p - 1 == j - star.s && STAR !in p[star.p + 1..i]
  }

  lemma {:induction false} ScanIsComplete(p: seq<byte>, s: seq<byte>, i: nat, j: nat, star: Star)
    requires STAR !in s
    requires i <= |p| && j <= |s| && StarInRange(p, s, i, j, star) && Aligned(p, s, i, j, star)
    requires Accepts(p[i..], s[j..]) || (star.Star? && star.s < |s| && Accepts(p[star.p..], s[star.s + 1..]))
    ensures Scan(p, s, i, j, star)
    decreases |s| + 1 - (if star.Star? then star.s + 1 else 0), |p| - i
  {
    if j == |s| {
      OnlyStarsAccept(p[i..]);
      if !Accepts(p[i..], s[j..]) {
        TooShort(p, s, i, star);
      }
    } else if i < |p| && (p[i] == QUERY || p[i] == s[j]) {
      Tails(p, i);
      Tails(s, j);
      if star.Star? {
        assert p[star.p + 1..i + 1] == p[star.p + 1..i] + [p[i]];
      }
      ScanIsComplete(p, s, i + 1, j + 1, star);
    } else if i < |p| && p[i] == STAR {
      Tails(p, i);
      Tails(s, j);
      if star.Star? && star.s < |s| && Accepts(p[star.p..], s[star.s + 1..]) {
        NextStarDominates(p, s, i, j, star);
      }
      ScanIsComplete(p, s, i + 1, j, Star(i, j));
    } else {
      Tails(s, j);
      if i < |p| {
        Tails(p, i);
      }
      Tails(p, star.p);
      if star.s + 1 < |s| {
        Tails(s, star.s + 1);
      }
      ScanIsComplete(p, s, star.p + 1, star.s + 1, Star(star.p, star.s + 1));
    }
  }

  /** A text needs a character for every literal the pattern starts with. */
  lemma {:induction false} SkipLiterals(p: seq<byte>, n: nat, s: seq<byte>)
    requires n <= |p| && STAR !in p[..n] && Accepts(p, s)
    ensures n <= |s| && Accepts(p[n..], s[n..])
  {
    if n > 0 {
      assert p[0] == p[..n][0];
      assert forall c <- p[1..][..n - 1] :: c in p[..n];
      SkipLiterals(p[1..], n - 1, s[1..]);
      assert p[1..][n - 1..] == p[n..] && s[1..][n - 1..] == s[n..];
    }
  }

  /** A star takes in any characters put in front of the text. */
  lemma {:induction false} StarAbsorbs(p: seq<byte>, s: seq<byte>, a: nat, b: nat)
    requires p != [] && p[0] == STAR && a <= b <= |s| && Accepts(p, s[b..])
    ensures Accepts(p, s[a..])
    decreases b - a
  {
    if a < b {
      StarAbsorbs(p, s, a + 1, b);
      Tails(s, a);
    }
  }

  /** A run of literals between two stars is best matched where it first fits. */
  lemma {:induction false} StarThenLiterals(p: seq<byte>, n: nat, s: seq<byte>)
    requires p != [] && p[0] == STAR && 1 <= n <= |p| && STAR !in p[1..n] && Accepts(p, s)
    ensures n - 1 <= |s|
    ensures n < |p| && p[n] == STAR ==> Accepts(p[n..], s[n - 1..])
    decreases |s|
  {
    if Accepts(p[1..], s) {
      assert p[1..][..n - 1] == p[1..n];
      SkipLiterals(p[1..], n - 1, s);
      assert p[1..][n - 1..] == p[n..];
    } else {
      StarThenLiterals(p, n, s[1..]);
      if n < |p| && p[n] == STAR {
        assert s[1..][n - 1..] == s[n..];
        StarAbsorbs(p[n..], s, n - 1, n);
      }
    }
  }

  lemma {:induction false} TooShort(p: seq<byte>, s: seq<byte>, i: nat, star: Star)
    requires star.Star? && i <= |p| && StarInRange(p, s, i, |s|, star) && Aligned(p, s, i, |s|, star)
    requires star.s < |s|
    ensures !Accepts(p[star.p..], s[star.s + 1..])
  {
    var q, n, rest := p[star.p..], i - star.p, s[star.s + 1..];
    assert q[1..n] == p[star.p + 1..i];
    if Accepts(q, rest) {
      StarThenLiterals(q, n, rest);
    }
  }

  lemma {:induction false} NextStarDominates(p: seq<byte>, s: seq<byte>, i: nat, j: nat, star: Star)
    requires star.Star? && i < |p| && j < |s| && p[i] == STAR
    requires StarInRange(p, s, i, j, star) && Aligned(p, s, i, j, star)
    requires Accepts(p[star.p..], s[star.s + 1..])
    ensures Accepts(p[i..], s[j + 1..])
  {
    var q, n := p[star.p..], i - star.p;
    assert q[1..n] == p[star.p + 1..i];
    StarThenLiterals(q, n, s[star.s + 1..]);
    assert q[n..] == p[i..] && s[star.s + 1..][n - 1..] == s[j + 1..];
  }

  // ---------- on every other name some match is missed ----------

  function Repeat(b: byte, n: nat): (r: seq<byte>)
    ensures |r| == n && forall i :: 0 <= i < n ==> r[i] == b
  {
    seq(n, i => b)
  }

  /** The name up to and with its first `*` at `k`, then one `?` more than characters follow. */
  function MissedPattern(s: seq<byte>, k: nat): seq<byte>
    requires k < |s|
  {
    s[..k] + ([STAR] + Repeat(QUERY, |s| - k))
  }

  lemma {:induction false} ScanMarches(p: seq<byte>, s: seq<byte>, i: nat)
    requires i <= |s| && |p| == |s| + 1 && p[|s|] == QUERY
    requires forall k :: i <= k < |s| ==> p[k] == QUERY || p[k] == s[k]
    ensures !Scan(p, s, i, i, NoStar)
    decreases |s| - i
  {
    if i < |s| {
      ScanMarches(p, s, i + 1);
    } else {
      assert p[i..][0] == QUERY;
    }
  }

  lemma {:induction false} QueriesAccept(n: nat, s: seq<byte>)
    requires |s| == n
    ensures Accepts(Repeat(QUERY, n), s)
  {
    if n > 0 {
      QueriesAccept(n - 1, s[1..]);
      assert Repeat(QUERY, n)[1..] == Repeat(QUERY, n - 1);
    }
  }

  lemma {:induction false} CommonPrefix(u: seq<byte>, p: seq<byte>, s: seq<byte>)
    requires STAR !in u && Accepts(p, s)
    ensures Accepts(u + p, u + s)
  {
    if u == [] {
      assert u + p == p && u + s == s;
    } else {
      CommonPrefix(u[1..], p, s);
      assert (u + p)[1..] == u[1..] + p && (u + s)[1..] == u[1..] + s;
    }
  }

  lemma {:induction false} StarThenQueries(n: nat, s: seq<byte>)
    requires |s| == n
    ensures Accepts([STAR] + Repeat(QUERY, n), s)
  {
    QueriesAccept(n, s);
    assert ([STAR] + Repeat(QUERY, n))[1..] == Repeat(QUERY, n);
  }

  lemma {:induction false} MissedByScan(s: seq<byte>, k: nat)
    requires k < |s| && s[k] == STAR
    ensures !Scan(MissedPattern(s, k), s, 0, 0, NoStar)
  {
    var p := MissedPattern(s, k);
    assert |p| == |s| + 1;
    forall j | 0 <= j <= |s|
      ensures if j < k then p[j] == s[j] else if j == k then p[j] == STAR else p[j] == QUERY
    {
    }
    ScanMarches(p, s, 0);
  }

  lemma {:induction false} MissesAMatch(s: seq<byte>, k: nat)
    requires k < |s| && s[k] == STAR && STAR !in s[..k]
    ensures Accepts(MissedPattern(s, k), s) && !Scan(MissedPattern(s, k), s, 0, 0, NoStar)
  {
    MissedByScan(s, k);
    StarThenQueries(|s| - k, s[k..]);
    CommonPrefix(s[..k], [STAR] + Repeat(QUERY, |s| - k), s[k..]);
    assert s == s[..k] + s[k..];
  }

  lemma {:induction false} FirstStar(s: seq<byte>) returns (k: nat)
    requires STAR in s
    ensures k < |s| && s[k] == STAR && STAR !in s[..k]
  {
    if s[0] == STAR {
      k := 0;
    } else {
      assert s == [s[0]] + s[1..];
      var rest := FirstStar(s[1..]);
      k := rest + 1;
      assert s[..k] == [s[0]] + s[1..][..rest];
    }
  }

  /** The scan agrees with the meaning of every pattern exactly on names without a `*`. */
  lemma {:induction false} ScanExactlyOnNamesWithoutStar(s: seq<byte>)
    ensures (forall p :: Scan(p, s, 0, 0, NoStar) == Accepts(p, s)) <==> STAR !in s
  {
    if STAR in s {
      var k := FirstStar(s);
      MissesAMatch(s, k);
    } else {
      forall p
        ensures Scan(p, s, 0, 0, NoStar) == Accepts(p, s)
      {
        if Scan(p, s, 0, 0, NoStar) {
          ScanIsSound(p, s, 0, 0, NoStar);
          assert p[0..] == p && s[0..] == s;
        }
        if Accepts(p, s) {
          assert p[0..] == p && s[0..] == s;
          ScanIsComplete(p, s, 0, 0, NoStar);
        }
      }
    }
  }
}
