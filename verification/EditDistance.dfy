/**
  * `levenshtein_distance` of native/c/parser.hpp, which ranks the suggestions for a mistyped
  * option: the two-row loop, the recurrence it fills in, and what that number means.
  */
module EditDistance {
  import opened Common

  // ---------- edit scripts ----------

  datatype Step = Keep(c: char) | Substitute(from: char, to: char) | Delete(d: char) | Insert(i: char)

  function Source(script: seq<Step>): string {
    if script == [] then ""
    else
      var init, last := Source(script[..|script| - 1]), script[|script| - 1];
      match last
      case Keep(c) => init + [c]
      case Substitute(from, _) => init + [from]
      case Delete(d) => init + [d]
      case Insert(_) => init
  }

  function Target(script: seq<Step>): string {
    if script == [] then ""
    else
      var init, last := Target(script[..|script| - 1]), script[|script| - 1];
      match last
      case Keep(c) => init + [c]
      case Substitute(_, to) => init + [to]
      case Delete(_) => init
      case Insert(i) => init + [i]
  }

  function Cost(script: seq<Step>): nat {
    if script == [] then 0
    else Cost(script[..|script| - 1]) + if script[|script| - 1].Keep? then 0 else 1
  }

  ghost predicate Edits(script: seq<Step>, a: string, b: string) {
    Source(script) == a && Target(script) == b
  }

  // ---------- the recurrence ----------

  function Distance(a: string, b: string): nat
    decreases |a| + |b|
  {
    if a == "" then |b|
    else if b == "" then |a|
    else
      var a', b' := a[..|a| - 1], b[..|b| - 1];
      var cost := if a[|a| - 1] == b[|b| - 1] then 0 else 1;
      Min(Min(Distance(a', b) + 1, Distance(a, b') + 1), Distance(a', b') + cost)
  }

  /** The distance of two prefixes, as the table cell in row `i` and column `j`. */
  function Cell(a: string, b: string, i: nat, j: nat): nat
    requires i <= |a| && j <= |b|
  {
    Distance(a[..i], b[..j])
  }

  lemma {:induction false} CellStep(a: string, b: string, i: nat, j: nat)
    requires 1 <= i <= |a| && 1 <= j <= |b|
    ensures Cell(a, b, i, j) ==
            Min(Min(Cell(a, b, i - 1, j) + 1, Cell(a, b, i, j - 1) + 1),
                Cell(a, b, i - 1, j - 1) + if a[i - 1] == b[j - 1] then 0 else 1)
  {
    assert a[..i][..i - 1] == a[..i - 1] && b[..j][..j - 1] == b[..j - 1];
  }

  method Levenshtein(a: string, b: string) returns (d: nat)
    ensures d == Distance(a, b)
  {
    var prev, curr := new nat[|b| + 1](_ => 0), new nat[|b| + 1](_ => 0);
    for j := 0 to |b| + 1
      invariant forall k :: 0 <= k < j ==> prev[k] == Cell(a, b, 0, k)
    {
      prev[j] := j;
    }
    for i := 1 to |a| + 1
      invariant forall k :: 0 <= k <= |b| ==> prev[k] == Cell(a, b, i - 1, k)
    {
      curr[0] := i;
      for j := 1 to |b| + 1
        invariant forall k :: 0 <= k < j ==> curr[k] == Cell(a, b, i, k)
        invariant forall k :: 0 <= k <= |b| ==> prev[k] == Cell(a, b, i - 1, k)
      {
        CellStep(a, b, i, j);
        var cost := if a[i - 1] == b[j - 1] then 0 else 1;
        var del := prev[j] + 1;
        var ins := curr[j - 1] + 1;
        var sub := prev[j - 1] + cost;
        var minVal := if del < ins then del else ins;
        minVal := if minVal < sub then minVal else sub;
        curr[j] := minVal;
      }
      forall k | 0 <= k < prev.Length {
        prev[k] := curr[k];
      }
    }
    assert a[..|a|] == a && b[..|b|] == b;
    d := prev[|b|];
  }

  // ---------- the distance is the length of a shortest edit script ----------

  /** No script is cheaper. */
  lemma {:induction false} NoScriptIsCheaper(script: seq<Step>)
    ensures Cost(script) >= Distance(Source(script), Target(script))
  {
    if script != [] {
      var init, last := script[..|script| - 1], script[|script| - 1];
      var a, b := Source(init), Target(init);
      NoScriptIsCheaper(init);
      match last
      case Keep(c) =>
        assert (a + [c])[..|a|] == a && (b + [c])[..|b|] == b;
      case Substitute(from, to) =>
        assert (a + [from])[..|a|] == a && (b + [to])[..|b|] == b;
      case Delete(d) =>
        assert (a + [d])[..|a|] == a;
      case Insert(i) =>
        assert (b + [i])[..|b|] == b;
    }
  }

  /** Some script costs no more. */
  lemma {:induction false} ShortestScript(a: string, b: string) returns (script: seq<Step>)
    ensures Edits(script, a, b) && Cost(script) == Distance(a, b)
    decreases |a| + |b|
  {
    if a == "" && b == "" {
      script := [];
    } else if a == "" {
      script := ExtendedScript(a, b, a, b[..|b| - 1], Insert(b[|b| - 1]));
    } else if b == "" {
      script := ExtendedScript(a, b, a[..|a| - 1], b, Delete(a[|a| - 1]));
    } else {
      var a', b' := a[..|a| - 1], b[..|b| - 1];
      var x, y := a[|a| - 1], b[|b| - 1];
      if Distance(a, b) == Distance(a', b) + 1 {
        script := ExtendedScript(a, b, a', b, Delete(x));
      } else if Distance(a, b) == Distance(a, b') + 1 {
        script := ExtendedScript(a, b, a, b', Insert(y));
      } else if x == y {
        script := ExtendedScript(a, b, a', b', Keep(x));
      } else {
        script := ExtendedScript(a, b, a', b', Substitute(x, y));
      }
    }
  }

  lemma {:induction false} ExtendedScript(a: string, b: string, a': string, b': string, last: Step) returns (script: seq<Step>)
    requires a' <= a && b' <= b && |a'| + |b'| < |a| + |b|
    requires Source([last]) == a[|a'|..] && Target([last]) == b[|b'|..]
    requires Distance(a, b) == Distance(a', b') + if last.Keep? then 0 else 1
    ensures Edits(script, a, b) && Cost(script) == Distance(a, b)
    decreases |a'| + |b'| + 1, 0
  {
    var init := ShortestScript(a', b');
    script := init + [last];
    assert script[..|script| - 1] == init;
    assert [last][..0] == [];
    assert a == a' + a[|a'|..] && b == b' + b[|b'|..];
  }

  // ---------- the distance is a metric ----------

  function Inverse(script: seq<Step>): seq<Step> {
    if script == [] then []
    else
      var last := match script[|script| - 1]
        case Keep(c) => Keep(c)
        case Substitute(from, to) => Substitute(to, from)
        case Delete(d) => Insert(d)
        case Insert(i) => Delete(i);
      Inverse(script[..|script| - 1]) + [last]
  }

  lemma {:induction false} InverseUndoes(script: seq<Step>)
    ensures Edits(Inverse(script), Target(script), Source(script))
    ensures Cost(Inverse(script)) == Cost(script)
  {
    if script != [] {
      var init := script[..|script| - 1];
      InverseUndoes(init);
      var inverse := Inverse(script);
      assert inverse[..|inverse| - 1] == Inverse(init);
    }
  }

  /** Two consecutive edits of the same character as at most one. */
  function Merge(s: Step, t: Step): seq<Step>
    requires !s.Delete? && !t.Insert?
  {
    match (s, t)
    case (Keep(c), Substitute(_, to)) => [Substitute(c, to)]
    case (Keep(c), Delete(_)) => [Delete(c)]
    case (Substitute(from, _), Substitute(_, to)) => if from == to then [Keep(to)] else [Substitute(from, to)]
    case (Substitute(from, _), Delete(_)) => [Delete(from)]
    case (Insert(_), Substitute(_, to)) => [Insert(to)]
    case (Insert(_), Delete(_)) => []
    case _ => [s]
  }

  /** From `a` to `b` by `s`, then from `b` to `c` by `t`, in one script. */
  function Compose(s: seq<Step>, t: seq<Step>): seq<Step>
    requires Target(s) == Source(t)
    decreases |s| + |t|
  {
    if s != [] && s[|s| - 1].Delete? then Compose(s[..|s| - 1], t) + [s[|s| - 1]]
    else if t != [] && t[|t| - 1].Insert? then Compose(s, t[..|t| - 1]) + [t[|t| - 1]]
    else if s == [] || t == [] then []
    else
      assert Target(s)[..|Target(s)| - 1] == Target(s[..|s| - 1]);
      assert Source(t)[..|Source(t)| - 1] == Source(t[..|t| - 1]);
      Compose(s[..|s| - 1], t[..|t| - 1]) + Merge(s[|s| - 1], t[|t| - 1])
  }

  lemma {:induction false} ScriptSnoc(script: seq<Step>, last: Step)
    ensures Source(script + [last]) == Source(script) + Source([last])
    ensures Target(script + [last]) == Target(script) + Target([last])
    ensures Cost(script + [last]) == Cost(script) + if last.Keep? then 0 else 1
  {
    assert (script + [last])[..|script|] == script;
    assert [last][..0] == [];
  }

  lemma {:induction false} ComposeChains(s: seq<Step>, t: seq<Step>)
    requires Target(s) == Source(t)
    ensures Edits(Compose(s, t), Source(s), Target(t))
    ensures Cost(Compose(s, t)) <= Cost(s) + Cost(t)
    decreases |s| + |t|, 1
  {
    if s != [] {
      assert s[..|s| - 1] + [s[|s| - 1]] == s;
    }
    if t != [] {
      assert t[..|t| - 1] + [t[|t| - 1]] == t;
    }
    if s != [] && s[|s| - 1].Delete? {
      ComposeDelete(s[..|s| - 1], s[|s| - 1], t);
    } else if t != [] && t[|t| - 1].Insert? {
      ComposeInsert(s, t[..|t| - 1], t[|t| - 1]);
    } else if s != [] && t != [] {
      ComposeBoth(s[..|s| - 1], s[|s| - 1], t[..|t| - 1], t[|t| - 1]);
    }
  }

  lemma {:induction false} ComposeDelete(s: seq<Step>, x: Step, t: seq<Step>)
    requires x.Delete? && Target(s + [x]) == Source(t)
    ensures Edits(Compose(s + [x], t), Source(s + [x]), Target(t))
    ensures Cost(Compose(s + [x], t)) <= Cost(s + [x]) + Cost(t)
    decreases |s| + |t| + 1, 0
  {
    assert (s + [x])[..|s|] == s;
    ScriptSnoc(s, x);
    ComposeChains(s, t);
    ScriptSnoc(Compose(s, t), x);
  }

  lemma {:induction false} ComposeInsert(s: seq<Step>, t: seq<Step>, y: Step)
    requires y.Insert? && Target(s) == Source(t + [y]) && (s == [] || !s[|s| - 1].Delete?)
    ensures Edits(Compose(s, t + [y]), Source(s), Target(t + [y]))
    ensures Cost(Compose(s, t + [y])) <= Cost(s) + Cost(t + [y])
    decreases |s| + |t| + 1, 0
  {
    assert (t + [y])[..|t|] == t;
    ScriptSnoc(t, y);
    ComposeChains(s, t);
    ScriptSnoc(Compose(s, t), y);
  }

  lemma {:induction false} MergeMeaning(x: Step, y: Step)
    requires !x.Delete? && !y.Insert? && Target([x]) == Source([y])
    ensures Source(Merge(x, y)) == Source([x]) && Target(Merge(x, y)) == Target([y])
    ensures Cost(Merge(x, y)) <= Cost([x]) + Cost([y])
  {
    assert Target([x])[0] == Source([y])[0];
  }

  lemma {:induction false} ScriptMaybe(script: seq<Step>, last: seq<Step>)
    requires |last| <= 1
    ensures Source(script + last) == Source(script) + Source(last)
    ensures Target(script + last) == Target(script) + Target(last)
    ensures Cost(script + last) == Cost(script) + Cost(last)
  {
    if last == [] {
      assert script + last == script;
    } else {
      assert last == [last[0]];
      ScriptSnoc(script, last[0]);
    }
  }

  lemma {:induction false} LastChars(a: string, x: string, b: string, y: string)
    requires a + x == b + y && |x| == |y| == 1
    ensures a == b && x == y
  {
    assert a == (a + x)[..|a|] && b == (b + y)[..|b|];
    assert x == (a + x)[|a|..] && y == (b + y)[|b|..];
  }

  lemma {:induction false} ComposeBoth(s: seq<Step>, x: Step, t: seq<Step>, y: Step)
    requires !x.Delete? && !y.Insert? && Target(s + [x]) == Source(t + [y])
    ensures Edits(Compose(s + [x], t + [y]), Source(s + [x]), Target(t + [y]))
    ensures Cost(Compose(s + [x], t + [y])) <= Cost(s + [x]) + Cost(t + [y])
    decreases |s| + |t| + 1, 0
  {
    ScriptMaybe(s, [x]);
    ScriptMaybe(t, [y]);
    LastChars(Target(s), Target([x]), Source(t), Source([y]));
    ComposeChains(s, t);
    MergeMeaning(x, y);
    ScriptMaybe(Compose(s, t), Merge(x, y));
    assert (s + [x])[..|s|] == s && (t + [y])[..|t|] == t;
  }

  lemma {:induction false} ZeroExactlyWhenEqual(a: string, b: string)
    ensures Distance(a, b) == 0 <==> a == b
  {
    if Distance(a, b) == 0 {
      var script := ShortestScript(a, b);
      KeepsOnly(script);
    }
    if a == b {
      var script := seq(|a|, i requires 0 <= i < |a| => Keep(a[i]));
      IdentityScript(a, script);
      NoScriptIsCheaper(script);
    }
  }

  lemma {:induction false} KeepsOnly(script: seq<Step>)
    requires Cost(script) == 0
    ensures Source(script) == Target(script)
  {
    if script != [] {
      KeepsOnly(script[..|script| - 1]);
    }
  }

  lemma {:induction false} IdentityScript(a: string, script: seq<Step>)
    requires |script| == |a| && forall i :: 0 <= i < |a| ==> script[i] == Keep(a[i])
    ensures Edits(script, a, a) && Cost(script) == 0
  {
    if a != "" {
      IdentityScript(a[..|a| - 1], script[..|a| - 1]);
    }
  }

  lemma {:induction false} Symmetric(a: string, b: string)
    ensures Distance(a, b) == Distance(b, a)
  {
    var there := ShortestScript(a, b);
    var back := ShortestScript(b, a);
    InverseUndoes(there);
    NoScriptIsCheaper(Inverse(there));
    InverseUndoes(back);
    NoScriptIsCheaper(Inverse(back));
  }

  lemma {:induction false} TriangleInequality(a: string, b: string, c: string)
    ensures Distance(a, c) <= Distance(a, b) + Distance(b, c)
  {
    var s := ShortestScript(a, b);
    var t := ShortestScript(b, c);
    ComposeChains(s, t);
    NoScriptIsCheaper(Compose(s, t));
  }
}
