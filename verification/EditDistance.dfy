/**
  uiLevenshteinDistance of modules/core/include/bulldog/core_util.hpp: the cost row it overwrites comes to the
  length of the shortest script of single insertions, deletions and substitutions, which makes it a metric.
 */
module EditDistance {

  function Min(a: nat, b: nat): nat { if a < b then a else b }

  /** The recurrence, on the last characters. */
  function Lev(a: string, b: string): nat
    decreases |a| + |b|
  {
    if a == [] then |b|
    else if b == [] then |a|
    else
      var m, n := |a| - 1, |b| - 1;
      if a[m] == b[n] then Lev(a[..m], b[..n])
      else 1 + Min(Lev(a, b[..n]), Min(Lev(a[..m], b), Lev(a[..m], b[..n])))
  }

  method Distance(s1: string, s2: string) returns (d: nat)
    ensures d == Lev(s1, s2)
  {
    var m, n := |s1|, |s2|;
    if m == 0 {
      return n;
    }
    if n == 0 {
      return m;
    }
    var costs := new nat[n + 1];
    for k := 0 to n + 1
      invariant forall l :: 0 <= l < k ==> costs[l] == l
    {
      costs[k] := k;
    }
    for i := 0 to m
      invariant forall l :: 0 <= l <= n ==> costs[l] == Lev(s1[..i], s2[..l])
    {
      Row(s1, s2, i, costs);
    }
    assert s1[..m] == s1 && s2[..n] == s2;
    d := costs[n];
  }

  /** Overwrites the costs of one character of s1 less. */
  method Row(s1: string, s2: string, i: nat, costs: array<nat>)
    requires i < |s1| && costs.Length == |s2| + 1
    requires forall l :: 0 <= l <= |s2| ==> costs[l] == Lev(s1[..i], s2[..l])
    modifies costs
    ensures forall l :: 0 <= l <= |s2| ==> costs[l] == Lev(s1[..i + 1], s2[..l])
  {
    ghost var after := seq(|s2| + 1, l requires 0 <= l <= |s2| => Lev(s1[..i + 1], s2[..l]));
    ghost var before := costs[..];
    costs[0] := i + 1;
    var corner := i;
    for j := 0 to |s2|
      invariant corner == before[j]
      invariant forall l :: 0 <= l <= |s2| ==> costs[l] == if l <= j then after[l] else before[l]
    {
      var upper := costs[j + 1];
      Prefixes(s1, s2, i, j);
      if s1[i] == s2[j] {
        costs[j + 1] := corner;
      } else {
        var t := if upper < corner then upper else corner;
        costs[j + 1] := (if costs[j] < t then costs[j] else t) + 1;
      }
      corner := upper;
    }
  }

  lemma Prefixes(s1: string, s2: string, i: nat, j: nat)
    requires i < |s1| && j < |s2|
    ensures Lev(s1[..i + 1], s2[..j + 1]) ==
      if s1[i] == s2[j] then Lev(s1[..i], s2[..j])
      else 1 + Min(Lev(s1[..i + 1], s2[..j]), Min(Lev(s1[..i], s2[..j + 1]), Lev(s1[..i], s2[..j])))
  {
    assert s1[..i + 1][..i] == s1[..i] && s2[..j + 1][..j] == s2[..j];
  }

  // ---------------------------------------------------------------- one character more or less

  lemma {:induction false} Symmetric(a: string, b: string)
    ensures Lev(a, b) == Lev(b, a)
    decreases |a| + |b|
  {
    if a != [] && b != [] {
      Symmetric(a[..|a| - 1], b[..|b| - 1]);
      Symmetric(a, b[..|b| - 1]);
      Symmetric(a[..|a| - 1], b);
    }
  }

  /** Dropping the last character changes the distance by at most one. */
  lemma {:induction false} DropLast(a: string, b: string)
    requires a != []
    ensures Lev(a[..|a| - 1], b) <= Lev(a, b) + 1 && Lev(a, b) <= Lev(a[..|a| - 1], b) + 1
    decreases |a| + |b|, 0
  {
    if b != [] {
      DropLastOther(a[..|a| - 1], b);
      if a[|a| - 1] != b[|b| - 1] { DropLast(a, b[..|b| - 1]); }
    }
  }

  lemma {:induction false} DropLastOther(a: string, b: string)
    requires b != []
    ensures Lev(a, b[..|b| - 1]) <= Lev(a, b) + 1 && Lev(a, b) <= Lev(a, b[..|b| - 1]) + 1
    decreases |a| + |b|, 1
  {
    DropLast(b, a);
    Symmetric(a, b);
    Symmetric(a, b[..|b| - 1]);
  }

  /** The three ways to treat the last characters; the cheapest makes the distance. */
  lemma LastStep(a: string, b: string)
    requires a != [] && b != []
    ensures var a', b', differ := a[..|a| - 1], b[..|b| - 1], if a[|a| - 1] == b[|b| - 1] then 0 else 1;
      && Lev(a, b) <= Lev(a', b') + differ && Lev(a, b) <= Lev(a', b) + 1 && Lev(a, b) <= Lev(a, b') + 1
      && (Lev(a, b) == Lev(a', b') + differ || Lev(a, b) == Lev(a', b) + 1 || Lev(a, b) == Lev(a, b') + 1)
  {
    DropLast(a, b);
    DropLastOther(a, b);
  }

  lemma {:induction false} LengthsApart(a: string, b: string)
    ensures Lev(a, b) + |a| >= |b| && Lev(a, b) + |b| >= |a|
    decreases |a| + |b|
  {
    if a != [] && b != [] {
      LengthsApart(a[..|a| - 1], b[..|b| - 1]);
      LengthsApart(a, b[..|b| - 1]);
      LengthsApart(a[..|a| - 1], b);
    }
  }

  // ---------------------------------------------------------------- a metric

  /** Going through b is no shorter. */
  lemma {:induction false} Triangle(a: string, b: string, c: string)
    ensures Lev(a, c) <= Lev(a, b) + Lev(b, c)
    decreases |a| + |b| + |c|
  {
    if a == [] || c == [] || b == [] {
      LengthsApart(b, c);
      LengthsApart(a, b);
      if b == [] && a != [] && c != [] { AtMostBoth(a, c); }
    } else {
      var a', b', c' := a[..|a| - 1], b[..|b| - 1], c[..|c| - 1];
      Triangle(a', b, c);
      Triangle(a, b, c');
      Triangle(a, b', c);
      Triangle(a, b', c');
      Triangle(a', b', c);
      Triangle(a', b', c');
      LastStep(a, b);
      LastStep(b, c);
      LastStep(a, c);
    }
  }

  lemma {:induction false} AtMostBoth(a: string, c: string)
    ensures Lev(a, c) <= |a| + |c|
    decreases |a| + |c|
  {
    if a != [] && c != [] {
      LastStep(a, c);
      AtMostBoth(a[..|a| - 1], c);
    }
  }

  lemma {:induction false} ZeroIsEqual(a: string, b: string)
    ensures Lev(a, b) == 0 <==> a == b
    decreases |a| + |b|
  {
    if a != [] && b != [] {
      var m, n := |a| - 1, |b| - 1;
      ZeroIsEqual(a[..m], b[..n]);
      assert a == a[..m] + [a[m]] && b == b[..n] + [b[n]];
    }
  }

  // ---------------------------------------------------------------- scripts

  /** t is s with one character inserted, deleted or substituted. */
  ghost predicate Edit(s: string, t: string) {
    exists p: string, q: string, x: string, y: string {:trigger EditAt(s, t, p, q, x, y)} :: EditAt(s, t, p, q, x, y)
  }

  predicate EditAt(s: string, t: string, p: string, q: string, x: string, y: string) {
    |x| <= 1 && |y| <= 1 && s == p + x + q && t == p + y + q
  }

  /** A script: the strings it goes through. */
  ghost predicate Script(w: seq<string>, a: string, b: string) {
    && w != [] && w[0] == a && w[|w| - 1] == b
    && forall k :: 0 < k < |w| ==> Edit(w[k - 1], w[k])
  }

  lemma {:induction false} SameTail(a: string, b: string, q: string)
    ensures Lev(a + q, b + q) == Lev(a, b)
    decreases |q|
  {
    if q == [] {
      assert a + q == a && b + q == b;
    } else {
      var n := |q| - 1;
      SameTail(a, b, q[..n]);
      assert (a + q)[..|a + q| - 1] == a + q[..n] && (b + q)[..|b + q| - 1] == b + q[..n];
    }
  }

  /** An edit is at most one step away. */
  lemma EditIsNear(s: string, t: string)
    requires Edit(s, t)
    ensures Lev(s, t) <= 1
  {
    var p: string, q: string, x: string, y: string :| EditAt(s, t, p, q, x, y);
    SameTail(p + x, p + y, q);
    ZeroIsEqual(p, p);
    if x == [] && y == [] {
      assert p + x == p && p + y == p;
    } else if x == [] {
      assert p + x == p && (p + y)[..|p|] == p;
      DropLastOther(p, p + y);
    } else if y == [] {
      assert p + y == p && (p + x)[..|p|] == p;
      DropLast(p + x, p);
    } else {
      assert (p + x)[..|p|] == p && (p + y)[..|p|] == p;
      LastStep(p + x, p + y);
    }
  }

  /** No script is shorter than the distance. */
  lemma {:induction false} ScriptsAreLonger(w: seq<string>, a: string, b: string)
    requires Script(w, a, b)
    ensures Lev(a, b) <= |w| - 1
  {
    if |w| == 1 {
      ZeroIsEqual(a, b);
    } else {
      var n := |w| - 1;
      ScriptsAreLonger(w[..n], a, w[n - 1]);
      EditIsNear(w[n - 1], w[n]);
      Triangle(a, w[n - 1], b);
    }
  }

  /** Every script also works with a character behind. */
  function Behind(w: seq<string>, ch: char): (v: seq<string>)
    ensures |v| == |w| && forall k :: 0 <= k < |w| ==> v[k] == w[k] + [ch]
  {
    seq(|w|, k requires 0 <= k < |w| => w[k] + [ch])
  }

  lemma BehindIsScript(w: seq<string>, a: string, b: string, ch: char)
    requires Script(w, a, b)
    ensures Script(Behind(w, ch), a + [ch], b + [ch])
  {
    var v := Behind(w, ch);
    forall k | 0 < k < |v| ensures Edit(v[k - 1], v[k]) {
      assert Edit(w[k - 1], w[k]);
      var p: string, q: string, x: string, y: string :| EditAt(w[k - 1], w[k], p, q, x, y);
      assert p + x + q + [ch] == p + x + (q + [ch]) && p + y + q + [ch] == p + y + (q + [ch]);
      assert EditAt(v[k - 1], v[k], p, q + [ch], x, y);
    }
  }

  lemma Extend(w: seq<string>, a: string, b: string, c: string)
    requires Script(w, a, b) && Edit(b, c)
    ensures Script(w + [c], a, c)
  {
  }

  lemma EditsAtEnd(b: string, x: char, y: char)
    ensures Edit(b + [x], b + [y]) && Edit(b, b + [y]) && Edit(b + [x], b)
  {
    assert EditAt(b + [x], b + [y], b, [], [x], [y]) by { assert b + [x] + [] == b + [x] && b + [y] + [] == b + [y]; }
    assert EditAt(b, b + [y], b, [], [], [y]) by { assert b + [] + [] == b && b + [y] + [] == b + [y]; }
    assert EditAt(b + [x], b, b, [], [x], []) by { assert b + [x] + [] == b + [x] && b + [] + [] == b; }
  }

  /** Some script is as short as the distance. */
  lemma {:induction false} ShortestScript(a: string, b: string) returns (w: seq<string>)
    ensures Script(w, a, b) && |w| - 1 == Lev(a, b)
    decreases |a| + |b|
  {
    if a == [] && b == [] {
      w := [a];
    } else if a == [] {
      w := InsertLast(a, b);
    } else if b == [] {
      w := DeleteLast(a, b);
    } else {
      var m, n := |a| - 1, |b| - 1;
      assert a == a[..m] + [a[m]] && b == b[..n] + [b[n]];
      if a[m] == b[n] {
        var v := ShortestScript(a[..m], b[..n]);
        BehindIsScript(v, a[..m], b[..n], a[m]);
        w := Behind(v, a[m]);
      } else if Lev(a, b) == 1 + Lev(a, b[..n]) {
        w := InsertLast(a, b);
      } else if Lev(a, b) == 1 + Lev(a[..m], b) {
        w := DeleteLast(a, b);
      } else {
        var v := ShortestScript(a[..m], b[..n]);
        BehindIsScript(v, a[..m], b[..n], a[m]);
        EditsAtEnd(b[..n], a[m], b[n]);
        Extend(Behind(v, a[m]), a, b[..n] + [a[m]], b);
        w := Behind(v, a[m]) + [b];
      }
    }
  }

  lemma {:induction false} InsertLast(a: string, b: string) returns (w: seq<string>)
    requires b != [] && Lev(a, b) == 1 + Lev(a, b[..|b| - 1])
    ensures Script(w, a, b) && |w| - 1 == Lev(a, b)
    decreases |a| + |b|, 0
  {
    var n := |b| - 1;
    var v := ShortestScript(a, b[..n]);
    EditsAtEnd(b[..n], b[n], b[n]);
    assert b == b[..n] + [b[n]];
    Extend(v, a, b[..n], b);
    w := v + [b];
  }

  lemma {:induction false} DeleteLast(a: string, b: string) returns (w: seq<string>)
    requires a != [] && Lev(a, b) == 1 + Lev(a[..|a| - 1], b)
    ensures Script(w, a, b) && |w| - 1 == Lev(a, b)
    decreases |a| + |b|, 0
  {
    var m := |a| - 1;
    var v := ShortestScript(a[..m], b);
    EditsAtEnd(a[..m], a[m], a[m]);
    assert a == a[..m] + [a[m]];
    w := [a] + v;
    forall k | 0 < k < |w| ensures Edit(w[k - 1], w[k]) {
      if k > 1 { assert Edit(v[k - 2], v[k - 1]); }
    }
  }
}
