/** Finite sums of reals, and just enough about products for the solver to stay linear elsewhere. */
module Sums {

  function Sum(x: seq<real>): real {
    if x == [] then 0.0 else Sum(x[..|x| - 1]) + x[|x| - 1]
  }

  function Products(x: seq<real>, y: seq<real>): (p: seq<real>)
    requires |x| == |y|
    ensures |p| == |x| && forall a :: 0 <= a < |x| ==> p[a] == x[a] * y[a]
  {
    seq(|x|, a requires 0 <= a < |x| => x[a] * y[a])
  }

  lemma {:induction false} SumNotNegative(x: seq<real>)
    requires forall a :: 0 <= a < |x| ==> x[a] >= 0.0
    ensures Sum(x) >= 0.0
    ensures forall a :: 0 <= a < |x| ==> x[a] <= Sum(x)
  {
    if x != [] {
      var init := x[..|x| - 1];
      SumNotNegative(init);
      forall a | 0 <= a < |x| ensures x[a] <= Sum(x) {
        if a < |x| - 1 { assert x[a] == init[a]; }
      }
    }
  }

  lemma TimesMono(x: real, y: real, z: real)
    requires x >= 0.0 && y <= z
    ensures x * y <= x * z
  {
  }

  lemma TimesPlus(x: real, y: real, z: real)
    ensures x * (y + z) == x * y + x * z
    ensures x * (y - z) == x * y - x * z
  {
  }

  lemma SquareMono(x: real, y: real)
    requires 0.0 <= x <= y
    ensures x * x <= y * y
  {
    TimesMono(x, x, y);
    TimesMono(y, x, y);
  }

  /** c added up n times. */
  function Times(n: nat, c: real): real {
    if n == 0 then 0.0 else Times(n - 1, c) + c
  }

  lemma {:induction false} TimesIsProduct(n: nat, c: real)
    ensures Times(n, c) == n as real * c
  {
    if n > 0 {
      TimesIsProduct(n - 1, c);
      TimesPlus(c, (n - 1) as real, 1.0);
    }
  }

  /** A product by name, where the solver should not multiply. */
  function Mul(x: real, y: real): real { x * y }

  function ScaledBy(x: seq<real>, c: real): (y: seq<real>)
    ensures |y| == |x| && forall a :: 0 <= a < |x| ==> y[a] == Mul(c, x[a])
  {
    seq(|x|, a requires 0 <= a < |x| => Mul(c, x[a]))
  }

  lemma ScaledSnoc(x: seq<real>, c: real)
    requires x != []
    ensures var n := |x| - 1; ScaledBy(x, c)[..n] == ScaledBy(x[..n], c) && ScaledBy(x, c)[n] == c * x[n]
  {
    var n := |x| - 1;
    var y, z := ScaledBy(x, c)[..n], ScaledBy(x[..n], c);
    forall j | 0 <= j < n ensures y[j] == z[j] { assert x[..n][j] == x[j]; }
    assert y == z;
  }

  lemma {:induction false} SumScale(x: seq<real>, c: real) returns (sum: real)
    ensures sum == Sum(x) && Sum(ScaledBy(x, c)) == Mul(c, sum)
  {
    sum := 0.0;
    if x != [] {
      var n := |x| - 1;
      var before := SumScale(x[..n], c);
      ScaledSnoc(x, c);
      TimesPlus(c, before, x[n]);
      sum := before + x[n];
    }
  }

  lemma {:induction false} SumAdds(z: seq<real>, x: seq<real>, y: seq<real>)
    requires |z| == |x| == |y| && forall j :: 0 <= j < |z| ==> z[j] == x[j] + y[j]
    ensures Sum(z) == Sum(x) + Sum(y)
  {
    if z != [] {
      var n := |z| - 1;
      SumAdds(z[..n], x[..n], y[..n]);
    }
  }

  lemma {:induction false} SumMono(x: seq<real>, y: seq<real>)
    requires |x| == |y| && forall j :: 0 <= j < |x| ==> x[j] <= y[j]
    ensures Sum(x) <= Sum(y)
  {
    if x != [] { SumMono(x[..|x| - 1], y[..|x| - 1]); }
  }

  /** z is p times y less v times q, entry by entry. */
  ghost predicate Combines(z: seq<real>, y: seq<real>, q: seq<real>, p: real, v: real) {
    |z| == |y| == |q| && forall a: nat :: CombinesAt(z, y, q, p, v, a)
  }

  ghost predicate CombinesAt(z: seq<real>, y: seq<real>, q: seq<real>, p: real, v: real, a: nat)
    requires |z| == |y| == |q|
  {
    a < |z| ==> z[a] == Mul(p, y[a]) - Mul(v, q[a])
  }

  /** The sums come as values, so that products with them are products of the same numbers everywhere. */
  lemma SumOfCombination(z: seq<real>, y: seq<real>, q: seq<real>, p: real, v: real) returns (sumY: real, sumQ: real)
    requires Combines(z, y, q, p, v)
    ensures sumY == Sum(y) && sumQ == Sum(q) && Sum(z) == Mul(p, sumY) - Mul(v, sumQ)
  {
    sumY := SumScale(y, p);
    sumQ := SumScale(q, v);
    var s, t := ScaledBy(y, p), ScaledBy(q, v);
    forall a | 0 <= a < |z| ensures s[a] == z[a] + t[a] { assert CombinesAt(z, y, q, p, v, a); }
    SumAdds(s, z, t);
  }

  /** z is p times y, entry by entry. */
  ghost predicate Multiplies(z: seq<real>, y: seq<real>, p: real) {
    |z| == |y| && forall a: nat :: MultipliesAt(z, y, p, a)
  }

  ghost predicate MultipliesAt(z: seq<real>, y: seq<real>, p: real, a: nat)
    requires |z| == |y|
  {
    a < |z| ==> z[a] == Mul(p, y[a])
  }

  lemma SumOfMultiple(z: seq<real>, y: seq<real>, p: real) returns (sum: real)
    requires Multiplies(z, y, p)
    ensures sum == Sum(y) && Sum(z) == Mul(p, sum)
  {
    sum := SumScale(y, p);
    var s := ScaledBy(y, p);
    forall a | 0 <= a < |z| ensures s[a] == z[a] { assert MultipliesAt(z, y, p, a); }
    assert s == z;
  }

  /** z lies between lo and hi times x, entry by entry. */
  ghost predicate Between(z: seq<real>, x: seq<real>, lo: real, hi: real) {
    |z| == |x| && forall a: nat :: BetweenAt(z, x, lo, hi, a)
  }

  ghost predicate BetweenAt(z: seq<real>, x: seq<real>, lo: real, hi: real, a: nat)
    requires |z| == |x|
  {
    a < |z| ==> Mul(lo, x[a]) <= z[a] <= Mul(hi, x[a])
  }

  lemma SumBetween(z: seq<real>, x: seq<real>, lo: real, hi: real) returns (sum: real)
    requires Between(z, x, lo, hi)
    ensures sum == Sum(x) && Mul(lo, sum) <= Sum(z) <= Mul(hi, sum)
  {
    sum := SumScale(x, lo);
    var sum' := SumScale(x, hi);
    var s, t := ScaledBy(x, lo), ScaledBy(x, hi);
    forall a | 0 <= a < |z| ensures s[a] <= z[a] <= t[a] { assert BetweenAt(z, x, lo, hi, a); }
    SumMono(s, z);
    SumMono(z, t);
  }

  lemma {:induction false} SumBound(x: seq<real>, y: seq<real>, z: seq<real>, c: real)
    requires |x| == |y| == |z| && forall a :: 0 <= a < |x| ==> x[a] <= y[a] + 2.0 * z[a] + c
    ensures Sum(x) <= Sum(y) + 2.0 * Sum(z) + Times(|x|, c)
  {
    if x != [] {
      var n := |x| - 1;
      SumBound(x[..n], y[..n], z[..n], c);
    }
  }

  lemma {:induction false} SumOfConstant(x: seq<real>, c: real)
    requires forall a :: 0 <= a < |x| ==> x[a] == c
    ensures Sum(x) == Times(|x|, c)
  {
    if x != [] { SumOfConstant(x[..|x| - 1], c); }
  }

  lemma {:induction false} SumUpdate(x: seq<real>, v: nat, y: real)
    requires v < |x|
    ensures Sum(x[v := y]) == Sum(x) - x[v] + y
  {
    var n := |x| - 1;
    if v < n {
      SumUpdate(x[..n], v, y);
      assert x[v := y][..n] == x[..n][v := y];
    } else {
      assert x[v := y][..n] == x[..n];
    }
  }

  lemma SumOfZeros(x: seq<real>)
    requires forall k :: 0 <= k < |x| ==> x[k] == 0.0
    ensures Sum(x) == 0.0
  {
    SumOfConstant(x, 0.0);
    TimesIsProduct(|x|, 0.0);
  }

  // ---------------------------------------------------------------- scalar products

  function Dot(w: seq<real>, v: seq<real>): real
    requires |w| == |v|
  {
    Sum(Products(w, v))
  }

  /** Dot over one entry more. */
  lemma DotSnoc(w: seq<real>, v: seq<real>)
    requires |w| == |v| > 0
    ensures var n := |w| - 1; Dot(w, v) == Dot(w[..n], v[..n]) + w[n] * v[n]
  {
    var n := |w| - 1;
    var p, q := Products(w, v)[..n], Products(w[..n], v[..n]);
    assert |p| == |q|;
    forall j | 0 <= j < n ensures p[j] == q[j] {
      assert w[..n][j] == w[j] && v[..n][j] == v[j];
    }
    assert p == q;
  }

  /** The scalar product is linear in its second factor. */
  lemma DotLinear(w: seq<real>, u: seq<real>, v: seq<real>, c: real, z: seq<real>)
    requires |w| == |u| == |v| == |z| && forall j :: 0 <= j < |w| ==> z[j] == u[j] + c * v[j]
    ensures Dot(w, z) == Dot(w, u) + c * Dot(w, v)
  {
    var p, q := Products(w, z), ScaledBy(Products(w, v), c);
    forall j | 0 <= j < |w| ensures p[j] == Products(w, u)[j] + q[j] { LinearTerm(w[j], u[j], v[j], c); }
    SumAdds(p, Products(w, u), q);
    var sum := SumScale(Products(w, v), c);
  }

  lemma LinearTerm(w: real, u: real, v: real, c: real)
    ensures w * (u + c * v) == w * u + c * (w * v)
  {
    TimesPlus(w, u, c * v);
    assert w * (c * v) == c * (w * v);
  }

  /** Factors can move from one side to the other. */
  lemma DotMove(w: seq<real>, v: seq<real>, s: seq<real>, w': seq<real>, v': seq<real>)
    requires |w| == |v| == |s| == |w'| == |v'|
    requires forall j :: 0 <= j < |w| ==> w'[j] == w[j] * s[j] && v'[j] == s[j] * v[j]
    ensures Dot(w', v) == Dot(w, v')
  {
    var p, q := Products(w', v), Products(w, v');
    forall j | 0 <= j < |w| ensures p[j] == q[j] { assert (w[j] * s[j]) * v[j] == w[j] * (s[j] * v[j]); }
    assert p == q;
  }

  lemma DotScale(x: seq<real>, x': seq<real>, c: real, v: seq<real>)
    requires |x| == |x'| == |v| && forall j :: 0 <= j < |x| ==> x'[j] == c * x[j]
    ensures Dot(x', v) == c * Dot(x, v)
  {
    var p, q := Products(x', v), ScaledBy(Products(x, v), c);
    forall j | 0 <= j < |x| ensures p[j] == q[j] { assert (c * x[j]) * v[j] == c * (x[j] * v[j]); }
    assert p == q;
    var sum := SumScale(Products(x, v), c);
  }

  lemma DotScaledBy(w: seq<real>, v: seq<real>, c: real)
    requires |w| == |v|
    ensures Dot(w, ScaledBy(v, c)) == Mul(c, Dot(w, v))
  {
    var p, q := Products(w, ScaledBy(v, c)), ScaledBy(Products(w, v), c);
    forall j | 0 <= j < |w| ensures p[j] == q[j] { assert w[j] * (c * v[j]) == c * (w[j] * v[j]); }
    assert p == q;
    var sum := SumScale(Products(w, v), c);
  }

  lemma DotZero(w: seq<real>, v: seq<real>)
    requires |w| == |v| && forall j :: 0 <= j < |w| ==> w[j] == 0.0 || v[j] == 0.0
    ensures Dot(w, v) == 0.0
  {
    SumOfConstant(Products(w, v), 0.0);
    TimesIsProduct(|w|, 0.0);
  }

  lemma DotMono(w: seq<real>, u: seq<real>, v: seq<real>)
    requires |w| == |u| == |v| && forall j :: 0 <= j < |w| ==> w[j] >= 0.0 && u[j] <= v[j]
    ensures Dot(w, u) <= Dot(w, v)
  {
    var p, q := Products(w, u), Products(w, v);
    forall j | 0 <= j < |w| ensures p[j] <= q[j] { TimesMono(w[j], u[j], v[j]); }
    SumMono(p, q);
  }

  lemma DotAdd(w: seq<real>, u: seq<real>, v: seq<real>, z: seq<real>)
    requires |w| == |u| == |v| == |z| && forall j :: 0 <= j < |w| ==> z[j] == u[j] + v[j]
    ensures Dot(w, z) == Dot(w, u) + Dot(w, v)
  {
    var p := Products(w, z);
    forall j | 0 <= j < |w| ensures p[j] == Products(w, u)[j] + Products(w, v)[j] { TimesPlus(w[j], u[j], v[j]); }
    SumAdds(p, Products(w, u), Products(w, v));
  }

  lemma DotNegate(w: seq<real>, u: seq<real>, v: seq<real>)
    requires |w| == |u| == |v| && forall j :: 0 <= j < |w| ==> u[j] == -v[j]
    ensures Dot(w, u) == -Dot(w, v)
  {
    var p, q, zero := Products(w, u), Products(w, v), ScaledBy(w, 0.0);
    forall j | 0 <= j < |w| ensures zero[j] == p[j] + q[j] { TimesPlus(w[j], 0.0, v[j]); }
    SumAdds(zero, p, q);
    var sum := SumScale(w, 0.0);
  }

  // ---------------------------------------------------------------- matrices

  ghost predicate Matrix(m: seq<seq<real>>, width: nat) {
    forall i :: 0 <= i < |m| ==> |m[i]| == width
  }

  function ByRows(m: seq<seq<real>>, w: seq<real>): (v: seq<real>)
    requires Matrix(m, |w|)
    ensures |v| == |m| && forall i :: 0 <= i < |m| ==> v[i] == Dot(w, m[i])
  {
    seq(|m|, i requires 0 <= i < |m| => Dot(w, m[i]))
  }

  function Column(m: seq<seq<real>>, width: nat, j: nat): (v: seq<real>)
    requires Matrix(m, width) && j < width
    ensures |v| == |m| && forall i :: 0 <= i < |m| ==> v[i] == m[i][j]
  {
    seq(|m|, i requires 0 <= i < |m| => m[i][j])
  }

  function ByColumns(m: seq<seq<real>>, width: nat, x: seq<real>): (v: seq<real>)
    requires Matrix(m, width) && |x| == |m|
    ensures |v| == width && forall j :: 0 <= j < width ==> v[j] == Dot(x, Column(m, width, j))
  {
    seq(width, j requires 0 <= j < width => Dot(x, Column(m, width, j)))
  }

  lemma LastRow(m: seq<seq<real>>, width: nat, x: seq<real>, j: nat)
    requires Matrix(m, width) && |x| == |m| > 0 && j < width
    ensures var n := |m| - 1;
      Dot(x, Column(m, width, j)) == Dot(x[..n], Column(m[..n], width, j)) + x[n] * m[n][j]
  {
    var n := |m| - 1;
    DotSnoc(x, Column(m, width, j));
    assert Column(m, width, j)[..n] == Column(m[..n], width, j);
  }

  lemma ColumnEntry(m: seq<seq<real>>, width: nat, x: seq<real>, j: nat)
    requires Matrix(m, width) && |x| == |m| > 0 && j < width
    ensures var n := |m| - 1;
      ByColumns(m, width, x)[j] == ByColumns(m[..n], width, x[..n])[j] + Mul(x[n], m[n][j])
  {
    LastRow(m, width, x, j);
  }

  lemma ColumnsSnoc(m: seq<seq<real>>, x: seq<real>, w: seq<real>)
    requires Matrix(m, |w|) && |x| == |m| > 0
    ensures var n := |m| - 1;
      Dot(w, ByColumns(m, |w|, x)) == Dot(w, ByColumns(m[..n], |w|, x[..n])) + Mul(x[n], Dot(w, m[n]))
  {
    var n := |m| - 1;
    var u, v, z := ByColumns(m[..n], |w|, x[..n]), ScaledBy(m[n], x[n]), ByColumns(m, |w|, x);
    forall j | 0 <= j < |w| ensures z[j] == u[j] + v[j] { ColumnEntry(m, |w|, x, j); }
    DotAdd(w, u, v, z);
    DotScaledBy(w, m[n], x[n]);
  }

  lemma RowsSnoc(m: seq<seq<real>>, x: seq<real>, w: seq<real>)
    requires Matrix(m, |w|) && |x| == |m| > 0
    ensures var n := |m| - 1;
      Dot(x, ByRows(m, w)) == Dot(x[..n], ByRows(m[..n], w)) + Mul(x[n], Dot(w, m[n]))
  {
    var n := |m| - 1;
    DotSnoc(x, ByRows(m, w));
    assert ByRows(m, w)[..n] == ByRows(m[..n], w);
  }

  /** Summing a matrix by rows or by columns is the same. */
  lemma {:induction false} RowsAreColumns(m: seq<seq<real>>, x: seq<real>, w: seq<real>)
    requires Matrix(m, |w|) && |x| == |m|
    ensures Dot(x, ByRows(m, w)) == Dot(w, ByColumns(m, |w|, x))
  {
    if m == [] {
      DotZero(w, ByColumns(m, |w|, x));
    } else {
      RowsAreColumns(m[..|m| - 1], x[..|m| - 1], w);
      RowsSnoc(m, x, w);
      ColumnsSnoc(m, x, w);
    }
  }
}
