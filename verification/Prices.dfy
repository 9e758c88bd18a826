/**
  The prices of modules/engine/src/emd.cpp: one for every row and column, so that the cells of the basis cost the sum of
  their two prices.  A basis has such prices for any costs, so its amounts follow from its row and column sums.
 */
module Prices {
  import opened Sums
  import opened Transport
  import opened InitialPlan
  import opened RusselPlan
  import opened Basis
  import opened LoopSearch
  import opened SpanningTree

  /** The cell of slot k is tight: its cost is the sum of its prices. */
  ghost predicate Tight(c: seq<seq<real>>, s: Slot, u: seq<real>, v: seq<real>) {
    Grid(c, |u|, |v|) && s.i < |u| && s.j < |v| && c[s.i][s.j] == u[s.i] + v[s.j]
  }

  /** The prices found are not large: each comes from an earlier one and a cost. */
  ghost predicate Bounded(p: seq<real>, open: seq<nat>, bound: real) {
    forall k: nat :: k < |p| && k !in open ==> -bound <= p[k] <= bound
  }

  ghost predicate Costs(c: seq<seq<real>>, n1: nat, n2: nat, maxC: real) {
    Grid(c, n1, n2) && maxC >= 0.0 && forall i, j :: 0 <= i < n1 && 0 <= j < n2 ==> 0.0 <= c[i][j] <= maxC
  }

  /** Prices are found for the rows not in u0 and the columns not in v0, each through a slot of its own in tight. */
  ghost predicate Pricing(c: seq<seq<real>>, maxC: real, xs: seq<Slot>, skip: nat, u0: seq<nat>, v0: seq<nat>,
                          u: seq<real>, v: seq<real>, tight: set<nat>) {
    && NoRepeat(u0) && NoRepeat(v0) && Inside(u0, |u|) && Inside(v0, |v|)
    && |tight| + |u0| + |v0| + 1 == |u| + |v|
    && Bounded(u, u0, Sums.Times(|tight| + 1, maxC)) && Bounded(v, v0, Sums.Times(|tight| + 1, maxC))
    && forall k :: k in tight ==>
         Live(k, |xs|, skip) && Tight(c, xs[k], u, v) && xs[k].i !in u0 && xs[k].j !in v0
  }

  /** All rows but no column but the first. */
  lemma PricingBegins(c: seq<seq<real>>, maxC: real, xs: seq<Slot>, skip: nat, u0: seq<nat>, v0: seq<nat>, u: seq<real>,
                      v: seq<real>)
    requires maxC >= 0.0 && |u| == |u0| && |v| == |v0| + 1 && v[0] == 0.0
    requires (forall k :: 0 <= k < |u0| ==> u0[k] == k) && forall k :: 0 <= k < |v0| ==> v0[k] == k + 1
    ensures Pricing(c, maxC, xs, skip, u0, v0, u, v, {}) && 0 !in v0
    ensures (forall i: nat :: i < |u| ==> i in u0) && forall j: nat :: 0 < j < |v| ==> j in v0
  {
    TimesIsProduct(1, maxC);
    forall i: nat | i < |u| ensures i in u0 { assert u0[i] == i; }
    forall j: nat | 0 < j < |v| ensures j in v0 { assert v0[j - 1] == j; }
  }

  lemma PriceRow(c: seq<seq<real>>, maxC: real, xs: seq<Slot>, skip: nat, u0: seq<nat>, v0: seq<nat>, u: seq<real>,
                 v: seq<real>, tight: set<nat>, pos: nat, j: nat)
    returns (tight': set<nat>)
    requires Costs(c, |u|, |v|, maxC) && Pricing(c, maxC, xs, skip, u0, v0, u, v, tight)
    requires pos < |u0| && j < |v| && j !in v0 && Used(xs, |xs|, skip, u0[pos], j)
    ensures Pricing(c, maxC, xs, skip, Without(u0, pos), v0, u[u0[pos] := c[u0[pos]][j] - v[j]], v, tight')
  {
    var k: nat :| Live(k, |xs|, skip) && xs[k].i == u0[pos] && xs[k].j == j;
    WithoutMeans(u0, pos);
    InsideWithout(u0, pos, |u|);
    assert k !in tight;
    tight' := tight + {k};
    TimesGrow(|tight| + 1, |tight| + 2, maxC);
  }

  lemma PriceCol(c: seq<seq<real>>, maxC: real, xs: seq<Slot>, skip: nat, u0: seq<nat>, v0: seq<nat>, u: seq<real>,
                 v: seq<real>, tight: set<nat>, pos: nat, i: nat)
    returns (tight': set<nat>)
    requires Costs(c, |u|, |v|, maxC) && Pricing(c, maxC, xs, skip, u0, v0, u, v, tight)
    requires pos < |v0| && i < |u| && i !in u0 && Used(xs, |xs|, skip, i, v0[pos])
    ensures Pricing(c, maxC, xs, skip, u0, Without(v0, pos), u, v[v0[pos] := c[i][v0[pos]] - u[i]], tight')
  {
    var k: nat :| Live(k, |xs|, skip) && xs[k].i == i && xs[k].j == v0[pos];
    WithoutMeans(v0, pos);
    InsideWithout(v0, pos, |v|);
    assert k !in tight;
    tight' := tight + {k};
    TimesGrow(|tight| + 1, |tight| + 2, maxC);
  }

  lemma InsideWithout(u: seq<nat>, pos: nat, n: nat)
    requires Inside(u, n) && pos < |u|
    ensures Inside(Without(u, pos), n)
  {
  }

  /** Once every price is found, every basic cell is tight: there are no more slots than prices. */
  lemma AllTight(c: seq<seq<real>>, maxC: real, xs: seq<Slot>, skip: nat, u: seq<real>, v: seq<real>, tight: set<nat>)
    requires Pricing(c, maxC, xs, skip, [], [], u, v, tight) && |xs| == |u| + |v| && skip < |xs|
    ensures forall k: nat :: Live(k, |xs|, skip) ==> Tight(c, xs[k], u, v)
    ensures |tight| + 1 == |u| + |v|
  {
    var live := UpTo(|xs|) - {skip};
    UpToSize(|xs|);
    SubsetSize(tight, live);
    forall k: nat | Live(k, |xs|, skip) ensures Tight(c, xs[k], u, v) { assert k in live; }
  }

  // ---------------------------------------------------------------- prices for any costs

  /** Prices that fit the costs. */
  ghost predicate Fit(c: seq<seq<real>>, maxC: real, xs: seq<Slot>, skip: nat, u: seq<real>, v: seq<real>) {
    && Bounded(u, [], Sums.Times(|u| + |v|, maxC)) && Bounded(v, [], Sums.Times(|u| + |v|, maxC))
    && forall k: nat :: Live(k, |xs|, skip) ==> Tight(c, xs[k], u, v)
  }

  /** Cells that connect all rows and columns have prices for any costs. */
  lemma {:induction false} PricesExist(c: seq<seq<real>>, maxC: real, xs: seq<Slot>, skip: nat, u0: seq<nat>,
                                       v0: seq<nat>, u: seq<real>, v: seq<real>, tight: set<nat>)
    returns (p: seq<real>, q: seq<real>)
    requires Costs(c, |u|, |v|, maxC) && Pricing(c, maxC, xs, skip, u0, v0, u, v, tight) && 0 !in v0
    requires InGrid(xs, |u|, |v|) && |xs| == |u| + |v| && skip < |xs| && |v| > 0
    requires Connected(xs, |xs|, skip, |u|, |v|)
    ensures |p| == |u| && |q| == |v| && Fit(c, maxC, xs, skip, p, q)
    decreases |u0| + |v0|
  {
    hide Bounded, Tight, Used, Costs, Connected, InGrid;
    if u0 == [] && v0 == [] {
      AllTight(c, maxC, xs, skip, u, v, tight);
      p, q := u, v;
    } else {
      var k := HalfPriced(xs, skip, u0, v0, |u|, |v|);
      GridCell(xs, k, |u|, |v|);
      assert Used(xs, |xs|, skip, xs[k].i, xs[k].j) by { SlotIsUsed(xs, skip, k); }
      var more;
      if xs[k].i in u0 {
        var pos: nat :| pos < |u0| && u0[pos] == xs[k].i;
        more := PriceRow(c, maxC, xs, skip, u0, v0, u, v, tight, pos, xs[k].j);
        CostIsThere(c, maxC, xs[k], |u|, |v|);
        p, q := PricesExist(c, maxC, xs, skip, Without(u0, pos), v0,
                            u[xs[k].i := c[xs[k].i][xs[k].j] - v[xs[k].j]], v, more);
      } else {
        var pos: nat :| pos < |v0| && v0[pos] == xs[k].j;
        WithoutMeans(v0, pos);
        more := PriceCol(c, maxC, xs, skip, u0, v0, u, v, tight, pos, xs[k].i);
        CostIsThere(c, maxC, xs[k], |u|, |v|);
        p, q := PricesExist(c, maxC, xs, skip, u0, Without(v0, pos), u,
                            v[xs[k].j := c[xs[k].i][xs[k].j] - u[xs[k].i]], more);
      }
    }
  }

  lemma CostIsThere(c: seq<seq<real>>, maxC: real, s: Slot, n1: nat, n2: nat)
    requires Costs(c, n1, n2, maxC) && s.i < n1 && s.j < n2
    ensures s.i < |c| && s.j < |c[s.i]|
  {
  }

  lemma GridCell(xs: seq<Slot>, k: nat, n1: nat, n2: nat)
    requires InGrid(xs, n1, n2) && k < |xs|
    ensures xs[k].i < n1 && xs[k].j < n2
  {
  }

  lemma SlotIsUsed(xs: seq<Slot>, skip: nat, k: nat)
    requires Live(k, |xs|, skip)
    ensures Used(xs, |xs|, skip, xs[k].i, xs[k].j)
  {
  }

  /** While a price is missing, some live slot has one of its two prices. */
  lemma HalfPriced(xs: seq<Slot>, skip: nat, u0: seq<nat>, v0: seq<nat>, n1: nat, n2: nat) returns (k: nat)
    requires Connected(xs, |xs|, skip, n1, n2) && InGrid(xs, n1, n2) && Inside(u0, n1) && Inside(v0, n2)
    requires (u0 != [] || v0 != []) && 0 !in v0 && n2 > 0
    ensures Live(k, |xs|, skip) && (xs[k].i in u0 <==> xs[k].j !in v0)
  {
    var a := set i | i in UpTo(n1) && i !in u0;
    var b := set j | j in UpTo(n2) && j !in v0;
    assert 0 in b;
    if u0 != [] { assert u0[0] !in a; }
    if v0 != [] { assert v0[0] !in b; }
    assert !Sealed(xs, |xs|, skip, a, b);
    k :| Live(k, |xs|, skip) && !(xs[k].i in a <==> xs[k].j in b);
  }

  // ---------------------------------------------------------------- the amounts of a basis

  /** Cost one for a cell, and nothing for the others. */
  function CellCosts(i: nat, j: nat, n1: nat, n2: nat): (c: seq<seq<real>>)
    ensures Grid(c, n1, n2)
    ensures forall k, l :: 0 <= k < n1 && 0 <= l < n2 ==> c[k][l] == if k == i && l == j then 1.0 else 0.0
  {
    seq(n1, k requires 0 <= k => seq(n2, l requires 0 <= l => if k == i && l == j then 1.0 else 0.0))
  }

  /** With those costs a plan costs what its slot at the cell ships. */
  lemma {:induction false} CostsTheSlot(xs: seq<Slot>, e: nat, s: Slot, n1: nat, n2: nat)
    requires InGrid(xs, n1, n2) && (e < |xs| ==> xs[e] == s)
    requires forall k :: 0 <= k < |xs| && k != e && xs[k].i == s.i && xs[k].j == s.j ==> xs[k].val == 0.0
    ensures Cost(xs, CellCosts(s.i, s.j, n1, n2), n1, n2) == if e < |xs| then s.val else 0.0
  {
    if xs != [] { CostsTheSlot(xs[..|xs| - 1], e, s, n1, n2); }
  }

  function Size(x: real): real { if x < 0.0 then -x else x }

  function Sizes(x: seq<real>): (s: seq<real>)
    ensures |s| == |x| && forall k :: 0 <= k < |x| ==> s[k] == Size(x[k])
  {
    seq(|x|, k requires 0 <= k < |x| => Size(x[k]))
  }

  lemma {:induction false} DotAtMost(p: seq<real>, r: seq<real>, bound: real)
    requires |p| == |r| && Bounded(p, [], bound)
    ensures -Mul(bound, Sum(Sizes(r))) <= Dot(p, r) <= Mul(bound, Sum(Sizes(r)))
  {
    hide Mul;
    if p == [] {
      MulZero(bound);
    } else {
      var n := |p| - 1;
      DotAtMost(p[..n], r[..n], bound);
      LastProduct(p, r);
      assert Sizes(r)[..n] == Sizes(r[..n]);
      ProductAtMost(p[n], r[n], bound);
      MulPlus(bound, Sum(Sizes(r[..n])), Size(r[n]));
    }
  }

  lemma LastProduct(p: seq<real>, r: seq<real>)
    requires |p| == |r| > 0
    ensures var n := |p| - 1; Dot(p, r) == Dot(p[..n], r[..n]) + Mul(p[n], r[n])
  {
    DotSnoc(p, r);
  }

  lemma MulZero(x: real)
    ensures Mul(x, 0.0) == 0.0
  {
  }

  lemma MulPlus(x: real, y: real, z: real)
    ensures Mul(x, y + z) == Mul(x, y) + Mul(x, z)
  {
    TimesPlus(x, y, z);
  }

  lemma ProductAtMost(p: real, r: real, bound: real)
    requires -bound <= p <= bound
    ensures -Mul(bound, Size(r)) <= Mul(p, r) <= Mul(bound, Size(r))
  {
    TimesMono(Size(r), p, bound);
    TimesMono(Size(r), -bound, p);
  }

  /** What the sums of a plan allow each slot of a basis to ship. */
  function Limit(xs: seq<Slot>, n1: nat, n2: nat): real {
    Mul((n1 + n2) as real, Sum(Sizes(RowSums(xs, n1))) + Sum(Sizes(ColSums(xs, n2))))
  }

  /** No slot of a basis ships more than that, either way. */
  lemma AmountsAreLimited(xs: seq<Slot>, skip: nat, e: nat, n1: nat, n2: nat)
    requires InGrid(xs, n1, n2) && |xs| == n1 + n2 && skip < |xs| && n2 > 0 && xs[skip].val == 0.0
    requires Connected(xs, |xs|, skip, n1, n2) && Apart(xs, |xs|, skip) && Live(e, |xs|, skip)
    ensures -Limit(xs, n1, n2) <= xs[e].val <= Limit(xs, n1, n2)
  {
    var c := CellCosts(xs[e].i, xs[e].j, n1, n2);
    var u, v := FitFor(c, xs, skip, n1, n2);
    CostsTheSlot(xs, e, xs[e], n1, n2);
    forall k: nat | k < |xs| ensures TightAt(xs[k], c, u, v) {
      if k != skip { assert Tight(c, xs[k], u, v); }
    }
    TightCost(xs, c, u, v);
    WorthAtMost(xs, u, v);
  }

  lemma WorthAtMost(xs: seq<Slot>, u: seq<real>, v: seq<real>)
    requires InGrid(xs, |u|, |v|)
    requires Bounded(u, [], (|u| + |v|) as real) && Bounded(v, [], (|u| + |v|) as real)
    ensures -Limit(xs, |u|, |v|) <= Priced(xs, u, v) <= Limit(xs, |u|, |v|)
  {
    hide Mul, Bounded, Priced;
    var n, r, q := (|u| + |v|) as real, RowSums(xs, |u|), ColSums(xs, |v|);
    PricedBySums(xs, u, v);
    DotAtMost(u, r, n);
    DotAtMost(v, q, n);
    MulPlus(n, Sum(Sizes(r)), Sum(Sizes(q)));
  }

  /** Prices for costs of at most one. */
  lemma FitFor(c: seq<seq<real>>, xs: seq<Slot>, skip: nat, n1: nat, n2: nat) returns (u: seq<real>, v: seq<real>)
    requires Costs(c, n1, n2, 1.0) && InGrid(xs, n1, n2) && |xs| == n1 + n2 && skip < |xs| && n2 > 0
    requires Connected(xs, |xs|, skip, n1, n2)
    ensures |u| == n1 && |v| == n2 && forall k: nat :: Live(k, |xs|, skip) ==> Tight(c, xs[k], u, v)
    ensures Bounded(u, [], (n1 + n2) as real) && Bounded(v, [], (n1 + n2) as real)
  {
    hide Costs, Connected, Bounded, Tight, InGrid;
    var u0: seq<nat>, v0: seq<nat> := seq(n1, k requires 0 <= k => k), seq(n2 - 1, k requires 0 <= k => k + 1);
    u, v := seq(n1, _ => 0.0), seq(n2, _ => 0.0);
    PricingBegins(c, 1.0, xs, skip, u0, v0, u, v);
    u, v := PricesExist(c, 1.0, xs, skip, u0, v0, u, v, {});
    TimesIsProduct(n1 + n2, 1.0);
  }
}
