/**
  The transportation problem behind modules/engine/src/emd.cpp: shipments between supplies and
  demands, dual prices, and moving an amount around an alternating loop.
 */
module Transport {
  import opened Sums

  /** An amount shipped from row i to column j. */
  datatype Slot = Slot(i: nat, j: nat, val: real)

  predicate InGrid(xs: seq<Slot>, n1: nat, n2: nat) {
    forall k :: 0 <= k < |xs| ==> xs[k].i < n1 && xs[k].j < n2
  }

  predicate Grid(c: seq<seq<real>>, n1: nat, n2: nat) {
    |c| == n1 && forall i :: 0 <= i < n1 ==> |c[i]| == n2
  }

  function RowSum(xs: seq<Slot>, i: nat): real {
    if xs == [] then 0.0
    else
      var s := xs[|xs| - 1];
      RowSum(xs[..|xs| - 1], i) + if s.i == i then s.val else 0.0
  }

  function ColSum(xs: seq<Slot>, j: nat): real {
    if xs == [] then 0.0
    else
      var s := xs[|xs| - 1];
      ColSum(xs[..|xs| - 1], j) + if s.j == j then s.val else 0.0
  }

  function Mass(xs: seq<Slot>): real {
    if xs == [] then 0.0 else Mass(xs[..|xs| - 1]) + xs[|xs| - 1].val
  }

  function Cost(xs: seq<Slot>, c: seq<seq<real>>, n1: nat, n2: nat): real
    requires InGrid(xs, n1, n2) && Grid(c, n1, n2)
  {
    if xs == [] then 0.0
    else
      var s := xs[|xs| - 1];
      Cost(xs[..|xs| - 1], c, n1, n2) + s.val * c[s.i][s.j]
  }

  ghost predicate NotNegative(xs: seq<Slot>) {
    forall k :: 0 <= k < |xs| ==> xs[k].val >= 0.0
  }

  /** Every supply is shipped and every demand met. */
  ghost predicate Ships(xs: seq<Slot>, supply: seq<real>, demand: seq<real>) {
    && InGrid(xs, |supply|, |demand|)
    && (forall i :: 0 <= i < |supply| ==> RowSum(xs, i) == supply[i])
    && forall j :: 0 <= j < |demand| ==> ColSum(xs, j) == demand[j]
  }

  ghost predicate Feasible(xs: seq<Slot>, supply: seq<real>, demand: seq<real>) {
    Ships(xs, supply, demand) && NotNegative(xs)
  }

  // ---------------------------------------------------------------- dual prices

  /** What the shipments are worth at prices u of the rows and v of the columns. */
  function Priced(xs: seq<Slot>, u: seq<real>, v: seq<real>): real
    requires InGrid(xs, |u|, |v|)
  {
    if xs == [] then 0.0
    else
      var s := xs[|xs| - 1];
      Priced(xs[..|xs| - 1], u, v) + s.val * (u[s.i] + v[s.j])
  }

  function RowSums(xs: seq<Slot>, n: nat): (r: seq<real>)
    ensures |r| == n && forall i :: 0 <= i < n ==> r[i] == RowSum(xs, i)
  {
    seq(n, i requires 0 <= i < n => RowSum(xs, i))
  }

  function ColSums(xs: seq<Slot>, n: nat): (r: seq<real>)
    ensures |r| == n && forall j :: 0 <= j < n ==> r[j] == ColSum(xs, j)
  {
    seq(n, j requires 0 <= j < n => ColSum(xs, j))
  }

  lemma {:induction false} DotUpdate(u: seq<real>, r: seq<real>, i: nat, d: real)
    requires |u| == |r| && i < |u|
    ensures Dot(u, r[i := r[i] + d]) == Dot(u, r) + d * u[i]
  {
    var n := |u| - 1;
    DotSnoc(u, r);
    DotSnoc(u, r[i := r[i] + d]);
    if i < n {
      DotUpdate(u[..n], r[..n], i, d);
      assert r[i := r[i] + d][..n] == r[..n][i := r[i] + d];
    } else {
      assert r[i := r[i] + d][..n] == r[..n];
      TimesPlus(u[n], r[n], d);
    }
  }

  lemma RowSumsSnoc(xs: seq<Slot>, u: seq<real>)
    requires xs != [] && xs[|xs| - 1].i < |u|
    ensures var init, s := xs[..|xs| - 1], xs[|xs| - 1];
      Dot(u, RowSums(xs, |u|)) == Dot(u, RowSums(init, |u|)) + s.val * u[s.i]
  {
    var init, s := xs[..|xs| - 1], xs[|xs| - 1];
    var r := RowSums(init, |u|);
    assert RowSums(xs, |u|) == r[s.i := r[s.i] + s.val];
    DotUpdate(u, r, s.i, s.val);
  }

  lemma ColSumsSnoc(xs: seq<Slot>, v: seq<real>)
    requires xs != [] && xs[|xs| - 1].j < |v|
    ensures var init, s := xs[..|xs| - 1], xs[|xs| - 1];
      Dot(v, ColSums(xs, |v|)) == Dot(v, ColSums(init, |v|)) + s.val * v[s.j]
  {
    var init, s := xs[..|xs| - 1], xs[|xs| - 1];
    var q := ColSums(init, |v|);
    assert ColSums(xs, |v|) == q[s.j := q[s.j] + s.val];
    DotUpdate(v, q, s.j, s.val);
  }

  /** What shipments are worth depends on what leaves each row and reaches each column alone. */
  lemma {:induction false} PricedBySums(xs: seq<Slot>, u: seq<real>, v: seq<real>)
    requires InGrid(xs, |u|, |v|)
    ensures Priced(xs, u, v) == Dot(u, RowSums(xs, |u|)) + Dot(v, ColSums(xs, |v|))
  {
    if xs == [] {
      DotZero(u, RowSums(xs, |u|));
      DotZero(v, ColSums(xs, |v|));
    } else {
      PricedBySums(xs[..|xs| - 1], u, v);
      RowSumsSnoc(xs, u);
      ColSumsSnoc(xs, v);
      TimesPlus(xs[|xs| - 1].val, u[xs[|xs| - 1].i], v[xs[|xs| - 1].j]);
    }
  }

  ghost predicate TightAt(s: Slot, c: seq<seq<real>>, u: seq<real>, v: seq<real>)
    requires Grid(c, |u|, |v|) && s.i < |u| && s.j < |v|
  {
    s.val == 0.0 || c[s.i][s.j] == u[s.i] + v[s.j]
  }

  /** Shipments on tight cells cost what they are worth. */
  lemma {:induction false} TightCost(xs: seq<Slot>, c: seq<seq<real>>, u: seq<real>, v: seq<real>)
    requires InGrid(xs, |u|, |v|) && Grid(c, |u|, |v|)
    requires forall k :: 0 <= k < |xs| ==> TightAt(xs[k], c, u, v)
    ensures Cost(xs, c, |u|, |v|) == Priced(xs, u, v)
  {
    if xs != [] { TightCost(xs[..|xs| - 1], c, u, v); }
  }

  /** Units of a price; named so that the solver need not multiply. */
  function Over(delta: real, mass: real): real { delta * mass }

  function Reduced(s: Slot, c: seq<seq<real>>, u: seq<real>, v: seq<real>): real
    requires Grid(c, |u|, |v|) && s.i < |u| && s.j < |v|
  {
    c[s.i][s.j] - u[s.i] - v[s.j]
  }

  /** With one slot that is not tight, shipments cost its reduced cost more than they are worth. */
  lemma {:induction false} AlmostTightCost(xs: seq<Slot>, c: seq<seq<real>>, u: seq<real>, v: seq<real>, e: nat)
    requires InGrid(xs, |u|, |v|) && Grid(c, |u|, |v|) && e < |xs|
    requires forall k :: 0 <= k < |xs| && k != e ==> TightAt(xs[k], c, u, v)
    ensures Cost(xs, c, |u|, |v|) == Priced(xs, u, v) + Over(xs[e].val, Reduced(xs[e], c, u, v))
  {
    var n := |xs| - 1;
    if e < n {
      AlmostTightCost(xs[..n], c, u, v, e);
    } else {
      TightCost(xs[..n], c, u, v);
      TimesPlus(xs[e].val, c[xs[e].i][xs[e].j], u[xs[e].i] + v[xs[e].j]);
    }
  }

  /** Shipping through a cell cheaper than its prices, the others being tight, saves. */
  lemma PivotSaves(xs: seq<Slot>, ys: seq<Slot>, supply: seq<real>, demand: seq<real>,
                   c: seq<seq<real>>, u: seq<real>, v: seq<real>, e: nat)
    requires |u| == |supply| && |v| == |demand| && Grid(c, |u|, |v|)
    requires Ships(xs, supply, demand) && Ships(ys, supply, demand) && |xs| == |ys| && e < |xs|
    requires forall k :: 0 <= k < |xs| && k != e ==> TightAt(xs[k], c, u, v) && TightAt(ys[k], c, u, v)
    requires xs[e].val == 0.0 && ys[e].val >= 0.0 && Reduced(ys[e], c, u, v) <= 0.0
    ensures Cost(ys, c, |u|, |v|) <= Cost(xs, c, |u|, |v|)
  {
    AlmostTightCost(xs, c, u, v, e);
    AlmostTightCost(ys, c, u, v, e);
    assert Priced(xs, u, v) == Priced(ys, u, v) by { SamePrice(xs, ys, supply, demand, u, v); }
    Saves(ys[e].val, Reduced(ys[e], c, u, v));
    assert Over(0.0, Reduced(xs[e], c, u, v)) == 0.0;
  }

  lemma Saves(x: real, y: real)
    requires x >= 0.0 && y <= 0.0
    ensures Over(x, y) <= 0.0
  {
  }

  /** No cell is more than delta cheaper than its prices. */
  ghost predicate Dual(c: seq<seq<real>>, u: seq<real>, v: seq<real>, delta: real)
    requires Grid(c, |u|, |v|)
  {
    forall i, j :: 0 <= i < |u| && 0 <= j < |v| ==> c[i][j] >= u[i] + v[j] - delta
  }

  lemma {:induction false} DualCost(xs: seq<Slot>, c: seq<seq<real>>, u: seq<real>, v: seq<real>, delta: real)
    requires InGrid(xs, |u|, |v|) && Grid(c, |u|, |v|) && NotNegative(xs) && Dual(c, u, v, delta)
    ensures Cost(xs, c, |u|, |v|) >= Priced(xs, u, v) - Over(delta, Mass(xs))
  {
    if xs != [] {
      var init, s := xs[..|xs| - 1], xs[|xs| - 1];
      DualCost(init, c, u, v, delta);
      TimesMono(s.val, u[s.i] + v[s.j] - delta, c[s.i][s.j]);
      TimesPlus(s.val, u[s.i] + v[s.j], delta);
      TimesPlus(delta, Mass(init), s.val);
    }
  }

  lemma {:induction false} MassOfRows(xs: seq<Slot>, n1: nat, n2: nat)
    requires InGrid(xs, n1, n2)
    ensures Mass(xs) == Sum(RowSums(xs, n1)) == Sum(ColSums(xs, n2))
  {
    if xs == [] {
      SumOfConstant(RowSums(xs, n1), 0.0);
      SumOfConstant(ColSums(xs, n2), 0.0);
      TimesIsProduct(n1, 0.0);
      TimesIsProduct(n2, 0.0);
    } else {
      var init, s := xs[..|xs| - 1], xs[|xs| - 1];
      MassOfRows(init, n1, n2);
      var r, q := RowSums(init, n1), ColSums(init, n2);
      assert RowSums(xs, n1) == r[s.i := r[s.i] + s.val];
      assert ColSums(xs, n2) == q[s.j := q[s.j] + s.val];
      SumUpdate(r, s.i, r[s.i] + s.val);
      SumUpdate(q, s.j, q[s.j] + s.val);
    }
  }

  /** Tight shipments cost at most delta per unit more than any other way to meet the same demands. */
  lemma NearOptimal(xs: seq<Slot>, ys: seq<Slot>, supply: seq<real>, demand: seq<real>,
                    c: seq<seq<real>>, u: seq<real>, v: seq<real>, delta: real)
    requires |u| == |supply| && |v| == |demand| && Grid(c, |u|, |v|)
    requires Ships(xs, supply, demand) && Feasible(ys, supply, demand) && Dual(c, u, v, delta)
    requires forall k :: 0 <= k < |xs| ==> TightAt(xs[k], c, u, v)
    ensures Cost(xs, c, |u|, |v|) <= Cost(ys, c, |u|, |v|) + Over(delta, Sum(supply))
  {
    var x, y, price, mass := Cost(xs, c, |u|, |v|), Cost(ys, c, |u|, |v|), Priced(ys, u, v), Mass(ys);
    assert x == Priced(xs, u, v) by { TightCost(xs, c, u, v); }
    assert y >= price - Over(delta, mass) by { DualCost(ys, c, u, v, delta); }
    assert Priced(xs, u, v) == price && mass == Sum(supply) by { SamePrice(xs, ys, supply, demand, u, v); }
  }

  lemma SamePrice(xs: seq<Slot>, ys: seq<Slot>, supply: seq<real>, demand: seq<real>, u: seq<real>, v: seq<real>)
    requires |u| == |supply| && |v| == |demand| && Ships(xs, supply, demand) && Ships(ys, supply, demand)
    ensures Priced(xs, u, v) == Priced(ys, u, v) && Mass(ys) == Sum(supply)
  {
    PricedBySums(xs, u, v);
    PricedBySums(ys, u, v);
    MassOfRows(ys, |u|, |v|);
    assert RowSums(xs, |u|) == supply == RowSums(ys, |u|);
    assert ColSums(xs, |v|) == demand == ColSums(ys, |v|);
  }

  // ---------------------------------------------------------------- changing one slot

  function Shift(xs: seq<Slot>, k: nat, d: real): (r: seq<Slot>)
    requires k < |xs|
    ensures |r| == |xs|
  {
    xs[k := xs[k].(val := xs[k].val + d)]
  }

  lemma {:induction false} ShiftSums(xs: seq<Slot>, k: nat, d: real, n: nat)
    requires k < |xs|
    ensures RowSum(Shift(xs, k, d), n) == RowSum(xs, n) + if xs[k].i == n then d else 0.0
    ensures ColSum(Shift(xs, k, d), n) == ColSum(xs, n) + if xs[k].j == n then d else 0.0
  {
    var m := |xs| - 1;
    if k < m {
      ShiftSums(xs[..m], k, d, n);
      assert Shift(xs, k, d)[..m] == Shift(xs[..m], k, d);
    } else {
      assert Shift(xs, k, d)[..m] == xs[..m];
    }
  }

  /** A slot that ships nothing can stand anywhere. */
  lemma {:induction false} IdleSlot(xs: seq<Slot>, k: nat, s: Slot, n: nat)
    requires k < |xs| && xs[k].val == 0.0 == s.val
    ensures RowSum(xs[k := s], n) == RowSum(xs, n) && ColSum(xs[k := s], n) == ColSum(xs, n)
  {
    var m := |xs| - 1;
    if k < m {
      IdleSlot(xs[..m], k, s, n);
      assert xs[k := s][..m] == xs[..m][k := s];
    } else {
      assert xs[k := s][..m] == xs[..m];
    }
  }

  /** Shipments are not larger than what leaves their row. */
  lemma {:induction false} ValAtMostRow(xs: seq<Slot>, k: nat, i: nat)
    requires NotNegative(xs) && k < |xs|
    ensures RowSum(xs, i) >= 0.0 && (xs[k].i == i ==> xs[k].val <= RowSum(xs, i))
  {
    var m := |xs| - 1;
    RowNotNegative(xs[..m], i);
    if k < m { ValAtMostRow(xs[..m], k, i); }
  }

  lemma {:induction false} RowNotNegative(xs: seq<Slot>, i: nat)
    requires NotNegative(xs)
    ensures RowSum(xs, i) >= 0.0
  {
    if xs != [] { RowNotNegative(xs[..|xs| - 1], i); }
  }

  // ---------------------------------------------------------------- moving an amount around a loop

  /** Slots that alternately share a row and a column, the last sharing a column with the first. */
  ghost predicate Loop(xs: seq<Slot>, loop: seq<nat>) {
    && |loop| >= 2 && |loop| % 2 == 0
    && (forall k :: 0 <= k < |loop| ==> loop[k] < |xs|)
    && (forall k, l :: 0 <= k < l < |loop| ==> loop[k] != loop[l])
    && Alternates(xs, loop)
    && xs[loop[|loop| - 1]].j == xs[loop[0]].j
  }

  ghost predicate Alternates(xs: seq<Slot>, path: seq<nat>) {
    && (forall k :: 0 <= k < |path| ==> path[k] < |xs|)
    && forall k: nat :: JoinedAt(xs, path, k)
  }

  /** The slot at place k shares its row, or at even places its column, with the one before. */
  ghost predicate JoinedAt(xs: seq<Slot>, path: seq<nat>, k: nat) {
    0 < k < |path| && path[k] < |xs| && path[k - 1] < |xs| ==>
      if k % 2 == 1 then xs[path[k]].i == xs[path[k - 1]].i else xs[path[k]].j == xs[path[k - 1]].j
  }

  /** The loop after its first n pairs: the first of a pair ships m more, the second m less. */
  function Pivoted(xs: seq<Slot>, loop: seq<nat>, m: real, n: nat): (r: seq<Slot>)
    requires 2 * n <= |loop| && forall k :: 0 <= k < |loop| ==> loop[k] < |xs|
    ensures |r| == |xs| && forall k :: 0 <= k < |xs| ==> r[k].i == xs[k].i && r[k].j == xs[k].j
  {
    if n == 0 then xs else Shift(Shift(Pivoted(xs, loop, m, n - 1), loop[2 * n - 2], m), loop[2 * n - 1], -m)
  }

  lemma PairSums(xs: seq<Slot>, k: nat, l: nat, m: real, n: nat)
    requires k < |xs| && l < |xs|
    ensures var after := Shift(Shift(xs, k, m), l, -m);
      && RowSum(after, n) == RowSum(xs, n) + (if xs[k].i == n then m else 0.0) - (if xs[l].i == n then m else 0.0)
      && ColSum(after, n) == ColSum(xs, n) + (if xs[k].j == n then m else 0.0) - (if xs[l].j == n then m else 0.0)
  {
    ShiftSums(xs, k, m, n);
    ShiftSums(Shift(xs, k, m), l, -m, n);
  }

  lemma PairShares(xs: seq<Slot>, loop: seq<nat>, n: nat)
    requires Loop(xs, loop) && 0 < 2 * n <= |loop|
    ensures xs[loop[2 * n - 1]].i == xs[loop[2 * n - 2]].i
    ensures n > 1 ==> xs[loop[2 * n - 2]].j == xs[loop[2 * n - 3]].j
  {
    assert JoinedAt(xs, loop, 2 * n - 1);
    if n > 1 { assert JoinedAt(xs, loop, 2 * n - 2); }
  }

  /** Rows are left alone pair by pair; columns shift the amount on from pair to pair. */
  lemma {:induction false} PivotSums(xs: seq<Slot>, loop: seq<nat>, m: real, n: nat, i: nat)
    requires Loop(xs, loop) && 2 * n <= |loop|
    ensures RowSum(Pivoted(xs, loop, m, n), i) == RowSum(xs, i)
    ensures n > 0 ==>
      ColSum(Pivoted(xs, loop, m, n), i) ==
      ColSum(xs, i) + (if xs[loop[0]].j == i then m else 0.0) - if xs[loop[2 * n - 1]].j == i then m else 0.0
  {
    if n > 0 {
      hide RowSum, ColSum, JoinedAt;
      PivotSums(xs, loop, m, n - 1, i);
      PairSums(Pivoted(xs, loop, m, n - 1), loop[2 * n - 2], loop[2 * n - 1], m, i);
      PairShares(xs, loop, n);
    }
  }

  lemma {:induction false} PivotLeaves(xs: seq<Slot>, loop: seq<nat>, m: real, n: nat, k: nat)
    requires Loop(xs, loop) && 2 * n <= |loop| && k < |xs| && forall l :: 0 <= l < 2 * n ==> loop[l] != k
    ensures Pivoted(xs, loop, m, n)[k] == xs[k]
  {
    if n > 0 { PivotLeaves(xs, loop, m, n - 1, k); }
  }

  lemma {:induction false} PivotMoves(xs: seq<Slot>, loop: seq<nat>, m: real, n: nat, l: nat)
    requires Loop(xs, loop) && l < 2 * n <= |loop|
    ensures Pivoted(xs, loop, m, n)[loop[l]].val == xs[loop[l]].val + if l % 2 == 0 then m else -m
  {
    hide JoinedAt, Alternates;
    if l < 2 * n - 2 {
      PivotMoves(xs, loop, m, n - 1, l);
    } else {
      PivotLeaves(xs, loop, m, n - 1, loop[l]);
    }
  }

  /** Moving around a loop no more than its smallest giver ships leaves a feasible plan feasible. */
  lemma PivotKeepsFeasible(xs: seq<Slot>, loop: seq<nat>, m: real, supply: seq<real>, demand: seq<real>)
    requires Feasible(xs, supply, demand) && Loop(xs, loop) && m >= 0.0
    requires forall l :: 0 <= l < |loop| && l % 2 == 1 ==> m <= xs[loop[l]].val
    ensures Feasible(Pivoted(xs, loop, m, |loop| / 2), supply, demand)
  {
    var after := Pivoted(xs, loop, m, |loop| / 2);
    forall i: nat ensures RowSum(after, i) == RowSum(xs, i) && ColSum(after, i) == ColSum(xs, i) {
      PivotSums(xs, loop, m, |loop| / 2, i);
    }
    forall k: nat | k < |xs| ensures after[k].val >= 0.0 { PivotNotNegative(xs, loop, m, k); }
  }

  lemma PivotNotNegative(xs: seq<Slot>, loop: seq<nat>, m: real, k: nat)
    requires NotNegative(xs) && Loop(xs, loop) && m >= 0.0 && k < |xs|
    requires forall l :: 0 <= l < |loop| && l % 2 == 1 ==> m <= xs[loop[l]].val
    ensures Pivoted(xs, loop, m, |loop| / 2)[k].val >= 0.0
  {
    if l :| 0 <= l < |loop| && loop[l] == k {
      PivotMoves(xs, loop, m, |loop| / 2, l);
    } else {
      PivotLeaves(xs, loop, m, |loop| / 2, k);
    }
  }
}
