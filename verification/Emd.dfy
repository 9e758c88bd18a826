/**
  The transportation simplex of modules/engine/src/emd.cpp: a first plan (Russel), dual prices
  (FindBasicVariables), the optimality test (IsOptimal) and pivots (NewSolution, FindLoop).
 */
module Emd {
  import opened Sums
  import opened Transport
  import opened InitialPlan
  import opened RusselPlan
  import opened Basis
  import opened LoopSearch
  import opened SpanningTree
  import opened Prices
  import opened Pivots

  const EPSILON: real := 0.000001
  const EMD_INFINITY: real := 100000000000000000000.0
  const MODEST: real := 1000000000000000.0    // weights for which nothing can reach EMD_INFINITY
  const MAX_ITERATIONS := 500
  const MAX_SIG_SIZE := 100

  function Tiny(x: real): (t: real)
    ensures x >= 0.0 ==> 0.0 <= t <= x
  {
    EPSILON * x
  }

  lemma TinyMono(x: real, y: real)
    requires x <= y
    ensures Tiny(x) <= Tiny(y)
  {
    TimesMono(EPSILON, x, y);
  }

  lemma StepsSmall(n: nat, maxC: real)
    requires n <= 201 && 0.0 <= maxC <= 65535.0
    ensures Sums.Times(n, Tiny(maxC)) < EMD_INFINITY
  {
    AtMostTimes(n, 201, Tiny(maxC), 65535.0);
  }

  lemma AtMostTimes(n: nat, m: nat, t: real, bound: real)
    requires n <= m && 0.0 <= t <= bound
    ensures Sums.Times(n, t) <= m as real * bound
  {
    TimesIsProduct(n, t);
    TimesMono(t, n as real, m as real);
    TimesMono(m as real, t, bound);
  }

  ghost predicate RowRight(row: seq<real>, f: nat, f2: seq<nat>, n: nat, maxC: real)
    requires n <= |f2|
  {
    |row| == n && forall j :: 0 <= j < n ==> row[j] == GroundDist(f, f2[j]) && 0.0 <= row[j] <= maxC
  }

  lemma {:induction false} SumMultiple(x: seq<real>, unit: real)
    requires Multiples(x, unit)
    ensures Multiple(Sum(x), unit)
  {
    if x == [] {
      assert 0.0 == Units(0, unit);
    } else {
      var n := |x| - 1;
      SumMultiple(x[..n], unit);
      MultiplePlus(Sum(x[..n]), x[n], unit);
    }
  }

  lemma Difference(w1: seq<real>, w2: seq<real>, unit: real)
    requires Multiples(w1, unit) && Multiples(w2, unit)
    ensures Multiple(Sum(w1) - Sum(w2), unit) && Multiple(Sum(w2) - Sum(w1), unit)
  {
    SumMultiple(w1, unit);
    SumMultiple(w2, unit);
    MultipleMinus(Sum(w1), Sum(w2), unit);
    MultipleMinus(Sum(w2), Sum(w1), unit);
  }

  lemma MultiplePlus(x: real, y: real, unit: real)
    requires Multiple(x, unit) && Multiple(y, unit)
    ensures Multiple(x + y, unit)
  {
    assert 0.0 == Units(0, unit);
    MultipleMinus(0.0, y, unit);
    MultipleMinus(x, -y, unit);
  }

  lemma WithDummy(w: seq<real>, x: real, unit: real)
    ensures Sum(w + [x]) == Sum(w) + x
    ensures Multiples(w, unit) && Multiple(x, unit) && x >= 0.0 ==> Multiples(w + [x], unit)
  {
    assert (w + [x])[..|w|] == w;
  }

  function Max(x: real, y: real): real { if x > y then x else y }

  function GroundDist(f1: nat, f2: nat): real {
    if f1 > f2 then (f1 - f2) as real else (f2 - f1) as real
  }

  /** Unsigned short. */
  ghost predicate Features(f: seq<nat>) {
    forall i :: 0 <= i < |f| ==> f[i] < 65536
  }

  predicate NoneNegative(w: seq<real>) {
    forall k :: 0 <= k < |w| ==> w[k] >= 0.0
  }

  /** Amounts in units above the tolerance. */
  ghost predicate InUnits(w1: seq<real>, w2: seq<real>, unit: real) {
    Multiples(w1, unit) && Multiples(w2, unit) && Tiny(Max(Sum(w1), Sum(w2))) < unit
  }

  /** The largest of some costs. */
  function Highest(x: seq<real>): (m: real)
    requires x != []
    ensures m in x && forall k :: 0 <= k < |x| ==> x[k] <= m
  {
    if |x| == 1 then x[0] else if x[|x| - 1] > Highest(x[..|x| - 1]) then x[|x| - 1] else Highest(x[..|x| - 1])
  }

  /** The largest of the first n, or none. */
  function HighestBelow(x: seq<real>, n: nat): real
    requires n <= |x|
  {
    if n == 0 then -EMD_INFINITY else Highest(x[..n])
  }

  lemma HighestEnds(x: seq<real>)
    ensures HighestBelow(x, 0) == -EMD_INFINITY
    ensures x != [] ==> HighestBelow(x, |x|) == Highest(x)
  {
    assert x[..|x|] == x;
  }

  lemma HighestStep(x: seq<real>, n: nat, bound: real)
    requires n < |x| && forall k :: 0 <= k < |x| ==> 0.0 <= x[k] <= bound
    ensures HighestBelow(x, n + 1) == if HighestBelow(x, n) <= x[n] then x[n] else HighestBelow(x, n)
  {
    assert x[..n + 1][..n] == x[..n];
  }

  /** Russel's measure of a cell: its cost less the largest of its row and the largest of its column. */
  function Measure(c: seq<seq<real>>, n1: nat, n2: nat, i: nat, j: nat): real
    requires Grid(c, n1, n2) && i < n1 && j < n2
  {
    c[i][j] - Highest(c[i]) - Highest(Column(c, n2, j))
  }

  /** The first cell, row by row, of least measure. */
  ghost predicate FirstPick(c: seq<seq<real>>, n1: nat, n2: nat, i: nat, j: nat)
    requires Grid(c, n1, n2)
  {
    i < n1 && j < n2 && forall k: nat, l: nat :: k < n1 && l < n2 ==>
      Measure(c, n1, n2, i, j) <= Measure(c, n1, n2, k, l)
      && (k < i || (k == i && l < j) ==> Measure(c, n1, n2, i, j) < Measure(c, n1, n2, k, l))
  }

  /** What leaves every row and what reaches every column is the same. */
  ghost predicate SameSums(xs: seq<Slot>, ys: seq<Slot>) {
    forall n: nat :: RowSum(ys, n) == RowSum(xs, n) && ColSum(ys, n) == ColSum(xs, n)
  }

  lemma {:induction false} SizesAtMost(x: seq<real>, bound: real)
    requires forall k :: 0 <= k < |x| ==> -bound <= x[k] <= bound
    ensures Sum(Sizes(x)) <= Sums.Times(|x|, bound)
  {
    if x != [] {
      var n := |x| - 1;
      assert Sizes(x)[..n] == Sizes(x[..n]);
      SizesAtMost(x[..n], bound);
    }
  }

  /** Plans that nearly ship weights up to MODEST have light sums. */
  lemma ModestIsLight(xs: seq<Slot>, supply: seq<real>, demand: seq<real>, maxW: real)
    requires NearlyShips(xs, supply, demand, Tiny(maxW)) && NoneNegative(supply) && NoneNegative(demand)
    requires Sum(supply) <= maxW && Sum(demand) <= maxW && 0.0 <= maxW <= MODEST && |supply| + |demand| <= 201
    requires -Tiny(maxW) <= Sum(supply) - Sum(demand) <= Tiny(maxW)
    ensures Limit(xs, |supply|, |demand|) < EMD_INFINITY
  {
    var n1, n2 := |supply|, |demand|;
    SumNotNegative(supply);
    SumNotNegative(demand);
    TinyMono(maxW, MODEST);
    AtMostTimes(n1, 201, Tiny(maxW), Tiny(MODEST));
    SizesAtMost(RowSums(xs, n1), 2.0 * MODEST);
    SizesAtMost(ColSums(xs, n2), 2.0 * MODEST);
    LimitAtMost(xs, n1, n2);
  }

  lemma LimitAtMost(xs: seq<Slot>, n1: nat, n2: nat)
    requires n1 + n2 <= 201 && Sum(Sizes(RowSums(xs, n1))) <= Sums.Times(n1, 2.0 * MODEST)
    requires Sum(Sizes(ColSums(xs, n2))) <= Sums.Times(n2, 2.0 * MODEST)
    ensures Limit(xs, n1, n2) < EMD_INFINITY
  {
    hide Mul, Sum, Sizes, RowSums, ColSums, Sums.Times;
    AddTimes(n1, n2, 2.0 * MODEST);
    TwiceAtMost((n1 + n2) as real, Sum(Sizes(RowSums(xs, n1))) + Sum(Sizes(ColSums(xs, n2))), 201.0, 2.0 * MODEST);
  }

  lemma AddTimes(n1: nat, n2: nat, b: real)
    ensures Sums.Times(n1, b) + Sums.Times(n2, b) == Mul((n1 + n2) as real, b)
  {
    TimesIsProduct(n1, b);
    TimesIsProduct(n2, b);
    TimesPlus(b, n1 as real, n2 as real);
  }

  lemma TwiceAtMost(n: real, x: real, m: real, bound: real)
    requires 0.0 <= n <= m && x <= Mul(n, bound) && bound >= 0.0
    ensures Mul(n, x) <= m * m * bound
  {
    TimesMono(bound, n, m);
    TimesMono(n, x, m * bound);
    TimesMono(m * bound, n, m);
    assert (m * bound) * m == m * m * bound;
  }

  lemma PivotKeepsSums(xs: seq<Slot>, loop: seq<nat>, m: real)
    requires Loop(xs, loop)
    ensures SameSums(xs, Pivoted(xs, loop, m, |loop| / 2))
  {
    forall n: nat
      ensures RowSum(Pivoted(xs, loop, m, |loop| / 2), n) == RowSum(xs, n)
      ensures ColSum(Pivoted(xs, loop, m, |loop| / 2), n) == ColSum(xs, n)
    {
      PivotSums(xs, loop, m, |loop| / 2, n);
    }
  }

  /** The cells after a pivot connect all rows and columns when the giver at that place leaves. */
  lemma StillConnected(xs: seq<Slot>, loop: seq<nat>, m: real, at: nat, enter: nat, n1: nat, n2: nat)
    requires Loop(xs, loop) && at < |loop| && at % 2 == 1 && Connected(xs, |xs|, enter, n1, n2)
    ensures Connected(Pivoted(xs, loop, m, |loop| / 2), |xs|, loop[at], n1, n2)
  {
    var ys := Pivoted(xs, loop, m, |loop| / 2);
    SameConnected(xs, |xs|, enter, xs, |xs|, |xs|, n1, n2);
    LeavingKeepsConnected(xs, loop, at, n1, n2);
    SameConnected(xs, |xs|, loop[at], ys, |xs|, loop[at], n1, n2);
  }

  /** The flow has what the first n slots but the idle one ship between features, each cell once, and nothing else. */
  ghost predicate Carries(flow: seq<Slot>, xs: seq<Slot>, n: nat, idle: nat, sig1: nat, sig2: nat)
    requires n <= |xs|
  {
    && (forall l :: 0 <= l < |flow| ==> Real(flow[l], sig1, sig2) && ShippedBy(flow[l], xs, n, idle))
    && (forall k: nat :: Live(k, n, idle) && Real(xs[k], sig1, sig2) ==> xs[k] in flow)
    && forall l, m :: 0 <= l < m < |flow| ==> flow[l].i != flow[m].i || flow[l].j != flow[m].j
  }

  predicate Real(s: Slot, sig1: nat, sig2: nat) { s.i < sig1 && s.j < sig2 && s.val != 0.0 }

  ghost predicate ShippedBy(s: Slot, xs: seq<Slot>, n: nat, idle: nat)
    requires n <= |xs|
  {
    exists k: nat :: Live(k, n, idle) && xs[k] == s
  }

  lemma CarriesOneMore(flow: seq<Slot>, xs: seq<Slot>, n: nat, idle: nat, sig1: nat, sig2: nat)
    requires n < |xs| && Carries(flow, xs, n, idle, sig1, sig2) && Apart(xs, |xs|, idle)
    ensures Carries(if n != idle && Real(xs[n], sig1, sig2) then flow + [xs[n]] else flow, xs, n + 1, idle, sig1, sig2)
  {
    var more := if n != idle && Real(xs[n], sig1, sig2) then flow + [xs[n]] else flow;
    forall l | 0 <= l < |more| ensures Real(more[l], sig1, sig2) && ShippedBy(more[l], xs, n + 1, idle) {
      if l < |flow| {
        assert ShippedBy(flow[l], xs, n, idle);
        var k: nat :| Live(k, n, idle) && xs[k] == flow[l];
        assert Live(k, n + 1, idle);
      } else {
        assert Live(n, n + 1, idle);
      }
    }
    forall l | 0 <= l < |flow| && n != idle ensures flow[l].i != xs[n].i || flow[l].j != xs[n].j {
      assert ShippedBy(flow[l], xs, n, idle);
      var k: nat :| Live(k, n, idle) && xs[k] == flow[l];
      assert Live(k, |xs|, idle) && Live(n, |xs|, idle);
    }
    forall k: nat | Live(k, n + 1, idle) && Real(xs[k], sig1, sig2) ensures xs[k] in more {
      if k < n { assert Live(k, n, idle); }
    }
  }

  class EMD {
    const sig1: nat
    const sig2: nat
    const n1: nat              // with the dummy row, if there is one
    const n2: nat
    const c: seq<seq<real>>
    const maxC: real
    const maxW: real
    const total: real          // the smaller of the two weights
    ghost const supply: seq<real>
    ghost const demand: seq<real>
    ghost var overshot: bool   // a step of Russel has shipped a column more than it wanted
    const x: array<Slot>       // one slot more than there are basic cells
    const isX: array2<bool>
    var rows: seq<seq<nat>>
    var cols: seq<seq<nat>>
    var endX: nat
    var enterX: nat

    ghost predicate Sized()
    {
      && n1 >= 1 && n2 >= 1 && Grid(c, n1, n2) && |supply| == n1 && |demand| == n2
      && x.Length == n1 + n2 && isX.Length0 == n1 && isX.Length1 == n2
      && 0.0 <= maxC <= 65535.0 && maxW >= 0.0 && n1 + n2 <= 2 * MAX_SIG_SIZE + 1
      && (forall i :: 0 <= i < n1 ==> supply[i] < EMD_INFINITY)
      && (forall i, j :: 0 <= i < n1 && 0 <= j < n2 ==> 0.0 <= c[i][j] <= maxC)
    }

    /** isX marks the cells of the first n slots except skip. */
    ghost predicate Marks(xs: seq<Slot>, n: nat, skip: nat)
      requires n <= |xs|
      reads isX
    {
      forall i, j :: 0 <= i < isX.Length0 && 0 <= j < isX.Length1 ==> (isX[i, j] <==> Used(xs, n, skip, i, j))
    }

    /** Cells that connect all rows and columns, in all slots but the entering one, threaded and marked. */
    ghost predicate Tree()
      reads this, x, isX
    {
      && Sized() && endX == n1 + n2 && enterX < endX && |rows| == n1 && |cols| == n2
      && InGrid(x[..], n1, n2) && x[enterX].val == 0.0
      && Linked(x[..], endX, enterX, rows, cols) && Apart(x[..], endX, enterX) && Marks(x[..], endX, enterX)
      && Connected(x[..], endX, enterX, n1, n2)
    }

    /** A basis with a feasible plan. */
    ghost predicate Based()
      reads this, x, isX
    {
      Tree() && Feasible(x[..], supply, demand)
    }

    // -------------------------------------------------------------- setting up

    /**
      Init: costs, a dummy row or column for what the weights differ by, and Russel's plan.  The plan is nearly feasible
      for any weights, feasible exactly if no step overshoots, and no step does so with weights in units above the
      tolerance.
     */
    constructor (f1: seq<nat>, w1: seq<real>, f2: seq<nat>, w2: seq<real>, ghost unit: real)
      requires 1 <= |f1| == |w1| <= MAX_SIG_SIZE && 1 <= |f2| == |w2| <= MAX_SIG_SIZE && Features(f1) && Features(f2)
      requires NoneNegative(w1) && NoneNegative(w2) && Max(Sum(w1), Sum(w2)) < EMD_INFINITY
      ensures Tree() && Dummies() && sig1 == |f1| && sig2 == |f2| && maxW == Max(Sum(w1), Sum(w2))
      ensures w1 <= supply && w2 <= demand && -Tiny(maxW) <= Sum(supply) - Sum(demand) <= Tiny(maxW)
      ensures n1 + n2 == sig1 + sig2 + if -Tiny(Sum(w1)) < Sum(w1) - Sum(w2) < Tiny(Sum(w1)) then 0 else 1
      ensures n1 + n2 > sig1 + sig2 ==> Sum(supply) == Sum(demand)
      ensures total == -Max(-Sum(w1), -Sum(w2))
      ensures forall i, j :: 0 <= i < sig1 && 0 <= j < sig2 ==> c[i][j] == GroundDist(f1[i], f2[j])
      ensures NearlyShips(x[..], supply, demand, Tiny(maxW))
      ensures Feasible(x[..], supply, demand) <==> Sum(supply) == Sum(demand) && !overshot
      ensures InUnits(w1, w2, unit) ==> Based()
      ensures maxW <= MODEST ==> Light(x[..])
      ensures StartsRight(x[0]) && fresh(x) && fresh(isX)
    {
      hide Tree, NearlyShips, Feasible, StartsRight, Multiples, Sum;
      var s, d, all, largest, sSum, dSum := Prepare(f1, w1, f2, w2, unit);
      sig1, sig2, n1, n2 := |f1|, |f2|, |s|, |d|;
      c, maxC, maxW := all, largest, if sSum > dSum then sSum else dSum;
      total := if sSum > dSum then dSum else sSum;
      supply, demand := s, d;
      overshot := false;
      x := new Slot[|s| + |d|](_ => Slot(0, 0, 0.0));
      isX := new bool[|s|, |d|]((_, _) => false);
      rows, cols := seq(|s|, _ => []), seq(|d|, _ => []);
      endX, enterX := 0, 0;
      new;
      Start(s, d, unit);
      if maxW <= MODEST { ModestIsLight(x[..], s, d, maxW); }
    }

    /** The first slot is at the cell Russel's measure picks, and tells if that overshoots. */
    ghost predicate StartsRight(first: Slot)
      requires Sized()
      reads this`overshot
    {
      && FirstPick(c, n1, n2, first.i, first.j)
      && first.val == Allocate(supply[first.i], demand[first.j], Tiny(maxW)).0
      && (Overshoots(supply[first.i], demand[first.j], Tiny(maxW)) ==> overshot)
    }

    /** Amounts in units above the tolerance, on both sides the same. */
    ghost predicate Exact(unit: real) {
      Multiples(supply, unit) && Multiples(demand, unit) && Tiny(maxW) < unit && Sum(supply) == Sum(demand)
    }

    method Start(s: seq<real>, d: seq<real>, ghost unit: real)
      requires Sized() && s == supply && d == demand && !overshot
      requires NoneNegative(supply) && NoneNegative(demand) && Sum(supply) - Sum(demand) <= Tiny(maxW)
      requires endX == 0 && rows == seq(n1, _ => []) && cols == seq(n2, _ => [])
      requires forall i, j :: 0 <= i < n1 && 0 <= j < n2 ==> !isX[i, j]
      requires forall k :: 0 <= k < x.Length ==> x[k] == Slot(0, 0, 0.0)
      modifies this, x, isX
      ensures Tree() && NearlyShips(x[..], supply, demand, Tiny(maxW))
      ensures Feasible(x[..], supply, demand) <==> Sum(supply) == Sum(demand) && !overshot
      ensures Exact(unit) ==> !overshot
      ensures StartsRight(x[0])
    {
      var left := new real[n1](i requires 0 <= i < n1 => s[i]);
      var short := new real[n2](j requires 0 <= j < n2 => d[j]);
      assert left[..] == s && short[..] == d;
      StepsSmall(n1 + n2, maxC);
      Russel(left, short, unit);
    }

    static method Prepare(f1: seq<nat>, w1: seq<real>, f2: seq<nat>, w2: seq<real>, ghost unit: real)
      returns (s: seq<real>, d: seq<real>, all: seq<seq<real>>, largest: real, sSum: real, dSum: real)
      requires 1 <= |f1| == |w1| && 1 <= |f2| == |w2| && Features(f1) && Features(f2)
      requires NoneNegative(w1) && NoneNegative(w2) && Max(Sum(w1), Sum(w2)) < EMD_INFINITY
      ensures sSum == Sum(w1) >= 0.0 && dSum == Sum(w2) >= 0.0 && 0.0 <= largest <= 65535.0
      ensures Balanced(s, d, w1, w2)
      ensures forall i :: 0 <= i < |s| ==> s[i] < EMD_INFINITY
      ensures InUnits(w1, w2, unit) ==> Multiples(s, unit) && Multiples(d, unit) && Sum(s) == Sum(d)
      ensures Grid(all, |s|, |d|)
      ensures forall i, j :: 0 <= i < |f1| && 0 <= j < |f2| ==> all[i][j] == GroundDist(f1[i], f2[j])
      ensures forall i, j :: 0 <= i < |s| && 0 <= j < |d| && (i == |w1| || j == |w2|) ==> all[i][j] == 0.0
      ensures forall i, j :: 0 <= i < |s| && 0 <= j < |d| ==> 0.0 <= all[i][j] <= largest
    {
      var costs;
      costs, largest := Distances(f1, f2);
      sSum := Total(w1);
      dSum := Total(w2);
      SumNotNegative(w1);
      SumNotNegative(w2);
      s, d, all := Balance(costs, largest, w1, w2, sSum, dSum, unit);
      SumNotNegative(s);
    }

    /** Supplies and demands after the weights: the side that is lighter by the tolerance or more gets a dummy. */
    static ghost predicate Balanced(s: seq<real>, d: seq<real>, w1: seq<real>, w2: seq<real>) {
      && w1 <= s && w2 <= d && NoneNegative(s) && NoneNegative(d)
      && if -Tiny(Sum(w1)) < Sum(w1) - Sum(w2) < Tiny(Sum(w1)) then s == w1 && d == w2
         else |s| + |d| == |w1| + |w2| + 1 && Sum(s) == Sum(d) == Max(Sum(w1), Sum(w2))
    }

    /** The costs between the features, and the largest of them. */
    static method Distances(f1: seq<nat>, f2: seq<nat>) returns (c: seq<seq<real>>, maxC: real)
      requires Features(f1) && Features(f2)
      ensures Grid(c, |f1|, |f2|) && 0.0 <= maxC <= 65535.0
      ensures forall i, j :: 0 <= i < |f1| && 0 <= j < |f2| ==> c[i][j] == GroundDist(f1[i], f2[j])
      ensures forall i, j :: 0 <= i < |f1| && 0 <= j < |f2| ==> 0.0 <= c[i][j] <= maxC
    {
      c, maxC := [], 0.0;
      for i := 0 to |f1|
        invariant |c| == i && 0.0 <= maxC <= 65535.0
        invariant forall k :: 0 <= k < i ==> RowRight(c[k], f1[k], f2, |f2|, maxC)
      {
        var row: seq<real> := [];
        for j := 0 to |f2|
          invariant 0.0 <= maxC <= 65535.0 && RowRight(row, f1[i], f2, j, maxC)
          invariant forall k :: 0 <= k < i ==> RowRight(c[k], f1[k], f2, |f2|, maxC)
        {
          var cost := GroundDist(f1[i], f2[j]);
          row := row + [cost];
          if cost > maxC {
            maxC := cost;
          }
        }
        c := c + [row];
      }
      forall i, j | 0 <= i < |f1| && 0 <= j < |f2|
        ensures c[i][j] == GroundDist(f1[i], f2[j]) && 0.0 <= c[i][j] <= maxC {
        assert RowRight(c[i], f1[i], f2, |f2|, maxC);
      }
      forall i | 0 <= i < |f1| ensures |c[i]| == |f2| { assert RowRight(c[i], f1[i], f2, |f2|, maxC); }
    }

    static method Total(w: seq<real>) returns (sum: real)
      ensures sum == Sum(w)
    {
      sum := 0.0;
      for i := 0 to |w|
        invariant sum == Sum(w[..i])
      {
        assert w[..i + 1][..i] == w[..i];
        sum := sum + w[i];
      }
      assert w[..|w|] == w;
    }

    /** A zero-cost dummy row or column takes what the weights differ by. */
    static method Balance(c: seq<seq<real>>, maxC: real, w1: seq<real>, w2: seq<real>, sSum: real, dSum: real,
                          ghost unit: real)
      returns (s: seq<real>, d: seq<real>, all: seq<seq<real>>)
      requires Grid(c, |w1|, |w2|) && maxC >= 0.0
      requires forall i, j :: 0 <= i < |w1| && 0 <= j < |w2| ==> 0.0 <= c[i][j] <= maxC
      requires NoneNegative(w1) && NoneNegative(w2) && sSum == Sum(w1) >= 0.0 && dSum == Sum(w2) >= 0.0
      ensures Balanced(s, d, w1, w2) && Grid(all, |s|, |d|) && Sum(s) <= Max(sSum, dSum)
      ensures InUnits(w1, w2, unit) ==> Multiples(s, unit) && Multiples(d, unit) && Sum(s) == Sum(d)
      ensures forall i, j :: 0 <= i < |w1| && 0 <= j < |w2| ==> all[i][j] == c[i][j]
      ensures forall i, j :: 0 <= i < |s| && 0 <= j < |d| && (i == |w1| || j == |w2|) ==> all[i][j] == 0.0
      ensures forall i, j :: 0 <= i < |s| && 0 <= j < |d| ==> 0.0 <= all[i][j] <= maxC
    {
      hide Sum, Multiples, Multiple, Tiny;
      var diff := sSum - dSum;
      if InUnits(w1, w2, unit) { Difference(w1, w2, unit); }
      if diff >= Tiny(sSum) || -diff >= Tiny(sSum) {
        if diff < 0.0 {
          s, d, all := w1 + [-diff], w2, c + [seq(|w2|, _ => 0.0)];
          WithDummy(w1, -diff, unit);
        } else {
          s, d, all := w1, w2 + [diff], seq(|w1|, i requires 0 <= i < |w1| => c[i] + [0.0]);
          WithDummy(w2, diff, unit);
        }
      } else {
        s, d, all := w1, w2, c;
        TinyMono(sSum, Max(sSum, dSum));
        if InUnits(w1, w2, unit) { SmallMultiple(diff, unit); }
      }
    }

    // -------------------------------------------------------------- the first plan

    /** AddBasicVariable at row u[pu] and column v[pv]. */
    method AddBasicVariable(s: array<real>, d: array<real>, u: seq<nat>, v: seq<nat>, pu: nat, pv: nat,
                            ghost unit: real)
      returns (u': seq<nat>, v': seq<nat>)
      requires Growing(s[..], d[..], u, v, unit) && pu < |u| && pv < |v| && s != d
      modifies this`rows, this`cols, this`endX, this`overshot, x, isX, s, d
      ensures Growing(s[..], d[..], u', v', unit) && Taken(s, d, u, v, pu, pv) && |u'| + |v'| < |u| + |v|
    {
      hide PlanGrows, LinksGrow, Overshoots, Closed, Tiny, Allocate, NoRepeat, Left, Used, Sized;
      GrowingMeans(s[..], d[..], u, v, unit);
      NotUsedYet(x[..], endX, u, v, u[pu], v[pv]);
      ghost var xs, s0, d0, over := x[..endX], s[..], d[..], overshot;
      ghost var gone := Allocate(s0[u[pu]], d0[v[pv]], Tiny(maxW)).1 == 0.0 && |u| >= 2;
      overshot := overshot || Overshoots(s[u[pu]], d[v[pv]], Tiny(maxW));
      Ship(s, d, u[pu], v[pv]);
      u', v' := Close(u, v, pu, pv, s[u[pu]] == 0.0 && |u| >= 2);
      assert s[..][u[pu]] == s[u[pu]];
      assert u' == Left(u, pu, gone) && v' == Left(v, pv, !gone);
      PlanStep(xs, s0, d0, u, v, pu, pv, unit, over);
    }

    /** The links of the slots so far; the others are untouched. */
    ghost predicate LinksGrow()
      reads this`rows, this`cols, this`endX, x, isX
    {
      && Sized() && endX <= x.Length && |rows| == n1 && |cols| == n2
      && Linked(x[..], endX, endX, rows, cols) && Apart(x[..], endX, endX) && Marks(x[..], endX, endX)
      && forall k :: endX <= k < x.Length ==> x[k] == Slot(0, 0, 0.0)
    }

    /** Ships what can be shipped from row i to column j, in a slot of its own. */
    method Ship(s: array<real>, d: array<real>, i: nat, j: nat)
      requires LinksGrow() && endX < x.Length && i < n1 == s.Length && j < n2 == d.Length && s != d
      requires !Used(x[..], endX, endX, i, j)
      modifies this`rows, this`cols, this`endX, x, isX, s, d
      ensures LinksGrow() && OneMoreSlot(s, d, i, j) && endX == old(endX) + 1
      ensures var (t, left, short) := Allocate(old(s[i]), old(d[j]), Tiny(maxW));
        && x[..endX] == old(x[..endX]) + [Slot(i, j, t)]
        && s[..] == old(s[..])[i := left] && d[..] == old(d[..])[j := short]
    {
      hide Linked, Apart, Used, Allocate, Tiny;
      var t := TakeAmount(s, d, i, j);
      PlaceSlot(i, j, t);
    }

    /** Takes the row off its list or, if it is not empty or the last, the column. */
    static method Close(u: seq<nat>, v: seq<nat>, pu: nat, pv: nat, rowGone: bool) returns (u': seq<nat>, v': seq<nat>)
      requires pu < |u| && pv < |v|
      ensures u' == Left(u, pu, rowGone) && v' == Left(v, pv, !rowGone) && |u'| + |v'| == |u| + |v| - 1
    {
      if rowGone {
        u', v' := Without(u, pu), v;
      } else {
        u', v' := u, Without(v, pv);
      }
    }

    lemma PlanStep(xs: seq<Slot>, s: seq<real>, d: seq<real>, u: seq<nat>, v: seq<nat>, pu: nat, pv: nat, unit: real,
                   over: bool)
      requires Sized() && PlanGrows(xs, s, d, u, v, unit, over) && pu < |u| && pv < |v|
      requires |s| == n1 && |d| == n2 && u[pu] < n1 && v[pv] < n2
      ensures var i, j := u[pu], v[pv];
        var (t, left, short) := Allocate(s[i], d[j], Tiny(maxW));
        var rowGone := left == 0.0 && |u| >= 2;
        PlanGrows(xs + [Slot(i, j, t)], s[i := left], d[j := short], Left(u, pu, rowGone), Left(v, pv, !rowGone), unit,
                  over || Overshoots(s[i], d[j], Tiny(maxW)))
    {
      var i, j := u[pu], v[pv];
      var (t, left, short) := Allocate(s[i], d[j], Tiny(maxW));
      RoughStep(xs, supply, demand, s, d, u, v, pu, pv, Tiny(maxW));
      assert s[i] >= 0.0 && NoRepeat(u) && NoRepeat(v);
      hide Rough, InOrder, Hanging, Exact, Allocate, Overshoots, Multiples, Tiny;
      OrderStep(xs, s, d, i, j, Tiny(maxW));
      HangStep(xs, u, v, n1, n2, pu, pv, t, left == 0.0 && |u| >= 2);
      if Exact(unit) { UnitsStep(s, d, i, j, Tiny(maxW), unit); }
    }

    lemma GrowingMeans(s: seq<real>, d: seq<real>, u: seq<nat>, v: seq<nat>, unit: real)
      requires Growing(s, d, u, v, unit)
      ensures LinksGrow() && PlanGrows(x[..endX], s, d, u, v, unit, overshot)
      ensures NoRepeat(u) && NoRepeat(v) && |s| == n1 && |d| == n2 && u != [] && Sized()
      ensures (forall k :: 0 <= k < |u| ==> u[k] < n1) && forall k :: 0 <= k < |v| ==> v[k] < n2
      ensures Closed(x[..endX], u, v) && (v != [] ==> endX < x.Length) && endX <= x.Length
      ensures forall i :: 0 <= i < |s| ==> s[i] >= 0.0
    {
    }

    /** The amounts: what is shipped, and what is left in s and d. */
    method TakeAmount(s: array<real>, d: array<real>, minI: nat, minJ: nat) returns (t: real)
      requires minI < s.Length && minJ < d.Length && s != d
      modifies s, d
      ensures t == Allocate(old(s[minI]), old(d[minJ]), Tiny(maxW)).0
      ensures s[..] == old(s[..])[minI := Allocate(old(s[minI]), old(d[minJ]), Tiny(maxW)).1]
      ensures d[..] == old(d[..])[minJ := Allocate(old(s[minI]), old(d[minJ]), Tiny(maxW)).2]
    {
      var diff := s[minI] - d[minJ];
      if -Tiny(maxW) <= diff <= Tiny(maxW) {
        t := s[minI];
        s[minI] := 0.0;
        d[minJ] := d[minJ] - t;
      } else if s[minI] < d[minJ] {
        t := s[minI];
        s[minI] := 0.0;
        d[minJ] := d[minJ] - t;
      } else {
        t := d[minJ];
        d[minJ] := 0.0;
        s[minI] := s[minI] - t;
      }
    }

    lemma NotUsedYet(xs: seq<Slot>, n: nat, u: seq<nat>, v: seq<nat>, i: nat, j: nat)
      requires n <= |xs| && Closed(xs[..n], u, v) && i in u && j in v
      ensures !Used(xs, n, n, i, j)
    {
      forall k: nat | Live(k, n, n) ensures xs[k].i != i || xs[k].j != j { assert xs[..n][k] == xs[k]; }
    }

    /** The new slot goes to the end of the slots and to the front of its chains. */
    method PlaceSlot(i: nat, j: nat, t: real)
      requires Sized() && endX < x.Length && i < n1 && j < n2 && |rows| == n1 && |cols| == n2
      requires Linked(x[..], endX, endX, rows, cols) && Apart(x[..], endX, endX) && Marks(x[..], endX, endX)
      requires !Used(x[..], endX, endX, i, j)
      modifies this`rows, this`cols, this`endX, x, isX
      ensures endX == old(endX) + 1 && |rows| == n1 && |cols| == n2
      ensures x[..] == old(x[..])[old(endX) := Slot(i, j, t)]
      ensures Linked(x[..], endX, endX, rows, cols) && Apart(x[..], endX, endX) && Marks(x[..], endX, endX)
    {
      LinkStep(x[..], endX, endX, rows, cols, Slot(i, j, t), endX + 1, endX + 1);
      UsedStep(x[..], endX, endX, Slot(i, j, t), endX + 1, endX + 1);
      isX[i, j] := true;
      x[endX] := Slot(i, j, t);
      assert x[..] == old(x[..])[old(endX) := Slot(i, j, t)];
      rows := Insert(rows, i, endX);
      cols := Insert(cols, j, endX);
      endX := endX + 1;
    }

    /** The first of the smallest deltas among the open rows and columns. */
    method Smallest(u: seq<nat>, v: seq<nat>, delta: array2<real>) returns (found: bool, pu: nat, pv: nat)
      requires delta.Length0 == n1 && delta.Length1 == n2
      requires (forall k :: 0 <= k < |u| ==> u[k] < n1) && forall k :: 0 <= k < |v| ==> v[k] < n2
      requires forall i, j :: 0 <= i < n1 && 0 <= j < n2 ==> delta[i, j] < EMD_INFINITY
      ensures found <==> u != [] && v != []
      ensures found ==> pu < |u| && pv < |v|
      ensures found ==> forall k, l :: 0 <= k < |u| && 0 <= l < |v| ==> delta[u[pu], v[pv]] <= delta[u[k], v[l]]
      ensures found ==> forall k, l :: 0 <= k < |u| && 0 <= l < |v| && (k < pu || (k == pu && l < pv)) ==>
        delta[u[pu], v[pv]] < delta[u[k], v[l]]
    {
      found, pu, pv := false, 0, 0;
      var deltaMin := EMD_INFINITY;
      for k := 0 to |u|
        invariant found <==> k > 0 && v != []
        invariant found ==> pu < k && pv < |v| && deltaMin == delta[u[pu], v[pv]]
        invariant !found ==> deltaMin == EMD_INFINITY && pu == 0 == pv
        invariant forall k', l :: 0 <= k' < k && 0 <= l < |v| ==> deltaMin <= delta[u[k'], v[l]]
        invariant forall k', l :: 0 <= k' < k && 0 <= l < |v| && (k' < pu || (k' == pu && l < pv)) ==>
          deltaMin < delta[u[k'], v[l]]
      {
        for l := 0 to |v|
          invariant found <==> (k > 0 && v != []) || l > 0
          invariant found ==> pu <= k && pv < |v| && (pu == k ==> pv < l) && deltaMin == delta[u[pu], v[pv]]
          invariant !found ==> deltaMin == EMD_INFINITY && pu == 0 == pv
          invariant forall k', l' :: 0 <= k' < k && 0 <= l' < |v| ==> deltaMin <= delta[u[k'], v[l']]
          invariant forall k', l' :: 0 <= k' < k && 0 <= l' < |v| && (k' < pu || (k' == pu && l' < pv)) ==>
            deltaMin < delta[u[k'], v[l']]
          invariant forall l' :: 0 <= l' < l ==> deltaMin <= delta[u[k], v[l']]
          invariant pu == k ==> forall l' :: 0 <= l' < pv ==> deltaMin < delta[u[k], v[l']]
        {
          if deltaMin > delta[u[k], v[l]] {
            deltaMin := delta[u[k], v[l]];
            pu, pv := k, l;
            found := true;
          }
        }
      }
    }

    /** The largest cost of every row and of every column. */
    method Largest() returns (ur: array<real>, vr: array<real>)
      requires Sized()
      ensures fresh(ur) && fresh(vr) && ur != vr && ur.Length == n1 && vr.Length == n2
      ensures forall i :: 0 <= i < n1 ==> ur[i] == Highest(c[i])
      ensures forall j :: 0 <= j < n2 ==> vr[j] == Highest(Column(c, n2, j))
    {
      hide Highest, HighestBelow;
      ur := new real[n1](_ => -EMD_INFINITY);
      vr := new real[n2](_ => -EMD_INFINITY);
      forall j | 0 <= j < n2 ensures vr[j] == HighestBelow(Column(c, n2, j), 0) { HighestEnds(Column(c, n2, j)); }
      for i := 0 to n1
        invariant forall k :: 0 <= k < i ==> ur[k] == Highest(c[k])
        invariant forall k :: i <= k < n1 ==> ur[k] == -EMD_INFINITY
        invariant forall j :: 0 <= j < n2 ==> vr[j] == HighestBelow(Column(c, n2, j), i)
        modifies ur, vr
      {
        LargestOfRow(i, ur, vr);
      }
      forall j | 0 <= j < n2 ensures vr[j] == Highest(Column(c, n2, j)) {
        HighestEnds(Column(c, n2, j));
      }
    }

    method LargestOfRow(i: nat, ur: array<real>, vr: array<real>)
      requires Sized() && i < n1 == ur.Length && vr.Length == n2 && ur != vr && ur[i] == -EMD_INFINITY
      requires forall j :: 0 <= j < n2 ==> vr[j] == HighestBelow(Column(c, n2, j), i)
      modifies ur, vr
      ensures ur[i] == Highest(c[i]) && forall k :: 0 <= k < n1 && k != i ==> ur[k] == old(ur[k])
      ensures forall j :: 0 <= j < n2 ==> vr[j] == HighestBelow(Column(c, n2, j), i + 1)
    {
      hide Highest, HighestBelow;
      HighestEnds(c[i]);
      for j := 0 to n2
        invariant forall k :: 0 <= k < n1 && k != i ==> ur[k] == old(ur[k])
        invariant ur[i] == HighestBelow(c[i], j)
        invariant forall l :: 0 <= l < j ==> vr[l] == HighestBelow(Column(c, n2, l), i + 1)
        invariant forall l :: j <= l < n2 ==> vr[l] == HighestBelow(Column(c, n2, l), i)
        modifies ur, vr
      {
        var cost := c[i][j];
        HighestStep(c[i], j, maxC);
        HighestStep(Column(c, n2, j), i, maxC);
        if ur[i] <= cost {
          ur[i] := cost;
        }
        if vr[j] <= cost {
          vr[j] := cost;
        }
      }
    }

    /** After a row stayed open: columns whose largest cost stood in it. */
    method UpdateColumns(minI: nat, u: seq<nat>, v: seq<nat>, vr: array<real>, delta: array2<real>)
      requires Sized() && minI < n1 && vr.Length == n2 && delta.Length0 == n1 && delta.Length1 == n2
      requires NoRepeat(u) && (forall k :: 0 <= k < |u| ==> u[k] < n1)
      requires NoRepeat(v) && forall k :: 0 <= k < |v| ==> v[k] < n2
      modifies vr, delta
      ensures forall i, j :: 0 <= i < n1 && 0 <= j < n2 ==> delta[i, j] <= old(delta[i, j]) + Tiny(maxC)
    {
      ghost var step := Tiny(maxC);
      for q := 0 to |v|
        invariant forall i, j :: 0 <= i < n1 && 0 <= j < n2 ==> delta[i, j] <= old(delta[i, j]) + step
        invariant forall i, k :: 0 <= i < n1 && q <= k < |v| ==> delta[i, v[k]] == old(delta[i, v[k]])
      {
        var j := v[q];
        if vr[j] == c[minI][j] {
          var oldVal := vr[j];
          vr[j] := -EMD_INFINITY;
          for k := 0 to |u|
            modifies vr
          {
            if vr[j] <= c[u[k]][j] {
              vr[j] := c[u[k]][j];
            }
          }
          var diff := oldVal - vr[j];
          if -Tiny(maxC) < diff < Tiny(maxC) {
            AddDown(u, j, diff, delta);
          }
        }
      }
    }

    method AddDown(u: seq<nat>, j: nat, diff: real, delta: array2<real>)
      requires NoRepeat(u) && j < delta.Length1 && forall k :: 0 <= k < |u| ==> u[k] < delta.Length0
      modifies delta
      ensures forall i, l :: 0 <= i < delta.Length0 && 0 <= l < delta.Length1 ==>
        delta[i, l] == old(delta[i, l]) + if l == j && i in u then diff else 0.0
    {
      for k := 0 to |u|
        invariant forall i, l :: 0 <= i < delta.Length0 && 0 <= l < delta.Length1 ==>
          delta[i, l] == old(delta[i, l]) + if l == j && i in u[..k] then diff else 0.0
      {
        assert u[..k + 1] == u[..k] + [u[k]];
        assert u[k] !in u[..k];
        delta[u[k], j] := delta[u[k], j] + diff;
      }
      assert u[..|u|] == u;
    }

    /** After a row was closed: rows whose largest cost stood in the column. */
    method UpdateRows(minJ: nat, u: seq<nat>, v: seq<nat>, ur: array<real>, delta: array2<real>)
      requires Sized() && minJ < n2 && ur.Length == n1 && delta.Length0 == n1 && delta.Length1 == n2
      requires NoRepeat(u) && (forall k :: 0 <= k < |u| ==> u[k] < n1)
      requires NoRepeat(v) && forall k :: 0 <= k < |v| ==> v[k] < n2
      modifies ur, delta
      ensures forall i, j :: 0 <= i < n1 && 0 <= j < n2 ==> delta[i, j] <= old(delta[i, j]) + Tiny(maxC)
    {
      ghost var step := Tiny(maxC);
      for q := 0 to |u|
        invariant forall i, j :: 0 <= i < n1 && 0 <= j < n2 ==> delta[i, j] <= old(delta[i, j]) + step
        invariant forall k, j :: 0 <= j < n2 && q <= k < |u| ==> delta[u[k], j] == old(delta[u[k], j])
      {
        var i := u[q];
        if ur[i] == c[i][minJ] {
          var oldVal := ur[i];
          ur[i] := -EMD_INFINITY;
          for k := 0 to |v|
            modifies ur
          {
            if ur[i] <= c[i][v[k]] {
              ur[i] := c[i][v[k]];
            }
          }
          var diff := oldVal - ur[i];
          if -Tiny(maxC) < diff < Tiny(maxC) {
            AddAcross(v, i, diff, delta);
          }
        }
      }
    }

    method AddAcross(v: seq<nat>, i: nat, diff: real, delta: array2<real>)
      requires NoRepeat(v) && i < delta.Length0 && forall k :: 0 <= k < |v| ==> v[k] < delta.Length1
      modifies delta
      ensures forall l, j :: 0 <= l < delta.Length0 && 0 <= j < delta.Length1 ==>
        delta[l, j] == old(delta[l, j]) + if l == i && j in v then diff else 0.0
    {
      for k := 0 to |v|
        invariant forall l, j :: 0 <= l < delta.Length0 && 0 <= j < delta.Length1 ==>
          delta[l, j] == old(delta[l, j]) + if l == i && j in v[..k] then diff else 0.0
      {
        assert v[..k + 1] == v[..k] + [v[k]];
        assert v[k] !in v[..k];
        delta[i, v[k]] := delta[i, v[k]] + diff;
      }
      assert v[..|v|] == v;
    }

    ghost predicate Below(delta: array2<real>, bound: real)
      reads delta
    {
      forall i, j :: 0 <= i < delta.Length0 && 0 <= j < delta.Length1 ==> delta[i, j] <= bound
    }

    method FirstDelta(ur: array<real>, vr: array<real>) returns (delta: array2<real>)
      requires Sized() && ur.Length == n1 && vr.Length == n2
      requires forall i :: 0 <= i < n1 ==> ur[i] == Highest(c[i])
      requires forall j :: 0 <= j < n2 ==> vr[j] == Highest(Column(c, n2, j))
      ensures fresh(delta) && delta.Length0 == n1 && delta.Length1 == n2 && Below(delta, 0.0) && Measures(delta)
    {
      hide Highest;
      delta := new real[n1, n2]((_, _) => 0.0);
      for i := 0 to n1
        invariant Below(delta, 0.0)
        invariant forall k, l :: 0 <= k < i && 0 <= l < n2 ==> delta[k, l] == Measure(c, n1, n2, k, l)
        modifies delta
      {
        for j := 0 to n2
          invariant Below(delta, 0.0)
          invariant forall k, l :: 0 <= k < i && 0 <= l < n2 ==> delta[k, l] == Measure(c, n1, n2, k, l)
          invariant forall l :: 0 <= l < j ==> delta[i, l] == Measure(c, n1, n2, i, l)
          modifies delta
        {
          assert 0.0 <= c[i][j] <= ur[i] && c[i][j] == Column(c, n2, j)[i] <= vr[j];
          delta[i, j] := c[i][j] - ur[i] - vr[j];
        }
      }
    }

    ghost predicate Measures(delta: array2<real>)
      requires Sized()
      reads delta
    {
      && delta.Length0 == n1 && delta.Length1 == n2
      && forall i, j :: 0 <= i < n1 && 0 <= j < n2 ==> delta[i, j] == Measure(c, n1, n2, i, j)
    }

    /** The plan so far: out of order if a step overshot, and connected through what is still open. */
    ghost predicate PlanGrows(xs: seq<Slot>, s: seq<real>, d: seq<real>, u: seq<nat>, v: seq<nat>, unit: real,
                              over: bool) {
      && Rough(xs, supply, demand, s, d, u, v, Tiny(maxW)) && (over <==> !InOrder(xs, d))
      && (Exact(unit) ==> Multiples(s, unit) && Multiples(d, unit) && !over)
      && Hanging(xs, u, v, n1, n2)
    }

    /** The slots so far make up the plan so far; the others are untouched. */
    ghost predicate Growing(s: seq<real>, d: seq<real>, u: seq<nat>, v: seq<nat>, unit: real)
      reads this, x, isX
    {
      LinksGrow() && PlanGrows(x[..endX], s, d, u, v, unit, overshot)
    }

    /** Russel: cell after cell until no column is left; then one slot stays empty. */
    method Russel(s: array<real>, d: array<real>, ghost unit: real)
      requires Sized() && s != d && !overshot && Sums.Times(n1 + n2, Tiny(maxC)) < EMD_INFINITY
      requires s[..] == supply && d[..] == demand && NoneNegative(supply) && NoneNegative(demand)
      requires Sum(supply) - Sum(demand) <= Tiny(maxW)
      requires endX == 0 && rows == seq(n1, _ => []) && cols == seq(n2, _ => [])
      requires forall i, j :: 0 <= i < n1 && 0 <= j < n2 ==> !isX[i, j]
      requires forall k :: 0 <= k < x.Length ==> x[k] == Slot(0, 0, 0.0)
      modifies this, x, isX, s, d
      ensures Tree() && NearlyShips(x[..], supply, demand, Tiny(maxW))
      ensures Feasible(x[..], supply, demand) <==> Sum(supply) == Sum(demand) && !overshot
      ensures Exact(unit) ==> !overshot
      ensures StartsRight(x[0])
    {
      hide Growing, Tree, NearlyShips, Feasible, StartsRight, Measures, Exact, Below, Sum;
      var u: seq<nat> := seq(n1, k requires 0 <= k => k);
      var v: seq<nat> := seq(n2, k requires 0 <= k => k);
      GrowingStarts(u, v, unit);
      var ur, vr := Largest();
      var delta := FirstDelta(ur, vr);
      u, v := RusselRounds(s, d, u, v, ur, vr, delta, unit);
      FinishPlan(s[..], d[..], u, v, unit);
    }

    method RusselRounds(s: array<real>, d: array<real>, u: seq<nat>, v: seq<nat>, ur: array<real>, vr: array<real>,
                        delta: array2<real>, ghost unit: real)
      returns (u': seq<nat>, v': seq<nat>)
      requires Growing(s[..], d[..], u, v, unit) && |u| == n1 && |v| == n2 && Opening(s[..], d[..], u, v, delta)
      requires s != d && ur != s && ur != d && vr != s && vr != d
      requires ur.Length == n1 && vr.Length == n2 && delta.Length0 == n1 && delta.Length1 == n2
      requires Below(delta, 0.0) && Sums.Times(n1 + n2, Tiny(maxC)) < EMD_INFINITY
      modifies this`rows, this`cols, this`endX, this`overshot, x, isX, s, d, ur, vr, delta
      ensures Growing(s[..], d[..], u', v', unit) && v' == [] && endX > 0 && StartsRight(x[0])
    {
      hide Growing, Below, StartsRight, Sums.Times;
      assert Sums.Times(0, Tiny(maxC)) == 0.0 by { TimesIsProduct(0, Tiny(maxC)); }
      u', v' := u, v;
      ghost var round := 0;
      while true
        invariant Growing(s[..], d[..], u', v', unit) && round + |u'| + |v'| <= n1 + n2
        invariant Below(delta, Sums.Times(round, Tiny(maxC)))
        invariant Opening(s[..], d[..], u', v', delta) || (endX > 0 && StartsRight(x[0]))
        decreases |u'| + |v'|
      {
        StepsBound(round, n1 + n2, Tiny(maxC));
        assert Sums.Times(round + 1, Tiny(maxC)) == Sums.Times(round, Tiny(maxC)) + Tiny(maxC) by {
          OneStepMore(round, Tiny(maxC));
        }
        var found;
        found, u', v' := RusselTurn(s, d, u', v', ur, vr, delta, unit, Sums.Times(round, Tiny(maxC)));
        if !found {
          break;
        }
        round := round + 1;
        if u' == [] && v' == [] {
          break;
        }
      }
    }

    lemma OneStepMore(n: nat, step: real)
      ensures Sums.Times(n + 1, step) == Sums.Times(n, step) + step
    {
    }

    /** Nothing has been shipped yet. */
    ghost predicate Opening(s: seq<real>, d: seq<real>, u: seq<nat>, v: seq<nat>, delta: array2<real>)
      reads this`endX, delta
    {
      && Sized() && endX == 0 && s == supply && d == demand && Measures(delta) && |u| == n1 && |v| == n2
      && (forall k :: 0 <= k < |u| ==> u[k] == k) && forall k :: 0 <= k < |v| ==> v[k] == k
    }

    /** A round keeps the first slot right. */
    method RusselTurn(s: array<real>, d: array<real>, u: seq<nat>, v: seq<nat>, ur: array<real>, vr: array<real>,
                      delta: array2<real>, ghost unit: real, ghost bound: real)
      returns (found: bool, u': seq<nat>, v': seq<nat>)
      requires Growing(s[..], d[..], u, v, unit)
      requires s != d && ur != s && ur != d && vr != s && vr != d
      requires ur.Length == n1 && vr.Length == n2 && delta.Length0 == n1 && delta.Length1 == n2
      requires Below(delta, bound) && bound < EMD_INFINITY
      requires Opening(s[..], d[..], u, v, delta) || (endX > 0 && StartsRight(x[0]))
      modifies this`rows, this`cols, this`endX, this`overshot, x, isX, s, d, ur, vr, delta
      ensures found <==> v != []
      ensures !found ==> u' == u && v' == v
      ensures found ==> |u'| + |v'| < |u| + |v|
      ensures Growing(s[..], d[..], u', v', unit) && Below(delta, bound + Tiny(maxC))
      ensures endX > 0 && StartsRight(x[0])
    {
      GrowingMeans(s[..], d[..], u, v, unit);
      hide Growing, Below, Tiny, Allocate, FirstPick, Overshoots, Measures;
      ghost var pu, pv;
      found, u', v', pu, pv := RusselStep(s, d, u, v, ur, vr, delta, unit, bound);
      assert !found ==> x[..][0] == old(x[..])[0];
    }

    lemma GrowingStarts(u: seq<nat>, v: seq<nat>, unit: real)
      requires Sized() && !overshot && NoneNegative(supply) && NoneNegative(demand)
      requires endX == 0 && rows == seq(n1, _ => []) && cols == seq(n2, _ => [])
      requires |u| == n1 && |v| == n2 && (forall k :: 0 <= k < |u| ==> u[k] == k)
      requires forall k :: 0 <= k < |v| ==> v[k] == k
      requires forall i, j :: 0 <= i < n1 && 0 <= j < n2 ==> !isX[i, j]
      requires forall k :: 0 <= k < x.Length ==> x[k] == Slot(0, 0, 0.0)
      ensures Growing(supply, demand, u, v, unit)
    {
      RoughStarts(supply, demand, u, v, Tiny(maxW));
      HangsAtFirst(u, v);
      assert x[..endX] == [];
    }

    /** One round of Russel: takes the cell of the smallest delta, or finds none. */
    method RusselStep(s: array<real>, d: array<real>, u: seq<nat>, v: seq<nat>, ur: array<real>, vr: array<real>,
                      delta: array2<real>, ghost unit: real, ghost bound: real)
      returns (found: bool, u': seq<nat>, v': seq<nat>, ghost pu: nat, ghost pv: nat)
      requires Growing(s[..], d[..], u, v, unit)
      requires s != d && ur != s && ur != d && vr != s && vr != d
      requires ur.Length == n1 && vr.Length == n2 && delta.Length0 == n1 && delta.Length1 == n2
      requires Below(delta, bound) && bound < EMD_INFINITY
      modifies this`rows, this`cols, this`endX, this`overshot, x, isX, s, d, ur, vr, delta
      ensures found <==> v != []
      ensures !found ==> u' == u && v' == v && endX == old(endX) && x[..] == old(x[..]) && overshot == old(overshot)
      ensures found ==> |u'| + |v'| < |u| + |v| && Taken(s, d, u, v, pu, pv)
      ensures Growing(s[..], d[..], u', v', unit)
      ensures Below(delta, bound + Tiny(maxC))
      ensures found && old(Opening(s[..], d[..], u, v, delta)) ==> FirstPick(c, n1, n2, u[pu], v[pv])
    {
      hide Growing, Allocate, FirstPick, Overshoots, Sized, Closed, Opening;
      GrowingMeans(s[..], d[..], u, v, unit);
      var qu, qv;
      u', v' := u, v;
      found, qu, qv := Smallest(u, v, delta);
      pu, pv := qu, qv;
      if !found {
        return;
      }
      if Opening(s[..], d[..], u, v, delta) { PickIsFirst(s[..], d[..], u, v, delta, qu, qv); }
      u', v' := AddBasicVariable(s, d, u, v, qu, qv, unit);
      UpdateDeltas(u[qu], v[qv], |u'| == |u|, s, d, u', v', ur, vr, delta, unit);
    }

    /** What AddBasicVariable did at row u[pu] and column v[pv]. */
    twostate predicate Taken(s: array<real>, d: array<real>, u: seq<nat>, v: seq<nat>, pu: nat, pv: nat)
      reads this`endX, this`overshot, x, s, d
    {
      && pu < |u| && pv < |v| && u[pu] < s.Length && v[pv] < d.Length && OneMoreSlot(s, d, u[pu], v[pv])
      && overshot == (old(overshot) || Overshoots(old(s[u[pu]]), old(d[v[pv]]), Tiny(maxW)))
    }

    /** The next slot holds what was shipped from row i to column j; the ones before are as they were. */
    twostate predicate OneMoreSlot(s: array<real>, d: array<real>, i: nat, j: nat)
      requires i < s.Length && j < d.Length
      reads this`endX, x, s, d
    {
      && endX == old(endX) + 1 <= x.Length && (forall k :: 0 <= k < old(endX) ==> x[k] == old(x[k]))
      && x[old(endX)] == Slot(i, j, Allocate(old(s[i]), old(d[j]), Tiny(maxW)).0)
    }

    method UpdateDeltas(minI: nat, minJ: nat, rowStays: bool, s: array<real>, d: array<real>, u: seq<nat>, v: seq<nat>,
                        ur: array<real>, vr: array<real>, delta: array2<real>, ghost unit: real)
      requires Growing(s[..], d[..], u, v, unit) && minI < n1 && minJ < n2
      requires ur != s && ur != d && vr != s && vr != d
      requires ur.Length == n1 && vr.Length == n2 && delta.Length0 == n1 && delta.Length1 == n2
      modifies ur, vr, delta
      ensures forall i, j :: 0 <= i < n1 && 0 <= j < n2 ==> delta[i, j] <= old(delta[i, j]) + Tiny(maxC)
    {
      GrowingMeans(s[..], d[..], u, v, unit);
      hide Growing;
      if rowStays {
        UpdateColumns(minI, u, v, vr, delta);
      } else {
        UpdateRows(minJ, u, v, ur, delta);
      }
    }

    lemma PickIsFirst(s: seq<real>, d: seq<real>, u: seq<nat>, v: seq<nat>, delta: array2<real>, pu: nat, pv: nat)
      requires Opening(s, d, u, v, delta) && pu < |u| && pv < |v|
      requires forall k, l :: 0 <= k < |u| && 0 <= l < |v| ==> delta[u[pu], v[pv]] <= delta[u[k], v[l]]
      requires forall k, l :: 0 <= k < |u| && 0 <= l < |v| && (k < pu || (k == pu && l < pv)) ==>
        delta[u[pu], v[pv]] < delta[u[k], v[l]]
      ensures FirstPick(c, n1, n2, u[pu], v[pv])
    {
      hide Measure;
      forall k: nat, l: nat | k < n1 && l < n2
        ensures Measure(c, n1, n2, pu, pv) <= Measure(c, n1, n2, k, l)
        ensures k < pu || (k == pu && l < pv) ==> Measure(c, n1, n2, pu, pv) < Measure(c, n1, n2, k, l)
      {
        assert delta[u[k], v[l]] == Measure(c, n1, n2, k, l);
      }
    }

    lemma StepsBound(k: nat, n: nat, step: real)
      requires k <= n && step >= 0.0
      ensures Sums.Times(k, step) <= Sums.Times(n, step)
    {
      TimesIsProduct(k, step);
      TimesIsProduct(n, step);
      TimesMono(step, k as real, n as real);
    }

    /** The finished plan, and the empty slot after it. */
    method FinishPlan(ghost s: seq<real>, ghost d: seq<real>, ghost u: seq<nat>, ghost v: seq<nat>, ghost unit: real)
      requires Growing(s, d, u, v, unit) && v == [] && endX > 0 && Sum(supply) - Sum(demand) <= Tiny(maxW)
      modifies this`endX, this`enterX
      ensures Tree() && NearlyShips(x[..], supply, demand, Tiny(maxW))
      ensures Feasible(x[..], supply, demand) <==> Sum(supply) == Sum(demand) && !overshot
      ensures Exact(unit) ==> !overshot
    {
      hide Rough, InOrder, Hanging, Connected, Feasible, Linked, Apart, Exact, RowSum, ColSum, Sums.Times, Sum;
      ghost var xs := x[..endX];
      RoughEnds(xs, supply, demand, s, d, u, v, Tiny(maxW));
      FeasibleInOrder(xs, supply, demand, s, d, u, v, Tiny(maxW));
      HangsTogether(xs, u, n1, n2);
      assert x[..] == xs + [Slot(0, 0, 0.0)];
      IdleLast(xs, supply, demand, Tiny(maxW));
      SameSlots(x[..], endX, rows, cols);
      SameConnected(xs, endX, endX, x[..], endX + 1, endX, n1, n2);
      enterX := endX;
      endX := endX + 1;
    }

    lemma IdleLast(xs: seq<Slot>, supply: seq<real>, demand: seq<real>, tolerance: real)
      requires supply != [] && demand != [] && tolerance >= 0.0
      ensures NearlyShips(xs, supply, demand, tolerance) ==>
        NearlyShips(xs + [Slot(0, 0, 0.0)], supply, demand, tolerance)
      ensures Feasible(xs, supply, demand) <==> Feasible(xs + [Slot(0, 0, 0.0)], supply, demand)
    {
      var ys := xs + [Slot(0, 0, 0.0)];
      assert ys[..|xs|] == xs;
      forall k | 0 <= k < |xs| ensures xs[k] == ys[k] {}
    }

    lemma SameSlots(xs: seq<Slot>, n: nat, rows: seq<seq<nat>>, cols: seq<seq<nat>>)
      requires n + 1 == |xs| && Linked(xs, n, n, rows, cols) && Apart(xs, n, n)
      ensures forall k: nat :: Live(k, n, n) <==> Live(k, n + 1, n)
      ensures Linked(xs, n + 1, n, rows, cols) && Apart(xs, n + 1, n)
    {
      forall i | 0 <= i < |rows| ensures RowChain(xs, n + 1, n, i, rows[i]) { assert RowChain(xs, n, n, i, rows[i]); }
      forall j | 0 <= j < |cols| ensures ColChain(xs, n + 1, n, j, cols[j]) { assert ColChain(xs, n, n, j, cols[j]); }
    }

    // -------------------------------------------------------------- dual prices

    /** FindBasicVariables: a price for every row and column. */
    method FindBasicVariables(u: array<real>, v: array<real>)
      requires Tree() && u.Length == n1 && v.Length == n2 && u != v
      modifies u, v
      ensures Tree()
      ensures forall k: nat :: Live(k, x.Length, enterX) ==> Tight(c, x[k], u[..], v[..])
      ensures Bounded(u[..], [], Sums.Times(n1 + n2, maxC)) && Bounded(v[..], [], Sums.Times(n1 + n2, maxC))
    {
      hide Followed, Connected, Linked, Apart, Marks, Bounded, Tight;
      var u0: seq<nat> := seq(n1, k requires 0 <= k => k);
      var v0: seq<nat> := seq(n2 - 1, k requires 0 <= k => k + 1);
      var u1: seq<nat>, v1: seq<nat> := [], [0];
      v[0] := 0.0;
      var uFound, vFound := 0, 0;
      ghost var tight: set<nat> := {};
      PricingStarts(u0, v0, u[..], v[..]);
      while uFound < n1 || vFound < n2
        invariant Tree() && Pricing(c, maxC, x[..], enterX, u0, v0, u[..], v[..], tight)
        invariant Known(u0, u1, n1) && Known(v0, v1, n2) && Followed(u0, u1, v0, v1) && 0 !in v0
        invariant uFound + |u0| + |u1| == n1 && vFound + |v0| + |v1| == n2
        decreases n1 + n2 - uFound - vFound
      {
        var found := false;
        if vFound < n2 {
          found := v1 != [];
          u0, u1, tight := MarkRows(v1, u0, v0, u1, u, v, tight);
          vFound := vFound + |v1|;
          v1 := [];
        }
        if uFound < n1 {
          found := found || u1 != [];
          v0, v1, tight := MarkColumns(u1, u0, v0, v1, u, v, tight);
          uFound := uFound + |u1|;
          u1 := [];
        }
        if !found {
          NothingStuck(u0, v0);
          assert false;
        }
      }
      AllTight(c, maxC, x[..], enterX, u[..], v[..], tight);
      assert |tight| + 1 == n1 + n2;
    }

    lemma PricingStarts(u0: seq<nat>, v0: seq<nat>, u: seq<real>, v: seq<real>)
      requires Tree() && |u| == n1 == |u0| && |v| == n2 == |v0| + 1 && v[0] == 0.0
      requires (forall k :: 0 <= k < |u0| ==> u0[k] == k) && forall k :: 0 <= k < |v0| ==> v0[k] == k + 1
      ensures Pricing(c, maxC, x[..], enterX, u0, v0, u, v, {}) && Followed(u0, [], v0, [0]) && 0 !in v0
    {
      PricingBegins(c, maxC, x[..], enterX, u0, v0, u, v);
    }

    /**
      The basic cells of the columns (rows) whose price is known and that are no longer marked lead to known prices.
     */
    ghost predicate Followed(u0: seq<nat>, u1: seq<nat>, v0: seq<nat>, v1: seq<nat>)
      reads isX
    {
      forall i: nat, j: nat :: i < isX.Length0 && j < isX.Length1 && isX[i, j] ==>
        (j in v0 || j in v1 || i !in u0) && (i in u0 || i in u1 || j !in v0)
    }

    lemma RowMarked(u0: seq<nat>, u1: seq<nat>, v0: seq<nat>, v1: seq<nat>, pos: nat)
      requires Followed(u0, u1, v0, v1) && NoRepeat(u0) && pos < |u0|
      ensures Followed(Without(u0, pos), [u0[pos]] + u1, v0, v1)
    {
      WithoutMeans(u0, pos);
    }

    lemma ColumnMarked(u0: seq<nat>, u1: seq<nat>, v0: seq<nat>, v1: seq<nat>, pos: nat)
      requires Followed(u0, u1, v0, v1) && NoRepeat(v0) && pos < |v0|
      ensures Followed(u0, u1, Without(v0, pos), [v0[pos]] + v1)
    {
      WithoutMeans(v0, pos);
    }

    /** The first marked column is done: none of its cells is in an open row. */
    lemma ColumnDone(u0: seq<nat>, u1: seq<nat>, v0: seq<nat>, v1: seq<nat>)
      requires Followed(u0, u1, v0, v1) && v1 != [] && v1[0] < isX.Length1
      requires forall k :: 0 <= k < |u0| ==> u0[k] < isX.Length0 && !isX[u0[k], v1[0]]
      ensures Followed(u0, u1, v0, v1[1..])
    {
      assert v1 == [v1[0]] + v1[1..];
    }

    lemma RowDone(u0: seq<nat>, u1: seq<nat>, v0: seq<nat>, v1: seq<nat>)
      requires Followed(u0, u1, v0, v1) && u1 != [] && u1[0] < isX.Length0
      requires forall k :: 0 <= k < |v0| ==> v0[k] < isX.Length1 && !isX[u1[0], v0[k]]
      ensures Followed(u0, u1[1..], v0, v1)
    {
      assert u1 == [u1[0]] + u1[1..];
    }

    /** With nothing marked every price is known: the basic cells connect all rows and columns. */
    lemma NothingStuck(u0: seq<nat>, v0: seq<nat>)
      requires Tree() && Followed(u0, [], v0, []) && Inside(u0, n1) && Inside(v0, n2) && 0 !in v0
      ensures u0 == [] && v0 == []
    {
      if u0 != [] || v0 != [] {
        var k := HalfPriced(x[..], enterX, u0, v0, n1, n2);
        BothPriced(u0, v0, k);
      }
    }

    lemma BothPriced(u0: seq<nat>, v0: seq<nat>, k: nat)
      requires Tree() && Followed(u0, [], v0, []) && Live(k, x.Length, enterX)
      ensures x[k].i in u0 <==> x[k].j in v0
    {
      assert Used(x[..], endX, enterX, x[..][k].i, x[..][k].j);
      assert isX[x[k].i, x[k].j];
    }

    /** marked lists rows (or columns) whose price is known, open those where it is not. */
    ghost predicate Known(open: seq<nat>, marked: seq<nat>, n: nat) {
      forall k :: 0 <= k < |marked| ==> marked[k] < n && marked[k] !in open
    }

    /** For all marked columns: the rows of their basic cells get a price and are marked. */
    method MarkRows(v1: seq<nat>, u0: seq<nat>, v0: seq<nat>, u1: seq<nat>, u: array<real>, v: array<real>,
                    ghost tight: set<nat>)
      returns (u0': seq<nat>, u1': seq<nat>, ghost tight': set<nat>)
      requires Tree() && u.Length == n1 && v.Length == n2 && u != v
      requires Pricing(c, maxC, x[..], enterX, u0, v0, u[..], v[..], tight) && Known(u0, u1, n1) && Known(v0, v1, n2)
      requires Followed(u0, u1, v0, v1)
      modifies u
      ensures Tree() && Pricing(c, maxC, x[..], enterX, u0', v0, u[..], v[..], tight') && Known(u0', u1', n1)
      ensures Followed(u0', u1', v0, []) && |u0'| + |u1'| == |u0| + |u1|
      ensures v1 == [] ==> u1' == u1
    {
      u0', u1', tight' := u0, u1, tight;
      assert v1[0..] == v1;
      for q := 0 to |v1|
        invariant Tree() && Pricing(c, maxC, x[..], enterX, u0', v0, u[..], v[..], tight') && Known(u0', u1', n1)
        invariant Followed(u0', u1', v0, v1[q..]) && |u0'| + |u1'| == |u0| + |u1|
        invariant q == 0 ==> u1' == u1
      {
        u0', u1', tight' := MarkRowsOf(v1[q], u0', v0, u1', u, v, tight', v1[q..]);
        ColumnDone(u0', u1', v0, v1[q..]);
        assert v1[q..][1..] == v1[q + 1..];
      }
    }

    method MarkRowsOf(j: nat, u0: seq<nat>, v0: seq<nat>, u1: seq<nat>, u: array<real>, v: array<real>,
                      ghost tight: set<nat>,
                      ghost v1: seq<nat>)
      returns (u0': seq<nat>, u1': seq<nat>, ghost tight': set<nat>)
      requires Tree() && u.Length == n1 && v.Length == n2 && u != v && j < n2 && j !in v0
      requires Pricing(c, maxC, x[..], enterX, u0, v0, u[..], v[..], tight)
      requires Known(u0, u1, n1) && Followed(u0, u1, v0, v1)
      modifies u
      ensures Tree() && Pricing(c, maxC, x[..], enterX, u0', v0, u[..], v[..], tight') && Known(u0', u1', n1)
      ensures Followed(u0', u1', v0, v1) && |u0'| + |u1'| == |u0| + |u1|
      ensures forall k :: 0 <= k < |u0'| ==> u0'[k] < n1 && !isX[u0'[k], j]
    {
      hide Followed, Connected, Linked, Apart, Marks, Bounded, Tight;
      u0', u1', tight' := u0, u1, tight;
      var pos := 0;
      while pos < |u0'|
        invariant pos <= |u0'| && |u0'| + |u1'| == |u0| + |u1| && Followed(u0', u1', v0, v1)
        invariant Tree() && Pricing(c, maxC, x[..], enterX, u0', v0, u[..], v[..], tight') && Known(u0', u1', n1)
        invariant forall k :: 0 <= k < pos ==> !isX[u0'[k], j]
        decreases |u0'| - pos
      {
        if isX[u0'[pos], j] {
          u0', u1', tight' := MarkRow(j, u0', v0, u1', pos, u, v, tight', v1);
        } else {
          pos := pos + 1;
        }
      }
    }

    method MarkRow(j: nat, u0: seq<nat>, v0: seq<nat>, u1: seq<nat>, pos: nat, u: array<real>, v: array<real>,
                   ghost tight: set<nat>,
                   ghost v1: seq<nat>)
      returns (u0': seq<nat>, u1': seq<nat>, ghost tight': set<nat>)
      requires Tree() && u.Length == n1 && v.Length == n2 && u != v && pos < |u0| && j < n2 && j !in v0
      requires Pricing(c, maxC, x[..], enterX, u0, v0, u[..], v[..], tight)
      requires Known(u0, u1, n1) && Followed(u0, u1, v0, v1)
      requires isX[u0[pos], j]
      modifies u
      ensures Tree() && Pricing(c, maxC, x[..], enterX, u0', v0, u[..], v[..], tight') && Known(u0', u1', n1)
      ensures u0' == Without(u0, pos) && u1' == [u0[pos]] + u1 && Followed(u0', u1', v0, v1)
    {
      var i := u0[pos];
      tight' := PriceRow(c, maxC, x[..], enterX, u0, v0, u[..], v[..], tight, pos, j);
      WithoutMeans(u0, pos);
      RowMarked(u0, u1, v0, v1, pos);
      u[i] := c[i][j] - v[j];
      assert u[..] == old(u[..])[i := c[i][j] - v[j]];
      u0', u1' := Without(u0, pos), [i] + u1;
    }

    /** For all marked rows: the columns of their basic cells get a price and are marked. */
    method MarkColumns(u1: seq<nat>, u0: seq<nat>, v0: seq<nat>, v1: seq<nat>, u: array<real>, v: array<real>,
                       ghost tight: set<nat>)
      returns (v0': seq<nat>, v1': seq<nat>, ghost tight': set<nat>)
      requires Tree() && u.Length == n1 && v.Length == n2 && u != v
      requires Pricing(c, maxC, x[..], enterX, u0, v0, u[..], v[..], tight) && Known(u0, u1, n1) && Known(v0, v1, n2)
      requires Followed(u0, u1, v0, v1) && 0 !in v0
      modifies v
      ensures Tree() && Pricing(c, maxC, x[..], enterX, u0, v0', u[..], v[..], tight') && Known(v0', v1', n2)
      ensures Followed(u0, [], v0', v1') && |v0'| + |v1'| == |v0| + |v1| && 0 !in v0'
      ensures u1 == [] ==> v1' == v1
    {
      v0', v1', tight' := v0, v1, tight;
      assert u1[0..] == u1;
      for q := 0 to |u1|
        invariant Tree() && Pricing(c, maxC, x[..], enterX, u0, v0', u[..], v[..], tight') && Known(v0', v1', n2)
        invariant Followed(u0, u1[q..], v0', v1') && |v0'| + |v1'| == |v0| + |v1| && 0 !in v0'
        invariant q == 0 ==> v1' == v1
      {
        v0', v1', tight' := MarkColumnsOf(u1[q], u0, v0', v1', u, v, tight', u1[q..]);
        RowDone(u0, u1[q..], v0', v1');
        assert u1[q..][1..] == u1[q + 1..];
      }
    }

    method MarkColumnsOf(i: nat, u0: seq<nat>, v0: seq<nat>, v1: seq<nat>, u: array<real>, v: array<real>,
                         ghost tight: set<nat>,
                         ghost u1: seq<nat>)
      returns (v0': seq<nat>, v1': seq<nat>, ghost tight': set<nat>)
      requires Tree() && u.Length == n1 && v.Length == n2 && u != v && i < n1 && i !in u0 && 0 !in v0
      requires Pricing(c, maxC, x[..], enterX, u0, v0, u[..], v[..], tight)
      requires Known(v0, v1, n2) && Followed(u0, u1, v0, v1)
      modifies v
      ensures Tree() && Pricing(c, maxC, x[..], enterX, u0, v0', u[..], v[..], tight') && Known(v0', v1', n2)
      ensures Followed(u0, u1, v0', v1') && |v0'| + |v1'| == |v0| + |v1| && 0 !in v0'
      ensures forall k :: 0 <= k < |v0'| ==> v0'[k] < n2 && !isX[i, v0'[k]]
    {
      hide Followed, Connected, Linked, Apart, Marks, Bounded, Tight;
      v0', v1', tight' := v0, v1, tight;
      var pos := 0;
      while pos < |v0'|
        invariant pos <= |v0'| && |v0'| + |v1'| == |v0| + |v1| && Followed(u0, u1, v0', v1') && 0 !in v0'
        invariant Tree() && Pricing(c, maxC, x[..], enterX, u0, v0', u[..], v[..], tight') && Known(v0', v1', n2)
        invariant forall k :: 0 <= k < pos ==> !isX[i, v0'[k]]
        decreases |v0'| - pos
      {
        if isX[i, v0'[pos]] {
          v0', v1', tight' := MarkColumn(i, u0, v0', v1', pos, u, v, tight', u1);
        } else {
          pos := pos + 1;
        }
      }
    }

    method MarkColumn(i: nat, u0: seq<nat>, v0: seq<nat>, v1: seq<nat>, pos: nat, u: array<real>, v: array<real>,
                      ghost tight: set<nat>,
                      ghost u1: seq<nat>)
      returns (v0': seq<nat>, v1': seq<nat>, ghost tight': set<nat>)
      requires Tree() && u.Length == n1 && v.Length == n2 && u != v && pos < |v0| && i < n1 && i !in u0 && 0 !in v0
      requires Pricing(c, maxC, x[..], enterX, u0, v0, u[..], v[..], tight)
      requires Known(v0, v1, n2) && Followed(u0, u1, v0, v1)
      requires isX[i, v0[pos]]
      modifies v
      ensures Tree() && Pricing(c, maxC, x[..], enterX, u0, v0', u[..], v[..], tight') && Known(v0', v1', n2)
      ensures v0' == Without(v0, pos) && v1' == [v0[pos]] + v1 && Followed(u0, u1, v0', v1') && 0 !in v0'
    {
      var j := v0[pos];
      tight' := PriceCol(c, maxC, x[..], enterX, u0, v0, u[..], v[..], tight, pos, i);
      WithoutMeans(v0, pos);
      ColumnMarked(u0, u1, v0, v1, pos);
      v[j] := c[i][j] - u[i];
      assert v[..] == old(v[..])[j := c[i][j] - u[i]];
      v0', v1' := Without(v0, pos), [j] + v1;
    }

    // -------------------------------------------------------------- the optimality test

    /** IsOptimal: moves the entering slot to the cell cheapest against its prices. */
    method IsOptimal(u: array<real>, v: array<real>) returns (optimal: bool)
      requires Tree() && u.Length == n1 && v.Length == n2 && n1 > 1 && n2 > 1
      requires Bounded(u[..], [], Sums.Times(n1 + n2, maxC)) && Bounded(v[..], [], Sums.Times(n1 + n2, maxC))
      modifies x
      ensures Tree() && SameSums(old(x[..]), x[..])
      ensures forall k: nat :: Live(k, x.Length, enterX) ==> x[k] == old(x[k])
      ensures !isX[x[enterX].i, x[enterX].j]
      ensures forall i, j :: 0 <= i < n1 && 0 <= j < n2 && !isX[i, j] ==>
        c[i][j] - u[i] - v[j] >= c[x[enterX].i][x[enterX].j] - u[x[enterX].i] - v[x[enterX].j]
      ensures optimal <==> forall i, j :: 0 <= i < n1 && 0 <= j < n2 && !isX[i, j] ==>
        c[i][j] - u[i] - v[j] >= -Tiny(maxC)
      ensures optimal <==> Reduced(x[enterX], c, u[..], v[..]) >= -Tiny(maxC)
    {
      var minI, minJ, deltaMin := LeastReduced(u, v);
      SomeCandidate(u, v, minI, minJ, deltaMin);
      if deltaMin == EMD_INFINITY {
        assert false;
      }
      MoveEntering(minI, minJ);
      optimal := deltaMin >= -Tiny(maxC);
    }

    method LeastReduced(u: array<real>, v: array<real>) returns (minI: nat, minJ: nat, deltaMin: real)
      requires Sized() && u.Length == n1 && v.Length == n2
      ensures Cheapest(u, v, minI, minJ, deltaMin, n1, 0)
    {
      minI, minJ, deltaMin := 0, 0, EMD_INFINITY;
      for i := 0 to n1
        invariant Cheapest(u, v, minI, minJ, deltaMin, i, 0)
      {
        for j := 0 to n2
          invariant Cheapest(u, v, minI, minJ, deltaMin, i, j)
        {
          if !isX[i, j] {
            var delta := c[i][j] - u[i] - v[j];
            if deltaMin > delta {
              deltaMin, minI, minJ := delta, i, j;
            }
          }
        }
      }
    }

    /** There is a cell that is not basic, and its reduced cost is finite. */
    lemma SomeCandidate(u: array<real>, v: array<real>, minI: nat, minJ: nat, deltaMin: real)
      requires Tree() && u.Length == n1 && v.Length == n2 && n1 > 1 && n2 > 1
      requires Bounded(u[..], [], Sums.Times(n1 + n2, maxC)) && Bounded(v[..], [], Sums.Times(n1 + n2, maxC))
      requires Cheapest(u, v, minI, minJ, deltaMin, n1, 0)
      ensures deltaMin < EMD_INFINITY
    {
      var i, j := FreeCell();
      AtMostTimes(n1 + n2, 201, maxC, 65535.0);
      assert -Sums.Times(n1 + n2, maxC) <= u[..][i] <= Sums.Times(n1 + n2, maxC);
      assert -Sums.Times(n1 + n2, maxC) <= v[..][j] <= Sums.Times(n1 + n2, maxC);
    }

    /** There are more cells than a basis has. */
    lemma FreeCell() returns (i: nat, j: nat)
      requires Tree() && n1 > 1 && n2 > 1
      ensures i < n1 && j < n2 && !isX[i, j]
    {
      if forall i: nat, j: nat :: i < n1 && j < n2 ==> isX[i, j] {
        var xs, skip := x[..], enterX;
        var slots := seq(n1 + n2, k requires 0 <= k < n1 + n2 => SlotAt(xs, skip, CellOf(k).0, CellOf(k).1));
        forall k | 0 <= k < n1 + n2
          ensures Live(slots[k], |xs|, enterX) && (xs[slots[k]].i, xs[slots[k]].j) == CellOf(k)
        {
          assert isX[CellOf(k).0, CellOf(k).1];
          assert Used(xs, |xs|, enterX, CellOf(k).0, CellOf(k).1);
        }
        forall k, l | 0 <= k < l < |slots| ensures slots[k] != slots[l] { assert CellOf(k) != CellOf(l); }
        var all := slots + [enterX];
        assert NoRepeat(all) && Inside(all, n1 + n2);
        ShortList(all, n1 + n2);
        assert false;
      }
      i, j :| i < n1 && j < n2 && !isX[i, j];
    }

    /** The first row, the rest of the first column, and one cell more. */
    function CellOf(k: nat): (nat, nat)
      requires n1 > 1 && n2 > 1
    {
      if k < n2 then (0, k) else if k < n1 + n2 - 1 then (k - n2 + 1, 0) else (1, 1)
    }

    ghost function SlotAt(xs: seq<Slot>, skip: nat, i: nat, j: nat): (k: nat)
      ensures Used(xs, |xs|, skip, i, j) ==> Live(k, |xs|, skip) && xs[k].i == i && xs[k].j == j
    {
      if Used(xs, |xs|, skip, i, j) then var k: nat :| Live(k, |xs|, skip) && xs[k].i == i && xs[k].j == j; k else 0
    }

    /** deltaMin is the least reduced cost among the cells before (i, j) that are not basic. */
    ghost predicate Cheapest(u: array<real>, v: array<real>, minI: nat, minJ: nat, deltaMin: real, i: nat, j: nat)
      requires Sized() && u.Length == n1 && v.Length == n2
      reads u, v, isX
    {
      && minI < n1 && minJ < n2 && deltaMin <= EMD_INFINITY
      && (deltaMin < EMD_INFINITY ==> !isX[minI, minJ] && deltaMin == c[minI][minJ] - u[minI] - v[minJ])
      && forall i', j' :: 0 <= i' < n1 && 0 <= j' < n2 && (i' < i || (i' == i && j' < j)) && !isX[i', j'] ==>
           deltaMin <= c[i'][j'] - u[i'] - v[j']
    }

    method MoveEntering(i: nat, j: nat)
      requires Tree() && i < n1 && j < n2
      modifies x
      ensures Tree() && x[..] == old(x[..])[enterX := Slot(i, j, 0.0)] && SameSums(old(x[..]), x[..])
    {
      ghost var xs := x[..];
      ghost var s := Slot(i, j, 0.0);
      x[enterX] := x[enterX].(i := i, j := j);
      assert x[..] == xs[enterX := s];
      forall n: nat ensures RowSum(xs[enterX := s], n) == RowSum(xs, n) && ColSum(xs[enterX := s], n) == ColSum(xs, n) {
        IdleSlot(xs, enterX, s, n);
      }
      SameCells(xs, x[..], endX, enterX, rows, cols);
      SameConnected(xs, endX, enterX, x[..], endX, enterX, n1, n2);
    }

    // -------------------------------------------------------------- pivots

    /** used marks the slots of the path. */
    ghost predicate Marked(used: array<bool>, path: seq<nat>)
      reads used
    {
      forall k: nat :: k < used.Length ==> (used[k] <==> k in path)
    }

    /** The first slot of the chain from position from on that is unused; stop ends the search at that slot. */
    method NextUnused(chain: seq<nat>, from: nat, used: array<bool>, stop: int) returns (p: nat)
      requires from <= |chain| && Inside(chain, used.Length)
      ensures from <= p <= |chain|
      ensures p < |chain| ==> chain[p] == stop || !used[chain[p]]
      ensures forall q :: from <= q < p ==> used[chain[q]] && chain[q] != stop
    {
      p := from;
      while p < |chain| && used[chain[p]] && chain[p] != stop
        invariant from <= p <= |chain|
        invariant forall q :: from <= q < p ==> used[chain[q]] && chain[q] != stop
      {
        p := p + 1;
      }
    }

    /** FindLoop: the first loop the search meets.  It meets one, for it cannot pass by the target. */
    method FindLoop(ghost target: seq<nat>) returns (loop: seq<nat>)
      requires Sized() && enterX < x.Length && InGrid(x[..], n1, n2) && |rows| == n1 && |cols| == n2
      requires Linked(x[..], x.Length, x.Length, rows, cols) && FirstInItsColumn()
      requires Loop(x[..], target) && target[0] == enterX
      ensures Loop(x[..], loop) && loop[0] == enterX
    {
      hide Rank, Digits, Ahead, FirstFree, Loop, NoRepeat, Path, Linked;
      ghost var xs := x[..];
      StartsAhead(xs, rows, cols, enterX, target);
      var used := new bool[x.Length](_ => false);
      used[enterX] := true;
      loop := [enterX];
      while true
        invariant loop != [] && loop[0] == enterX && Path(xs, enterX, loop) && Inside(loop, |xs|) && x[..] == xs
        invariant Marked(used, loop) && Ahead(xs, rows, cols, loop, target)
        decreases Rank(Digits(xs, rows, cols, loop), |xs|)
      {
        TargetArrives(xs, loop, target);
        var last := loop[|loop| - 1];
        var next: nat;
        var more: bool;
        if |loop| % 2 == 1 {
          more, next := FirstInRow(last, used, loop);
        } else {
          more, next := FirstInColumn(last, used, loop);
          if more && next == enterX {
            PathCloses(xs, enterX, loop);
            return;
          }
        }
        if more {
          GoDeeper(xs, rows, cols, enterX, loop, target, next);
          Use(used, next, loop);
          loop := loop + [next];
        } else {
          AheadAbove(xs, rows, cols, loop, target);
          loop := Backtrack(loop, used, target);
        }
      }
    }

    /** The path is back in the column where it started. */
    predicate Arrived(xs: seq<Slot>, path: seq<nat>) {
      && path != [] && |path| % 2 == 0 && path[0] < |xs| && path[|path| - 1] < |xs|
      && xs[path[|path| - 1]].j == xs[path[0]].j
    }

    lemma TargetArrives(xs: seq<Slot>, path: seq<nat>, target: seq<nat>)
      requires Loop(xs, target)
      ensures path == target ==> Arrived(xs, path)
    {
    }

    lemma StartsAhead(xs: seq<Slot>, rows: seq<seq<nat>>, cols: seq<seq<nat>>, enter: nat, target: seq<nat>)
      requires InGrid(xs, |rows|, |cols|) && Loop(xs, target) && target[0] == enter
      ensures Inside([enter], |xs|) && Inside(target, |xs|) && Ahead(xs, rows, cols, [enter], target)
      ensures Path(xs, enter, [enter])
    {
    }

    /** The entering slot was put in front. */
    ghost predicate FirstInItsColumn()
      requires Sized() && enterX < x.Length && InGrid(x[..], n1, n2) && |cols| == n2
      reads this, x
    {
      assert x[..][enterX].j < n2;
      cols[x[enterX].j] != [] && cols[x[enterX].j][0] == enterX
    }

    method FirstInRow(last: nat, used: array<bool>, ghost path: seq<nat>) returns (more: bool, next: nat)
      requires Sized() && last < x.Length == used.Length && InGrid(x[..], n1, n2) && |rows| == n1 && |cols| == n2
      requires Linked(x[..], x.Length, x.Length, rows, cols) && Marked(used, path) && |path| % 2 == 1
      ensures more ==> next < x.Length && !used[next] && x[next].i == x[last].i
      ensures more ==> FirstFree(x[..], rows, cols, path, next, |path|)
      ensures !more ==> forall k: nat :: k < x.Length && SameLine(x[..], k, last, |path|) ==> k in path
    {
      var chain := rows[x[last].i];
      assert RowChain(x[..], x.Length, x.Length, x[last].i, chain);
      InsideOf(chain, x.Length);
      var p := NextUnused(chain, 0, used, -1);
      more, next := p < |chain|, 0;
      if more {
        next := chain[p];
        assert next in chain;
        FirstIsFree(x[..], rows, cols, path, chain, p, |path|);
      } else {
        AllTaken(x[..], rows, cols, path, chain, last, |path|);
      }
    }

    method FirstInColumn(last: nat, used: array<bool>, ghost path: seq<nat>) returns (more: bool, next: nat)
      requires Sized() && last < x.Length == used.Length && InGrid(x[..], n1, n2) && |rows| == n1 && |cols| == n2
      requires Linked(x[..], x.Length, x.Length, rows, cols) && Marked(used, path) && |path| % 2 == 0
      requires enterX < x.Length && FirstInItsColumn()
      ensures more ==> next < x.Length && (next == enterX || !used[next]) && x[next].j == x[last].j
      ensures x[last].j == x[enterX].j ==> more && next == enterX
      ensures more && next != enterX ==> FirstFree(x[..], rows, cols, path, next, |path|)
      ensures !more ==> forall k: nat :: k < x.Length && SameLine(x[..], k, last, |path|) ==> k in path
    {
      var chain := cols[x[last].j];
      assert ColChain(x[..], x.Length, x.Length, x[last].j, chain);
      InsideOf(chain, x.Length);
      var p := NextUnused(chain, 0, used, enterX);
      more, next := p < |chain|, 0;
      if more {
        next := chain[p];
        assert next in chain;
        if next != enterX { FirstIsFree(x[..], rows, cols, path, chain, p, |path|); }
      } else {
        AllTaken(x[..], rows, cols, path, chain, last, |path|);
      }
    }

    lemma FirstIsFree(xs: seq<Slot>, rows: seq<seq<nat>>, cols: seq<seq<nat>>, path: seq<nat>, chain: seq<nat>,
                      p: nat, d: nat)
      requires InGrid(xs, |rows|, |cols|) && Linked(xs, |xs|, |xs|, rows, cols) && p < |chain| && chain[p] < |xs|
      requires chain == ChainAt(xs, rows, cols, chain[p], d) && NoRepeat(chain)
      requires forall q :: 0 <= q < p ==> chain[q] in path
      ensures FirstFree(xs, rows, cols, path, chain[p], d)
    {
      forall k: nat | k < |xs| && k !in path && SameLine(xs, k, chain[p], d)
        ensures Remaining(xs, rows, cols, k, d) <= Remaining(xs, rows, cols, chain[p], d)
      {
        assert RowChain(xs, |xs|, |xs|, xs[k].i, rows[xs[k].i]);
        assert ColChain(xs, |xs|, |xs|, xs[k].j, cols[xs[k].j]);
        assert Live(k, |xs|, |xs|);
        IndexOfAt(chain, p);
      }
    }

    lemma AllTaken(xs: seq<Slot>, rows: seq<seq<nat>>, cols: seq<seq<nat>>, path: seq<nat>, chain: seq<nat>,
                   last: nat, d: nat)
      requires InGrid(xs, |rows|, |cols|) && Linked(xs, |xs|, |xs|, rows, cols) && last < |xs|
      requires chain == ChainAt(xs, rows, cols, last, d) && forall q :: 0 <= q < |chain| ==> chain[q] in path
      ensures forall k: nat :: k < |xs| && SameLine(xs, k, last, d) ==> k in path
    {
      forall k: nat | k < |xs| && SameLine(xs, k, last, d) ensures k in path {
        assert RowChain(xs, |xs|, |xs|, xs[k].i, rows[xs[k].i]);
        assert ColChain(xs, |xs|, |xs|, xs[k].j, cols[xs[k].j]);
        assert Live(k, |xs|, |xs|);
      }
    }

    /** Backs up to the last slot whose chain goes on, and takes the next one there. */
    method Backtrack(path: seq<nat>, used: array<bool>, ghost target: seq<nat>) returns (path': seq<nat>)
      requires Sized() && enterX < x.Length == used.Length && InGrid(x[..], n1, n2) && |rows| == n1 && |cols| == n2
      requires Linked(x[..], x.Length, x.Length, rows, cols) && Loop(x[..], target)
      requires path != [] && path[0] == enterX && Path(x[..], enterX, path) && Inside(path, x.Length)
      requires Marked(used, path)
      requires Inside(target, x.Length) && exists e: nat :: AheadAt(x[..], rows, cols, path, target, e)
      modifies used
      ensures path' != [] && path'[0] == enterX && Path(x[..], enterX, path') && Inside(path', x.Length)
      ensures Marked(used, path')
      ensures Rank(Digits(x[..], rows, cols, path'), x.Length) < Rank(Digits(x[..], rows, cols, path), x.Length)
      ensures Ahead(x[..], rows, cols, path', target)
    {
      ghost var xs := x[..];
      ghost var e: nat :| AheadAt(xs, rows, cols, path, target, e);
      var d := |path| - 1;
      assert path[..d + 1] == path;
      while true
        invariant e <= d < |path| && Marked(used, path[..d + 1])
        decreases d
      {
        InsideAt(path, d, xs);
        var more, next := NextInChain(path[d], d, used, path[..d + 1]);
        Unuse(used, path, d);
        if more {
          BackedUp(xs, rows, cols, enterX, path, d, next);
          AheadNext(xs, rows, cols, enterX, path, target, d, e, next);
          Use(used, next, path[..d]);
          return path[..d] + [next];
        }
        if e == d { TargetLater(xs, rows, cols, enterX, path, target, d); }
        d := d - 1;
      }
    }

    lemma InsideAt(path: seq<nat>, d: nat, xs: seq<Slot>)
      requires Inside(path, |xs|) && d < |path|
      ensures path[d] < |xs| && path[d] in path[..d + 1]
    {
      assert path[..d + 1][d] == path[d];
    }

    // -------------------------------------------------------------- the whole computation

    /** No plan without negative amounts that has the same row and column sums is cheaper by more than the tolerance. */
    ghost predicate NearlyCheapest()
      requires Sized() && InGrid(x[..], n1, n2)
      reads x
    {
      var s, d := RowSums(x[..], n1), ColSums(x[..], n2);
      forall ys: seq<Slot> :: Feasible(ys, s, d) ==>
        Cost(x[..], c, n1, n2) <= Cost(ys, c, n1, n2) + Over(Tiny(maxC), Sum(s))
    }

    /** For a feasible plan those are the plans of its supplies and demands. */
    lemma CheapestOfAll()
      requires Sized() && Feasible(x[..], supply, demand) && NearlyCheapest()
      ensures forall ys: seq<Slot> :: Feasible(ys, supply, demand) ==>
        Cost(x[..], c, n1, n2) <= Cost(ys, c, n1, n2) + Over(Tiny(maxC), Sum(supply))
    {
      assert RowSums(x[..], n1) == supply && ColSums(x[..], n2) == demand;
    }

    /** Accepted prices prove the plan nearly cheapest. */
    lemma AcceptanceProves(u: seq<real>, v: seq<real>)
      requires Tree() && |u| == n1 && |v| == n2 && Dual(c, u, v, Tiny(maxC))
      requires forall k: nat :: Live(k, x.Length, enterX) ==> Tight(c, x[k], u, v)
      ensures NearlyCheapest()
    {
      forall k: nat | k < x.Length ensures TightAt(x[..][k], c, u, v) {
        if k != enterX { assert Live(k, x.Length, enterX); }
      }
      Concludes(u, v);
    }

    lemma Concludes(u: seq<real>, v: seq<real>)
      requires Sized() && |u| == n1 && |v| == n2 && InGrid(x[..], n1, n2) && Dual(c, u, v, Tiny(maxC))
      requires forall k :: 0 <= k < x.Length ==> TightAt(x[..][k], c, u, v)
      ensures NearlyCheapest()
    {
      var s, d := RowSums(x[..], n1), ColSums(x[..], n2);
      forall ys: seq<Slot> | Feasible(ys, s, d)
        ensures Cost(x[..], c, n1, n2) <= Cost(ys, c, n1, n2) + Over(Tiny(maxC), Sum(s))
      {
        NearOptimal(x[..], ys, s, d, c, u, v, Tiny(maxC));
      }
    }

    /** With one row or one column there is nothing to choose. */
    lemma OneLine()
      requires Tree() && (n1 == 1 || n2 == 1)
      ensures NearlyCheapest()
    {
      if n1 == 1 {
        Concludes([0.0], c[0]);
      } else {
        Concludes(seq(n1, i requires 0 <= i < n1 => c[i][0]), [0.0]);
      }
    }

    /** From plan xs to plan ys: what is shipped in all stays, and a feasible plan gets no dearer. */
    ghost predicate Better(xs: seq<Slot>, ys: seq<Slot>)
      requires Sized()
    {
      && InGrid(xs, n1, n2) && InGrid(ys, n1, n2) && SameSums(xs, ys)
      && (Feasible(xs, supply, demand) ==>
            Feasible(ys, supply, demand) && Cost(ys, c, n1, n2) <= Cost(xs, c, n1, n2))
    }

    lemma AsGood(xs: seq<Slot>)
      requires Sized() && InGrid(xs, n1, n2)
      ensures Better(xs, xs)
    {
    }

    lemma BetterTwice(xs: seq<Slot>, ys: seq<Slot>, zs: seq<Slot>)
      requires Sized() && Better(xs, ys) && Better(ys, zs)
      ensures Better(xs, zs)
    {
    }

    lemma BetterKeeps(xs: seq<Slot>, ys: seq<Slot>)
      requires Sized() && Better(xs, ys)
      ensures (Feasible(xs, supply, demand) ==> Feasible(ys, supply, demand)) && (Light(ys) <==> Light(xs))
    {
      SameLight(xs, ys);
    }

    /**
      Compute: improves the plan until its prices are accepted, and returns its cost per unit shipped.  Prices are
      always found, there is always a candidate to enter, and it always closes a loop.  A slot to leave is missing only
      when amounts reach EMD_INFINITY, which those of a feasible plan, or with light sums, never do.  The plans it goes
      through come each from the one before by a pivot; without being accepted it gives up only after MAX_ITERATIONS - 1
      of them.
     */
    method Compute() returns (emd: real, optimal: bool, stuck: bool, flow: seq<Slot>, ghost plans: seq<Plan>)
      requires Tree() && Dummies() && total > 0.0
      modifies this`rows, this`cols, this`enterX, x, isX
      ensures Rounds(c, Tiny(maxC), plans) && plans[0] == Plan(old(x[..]), old(enterX)) && |plans| <= MAX_ITERATIONS
      ensures stuck ==> Blocked(c, Tiny(maxC), plans[|plans| - 1], EMD_INFINITY)
      ensures !stuck && !optimal ==> |plans| == MAX_ITERATIONS && plans[|plans| - 1] == Plan(x[..], enterX)
      ensures !stuck && optimal ==>
        if n1 > 1 && n2 > 1 then Accepted(c, Tiny(maxC), plans[|plans| - 1], x[..])
        else plans == [Plan(x[..], enterX)]
      ensures Feasible(old(x[..]), supply, demand) || Light(old(x[..])) ==> !stuck
      ensures !stuck ==> Tree() && Better(old(x[..]), x[..]) && (optimal ==> NearlyCheapest())
      ensures !stuck ==> emd == Cost(x[..], c, n1, n2) / total
      ensures !stuck ==> InGrid(flow, n1, n2) && Cost(flow, c, n1, n2) == Cost(x[..], c, n1, n2)
      ensures !stuck ==> Carries(flow, x[..], x.Length, enterX, sig1, sig2)
    {
      hide IsPivot, Accepted, Blocked, Rounds, Tiny, Feasible, Light, NearlyCheapest, Better, SameSums,
           Linked, Apart, Connected, Marks, Carries;
      emd, optimal, stuck, flow, plans := 0.0, true, false, [], [Plan(x[..], enterX)];
      RoundsBegin(c, Tiny(maxC), plans[0]);
      ghost var start := x[..];
      AsGood(start);
      if n1 > 1 && n2 > 1 {
        var u, v := new real[n1], new real[n2];
        optimal := false;
        for itr := 1 to MAX_ITERATIONS
          invariant Tree() && !optimal && !stuck && Better(start, x[..])
          invariant Rounds(c, Tiny(maxC), plans) && |plans| == itr && plans[0] == Plan(start, old(enterX))
          invariant plans[itr - 1] == Plan(x[..], enterX)
          modifies this`rows, this`cols, this`enterX, x, isX, u, v
        {
          ghost var before := x[..];
          BetterKeeps(start, before);
          optimal, stuck := Improve(u, v);
          if stuck {
            return;
          }
          BetterTwice(start, before, x[..]);
          if optimal {
            break;
          }
          RoundsGrow(c, Tiny(maxC), plans, Plan(x[..], enterX));
          plans := plans + [Plan(x[..], enterX)];
        }
      } else {
        OneLine();
      }
      var totalCost;
      totalCost, flow := TotalFlow();
      emd := totalCost / total;
    }

    /** One round: prices, the test, and a pivot if it fails. */
    method Improve(u: array<real>, v: array<real>) returns (optimal: bool, stuck: bool)
      requires Tree() && u.Length == n1 && v.Length == n2 && u != v && n1 > 1 && n2 > 1
      modifies this`rows, this`cols, this`enterX, x, isX, u, v
      ensures var p := Plan(old(x[..]), old(enterX));
        if stuck then !optimal && Blocked(c, Tiny(maxC), p, EMD_INFINITY)
        else if optimal then Accepted(c, Tiny(maxC), p, x[..])
        else IsPivot(c, Tiny(maxC), p, Plan(x[..], enterX))
      ensures Feasible(old(x[..]), supply, demand) || Light(old(x[..])) ==> !stuck
      ensures !stuck ==> Tree() && Better(old(x[..]), x[..]) && (optimal ==> NearlyCheapest())
    {
      hide SameSums, Feasible, Linked, Apart, Connected, Marks, Tight, Bounded, Loop, LeastGiver, Cost, NearlyCheapest,
           Reduced, Light, AllBelowInfinity, Accepted, IsPivot, Blocked, Entered, AllTightAt, Tiny, Dual;
      ghost var start := x[..];
      FindBasicVariables(u, v);
      optimal := IsOptimal(u, v);
      stuck := false;
      ghost var e, moved := enterX, x[..];
      if Feasible(start, supply, demand) { Moved(start, moved, u[..], v[..], e); }
      ghost var p, us, vs := Plan(start, e), u[..], v[..];
      assert AllTightAt(c, p, us, vs) && IdleMoved(p, moved, n1, n2) by { RoundBegins(p, moved, us, vs); }
      CheapestOfAllCells(us, vs);
      if optimal {
        AcceptanceProves(u[..], v[..]);
        RoundAccepts(p, moved, us, vs);
      } else {
        ghost var loop;
        SameLight(start, moved);
        if Light(start) { LightAmounts(); }
        stuck, loop := NewSolution();
        RoundPivots(p, moved, us, vs, loop, stuck, Plan(x[..], enterX));
        if Light(start) { LightLoop(moved, loop); }
        if Feasible(start, supply, demand) {
          NotStuck(moved, loop);
          FeasiblePivot(moved, loop, enterX, u[..], v[..], e);
        }
        if !stuck { PivotImproves(start, moved); }
      }
    }

    lemma RoundBegins(p: Plan, ys: seq<Slot>, u: seq<real>, v: seq<real>)
      requires Sized() && |u| == n1 && |v| == n2 && p.idle < |p.xs| == |ys| && InGrid(ys, n1, n2)
      requires forall k: nat :: Live(k, |p.xs|, p.idle) ==> Tight(c, p.xs[k], u, v) && ys[k] == p.xs[k]
      requires ys[p.idle].val == 0.0
      ensures AllTightAt(c, p, u, v) && IdleMoved(p, ys, n1, n2)
    {
    }

    /** A bound that is not positive, on the reduced costs of cells that are not basic, holds of all. */
    lemma BoundsAll(u: seq<real>, v: seq<real>, delta: real)
      requires Tree() && |u| == n1 && |v| == n2 && forall k: nat :: Live(k, x.Length, enterX) ==> Tight(c, x[k], u, v)
      requires delta >= 0.0
      requires forall i, j :: 0 <= i < n1 && 0 <= j < n2 && !isX[i, j] ==> c[i][j] - u[i] - v[j] >= -delta
      ensures Dual(c, u, v, delta)
    {
      forall i, j | 0 <= i < n1 && 0 <= j < n2 ensures c[i][j] >= u[i] + v[j] - delta {
        if isX[i, j] {
          var k: nat :| Live(k, endX, enterX) && x[..][k].i == i && x[..][k].j == j;
          assert Tight(c, x[k], u, v);
        }
      }
    }

    lemma CheapestOfAllCells(u: seq<real>, v: seq<real>)
      requires Tree() && |u| == n1 && |v| == n2 && forall k: nat :: Live(k, x.Length, enterX) ==> Tight(c, x[k], u, v)
      requires forall i, j :: 0 <= i < n1 && 0 <= j < n2 && !isX[i, j] ==>
        c[i][j] - u[i] - v[j] >= c[x[enterX].i][x[enterX].j] - u[x[enterX].i] - v[x[enterX].j]
      ensures var r := Reduced(x[enterX], c, u, v);
        if r < -Tiny(maxC) then Dual(c, u, v, -r) else Dual(c, u, v, Tiny(maxC))
    {
      var r := Reduced(x[enterX], c, u, v);
      BoundsAll(u, v, if r < -Tiny(maxC) then -r else Tiny(maxC));
    }

    lemma RoundAccepts(p: Plan, ys: seq<Slot>, u: seq<real>, v: seq<real>)
      requires Sized() && |u| == n1 && |v| == n2 && AllTightAt(c, p, u, v) && IdleMoved(p, ys, n1, n2)
      requires Dual(c, u, v, Tiny(maxC))
      ensures Accepted(c, Tiny(maxC), p, ys)
    {
      assert AcceptedBy(c, Tiny(maxC), p, ys, u, v);
    }

    lemma RoundPivots(p: Plan, ys: seq<Slot>, u: seq<real>, v: seq<real>, loop: seq<nat>, stuck: bool, q: Plan)
      requires Sized() && |u| == n1 && |v| == n2 && AllTightAt(c, p, u, v) && IdleMoved(p, ys, n1, n2)
      requires Loop(ys, loop) && loop[0] == p.idle && Reduced(ys[p.idle], c, u, v) < -Tiny(maxC)
      requires Dual(c, u, v, -Reduced(ys[p.idle], c, u, v))
      requires if stuck then forall l :: 0 <= l < |loop| && l % 2 == 1 && loop[l] < |ys| ==>
                               ys[loop[l]].val >= EMD_INFINITY
               else LeastGiver(ys, loop, q.idle) && q.xs == Pivoted(ys, loop, ys[q.idle].val, |loop| / 2)
      ensures if stuck then Blocked(c, Tiny(maxC), p, EMD_INFINITY) else IsPivot(c, Tiny(maxC), p, q)
    {
      hide Tiny;
      assert Entered(c, Tiny(maxC), p, u, v, ys, loop);
      if stuck {
        assert AllGiveAtLeast(ys, loop, EMD_INFINITY);
      } else {
        assert PivotsBy(c, Tiny(maxC), p, q, u, v, ys, loop);
      }
    }

    /** The sums of the plan keep the amounts of any basis below EMD_INFINITY. */
    ghost predicate Light(xs: seq<Slot>) {
      Limit(xs, n1, n2) < EMD_INFINITY
    }

    ghost predicate AllBelowInfinity(xs: seq<Slot>) {
      forall k :: 0 <= k < |xs| ==> xs[k].val < EMD_INFINITY
    }

    lemma SameLight(xs: seq<Slot>, ys: seq<Slot>)
      requires SameSums(xs, ys)
      ensures Light(ys) <==> Light(xs)
    {
      assert RowSums(ys, n1) == RowSums(xs, n1) && ColSums(ys, n2) == ColSums(xs, n2);
    }

    lemma LightAmounts()
      requires Tree() && Light(x[..])
      ensures AllBelowInfinity(x[..])
    {
      forall k | 0 <= k < x.Length ensures x[..][k].val < EMD_INFINITY {
        if k != enterX { AmountsAreLimited(x[..], enterX, k, n1, n2); }
      }
    }

    lemma LightLoop(xs: seq<Slot>, loop: seq<nat>)
      requires AllBelowInfinity(xs) && Loop(xs, loop)
      ensures exists l :: 0 <= l < |loop| && l % 2 == 1 && xs[loop[l]].val < EMD_INFINITY
    {
      assert 1 % 2 == 1 && xs[loop[1]].val < EMD_INFINITY;
    }

    lemma PivotImproves(start: seq<Slot>, moved: seq<Slot>)
      requires Sized() && InGrid(x[..], n1, n2) && InGrid(start, n1, n2) && InGrid(moved, n1, n2)
      requires SameSums(start, moved) && SameSums(moved, x[..])
      requires Feasible(start, supply, demand) ==> Cost(moved, c, n1, n2) == Cost(start, c, n1, n2)
      requires Feasible(start, supply, demand) ==>
        Feasible(x[..], supply, demand) && Cost(x[..], c, n1, n2) <= Cost(moved, c, n1, n2)
      ensures Better(start, x[..])
    {
    }

    /** A pivot on tight cells keeps a feasible plan feasible and makes it no dearer. */
    lemma FeasiblePivot(xs: seq<Slot>, loop: seq<nat>, leave: nat, u: seq<real>, v: seq<real>, e: nat)
      requires Sized() && |u| == n1 && |v| == n2 && e < |xs| && Loop(xs, loop) && LeastGiver(xs, loop, leave)
      requires Feasible(xs, supply, demand) && xs[e].val == 0.0 && Reduced(xs[e], c, u, v) <= 0.0
      requires forall k: nat :: Live(k, |xs|, e) ==> Tight(c, xs[k], u, v)
      ensures var ys := Pivoted(xs, loop, xs[leave].val, |loop| / 2);
        Feasible(ys, supply, demand) && Cost(ys, c, n1, n2) <= Cost(xs, c, n1, n2)
    {
      PivotKeepsFeasible(xs, loop, xs[leave].val, supply, demand);
      Pivot(xs, Pivoted(xs, loop, xs[leave].val, |loop| / 2), u, v, e);
    }

    /** Moving the empty slot costs nothing. */
    lemma Moved(xs: seq<Slot>, ys: seq<Slot>, u: seq<real>, v: seq<real>, e: nat)
      requires Sized() && |u| == n1 && |v| == n2 && e < |xs| == |ys|
      requires Feasible(xs, supply, demand) && InGrid(ys, n1, n2) && SameSums(xs, ys)
      requires xs[e].val == 0.0 == ys[e].val
      requires forall k: nat :: Live(k, |xs|, e) ==> Tight(c, xs[k], u, v) && ys[k] == xs[k]
      ensures Feasible(ys, supply, demand) && Cost(ys, c, n1, n2) == Cost(xs, c, n1, n2)
    {
      forall k: nat | k < |xs| && k != e ensures TightAt(xs[k], c, u, v) && TightAt(ys[k], c, u, v) {
        assert Live(k, |xs|, e);
      }
      assert Transport.Priced(xs, u, v) == Transport.Priced(ys, u, v) by { SamePrice(xs, ys, supply, demand, u, v); }
      AlmostTightCost(xs, c, u, v, e);
      AlmostTightCost(ys, c, u, v, e);
      assert Over(0.0, Reduced(xs[e], c, u, v)) == 0.0 == Over(0.0, Reduced(ys[e], c, u, v));
    }

    lemma NotStuck(xs: seq<Slot>, loop: seq<nat>)
      requires Sized() && Feasible(xs, supply, demand) && Loop(xs, loop)
      ensures exists l :: 0 <= l < |loop| && l % 2 == 1 && xs[loop[l]].val < EMD_INFINITY
      ensures forall l :: 0 <= l < |loop| ==> xs[loop[l]].val >= 0.0
    {
      BelowInfinity(xs, loop[1]);
      assert 1 % 2 == 1;
    }

    lemma Pivot(xs: seq<Slot>, ys: seq<Slot>, u: seq<real>, v: seq<real>, e: nat)
      requires Sized() && |u| == n1 && |v| == n2 && e < |xs| == |ys|
      requires Ships(xs, supply, demand) && Feasible(ys, supply, demand) && xs[e].val == 0.0
      requires forall k: nat :: Live(k, |xs|, e) ==> Tight(c, xs[k], u, v)
      requires forall k :: 0 <= k < |xs| ==> ys[k].i == xs[k].i && ys[k].j == xs[k].j
      requires Reduced(xs[e], c, u, v) <= 0.0
      ensures Cost(ys, c, n1, n2) <= Cost(xs, c, n1, n2)
    {
      forall k: nat | k < |xs| && k != e ensures TightAt(xs[k], c, u, v) && TightAt(ys[k], c, u, v) {
        assert Live(k, |xs|, e);
      }
      PivotSaves(xs, ys, supply, demand, c, u, v, e);
    }

    /** A dummy row or column costs nothing. */
    ghost predicate Dummies()
      requires Sized()
    {
      && sig1 <= n1 <= sig1 + 1 && sig2 <= n2 <= sig2 + 1
      && forall i, j :: 0 <= i < n1 && 0 <= j < n2 && (i == sig1 || j == sig2) ==> c[i][j] == 0.0
    }

    method TotalFlow() returns (totalCost: real, flow: seq<Slot>)
      requires Tree() && Dummies()
      ensures totalCost == Cost(x[..], c, n1, n2)
      ensures InGrid(flow, n1, n2) && Cost(flow, c, n1, n2) == totalCost
      ensures Carries(flow, x[..], x.Length, enterX, sig1, sig2)
    {
      hide Linked, Connected, Marks, Carries, Cost, Apart;
      totalCost, flow := 0.0, [];
      ghost var xs := x[..];
      NothingYet(xs);
      for k := 0 to endX
        invariant InGrid(xs[..k], n1, n2) && totalCost == Cost(xs[..k], c, n1, n2)
        invariant InGrid(flow, n1, n2) && Cost(flow, c, n1, n2) == totalCost
        invariant Carries(flow, xs, k, enterX, sig1, sig2)
      {
        var s := x[k];
        CostSnoc(xs, s, k);
        CarriesOneMore(flow, xs, k, enterX, sig1, sig2);
        if k == enterX || s.i == sig1 || s.j == sig2 || s.val == 0.0 {
          continue;
        }
        totalCost := totalCost + s.val * c[s.i][s.j];
        FlowSnoc(flow, s);
        flow := flow + [s];
      }
      assert xs[..endX] == xs;
    }

    lemma NothingYet(xs: seq<Slot>)
      requires Sized()
      ensures Cost([], c, n1, n2) == 0.0 && Cost(xs[..0], c, n1, n2) == 0.0 && Carries([], xs, 0, enterX, sig1, sig2)
    {
    }

    lemma CostSnoc(xs: seq<Slot>, s: Slot, k: nat)
      requires Sized() && InGrid(xs, n1, n2) && k < |xs| && s == xs[k]
      ensures InGrid(xs[..k + 1], n1, n2) && InGrid(xs[..k], n1, n2)
      ensures Cost(xs[..k + 1], c, n1, n2) == Cost(xs[..k], c, n1, n2) + s.val * c[s.i][s.j]
      ensures s.val == 0.0 || c[s.i][s.j] == 0.0 ==> s.val * c[s.i][s.j] == 0.0
    {
      assert xs[..k + 1][..k] == xs[..k];
    }

    lemma FlowSnoc(flow: seq<Slot>, s: Slot)
      requires Sized() && InGrid(flow, n1, n2) && s.i < n1 && s.j < n2
      ensures InGrid(flow + [s], n1, n2)
      ensures Cost(flow + [s], c, n1, n2) == Cost(flow, c, n1, n2) + s.val * c[s.i][s.j]
    {
      assert (flow + [s])[..|flow|] == flow;
    }

    static method Use(used: array<bool>, k: nat, ghost path: seq<nat>)
      requires k < used.Length
      requires forall l: nat :: l < used.Length ==> (used[l] <==> l in path)
      modifies used
      ensures forall l: nat :: l < used.Length ==> (used[l] <==> l in path + [k])
    {
      used[k] := true;
    }

    static method Unuse(used: array<bool>, path: seq<nat>, d: nat)
      requires d < |path| && NoRepeat(path) && path[d] < used.Length
      requires forall l: nat :: l < used.Length ==> (used[l] <==> l in path[..d + 1])
      modifies used
      ensures forall l: nat :: l < used.Length ==> (used[l] <==> l in path[..d])
    {
      assert path[..d + 1] == path[..d] + [path[d]];
      used[path[d]] := false;
    }

    /** The next unused slot after the last one, in the chain where that was found. */
    method NextInChain(last: nat, d: nat, used: array<bool>, ghost path: seq<nat>) returns (more: bool, next: nat)
      requires Sized() && last < x.Length == used.Length && InGrid(x[..], n1, n2) && |rows| == n1 && |cols| == n2
      requires Linked(x[..], x.Length, x.Length, rows, cols) && Marked(used, path)
      ensures more ==> next < x.Length && !used[next] && SameLine(x[..], next, last, d)
      ensures more ==> Remaining(x[..], rows, cols, next, d) < Remaining(x[..], rows, cols, last, d)
      ensures more ==> NextFree(x[..], rows, cols, path, last, next, d)
      ensures !more ==> forall k: nat :: k < x.Length && k !in path && SameLine(x[..], k, last, d) ==>
        Remaining(x[..], rows, cols, k, d) >= Remaining(x[..], rows, cols, last, d)
    {
      var chain := if d % 2 == 1 then rows[x[last].i] else cols[x[last].j];
      assert RowChain(x[..], x.Length, x.Length, x[last].i, rows[x[last].i]);
      assert ColChain(x[..], x.Length, x.Length, x[last].j, cols[x[last].j]);
      assert last in chain;
      InsideOf(chain, x.Length);
      var p := NextUnused(chain, IndexOf(chain, last) + 1, used, -1);
      more, next := p < |chain|, 0;
      LaterOnes(x[..], rows, cols, path, last, d, p);
      if more {
        next := chain[p];
        LaterRemains(x[..], rows, cols, last, d, p);
        IndexOfAt(chain, p);
      }
    }

    /** Of the slots after the last one, those before place p are in the path. */
    lemma LaterOnes(xs: seq<Slot>, rows: seq<seq<nat>>, cols: seq<seq<nat>>, path: seq<nat>, last: nat, d: nat, p: nat)
      requires InGrid(xs, |rows|, |cols|) && Linked(xs, |xs|, |xs|, rows, cols) && last < |xs|
      requires p <= |ChainAt(xs, rows, cols, last, d)|
      requires forall q :: IndexOf(ChainAt(xs, rows, cols, last, d), last) < q < p ==>
        ChainAt(xs, rows, cols, last, d)[q] in path
      ensures forall k: nat :: k < |xs| && k !in path && SameLine(xs, k, last, d) ==>
        Remaining(xs, rows, cols, k, d) >= Remaining(xs, rows, cols, last, d) ||
        Remaining(xs, rows, cols, k, d) <= |ChainAt(xs, rows, cols, last, d)| - p
      ensures forall k: nat :: k < |xs| && SameLine(xs, k, last, d) ==> Remaining(xs, rows, cols, k, d) > 0
    {
      var chain := ChainAt(xs, rows, cols, last, d);
      forall k: nat | k < |xs| && SameLine(xs, k, last, d)
        ensures k in chain && ChainAt(xs, rows, cols, k, d) == chain
      {
        assert RowChain(xs, |xs|, |xs|, xs[k].i, rows[xs[k].i]);
        assert ColChain(xs, |xs|, |xs|, xs[k].j, cols[xs[k].j]);
        assert Live(k, |xs|, |xs|);
      }
    }

    /**
      NewSolution: the entering slot joins the basis, the smallest giver of its loop leaves it.  It finds none, and
      fails, only when every giver ships EMD_INFINITY or more.
     */
    method NewSolution() returns (stuck: bool, ghost loop: seq<nat>)
      requires Tree() && !isX[x[enterX].i, x[enterX].j]
      modifies this`rows, this`cols, this`enterX, x, isX
      ensures Loop(old(x[..]), loop) && loop[0] == old(enterX)
      ensures stuck <==> forall l :: 0 <= l < |loop| && l % 2 == 1 ==> old(x[..])[loop[l]].val >= EMD_INFINITY
      ensures !stuck ==> Tree() && SameSums(old(x[..]), x[..]) && LeastGiver(old(x[..]), loop, enterX)
      ensures !stuck ==> x[..] == Pivoted(old(x[..]), loop, old(x[..])[enterX].val, |loop| / 2)
    {
      Enter();
      ghost var target := LoopExists(x[..], enterX, n1, n2);
      var path := FindLoop(target);
      loop := path;
      var found, leave, m, at := SmallestGiver(path);
      if !found {
        return true, loop;
      }
      ghost var xs := x[..];
      PivotMoves(xs, loop, m, |loop| / 2, at);
      StillConnected(xs, loop, m, at, enterX, n1, n2);
      PivotKeepsSums(xs, loop, m);
      MoveAround(path, m);
      hide Connected, Loop, Linked, Apart, LeastGiver, Pivoted;
      SameCells(xs, x[..], endX, endX, rows, cols);
      Leave(leave);
      stuck := false;
    }

    /** All slots are basic for the moment. */
    ghost predicate Full()
      reads this, x, isX
    {
      && Sized() && endX == n1 + n2 && enterX < endX && |rows| == n1 && |cols| == n2 && InGrid(x[..], n1, n2)
      && Linked(x[..], endX, endX, rows, cols) && Apart(x[..], endX, endX) && Marks(x[..], endX, endX)
    }

    method Enter()
      requires Tree() && !isX[x[enterX].i, x[enterX].j]
      modifies this`rows, this`cols, isX
      ensures Full() && FirstInItsColumn() && Connected(x[..], endX, enterX, n1, n2)
    {
      var s := x[enterX];
      LinkStep(x[..], endX, enterX, rows, cols, s, endX, endX);
      UsedStep(x[..], endX, enterX, s, endX, endX);
      assert x[..][enterX := s] == x[..];
      isX[s.i, s.j] := true;
      rows := Insert(rows, s.i, enterX);
      cols := Insert(cols, s.j, enterX);
    }

    /** The slot at an odd place of the loop that ships least, if any ships less than EMD_INFINITY. */
    method SmallestGiver(loop: seq<nat>) returns (found: bool, leave: nat, m: real, ghost at: nat)
      requires Loop(x[..], loop)
      ensures !found <==> forall l :: 0 <= l < |loop| && l % 2 == 1 ==> x[..][loop[l]].val >= EMD_INFINITY
      ensures found ==> leave < x.Length && m == x[leave].val && at < |loop| && at % 2 == 1 && loop[at] == leave
      ensures found ==> LeastGiver(x[..], loop, leave)
    {
      m, found, leave, at := EMD_INFINITY, false, loop[1], 1;
      var k := 1;
      while k < |loop|
        invariant k % 2 == 1 && 0 <= at < |loop| && at % 2 == 1 && loop[at] == leave
        invariant if found then m == x[leave].val < EMD_INFINITY else m == EMD_INFINITY
        invariant forall l :: 0 <= l < k && l < |loop| && l % 2 == 1 ==> m <= x[loop[l]].val
      {
        if x[loop[k]].val < m {
          leave, at, found := loop[k], k, true;
          m := x[loop[k]].val;
        }
        k := k + 2;
      }
    }

    lemma BelowInfinity(xs: seq<Slot>, k: nat)
      requires Sized() && Feasible(xs, supply, demand) && k < |xs|
      ensures 0.0 <= xs[k].val < EMD_INFINITY
    {
      ValAtMostRow(xs, k, xs[k].i);
    }

    method MoveAround(loop: seq<nat>, m: real)
      requires Loop(x[..], loop)
      modifies x
      ensures x[..] == Pivoted(old(x[..]), loop, m, |loop| / 2)
    {
      hide Alternates, JoinedAt, Shift;
      ghost var xs := x[..];
      ghost var n := 0;
      var k := 0;
      while k < |loop|
        invariant k == 2 * n <= |loop| && x[..] == Pivoted(xs, loop, m, n)
      {
        ShiftSlot(loop[k], m);
        ShiftSlot(loop[k + 1], -m);
        k := k + 2;
        n := n + 1;
      }
    }

    method ShiftSlot(k: nat, d: real)
      requires k < x.Length
      modifies x
      ensures x[..] == Shift(old(x[..]), k, d)
    {
      x[k] := x[k].(val := x[k].val + d);
    }

    method Leave(leave: nat)
      requires Full() && leave < endX && x[leave].val == 0.0 && Connected(x[..], endX, leave, n1, n2)
      modifies this`rows, this`cols, this`enterX, isX
      ensures Tree() && enterX == leave
    {
      var s := x[leave];
      UnlinkStep(x[..], endX, leave, rows, cols);
      FreedStep(x[..], endX, leave);
      isX[s.i, s.j] := false;
      rows := rows[s.i := Unlink(rows[s.i], leave)];
      cols := cols[s.j := Unlink(cols[s.j], leave)];
      enterX := leave;
    }
  }

  // ---------------------------------------------------------------- weights that Russel does not ship exactly

  lemma Halves()
    ensures Sum([0.5000001, 0.4999999]) == 1.0 == Sum([0.5, 0.5])
  {
    var w1, w2 := [0.5000001, 0.4999999], [0.5, 0.5];
    assert w1[..1] == [0.5000001] && w2[..1] == [0.5];
    assert Sum([0.5000001]) == 0.5000001 && Sum([0.5]) == 0.5;
  }

  /** The costs between features 0 and 1. */
  ghost predicate UnitCosts(c: seq<seq<real>>) {
    Grid(c, 2, 2) && c[0][0] == 0.0 == c[1][1] && c[0][1] == 1.0 == c[1][0]
  }

  lemma OneIsHighest(x: seq<real>)
    requires |x| == 2 && ((x[0] == 0.0 && x[1] == 1.0) || (x[0] == 1.0 && x[1] == 0.0))
    ensures Highest(x) == 1.0
  {
    hide Highest;
    assert Highest(x) == x[0] || Highest(x) == x[1];
  }

  lemma FirstIsCorner(c: seq<seq<real>>, i: nat, j: nat)
    requires UnitCosts(c) && FirstPick(c, 2, 2, i, j)
    ensures i == 0 == j
  {
    hide Highest;
    OneIsHighest(c[0]);
    OneIsHighest(c[1]);
    OneIsHighest(Column(c, 2, 0));
    OneIsHighest(Column(c, 2, 1));
    assert Measure(c, 2, 2, 0, 0) == -2.0 && Measure(c, 2, 2, i, j) >= -2.0;
  }

  /**
    Two features of nearly half the weight each: the first step ships 0.5000001 to a column that wants 0.5, and the
    plan is not feasible.
   */
  method NearlyHalves() returns (e: EMD)
    ensures e.Tree() && e.supply == [0.5000001, 0.4999999] && e.demand == [0.5, 0.5]
    ensures e.x[0] == Slot(0, 0, 0.5000001) && e.overshot && !Feasible(e.x[..], e.supply, e.demand)
    ensures e.Light(e.x[..])
  {
    var f, w1, w2 := [0, 1], [0.5000001, 0.4999999], [0.5, 0.5];
    Halves();
    hide Sum, Feasible, NearlyShips, FirstPick, InUnits;
    e := new EMD(f, w1, f, w2, 1.0);
    assert e.supply == w1 && e.demand == w2;
    assert e.c[0][0] == GroundDist(f[0], f[0]) && e.c[0][1] == GroundDist(f[0], f[1]);
    assert e.c[1][0] == GroundDist(f[1], f[0]) && e.c[1][1] == GroundDist(f[1], f[1]);
    assert UnitCosts(e.c);
    FirstIsCorner(e.c, e.x[0].i, e.x[0].j);
  }
}
