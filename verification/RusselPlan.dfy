/**
  What Russel's plan in modules/engine/src/emd.cpp ships when supplies and demands are any amounts: AddBasicVariable
  ships the whole supply to a demand that is smaller by no more than the tolerance, so a column may get a little too
  much, and another one then goes short.
 */
module RusselPlan {
  import opened Sums
  import opened Transport
  import opened InitialPlan

  // ---------------------------------------------------------------- what columns are owed

  function Above(x: real): real { if x > 0.0 then x else 0.0 }

  function Debts(d: seq<real>): (r: seq<real>)
    ensures |r| == |d| && forall j :: 0 <= j < |d| ==> r[j] == Above(-d[j])
  {
    seq(|d|, j requires 0 <= j < |d| => Above(-d[j]))
  }

  /** How much the columns got too much, together. */
  function Debt(d: seq<real>): real { Sum(Debts(d)) }

  lemma DebtUpdate(d: seq<real>, j: nat, y: real)
    requires j < |d|
    ensures Debt(d[j := y]) == Debt(d) - Above(-d[j]) + Above(-y)
  {
    SumUpdate(Debts(d), j, Above(-y));
    assert Debts(d[j := y]) == Debts(d)[j := Above(-y)];
  }

  lemma {:induction false} DebtBelow(d: seq<real>)
    ensures Sum(d) >= -Debt(d)
  {
    if d != [] {
      var n := |d| - 1;
      DebtBelow(d[..n]);
      assert Debts(d)[..n] == Debts(d[..n]);
    }
  }

  /** No column is short of more than all columns are, and what the others got too much. */
  lemma ShortAtMost(d: seq<real>, j: nat)
    requires j < |d|
    ensures d[j] <= Sum(d) + Debt(d)
  {
    SumUpdate(d, j, 0.0);
    DebtUpdate(d, j, 0.0);
    DebtBelow(d[j := 0.0]);
  }

  // ---------------------------------------------------------------- the plan so far

  /** xs ships all but what is left in s and d, and nowhere less than -tolerance. */
  ghost predicate Shipped(xs: seq<Slot>, supply: seq<real>, demand: seq<real>, s: seq<real>, d: seq<real>,
                          tolerance: real) {
    && |s| == |supply| && |d| == |demand| && InGrid(xs, |s|, |d|) && NotBelow(xs, tolerance)
    && (forall i :: 0 <= i < |s| ==> RowSum(xs, i) + s[i] == supply[i])
    && forall j :: 0 <= j < |d| ==> ColSum(xs, j) + d[j] == demand[j]
  }

  ghost predicate NotBelow(xs: seq<Slot>, tolerance: real) {
    forall k :: 0 <= k < |xs| ==> xs[k].val >= -tolerance
  }

  /** The open rows and columns: a cell less than the rows and columns that are closed, none of them open in both. */
  ghost predicate Lists(xs: seq<Slot>, n1: nat, n2: nat, u: seq<nat>, v: seq<nat>) {
    && 1 <= |u| && NoRepeat(u) && NoRepeat(v)
    && (forall k :: 0 <= k < |u| ==> u[k] < n1) && (forall k :: 0 <= k < |v| ==> v[k] < n2)
    && |u| <= n1 && |v| <= n2 && |xs| == (n1 - |u|) + (n2 - |v|) && Closed(xs, u, v) && OneEach(xs)
  }

  /** One row is open, and it is empty. */
  ghost predicate Spent(s: seq<real>, u: seq<nat>) {
    |u| == 1 && u[0] < |s| && s[u[0]] == 0.0
  }

  /** The rows that may have overshot a column so far. */
  ghost function Overshots(s: seq<real>, u: seq<nat>): nat
    requires 1 <= |u| <= |s|
  {
    |s| - |u| + if Spent(s, u) then 1 else 0
  }

  /** What is left: closed rows are empty, and while rows have something left closed columns are met exactly. */
  ghost predicate Leftovers(s: seq<real>, d: seq<real>, u: seq<nat>, v: seq<nat>, tolerance: real)
    requires 1 <= |u| <= |s|
  {
    && (forall i :: 0 <= i < |s| ==> s[i] >= 0.0) && (forall i: nat :: i < |s| && i !in u ==> s[i] == 0.0)
    && (forall j :: 0 <= j < |d| ==> d[j] >= -tolerance)
    && (Spent(s, u) || forall j: nat :: j < |d| && j !in v ==> d[j] == 0.0)
    && Debt(d) <= Times(Overshots(s, u), tolerance)
    && (|u| >= 2 && v == [] ==> exists i :: 0 <= i < |s| && s[i] > tolerance)
  }

  ghost predicate Rough(xs: seq<Slot>, supply: seq<real>, demand: seq<real>, s: seq<real>, d: seq<real>,
                        u: seq<nat>, v: seq<nat>, tolerance: real)
  {
    && Shipped(xs, supply, demand, s, d, tolerance) && Lists(xs, |s|, |d|, u, v) && Leftovers(s, d, u, v, tolerance)
    && Sum(s) - Sum(d) == Sum(supply) - Sum(demand)
  }

  // ---------------------------------------------------------------- one step

  /** What one step ships and leaves. */
  lemma AllocateRoughly(s: real, d: real, tolerance: real)
    requires s >= 0.0 && d >= -tolerance && tolerance >= 0.0
    ensures var (t, left, short) := Allocate(s, d, tolerance);
      && t + left == s && t + short == d && t >= -tolerance && short >= -tolerance
      && (left == 0.0 || (left > tolerance && short == 0.0 && s > 0.0))
      && Above(-short) <= Above(-d) + tolerance && (s == 0.0 || left > 0.0 ==> Above(-short) <= Above(-d))
      && (s == 0.0 ==> left == 0.0)
  {
  }

  lemma ShippedStep(xs: seq<Slot>, supply: seq<real>, demand: seq<real>, s: seq<real>, d: seq<real>, tolerance: real,
                    i: nat, j: nat, t: real, left: real, short: real)
    requires Shipped(xs, supply, demand, s, d, tolerance) && i < |s| && j < |d| && t >= -tolerance
    requires t + left == s[i] && t + short == d[j]
    ensures Shipped(xs + [Slot(i, j, t)], supply, demand, s[i := left], d[j := short], tolerance)
  {
    assert (xs + [Slot(i, j, t)])[..|xs|] == xs;
  }

  lemma ListsStep(xs: seq<Slot>, n1: nat, n2: nat, u: seq<nat>, v: seq<nat>, pu: nat, pv: nat, t: real, rowGone: bool)
    requires Lists(xs, n1, n2, u, v) && pu < |u| && pv < |v| && (rowGone ==> |u| >= 2)
    ensures Lists(xs + [Slot(u[pu], v[pv], t)], n1, n2, Left(u, pu, rowGone), Left(v, pv, !rowGone))
  {
    LeftMeans(u, pu, rowGone);
    LeftMeans(v, pv, !rowGone);
    ClosedStep(xs, u, v, pu, pv, t, rowGone);
    FreshCell(xs, u, v, pu, pv, t);
  }

  lemma TimesGrow(n: nat, m: nat, step: real)
    requires n <= m && step >= 0.0
    ensures Times(n, step) <= Times(m, step)
    ensures Times(n + 1, step) == Times(n, step) + step
  {
    TimesIsProduct(n, step);
    TimesIsProduct(m, step);
    TimesMono(step, n as real, m as real);
  }

  lemma OwedStep(s: seq<real>, d: seq<real>, u: seq<nat>, v: seq<nat>, tolerance: real, pu: nat, j: nat)
    requires |u| <= |s| && pu < |u| && u[pu] < |s| && j < |d| && tolerance >= 0.0 && NoRepeat(u)
    requires Leftovers(s, d, u, v, tolerance)
    ensures var i := u[pu];
      var (t, left, short) := Allocate(s[i], d[j], tolerance);
      var u' := Left(u, pu, left == 0.0 && |u| >= 2);
      1 <= |u'| <= |s| && Debt(d[j := short]) <= Times(Overshots(s[i := left], u'), tolerance)
  {
    var i := u[pu];
    var (t, left, short) := Allocate(s[i], d[j], tolerance);
    var s', u' := s[i := left], Left(u, pu, left == 0.0 && |u| >= 2);
    AllocateRoughly(s[i], d[j], tolerance);
    DebtUpdate(d, j, short);
    var n, m := Overshots(s, u), Overshots(s', u');
    TimesGrow(n, n, tolerance);
    if |u| >= 2 {
      if left == 0.0 {
        assert m >= n + 1;
        TimesGrow(n + 1, m, tolerance);
      } else {
        assert m == n;
      }
    } else {
      assert i == u[0] && u' == u;
      if left == 0.0 && s[i] > 0.0 { assert m == n + 1; } else { assert m == n; }
    }
  }

  lemma LeftoversStep(s: seq<real>, d: seq<real>, u: seq<nat>, v: seq<nat>, tolerance: real, pu: nat, pv: nat)
    requires |u| <= |s| && pu < |u| && u[pu] < |s| && pv < |v| && v[pv] < |d| && tolerance >= 0.0 && NoRepeat(u)
    requires NoRepeat(v)
    requires Leftovers(s, d, u, v, tolerance)
    ensures var i, j := u[pu], v[pv];
      var (t, left, short) := Allocate(s[i], d[j], tolerance);
      var rowGone := left == 0.0 && |u| >= 2;
      Leftovers(s[i := left], d[j := short], Left(u, pu, rowGone), Left(v, pv, !rowGone), tolerance)
  {
    hide Debt, Times;
    var i, j := u[pu], v[pv];
    var (t, left, short) := Allocate(s[i], d[j], tolerance);
    var rowGone := left == 0.0 && |u| >= 2;
    OwedStep(s, d, u, v, tolerance, pu, j);
    AllocateRoughly(s[i], d[j], tolerance);
    LeftMeans(u, pu, rowGone);
    LeftMeans(v, pv, !rowGone);
    var s', d', u', v' := s[i := left], d[j := short], Left(u, pu, rowGone), Left(v, pv, !rowGone);
    if left > 0.0 {
      assert s'[i] > tolerance;
      assert !Spent(s, u);
    } else if |u| == 1 {
      assert Spent(s', u');
    }
  }

  /** One step of Russel, whichever cell it picks. */
  lemma RoughStep(xs: seq<Slot>, supply: seq<real>, demand: seq<real>, s: seq<real>, d: seq<real>,
                  u: seq<nat>, v: seq<nat>, pu: nat, pv: nat, tolerance: real)
    requires Rough(xs, supply, demand, s, d, u, v, tolerance) && pu < |u| && pv < |v| && tolerance >= 0.0
    ensures var i, j := u[pu], v[pv];
      var (t, left, short) := Allocate(s[i], d[j], tolerance);
      var rowGone := left == 0.0 && |u| >= 2;
      Rough(xs + [Slot(i, j, t)], supply, demand, s[i := left], d[j := short],
            Left(u, pu, rowGone), Left(v, pv, !rowGone), tolerance)
  {
    var i, j := u[pu], v[pv];
    var (t, left, short) := Allocate(s[i], d[j], tolerance);
    var rowGone := left == 0.0 && |u| >= 2;
    AllocateRoughly(s[i], d[j], tolerance);
    LeftoversStep(s, d, u, v, tolerance, pu, pv);
    hide Leftovers;
    ListsStep(xs, |s|, |d|, u, v, pu, pv, t, rowGone);
    hide Lists;
    ShippedStep(xs, supply, demand, s, d, tolerance, i, j, t, left, short);
    SumUpdate(s, i, left);
    SumUpdate(d, j, short);
  }

  /** Nothing negative is shipped, and no column got too much. */
  ghost predicate InOrder(xs: seq<Slot>, d: seq<real>) {
    NotNegative(xs) && forall j :: 0 <= j < |d| ==> d[j] >= 0.0
  }

  /** A plan gets out of order exactly in a step that overshoots its column, and never gets in order again. */
  lemma OrderStep(xs: seq<Slot>, s: seq<real>, d: seq<real>, i: nat, j: nat, tolerance: real)
    requires i < |s| && j < |d| && s[i] >= 0.0 && tolerance >= 0.0
    ensures var (t, left, short) := Allocate(s[i], d[j], tolerance);
      InOrder(xs + [Slot(i, j, t)], d[j := short]) <==> InOrder(xs, d) && !Overshoots(s[i], d[j], tolerance)
  {
    var (t, left, short) := Allocate(s[i], d[j], tolerance);
    var xs', d' := xs + [Slot(i, j, t)], d[j := short];
    if InOrder(xs', d') {
      forall k | 0 <= k < |xs| ensures xs[k].val >= 0.0 { assert xs'[k] == xs[k]; }
      assert xs'[|xs|].val == t >= 0.0 && d'[j] == short >= 0.0;
      forall l | 0 <= l < |d| ensures d[l] >= 0.0 { if l != j { assert d'[l] == d[l]; } }
    }
  }

  /** With amounts in units above the tolerance no step overshoots. */
  lemma UnitsStep(s: seq<real>, d: seq<real>, i: nat, j: nat, tolerance: real, unit: real)
    requires i < |s| && j < |d| && Multiples(s, unit) && Multiples(d, unit) && 0.0 <= tolerance < unit
    ensures var (t, left, short) := Allocate(s[i], d[j], tolerance);
      Multiples(s[i := left], unit) && Multiples(d[j := short], unit) && !Overshoots(s[i], d[j], tolerance)
  {
    var (t, left, short) := Allocate(s[i], d[j], tolerance);
    AllocateExact(s[i], d[j], tolerance, unit);
    MultiplesUpdate(s, i, left, unit);
    MultiplesUpdate(d, j, short, unit);
  }

  // ---------------------------------------------------------------- the finished plan

  /**
    Every supply is shipped, but for what the supplies exceed the demands by; every demand is met up to the tolerance
    for each row, and no slot is below minus the tolerance.
   */
  ghost predicate NearlyShips(xs: seq<Slot>, supply: seq<real>, demand: seq<real>, tolerance: real) {
    && InGrid(xs, |supply|, |demand|) && NotBelow(xs, tolerance)
    && (forall i :: 0 <= i < |supply| ==> 0.0 <= supply[i] - RowSum(xs, i) <= Above(Sum(supply) - Sum(demand)))
    && forall j :: 0 <= j < |demand| ==>
         -tolerance <= demand[j] - ColSum(xs, j) <= Times(|supply|, tolerance) + Above(Sum(demand) - Sum(supply))
  }

  lemma TimesNotNegative(n: nat, step: real)
    requires step >= 0.0
    ensures Times(n, step) >= 0.0
  {
    TimesGrow(0, n, step);
  }

  /** Rows have nothing left when the last of them is spent; columns are short of what others got too much. */
  lemma ShortWhenSpent(s: seq<real>, d: seq<real>, u: seq<nat>, tolerance: real)
    requires 1 <= |u| <= |s| && Leftovers(s, d, u, [], tolerance) && tolerance >= 0.0 && Spent(s, u)
    ensures Sum(s) == 0.0 && forall i :: 0 <= i < |s| ==> s[i] == 0.0
    ensures forall j :: 0 <= j < |d| ==> d[j] <= Times(|s|, tolerance) + Sum(d)
  {
    SumOfZeros(s);
    TimesGrow(Overshots(s, u), |s|, tolerance);
    hide Debt, Times, Sum;
    forall j | 0 <= j < |d| ensures d[j] <= Times(|s|, tolerance) + Sum(d) { ShortAtMost(d, j); }
  }

  /** Otherwise the columns are met. */
  lemma MetWhenNotSpent(s: seq<real>, d: seq<real>, u: seq<nat>, tolerance: real)
    requires 1 <= |u| <= |s| && Leftovers(s, d, u, [], tolerance) && tolerance >= 0.0 && !Spent(s, u)
    ensures Sum(d) == 0.0 && forall j :: 0 <= j < |d| ==> d[j] == 0.0
    ensures forall i :: 0 <= i < |s| ==> 0.0 <= s[i] <= Sum(s)
    ensures |u| >= 2 ==> Sum(s) > tolerance
  {
    hide Debt, Times;
    SumOfZeros(d);
    SumNotNegative(s);
  }

  /** What is left when no column is open. */
  lemma LeftoversEnd(s: seq<real>, d: seq<real>, u: seq<nat>, tolerance: real)
    requires 1 <= |u| <= |s| && Leftovers(s, d, u, [], tolerance) && tolerance >= 0.0
    ensures forall i :: 0 <= i < |s| ==> 0.0 <= s[i] <= Above(Sum(s) - Sum(d))
    ensures forall j :: 0 <= j < |d| ==> -tolerance <= d[j] <= Times(|s|, tolerance) + Above(Sum(d) - Sum(s))
    ensures Sum(s) - Sum(d) <= tolerance ==> |u| == 1
  {
    hide Times, Debt, Sum;
    TimesNotNegative(|s|, tolerance);
    assert forall j :: 0 <= j < |d| ==> d[j] >= -tolerance;
    if Spent(s, u) {
      ShortWhenSpent(s, d, u, tolerance);
    } else {
      MetWhenNotSpent(s, d, u, tolerance);
    }
  }

  lemma RoughEnds(xs: seq<Slot>, supply: seq<real>, demand: seq<real>, s: seq<real>, d: seq<real>,
                  u: seq<nat>, v: seq<nat>, tolerance: real)
    requires Rough(xs, supply, demand, s, d, u, v, tolerance) && v == [] && tolerance >= 0.0
    ensures NearlyShips(xs, supply, demand, tolerance)
    ensures Sum(supply) - Sum(demand) <= tolerance ==> |u| == 1 && |xs| == |supply| + |demand| - 1
  {
    LeftoversEnd(s, d, u, tolerance);
    hide Leftovers, Times, RowSum, ColSum, Sum;
  }

  /** A finished plan is feasible exactly if it is in order and supplies and demands sum to the same. */
  lemma FeasibleInOrder(xs: seq<Slot>, supply: seq<real>, demand: seq<real>, s: seq<real>, d: seq<real>,
                        u: seq<nat>, v: seq<nat>, tolerance: real)
    requires Rough(xs, supply, demand, s, d, u, v, tolerance) && v == [] && tolerance >= 0.0
    ensures Feasible(xs, supply, demand) <==> InOrder(xs, d) && Sum(supply) == Sum(demand)
  {
    LeftoversEnd(s, d, u, tolerance);
    hide Leftovers, Lists;
    if Feasible(xs, supply, demand) {
      MassOfRows(xs, |supply|, |demand|);
      assert RowSums(xs, |supply|) == supply && ColSums(xs, |demand|) == demand;
    }
    if InOrder(xs, d) && Sum(supply) == Sum(demand) {
      SumNotNegative(d);
      SumOfZeros(s);
    }
  }

  lemma RoughStarts(supply: seq<real>, demand: seq<real>, u: seq<nat>, v: seq<nat>, tolerance: real)
    requires |supply| == |u| >= 1 && |demand| == |v| >= 1 && tolerance >= 0.0
    requires (forall k :: 0 <= k < |u| ==> u[k] == k) && (forall k :: 0 <= k < |v| ==> v[k] == k)
    requires (forall i :: 0 <= i < |supply| ==> supply[i] >= 0.0)
    requires (forall j :: 0 <= j < |demand| ==> demand[j] >= 0.0)
    ensures Rough([], supply, demand, supply, demand, u, v, tolerance)
  {
    forall i: nat | i < |u| ensures i in u { assert u[i] == i; }
    forall j: nat | j < |v| ensures j in v { assert v[j] == j; }
    SumOfConstant(Debts(demand), 0.0);
    TimesIsProduct(|demand|, 0.0);
    TimesGrow(0, Overshots(supply, u), tolerance);
  }
}
