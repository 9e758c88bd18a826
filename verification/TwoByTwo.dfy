/**
  A small input of modules/engine/src/emd.cpp followed to its end: whatever plan it starts from, Compute needs at most
  one pivot, and returns the least cost.
 */
module TwoByTwo {
  import opened Sums
  import opened Transport
  import opened InitialPlan
  import opened Basis
  import opened Prices
  import opened Pivots
  import opened Emd

  const Supply: seq<real> := [2.0, 1.0]
  const Demand: seq<real> := [1.0, 2.0]

  /** What it costs to ship between features 0 and 2 and features 3 and 1. */
  const Costs: seq<seq<real>> := [[3.0, 1.0], [1.0, 1.0]]

  /** Three slots at different cells, an idle one, and every supply and demand met. */
  ghost predicate Fine(p: Plan) {
    && |p.xs| == 4 && p.idle < 4 && p.xs[p.idle].val == 0.0 && Feasible(p.xs, Supply, Demand)
    && Apart(p.xs, 4, p.idle)
  }

  lemma RowOfFour(xs: seq<Slot>, n: nat)
    requires |xs| == 4
    ensures RowSum(xs, n) ==
      (if xs[0].i == n then xs[0].val else 0.0) + (if xs[1].i == n then xs[1].val else 0.0)
      + (if xs[2].i == n then xs[2].val else 0.0) + (if xs[3].i == n then xs[3].val else 0.0)
    ensures ColSum(xs, n) ==
      (if xs[0].j == n then xs[0].val else 0.0) + (if xs[1].j == n then xs[1].val else 0.0)
      + (if xs[2].j == n then xs[2].val else 0.0) + (if xs[3].j == n then xs[3].val else 0.0)
  {
    assert xs[..3][..2] == xs[..2] && xs[..2][..1] == xs[..1] && xs[..1][..0] == [];
    assert RowSum(xs[..1], n) == if xs[0].i == n then xs[0].val else 0.0;
    assert ColSum(xs[..1], n) == if xs[0].j == n then xs[0].val else 0.0;
    assert RowSum(xs[..2], n) == RowSum(xs[..1], n) + if xs[1].i == n then xs[1].val else 0.0;
    assert ColSum(xs[..2], n) == ColSum(xs[..1], n) + if xs[1].j == n then xs[1].val else 0.0;
    assert RowSum(xs[..3], n) == RowSum(xs[..2], n) + if xs[2].i == n then xs[2].val else 0.0;
    assert ColSum(xs[..3], n) == ColSum(xs[..2], n) + if xs[2].j == n then xs[2].val else 0.0;
  }

  /** Three different cells are all but one. */
  lemma OneIsMissing(p: Plan, i: nat, j: nat)
    requires Fine(p) && i < 2 && j < 2 && forall k: nat :: Live(k, 4, p.idle) ==> p.xs[k].i != i || p.xs[k].j != j
    ensures forall a: nat, b: nat :: a < 2 && b < 2 && (a != i || b != j) ==> Used(p.xs, 4, p.idle, a, b)
  {
    var x := p.xs;
    assert InGrid(x, 2, 2);
    forall a: nat, b: nat | a < 2 && b < 2 && (a != i || b != j) ensures Used(x, 4, p.idle, a, b) {
      var k, l, m := if p.idle == 0 then 1 else 0, if p.idle <= 1 then 2 else 1, if p.idle <= 2 then 3 else 2;
      assert Live(k, 4, p.idle) && Live(l, 4, p.idle) && Live(m, 4, p.idle);
      assert (x[k].i, x[k].j) != (x[l].i, x[l].j) && (x[k].i, x[k].j) != (x[m].i, x[m].j);
      assert (x[l].i, x[l].j) != (x[m].i, x[m].j);
    }
  }

  lemma SomeIsMissing(p: Plan) returns (i: nat, j: nat)
    requires Fine(p)
    ensures i < 2 && j < 2 && forall k: nat :: Live(k, 4, p.idle) ==> p.xs[k].i != i || p.xs[k].j != j
  {
    var x := p.xs;
    var k, l, m := if p.idle == 0 then 1 else 0, if p.idle <= 1 then 2 else 1, if p.idle <= 2 then 3 else 2;
    assert forall n: nat :: Live(n, 4, p.idle) ==> n == k || n == l || n == m;
    i, j := 0, 0;
    if (0, 0) == (x[k].i, x[k].j) || (0, 0) == (x[l].i, x[l].j) || (0, 0) == (x[m].i, x[m].j) {
      i, j := 0, 1;
      if (0, 1) == (x[k].i, x[k].j) || (0, 1) == (x[l].i, x[l].j) || (0, 1) == (x[m].i, x[m].j) {
        i, j := 1, 0;
        if (1, 0) == (x[k].i, x[k].j) || (1, 0) == (x[l].i, x[l].j) || (1, 0) == (x[m].i, x[m].j) {
          i, j := 1, 1;
        }
      }
    }
  }

  lemma TightCell(c: seq<seq<real>>, p: Plan, u: seq<real>, v: seq<real>, a: nat, b: nat)
    requires AllTightAt(c, p, u, v) && Used(p.xs, |p.xs|, p.idle, a, b)
    ensures a < |u| && b < |v| && a < |c| && b < |c[a]| && c[a][b] == u[a] + v[b]
  {
    var k: nat :| Live(k, |p.xs|, p.idle) && p.xs[k].i == a && p.xs[k].j == b;
    assert Tight(c, p.xs[k], u, v);
  }

  /** Tight prices tell which cell is missing, and what the plan costs. */
  lemma MissingTells(p: Plan, u: seq<real>, v: seq<real>, i: nat, j: nat)
    requires Fine(p) && |u| == 2 == |v| && AllTightAt(Costs, p, u, v)
    requires i < 2 && j < 2 && forall k: nat :: Live(k, 4, p.idle) ==> p.xs[k].i != i || p.xs[k].j != j
    ensures Costs[i][j] - u[i] - v[j] == if i == j then 2.0 else -2.0
    ensures i == j ==> Cost(p.xs, Costs, 2, 2) == 3.0
    ensures i == 1 && j == 0 ==> Cost(p.xs, Costs, 2, 2) == 5.0
  {
    OneIsMissing(p, i, j);
    forall a: nat, b: nat | a < 2 && b < 2 && (a != i || b != j) ensures Costs[a][b] == u[a] + v[b] {
      TightCell(Costs, p, u, v, a, b);
    }
    assert (i, j) == (0, 0) || (i, j) == (0, 1) || (i, j) == (1, 0) || (i, j) == (1, 1);
    assert (0 != i || 0 != j) ==> u[0] + v[0] == 3.0;
    assert (0 != i || 1 != j) ==> u[0] + v[1] == 1.0;
    assert (1 != i || 0 != j) ==> u[1] + v[0] == 1.0;
    assert (1 != i || 1 != j) ==> u[1] + v[1] == 1.0;
    WorthOf(p, u, v);
  }

  lemma WorthOf(p: Plan, u: seq<real>, v: seq<real>)
    requires Fine(p) && |u| == 2 == |v| && AllTightAt(Costs, p, u, v)
    ensures Cost(p.xs, Costs, 2, 2) == 2.0 * u[0] + u[1] + v[0] + 2.0 * v[1]
  {
    forall k: nat | k < 4 ensures TightAt(p.xs[k], Costs, u, v) {
      if k != p.idle { assert Tight(Costs, p.xs[k], u, v); }
    }
    TightCost(p.xs, Costs, u, v);
    PricedBySums(p.xs, u, v);
    assert RowSums(p.xs, 2) == Supply && ColSums(p.xs, 2) == Demand;
    DotOfTwo(u, Supply);
    DotOfTwo(v, Demand);
  }

  lemma DotOfTwo(u: seq<real>, r: seq<real>)
    requires |u| == 2 == |r|
    ensures Dot(u, r) == u[0] * r[0] + u[1] * r[1]
  {
    DotSnoc(u, r);
    DotSnoc(u[..1], r[..1]);
    DotZero(u[..1][..0], r[..1][..0]);
  }

  /** A plan that ships nothing through cell (1, 0) ships one through each other cell; none leaves out cell (0, 1). */
  lemma AmountsWithout(p: Plan, i: nat, j: nat)
    requires Fine(p) && i != j && i < 2 && j < 2
    requires forall k: nat :: Live(k, 4, p.idle) ==> p.xs[k].i != i || p.xs[k].j != j
    ensures i == 1 && forall k: nat :: Live(k, 4, p.idle) ==> p.xs[k].val == 1.0
  {
    var x := p.xs;
    RowOfFour(x, 0);
    RowOfFour(x, 1);
    assert RowSum(x, 0) == 2.0 && RowSum(x, 1) == 1.0 && ColSum(x, 0) == 1.0 && ColSum(x, 1) == 2.0;
    assert x[0].i < 2 && x[1].i < 2 && x[2].i < 2 && x[3].i < 2 && x[0].j < 2 && x[1].j < 2 && x[2].j < 2 && x[3].j < 2;
    OneIsMissing(p, i, j);
    assert x[0].val >= 0.0 && x[1].val >= 0.0 && x[2].val >= 0.0 && x[3].val >= 0.0;
  }

  lemma IdleIsIdle(p: Plan, ys: seq<Slot>)
    requires Fine(p) && IdleMoved(p, ys, 2, 2)
    ensures Feasible(ys, Supply, Demand)
  {
    var s := ys[p.idle];
    assert ys == p.xs[p.idle := s] by {
      forall k: nat | k < 4 && k != p.idle ensures ys[k] == p.xs[k] { assert Live(k, 4, p.idle); }
    }
    IdleSlot(p.xs, p.idle, s, 0);
    IdleSlot(p.xs, p.idle, s, 1);
  }

  /** The entering cell is none of the basis: those are tight. */
  lemma EntersElsewhere(tolerance: real, p: Plan, u: seq<real>, v: seq<real>, ys: seq<Slot>, loop: seq<nat>)
    requires Fine(p) && |u| == 2 == |v| && tolerance >= 0.0 && Entered(Costs, tolerance, p, u, v, ys, loop)
    ensures var s := ys[p.idle];
      s.i < 2 && s.j < 2 && forall k: nat :: Live(k, 4, p.idle) ==> p.xs[k].i != s.i || p.xs[k].j != s.j
  {
    var s := ys[p.idle];
    forall k: nat | Live(k, 4, p.idle) ensures p.xs[k].i != s.i || p.xs[k].j != s.j {
      assert Tight(Costs, p.xs[k], u, v);
    }
  }

  /** A pivot enters cell (1, 0), and moves one around the loop: from cost 5 to cost 3. */
  lemma PivotSavesTwo(tolerance: real, p: Plan, q: Plan, u: seq<real>, v: seq<real>, ys: seq<Slot>, loop: seq<nat>)
    requires Fine(p) && tolerance >= 0.0 && PivotsBy(Costs, tolerance, p, q, u, v, ys, loop)
    ensures Fine(q) && Cost(p.xs, Costs, 2, 2) == 5.0 && Cost(q.xs, Costs, 2, 2) == 3.0
  {
    hide Loop, RowSum, ColSum, Cost;
    GridIsTwo(u, v);
    EntersElsewhere(tolerance, p, u, v, ys, loop);
    var e, s := p.idle, ys[p.idle];
    MissingTells(p, u, v, s.i, s.j);
    assert Reduced(s, Costs, u, v) == -2.0;
    AmountsWithout(p, s.i, s.j);
    IdleIsIdle(p, ys);
    var at :| 0 <= at < |loop| && at % 2 == 1 && loop[at] == q.idle;
    MovesOne(p, q, ys, loop, at);
    StaysFine(p, q, ys, loop, at);
    CostAfter(p, q, u, v, e);
  }

  lemma GridIsTwo(u: seq<real>, v: seq<real>)
    requires Grid(Costs, |u|, |v|)
    ensures |u| == 2 == |v|
  {
    assert |Costs[0]| == 2;
  }

  lemma MovesOne(p: Plan, q: Plan, ys: seq<Slot>, loop: seq<nat>, at: nat)
    requires Fine(p) && IdleMoved(p, ys, 2, 2) && Loop(ys, loop) && loop[0] == p.idle
    requires at < |loop| && at % 2 == 1 && loop[at] == q.idle
    requires q.xs == Pivoted(ys, loop, ys[q.idle].val, |loop| / 2)
    requires forall k: nat :: Live(k, 4, p.idle) ==> p.xs[k].val == 1.0
    ensures q.idle != p.idle && q.idle < 4 && ys[q.idle].val == 1.0
    ensures q.xs[p.idle].val == 1.0 && q.xs[q.idle].val == 0.0
  {
    assert loop[0] != loop[at];
    assert Live(q.idle, 4, p.idle);
    PivotMoves(ys, loop, 1.0, |loop| / 2, 0);
    PivotMoves(ys, loop, 1.0, |loop| / 2, at);
  }

  lemma StaysFine(p: Plan, q: Plan, ys: seq<Slot>, loop: seq<nat>, at: nat)
    requires Fine(p) && IdleMoved(p, ys, 2, 2) && Loop(ys, loop) && LeastGiver(ys, loop, q.idle)
    requires Feasible(ys, Supply, Demand) && ys[q.idle].val == 1.0 && q.xs == Pivoted(ys, loop, 1.0, |loop| / 2)
    requires q.xs[q.idle].val == 0.0
    requires forall k: nat :: Live(k, 4, p.idle) ==> p.xs[k].i != ys[p.idle].i || p.xs[k].j != ys[p.idle].j
    ensures Fine(q)
  {
    PivotKeepsFeasible(ys, loop, 1.0, Supply, Demand);
    forall k: nat, l: nat | Live(k, 4, q.idle) && Live(l, 4, q.idle) && k != l
      ensures q.xs[k].i != q.xs[l].i || q.xs[k].j != q.xs[l].j
    {
      if k != p.idle { assert Live(k, 4, p.idle); }
      if l != p.idle { assert Live(l, 4, p.idle); }
    }
  }

  lemma CostAfter(p: Plan, q: Plan, u: seq<real>, v: seq<real>, e: nat)
    requires Fine(p) && Fine(q) && |u| == 2 == |v| && AllTightAt(Costs, p, u, v) && e == p.idle
    requires Reduced(q.xs[e], Costs, u, v) == -2.0 && q.xs[e].val == 1.0
    requires forall k: nat :: k < 4 && k != e ==> q.xs[k].i == p.xs[k].i && q.xs[k].j == p.xs[k].j
    ensures Cost(q.xs, Costs, 2, 2) == Cost(p.xs, Costs, 2, 2) - 2.0
  {
    forall k: nat | k < 4 ensures TightAt(p.xs[k], Costs, u, v) && (k != e ==> TightAt(q.xs[k], Costs, u, v)) {
      if k != e { assert Tight(Costs, p.xs[k], u, v); }
    }
    TightCost(p.xs, Costs, u, v);
    AlmostTightCost(q.xs, Costs, u, v, e);
    SamePrice(p.xs, q.xs, Supply, Demand, u, v);
    assert Over(1.0, -2.0) == -2.0;
  }

  /** One pivot is all there can be. */
  lemma OnePivot(tolerance: real, plans: seq<Plan>)
    requires Rounds(Costs, tolerance, plans) && Fine(plans[0]) && tolerance >= 0.0
    ensures |plans| <= 2 && Fine(plans[|plans| - 1])
  {
    hide Fine, PivotsBy;
    if |plans| >= 2 {
      assert RoundAt(Costs, tolerance, plans, 0);
      var u, v, ys, loop :| PivotsBy(Costs, tolerance, plans[0], plans[1], u, v, ys, loop);
      PivotSavesTwo(tolerance, plans[0], plans[1], u, v, ys, loop);
    }
    if |plans| >= 3 {
      assert RoundAt(Costs, tolerance, plans, 1);
      var u, v, ys, loop :| PivotsBy(Costs, tolerance, plans[1], plans[2], u, v, ys, loop);
      PivotSavesTwo(tolerance, plans[1], plans[2], u, v, ys, loop);
    }
  }

  /** Accepted prices leave out cell (0, 0) or (1, 1). */
  lemma AcceptedIsLeast(tolerance: real, p: Plan, ys: seq<Slot>)
    requires Fine(p) && tolerance < 2.0 && Accepted(Costs, tolerance, p, ys)
    ensures InGrid(ys, 2, 2) && Cost(ys, Costs, 2, 2) == 3.0
  {
    var u, v :| AcceptedBy(Costs, tolerance, p, ys, u, v);
    GridIsTwo(u, v);
    var i, j := SomeIsMissing(p);
    MissingTells(p, u, v, i, j);
    assert i == j;
    IdleIsIdle(p, ys);
    SameCost(p, ys);
  }

  lemma SameCost(p: Plan, ys: seq<Slot>)
    requires Fine(p) && IdleMoved(p, ys, 2, 2) && InGrid(ys, 2, 2)
    ensures Cost(ys, Costs, 2, 2) == Cost(p.xs, Costs, 2, 2)
  {
    CostOfFour(p.xs);
    CostOfFour(ys);
    forall k: nat | k < 4 && k != p.idle ensures ys[k] == p.xs[k] { assert Live(k, 4, p.idle); }
  }

  function Worth(s: Slot): real
    requires s.i < 2 && s.j < 2
  {
    s.val * Costs[s.i][s.j]
  }

  lemma CostOfFour(xs: seq<Slot>)
    requires |xs| == 4 && InGrid(xs, 2, 2)
    ensures Cost(xs, Costs, 2, 2) == Worth(xs[0]) + Worth(xs[1]) + Worth(xs[2]) + Worth(xs[3])
  {
    assert xs[..3][..2] == xs[..2] && xs[..2][..1] == xs[..1] && xs[..1][..0] == [];
    assert Cost(xs[..1], Costs, 2, 2) == Worth(xs[0]);
    assert Cost(xs[..2], Costs, 2, 2) == Cost(xs[..1], Costs, 2, 2) + Worth(xs[1]);
    assert Cost(xs[..3], Costs, 2, 2) == Cost(xs[..2], Costs, 2, 2) + Worth(xs[2]);
  }

  lemma ThreeInAll()
    ensures Sum(Supply) == 3.0 == Sum(Demand) && Multiples(Supply, 1.0) && Multiples(Demand, 1.0)
  {
    assert Supply[..1] == [2.0] && Demand[..1] == [1.0];
    assert Sum([2.0]) == 2.0 && Sum([1.0]) == 1.0;
    assert 2.0 == Units(2, 1.0) && 1.0 == Units(1, 1.0);
  }

  /** Features 0 and 2 of weights 2 and 1, against features 3 and 1 of weights 1 and 2: every unit moves by one. */
  method EachMovesOne() returns (emd: real, optimal: bool, stuck: bool)
    ensures emd == 1.0 && optimal && !stuck
  {
    ThreeInAll();
    hide Sum, Multiples, Fine, InUnits;
    var e := NewEmd();
    var flow;
    ghost var plans;
    emd, optimal, stuck, flow, plans := e.Compute();
    OnePivot(Tiny(e.maxC), plans);
    AcceptedIsLeast(Tiny(e.maxC), plans[|plans| - 1], e.x[..]);
  }

  method NewEmd() returns (e: EMD)
    ensures e.Tree() && e.Dummies() && e.n1 == 2 == e.n2 && e.c == Costs && e.total == 3.0
    ensures e.supply == Supply && e.demand == Demand && 0.0 <= Tiny(e.maxC) < 2.0
    ensures fresh(e) && fresh(e.x) && fresh(e.isX)
    ensures Feasible(e.x[..], Supply, Demand) && Fine(Plan(e.x[..], e.enterX))
  {
    ThreeInAll();
    hide Sum, Multiples, Linked, InGrid, Feasible, FirstPick;
    var f1, f2 := [0, 2], [3, 1];
    assert InUnits(Supply, Demand, 1.0);
    e := new EMD(f1, Supply, f2, Demand, 1.0);
    assert e.supply == Supply && e.demand == Demand;
    assert e.c[0][0] == GroundDist(f1[0], f2[0]) && e.c[0][1] == GroundDist(f1[0], f2[1]);
    assert e.c[1][0] == GroundDist(f1[1], f2[0]) && e.c[1][1] == GroundDist(f1[1], f2[1]);
    assert e.c[0] == Costs[0] && e.c[1] == Costs[1];
  }
}
