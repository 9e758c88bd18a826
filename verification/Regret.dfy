/**
  Regret matching at one information set: GetPolicy of modules/engine/src/engine_util.h, ClampRegret
  of cfr_worker.h, and the update of RegretLearning in cfr_worker.cpp, over the reals.  After T updates
  no fixed action would have earned more than the square root of T * |A| times the utility spread.
 */
module Regret {
  import opened Sums

  function Pos(x: real): real { if x > 0.0 then x else 0.0 }

  function Positives(r: seq<real>): (p: seq<real>)
    ensures |p| == |r| && forall a :: 0 <= a < |r| ==> p[a] == Pos(r[a])
  {
    seq(|r|, a requires 0 <= a < |r| => Pos(r[a]))
  }

  /** GetPolicy: proportional to the positive regrets, uniform when there are none. */
  function Policy(r: seq<real>): (avg: seq<real>)
    ensures |avg| == |r|
  {
    var p := Sum(Positives(r));
    if p > 0.0 then seq(|r|, a requires 0 <= a < |r| => Pos(r[a]) / p)
    else seq(|r|, a requires 0 <= a < |r| => 1.0 / |r| as real)
  }

  /** GetPolicy, which fills avg and returns 1 if an entry comes out negative, else 0. */
  method GetPolicy(avg: array<real>, ptr: array<real>) returns (code: int)
    requires avg.Length == ptr.Length && avg != ptr
    modifies avg
    ensures code == 0 && avg[..] == Policy(ptr[..])
  {
    var size := ptr.Length;
    var positive := new real[size];
    var sum := 0.0;
    ghost var p := Positives(ptr[..]);
    for a := 0 to size
      invariant positive[..a] == p[..a] && sum == Sum(p[..a])
      modifies positive
    {
      assert p[..a + 1][..a] == p[..a];
      positive[a] := if ptr[a] > 0.0 then ptr[a] else 0.0;
      sum := sum + positive[a];
    }
    assert p[..size] == p;
    SumNotNegative(p);
    if sum > 0.0 {
      for a := 0 to size
        invariant forall b :: 0 <= b < a ==> avg[b] == p[b] / sum
        modifies avg
      {
        avg[a] := positive[a] / sum;
        Share(p[a], sum);
        if avg[a] < 0.0 {
          return 1;
        }
      }
    } else {
      for a := 0 to size
        invariant forall b :: 0 <= b < a ==> avg[b] == 1.0 / size as real
      {
        avg[a] := 1.0 / size as real;
      }
    }
    code := 0;
  }

  function Clamp(oldReg: real, diff: real, floor: real): real {
    if oldReg + diff < floor then floor else oldReg + diff
  }

  /** What the information set earns when its actions earn u and it plays the policy of its regrets. */
  function Cfu(r: seq<real>, u: seq<real>): real
    requires |r| == |u|
  {
    Sum(Products(Policy(r), u))
  }

  /** RegretLearning for one hand: every action's regret moves by what it would have earned more. */
  function Learn(r: seq<real>, u: seq<real>, floor: real): (next: seq<real>)
    requires |r| == |u|
    ensures |next| == |r|
  {
    seq(|r|, a requires 0 <= a < |r| => Clamp(r[a], u[a] - Cfu(r, u), floor))
  }

  method RegretLearning(regret: array<real>, u: seq<real>, cfu: real, floor: real)
    requires regret.Length == |u| && cfu == Cfu(regret[..], u)
    modifies regret
    ensures regret[..] == Learn(old(regret[..]), u, floor)
  {
    ghost var r := regret[..];
    for a := 0 to regret.Length
      invariant forall b :: 0 <= b < regret.Length ==>
        regret[b] == if b < a then Clamp(r[b], u[b] - cfu, floor) else r[b]
    {
      var diff := u[a] - cfu;
      var temp := regret[a] + diff;
      if temp < floor {
        temp := floor;
      }
      regret[a] := temp;
    }
  }

  /** The sum of the squared positive regrets. */
  function Potential(r: seq<real>): real {
    Sum(Squares(r))
  }

  function Squares(r: seq<real>): (s: seq<real>)
    ensures |s| == |r| && forall a :: 0 <= a < |r| ==> s[a] == Square(Pos(r[a]))
  {
    seq(|r|, a requires 0 <= a < |r| => Square(Pos(r[a])))
  }

  ghost predicate Spread(u: seq<real>, d: real) {
    forall a, b :: 0 <= a < |u| && 0 <= b < |u| ==> u[a] - u[b] <= d
  }

  // ---------------------------------------------------------------- the policy is a distribution

  lemma Share(x: real, p: real)
    requires p > 0.0
    ensures Mul(p, x / p) == x && (x >= 0.0 ==> x / p >= 0.0)
  {
  }

  lemma PolicyScales(r: seq<real>, a: nat)
    requires a < |r| && Sum(Positives(r)) > 0.0
    ensures Mul(Sum(Positives(r)), Policy(r)[a]) == Pos(r[a]) && Policy(r)[a] >= 0.0
  {
    Share(Pos(r[a]), Sum(Positives(r)));
  }

  lemma SharesSum(r: seq<real>)
    requires Sum(Positives(r)) > 0.0
    ensures Sum(Policy(r)) == 1.0
  {
    var q, x := Positives(r), Policy(r);
    var p := Sum(q);
    forall a: nat ensures MultipliesAt(q, x, p, a) {
      if a < |r| { PolicyScales(r, a); }
    }
    SumIsShared(q, x, p);
  }

  lemma SumIsShared(q: seq<real>, x: seq<real>, p: real)
    requires Multiplies(q, x, p) && p == Sum(q) > 0.0
    ensures Sum(x) == 1.0
  {
    var sumX := SumOfMultiple(q, x, p);
    OneShare(p, sumX);
  }

  lemma EvenSharesSum(n: nat)
    requires n > 0
    ensures Sum(seq(n, _ => 1.0 / n as real)) == 1.0 && 1.0 / n as real >= 0.0
  {
    var c := 1.0 / n as real;
    SumOfConstant(seq(n, _ => c), c);
    TimesIsProduct(n, c);
    Share(1.0, n as real);
  }

  /** Actions are played in proportion to their positive regrets; without any, all alike. */
  lemma PolicyIsProportional(r: seq<real>, a: nat, b: nat)
    requires a < |r| && b < |r|
    ensures Policy(r)[a] * Pos(r[b]) == Policy(r)[b] * Pos(r[a])
    ensures (forall k :: 0 <= k < |r| ==> r[k] <= 0.0) ==> Policy(r)[a] == Policy(r)[b]
  {
    hide Sum, Pos;
    if Sum(Positives(r)) > 0.0 {
      Crosswise(Pos(r[a]), Pos(r[b]), Sum(Positives(r)));
    } else {
      NonePositive(r, a);
      NonePositive(r, b);
    }
    if forall k :: 0 <= k < |r| ==> r[k] <= 0.0 { NoPositives(r); }
  }

  lemma Crosswise(x: real, y: real, p: real)
    requires p > 0.0
    ensures x / p * y == y / p * x
  {
  }

  lemma NonePositive(r: seq<real>, a: nat)
    requires a < |r| && Sum(Positives(r)) <= 0.0
    ensures Pos(r[a]) == 0.0
  {
    SumNotNegative(Positives(r));
    assert Pos(r[a]) == Positives(r)[a];
  }

  lemma NoPositives(r: seq<real>)
    requires forall k :: 0 <= k < |r| ==> r[k] <= 0.0
    ensures Sum(Positives(r)) == 0.0
  {
    SumOfZeros(Positives(r));
  }

  lemma PolicyIsDistribution(r: seq<real>)
    requires r != []
    ensures Sum(Policy(r)) == 1.0
    ensures forall a :: 0 <= a < |r| ==> 0.0 <= Policy(r)[a]
  {
    if Sum(Positives(r)) > 0.0 {
      SharesSum(r);
      forall a | 0 <= a < |r| ensures 0.0 <= Policy(r)[a] { PolicyScales(r, a); }
    } else {
      EvenSharesSum(|r|);
      assert Policy(r) == seq(|r|, _ => 1.0 / |r| as real);
    }
  }

  lemma OneShare(p: real, x: real)
    requires p > 0.0 && p == Mul(p, x)
    ensures x == 1.0
  {
    TimesPlus(p, x, 1.0);
    NoneLeft(p, x - 1.0);
  }

  lemma NoneLeft(p: real, y: real)
    requires p > 0.0 && p * y == 0.0
    ensures y == 0.0
  {
  }

  lemma {:induction false} Extremes(u: seq<real>) returns (lo: real, hi: real)
    requires u != []
    ensures lo in u && hi in u && forall a :: 0 <= a < |u| ==> lo <= u[a] <= hi
  {
    if |u| == 1 {
      lo, hi := u[0], u[0];
    } else {
      var init := u[..|u| - 1];
      lo, hi := Extremes(init);
      lo := if u[|u| - 1] < lo then u[|u| - 1] else lo;
      hi := if u[|u| - 1] > hi then u[|u| - 1] else hi;
      forall a | 0 <= a < |u| ensures lo <= u[a] <= hi {
        if a < |u| - 1 { assert u[a] == init[a]; }
      }
    }
  }

  /** A weighted mean lies between the bounds of what is weighted. */
  lemma MeanBetween(x: seq<real>, u: seq<real>, lo: real, hi: real)
    requires |x| == |u| && Sum(x) == 1.0
    requires forall a :: 0 <= a < |x| ==> 0.0 <= x[a] && lo <= u[a] <= hi
    ensures lo <= Sum(Products(x, u)) <= hi
  {
    var z := Products(x, u);
    forall a: nat ensures BetweenAt(z, x, lo, hi, a) {
      if a < |x| { ScaledBetween(x[a], u[a], lo, hi); }
    }
    var sumX := SumBetween(z, x, lo, hi);
    TimesOne(lo);
    TimesOne(hi);
  }

  lemma TimesOne(x: real)
    ensures Mul(x, 1.0) == x
  {
  }

  lemma ScaledBetween(x: real, u: real, lo: real, hi: real)
    requires x >= 0.0 && lo <= u <= hi
    ensures Mul(lo, x) <= x * u <= Mul(hi, x)
  {
    TimesMono(x, lo, u);
    TimesMono(x, u, hi);
  }

  /** No action earns more than d above or below what the policy earns. */
  lemma RegretStepBounded(r: seq<real>, u: seq<real>, d: real, a: nat)
    requires a < |r| == |u| && Spread(u, d)
    ensures -d <= u[a] - Cfu(r, u) <= d
  {
    PolicyIsDistribution(r);
    var lo, hi := Extremes(u);
    MeanBetween(Policy(r), u, lo, hi);
  }

  // ---------------------------------------------------------------- the potential grows slowly

  /** The positive regrets, each times how much more than v its action earns. */
  function Pull(r: seq<real>, u: seq<real>, v: real): (z: seq<real>)
    requires |r| == |u|
    ensures |z| == |r| && forall a :: 0 <= a < |r| ==> z[a] == Mul(Pos(r[a]), u[a] - v)
  {
    seq(|r|, a requires 0 <= a < |r| => Mul(Pos(r[a]), u[a] - v))
  }

  lemma PullTerm(p: real, x: real, q: real, u: real, v: real)
    requires Mul(p, x) == q
    ensures Mul(q, u - v) == Mul(p, x * u) - Mul(v, q)
  {
    TimesPlus(q, u, v);
    assert (p * x) * u == p * (x * u);
  }

  lemma PullOfPolicy(r: seq<real>, u: seq<real>, v: real) returns (cfu: real)
    requires |r| == |u| && Sum(Positives(r)) > 0.0
    ensures cfu == Cfu(r, u) && Sum(Pull(r, u, v)) == Mul(Sum(Positives(r)), cfu) - Mul(v, Sum(Positives(r)))
  {
    var q, x, p := Positives(r), Policy(r), Sum(Positives(r));
    var z, xu := Pull(r, u, v), Products(x, u);
    forall a: nat ensures CombinesAt(z, xu, q, p, v, a) {
      if a < |r| { PullAt(r, u, v, a); }
    }
    var sumQ: real;
    cfu, sumQ := SumOfCombination(z, xu, q, p, v);
  }

  lemma PullAt(r: seq<real>, u: seq<real>, v: real, a: nat)
    requires a < |r| == |u| && Sum(Positives(r)) > 0.0
    ensures Pull(r, u, v)[a] ==
      Mul(Sum(Positives(r)), Products(Policy(r), u)[a]) - Mul(v, Positives(r)[a])
  {
    PolicyScales(r, a);
    PullTerm(Sum(Positives(r)), Policy(r)[a], Positives(r)[a], u[a], v);
  }

  lemma PullOfNothing(r: seq<real>, u: seq<real>, v: real)
    requires |r| == |u| && Sum(Positives(r)) <= 0.0
    ensures Sum(Pull(r, u, v)) == 0.0
  {
    var q, z := Positives(r), Pull(r, u, v);
    SumNotNegative(q);
    forall a | 0 <= a < |z| ensures z[a] == 0.0 { assert Mul(q[a], u[a] - v) == 0.0; }
    SumOfConstant(z, 0.0);
    TimesIsProduct(|z|, 0.0);
  }

  /** Regret matching makes the expected step orthogonal to the positive regrets. */
  lemma StepIsOrthogonal(r: seq<real>, u: seq<real>)
    requires |r| == |u|
    ensures Sum(Pull(r, u, Cfu(r, u))) == 0.0
  {
    var p, v := Sum(Positives(r)), Cfu(r, u);
    if p > 0.0 {
      var cfu := PullOfPolicy(r, u, v);
      MulCommutes(p, v);
    } else {
      PullOfNothing(r, u, Cfu(r, u));
    }
  }

  lemma MulCommutes(x: real, y: real)
    ensures Mul(x, y) == Mul(y, x)
  {
  }

  /** A square by name. */
  function Square(x: real): real { x * x }

  /** T * |A| * D^2. */
  function Cap(t: nat, n: nat, d: real): real { t as real * (n as real * (d * d)) }

  lemma SquareOfSum(p: real, diff: real)
    ensures (p + diff) * (p + diff) == p * p + 2.0 * (p * diff) + diff * diff
  {
  }

  lemma SquareStep(oldReg: real, diff: real, floor: real, d: real)
    requires floor <= 0.0 && -d <= diff <= d
    ensures var p, q := Pos(oldReg), Pos(Clamp(oldReg, diff, floor));
      Square(q) <= Square(p) + 2.0 * Mul(p, diff) + Square(d)
  {
    var p, q := Pos(oldReg), Pos(Clamp(oldReg, diff, floor));
    SquareOfSum(p, diff);
    SquareMono(if diff >= 0.0 then diff else -diff, d);
    if q > 0.0 {
      SquareMono(q, p + diff);
    } else {
      SquareMono(0.0, if p + diff >= 0.0 then p + diff else -(p + diff));
    }
  }

  /** One update of every regret by what its action earns more than v, at most d either way. */
  ghost predicate Steps(r: seq<real>, next: seq<real>, u: seq<real>, v: real, floor: real, d: real) {
    |r| == |u| == |next| && forall a: nat :: StepsAt(r, next, u, v, floor, d, a)
  }

  ghost predicate StepsAt(r: seq<real>, next: seq<real>, u: seq<real>, v: real, floor: real, d: real, a: nat)
    requires |r| == |u| == |next|
  {
    a < |r| ==> -d <= u[a] - v <= d && next[a] == Clamp(r[a], u[a] - v, floor)
  }

  lemma SquaresStep(r: seq<real>, next: seq<real>, u: seq<real>, v: real, floor: real, d: real)
    requires Steps(r, next, u, v, floor, d) && floor <= 0.0
    ensures Potential(next) <= Potential(r) + 2.0 * Sum(Pull(r, u, v)) + Times(|r|, Square(d))
  {
    var x, y, z := Squares(next), Squares(r), Pull(r, u, v);
    forall a | 0 <= a < |r| ensures x[a] <= y[a] + 2.0 * z[a] + Square(d) { StepBound(r, next, u, v, floor, d, a); }
    SumBound(x, y, z, Square(d));
  }

  lemma StepBound(r: seq<real>, next: seq<real>, u: seq<real>, v: real, floor: real, d: real, a: nat)
    requires Steps(r, next, u, v, floor, d) && floor <= 0.0 && a < |r|
    ensures Squares(next)[a] <= Squares(r)[a] + 2.0 * Pull(r, u, v)[a] + Square(d)
  {
    assert StepsAt(r, next, u, v, floor, d, a);
    SquareStep(r[a], u[a] - v, floor, d);
  }

  lemma LearnSteps(r: seq<real>, u: seq<real>, floor: real, d: real)
    requires |r| == |u| && Spread(u, d)
    ensures Steps(r, Learn(r, u, floor), u, Cfu(r, u), floor, d)
  {
    forall a: nat ensures StepsAt(r, Learn(r, u, floor), u, Cfu(r, u), floor, d, a) {
      if a < |r| { RegretStepBounded(r, u, d, a); }
    }
  }

  /** One update adds at most |A| * d^2 to the potential. */
  lemma LearnBoundsPotential(r: seq<real>, u: seq<real>, floor: real, d: real)
    requires |r| == |u| > 0 && Spread(u, d) && floor <= 0.0
    ensures Potential(Learn(r, u, floor)) <= Potential(r) + Times(|r|, Square(d))
  {
    LearnSteps(r, u, floor, d);
    SquaresStep(r, Learn(r, u, floor), u, Cfu(r, u), floor, d);
    StepIsOrthogonal(r, u);
  }

  // ---------------------------------------------------------------- many updates

  ghost predicate Utilities(us: seq<seq<real>>, n: nat, d: real) {
    forall t :: 0 <= t < |us| ==> |us[t]| == n && Spread(us[t], d)
  }

  /** The regrets after learning from the utilities us, from zero. */
  function Regrets(us: seq<seq<real>>, n: nat, floor: real): (r: seq<real>)
    requires forall t :: 0 <= t < |us| ==> |us[t]| == n
    ensures |r| == n
  {
    if us == [] then seq(n, _ => 0.0) else Learn(Regrets(us[..|us| - 1], n, floor), us[|us| - 1], floor)
  }

  /** What always playing action a would have earned more. */
  function Missed(us: seq<seq<real>>, n: nat, floor: real, a: nat): real
    requires a < n && forall t :: 0 <= t < |us| ==> |us[t]| == n
  {
    if us == [] then 0.0
    else
      var init, u := us[..|us| - 1], us[|us| - 1];
      Missed(init, n, floor, a) + u[a] - Cfu(Regrets(init, n, floor), u)
  }

  lemma ZeroPotential(n: nat)
    ensures Potential(seq(n, _ => 0.0)) == 0.0
  {
    var r := seq(n, _ => 0.0);
    SumOfConstant(Squares(r), 0.0);
    TimesIsProduct(n, 0.0);
  }

  lemma {:induction false} RegretsBounded(us: seq<seq<real>>, n: nat, floor: real, d: real)
    requires n > 0 && Utilities(us, n, d) && floor <= 0.0
    ensures Potential(Regrets(us, n, floor)) <= Times(|us|, Times(n, Square(d)))
  {
    if us == [] {
      ZeroPotential(n);
    } else {
      var t := |us| - 1;
      RegretsBounded(us[..t], n, floor, d);
      LearnBoundsPotential(Regrets(us[..t], n, floor), us[t], floor, d);
    }
  }

  /** After T updates the squared positive regrets sum to at most T * |A| * D^2. */
  lemma RegretBound(us: seq<seq<real>>, n: nat, floor: real, d: real)
    requires n > 0 && Utilities(us, n, d) && floor <= 0.0
    ensures Potential(Regrets(us, n, floor)) <= Cap(|us|, n, d)
  {
    RegretsBounded(us, n, floor, d);
    TwoTimes(|us|, n, d);
  }

  lemma TwoTimes(t: nat, n: nat, d: real)
    ensures Times(t, Times(n, Square(d))) == Cap(t, n, d)
  {
    TimesIsProduct(n, Square(d));
    TimesIsProduct(t, Times(n, Square(d)));
  }

  /** Clamping only adds: the stored regret is at least the regret. */
  lemma {:induction false} RegretCoversMissed(us: seq<seq<real>>, n: nat, floor: real, a: nat)
    requires a < n && forall t :: 0 <= t < |us| ==> |us[t]| == n
    ensures Missed(us, n, floor, a) <= Regrets(us, n, floor)[a]
  {
    if us != [] {
      RegretCoversMissed(us[..|us| - 1], n, floor, a);
      LearnAddsMissed(Regrets(us[..|us| - 1], n, floor), us[|us| - 1], floor, a);
    }
  }

  lemma LearnAddsMissed(r: seq<real>, u: seq<real>, floor: real, a: nat)
    requires a < |r| == |u|
    ensures Learn(r, u, floor)[a] >= r[a] + u[a] - Cfu(r, u)
  {
  }

  lemma OneSquareInPotential(r: seq<real>, a: nat, m: real)
    requires a < |r| && m <= r[a]
    ensures Square(Pos(m)) <= Potential(r)
  {
    var s := Squares(r);
    forall b | 0 <= b < |s| ensures s[b] >= 0.0 { SquareMono(0.0, Pos(r[b])); }
    SumNotNegative(s);
    SquareMono(Pos(m), Pos(r[a]));
  }

  /** No regret: always playing any one action would have earned at most sqrt(T * |A|) * D more. */
  lemma NoRegret(us: seq<seq<real>>, n: nat, floor: real, d: real, a: nat)
    requires a < n && Utilities(us, n, d) && floor <= 0.0
    ensures Square(Pos(Missed(us, n, floor, a))) <= Cap(|us|, n, d)
  {
    RegretBound(us, n, floor, d);
    RegretCoversMissed(us, n, floor, a);
    OneSquareInPotential(Regrets(us, n, floor), a, Missed(us, n, floor, a));
  }
}
