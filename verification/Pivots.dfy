/**
  The rounds of Compute in modules/engine/src/emd.cpp, as plans: what a pivot makes of one, and when the prices of one
  are accepted.
 */
module Pivots {
  import opened Transport
  import opened Basis
  import opened Prices

  /** A plan, and the number of its idle slot. */
  datatype Plan = Plan(xs: seq<Slot>, idle: nat)

  /** A slot at an odd place of the loop, and none there ships less. */
  ghost predicate LeastGiver(xs: seq<Slot>, loop: seq<nat>, leave: nat) {
    && leave < |xs| && (forall l :: 0 <= l < |loop| ==> loop[l] < |xs|)
    && (exists l :: 0 <= l < |loop| && l % 2 == 1 && loop[l] == leave)
    && forall l :: 0 <= l < |loop| && l % 2 == 1 ==> xs[leave].val <= xs[loop[l]].val
  }

  /** The slots of the basis are tight. */
  ghost predicate AllTightAt(c: seq<seq<real>>, p: Plan, u: seq<real>, v: seq<real>) {
    && Grid(c, |u|, |v|) && p.idle < |p.xs|
    && forall k: nat :: Live(k, |p.xs|, p.idle) ==> Tight(c, p.xs[k], u, v)
  }

  /** The idle slot has moved, and ships nothing where it stands. */
  ghost predicate IdleMoved(p: Plan, ys: seq<Slot>, n1: nat, n2: nat) {
    && p.idle < |p.xs| && |ys| == |p.xs| && ys[p.idle].val == 0.0 && ys[p.idle].i < n1 && ys[p.idle].j < n2
    && forall k: nat :: Live(k, |p.xs|, p.idle) ==> ys[k] == p.xs[k]
  }

  /**
    At tight prices the idle slot has moved to the cell cheapest against them, by more than the tolerance, and starts a
    loop there.
   */
  ghost predicate Entered(c: seq<seq<real>>, tolerance: real, p: Plan, u: seq<real>, v: seq<real>, ys: seq<Slot>,
                          loop: seq<nat>) {
    && AllTightAt(c, p, u, v) && IdleMoved(p, ys, |u|, |v|)
    && Reduced(ys[p.idle], c, u, v) < -tolerance
    && Dual(c, u, v, -Reduced(ys[p.idle], c, u, v))
    && Loop(ys, loop) && loop[0] == p.idle
  }

  /** Then the smallest giver of the loop leaves the basis, and its amount moves around the loop. */
  ghost predicate PivotsBy(c: seq<seq<real>>, tolerance: real, p: Plan, q: Plan, u: seq<real>, v: seq<real>,
                           ys: seq<Slot>, loop: seq<nat>) {
    && Entered(c, tolerance, p, u, v, ys, loop) && LeastGiver(ys, loop, q.idle)
    && q.xs == Pivoted(ys, loop, ys[q.idle].val, |loop| / 2)
  }

  ghost predicate IsPivot(c: seq<seq<real>>, tolerance: real, p: Plan, q: Plan) {
    exists u, v, ys, loop :: PivotsBy(c, tolerance, p, q, u, v, ys, loop)
  }

  /** Each plan comes from the one before by a pivot. */
  ghost predicate Rounds(c: seq<seq<real>>, tolerance: real, plans: seq<Plan>) {
    plans != [] && forall k: nat :: RoundAt(c, tolerance, plans, k)
  }

  ghost predicate RoundAt(c: seq<seq<real>>, tolerance: real, plans: seq<Plan>, k: nat) {
    k + 1 < |plans| ==> IsPivot(c, tolerance, plans[k], plans[k + 1])
  }

  /** At tight prices no cell is cheaper than its prices by more than the tolerance; ys is p but for its idle slot. */
  ghost predicate AcceptedBy(c: seq<seq<real>>, tolerance: real, p: Plan, ys: seq<Slot>, u: seq<real>, v: seq<real>) {
    AllTightAt(c, p, u, v) && IdleMoved(p, ys, |u|, |v|) && Dual(c, u, v, tolerance)
  }

  ghost predicate Accepted(c: seq<seq<real>>, tolerance: real, p: Plan, ys: seq<Slot>) {
    exists u, v :: AcceptedBy(c, tolerance, p, ys, u, v)
  }

  /** Every giver of the entering cell's loop ships the limit or more. */
  ghost predicate Blocked(c: seq<seq<real>>, tolerance: real, p: Plan, limit: real) {
    exists u, v, ys, loop :: Entered(c, tolerance, p, u, v, ys, loop) && AllGiveAtLeast(ys, loop, limit)
  }

  ghost predicate AllGiveAtLeast(xs: seq<Slot>, loop: seq<nat>, limit: real) {
    && (forall l :: 0 <= l < |loop| ==> loop[l] < |xs|)
    && forall l :: 0 <= l < |loop| && l % 2 == 1 ==> xs[loop[l]].val >= limit
  }

  lemma RoundsBegin(c: seq<seq<real>>, tolerance: real, p: Plan)
    ensures Rounds(c, tolerance, [p])
  {
    forall k: nat ensures RoundAt(c, tolerance, [p], k) {}
  }

  lemma RoundsGrow(c: seq<seq<real>>, tolerance: real, plans: seq<Plan>, q: Plan)
    requires Rounds(c, tolerance, plans) && IsPivot(c, tolerance, plans[|plans| - 1], q)
    ensures Rounds(c, tolerance, plans + [q])
  {
    hide IsPivot;
    forall k: nat ensures RoundAt(c, tolerance, plans + [q], k) { assert RoundAt(c, tolerance, plans, k); }
  }
}
