/**
  The belief operations of modules/engine/src/hand_belief.h on one array with a weight for every hand;
  an entry within an epsilon of -1 counts as masked wherever it stands.
 */
module Beliefs {
  import opened Sums
  import opened WalkValues
  import Cards

  predicate Avoids(v: nat, board: set<nat>) {
    var (high, low) := Cards.FromVectorIndex(v);
    high !in board && low !in board
  }

  /** Scale. */
  function Scaled(o: seq<real>, c: real): (s: seq<real>)
    ensures |s| == |o| && forall v :: 0 <= v < |o| ==> s[v] == ScaleOne(o[v], c)
  {
    seq(|o|, v requires 0 <= v < |o| => ScaleOne(o[v], c))
  }

  function ScaleOne(x: real, c: real): real {
    if IsPruned(x) then x else x * c
  }

  method Scale(o: array<real>, c: real)
    modifies o
    ensures o[..] == Scaled(old(o[..]), c)
  {
    for v := 0 to o.Length
      invariant forall u :: 0 <= u < o.Length ==> o[u] == if u < v then ScaleOne(old(o[u]), c) else old(o[u])
    {
      if !IsPruned(o[v]) {
        o[v] := o[v] * c;
      }
    }
  }

  /** DotMultiply. */
  function Multiplied(c: seq<real>, x: seq<real>): (m: seq<real>)
    requires |c| == |x|
    ensures |m| == |c| && forall v :: 0 <= v < |c| ==> m[v] == MultiplyOne(c[v], x[v])
  {
    seq(|c|, v requires 0 <= v < |c| => MultiplyOne(c[v], x[v]))
  }

  function MultiplyOne(c: real, x: real): real {
    if IsPruned(c) || IsPruned(x) then c else c * x
  }

  method DotMultiply(c: array<real>, x: array<real>)
    requires c.Length == x.Length && c != x
    modifies c
    ensures c[..] == Multiplied(old(c[..]), x[..])
  {
    for v := 0 to c.Length
      invariant x[..] == old(x[..])
      invariant forall u :: 0 <= u < c.Length ==> c[u] == if u < v then MultiplyOne(old(c[u]), x[u]) else old(c[u])
    {
      if !IsPruned(c[v]) && !IsPruned(x[v]) {
        c[v] := c[v] * x[v];
      }
    }
  }

  /** The entries that are not masked; the others count zero. */
  function Unmasked(o: seq<real>): (u: seq<real>)
    ensures |u| == |o| && forall v :: 0 <= v < |o| ==> u[v] == if IsPruned(o[v]) then 0.0 else o[v]
  {
    seq(|o|, v requires 0 <= v < |o| => if IsPruned(o[v]) then 0.0 else o[v])
  }

  method BeliefSum(o: array<real>) returns (sum: real)
    ensures sum == Sum(Unmasked(o[..]))
  {
    sum := 0.0;
    ghost var u := Unmasked(o[..]);
    for v := 0 to o.Length
      invariant sum == Sum(u[..v])
    {
      assert u[..v + 1][..v] == u[..v];
      if !IsPruned(o[v]) {
        sum := sum + o[v];
      }
    }
    assert u[..o.Length] == u;
  }

  /** ExcludeBoard. */
  function Excluded(o: seq<real>, board: set<nat>): (e: seq<real>)
    ensures |e| == |o| && forall v: nat :: v < |o| ==> e[v] == if Avoids(v, board) then o[v] else BELIEF_MASK
  {
    seq(|o|, v requires 0 <= v < |o| => if Avoids(v, board) then o[v] else BELIEF_MASK)
  }

  /** Normalize: a range without any weight becomes uniform. */
  function Normalized(o: seq<real>): (n: seq<real>)
    ensures |n| == |o| && forall v :: 0 <= v < |o| ==> n[v] == NormalOne(o[v], Sum(Unmasked(o)), |o|)
  {
    seq(|o|, v requires 0 <= v < |o| => NormalOne(o[v], Sum(Unmasked(o)), |o|))
  }

  function NormalOne(x: real, sum: real, size: nat): real
    requires size > 0
  {
    if IsPruned(x) then x else if sum == 0.0 then 1.0 / size as real else x * (1.0 / sum)
  }

  method NormalizeExcludeBoard(o: array<real>, board: set<nat>)
    modifies o
    ensures o[..] == Normalized(Excluded(old(o[..]), board))
  {
    ghost var e := Excluded(o[..], board);
    for v := 0 to o.Length
      invariant forall u :: 0 <= u < o.Length ==> o[u] == if u < v then e[u] else old(o[u])
    {
      var highLow := Cards.FromVectorIndex(v);
      if highLow.0 in board || highLow.1 in board {
        o[v] := BELIEF_MASK;
      }
    }
    assert o[..] == e;
    var sum := BeliefSum(o);
    if sum == 0.0 {
      for v := 0 to o.Length
        invariant forall u :: 0 <= u < o.Length ==> o[u] == if u < v then NormalOne(e[u], sum, |e|) else e[u]
      {
        if !IsPruned(o[v]) {
          o[v] := 1.0 / o.Length as real;
        }
      }
    } else {
      var scaler := 1.0 / sum;
      for v := 0 to o.Length
        invariant forall u :: 0 <= u < o.Length ==> o[u] == if u < v then NormalOne(e[u], sum, |e|) else e[u]
      {
        if !IsPruned(o[v]) {
          o[v] := o[v] * scaler;
        }
      }
    }
  }

  /** A range stays one, with the hands that meet the board masked. */
  lemma NormalizedIsRange(o: seq<real>, board: set<nat>)
    requires Range(o)
    ensures forall v: nat :: v < |o| ==>
      var x := Normalized(Excluded(o, board))[v]; if Avoids(v, board) then x >= 0.0 else x == BELIEF_MASK
  {
    var e := Excluded(o, board);
    SumNotNegative(Unmasked(e));
    forall v: nat | v < |o| && Avoids(v, board) ensures Normalized(e)[v] >= 0.0 {
      NormalNotNegative(e[v], Sum(Unmasked(e)), |o|);
    }
  }

  lemma NormalNotNegative(x: real, sum: real, size: nat)
    requires size > 0 && x >= 0.0 && sum >= 0.0
    ensures NormalOne(x, sum, size) >= 0.0
  {
    if sum > 0.0 {
      assert 1.0 / sum >= 0.0;
      TimesMono(x, 0.0, 1.0 / sum);
    } else {
      assert 1.0 / size as real >= 0.0;
    }
  }

  lemma NormalizedAt(o: seq<real>, v: nat)
    requires v < |o| && Range(Unmasked(o)) && Sum(Unmasked(o)) > 0.0
    ensures var s := Sum(Unmasked(o)); Unmasked(Normalized(o))[v] == (1.0 / s) * Unmasked(o)[v]
  {
    var s, u := Sum(Unmasked(o)), Unmasked(o);
    if !IsPruned(o[v]) { NormalNotNegative(u[v], s, |o|); }
  }

  /** Normalizing makes the weights add up to one. */
  lemma NormalizedSumsToOne(o: seq<real>)
    requires Sum(Unmasked(o)) != 0.0 && Range(Unmasked(o))
    ensures Sum(Unmasked(Normalized(o))) == 1.0
  {
    var u, s := Unmasked(o), Sum(Unmasked(o));
    var n := Unmasked(Normalized(o));
    SumNotNegative(u);
    var c := 1.0 / s;
    forall v: nat ensures MultipliesAt(n, u, c, v) {
      if v < |o| { NormalizedAt(o, v); }
    }
    WholeIsOne(n, u, s);
  }

  lemma WholeIsOne(n: seq<real>, u: seq<real>, s: real)
    requires s == Sum(u) > 0.0 && Multiplies(n, u, 1.0 / s)
    ensures Sum(n) == 1.0
  {
    var sumU := SumOfMultiple(n, u, 1.0 / s);
    assert (1.0 / s) * s == 1.0;
  }

  /** Normalizing keeps the odds of any two hands that are not masked, and masked hands masked. */
  lemma NormalizedKeepsOdds(o: seq<real>, u: nat, v: nat)
    requires u < |o| && v < |o| && Sum(Unmasked(o)) != 0.0
    ensures !IsPruned(o[u]) && !IsPruned(o[v]) ==> Normalized(o)[u] * o[v] == Normalized(o)[v] * o[u]
    ensures IsPruned(o[u]) ==> Normalized(o)[u] == o[u]
  {
    var f := 1.0 / Sum(Unmasked(o));
    assert (o[u] * f) * o[v] == (o[v] * f) * o[u];
  }
}
