/**
  The fold evaluation: the weight of all opponent hands that share no card with mine, summed pair by
  pair or as the whole range less what each of my two cards takes away.
 */
module FoldSums {
  import opened Cards

  function Pos(x: real): real { if x > 0.0 then x else 0.0 }

  /** Weight above zero of the opponent hands below n that share no card with hand v. */
  function FoldSum(opp: seq<real>, v: nat, n: nat): real
    requires n <= |opp|
  {
    if n == 0 then 0.0
    else FoldSum(opp, v, n - 1) + if n - 1 == v || VectorIdxClash(v, n - 1) then 0.0 else Pos(opp[n - 1])
  }

  predicate HandHas(v: nat, c: int) {
    FromVectorIndex(v).0 == c || FromVectorIndex(v).1 == c
  }

  /** Weight above zero of the hands below n. */
  function Total(opp: seq<real>, n: nat): real
    requires n <= |opp|
  {
    if n == 0 then 0.0 else Total(opp, n - 1) + Pos(opp[n - 1])
  }

  /** Weight above zero of the hands below n that hold card c. */
  function WithCard(opp: seq<real>, c: int, n: nat): real
    requires n <= |opp|
  {
    if n == 0 then 0.0 else WithCard(opp, c, n - 1) + if HandHas(n - 1, c) then Pos(opp[n - 1]) else 0.0
  }

  /** Only hand v itself holds both its cards. */
  lemma BothCards(v: nat, u: nat)
    ensures var (high, low) := FromVectorIndex(v);
      && (VectorIdxClash(v, u) <==> HandHas(u, high) || HandHas(u, low))
      && (HandHas(u, high) && HandHas(u, low) <==> u == v)
  {
    var a, b := IndexOfPair(v);
    var c, d := IndexOfPair(u);
    ClashIsSharing(v, u);
  }

  lemma {:induction false} FoldByCards(opp: seq<real>, v: nat, n: nat)
    requires n <= |opp|
    ensures var (high, low) := FromVectorIndex(v);
      FoldSum(opp, v, n) == Total(opp, n) - WithCard(opp, high, n) - WithCard(opp, low, n)
        + if v < n then Pos(opp[v]) else 0.0
  {
    if n > 0 {
      FoldByCards(opp, v, n - 1);
      BothCards(v, n - 1);
    }
  }

  /** What FastFoldEval makes of hand v: its own weight goes in unclipped. */
  function FastFold(opp: seq<real>, v: nat): real
    requires v < |opp|
  {
    var (high, low) := FromVectorIndex(v);
    Total(opp, |opp|) - (WithCard(opp, high, |opp|) + WithCard(opp, low, |opp|) - opp[v])
  }

  /** The two agree on hand v exactly when the opponent's weight of hand v is not negative, as a mask is. */
  lemma FoldEvalsAgree(opp: seq<real>, v: nat)
    requires v < |opp|
    ensures FastFold(opp, v) == FoldSum(opp, v, |opp|) <==> opp[v] >= 0.0
  {
    FoldByCards(opp, v, |opp|);
  }
}
