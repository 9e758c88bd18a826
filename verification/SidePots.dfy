/**
  Side pots.  The value of a showdown is defined chip by chip: the t-th chip of every player who put
  in at least t chips forms one layer, and the best hands in the layer split it.  The loop of
  valueOfState, which peels off whole side pots and compacts its arrays in place, computes exactly
  that, and the values of all players sum to zero exactly when the largest stake is held by a player
  with a hand to show.
 */
module SidePots {

  /** What a player put in, and the rank of his hand; -1 for a folded or mucked hand. */
  datatype Stake = Stake(spent: int, rank: int)

  const INT32_MAX: int := 0x7fff_ffff

  // ---------------------------------------------------------------- one layer

  function InLayer(e: seq<Stake>, t: int): nat {
    if e == [] then 0
    else InLayer(e[..|e| - 1], t) + if e[|e| - 1].spent >= t then 1 else 0
  }

  /** The best rank in layer t; never below 0, so rank -1 never wins. */
  function Best(e: seq<Stake>, t: int): int {
    if e == [] then 0
    else
      var b := Best(e[..|e| - 1], t);
      if e[|e| - 1].spent >= t && e[|e| - 1].rank > b then e[|e| - 1].rank else b
  }

  function WithRank(e: seq<Stake>, t: int, r: int): nat {
    if e == [] then 0
    else WithRank(e[..|e| - 1], t, r) + if e[|e| - 1].spent >= t && e[|e| - 1].rank == r then 1 else 0
  }

  lemma {:induction false} RankPresent(e: seq<Stake>, t: int, r: int)
    ensures WithRank(e, t, r) > 0 <==> exists i :: 0 <= i < |e| && e[i].spent >= t && e[i].rank == r
  {
    if e != [] {
      RankPresent(e[..|e| - 1], t, r);
      if i :| 0 <= i < |e| && e[i].spent >= t && e[i].rank == r {
        if i < |e| - 1 { assert e[..|e| - 1][i] == e[i]; }
      }
    }
  }

  lemma {:induction false} BestIsBest(e: seq<Stake>, t: int)
    ensures Best(e, t) >= 0
    ensures forall i :: 0 <= i < |e| && e[i].spent >= t ==> e[i].rank <= Best(e, t)
    ensures Best(e, t) == 0 || WithRank(e, t, Best(e, t)) > 0
  {
    if e != [] {
      var init := e[..|e| - 1];
      BestIsBest(init, t);
      forall i | 0 <= i < |e| && e[i].spent >= t ensures e[i].rank <= Best(e, t) {
        if i < |e| - 1 { assert init[i] == e[i]; }
      }
    }
  }

  lemma {:induction false} CountsInOrder(e: seq<Stake>, t: int, r: int)
    ensures WithRank(e, t, r) <= InLayer(e, t) <= |e|
  {
    if e != [] { CountsInOrder(e[..|e| - 1], t, r); }
  }

  /** What winning one chip layer pays. */
  function Share(in_: nat, winners: nat): real
    requires winners > 0
  {
    (in_ - winners) as real / winners as real
  }

  /** What player i gets out of layer t. */
  function Layer(e: seq<Stake>, i: nat, t: int): real
    requires i < |e| && e[i].spent >= t
  {
    RankPresent(e, t, e[i].rank);
    if e[i].rank == Best(e, t) then Share(InLayer(e, t), WithRank(e, t, Best(e, t))) else -1.0
  }

  /** What player i gets out of layers 1 to b. */
  function Layers(e: seq<Stake>, i: nat, b: nat): real
    requires i < |e| && b <= e[i].spent
  {
    if b == 0 then 0.0 else Layers(e, i, b - 1) + Layer(e, i, b)
  }

  /** What player i wins or loses in the showdown. */
  function Value(e: seq<Stake>, i: nat): real
    requires i < |e| && e[i].spent >= 0
  {
    Layers(e, i, e[i].spent)
  }

  // ---------------------------------------------------------------- the values sum to zero

  ghost predicate NoNegative(e: seq<Stake>) {
    forall i :: 0 <= i < |e| ==> e[i].spent >= 0
  }

  function LayerOrNot(e: seq<Stake>, i: nat, t: int): real
    requires i < |e|
  {
    if e[i].spent >= t then Layer(e, i, t) else 0.0
  }

  function SumValues(e: seq<Stake>, k: nat): real
    requires k <= |e| && NoNegative(e)
  {
    if k == 0 then 0.0 else SumValues(e, k - 1) + Value(e, k - 1)
  }

  /** Layer t summed over the first k players. */
  function SumLayer(e: seq<Stake>, k: nat, t: int): real
    requires k <= |e|
  {
    if k == 0 then 0.0 else SumLayer(e, k - 1, t) + LayerOrNot(e, k - 1, t)
  }

  function SumLayers(e: seq<Stake>, k: nat, top: nat): real
    requires k <= |e|
  {
    if top == 0 then 0.0 else SumLayers(e, k, top - 1) + SumLayer(e, k, top)
  }

  function PlayerLayers(e: seq<Stake>, i: nat, top: nat): real
    requires i < |e|
  {
    if top == 0 then 0.0 else PlayerLayers(e, i, top - 1) + LayerOrNot(e, i, top)
  }

  lemma {:induction false} PlayerLayersAreValue(e: seq<Stake>, i: nat, top: nat)
    requires i < |e| && e[i].spent >= 0
    ensures PlayerLayers(e, i, top) == Layers(e, i, if top <= e[i].spent then top else e[i].spent)
  {
    if top > 0 { PlayerLayersAreValue(e, i, top - 1); }
  }

  lemma {:induction false} SumLayersSnoc(e: seq<Stake>, k: nat, top: nat)
    requires 0 < k <= |e|
    ensures SumLayers(e, k, top) == SumLayers(e, k - 1, top) + PlayerLayers(e, k - 1, top)
  {
    if top > 0 { SumLayersSnoc(e, k, top - 1); }
  }

  lemma {:induction false} SumLayersOfNobody(e: seq<Stake>, top: nat)
    ensures SumLayers(e, 0, top) == 0.0
  {
    if top > 0 { SumLayersOfNobody(e, top - 1); }
  }

  /** Summing by player or by layer is the same. */
  lemma {:induction false} ValuesByLayer(e: seq<Stake>, k: nat, top: nat)
    requires k <= |e| && NoNegative(e)
    requires forall i :: 0 <= i < |e| ==> e[i].spent <= top
    ensures SumValues(e, k) == SumLayers(e, k, top)
  {
    if k == 0 {
      SumLayersOfNobody(e, top);
    } else {
      ValuesByLayer(e, k - 1, top);
      SumLayersSnoc(e, k, top);
      PlayerLayersAreValue(e, k - 1, top);
    }
  }

  lemma {:induction false} LayerPays(e: seq<Stake>, k: nat, t: int, best: int, pay: real)
    requires k <= |e| && best == Best(e, t)
    requires WithRank(e, t, best) > 0 ==> pay == Share(InLayer(e, t), WithRank(e, t, best))
    ensures SumLayer(e, k, t) ==
      Paid(WithRank(e[..k], t, best), pay) - (InLayer(e[..k], t) - WithRank(e[..k], t, best)) as real
  {
    if k > 0 {
      LayerPays(e, k - 1, t, best, pay);
      assert e[..k][..k - 1] == e[..k - 1];
      RankPresent(e, t, best);
      OnePayMore(WithRank(e[..k - 1], t, best), pay);
      hide Paid;
    } else {
      assert e[..0] == [];
    }
  }

  /** What w winners of a layer get together. */
  function Paid(w: int, pay: real): real { w as real * pay }

  lemma OnePayMore(w: int, pay: real)
    ensures Paid(w + 1, pay) == Paid(w, pay) + pay
  {
  }

  lemma SharesPayOut(n: nat, w: nat)
    requires w > 0
    ensures Paid(w, Share(n, w)) == (n - w) as real
  {
  }

  /** A layer pays out what it takes in, unless nobody in it has a hand to show. */
  lemma LayerBalances(e: seq<Stake>, t: int)
    ensures WithRank(e, t, Best(e, t)) > 0 ==> SumLayer(e, |e|, t) == 0.0
    ensures WithRank(e, t, Best(e, t)) == 0 ==> SumLayer(e, |e|, t) == -(InLayer(e, t) as real)
  {
    var w, n := WithRank(e, t, Best(e, t)), InLayer(e, t);
    assert e[..|e|] == e;
    CountsInOrder(e, t, Best(e, t));
    if w > 0 {
      LayerPays(e, |e|, t, Best(e, t), Share(n, w));
      SharesPayOut(n, w);
    } else {
      LayerPays(e, |e|, t, Best(e, t), 0.0);
    }
  }

  /** A player with a hand to show has put in at least t. */
  ghost predicate LiveAt(e: seq<Stake>, t: int) {
    exists i :: 0 <= i < |e| && e[i].spent >= t && e[i].rank >= 0
  }

  lemma LiveLayer(e: seq<Stake>, t: int)
    ensures LiveAt(e, t) <==> WithRank(e, t, Best(e, t)) > 0
  {
    BestIsBest(e, t);
    RankPresent(e, t, Best(e, t));
    if i :| 0 <= i < |e| && e[i].spent >= t && e[i].rank >= 0 {
      assert e[i].rank == 0 || Best(e, t) > 0;
    }
  }

  lemma {:induction false} LayersNotPositive(e: seq<Stake>, top: nat)
    ensures SumLayers(e, |e|, top) <= 0.0
    ensures LiveAt(e, top) ==> SumLayers(e, |e|, top) == 0.0
  {
    if top > 0 {
      LayersNotPositive(e, top - 1);
      LayerBalances(e, top);
      LiveLayer(e, top);
      if i :| 0 <= i < |e| && e[i].spent >= top && e[i].rank >= 0 { assert LiveAt(e, top - 1); }
    }
  }

  /** The values of all players sum to zero exactly when a largest stake is live (or nothing is staked). */
  lemma ShowdownIsZeroSum(e: seq<Stake>, top: nat)
    requires NoNegative(e)
    requires forall i :: 0 <= i < |e| ==> e[i].spent <= top
    requires exists i :: 0 <= i < |e| && e[i].spent == top
    ensures SumValues(e, |e|) == 0.0 <==> top == 0 || LiveAt(e, top)
  {
    ValuesByLayer(e, |e|, top);
    LayersNotPositive(e, top);
    if top > 0 && !LiveAt(e, top) {
      LayersNotPositive(e, top - 1);
      LayerBalances(e, top);
      LiveLayer(e, top);
      var i :| 0 <= i < |e| && e[i].spent == top;
      StakeCounts(e, top, i);
    }
  }

  lemma {:induction false} StakeCounts(e: seq<Stake>, t: int, i: nat)
    requires i < |e| && e[i].spent >= t
    ensures InLayer(e, t) > 0
  {
    if i < |e| - 1 { StakeCounts(e[..|e| - 1], t, i); }
  }

  /** A hand that cannot win loses its whole stake. */
  lemma {:induction false} DeadHandLosesStake(e: seq<Stake>, i: nat, b: nat)
    requires i < |e| && b <= e[i].spent && e[i].rank < 0
    ensures Layers(e, i, b) == -(b as real)
  {
    if b > 0 {
      DeadHandLosesStake(e, i, b - 1);
      BestIsBest(e, b);
    }
  }

  // ---------------------------------------------------------------- peeling off a side pot

  /** The stakes left once the first b chips of everybody are gone. */
  function Remain(e: seq<Stake>, b: int): seq<Stake> {
    if e == [] then []
    else
      Remain(e[..|e| - 1], b)
      + if e[|e| - 1].spent > b then [Stake(e[|e| - 1].spent - b, e[|e| - 1].rank)] else []
  }

  lemma {:induction false} RemainPositive(e: seq<Stake>, b: int)
    ensures forall j :: 0 <= j < |Remain(e, b)| ==> Remain(e, b)[j].spent > 0
  {
    if e != [] { RemainPositive(e[..|e| - 1], b); }
  }

  lemma {:induction false} RemainOfRemain(e: seq<Stake>, b: int, size: int)
    requires size >= 0
    ensures Remain(Remain(e, b), size) == Remain(e, b + size)
  {
    if e != [] {
      var init, last := e[..|e| - 1], e[|e| - 1];
      RemainOfRemain(init, b, size);
      if last.spent > b {
        var r := Remain(e, b);
        assert r[..|r| - 1] == Remain(init, b) && r[|r| - 1] == Stake(last.spent - b, last.rank);
      } else {
        assert Remain(e, b) == Remain(init, b) && Remain(e, b + size) == Remain(init, b + size);
      }
    }
  }

  lemma {:induction false} RemainPrefix(e: seq<Stake>, i: nat, b: int)
    requires i < |e| && e[i].spent > b
    ensures |Remain(e[..i], b)| < |Remain(e, b)|
    ensures Remain(e, b)[|Remain(e[..i], b)|] == Stake(e[i].spent - b, e[i].rank)
    ensures Remain(e, b)[..|Remain(e[..i], b)|] == Remain(e[..i], b)
  {
    if i < |e| - 1 {
      var init := e[..|e| - 1];
      assert init[..i] == e[..i];
      RemainPrefix(init, i, b);
    }
  }

  /** Every layer of the smallest remaining side pot has the players that are left. */
  lemma {:induction false} LayersOfPot(e: seq<Stake>, b: int, size: int, t: int, r: int)
    requires b < t <= b + size
    requires forall j :: 0 <= j < |Remain(e, b)| ==> Remain(e, b)[j].spent >= size
    ensures InLayer(e, t) == InLayer(Remain(e, b), 1) == |Remain(e, b)|
    ensures Best(e, t) == Best(Remain(e, b), 1)
    ensures WithRank(e, t, r) == WithRank(Remain(e, b), 1, r)
  {
    if e != [] {
      var init, last := e[..|e| - 1], e[|e| - 1];
      var rest := Remain(init, b);
      forall j | 0 <= j < |rest| ensures rest[j].spent >= size {
        assert rest[j] == Remain(e, b)[j];
      }
      LayersOfPot(init, b, size, t, r);
      if last.spent > b {
        var r := Remain(e, b);
        assert r[..|r| - 1] == rest && r[|r| - 1] == Stake(last.spent - b, last.rank);
        assert r[|r| - 1].spent >= size;
      } else {
        assert Remain(e, b) == rest;
      }
    }
  }

  /** What a side pot of the given size is worth to player i of the pot. */
  function Gain(pot: seq<Stake>, i: nat, size: nat): real
    requires i < |pot|
  {
    var w := WithRank(pot, 1, Best(pot, 1));
    if pot[i].rank != Best(pot, 1) then -(size as real)
    else if w > 0 then (size * (|pot| - w)) as real / w as real
    else 0.0
  }

  /** The worth of the smallest remaining side pot is the sum of its layers. */
  lemma {:induction false} PotIsItsLayers(e: seq<Stake>, i: nat, b: nat, size: nat, done: nat)
    requires i < |e| && b + size <= e[i].spent && done <= size && b < e[i].spent
    requires forall j :: 0 <= j < |Remain(e, b)| ==> Remain(e, b)[j].spent >= size
    requires var k := |Remain(e[..i], b)|; k < |Remain(e, b)| && Remain(e, b)[k].rank == e[i].rank
    ensures Layers(e, i, b + done) == Layers(e, i, b) + Gain(Remain(e, b), |Remain(e[..i], b)|, done)
  {
    if done > 0 {
      PotIsItsLayers(e, i, b, size, done - 1);
      var pot := Remain(e, b);
      LayersOfPot(e, b, size, b + done, Best(pot, 1));
      RankPresent(e, b + done, e[i].rank);
      if e[i].rank == Best(pot, 1) {
        AddShare(done, |pot|, WithRank(pot, 1, Best(pot, 1)));
      }
    }
  }

  lemma AddShare(done: nat, n: nat, w: nat)
    requires done > 0 && w > 0
    ensures (done * (n - w)) as real / w as real == ((done - 1) * (n - w)) as real / w as real + Share(n, w)
  {
    assert done * (n - w) == (done - 1) * (n - w) + (n - w);
  }

  // ---------------------------------------------------------------- the loop

  /** The arrays start with the stakes of pot. */
  ghost predicate Holds(spent: array<int>, rank: array<int>, pot: seq<Stake>)
    reads spent, rank
  {
    |pot| <= spent.Length == rank.Length && forall i :: 0 <= i < |pot| ==> pot[i] == Stake(spent[i], rank[i])
  }

  ghost predicate Positive(pot: seq<Stake>) {
    forall i :: 0 <= i < |pot| ==> 0 < pot[i].spent <= INT32_MAX
  }

  ghost predicate AtLeast(pot: seq<Stake>, size: int) {
    forall i :: 0 <= i < |pot| ==> size <= pot[i].spent
  }

  lemma {:induction false} NewBestIsAlone(e: seq<Stake>, r: int)
    requires r > Best(e, 1)
    ensures WithRank(e, 1, r) == 0
  {
    if e != [] { NewBestIsAlone(e[..|e| - 1], r); }
  }

  /** The smallest stake, the best rank and the number of its holders in the pot. */
  method ScanPot(spent: array<int>, rank: array<int>, n: nat, ghost pot: seq<Stake>)
    returns (size: int, winRank: int, winners: nat)
    requires Holds(spent, rank, pot) && |pot| == n > 0 && Positive(pot)
    ensures winRank == Best(pot, 1) && winners == WithRank(pot, 1, winRank)
    ensures 0 < size && AtLeast(pot, size) && exists i :: 0 <= i < n && pot[i].spent == size
  {
    size, winRank, winners := INT32_MAX, 0, 0;
    for p := 0 to n
      invariant winRank == Best(pot[..p], 1) && winners == WithRank(pot[..p], 1, winRank)
      invariant 0 < size <= INT32_MAX && AtLeast(pot[..p], size)
      invariant size == INT32_MAX || exists i :: 0 <= i < p && pot[i].spent == size
    {
      assert pot[..p + 1][..p] == pot[..p] && pot[p] == Stake(spent[p], rank[p]);
      NewBestIsAlone(pot[..p], winRank + 1);
      if spent[p] < size {
        size := spent[p];
      }
      if rank[p] > winRank {
        NewBestIsAlone(pot[..p], rank[p]);
        winRank := rank[p];
        winners := 1;
      } else if rank[p] == winRank {
        winners := winners + 1;
      }
    }
    assert pot[..n] == pot;
    if size == INT32_MAX { assert pot[0].spent == size; }
  }

  /** Takes size out of every stake and drops the players with nothing left, in place. */
  method TakePot(spent: array<int>, rank: array<int>, n: nat, playerIdx: nat, size: int, ghost pot: seq<Stake>)
    returns (newN: nat, newIdx: nat, done: bool)
    requires Holds(spent, rank, pot) && |pot| == n && AtLeast(pot, size)
    requires playerIdx < n && spent != rank
    modifies spent, rank
    ensures done <==> pot[playerIdx].spent == size
    ensures !done ==> newN == |Remain(pot, size)| && Holds(spent, rank, Remain(pot, size))
    ensures !done ==> newIdx == |Remain(pot[..playerIdx], size)|
  {
    newN, newIdx, done := 0, playerIdx, false;
    for p := 0 to n
      invariant newN == |Remain(pot[..p], size)| <= p && Holds(spent, rank, Remain(pot[..p], size))
      invariant forall i :: p <= i < n ==> Stake(spent[i], rank[i]) == pot[i]
      invariant newIdx == if p <= playerIdx then playerIdx else |Remain(pot[..playerIdx], size)|
      invariant p > playerIdx ==> newIdx < newN && pot[playerIdx].spent != size
    {
      assert pot[..p + 1][..p] == pot[..p] && pot[p] == Stake(spent[p], rank[p]);
      spent[p] := spent[p] - size;
      if spent[p] == 0 {
        if p == newIdx {
          done := true;
          return;
        }
        continue;
      }
      if p == newIdx {
        newIdx := newN;
      }
      if p != newN {
        spent[newN] := spent[p];
        rank[newN] := rank[p];
      }
      newN := newN + 1;
    }
    assert pot[..n] == pot;
  }

  /** One round of the loop: value the smallest side pot for the player at idx and take it out. */
  method PlayPot(spent: array<int>, rank: array<int>, n: nat, idx: nat, value: real, ghost pot: seq<Stake>)
    returns (newValue: real, newN: nat, newIdx: nat, done: bool, ghost size: nat)
    requires Holds(spent, rank, pot) && |pot| == n && Positive(pot) && idx < n && spent != rank
    modifies spent, rank
    ensures 0 < size && AtLeast(pot, size) && (done <==> pot[idx].spent == size)
    ensures newValue == value + Gain(pot, idx, size)
    ensures !done ==> newN == |Remain(pot, size)| && Holds(spent, rank, Remain(pot, size))
    ensures !done ==> newIdx == |Remain(pot[..idx], size)|
  {
    var pay, winRank, winners := ScanPot(spent, rank, n, pot);
    RankPresent(pot, 1, rank[idx]);
    size := pay;
    if rank[idx] == winRank {
      newValue := value + (pay * (n - winners)) as real / winners as real;
    } else {
      newValue := value - pay as real;
    }
    newN, newIdx, done := TakePot(spent, rank, n, idx, pay, pot);
  }

  /** The side-pot loop of valueOfState, for the player at playerIdx. */
  method SidePotLoop(spent: array<int>, rank: array<int>, numPlayers: nat, playerIdx: nat, ghost e: seq<Stake>)
    returns (value: real)
    requires Holds(spent, rank, e) && |e| == numPlayers && Positive(e) && playerIdx < numPlayers && spent != rank
    modifies spent, rank
    ensures value == Value(e, playerIdx)
  {
    ghost var b: nat, size: nat := 0, 0;
    ghost var pot, at: nat := e, playerIdx;
    var n: nat, idx: nat := numPlayers, playerIdx;
    value := 0.0;
    AllLeft(e, playerIdx);
    var done := false;
    while !done
      invariant b <= e[playerIdx].spent && (done <==> b == e[playerIdx].spent)
      invariant value == Layers(e, playerIdx, b)
      invariant !done ==> PotLeft(e, playerIdx, b, pot, idx) && n == |pot| && Holds(spent, rank, pot)
      decreases e[playerIdx].spent - b
    {
      PotFacts(e, playerIdx, b, pot, idx);
      at := idx;
      value, n, idx, done, size := PlayPot(spent, rank, n, idx, value, pot);
      PotStep(e, playerIdx, b, size, pot, at, idx);
      b, pot := b + size, Remain(pot, size);
    }
  }

  /** The pot left after b chips, and player i's place in it. */
  ghost predicate PotLeft(e: seq<Stake>, i: nat, b: nat, pot: seq<Stake>, at: nat)
    requires i < |e|
  {
    pot == Remain(e, b) && at == |Remain(e[..i], b)|
  }

  lemma AllLeft(e: seq<Stake>, i: nat)
    requires i < |e| && Positive(e)
    ensures PotLeft(e, i, 0, e, i)
  {
    RemainAll(e);
    RemainAll(e[..i]);
  }

  lemma PotFacts(e: seq<Stake>, i: nat, b: nat, pot: seq<Stake>, at: nat)
    requires i < |e| && e[i].spent > b && Positive(e) && PotLeft(e, i, b, pot, at)
    ensures at < |pot| && pot[at] == Stake(e[i].spent - b, e[i].rank) && Positive(pot)
  {
    RemainPrefix(e, i, b);
    RemainPositive(e, b);
    RemainBounded(e, b);
  }

  /** Taking out the smallest side pot moves on by its size. */
  lemma PotStep(e: seq<Stake>, i: nat, b: nat, size: nat, pot: seq<Stake>, at: nat, newAt: nat)
    requires i < |e| && e[i].spent > b && PotLeft(e, i, b, pot, at) && AtLeast(pot, size)
    ensures at < |pot| && size <= e[i].spent - b
    ensures Layers(e, i, b + size) == Layers(e, i, b) + Gain(pot, at, size)
    ensures newAt == |Remain(pot[..at], size)| ==> PotLeft(e, i, b + size, Remain(pot, size), newAt)
  {
    RemainPrefix(e, i, b);
    PotIsItsLayers(e, i, b, size, size);
    RemainOfRemain(e, b, size);
    RemainOfRemain(e[..i], b, size);
  }

  lemma {:induction false} RemainAll(e: seq<Stake>)
    requires forall i :: 0 <= i < |e| ==> e[i].spent > 0
    ensures Remain(e, 0) == e
  {
    if e != [] {
      var n := |e| - 1;
      RemainAll(e[..n]);
      assert e == e[..n] + [e[n]];
    }
  }

  lemma {:induction false} RemainBounded(e: seq<Stake>, b: nat)
    requires forall i :: 0 <= i < |e| ==> e[i].spent <= INT32_MAX
    ensures forall j :: 0 <= j < |Remain(e, b)| ==> Remain(e, b)[j].spent <= INT32_MAX
  {
    if e != [] { RemainBounded(e[..|e| - 1], b); }
  }

  // ---------------------------------------------------------------- players who put in nothing

  lemma {:induction false} NothingInLayer(e: seq<Stake>, t: int, r: int)
    requires t > 0
    ensures InLayer(Remain(e, 0), t) == InLayer(e, t)
    ensures Best(Remain(e, 0), t) == Best(e, t)
    ensures WithRank(Remain(e, 0), t, r) == WithRank(e, t, r)
  {
    if e != [] {
      var init, last := e[..|e| - 1], e[|e| - 1];
      NothingInLayer(init, t, r);
      if last.spent > 0 {
        var all := Remain(e, 0);
        assert all[..|all| - 1] == Remain(init, 0) && all[|all| - 1] == last;
      } else {
        assert Remain(e, 0) == Remain(init, 0);
      }
    }
  }

  /** Leaving out the players who put in nothing changes nobody's value. */
  lemma {:induction false} ValueWithoutZeros(e: seq<Stake>, i: nat, b: nat)
    requires i < |e| && b <= e[i].spent && 0 < e[i].spent
    ensures |Remain(e[..i], 0)| < |Remain(e, 0)| && Remain(e, 0)[|Remain(e[..i], 0)|] == e[i]
    ensures Layers(Remain(e, 0), |Remain(e[..i], 0)|, b) == Layers(e, i, b)
  {
    RemainPrefix(e, i, 0);
    if b > 0 {
      ValueWithoutZeros(e, i, b - 1);
      NothingInLayer(e, b, Best(e, b));
    }
  }

  lemma RemainSnoc(e: seq<Stake>, k: nat)
    requires k < |e|
    ensures Remain(e[..k + 1], 0) == Remain(e[..k], 0) + if e[k].spent > 0 then [e[k]] else []
  {
    assert e[..k + 1][..k] == e[..k];
  }

  /** The pot of the players who put something in. */
  lemma PotWithoutZeros(e: seq<Stake>, i: nat)
    requires i < |e| && 0 < e[i].spent && forall j :: 0 <= j < |e| ==> e[j].spent <= INT32_MAX
    ensures |Remain(e[..i], 0)| < |Remain(e, 0)| && Positive(Remain(e, 0))
  {
    RemainPositive(e, 0);
    RemainBounded(e, 0);
    RemainPrefix(e, i, 0);
  }
}
