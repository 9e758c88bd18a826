/**
  What a finished hand pays (valueOfState): the sum over all players is zero exactly when somebody is
  left to take the largest stake, which holds of every hand in which nobody folds without facing a
  bet; and heads-up the payoff is the smaller stake, as the betting tree assumes.
 */
module Payoffs {
  import opened Betting
  import opened TurnOrder
  import opened Hands
  import opened Chips
  import opened SidePots

  /** Every player's stake; rank[p] is the rank of p's hand, -1 when he mucked it. */
  function StakesOf(h: Hand, rank: seq<int>): seq<Stake>
    requires |h.spent| == |h.folded| == |rank|
  {
    seq(|rank|, p requires 0 <= p < |rank| => Stake(h.spent[p], if h.folded[p] then -1 else rank[p]))
  }

  function SumSpent(spent: seq<int>): int {
    if spent == [] then 0 else SumSpent(spent[..|spent| - 1]) + spent[|spent| - 1]
  }

  /**
    valueOfState: a folded player loses his stake, the only player left takes all others', otherwise the side pots
    decide.
   */
  ghost function StateValue(g: Game, h: Hand, rank: seq<int>, p: nat): real
    requires h.Shape(g) && |rank| == g.numPlayers && p < g.numPlayers
    requires NoNegative(StakesOf(h, rank))
  {
    if h.folded[p] then -(h.spent[p] as real)
    else if NumFolded(h) + 1 == g.numPlayers then (SumSpent(h.spent) - h.spent[p]) as real
    else Value(StakesOf(h, rank), p)
  }

  ghost function SumState(g: Game, h: Hand, rank: seq<int>, k: nat): real
    requires h.Shape(g) && |rank| == g.numPlayers && k <= g.numPlayers
    requires NoNegative(StakesOf(h, rank))
  {
    if k == 0 then 0.0 else SumState(g, h, rank, k - 1) + StateValue(g, h, rank, k - 1)
  }

  // ---------------------------------------------------------------- everybody else folded

  function Seats(n: nat): (s: set<nat>)
    ensures |s| == n && forall p: nat :: p in s <==> p < n
  {
    if n == 0 then {} else Seats(n - 1) + {n - 1}
  }

  lemma OnlyOneIn(h: Hand, w: nat)
    requires w < |h.folded| && !h.folded[w] && NumFolded(h) + 1 == |h.folded|
    ensures forall p :: 0 <= p < |h.folded| && p != w ==> h.folded[p]
  {
    var all := Seats(|h.folded|);
    var folded := FoldedBelow(h, |h.folded|);
    assert folded <= all - {w};
    SetLess(all, w);
    SubsetOfSameSize(folded, all - {w});
    forall p: nat | p < |h.folded| && p != w ensures h.folded[p] {
      assert p in folded;
    }
  }

  lemma {:induction false} SubsetOfSameSize(a: set<nat>, b: set<nat>)
    requires a <= b && |a| == |b|
    ensures a == b
  {
    if b != {} {
      var x :| x in b;
      if x in a {
        SubsetOfSameSize(a - {x}, b - {x});
      } else {
        SmallerSet(a, b - {x});
      }
    }
  }

  lemma {:induction false} SmallerSet(a: set<nat>, b: set<nat>)
    requires a <= b
    ensures |a| <= |b|
  {
    if a != {} {
      var x :| x in a;
      SmallerSet(a - {x}, b - {x});
    }
  }

  lemma {:induction false} FoldOutSum(g: Game, h: Hand, rank: seq<int>, w: nat, k: nat)
    requires h.Shape(g) && |rank| == g.numPlayers && k <= g.numPlayers && NoNegative(StakesOf(h, rank))
    requires w < g.numPlayers && !h.folded[w] && NumFolded(h) + 1 == g.numPlayers
    ensures SumState(g, h, rank, k) ==
      (if k > w then SumSpent(h.spent) as real else 0.0) - SumSpent(h.spent[..k]) as real
  {
    OnlyOneIn(h, w);
    if k > 0 {
      FoldOutSum(g, h, rank, w, k - 1);
      assert h.spent[..k][..k - 1] == h.spent[..k - 1];
    }
  }

  // ---------------------------------------------------------------- the zero sum

  lemma {:induction false} ShowdownSum(g: Game, h: Hand, rank: seq<int>, k: nat)
    requires h.Shape(g) && |rank| == g.numPlayers && k <= g.numPlayers && NoNegative(StakesOf(h, rank))
    requires NumFolded(h) + 1 != g.numPlayers
    ensures SumState(g, h, rank, k) == SumValues(StakesOf(h, rank), k)
  {
    if k > 0 {
      ShowdownSum(g, h, rank, k - 1);
      assert StakesOf(h, rank)[k - 1].spent >= 0;
      if h.folded[k - 1] { DeadHandLosesStake(StakesOf(h, rank), k - 1, h.spent[k - 1]); }
    }
  }

  /** A player who is in and shows his hand has put in at least t. */
  ghost predicate CanTake(h: Hand, rank: seq<int>, t: int)
    requires |h.spent| == |h.folded| == |rank|
  {
    exists p :: 0 <= p < |rank| && !h.folded[p] && rank[p] >= 0 && h.spent[p] >= t
  }

  /** The payoffs sum to zero exactly when one player is left or the largest stake has a taker. */
  lemma PayoffsSumToZero(g: Game, h: Hand, rank: seq<int>, top: nat)
    requires h.Shape(g) && |rank| == g.numPlayers && NoNegative(StakesOf(h, rank))
    requires exists p: nat :: p < g.numPlayers && !h.folded[p]
    requires forall p :: 0 <= p < g.numPlayers ==> h.spent[p] <= top
    requires exists p :: 0 <= p < g.numPlayers && h.spent[p] == top
    ensures SumState(g, h, rank, g.numPlayers) == 0.0
      <==> NumFolded(h) + 1 == g.numPlayers || top == 0 || CanTake(h, rank, top)
  {
    var e := StakesOf(h, rank);
    if NumFolded(h) + 1 == g.numPlayers {
      var w: nat :| w < g.numPlayers && !h.folded[w];
      FoldOutSum(g, h, rank, w, g.numPlayers);
      assert h.spent[..g.numPlayers] == h.spent;
    } else {
      ShowdownSum(g, h, rank, g.numPlayers);
      var m :| 0 <= m < g.numPlayers && h.spent[m] == top;
      assert e[m].spent == top;
      ShowdownIsZeroSum(e, top);
      if LiveAt(e, top) {
        var p :| 0 <= p < |e| && e[p].spent >= top && e[p].rank >= 0;
        assert !h.folded[p] && rank[p] >= 0 && h.spent[p] >= top;
      }
      if CanTake(h, rank, top) {
        var p :| 0 <= p < |rank| && !h.folded[p] && rank[p] >= 0 && h.spent[p] >= top;
        assert e[p].spent >= top && e[p].rank >= 0;
      }
    }
  }

  /**
    Every finished no-limit hand in which nobody folded without facing a bet and no hand that is in
    was mucked pays out exactly what it takes in.  Hands are included in which a player who is in has
    spent nothing; the value of such a player, which valueOfState does not define, counts as 0 here.
   */
  lemma StrictHandsAreZeroSum(r: Run, rank: seq<int>)
    requires r.Valid() && r.game.noLimit && StrictRun(r) && |rank| == r.game.numPlayers
    requires r.Last().finished
    requires forall p :: 0 <= p < |rank| && p < |r.Last().folded| && !r.Last().folded[p] ==> rank[p] >= 0
    ensures r.Last().Shape(r.game) && NoNegative(StakesOf(r.Last(), rank))
    ensures SumState(r.game, r.Last(), rank, r.game.numPlayers) == 0.0
  {
    var h := r.Last();
    RunKeepsChips(r, |r.acts|);
    RunKeepsLiveMax(r, |r.acts|);
    var m :| 0 <= m < |h.folded| && !h.folded[m] && h.spent[m] == h.maxSpent;
    assert CanTake(h, rank, h.maxSpent);
    PayoffsSumToZero(r.game, h, rank, h.maxSpent);
  }

  // ---------------------------------------------------------------- heads-up

  function Min(a: int, b: int): int { if a < b then a else b }

  /** Node::GetStake at a terminal node of a two-player game. */
  function GetStake(h: Hand, myPos: nat): int
    requires |h.spent| == |h.folded| == 2 && myPos < 2
  {
    var pot := Min(h.spent[0], h.spent[1]);
    if !h.folded[0] && !h.folded[1] then pot
    else if h.folded[myPos] then -pot else pot
  }

  /** The sign HandInfo::SetBucketAndPayoff gives player p at a showdown. */
  function ShowdownSign(rank: seq<int>, p: nat): int
    requires |rank| == 2 && p < 2
  {
    if rank[p] > rank[1 - p] then 1 else if rank[p] == rank[1 - p] then 0 else -1
  }

  lemma TwoInLayer(a: Stake, b: Stake, t: int, r: int)
    ensures var e := [a, b];
      && InLayer(e, t) == (if a.spent >= t then 1 else 0) + (if b.spent >= t then 1 else 0)
      && WithRank(e, t, r) == (if a.spent >= t && a.rank == r then 1 else 0)
                              + (if b.spent >= t && b.rank == r then 1 else 0)
      && Best(e, t) == var best := if a.spent >= t && a.rank > 0 then a.rank else 0;
                       if b.spent >= t && b.rank > best then b.rank else best
  {
    var one, two := [a], [a, b];
    assert one[..|one| - 1] == [] && two[..|two| - 1] == one && one[|one| - 1] == a && two[|two| - 1] == b;
    assert InLayer(one, t) == if a.spent >= t then 1 else 0;
    assert WithRank(one, t, r) == if a.spent >= t && a.rank == r then 1 else 0;
    assert Best(one, t) == if a.spent >= t && a.rank > 0 then a.rank else 0;
  }

  lemma {:induction false} TwoStakes(e: seq<Stake>, p: nat, b: nat)
    requires |e| == 2 && p < 2 && b <= e[p].spent && NoNegative(e) && e[0].rank >= 0 && e[1].rank >= 0
    ensures Layers(e, p, b) == (ShowdownSign([e[0].rank, e[1].rank], p) * Min(b, e[1 - p].spent)) as real
  {
    if b > 0 {
      TwoStakes(e, p, b - 1);
      assert e == [e[0], e[1]];
      TwoInLayer(e[0], e[1], b, Best(e, b));
    }
  }

  /** The payoff of a heads-up hand in which a folded player has put in less than the other. */
  lemma HeadsUpValue(g: Game, h: Hand, rank: seq<int>, p: nat)
    requires g.numPlayers == 2 == |rank| && h.Shape(g) && NoNegative(StakesOf(h, rank)) && p < 2
    requires rank[0] >= 0 && rank[1] >= 0
    requires forall q :: 0 <= q < 2 && h.folded[q] ==> !h.folded[1 - q] && h.spent[q] <= h.spent[1 - q]
    ensures StateValue(g, h, rank, p) ==
      (if !h.folded[0] && !h.folded[1] then ShowdownSign(rank, p) * GetStake(h, p) else GetStake(h, p)) as real
  {
    assert FoldedBelow(h, 2) == (if h.folded[0] then {0} else {}) + (if h.folded[1] then {1} else {});
    if !h.folded[0] && !h.folded[1] {
      ShowdownOfTwo(g, h, rank, p);
    } else {
      FoldOfTwo(g, h, rank, p);
    }
  }

  lemma ShowdownOfTwo(g: Game, h: Hand, rank: seq<int>, p: nat)
    requires g.numPlayers == 2 == |rank| && h.Shape(g) && NoNegative(StakesOf(h, rank)) && p < 2
    requires rank[0] >= 0 && rank[1] >= 0 && !h.folded[0] && !h.folded[1] && NumFolded(h) == 0
    ensures StateValue(g, h, rank, p) == (ShowdownSign(rank, p) * GetStake(h, p)) as real
  {
    assert StakesOf(h, rank)[p].spent >= 0;
    TwoStakes(StakesOf(h, rank), p, h.spent[p]);
    assert rank == [rank[0], rank[1]];
  }

  lemma FoldOfTwo(g: Game, h: Hand, rank: seq<int>, p: nat)
    requires g.numPlayers == 2 == |rank| && h.Shape(g) && NoNegative(StakesOf(h, rank)) && p < 2
    requires h.folded[0] != h.folded[1] && NumFolded(h) == 1
    requires forall q :: 0 <= q < 2 && h.folded[q] ==> h.spent[q] <= h.spent[1 - q]
    ensures StateValue(g, h, rank, p) == GetStake(h, p) as real
  {
    var one, two := [h.spent[0]], h.spent;
    assert one[..|one| - 1] == [] && two[..|two| - 1] == one;
    assert SumSpent(one) == h.spent[0];
  }

  lemma ShortFold(g: Game, h: Hand)
    requires g.numPlayers == 2 && ChipInv(g, h) && LiveMax(h)
    ensures forall q :: 0 <= q < 2 && h.folded[q] ==> !h.folded[1 - q] && h.spent[q] <= h.spent[1 - q]
    ensures forall q :: 0 <= q < 2 ==> h.spent[q] >= 0
  {
    var m :| 0 <= m < |h.folded| && !h.folded[m] && h.spent[m] == h.maxSpent;
    forall q | 0 <= q < 2 && h.folded[q] ensures !h.folded[1 - q] && h.spent[q] <= h.spent[1 - q] {
      assert m == 1 - q;
    }
  }

  /** The stake of a terminal node, times the sign of the showdown, is the value of its state. */
  lemma StakeIsValue(r: Run, rank: seq<int>, p: nat)
    requires r.Valid() && r.game.noLimit && StrictRun(r) && r.game.numPlayers == 2
    requires |rank| == 2 && rank[0] >= 0 && rank[1] >= 0 && p < 2
    requires r.Last().finished
    ensures var g, h := r.game, r.Last();
      && h.Shape(g) && NoNegative(StakesOf(h, rank))
      && StateValue(g, h, rank, p) ==
         (if !h.folded[0] && !h.folded[1] then ShowdownSign(rank, p) * GetStake(h, p) else GetStake(h, p)) as real
  {
    RunKeepsChips(r, |r.acts|);
    RunKeepsLiveMax(r, |r.acts|);
    ShortFold(r.game, r.Last());
    HeadsUpValue(r.game, r.Last(), rank, p);
  }
}
