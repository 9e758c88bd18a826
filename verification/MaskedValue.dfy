/**
  Values that modules/engine/src/cfr_worker.cpp takes for masks: a loss of one that Solve does not count, and one that
  the best response passes over for a worse one.
 */
module MaskedValue {
  import opened RankSlots
  import opened Sums
  import opened WalkValues
  import opened Beliefs
  import Cards
  import CfrWorker
  import TermEval

  /** Every two of four cards, all of one rank. */
  function FourCards(): (hands: seq<HandAndRank>)
    ensures Prepared(hands, 4, {})
  {
    [HandAndRank(1, 0, 0, 0), HandAndRank(2, 0, 0, 1), HandAndRank(2, 1, 0, 2),
     HandAndRank(3, 0, 0, 3), HandAndRank(3, 1, 0, 4), HandAndRank(3, 2, 0, 5)]
  }

  /** A pot of one that player 1 has given up. */
  const GivenUp: Node := Terminal(1, Player(1))

  /** One hand in a thousand is cards 1 and 0, the others are 2 and 0. */
  const Range0: seq<real> := [0.001, 0.999, 0.0, 0.0, 0.0, 0.0]

  /** Always cards 3 and 2. */
  const Range1: seq<real> := [0.0, 0.0, 0.0, 0.0, 0.0, 1.0]

  lemma {:induction false} SlotsAreFew(hands: seq<HandAndRank>, pick: Pick, n: nat)
    requires n <= |hands|
    ensures Slots(hands, pick, n) <= n
  {
    if n > 0 { SlotsAreFew(hands, pick, n - 1); }
  }

  lemma SumOfSix(x: seq<real>)
    requires |x| == 6
    ensures Sum(x) == x[0] + x[1] + x[2] + x[3] + x[4] + x[5]
  {
    forall n: nat | n < 6 ensures Sum(x[..n + 1]) == Sum(x[..n]) + x[n] { assert x[..n + 1][..n] == x[..n]; }
    assert x[..5 + 1] == x && x[..0] == [];
    assert Sum(x[..1]) == x[0] && Sum(x[..2]) == x[0] + x[1] && Sum(x[..3]) == x[0] + x[1] + x[2];
    assert Sum(x[..3 + 1]) == Sum(x[..3]) + x[3] && Sum(x[..4 + 1]) == Sum(x[..4]) + x[4];
  }

  /** A range without masked hands that sums to one stays as it is. */
  lemma NormalAlready(o: seq<real>)
    requires |o| == 6 && (forall v :: 0 <= v < 6 ==> o[v] >= 0.0) && o[0] + o[1] + o[2] + o[3] + o[4] + o[5] == 1.0
    ensures Normalized(Excluded(o, {})) == o
  {
    assert Excluded(o, {}) == o;
    assert Unmasked(o) == o;
    SumOfSix(o);
  }

  /** Cards 3 and 2 meet one hand of weight 1 and lose the pot to it: -1. */
  lemma LosesOne(w: seq<real>)
    requires w == [1.0, 999.0, 0.0, 0.0, 0.0, 0.0]
    ensures Walk(FourCards(), Weighted, GivenUp, 1, w, 5) == -1.0
  {
    var hands := FourCards();
    assert NoClash(hands, w, 5, 1) == 1.0;
    assert NoClash(hands, w, 5, 2) == 1.0;
    assert NoClash(hands, w, 5, 3) == 1.0;
    assert NoClash(hands, w, 5, 4) == 1.0;
    assert NoClash(hands, w, 5, 5) == 1.0;
    assert NoClash(hands, w, 5, 6) == 1.0;
    assert w[0] > 0.0;
  }

  lemma Setting()
    ensures var hands := FourCards(); Prepared(hands, 4, {}) && forall c: nat :: Slots(hands, Holding(c), 6) < 46
    ensures forall v: nat :: v < 6 ==> FourCards()[v].vIdx == v
    ensures forall j :: 0 <= j < 6 ==>
      FourCards()[j].vIdx == Cards.ToVectorIndex(FourCards()[j].high, FourCards()[j].low)
    ensures |FourCards()| == Cards.Pairs(4) == 6
    ensures Proper(GivenUp, 6) && FoldersArePlayers(GivenUp) && Range(Range0) && Range(Range1)
  {
    forall c: nat ensures Slots(FourCards(), Holding(c), 6) < 46 { SlotsAreFew(FourCards(), Holding(c), 6); }
  }

  /** Player 0 earns one from the fold, and player 1's loss of one is not counted. */
  method SumsDoNotCancel() returns (worker: CfrWorker.VectorCfrWorker, avg: real)
    ensures worker.Ready() && worker.mode == Weighted && worker.size == 6
    ensures Proper(GivenUp, 6) && FoldersArePlayers(GivenUp) && Range(Range0) && Range(Range1)
    ensures !worker.NothingMasked(GivenUp, 1, Range1, Range0)
    ensures avg > 0.0
  {
    hide worker.Ready, worker.NothingMasked, Proper, FoldersArePlayers, FourCards;
    Setting();
    worker := FourCardWorker();
    TakenForMask(worker);
    var root0 := new real[6] [0.001, 0.999, 0.0, 0.0, 0.0, 0.0];
    var root1 := new real[6] [0.0, 0.0, 0.0, 0.0, 0.0, 1.0];
    assert root0[..] == Range0 && root1[..] == Range1;
    avg := SolveBoth(worker, GivenUp, root0, root1);
  }

  method FourCardWorker() returns (worker: CfrWorker.VectorCfrWorker)
    ensures worker.Ready() && worker.mode == Weighted && worker.size == 6
    ensures worker.kernel.hands == FourCards() && worker.kernel.board == {}
  {
    hide Prepared, FourCards, Slots, Cards.ToVectorIndex, Cards.Pairs, Cards.FromVectorIndex;
    Setting();
    var kernel := new TermEval.TermEvalKernel(4, 46, {}, FourCards());
    forall v: nat | v < 6 ensures Avoids(v, kernel.board) <==> exists j :: 0 <= j < 6 && kernel.hands[j].vIdx == v {
      assert kernel.hands[v].vIdx == v;
    }
    worker := new CfrWorker.VectorCfrWorker(kernel, Weighted);
    assert worker.ReadyAt(0);
  }

  /** Where something of player 1's is mistaken, the average is above zero. */
  method SolveBoth(worker: CfrWorker.VectorCfrWorker, root: Node, root0: array<real>, root1: array<real>)
    returns (avg: real)
    requires worker.Ready() && worker.mode == Weighted && Proper(root, worker.size) && FoldersArePlayers(root)
    requires root0.Length == worker.size == root1.Length && Range(root0[..]) && Range(root1[..])
    requires !worker.NothingMasked(root, 1, root1[..], root0[..])
    ensures avg > 0.0
  {
    hide worker.Ready, worker.NothingMasked, worker.Solved, worker.LostTo, worker.Local, Proper, FoldersArePlayers,
         Range;
    worker.SolveIsZeroSum(root, root0[..], root1[..]);
    avg := worker.Solve(root, root0, root1, 1);
  }

  lemma Weights(worker: CfrWorker.VectorCfrWorker)
    requires worker.kernel.hands == FourCards()
    ensures worker.InOrder(Scaled(Range0, CfrWorker.REGRET_SCALER)) == [1.0, 999.0, 0.0, 0.0, 0.0, 0.0]
    ensures worker.InOrder(Range1)[5] == 1.0
  {
    var s := Scaled(Range0, CfrWorker.REGRET_SCALER);
    assert s == [1.0, 999.0, 0.0, 0.0, 0.0, 0.0];
    assert worker.InOrder(s) == s;
  }

  lemma TakenForMask(worker: CfrWorker.VectorCfrWorker)
    requires worker.kernel.hands == FourCards() && worker.kernel.board == {} && worker.mode == Weighted
    ensures !worker.NothingMasked(GivenUp, 1, Range1, Range0)
  {
    hide Walk, FourCards, Normalized, Excluded, Scaled;
    Setting();
    NormalAlready(Range0);
    NormalAlready(Range1);
    Weights(worker);
    LosesOne(worker.InOrder(Scaled(Range0, CfrWorker.REGRET_SCALER)));
    assert CfrWorker.Mistaken(1.0, worker.Values(GivenUp, 1, Range0)[5]);
  }

  // ---------------------------------------------------------------- best response

  function TwoHands(): seq<HandAndRank> {
    [HandAndRank(1, 0, 0, 0), HandAndRank(3, 2, 0, 1)]
  }

  /** Player 0 gives up a pot of one or a pot of a thousand. */
  function GivesUp(): Node {
    Choice(0, [[0.5, 0.5], [0.5, 0.5]], [Terminal(1, Player(0)), Terminal(1000, Player(0))])
  }

  lemma GivesUpIsProper()
    ensures Proper(GivesUp(), 2) && FoldersArePlayers(GivesUp())
  {
    var avg := [0.5, 0.5];
    assert avg[..1] == [0.5] && [0.5][..0] == [];
    assert Distribution(avg, 2);
  }

  lemma WeightMet(w: seq<real>, i: nat)
    requires |w| == 2 && Range(w) && i < 2
    ensures NoClash(TwoHands(), w, i, 2) == w[1 - i]
  {
    assert NoClash(TwoHands(), w, i, 1) == if i == 0 then 0.0 else w[0];
  }

  /** Giving up one is worth the mask, so the best response gives up a thousand. */
  lemma FirstLosesMore()
    ensures Walk(TwoHands(), BestResponse, GivesUp(), 0, [0.0, 1.0], 0) == -1000.0
    ensures PassesOver(TwoHands(), GivesUp(), 0, [0.0, 1.0], 0)
  {
    var hands, node, y := TwoHands(), GivesUp(), [0.0, 1.0];
    WeightMet(y, 0);
    assert y[1] > 0.0;
    assert Walk(hands, BestResponse, node.children[0], 0, y, 0) == BELIEF_MASK;
    assert Walk(hands, BestResponse, node.children[1], 0, y, 0) == -1000.0;
    assert BestOf(hands, node, 0, y, 0, 1) == WORST;
    assert BestOf(hands, node, 0, y, 0, 2) == -1000.0;
    assert Plays(hands, node, 0, y, 0, 0, BELIEF_MASK) && Plays(hands, node, 0, y, 0, 1, -1000.0);
  }

  lemma SecondGetsHalf()
    ensures Walk(TwoHands(), BestResponse, GivesUp(), 1, [1.0, 0.0], 1) == 500.5
  {
    var hands, node, x := TwoHands(), GivesUp(), [1.0, 0.0];
    var half := Rollout(hands, node, x, 0);
    assert half == [0.5, 0.0] == Rollout(hands, node, x, 1);
    WeightMet(half, 1);
    assert half[0] > 0.0 && x[0] > 0.0;
    assert WalkSum(hands, BestResponse, node, 1, x, 1, 1) == 0.5;
    assert WalkSum(hands, BestResponse, node, 1, x, 1, 2) == 500.5;
  }

  /** So the two best responses together lose. */
  lemma BestResponsesLose()
    ensures var x, y := [1.0, 0.0], [0.0, 1.0];
      && Proper(GivesUp(), 2) && FoldersArePlayers(GivesUp()) && Range(x) && Range(y)
      && PassesOver(TwoHands(), GivesUp(), 0, y, 0)
      && Earned(TwoHands(), BestResponse, GivesUp(), 0, x, y) + Earned(TwoHands(), BestResponse, GivesUp(), 1, y, x)
         == -499.5
  {
    GivesUpIsProper();
    FirstLosesMore();
    SecondGetsHalf();
    hide Walk, PassesOver, Proper, FoldersArePlayers, GivesUp;
    DotOfTwo([1.0, 0.0], WalkAll(TwoHands(), BestResponse, GivesUp(), 0, [0.0, 1.0]));
    DotOfTwo([0.0, 1.0], WalkAll(TwoHands(), BestResponse, GivesUp(), 1, [1.0, 0.0]));
  }

  lemma DotOfTwo(w: seq<real>, v: seq<real>)
    requires |w| == |v| == 2 && ((w[0] == 1.0 && w[1] == 0.0) || (w[0] == 0.0 && w[1] == 1.0))
    ensures Dot(w, v) == if w[0] == 1.0 then v[0] else v[1]
  {
    DotSnoc(w, v);
    DotSnoc(w[..1], v[..1]);
    DotZero(w[..1][..0], v[..1][..0]);
  }
}
