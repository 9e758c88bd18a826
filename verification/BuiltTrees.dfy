/**
  The trees action_abs.cpp builds, as the users of a tree see them: the kernel of rnba_kernel.hpp finds their choice
  nodes numbered through, and the walk of cfr_worker.cpp is paid at their ends what valueOfState pays.
 */
module BuiltTrees {
  import opened Betting
  import opened ActionAbs
  import opened BettingTree
  import Payoffs
  import RnbaIndex
  import RankSlots
  import Sums
  import WalkValues

  // ---------------------------------------------------------------- the tree the kernel indexes

  function IndexTree(n: Node): (t: RnbaIndex.Tree)
    ensures t.Inner? <==> !n.state.finished
    decreases n
  {
    if n.state.finished then RnbaIndex.Leaf
    else RnbaIndex.Inner(n.state.round, n.index,
                         seq(|n.children|, i requires 0 <= i < |n.children| => IndexTree(n.children[i])))
  }

  /** The numbers of the nodes of round r. */
  function NumbersIn(l: seq<RnbaIndex.Info>, r: nat): seq<nat> {
    if l == [] then []
    else NumbersIn(l[..|l| - 1], r) + if l[|l| - 1].round == r then [l[|l| - 1].n] else []
  }

  lemma {:induction false} NumbersConcat(a: seq<RnbaIndex.Info>, b: seq<RnbaIndex.Info>, r: nat)
    ensures NumbersIn(a + b, r) == NumbersIn(a, r) + NumbersIn(b, r)
  {
    if b == [] {
      assert a + b == a;
    } else {
      var n := |b| - 1;
      assert (a + b)[..|a + b| - 1] == a + b[..n];
      NumbersConcat(a, b[..n], r);
    }
  }

  /** The kernel meets the choice nodes of a round in the order of their numbers. */
  lemma {:induction false} KernelMeets(g: Game, workers: seq<Fcpa>, n: Node, r: nat)
    requires g.Valid() && Grown(g, workers, n)
    ensures NumbersIn(RnbaIndex.Nodes(IndexTree(n)), r) == Numbers(n, r, false)
    decreases n, 1, 0
  {
    hide Chosen, Edge, CallsAmong, IncreasingNodes, GrownKid, Hand.Shape, Game.Valid;
    if n.state.finished {
      assert n.children == [];
    } else {
      var first := [RnbaIndex.Info(n.state.round, n.index, |n.children|)];
      KidsMet(g, workers, n, |n.children|, r);
      NumbersConcat(first, RnbaIndex.NodesOf(IndexTree(n), |n.children|), r);
      assert first[..0] == [];
    }
  }

  lemma {:induction false} KidsMet(g: Game, workers: seq<Fcpa>, n: Node, k: nat, r: nat)
    requires g.Valid() && Grown(g, workers, n) && !n.state.finished && k <= |n.children|
    ensures NumbersIn(RnbaIndex.NodesOf(IndexTree(n), k), r) == KidsNumbers(n.children, k, r, false)
    decreases n, 0, k
  {
    if k > 0 {
      hide Chosen, Edge, CallsAmong, IncreasingNodes;
      assert GrownKid(g, workers, n, k - 1);
      KidsMet(g, workers, n, k - 1, r);
      KernelMeets(g, workers, n.children[k - 1], r);
      NumbersConcat(RnbaIndex.NodesOf(IndexTree(n), k - 1), RnbaIndex.Nodes(IndexTree(n.children[k - 1])), r);
    }
  }

  /** Choice nodes of rounds of the game, with actions. */
  ghost predicate Fit(l: seq<RnbaIndex.Info>) {
    forall k :: 0 <= k < |l| ==> l[k].round < RnbaIndex.MAX_ROUNDS && l[k].size > 0
  }

  lemma FitConcat(a: seq<RnbaIndex.Info>, b: seq<RnbaIndex.Info>)
    requires Fit(a) && Fit(b)
    ensures Fit(a + b)
  {
  }

  lemma NothingFits()
    ensures Fit([])
  {
  }

  lemma {:induction false} NodesFit(g: Game, workers: seq<Fcpa>, n: Node)
    requires g.Valid() && Grown(g, workers, n)
    ensures Fit(RnbaIndex.Nodes(IndexTree(n)))
    decreases n, 1, 0
  {
    if !n.state.finished { KidsFit(g, workers, n, |n.children|); }
  }

  lemma {:induction false} KidsFit(g: Game, workers: seq<Fcpa>, n: Node, k: nat)
    requires g.Valid() && Grown(g, workers, n) && !n.state.finished && k <= |n.children|
    ensures Fit(RnbaIndex.NodesOf(IndexTree(n), k))
    decreases n, 0, k
  {
    if k == 0 {
      NothingFits();
    } else {
      hide Chosen, Edge, CallsAmong, IncreasingNodes, Fit;
      assert GrownKid(g, workers, n, k - 1);
      KidsFit(g, workers, n, k - 1);
      NodesFit(g, workers, n.children[k - 1]);
      FitConcat(RnbaIndex.NodesOf(IndexTree(n), k - 1), RnbaIndex.Nodes(IndexTree(n.children[k - 1])));
    }
  }

  /** Node k is where it is counted. */
  lemma {:induction false} NumberAt(l: seq<RnbaIndex.Info>, r: nat, k: nat)
    requires k < |l| && l[k].round == r
    ensures |NumbersIn(l, r)| == RnbaIndex.Count(l, r)
    ensures RnbaIndex.Count(l[..k], r) < RnbaIndex.Count(l, r)
    ensures NumbersIn(l, r)[RnbaIndex.Count(l[..k], r)] == l[k].n
  {
    var n := |l| - 1;
    NumbersCounted(l[..n], r);
    if k < n {
      NumberAt(l[..n], r, k);
      assert l[..n][..k] == l[..k];
    }
  }

  lemma {:induction false} NumbersCounted(l: seq<RnbaIndex.Info>, r: nat)
    ensures |NumbersIn(l, r)| == RnbaIndex.Count(l, r)
  {
    if l != [] { NumbersCounted(l[..|l| - 1], r); }
  }

  lemma {:induction false} CountGrows(l: seq<RnbaIndex.Info>, r: nat, k: nat, m: nat)
    requires k < m <= |l| && l[k].round == r
    ensures RnbaIndex.Count(l[..k], r) < RnbaIndex.Count(l[..m], r)
  {
    NumberAt(l[..m], r, k);
    assert l[..m][..k] == l[..k];
  }

  /** The numbers count through each round. */
  ghost predicate CountedThrough(l: seq<RnbaIndex.Info>) {
    forall r: nat :: r < RnbaIndex.MAX_ROUNDS ==> NumbersIn(l, r) == Span(0, |NumbersIn(l, r)|)
  }

  lemma PlaceIsNumber(l: seq<RnbaIndex.Info>, k: nat)
    requires CountedThrough(l) && k < |l| && l[k].round < RnbaIndex.MAX_ROUNDS
    ensures l[k].n == RnbaIndex.Count(l[..k], l[k].round) < RnbaIndex.Count(l, l[k].round)
  {
    NumberAt(l, l[k].round, k);
  }

  lemma CountedIsNumbered(l: seq<RnbaIndex.Info>, bmax: seq<nat>)
    requires CountedThrough(l) && Fit(l) && |bmax| == RnbaIndex.MAX_ROUNDS
    ensures RnbaIndex.Numbered(l, bmax)
  {
    forall k | 0 <= k < |l| ensures l[k].n < RnbaIndex.Count(l, l[k].round) { PlaceIsNumber(l, k); }
    forall k, m | 0 <= k < m < |l| ensures l[k].round != l[m].round || l[k].n != l[m].n {
      if l[k].round == l[m].round {
        PlaceIsNumber(l, k);
        PlaceIsNumber(l, m);
        CountGrows(l, l[k].round, k, m);
      }
    }
  }

  /** A tree BuildBettingTree returns is one the kernel can index. */
  lemma BuiltTreeIsNumbered(g: Game, workers: seq<Fcpa>, n: Node, bmax: seq<nat>)
    requires g.Valid() && Grown(g, workers, n) && AllNumbered(n, false) && |bmax| == RnbaIndex.MAX_ROUNDS
    ensures RnbaIndex.Numbered(RnbaIndex.Nodes(IndexTree(n)), bmax)
  {
    var l := RnbaIndex.Nodes(IndexTree(n));
    forall r: nat | r < RnbaIndex.MAX_ROUNDS ensures NumbersIn(l, r) == Span(0, |NumbersIn(l, r)|) {
      KernelMeets(g, workers, n, r);
    }
    NodesFit(g, workers, n);
    CountedIsNumbered(l, bmax);
  }

  /** So every number below the maximum is the index of exactly one node, bucket and action of the built tree. */
  lemma BuiltTreeIndex(g: Game, workers: seq<Fcpa>, n: Node, bmax: seq<nat>, x: nat) returns (k: nat, b: nat, a: nat)
    requires g.Valid() && Grown(g, workers, n) && AllNumbered(n, false) && |bmax| == RnbaIndex.MAX_ROUNDS
    requires x < RnbaIndex.MaxIndex(RnbaIndex.Nodes(IndexTree(n)), bmax)
    ensures var l := RnbaIndex.Nodes(IndexTree(n));
      && RnbaIndex.ValidTuple(l, bmax, k, b, a) && RnbaIndex.Hash(l, bmax, k, b, a) == x
      && forall k': nat, b': nat, a': nat ::
           RnbaIndex.ValidTuple(l, bmax, k', b', a') && RnbaIndex.Hash(l, bmax, k', b', a') == x ==>
             k' == k && b' == b && a' == a
  {
    var l := RnbaIndex.Nodes(IndexTree(n));
    NodesFit(g, workers, n);
    k, b, a := RnbaIndex.HashSurjective(l, bmax, x);
    forall k': nat, b': nat, a': nat
      | RnbaIndex.ValidTuple(l, bmax, k', b', a') && RnbaIndex.Hash(l, bmax, k', b', a') == x
      ensures k' == k && b' == b && a' == a
    {
      RnbaIndex.HashInjective(l, bmax, k, b, a, k', b', a');
    }
  }

  // ---------------------------------------------------------------- the tree the walk is paid in

  function FolderOf(h: Hand): WalkValues.Folder {
    if |h.folded| > 0 && h.folded[0] then WalkValues.Player(0)
    else if |h.folded| > 1 && h.folded[1] then WalkValues.Player(1)
    else WalkValues.Nobody
  }

  /** The same tree with the probabilities play gives the actions of its nodes. */
  ghost function ValueTree(g: Game, n: Node, play: Node -> seq<seq<real>>): (t: WalkValues.Node)
    requires g.Valid()
    ensures t.Terminal? <==> n.state.finished || !n.state.Shape(g)
    decreases n
  {
    if n.state.finished || !n.state.Shape(g) then
      WalkValues.Terminal(if |n.state.spent| == 2 then Payoffs.Min(n.state.spent[0], n.state.spent[1]) else 0,
        FolderOf(n.state))
    else
      WalkValues.Choice(CurrentPlayer(g, n.state), play(n),
                        seq(|n.children|, i requires 0 <= i < |n.children| => ValueTree(g, n.children[i], play)))
  }

  /** The ranks of the two hands, player p's first or second. */
  function RanksOf(mine: int, theirs: int, p: nat): (rank: seq<int>)
    requires p < 2
    ensures |rank| == 2 && rank[p] == mine && rank[1 - p] == theirs
  {
    if p == 0 then [mine, theirs] else [theirs, mine]
  }

  /** What the walk credits hand i against hand j at the end of a hand is what valueOfState pays. */
  lemma EndsPayTheGame(g: Game, n: Node, play: Node -> seq<seq<real>>, hands: seq<RankSlots.HandAndRank>, p: nat,
                       i: nat, j: nat)
    requires g.Valid() && n.state.finished && Pays(g, n.state) && p < 2 && i < |hands| && j < |hands|
    requires hands[i].rank >= 0 && hands[j].rank >= 0
    requires !hands[i].Has(hands[j].high) && !hands[i].Has(hands[j].low)
    ensures PaysAt(g, n.state, RanksOf(hands[i].rank, hands[j].rank, p), p)
    ensures WalkValues.Meet(hands, ValueTree(g, n, play), p, i, j) ==
            Payoffs.StateValue(g, n.state, RanksOf(hands[i].rank, hands[j].rank, p), p)
  {
    var rank := RanksOf(hands[i].rank, hands[j].rank, p);
    assert PaysAt(g, n.state, rank, p);
  }

  /** A tree with hands that meet in it. */
  ghost predicate Meets(g: Game, workers: seq<Fcpa>, n: Node, hands: seq<RankSlots.HandAndRank>, i: nat, j: nat)
    requires g.Valid()
  {
    && g.numPlayers == 2 && Grown(g, workers, n) && AllPay(g, n) && i < |hands| && j < |hands|
    && hands[i].rank >= 0 && hands[j].rank >= 0 && !hands[i].Has(hands[j].high) && !hands[i].Has(hands[j].low)
  }

  lemma ChildMeets(g: Game, workers: seq<Fcpa>, n: Node, hands: seq<RankSlots.HandAndRank>, i: nat, j: nat, k: nat)
    requires g.Valid() && Meets(g, workers, n, hands, i, j) && k < |n.children|
    ensures Meets(g, workers, n.children[k], hands, i, j)
  {
    assert GrownKid(g, workers, n, k) && KidPays(g, n, k);
  }

  /** The expected payoff to player p, by the rules of the game, when both players play as play says. */
  ghost function GameValue(g: Game, workers: seq<Fcpa>, n: Node, play: Node -> seq<seq<real>>,
                           hands: seq<RankSlots.HandAndRank>, p: nat, i: nat, j: nat): real
    requires g.Valid() && Meets(g, workers, n, hands, i, j) && p < 2
    decreases n, 1, 0
  {
    if n.state.finished then
      var rank := RanksOf(hands[i].rank, hands[j].rank, p);
      assert PaysAt(g, n.state, rank, p);
      Payoffs.StateValue(g, n.state, rank, p)
    else GameSum(g, workers, n, play, hands, p, i, j, |n.children|)
  }

  ghost function GameSum(g: Game, workers: seq<Fcpa>, n: Node, play: Node -> seq<seq<real>>,
                         hands: seq<RankSlots.HandAndRank>, p: nat, i: nat, j: nat, k: nat): real
    requires g.Valid() && Meets(g, workers, n, hands, i, j) && p < 2 && !n.state.finished && k <= |n.children|
    decreases n, 0, k
  {
    if k == 0 then 0.0
    else
      ChildMeets(g, workers, n, hands, i, j, k - 1);
      GameSum(g, workers, n, play, hands, p, i, j, k - 1)
      + Sums.Mul(Chance(play(n), hands[if CurrentPlayer(g, n.state) == p then i else j].vIdx, k - 1),
                 GameValue(g, workers, n.children[k - 1], play, hands, p, i, j))
  }

  function Chance(avg: seq<seq<real>>, v: nat, a: nat): real {
    if v < |avg| && a < |avg[v]| then avg[v][a] else 0.0
  }

  /** In a built tree the walk's value of two hands is the expected payoff of the game. */
  lemma {:induction false} WalkValuesTheGame(g: Game, workers: seq<Fcpa>, n: Node, play: Node -> seq<seq<real>>,
                                             hands: seq<RankSlots.HandAndRank>, p: nat, i: nat, j: nat)
    requires g.Valid() && Meets(g, workers, n, hands, i, j) && p < 2
    ensures WalkValues.PairValue(hands, ValueTree(g, n, play), p, i, j) ==
      GameValue(g, workers, n, play, hands, p, i, j)
    decreases n, 1, 0
  {
    if n.state.finished {
      EndsPayTheGame(g, n, play, hands, p, i, j);
    } else {
      KidsValueTheGame(g, workers, n, play, hands, p, i, j, |n.children|);
    }
  }

  lemma MeetsOpens(g: Game, workers: seq<Fcpa>, n: Node, hands: seq<RankSlots.HandAndRank>, i: nat, j: nat)
    requires g.Valid() && Meets(g, workers, n, hands, i, j)
    ensures n.state.Shape(g) && i < |hands| && j < |hands|
  {
  }

  lemma PairStep(hands: seq<RankSlots.HandAndRank>, t: WalkValues.Node, p: nat, i: nat, j: nat, k: nat)
    requires t.Choice? && i < |hands| && j < |hands| && 0 < k <= |t.children|
    ensures WalkValues.PairSum(hands, t, p, i, j, k) ==
      WalkValues.PairSum(hands, t, p, i, j, k - 1)
      + Sums.Mul(Chance(t.policy, hands[if t.actor == p then i else j].vIdx, k - 1),
                 WalkValues.PairValue(hands, t.children[k - 1], p, i, j))
  {
  }

  lemma {:induction false} KidsValueTheGame(g: Game, workers: seq<Fcpa>, n: Node, play: Node -> seq<seq<real>>,
                                            hands: seq<RankSlots.HandAndRank>, p: nat, i: nat, j: nat, k: nat)
    requires g.Valid() && Meets(g, workers, n, hands, i, j) && p < 2 && !n.state.finished && k <= |n.children|
    ensures ValueTree(g, n, play).Choice? && |ValueTree(g, n, play).children| == |n.children|
    ensures WalkValues.PairSum(hands, ValueTree(g, n, play), p, i, j, k) ==
      GameSum(g, workers, n, play, hands, p, i, j, k)
    decreases n, 0, k
  {
    hide Sums.Mul, Chance, WalkValues.PairValue, GameValue, Meets, Grown, AllPay, Game.Valid;
    MeetsOpens(g, workers, n, hands, i, j);
    if k > 0 {
      ChildMeets(g, workers, n, hands, i, j, k - 1);
      hide WalkValues.PairSum;
      KidsValueTheGame(g, workers, n, play, hands, p, i, j, k - 1);
      WalkValuesTheGame(g, workers, n.children[k - 1], play, hands, p, i, j);
      PairStep(hands, ValueTree(g, n, play), p, i, j, k);
    }
  }

  lemma {:induction false} FoldersAreRight(g: Game, n: Node, play: Node -> seq<seq<real>>)
    requires g.Valid()
    ensures WalkValues.FoldersArePlayers(ValueTree(g, n, play))
    decreases n
  {
    if ValueTree(g, n, play).Choice? {
      forall a | 0 <= a < |n.children| ensures WalkValues.FoldersArePlayers(ValueTree(g, n, play).children[a]) {
        FoldersAreRight(g, n.children[a], play);
      }
    }
  }

  /** So in a built tree, whatever is played and whatever the ranges, what one player earns the other loses. */
  lemma BuiltTreeIsZeroSum(g: Game, n: Node, play: Node -> seq<seq<real>>, hands: seq<RankSlots.HandAndRank>,
                           x: seq<real>, y: seq<real>, size: nat)
    requires g.Valid() && WalkValues.Proper(ValueTree(g, n, play), size)
    requires |x| == |y| == |hands| && WalkValues.Range(x) && WalkValues.Range(y)
    requires forall j :: 0 <= j < |hands| ==> hands[j].vIdx < size
    ensures WalkValues.Earned(hands, WalkValues.Weighted, ValueTree(g, n, play), 0, x, y)
            + WalkValues.Earned(hands, WalkValues.Weighted, ValueTree(g, n, play), 1, y, x) == 0.0
  {
    FoldersAreRight(g, n, play);
    WalkValues.FixedStrategiesAreZeroSum(hands, ValueTree(g, n, play), x, y, size);
  }
}
