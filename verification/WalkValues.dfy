/**
  What the alternate tree walk of modules/engine/src/cfr_worker.cpp computes for a fixed strategy, hand
  by hand, and why: it is the expected payoff against the opponent's range, so the two players'
  values cancel, and a best response never does worse.
 */
module WalkValues {
  import opened RankSlots
  import opened Sums

  const PRUNE_THRESHOLD: real := 0.01    // RANGE_ROLLOUT_PRUNE_THRESHOLD
  const DOUBLE_EPSILON: real := 0.00000000001
  const BELIEF_MASK: real := -1.0
  const WORST: real := -999999999.0

  /** Nobody folded, or the player who did. */
  datatype Folder = Nobody | Player(p: nat)

  /** A betting tree with the strategy to play: policy[v][a] is the probability of action a with the hand of index v. */
  datatype Node =
    | Terminal(pot: int, folder: Folder)
    | Choice(actor: nat, policy: seq<seq<real>>, children: seq<Node>)
  {
    /** GetStake of a terminal node. */
    function Stake(p: nat): int
      requires Terminal?
    {
      if folder == Player(p) then -pot else pot
    }
  }

  datatype Mode = Weighted | BestResponse

  /** Policies have a row for every hand and a probability for every action; small ones are zero. */
  predicate Proper(node: Node, n: nat)
    decreases node
  {
    node.Choice? ==>
      && node.actor < 2
      && |node.policy| == n
      && (forall v :: 0 <= v < n ==> Distribution(node.policy[v], |node.children|))
      && forall a :: 0 <= a < |node.children| ==> Proper(node.children[a], n)
  }

  predicate Distribution(avg: seq<real>, n: nat) {
    && |avg| == n > 0
    && (forall a :: 0 <= a < n ==> avg[a] == 0.0 || avg[a] >= PRUNE_THRESHOLD)
    && Sum(avg) == 1.0
  }

  /** Whether hand i meets opponent hand j at a terminal node, and who wins the showdown. */
  function Outcome(hands: seq<HandAndRank>, node: Node, i: nat, j: nat): real
    requires node.Terminal? && i < |hands| && j < |hands|
  {
    if node.folder == Nobody then Duel(hands[i], hands[j], 1.0)
    else if hands[i].Has(hands[j].high) || hands[i].Has(hands[j].low) then 0.0
    else 1.0
  }

  /** My hand i against opponent hand j at a terminal node, per unit of weight. */
  function Meet(hands: seq<HandAndRank>, node: Node, p: nat, i: nat, j: nat): real
    requires node.Terminal? && i < |hands| && j < |hands|
  {
    node.Stake(p) as real * Outcome(hands, node, i, j)
  }

  // ---------------------------------------------------------------- the game, hand against hand

  /** The expected payoff to player p holding hand i when the opponent holds hand j and both play the strategy. */
  function PairValue(hands: seq<HandAndRank>, node: Node, p: nat, i: nat, j: nat): real
    requires i < |hands| && j < |hands|
    decreases node, 2, 0
  {
    match node
    case Terminal(_, _) => Meet(hands, node, p, i, j)
    case Choice(_, _, children) => PairSum(hands, node, p, i, j, |children|)
  }

  /** The first n actions. */
  function PairSum(hands: seq<HandAndRank>, node: Node, p: nat, i: nat, j: nat, n: nat): real
    requires node.Choice? && i < |hands| && j < |hands| && n <= |node.children|
    decreases node, 1, n
  {
    if n == 0 then 0.0
    else PairSum(hands, node, p, i, j, n - 1)
         + Prob(node, hands[if node.actor == p then i else j].vIdx, n - 1) * PairValue(hands, node.children[n - 1], p,
           i, j)
  }

  function Prob(node: Node, v: nat, a: nat): real
    requires node.Choice?
  {
    if v < |node.policy| && a < |node.policy[v]| then node.policy[v][a] else 0.0
  }

  // ---------------------------------------------------------------- the walk, hand against range

  predicate IsPruned(x: real) { -DOUBLE_EPSILON < x - BELIEF_MASK < DOUBLE_EPSILON }

  predicate AllZero(w: seq<real>) {
    forall j :: 0 <= j < |w| ==> w[j] <= 0.0
  }

  /** One entry of RangeRollout. */
  function Roll(x: real, prob: real): real {
    if IsPruned(x) || x == 0.0 then x
    else if prob < PRUNE_THRESHOLD then 0.0
    else x * prob
  }

  /** RangeRollout: the opponent's range after action a. */
  function Rollout(hands: seq<HandAndRank>, node: Node, w: seq<real>, a: nat): (next: seq<real>)
    requires node.Choice? && |w| == |hands|
    ensures |next| == |w|
  {
    seq(|w|, j requires 0 <= j < |w| => Roll(w[j], Prob(node, hands[j].vIdx, a)))
  }

  /** A terminal node: my hand i against the first n hands of the range. */
  function MeetRange(hands: seq<HandAndRank>, node: Node, p: nat, w: seq<real>, i: nat): real
    requires node.Terminal? && i < |hands| == |w|
  {
    Mul(node.Stake(p) as real, if node.folder == Nobody then Showdown(hands, w, i, |hands|) else NoClash(hands, w, i,
      |hands|))
  }

  /** Weight above zero of the first n opponent hands that share no card with hand i. */
  function NoClash(hands: seq<HandAndRank>, w: seq<real>, i: nat, n: nat): real
    requires i < |hands| == |w| && n <= |hands|
  {
    if n == 0 then 0.0
    else NoClash(hands, w, i, n - 1)
         + if hands[i].Has(hands[n - 1].high) || hands[i].Has(hands[n - 1].low) || w[n - 1] <= 0.0 then 0.0
           else w[n - 1]
  }

  /** WalkTree_Alternate: what player p's hand i earns at node against the range w. */
  function Walk(hands: seq<HandAndRank>, mode: Mode, node: Node, p: nat, w: seq<real>, i: nat): real
    requires i < |hands| == |w|
    decreases node, 2, 0
  {
    if AllZero(w) then 0.0
    else match node
      case Terminal(_, _) => MeetRange(hands, node, p, w, i)
      case Choice(actor, _, children) =>
        if actor == p && mode.BestResponse? then Masked(BestOf(hands, node, p, w, i, |children|))
        else WalkSum(hands, mode, node, p, w, i, |children|)
  }

  /** ComputeCfu over the first n actions: weighted at my own nodes, summed at the opponent's. */
  function WalkSum(hands: seq<HandAndRank>, mode: Mode, node: Node, p: nat, w: seq<real>, i: nat, n: nat): real
    requires node.Choice? && i < |hands| == |w| && n <= |node.children|
    decreases node, 1, n
  {
    if n == 0 then 0.0
    else
      var before := WalkSum(hands, mode, node, p, w, i, n - 1);
      if node.actor == p then
        var weight := Prob(node, hands[i].vIdx, n - 1);
        if weight > 0.0 then before + Walk(hands, mode, node.children[n - 1], p, w, i) * weight else before
      else before + Walk(hands, mode, node.children[n - 1], p, Rollout(hands, node, w, n - 1), i)
  }

  /** ComputeCfu in best-response mode: the best of the first n actions that are ever played. */
  function BestOf(hands: seq<HandAndRank>, node: Node, p: nat, w: seq<real>, i: nat, n: nat): real
    requires node.Choice? && i < |hands| == |w| && n <= |node.children|
    decreases node, 1, n
  {
    if n == 0 then WORST
    else
      var best := BestOf(hands, node, p, w, i, n - 1);
      var util := Walk(hands, BestResponse, node.children[n - 1], p, w, i);
      if Prob(node, hands[i].vIdx, n - 1) > 0.0 && util != BELIEF_MASK && util > best then util else best
  }

  function Masked(best: real): real {
    if -0.001 < best - WORST < 0.001 then BELIEF_MASK else best
  }

  // ---------------------------------------------------------------- the walk is the expected payoff

  /** Player p's payoffs with hand i, for every opponent hand. */
  ghost function PairValues(hands: seq<HandAndRank>, node: Node, p: nat, i: nat): (v: seq<real>)
    requires i < |hands|
    ensures |v| == |hands| && forall j :: 0 <= j < |hands| ==> v[j] == PairValue(hands, node, p, i, j)
  {
    seq(|hands|, j requires 0 <= j < |hands| => PairValue(hands, node, p, i, j))
  }

  ghost function PairSums(hands: seq<HandAndRank>, node: Node, p: nat, i: nat, n: nat): (v: seq<real>)
    requires i < |hands| && node.Choice? && n <= |node.children|
    ensures |v| == |hands| && forall j :: 0 <= j < |hands| ==> v[j] == PairSum(hands, node, p, i, j, n)
  {
    seq(|hands|, j requires 0 <= j < |hands| => PairSum(hands, node, p, i, j, n))
  }

  ghost predicate Range(w: seq<real>) {
    forall j :: 0 <= j < |w| ==> w[j] >= 0.0
  }

  lemma {:induction false} ShowdownIsDot(hands: seq<HandAndRank>, w: seq<real>, i: nat, n: nat, v: seq<real>)
    requires i < |hands| == |w| == |v| && n <= |hands|
    requires forall j :: 0 <= j < |hands| ==> v[j] == Duel(hands[i], hands[j], 1.0)
    ensures Showdown(hands, w, i, n) == Dot(w[..n], v[..n])
  {
    if n > 0 {
      ShowdownIsDot(hands, w, i, n - 1, v);
      DotSnoc(w[..n], v[..n]);
      assert w[..n][..n - 1] == w[..n - 1] && v[..n][..n - 1] == v[..n - 1];
    }
  }

  lemma {:induction false} NoClashIsDot(hands: seq<HandAndRank>, w: seq<real>, i: nat, n: nat, v: seq<real>)
    requires i < |hands| == |w| == |v| && n <= |hands| && Range(w)
    requires forall j :: 0 <= j < |hands| ==>
      v[j] == if hands[i].Has(hands[j].high) || hands[i].Has(hands[j].low) then 0.0 else 1.0
    ensures NoClash(hands, w, i, n) == Dot(w[..n], v[..n])
  {
    if n > 0 {
      NoClashIsDot(hands, w, i, n - 1, v);
      DotSnoc(w[..n], v[..n]);
      assert w[..n][..n - 1] == w[..n - 1] && v[..n][..n - 1] == v[..n - 1];
    }
  }

  /** The pairwise outcome without the stake. */
  ghost function Outcomes(hands: seq<HandAndRank>, node: Node, i: nat): (v: seq<real>)
    requires node.Terminal? && i < |hands|
    ensures |v| == |hands| && forall j :: 0 <= j < |hands| ==> v[j] == Outcome(hands, node, i, j)
  {
    seq(|hands|, j requires 0 <= j < |hands| => Outcome(hands, node, i, j))
  }

  lemma DotScales(w: seq<real>, v: seq<real>, c: real, z: seq<real>)
    requires |w| == |v| == |z| && forall j :: 0 <= j < |w| ==> z[j] == c * v[j]
    ensures Dot(w, z) == Mul(c, Dot(w, v))
  {
    var zero := seq(|w|, _ => 0.0);
    DotLinear(w, zero, v, c, z);
    DotZero(w, zero);
  }

  lemma MeetRangeIsDot(hands: seq<HandAndRank>, node: Node, p: nat, w: seq<real>, i: nat)
    requires node.Terminal? && i < |hands| == |w| && Range(w)
    ensures MeetRange(hands, node, p, w, i) == Dot(w, PairValues(hands, node, p, i))
  {
    var v, n := Outcomes(hands, node, i), |hands|;
    hide Dot, Mul;
    if node.folder == Nobody {
      ShowdownIsDot(hands, w, i, n, v);
    } else {
      NoClashIsDot(hands, w, i, n, v);
    }
    assert w[..n] == w && v[..n] == v;
    DotScales(w, v, node.Stake(p) as real, PairValues(hands, node, p, i));
  }

  /** Rolling the range out is the same as weighting the payoffs. */
  lemma RolloutMoves(hands: seq<HandAndRank>, node: Node, w: seq<real>, a: nat, v: seq<real>, v': seq<real>, n: nat)
    requires node.Choice? && |w| == |hands| == |v| == |v'| && Range(w) && Proper(node, n) && a < |node.children|
    requires forall j :: 0 <= j < |hands| ==> hands[j].vIdx < n && v'[j] == Prob(node, hands[j].vIdx, a) * v[j]
    ensures Range(Rollout(hands, node, w, a))
    ensures Dot(Rollout(hands, node, w, a), v) == Dot(w, v')
  {
    var s := seq(|w|, j requires 0 <= j < |w| => Prob(node, hands[j].vIdx, a));
    var w' := Rollout(hands, node, w, a);
    forall j | 0 <= j < |w| ensures w'[j] == w[j] * s[j] && w'[j] >= 0.0 { RollScales(w[j], s[j]); }
    DotMove(w, v, s, w', v');
  }

  lemma RollScales(x: real, prob: real)
    requires x >= 0.0 && (prob == 0.0 || prob >= PRUNE_THRESHOLD)
    ensures Roll(x, prob) == x * prob >= 0.0
  {
  }

  /** Against any range, the walk values a hand at its expected payoff. */
  lemma {:induction false} WalkIsExpectedPayoff(hands: seq<HandAndRank>, node: Node, p: nat, w: seq<real>, i: nat,
                                                n: nat)
    requires i < |hands| == |w| && Range(w) && Proper(node, n)
    requires forall j :: 0 <= j < |hands| ==> hands[j].vIdx < n
    ensures Walk(hands, Weighted, node, p, w, i) == Dot(w, PairValues(hands, node, p, i))
    decreases node, 2, 0
  {
    if AllZero(w) {
      DotZero(w, PairValues(hands, node, p, i));
    } else if node.Terminal? {
      MeetRangeIsDot(hands, node, p, w, i);
    } else {
      WalkSumIsExpected(hands, node, p, w, i, n, |node.children|);
      assert PairValues(hands, node, p, i) == PairSums(hands, node, p, i, |node.children|);
    }
  }

  lemma {:induction false} WalkSumIsExpected(hands: seq<HandAndRank>, node: Node, p: nat, w: seq<real>, i: nat,
                                             n: nat, k: nat)
    requires node.Choice? && i < |hands| == |w| && Range(w) && Proper(node, n) && k <= |node.children|
    requires forall j :: 0 <= j < |hands| ==> hands[j].vIdx < n
    ensures WalkSum(hands, Weighted, node, p, w, i, k) == Dot(w, PairSums(hands, node, p, i, k))
    decreases node, 1, k
  {
    hide Dot, Rollout;
    if k == 0 {
      DotZero(w, PairSums(hands, node, p, i, k));
    } else {
      WalkSumIsExpected(hands, node, p, w, i, n, k - 1);
      if node.actor == p {
        WalkIsExpectedPayoff(hands, node.children[k - 1], p, w, i, n);
        MyAction(hands, node, p, w, i, n, k - 1);
      } else {
        TheirRange(hands, node, w, n, k - 1);
        WalkIsExpectedPayoff(hands, node.children[k - 1], p, Rollout(hands, node, w, k - 1), i, n);
        TheirAction(hands, node, p, w, i, n, k - 1);
      }
    }
  }

  /** One more action of mine. */
  lemma MyAction(hands: seq<HandAndRank>, node: Node, p: nat, w: seq<real>, i: nat, n: nat, a: nat)
    requires node.Choice? && node.actor == p && i < |hands| == |w| && a < |node.children|
    requires Proper(node, n) && hands[i].vIdx < n
    ensures Prob(node, hands[i].vIdx, a) >= 0.0
    ensures Dot(w, PairSums(hands, node, p, i, a + 1)) ==
      Dot(w, PairSums(hands, node, p, i, a))
      + Prob(node, hands[i].vIdx, a) * Dot(w, PairValues(hands, node.children[a], p, i))
  {
    assert Distribution(node.policy[hands[i].vIdx], |node.children|);
    DotLinear(w, PairSums(hands, node, p, i, a), PairValues(hands, node.children[a], p, i),
              Prob(node, hands[i].vIdx, a), PairSums(hands, node, p, i, a + 1));
  }

  lemma TheirRange(hands: seq<HandAndRank>, node: Node, w: seq<real>, n: nat, a: nat)
    requires node.Choice? && |w| == |hands| && Range(w) && Proper(node, n) && a < |node.children|
    requires forall j :: 0 <= j < |hands| ==> hands[j].vIdx < n
    ensures Range(Rollout(hands, node, w, a))
  {
    var zero := seq(|w|, _ => 0.0);
    RolloutMoves(hands, node, w, a, zero, zero, n);
  }

  /** Player p's payoffs after action a, weighted with how often each opponent hand takes it. */
  ghost function Reached(hands: seq<HandAndRank>, node: Node, p: nat, i: nat, a: nat): (v: seq<real>)
    requires node.Choice? && i < |hands| && a < |node.children|
    ensures |v| == |hands|
    ensures forall j :: 0 <= j < |hands| ==>
      v[j] == Prob(node, hands[j].vIdx, a) * PairValue(hands, node.children[a], p, i, j)
  {
    seq(|hands|, j requires 0 <= j < |hands| =>
      Prob(node, hands[j].vIdx, a) * PairValue(hands, node.children[a], p, i, j))
  }

  lemma TheirPairs(hands: seq<HandAndRank>, node: Node, p: nat, w: seq<real>, i: nat, a: nat)
    requires node.Choice? && node.actor != p && i < |hands| == |w| && a < |node.children|
    ensures Dot(w, PairSums(hands, node, p, i, a + 1)) ==
      Dot(w, PairSums(hands, node, p, i, a)) + Dot(w, Reached(hands, node, p, i, a))
  {
    DotAdd(w, PairSums(hands, node, p, i, a), Reached(hands, node, p, i, a), PairSums(hands, node, p, i, a + 1));
  }

  /** One more action of the opponent's. */
  lemma TheirAction(hands: seq<HandAndRank>, node: Node, p: nat, w: seq<real>, i: nat, n: nat, a: nat)
    requires node.Choice? && node.actor != p && i < |hands| == |w| && a < |node.children|
    requires Range(w) && Proper(node, n) && forall j :: 0 <= j < |hands| ==> hands[j].vIdx < n
    ensures Dot(w, PairSums(hands, node, p, i, a + 1)) ==
      Dot(w, PairSums(hands, node, p, i, a))
      + Dot(Rollout(hands, node, w, a), PairValues(hands, node.children[a], p, i))
  {
    hide Proper, PairSums, PairValues, Rollout, Dot;
    TheirPairs(hands, node, p, w, i, a);
    RolloutMoves(hands, node, w, a, PairValues(hands, node.children[a], p, i), Reached(hands, node, p, i, a), n);
  }

  // ---------------------------------------------------------------- zero sum

  /** What one player wins with a pair of hands the other loses. */
  lemma {:induction false} PayoffsCancel(hands: seq<HandAndRank>, node: Node, i: nat, j: nat, n: nat)
    requires i < |hands| && j < |hands| && Proper(node, n)
    requires node.Terminal? && node.folder != Nobody ==> node.folder.p < 2
    requires FoldersArePlayers(node)
    ensures PairValue(hands, node, 0, i, j) == -PairValue(hands, node, 1, j, i)
    decreases node, 2, 0
  {
    if node.Terminal? {
      assert Duel(hands[i], hands[j], 1.0) == -Duel(hands[j], hands[i], 1.0);
    } else {
      SumsCancel(hands, node, i, j, n, |node.children|);
    }
  }

  predicate FoldersArePlayers(node: Node)
    decreases node
  {
    match node
    case Terminal(_, folder) => folder == Nobody || folder == Player(0) || folder == Player(1)
    case Choice(_, _, children) => forall a :: 0 <= a < |children| ==> FoldersArePlayers(children[a])
  }

  lemma {:induction false} SumsCancel(hands: seq<HandAndRank>, node: Node, i: nat, j: nat, n: nat, k: nat)
    requires node.Choice? && i < |hands| && j < |hands| && Proper(node, n) && k <= |node.children|
    requires FoldersArePlayers(node)
    ensures PairSum(hands, node, 0, i, j, k) == -PairSum(hands, node, 1, j, i, k)
    decreases node, 1, k
  {
    if k > 0 {
      SumsCancel(hands, node, i, j, n, k - 1);
      PayoffsCancel(hands, node.children[k - 1], i, j, n);
    }
  }

  /** What player p's range x earns against w: cfu dot-multiplied with x, and summed (Solve). */
  ghost function Earned(hands: seq<HandAndRank>, mode: Mode, node: Node, p: nat, x: seq<real>, w: seq<real>): real
    requires |x| == |w| == |hands|
  {
    Dot(x, WalkAll(hands, mode, node, p, w))
  }

  ghost function WalkAll(hands: seq<HandAndRank>, mode: Mode, node: Node, p: nat, w: seq<real>): (v: seq<real>)
    requires |w| == |hands|
    ensures |v| == |hands| && forall i :: 0 <= i < |hands| ==> v[i] == Walk(hands, mode, node, p, w, i)
  {
    seq(|hands|, i requires 0 <= i < |hands| => Walk(hands, mode, node, p, w, i))
  }

  /** Player 0's payoffs, hand by hand. */
  ghost function Payoffs(hands: seq<HandAndRank>, node: Node): (m: seq<seq<real>>)
    ensures |m| == |hands| && Matrix(m, |hands|)
    ensures forall i :: 0 <= i < |hands| ==> m[i] == PairValues(hands, node, 0, i)
  {
    seq(|hands|, i requires 0 <= i < |hands| => PairValues(hands, node, 0, i))
  }

  /** Player 0 earns the matrix by rows, player 1 its negative by columns. */
  lemma EarnedByRows(hands: seq<HandAndRank>, node: Node, w: seq<real>, n: nat)
    requires |w| == |hands| && Range(w) && Proper(node, n) && forall j :: 0 <= j < |hands| ==> hands[j].vIdx < n
    ensures WalkAll(hands, Weighted, node, 0, w) == ByRows(Payoffs(hands, node), w)
  {
    var u, v := WalkAll(hands, Weighted, node, 0, w), ByRows(Payoffs(hands, node), w);
    forall i | 0 <= i < |hands| ensures u[i] == v[i] { WalkIsExpectedPayoff(hands, node, 0, w, i, n); }
  }

  lemma EarnedByColumns(hands: seq<HandAndRank>, node: Node, w: seq<real>, n: nat, j: nat)
    requires |w| == |hands| && Range(w) && Proper(node, n) && forall j :: 0 <= j < |hands| ==> hands[j].vIdx < n
    requires FoldersArePlayers(node) && j < |hands|
    ensures Walk(hands, Weighted, node, 1, w, j) == -ByColumns(Payoffs(hands, node), |hands|, w)[j]
  {
    WalkIsExpectedPayoff(hands, node, 1, w, j, n);
    var u, v := PairValues(hands, node, 1, j), Column(Payoffs(hands, node), |hands|, j);
    forall i | 0 <= i < |hands| ensures u[i] == -v[i] { PayoffsCancel(hands, node, i, j, n); }
    DotNegate(w, u, v);
  }

  lemma SecondEarns(hands: seq<HandAndRank>, node: Node, x: seq<real>, y: seq<real>, n: nat)
    requires |x| == |y| == |hands| && Range(x) && Proper(node, n) && FoldersArePlayers(node)
    requires forall j :: 0 <= j < |hands| ==> hands[j].vIdx < n
    ensures Earned(hands, Weighted, node, 1, y, x) == -Dot(y, ByColumns(Payoffs(hands, node), |y|, x))
  {
    var u, v := WalkAll(hands, Weighted, node, 1, x), ByColumns(Payoffs(hands, node), |hands|, x);
    forall j | 0 <= j < |hands| ensures u[j] == -v[j] { EarnedByColumns(hands, node, x, n, j); }
    DotNegate(y, u, v);
  }

  /** With a fixed strategy the two players' earnings cancel, whatever their ranges. */
  lemma FixedStrategiesAreZeroSum(hands: seq<HandAndRank>, node: Node, x: seq<real>, y: seq<real>, n: nat)
    requires |x| == |y| == |hands| && Range(x) && Range(y) && Proper(node, n) && FoldersArePlayers(node)
    requires forall j :: 0 <= j < |hands| ==> hands[j].vIdx < n
    ensures Earned(hands, Weighted, node, 0, x, y) + Earned(hands, Weighted, node, 1, y, x) == 0.0
  {
    var m := Payoffs(hands, node);
    EarnedByRows(hands, node, y, n);
    RowsAreColumns(m, x, y);
    SecondEarns(hands, node, x, y, n);
  }

  // ---------------------------------------------------------------- best response

  /** Hand i plays action a, and its value there is u. */
  ghost predicate Plays(hands: seq<HandAndRank>, node: Node, p: nat, w: seq<real>, i: nat, a: nat, u: real)
    requires node.Choice? && i < |hands| == |w|
  {
    && a < |node.children| && Prob(node, hands[i].vIdx, a) > 0.0
    && u == Walk(hands, BestResponse, node.children[a], p, w, i)
  }

  /** No value of an action played is as bad as the starting value. */
  ghost predicate AboveWorst(hands: seq<HandAndRank>, node: Node, p: nat, w: seq<real>, i: nat)
    requires node.Choice? && i < |hands| == |w|
  {
    forall a: nat, u: real :: Plays(hands, node, p, w, i, a, u) ==> u >= WORST + 1.0
  }

  /** The best of what hand i can get is exactly the mask, and something worse is there to be taken instead. */
  ghost predicate PassesOver(hands: seq<HandAndRank>, node: Node, p: nat, w: seq<real>, i: nat)
    requires node.Choice? && i < |hands| == |w|
  {
    && (exists a: nat :: Plays(hands, node, p, w, i, a, BELIEF_MASK))
    && (exists a: nat, u: real :: u < BELIEF_MASK && Plays(hands, node, p, w, i, a, u))
    && forall a: nat, u: real :: Plays(hands, node, p, w, i, a, u) ==> u <= BELIEF_MASK
  }

  /** The best response is at least what every action played is worth, exactly if it does not pass over the best. */
  lemma BestUnlessPassedOver(hands: seq<HandAndRank>, node: Node, p: nat, w: seq<real>, i: nat)
    requires node.Choice? && i < |hands| == |w| && AboveWorst(hands, node, p, w, i)
    ensures (forall a: nat, u: real :: Plays(hands, node, p, w, i, a, u) ==>
              u <= Masked(BestOf(hands, node, p, w, i, |node.children|)))
            <==> !PassesOver(hands, node, p, w, i)
  {
    var k := |node.children|;
    var best := BestOf(hands, node, p, w, i, k);
    forall a: nat, u: real | Plays(hands, node, p, w, i, a, u) && u != BELIEF_MASK ensures u <= best {
      BestIsBest(hands, node, p, w, i, a, k);
    }
    var c := BestIsPlayed(hands, node, p, w, i, k);
    if best != WORST { assert Plays(hands, node, p, w, i, c, best); }
  }

  /** The best of the first k actions, when anything was found, is the value of one that is played and not the mask. */
  lemma {:induction false} BestIsPlayed(hands: seq<HandAndRank>, node: Node, p: nat, w: seq<real>, i: nat, k: nat)
    returns (a: nat)
    requires node.Choice? && i < |hands| == |w| && k <= |node.children|
    ensures var best := BestOf(hands, node, p, w, i, k);
      best != WORST ==> best != BELIEF_MASK && Plays(hands, node, p, w, i, a, best)
  {
    if k == 0 {
      a := 0;
    } else {
      a := BestIsPlayed(hands, node, p, w, i, k - 1);
      if BestOf(hands, node, p, w, i, k) != BestOf(hands, node, p, w, i, k - 1) { a := k - 1; }
    }
  }

  /** No best response passes over the best anywhere in the tree. */
  ghost predicate MaskFree(hands: seq<HandAndRank>, node: Node, p: nat, w: seq<real>)
    requires |w| == |hands|
    decreases node
  {
    node.Choice? ==>
      && (forall a :: 0 <= a < |node.children| ==>
            MaskFree(hands, node.children[a], p, if node.actor == p then w else Rollout(hands, node, w, a)))
      && (node.actor == p ==> forall i :: 0 <= i < |hands| ==>
            AboveWorst(hands, node, p, w, i) && !PassesOver(hands, node, p, w, i))
  }

  /** A probability for every action, above zero only for actions that hands of index v play at node. */
  ghost predicate Mixes(avg: seq<real>, node: Node, v: nat)
    requires node.Choice?
  {
    && |avg| == |node.children| && Sum(avg) == 1.0
    && forall a :: 0 <= a < |avg| ==> avg[a] >= 0.0 && (avg[a] > 0.0 ==> Prob(node, v, a) > 0.0)
  }

  /** The same tree with the same policy of the opponent, in which player p mixes the actions played in his own way. */
  ghost predicate Deviates(node: Node, other: Node, p: nat, n: nat)
    decreases node
  {
    match node
    case Terminal(_, _) => other == node
    case Choice(actor, policy, children) =>
      && other.Choice? && other.actor == actor && |other.children| == |children|
      && (if actor == p then |other.policy| == n && forall v :: 0 <= v < n ==> Mixes(other.policy[v], node, v)
          else other.policy == policy)
      && forall a :: 0 <= a < |children| ==> Deviates(children[a], other.children[a], p, n)
  }

  /** The best response earns every hand at least what any strategy does that plays no other actions. */
  lemma {:induction false} BestResponseBeatsAll(hands: seq<HandAndRank>, node: Node, other: Node, p: nat, w: seq<real>,
                                                i: nat, n: nat)
    requires i < |hands| == |w| && Range(w) && Proper(node, n) && MaskFree(hands, node, p, w)
    requires Deviates(node, other, p, n) && forall j :: 0 <= j < |hands| ==> hands[j].vIdx < n
    ensures Walk(hands, BestResponse, node, p, w, i) >= Walk(hands, Weighted, other, p, w, i)
    decreases node, 2, 0
  {
    if !AllZero(w) && node.Choice? {
      if node.actor == p {
        BestBeatsMean(hands, node, other, p, w, i, n);
      } else {
        SumsCompare(hands, node, other, p, w, i, n, |node.children|);
      }
    }
  }

  lemma {:induction false} SumsCompare(hands: seq<HandAndRank>, node: Node, other: Node, p: nat, w: seq<real>, i: nat,
                                       n: nat, k: nat)
    requires node.Choice? && node.actor != p && k <= |node.children|
    requires i < |hands| == |w| && Range(w) && Proper(node, n) && MaskFree(hands, node, p, w)
    requires Deviates(node, other, p, n) && forall j :: 0 <= j < |hands| ==> hands[j].vIdx < n
    ensures WalkSum(hands, BestResponse, node, p, w, i, k) >= WalkSum(hands, Weighted, other, p, w, i, k)
    decreases node, 1, k
  {
    if k > 0 {
      SumsCompare(hands, node, other, p, w, i, n, k - 1);
      TheirRange(hands, node, w, n, k - 1);
      SameRollout(hands, node, other, w, k - 1);
      BestResponseBeatsAll(hands, node.children[k - 1], other.children[k - 1], p, Rollout(hands, node, w, k - 1), i, n);
    }
  }

  lemma SameRollout(hands: seq<HandAndRank>, node: Node, other: Node, w: seq<real>, a: nat)
    requires node.Choice? && other.Choice? && other.policy == node.policy && |w| == |hands|
    ensures Rollout(hands, other, w, a) == Rollout(hands, node, w, a)
  {
  }

  /** The best of the actions played is at least any mean of them. */
  lemma {:induction false} BestBeatsMean(hands: seq<HandAndRank>, node: Node, other: Node, p: nat, w: seq<real>, i: nat,
                                         n: nat)
    requires node.Choice? && node.actor == p && !AllZero(w)
    requires i < |hands| == |w| && Range(w) && Proper(node, n) && MaskFree(hands, node, p, w)
    requires Deviates(node, other, p, n) && forall j :: 0 <= j < |hands| ==> hands[j].vIdx < n
    ensures Masked(BestOf(hands, node, p, w, i, |node.children|)) >=
      WalkSum(hands, Weighted, other, p, w, i, |other.children|)
    decreases node, 1, |node.children| + 1
  {
    var avg, k := other.policy[hands[i].vIdx], |node.children|;
    var best := Masked(BestOf(hands, node, p, w, i, k));
    assert Mixes(avg, node, hands[i].vIdx);
    BestUnlessPassedOver(hands, node, p, w, i);
    forall a | 0 <= a < k && avg[a] > 0.0 ensures best >= Walk(hands, Weighted, other.children[a], p, w, i) {
      var u := Walk(hands, BestResponse, node.children[a], p, w, i);
      assert Plays(hands, node, p, w, i, a, u);
      BestResponseBeatsAll(hands, node.children[a], other.children[a], p, w, i, n);
    }
    MeanAtMost(hands, other, p, w, i, k, best);
    assert avg[..k] == avg;
  }

  /** The strategy itself is one of those. */
  lemma {:induction false} DeviatesToItself(node: Node, p: nat, n: nat)
    requires Proper(node, n)
    ensures Deviates(node, node, p, n)
    decreases node
  {
    if node.Choice? {
      forall v | 0 <= v < n ensures Mixes(node.policy[v], node, v) {
        assert Distribution(node.policy[v], |node.children|);
      }
      forall a | 0 <= a < |node.children| ensures Deviates(node.children[a], node.children[a], p, n) {
        DeviatesToItself(node.children[a], p, n);
      }
    }
  }

  /** So the best response earns at least what the strategy does, with every hand. */
  lemma BestResponseIsNoWorse(hands: seq<HandAndRank>, node: Node, p: nat, w: seq<real>, i: nat, n: nat)
    requires i < |hands| == |w| && Range(w) && Proper(node, n) && MaskFree(hands, node, p, w)
    requires forall j :: 0 <= j < |hands| ==> hands[j].vIdx < n
    ensures Walk(hands, BestResponse, node, p, w, i) >= Walk(hands, Weighted, node, p, w, i)
  {
    DeviatesToItself(node, p, n);
    BestResponseBeatsAll(hands, node, node, p, w, i, n);
  }

  lemma {:induction false} BestIsBest(hands: seq<HandAndRank>, node: Node, p: nat, w: seq<real>, i: nat, a: nat, k: nat)
    requires node.Choice? && i < |hands| == |w| && a < k <= |node.children|
    requires Prob(node, hands[i].vIdx, a) > 0.0 && Walk(hands, BestResponse, node.children[a], p, w, i) != BELIEF_MASK
    ensures BestOf(hands, node, p, w, i, k) >= Walk(hands, BestResponse, node.children[a], p, w, i)
  {
    if a < k - 1 { BestIsBest(hands, node, p, w, i, a, k - 1); }
  }

  lemma {:induction false} MeanAtMost(hands: seq<HandAndRank>, node: Node, p: nat, w: seq<real>, i: nat, k: nat,
                                      best: real)
    requires node.Choice? && node.actor == p && i < |hands| == |w| && k <= |node.children|
    requires hands[i].vIdx < |node.policy| && |node.policy[hands[i].vIdx]| == |node.children|
    requires forall a :: 0 <= a < |node.children| ==> node.policy[hands[i].vIdx][a] >= 0.0
    requires forall a :: 0 <= a < |node.children| && node.policy[hands[i].vIdx][a] > 0.0 ==>
      best >= Walk(hands, Weighted, node.children[a], p, w, i)
    ensures WalkSum(hands, Weighted, node, p, w, i, k) <= Mul(best, Sum(node.policy[hands[i].vIdx][..k]))
  {
    var avg := node.policy[hands[i].vIdx];
    if k > 0 {
      MeanAtMost(hands, node, p, w, i, k - 1, best);
      assert avg[..k][..k - 1] == avg[..k - 1];
      var walk := Walk(hands, Weighted, node.children[k - 1], p, w, i);
      hide Mul;
      MeanStep(WalkSum(hands, Weighted, node, p, w, i, k - 1), best, Sum(avg[..k - 1]), avg[k - 1], walk);
    }
  }

  lemma MeanStep(before: real, best: real, sum: real, weight: real, walk: real)
    requires before <= Mul(best, sum) && weight >= 0.0 && (weight > 0.0 ==> walk <= best)
    ensures before + (if weight > 0.0 then walk * weight else 0.0) <= Mul(best, sum + weight)
  {
    TimesPlus(best, sum, weight);
    if weight > 0.0 { TimesMono(weight, walk, best); }
  }

  /** The profiler's sum is never negative: both players' best responses together earn something. */
  lemma BestResponsesNeverLose(hands: seq<HandAndRank>, node: Node, x: seq<real>, y: seq<real>, n: nat)
    requires |x| == |y| == |hands| && Range(x) && Range(y) && Proper(node, n) && FoldersArePlayers(node)
    requires forall j :: 0 <= j < |hands| ==> hands[j].vIdx < n
    requires MaskFree(hands, node, 0, y) && MaskFree(hands, node, 1, x)
    ensures Earned(hands, BestResponse, node, 0, x, y) + Earned(hands, BestResponse, node, 1, y, x) >= 0.0
  {
    forall i | 0 <= i < |hands|
      ensures WalkAll(hands, Weighted, node, 0, y)[i] <= WalkAll(hands, BestResponse, node, 0, y)[i]
      ensures WalkAll(hands, Weighted, node, 1, x)[i] <= WalkAll(hands, BestResponse, node, 1, x)[i]
    {
      BestResponseIsNoWorse(hands, node, 0, y, i, n);
      BestResponseIsNoWorse(hands, node, 1, x, i, n);
    }
    DotMono(x, WalkAll(hands, Weighted, node, 0, y), WalkAll(hands, BestResponse, node, 0, y));
    DotMono(y, WalkAll(hands, Weighted, node, 1, x), WalkAll(hands, BestResponse, node, 1, x));
    FixedStrategiesAreZeroSum(hands, node, x, y, n);
  }
}
