/**
  The best-response walk of modules/engine/src/cfr_worker.cpp is the value of a strategy: one that plays a single action
  with every hand, among those the hand plays.  With BestResponseBeatsAll of module WalkValues it is the maximum.
 */
module BestReplies {
  import opened RankSlots
  import opened Sums
  import opened WalkValues

  /** No value the best response meets anywhere in the tree is as bad as the starting value. */
  ghost predicate AllAboveWorst(hands: seq<HandAndRank>, node: Node, p: nat, w: seq<real>)
    requires |w| == |hands|
    decreases node
  {
    node.Choice? ==>
      && (forall a :: 0 <= a < |node.children| ==>
            AllAboveWorst(hands, node.children[a], p, if node.actor == p then w else Rollout(hands, node, w, a)))
      && (node.actor == p ==> forall i :: 0 <= i < |hands| ==> AboveWorst(hands, node, p, w, i))
  }

  lemma {:induction false} MaskFreeIsAbove(hands: seq<HandAndRank>, node: Node, p: nat, w: seq<real>)
    requires |w| == |hands| && MaskFree(hands, node, p, w)
    ensures AllAboveWorst(hands, node, p, w)
    decreases node
  {
    if node.Choice? {
      forall a | 0 <= a < |node.children|
        ensures AllAboveWorst(hands, node.children[a], p, if node.actor == p then w else Rollout(hands, node, w, a))
      {
        MaskFreeIsAbove(hands, node.children[a], p, if node.actor == p then w else Rollout(hands, node, w, a));
      }
    }
  }

  /** Each hand has an index of its own, below n. */
  ghost predicate OwnIndices(hands: seq<HandAndRank>, n: nat) {
    && (forall j :: 0 <= j < |hands| ==> hands[j].vIdx < n)
    && forall i, j :: 0 <= i < j < |hands| ==> hands[i].vIdx != hands[j].vIdx
  }

  // ---------------------------------------------------------------- one node

  /** Hands of index v play action a at node, and the best response gives them its value. */
  ghost predicate Answers(hands: seq<HandAndRank>, node: Node, p: nat, w: seq<real>, v: nat, a: nat)
    requires node.Choice? && |w| == |hands|
  {
    && a < |node.children| && Prob(node, v, a) > 0.0
    && forall j: nat :: AnswersFor(hands, node, p, w, v, a, j)
  }

  ghost predicate AnswersFor(hands: seq<HandAndRank>, node: Node, p: nat, w: seq<real>, v: nat, a: nat, j: nat)
    requires node.Choice? && |w| == |hands| && a < |node.children|
  {
    j < |hands| && hands[j].vIdx == v ==>
      Walk(hands, BestResponse, node.children[a], p, w, j) == Masked(BestOf(hands, node, p, w, j, |node.children|))
  }

  ghost function Answer(hands: seq<HandAndRank>, node: Node, p: nat, w: seq<real>, v: nat): (a: nat)
    requires node.Choice? && |w| == |hands|
    ensures (exists b: nat :: Answers(hands, node, p, w, v, b)) ==> Answers(hands, node, p, w, v, a)
  {
    if exists b: nat :: Answers(hands, node, p, w, v, b) then
      var b: nat :| Answers(hands, node, p, w, v, b); b
    else 0
  }

  lemma {:induction false} SomeActionPlayed(avg: seq<real>) returns (a: nat)
    requires Sum(avg) > 0.0
    ensures a < |avg| && avg[a] > 0.0
  {
    var n := |avg| - 1;
    if avg[n] > 0.0 { a := n; } else { a := SomeActionPlayed(avg[..n]); }
  }

  /** Every hand has an answer: the best of the actions it plays, or if all of those are worth the mask, any. */
  lemma AnswerExists(hands: seq<HandAndRank>, node: Node, p: nat, w: seq<real>, v: nat, n: nat)
    requires node.Choice? && |w| == |hands| && Proper(node, n) && v < n && OwnIndices(hands, n)
    requires forall i :: 0 <= i < |hands| ==> AboveWorst(hands, node, p, w, i)
    ensures Answers(hands, node, p, w, v, Answer(hands, node, p, w, v))
  {
    assert Distribution(node.policy[v], |node.children|);
    var a := SomeActionPlayed(node.policy[v]);
    if j: nat :| j < |hands| && hands[j].vIdx == v {
      var c := BestIsPlayed(hands, node, p, w, j, |node.children|);
      var best := BestOf(hands, node, p, w, j, |node.children|);
      var b := if best != WORST then c else a;
      var u := Walk(hands, BestResponse, node.children[b], p, w, j);
      assert Plays(hands, node, p, w, j, b, u);
      assert AboveWorst(hands, node, p, w, j);
      if best == WORST && u != BELIEF_MASK { BestIsBest(hands, node, p, w, j, b, |node.children|); }
      assert u == Masked(best);
      forall i: nat ensures AnswersFor(hands, node, p, w, v, b, i) {
        if i < |hands| && hands[i].vIdx == v { assert i == j; }
      }
      assert Answers(hands, node, p, w, v, b);
    } else {
      forall i: nat ensures AnswersFor(hands, node, p, w, v, a, i) {}
      assert Answers(hands, node, p, w, v, a);
    }
  }

  /** One action out of k. */
  function Pure(k: nat, a: nat): (avg: seq<real>)
    ensures |avg| == k && forall b :: 0 <= b < k ==> avg[b] == if b == a then 1.0 else 0.0
  {
    seq(k, b => if b == a then 1.0 else 0.0)
  }

  ghost predicate IsPure(avg: seq<real>) {
    exists a: nat :: a < |avg| && avg == Pure(|avg|, a)
  }

  lemma PureIsDistribution(k: nat, a: nat)
    requires a < k
    ensures Distribution(Pure(k, a), k)
  {
    SumUpdate(Pure(k, a), a, 0.0);
    SumOfZeros(Pure(k, a)[a := 0.0]);
  }

  // ---------------------------------------------------------------- the whole tree

  /** The tree in which player p gives with every hand its answer, at every node of his. */
  ghost function BestReply(hands: seq<HandAndRank>, node: Node, p: nat, w: seq<real>): (reply: Node)
    requires |w| == |hands|
    ensures reply.Choice? <==> node.Choice?
    decreases node
  {
    match node
    case Terminal(_, _) => node
    case Choice(actor, policy, children) =>
      Choice(actor,
             if actor == p then
               seq(|policy|, v requires 0 <= v => Pure(|children|, Answer(hands, node, p, w, v)))
             else policy,
             seq(|children|, a requires 0 <= a < |children| =>
               BestReply(hands, children[a], p, if actor == p then w else Rollout(hands, node, w, a))))
  }

  /** Wherever player p acts, all hands of an index do the same thing. */
  ghost predicate OneAction(node: Node, p: nat)
    decreases node
  {
    node.Choice? ==>
      && (node.actor == p ==> forall v :: 0 <= v < |node.policy| ==> IsPure(node.policy[v]))
      && forall a :: 0 <= a < |node.children| ==> OneAction(node.children[a], p)
  }

  /** It is a strategy of his on the same tree, of one action for every hand. */
  lemma {:induction false} ReplyIsStrategy(hands: seq<HandAndRank>, node: Node, p: nat, w: seq<real>, n: nat)
    requires |w| == |hands| && Proper(node, n) && OwnIndices(hands, n) && AllAboveWorst(hands, node, p, w)
    ensures var reply := BestReply(hands, node, p, w);
      Proper(reply, n) && Deviates(node, reply, p, n) && OneAction(reply, p)
    decreases node
  {
    if node.Choice? {
      var reply := BestReply(hands, node, p, w);
      if node.actor == p {
        forall v: nat | v < n
          ensures Distribution(reply.policy[v], |node.children|) && Mixes(reply.policy[v], node, v)
          ensures IsPure(reply.policy[v])
        {
          var a := Answer(hands, node, p, w, v);
          AnswerExists(hands, node, p, w, v, n);
          PureIsDistribution(|node.children|, a);
          assert reply.policy[v] == Pure(|reply.policy[v]|, a);
        }
      }
      forall a | 0 <= a < |node.children|
        ensures Proper(reply.children[a], n) && Deviates(node.children[a], reply.children[a], p, n)
        ensures OneAction(reply.children[a], p)
      {
        ReplyIsStrategy(hands, node.children[a], p, if node.actor == p then w else Rollout(hands, node, w, a), n);
      }
    }
  }

  /** What it earns with every hand is what the best response earns. */
  lemma {:induction false} ReplyEarnsTheBest(hands: seq<HandAndRank>, node: Node, p: nat, w: seq<real>, i: nat, n: nat)
    requires i < |hands| == |w| && Proper(node, n) && OwnIndices(hands, n) && AllAboveWorst(hands, node, p, w)
    ensures Walk(hands, Weighted, BestReply(hands, node, p, w), p, w, i) == Walk(hands, BestResponse, node, p, w, i)
    decreases node, 2, 0
  {
    if !AllZero(w) && node.Choice? {
      if node.actor == p {
        AnswerIsTaken(hands, node, p, w, i, n);
      } else {
        SumsAgree(hands, node, p, w, i, n, |node.children|);
      }
    }
  }

  lemma {:induction false} SumsAgree(hands: seq<HandAndRank>, node: Node, p: nat, w: seq<real>, i: nat, n: nat, k: nat)
    requires node.Choice? && node.actor != p && k <= |node.children|
    requires i < |hands| == |w| && Proper(node, n) && OwnIndices(hands, n) && AllAboveWorst(hands, node, p, w)
    ensures WalkSum(hands, Weighted, BestReply(hands, node, p, w), p, w, i, k) ==
      WalkSum(hands, BestResponse, node, p, w, i, k)
    decreases node, 1, k
  {
    hide Proper, AllAboveWorst, OwnIndices, Rollout;
    if k > 0 {
      SumsAgree(hands, node, p, w, i, n, k - 1);
      SameRollout(hands, node, BestReply(hands, node, p, w), w, k - 1);
      ChildOfTheirs(hands, node, p, w, n, k - 1);
      ReplyEarnsTheBest(hands, node.children[k - 1], p, Rollout(hands, node, w, k - 1), i, n);
    }
  }

  lemma ChildOfTheirs(hands: seq<HandAndRank>, node: Node, p: nat, w: seq<real>, n: nat, a: nat)
    requires node.Choice? && node.actor != p && a < |node.children| && |w| == |hands|
    requires Proper(node, n) && AllAboveWorst(hands, node, p, w)
    ensures Proper(node.children[a], n) && AllAboveWorst(hands, node.children[a], p, Rollout(hands, node, w, a))
  {
  }

  lemma {:induction false} AnswerIsTaken(hands: seq<HandAndRank>, node: Node, p: nat, w: seq<real>, i: nat, n: nat)
    requires node.Choice? && node.actor == p
    requires i < |hands| == |w| && Proper(node, n) && OwnIndices(hands, n) && AllAboveWorst(hands, node, p, w)
    ensures WalkSum(hands, Weighted, BestReply(hands, node, p, w), p, w, i, |node.children|) ==
      Masked(BestOf(hands, node, p, w, i, |node.children|))
    decreases node, 1, |node.children|
  {
    var v := hands[i].vIdx;
    var a := Answer(hands, node, p, w, v);
    AnswerExists(hands, node, p, w, v, n);
    assert AnswersFor(hands, node, p, w, v, a, i);
    ReplyEarnsTheBest(hands, node.children[a], p, w, i, n);
    PureSum(hands, BestReply(hands, node, p, w), p, w, i, a, |node.children|);
  }

  /** A node where one action is played is worth that action. */
  lemma {:induction false} PureSum(hands: seq<HandAndRank>, node: Node, p: nat, w: seq<real>, i: nat, a: nat, k: nat)
    requires node.Choice? && node.actor == p && i < |hands| == |w| && a < |node.children| && k <= |node.children|
    requires hands[i].vIdx < |node.policy| && node.policy[hands[i].vIdx] == Pure(|node.children|, a)
    ensures WalkSum(hands, Weighted, node, p, w, i, k) ==
      if a < k then Walk(hands, Weighted, node.children[a], p, w, i) else 0.0
  {
    if k > 0 { PureSum(hands, node, p, w, i, a, k - 1); }
  }

  // ---------------------------------------------------------------- the maximum over strategies

  /** With every hand the other tree's strategy earns what the best response earns. */
  ghost predicate Reaches(hands: seq<HandAndRank>, node: Node, other: Node, p: nat, w: seq<real>)
    requires |w| == |hands|
  {
    forall i :: 0 <= i < |hands| ==>
      Walk(hands, Weighted, other, p, w, i) == Walk(hands, BestResponse, node, p, w, i)
  }

  /**
    The best response gives every hand what the best of player p's strategies gives it: none that plays the same actions
    earns more, and one that plays a single action with every hand earns as much, with all hands at once.
   */
  lemma BestResponseIsTheMaximum(hands: seq<HandAndRank>, node: Node, p: nat, w: seq<real>, n: nat)
    requires |w| == |hands| && Range(w) && Proper(node, n) && OwnIndices(hands, n) && MaskFree(hands, node, p, w)
    ensures forall other: Node, i :: Deviates(node, other, p, n) && 0 <= i < |hands| ==>
      Walk(hands, Weighted, other, p, w, i) <= Walk(hands, BestResponse, node, p, w, i)
    ensures exists other: Node ::
      Deviates(node, other, p, n) && OneAction(other, p) && Reaches(hands, node, other, p, w)
  {
    forall other: Node, i | Deviates(node, other, p, n) && 0 <= i < |hands|
      ensures Walk(hands, Weighted, other, p, w, i) <= Walk(hands, BestResponse, node, p, w, i)
    {
      BestResponseBeatsAll(hands, node, other, p, w, i, n);
    }
    MaskFreeIsAbove(hands, node, p, w);
    ReplyIsStrategy(hands, node, p, w, n);
    forall i | 0 <= i < |hands|
      ensures Walk(hands, Weighted, BestReply(hands, node, p, w), p, w, i) == Walk(hands, BestResponse, node, p, w, i)
    {
      ReplyEarnsTheBest(hands, node, p, w, i, n);
    }
    assert Reaches(hands, node, BestReply(hands, node, p, w), p, w);
  }

  /** Whether or not anything is passed over, the best response is the reply's expected payoff, hand against hand. */
  lemma BestResponseIsPayoff(hands: seq<HandAndRank>, node: Node, p: nat, w: seq<real>, i: nat, n: nat)
    requires i < |hands| == |w| && Range(w) && Proper(node, n) && OwnIndices(hands, n)
    requires AllAboveWorst(hands, node, p, w)
    ensures Walk(hands, BestResponse, node, p, w, i) ==
      Dot(w, PairValues(hands, BestReply(hands, node, p, w), p, i))
  {
    ReplyEarnsTheBest(hands, node, p, w, i, n);
    ReplyIsStrategy(hands, node, p, w, n);
    WalkIsExpectedPayoff(hands, BestReply(hands, node, p, w), p, w, i, n);
  }

  /** So with any range of his own, player p earns against w what his best strategy earns. */
  lemma BestEarnings(hands: seq<HandAndRank>, node: Node, p: nat, x: seq<real>, w: seq<real>, n: nat)
    requires |x| == |w| == |hands| && Range(x) && Range(w) && Proper(node, n) && OwnIndices(hands, n)
    requires MaskFree(hands, node, p, w)
    ensures forall other: Node :: Deviates(node, other, p, n) ==>
      Earned(hands, Weighted, other, p, x, w) <= Earned(hands, BestResponse, node, p, x, w)
    ensures Earned(hands, Weighted, BestReply(hands, node, p, w), p, x, w) == Earned(hands, BestResponse, node, p, x, w)
  {
    BestResponseIsTheMaximum(hands, node, p, w, n);
    forall other: Node | Deviates(node, other, p, n)
      ensures Earned(hands, Weighted, other, p, x, w) <= Earned(hands, BestResponse, node, p, x, w)
    {
      DotMono(x, WalkAll(hands, Weighted, other, p, w), WalkAll(hands, BestResponse, node, p, w));
    }
    MaskFreeIsAbove(hands, node, p, w);
    forall i | 0 <= i < |hands|
      ensures Walk(hands, Weighted, BestReply(hands, node, p, w), p, w, i) == Walk(hands, BestResponse, node, p, w, i)
    {
      ReplyEarnsTheBest(hands, node, p, w, i, n);
    }
    assert WalkAll(hands, Weighted, BestReply(hands, node, p, w), p, w) == WalkAll(hands, BestResponse, node, p, w);
  }
}
