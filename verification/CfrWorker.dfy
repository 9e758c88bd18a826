/**
  VectorCfrWorker of modules/engine/src/cfr_worker.cpp, alternate walk: belief arrays over all hands of
  the deck go down the tree, counterfactual values come up.  The recursion over the arrays is
  proved to compute Walk of module WalkValues, and Solve what the two players earn.
 */
module CfrWorker {
  import opened RankSlots
  import opened Sums
  import opened WalkValues
  import opened Beliefs
  import opened BestReplies
  import Cards
  import FoldSums
  import TermEval

  const REGRET_SCALER: real := 1000.0

  class VectorCfrWorker {
    const kernel: TermEval.TermEvalKernel
    const size: nat              // FULL_HAND_BELIEF_SIZE
    const validIndex: seq<nat>   // valid_index_ of the hand kernel
    const mode: Mode

    ghost predicate IsHand(v: nat) {
      exists j :: 0 <= j < |kernel.hands| && kernel.hands[j].vIdx == v
    }

    /** The kernel lists every hand that avoids the board, at its index. */
    ghost predicate Complete() {
      && (forall j :: 0 <= j < |kernel.hands| ==>
            kernel.hands[j].vIdx == Cards.ToVectorIndex(kernel.hands[j].high, kernel.hands[j].low))
      && forall v: nat :: v < size ==> (IsHand(v) <==> Avoids(v, kernel.board))
    }

    /** Sealed: ReadyAt(0) opens it. */
    ghost predicate Ready()
      reads kernel.firstEqual, kernel.firstLosing
    {
      forall k: nat :: ReadyAt(k)
    }

    ghost predicate ReadyAt(k: nat)
      reads kernel.firstEqual, kernel.firstLosing
    {
      && kernel.Valid() && size == Cards.Pairs(kernel.numCards) && Complete() && AllValid()
    }

    ghost predicate AllValid() {
      && (forall v: nat :: v < size ==> (v in validIndex <==> IsHand(v)))
      && (forall k :: 0 <= k < |validIndex| ==> validIndex[k] < size)
      && Distinct(validIndex)
    }

    constructor (kernel: TermEval.TermEvalKernel, mode: Mode)
      requires kernel.Valid()
      requires forall j :: 0 <= j < |kernel.hands| ==>
        kernel.hands[j].vIdx == Cards.ToVectorIndex(kernel.hands[j].high, kernel.hands[j].low)
      requires forall v: nat :: v < Cards.Pairs(kernel.numCards) ==>
        (Avoids(v, kernel.board) <==> exists j :: 0 <= j < |kernel.hands| && kernel.hands[j].vIdx == v)
      ensures Ready() && this.kernel == kernel && this.mode == mode
    {
      this.kernel, this.mode, this.size := kernel, mode, Cards.Pairs(kernel.numCards);
      var valid := ValidIndex(Cards.Pairs(kernel.numCards), kernel.board);
      validIndex := valid;
      new;
      assert AllValid() by { InList(valid); }
      forall k: nat ensures ReadyAt(k) {}
    }

    lemma InList(valid: seq<nat>)
      requires valid == validIndex && Distinct(valid) && Complete()
      requires forall v: nat :: v in valid <==> v < size && Avoids(v, kernel.board)
      ensures AllValid()
    {
      forall k | 0 <= k < |valid| ensures valid[k] < size { assert valid[k] in valid; }
    }

    /** What the lists of hands and of valid indices say, unsealed. */
    lemma Lists()
      requires Ready()
      ensures forall j :: 0 <= j < |kernel.hands| ==>
        kernel.hands[j].vIdx < size && kernel.hands[j].vIdx in validIndex && IsHand(kernel.hands[j].vIdx)
      ensures forall k :: 0 <= k < |validIndex| ==> validIndex[k] < size && IsHand(validIndex[k])
    {
      assert ReadyAt(0);
      forall j: nat | j < |kernel.hands|
        ensures kernel.hands[j].vIdx < size && kernel.hands[j].vIdx in validIndex && IsHand(kernel.hands[j].vIdx)
      {
        IndexInRange(j);
        assert IsHand(kernel.hands[j].vIdx);
      }
      forall k | 0 <= k < |validIndex| ensures validIndex[k] < size && IsHand(validIndex[k]) {
        assert validIndex[k] in validIndex;
      }
    }

    lemma IndexInRange(j: nat)
      requires kernel.Fits() && Complete() && size == Cards.Pairs(kernel.numCards) && j < |kernel.hands|
      ensures kernel.hands[j].vIdx < size
    {
      var h := kernel.hands[j];
      Cards.IndexRoundTrip(h.high, h.low);
      var high, low := Cards.IndexOfPair(h.vIdx);
    }

    // -------------------------------------------------------------- beliefs

    /** A belief in the order of the kernel's hands. */
    ghost function InOrder(o: seq<real>): (w: seq<real>)
      ensures |w| == |kernel.hands|
      ensures forall j :: 0 <= j < |w| ==> w[j] == At(o, kernel.hands[j].vIdx)
    {
      seq(|kernel.hands|, j requires 0 <= j < |kernel.hands| => At(o, kernel.hands[j].vIdx))
    }

    /** A range to play against: no weight below zero, none above zero on a hand that meets the board. */
    ghost predicate Playable(o: seq<real>) {
      && |o| == size && Range(InOrder(o))
      && forall v: nat :: v < size && !IsHand(v) ==> o[v] <= 0.0
    }

    /** c holds what every hand earns at node against the range o, and zero for hands that meet the board. */
    ghost predicate IsWalk(node: Node, p: nat, o: seq<real>, c: seq<real>) {
      && |c| == size
      && (forall j :: 0 <= j < |kernel.hands| ==>
            At(c, kernel.hands[j].vIdx) == Walk(kernel.hands, mode, node, p, InOrder(o), j))
      && forall v: nat :: v < size && !IsHand(v) ==> c[v] == 0.0
    }

    // -------------------------------------------------------------- terminal nodes

    /** FastTerminalEval on a range of zeros. */
    method EvalTerminal(node: Node, p: nat, opp: array<real>) returns (cfu: array<real>)
      requires Ready() && node.Terminal? && Playable(opp[..]) && !AllZero(InOrder(opp[..]))
      ensures fresh(cfu) && IsWalk(node, p, opp[..], cfu[..])
    {
      cfu := new real[size](_ => 0.0);
      if node.folder == Nobody {
        EvalShowdown(node, p, opp, cfu);
      } else {
        EvalFold(node, p, opp, cfu);
      }
    }

    method EvalShowdown(node: Node, p: nat, opp: array<real>, cfu: array<real>)
      requires Ready() && node.Terminal? && node.folder == Nobody && Playable(opp[..]) && !AllZero(InOrder(opp[..]))
      requires cfu != opp && Zeros(cfu[..])
      modifies cfu
      ensures IsWalk(node, p, opp[..], cfu[..])
    {
      KernelReady(opp, cfu);
      ghost var w, live, zeros := InOrder(opp[..]), kernel.Live(cfu), cfu[..];
      assert kernel.Weights(opp) == w;
      kernel.FastShowdownEval(opp, cfu, node.Stake(p));
      ShowdownIsWalk(node, p, opp[..], zeros, live, cfu[..]);
    }

    method EvalFold(node: Node, p: nat, opp: array<real>, cfu: array<real>)
      requires Ready() && node.Terminal? && node.folder != Nobody && Playable(opp[..]) && !AllZero(InOrder(opp[..]))
      requires cfu != opp && Zeros(cfu[..])
      modifies cfu
      ensures IsWalk(node, p, opp[..], cfu[..])
    {
      ghost var zeros := cfu[..];
      KernelReady(opp, cfu);
      kernel.FastFoldEval(opp, cfu, node.Stake(p));
      FoldIsWalk(node, p, opp[..], zeros, cfu[..]);
    }

    lemma KernelReady(opp: array<real>, cfu: array<real>)
      requires Ready() && opp.Length == size == cfu.Length && cfu != opp
      ensures kernel.Valid() && kernel.Indexed(opp, cfu)
    {
      assert ReadyAt(0);
      Lists();
    }

    ghost predicate Zeros(z: seq<real>) {
      |z| == size && forall v :: 0 <= v < size ==> z[v] == 0.0
    }

    lemma ShowdownIsWalk(node: Node, p: nat, o: seq<real>, zeros: seq<real>, live: seq<bool>, c: seq<real>)
      requires Ready() && node.Terminal? && node.folder == Nobody && Playable(o) && !AllZero(InOrder(o))
      requires Zeros(zeros)
      requires |live| == |kernel.hands| && forall j :: 0 <= j < |live| ==> live[j]
      requires forall j :: 0 <= j < |kernel.hands| ==> kernel.hands[j].vIdx < size
      requires c == kernel.Evaluated(|kernel.hands|, zeros, kernel.FastValues(InOrder(o), live), node.Stake(p))
      ensures IsWalk(node, p, o, c)
    {
      assert ReadyAt(0);
      var w := InOrder(o);
      kernel.UnmaskedEvalsAgree(w, zeros, live, node.Stake(p));
      EvaluatedIsWalk(node, p, o, zeros, kernel.ShowdownValues(w), c);
    }

    lemma EvaluatedIsWalk(node: Node, p: nat, o: seq<real>, zeros: seq<real>, value: seq<real>, c: seq<real>)
      requires kernel.Fits() && node.Terminal? && |o| == size && !AllZero(InOrder(o))
      requires Zeros(zeros)
      requires forall j :: 0 <= j < |kernel.hands| ==> kernel.hands[j].vIdx < size
      requires |value| == |kernel.hands|
      requires forall j :: 0 <= j < |kernel.hands| ==>
        value[j] == if node.folder == Nobody then Showdown(kernel.hands, InOrder(o), j, |kernel.hands|)
                    else NoClash(kernel.hands, InOrder(o), j, |kernel.hands|)
      requires c == kernel.Evaluated(|kernel.hands|, zeros, value, node.Stake(p))
      ensures IsWalk(node, p, o, c)
    {
      hide Showdown, NoClash, AllZero, Prepared, Slots;
      kernel.EvaluatedMeans(|kernel.hands|, zeros, value, node.Stake(p));
      forall j | 0 <= j < |kernel.hands|
        ensures At(c, kernel.hands[j].vIdx) == Walk(kernel.hands, mode, node, p, InOrder(o), j)
      {
        PayIsProduct(kernel, value[j], node.Stake(p));
      }
    }

    lemma FoldIsWalk(node: Node, p: nat, o: seq<real>, zeros: seq<real>, c: seq<real>)
      requires Ready() && node.Terminal? && node.folder != Nobody && Playable(o) && !AllZero(InOrder(o))
      requires Zeros(zeros)
      requires forall j :: 0 <= j < |kernel.hands| ==> kernel.hands[j].vIdx < size
      requires c == kernel.Evaluated(|kernel.hands|, zeros, kernel.FoldValues(o), node.Stake(p))
      ensures IsWalk(node, p, o, c)
    {
      assert ReadyAt(0);
      forall j | 0 <= j < |kernel.hands|
        ensures FoldSums.FastFold(o, kernel.hands[j].vIdx) == NoClash(kernel.hands, InOrder(o), j, |kernel.hands|)
      {
        assert InOrder(o)[j] == o[kernel.hands[j].vIdx] >= 0.0;
        FoldSums.FoldEvalsAgree(o, kernel.hands[j].vIdx);
        FoldIsNoClash(o, j);
      }
      EvaluatedIsWalk(node, p, o, zeros, kernel.FoldValues(o), c);
    }

    /** The fold sum over all indices is the one over the kernel's hands. */
    lemma FoldIsNoClash(o: seq<real>, i: nat)
      requires kernel.Fits() && Complete() && Playable(o) && i < |kernel.hands|
      requires forall j :: 0 <= j < |kernel.hands| ==> kernel.hands[j].vIdx < size
      ensures FoldSums.FoldSum(o, kernel.hands[i].vIdx, size) == NoClash(kernel.hands, InOrder(o), i, |kernel.hands|)
    {
      hide Slots, Sum, Cards.VectorIdxClash, Duel;
      var hands := kernel.hands;
      var terms, idx := FoldTerms(o, hands[i].vIdx), Indices(hands);
      FoldIsSum(o, hands[i].vIdx, terms, size);
      assert terms[..size] == terms;
      SumOfPicked(terms, idx);
      forall j | 0 <= j < |hands| ensures Picked(terms, idx)[j] == NoClashTerm(hands, InOrder(o), i, j) {
        SameTerm(hands[i], hands[j], o);
      }
      NoClashIsSum(hands, InOrder(o), i, Picked(terms, idx), |hands|);
      assert Picked(terms, idx)[..|hands|] == Picked(terms, idx);
    }

    // -------------------------------------------------------------- choice nodes

    /** RangeRollout: the opponent's range after each action, in the copies of the range. */
    method RangeRollout(node: Node, range: array<real>, reach: seq<array<real>>)
      requires Ready() && node.Choice? && range.Length == size && |reach| == |node.children|
      requires forall a :: 0 <= a < |reach| ==> reach[a] != range && reach[a][..] == range[..]
      requires forall a, b :: 0 <= a < b < |reach| ==> reach[a] != reach[b]
      modifies set x | x in reach
      ensures range[..] == old(range[..])
      ensures forall a :: 0 <= a < |reach| ==> reach[a][..] == Rolled(node, range[..], a, validIndex, |validIndex|)
    {
      assert ReadyAt(0);
      for k := 0 to |validIndex|
        invariant range[..] == old(range[..])
        invariant forall a :: 0 <= a < |reach| ==> reach[a][..] == Rolled(node, range[..], a, validIndex, k)
      {
        var i := validIndex[k];
        RolledKeeps(node, range[..], validIndex, k);
        if IsPruned(range[i]) || range[i] == 0.0 {
          SkipKeeps(node, range[..], validIndex, k);
          continue;
        }
        RollHand(node, i, range, reach);
      }
    }

    /** Every action's range for one hand. */
    method RollHand(node: Node, i: nat, range: array<real>, reach: seq<array<real>>)
      requires node.Choice? && i < size == range.Length && |reach| == |node.children|
      requires !IsPruned(range[i]) && range[i] != 0.0
      requires forall a :: 0 <= a < |reach| ==> reach[a] != range && reach[a].Length == size && reach[a][i] == range[i]
      requires forall a, b :: 0 <= a < b < |reach| ==> reach[a] != reach[b]
      modifies set x | x in reach
      ensures range[..] == old(range[..])
      ensures forall a :: 0 <= a < |reach| ==>
        reach[a][..] == old(reach[a][..])[i := Roll(range[i], Prob(node, i, a))]
    {
      for a := 0 to |reach|
        invariant range[..] == old(range[..])
        invariant forall b :: 0 <= b < a ==> reach[b][..] == old(reach[b][..])[i := Roll(range[i], Prob(node, i, b))]
        invariant forall b :: a <= b < |reach| ==> reach[b][..] == old(reach[b][..])
      {
        var prob := Prob(node, i, a);
        assert reach[a][..][i] == range[i];
        var x := if prob < PRUNE_THRESHOLD then 0.0 else reach[a][i] * prob;
        assert x == Roll(range[i], prob);
        Put(reach[a], i, x);
        assert reach[a][..] == old(reach[a][..])[i := Roll(range[i], Prob(node, i, a))];
      }
    }

    static method Put(x: array<real>, i: nat, v: real)
      requires i < x.Length
      modifies x
      ensures x[..] == old(x[..])[i := v]
    {
      x[i] := v;
    }

    /** The ranges the children are walked with: o itself at my own node, else o rolled out. */
    ghost predicate Reach(node: Node, p: nat, o: seq<real>, a: nat, o': seq<real>)
      requires node.Choice?
    {
      o' == if node.actor == p then o else Rolled(node, o, a, validIndex, |validIndex|)
    }

    /** The children's ranges keep playable, and in the order of the hands they are Rollout's. */
    lemma ReachMeans(node: Node, p: nat, o: seq<real>, a: nat, o': seq<real>)
      requires Ready() && Playable(o)
      requires node.Choice? && Proper(node, size) && a < |node.children| && Reach(node, p, o, a, o')
      ensures Playable(o')
      ensures InOrder(o') == if node.actor == p then InOrder(o) else Rollout(kernel.hands, node, InOrder(o), a)
    {
      if node.actor != p {
        assert ReadyAt(0);
        Lists();
        var w, w' := Rollout(kernel.hands, node, InOrder(o), a), InOrder(o');
        RolledMeans(node, o, a, validIndex, |validIndex|);
        forall j | 0 <= j < |kernel.hands| ensures w'[j] == w[j] { assert IsHand(kernel.hands[j].vIdx); }
        TheirRange(kernel.hands, node, InOrder(o), size, a);
      }
    }

    /** WalkTree_Alternate. */
    method WalkTree(node: Node, p: nat, opp: array<real>) returns (cfu: array<real>)
      requires Ready() && Playable(opp[..]) && Proper(node, size)
      ensures fresh(cfu) && IsWalk(node, p, opp[..], cfu[..])
      decreases node, 3, 0
    {
      var zero := IsAllZero(opp);
      Lists();
      SameZero(opp[..]);
      if zero {
        cfu := new real[size](_ => 0.0);
        return;
      }
      if node.Terminal? {
        cfu := EvalTerminal(node, p, opp);
      } else {
        cfu := EvalChoiceNode(node, p, opp);
      }
    }

    static method IsAllZero(x: array<real>) returns (zero: bool)
      ensures zero <==> AllZero(x[..])
    {
      for i := 0 to x.Length
        invariant forall j :: 0 <= j < i ==> x[j] <= 0.0
      {
        if x[i] > 0.0 {
          assert x[..][i] > 0.0;
          return false;
        }
      }
      zero := true;
    }

    lemma SameZero(o: seq<real>)
      requires Playable(o) && forall j :: 0 <= j < |kernel.hands| ==> kernel.hands[j].vIdx < size
      ensures AllZero(o) <==> AllZero(InOrder(o))
    {
      if AllZero(InOrder(o)) {
        forall v: nat | v < size ensures o[v] <= 0.0 {
          if IsHand(v) {
            var j :| 0 <= j < |kernel.hands| && kernel.hands[j].vIdx == v;
            assert InOrder(o)[j] <= 0.0;
          }
        }
      } else {
        var j :| 0 <= j < |kernel.hands| && InOrder(o)[j] > 0.0;
        assert o[kernel.hands[j].vIdx] > 0.0;
      }
    }

    /** EvalChoiceNode_Alternate: roll out, walk the children, combine. */
    method EvalChoiceNode(node: Node, p: nat, opp: array<real>) returns (cfu: array<real>)
      requires Ready() && Playable(opp[..]) && Proper(node, size) && node.Choice? && !AllZero(InOrder(opp[..]))
      ensures fresh(cfu) && IsWalk(node, p, opp[..], cfu[..])
      decreases node, 2, 0
    {
      var reach := ChildRanges(node, p, opp);
      var childCfu := WalkChildren(node, p, opp, reach);
      cfu := ComputeCfu(node, p, opp, childCfu);
    }

    method ChildRanges(node: Node, p: nat, opp: array<real>) returns (reach: seq<array<real>>)
      requires Ready() && node.Choice? && opp.Length == size
      ensures |reach| == |node.children|
      ensures forall a :: 0 <= a < |reach| ==> Reach(node, p, opp[..], a, reach[a][..])
    {
      reach := [];
      if node.actor == p {
        reach := seq(|node.children|, _ => opp);
      } else {
        for a := 0 to |node.children|
          invariant |reach| == a
          invariant forall b :: 0 <= b < a ==> fresh(reach[b]) && reach[b][..] == opp[..]
          invariant forall b, c :: 0 <= b < c < a ==> reach[b] != reach[c]
        {
          var copy := Copy(opp);
          reach := reach + [copy];
        }
        RangeRollout(node, opp, reach);
      }
    }

    static method Copy(x: array<real>) returns (y: array<real>)
      ensures fresh(y) && y[..] == x[..]
    {
      y := new real[x.Length];
      for i := 0 to x.Length
        invariant y[..i] == x[..i]
        modifies y
      {
        y[i] := x[i];
      }
    }

    /** c[a] is the walk of child a against its range. */
    ghost predicate ChildWalk(node: Node, p: nat, o: seq<real>, a: nat, c: seq<real>)
      requires node.Choice?
    {
      && a < |node.children| && |c| == size
      && forall j :: 0 <= j < |kernel.hands| ==>
           At(c, kernel.hands[j].vIdx) ==
           Walk(kernel.hands, mode, node.children[a], p,
                if node.actor == p then InOrder(o) else Rollout(kernel.hands, node, InOrder(o), a), j)
    }

    method WalkChildren(node: Node, p: nat, opp: array<real>, reach: seq<array<real>>) returns (cfu: seq<array<real>>)
      requires Ready() && Playable(opp[..]) && Proper(node, size) && node.Choice? && |reach| == |node.children|
      requires forall a :: 0 <= a < |reach| ==> Reach(node, p, opp[..], a, reach[a][..])
      ensures |cfu| == |node.children|
      ensures forall a :: 0 <= a < |cfu| ==> ChildWalk(node, p, opp[..], a, cfu[a][..])
      decreases node, 1, 0
    {
      cfu := [];
      hide ChildWalk, Reach, Proper, Playable;
      for a := 0 to |node.children|
        invariant |cfu| == a
        invariant forall b :: 0 <= b < a ==> ChildWalk(node, p, opp[..], b, cfu[b][..])
      {
        var c := WalkChild(node, p, opp, a, reach[a]);
        cfu := cfu + [c];
      }
    }

    method WalkChild(node: Node, p: nat, opp: array<real>, a: nat, reach: array<real>) returns (c: array<real>)
      requires Ready() && Playable(opp[..]) && Proper(node, size) && node.Choice? && a < |node.children|
      requires Reach(node, p, opp[..], a, reach[..])
      ensures fresh(c) && ChildWalk(node, p, opp[..], a, c[..])
      decreases node, 0, 0
    {
      ReachMeans(node, p, opp[..], a, reach[..]);
      c := WalkTree(node.children[a], p, reach);
    }

    // -------------------------------------------------------------- combining the actions

    /** ComputeCfu: weighted or best at my own node, summed at the opponent's. */
    method ComputeCfu(node: Node, p: nat, opp: array<real>, childCfu: seq<array<real>>) returns (cfu: array<real>)
      requires Ready() && Playable(opp[..]) && Proper(node, size) && node.Choice? && !AllZero(InOrder(opp[..]))
      requires |childCfu| == |node.children|
      requires forall a :: 0 <= a < |childCfu| ==> ChildWalk(node, p, opp[..], a, childCfu[a][..])
      ensures fresh(cfu) && IsWalk(node, p, opp[..], cfu[..])
    {
      cfu := new real[size](_ => 0.0);
      Lists();
      ghost var target := Combined(node, p, opp[..]);
      for k := 0 to |validIndex|
        invariant forall v: nat :: v < size ==> cfu[v] == if v in validIndex[..k] then target[v] else 0.0
        modifies cfu
      {
        var i := validIndex[k];
        var value := CombineHand(node, p, opp, childCfu, i, Position(i));
        cfu[i] := value;
        assert validIndex[..k + 1] == validIndex[..k] + [i];
      }
      assert validIndex[..|validIndex|] == validIndex;
      CombinedIsWalk(node, p, opp[..], cfu[..]);
    }

    /** What every hand earns, index by index. */
    ghost function Combined(node: Node, p: nat, o: seq<real>): (c: seq<real>)
      ensures |c| == size
      ensures forall v: nat :: v < size ==>
        c[v] == if IsHand(v) then Walk(kernel.hands, mode, node, p, InOrder(o), Position(v)) else 0.0
    {
      seq(size, v requires 0 <= v => if IsHand(v) then Walk(kernel.hands, mode, node, p, InOrder(o), Position(v))
        else 0.0)
    }

    lemma CombinedIsWalk(node: Node, p: nat, o: seq<real>, c: seq<real>)
      requires Ready() && |c| == size
      requires forall v: nat :: v < size ==> c[v] == if v in validIndex then Combined(node, p, o)[v] else 0.0
      ensures IsWalk(node, p, o, c)
    {
      assert ReadyAt(0);
      Lists();
      forall j: nat | j < |kernel.hands|
        ensures c[kernel.hands[j].vIdx] == Walk(kernel.hands, mode, node, p, InOrder(o), j)
      {
        PositionUnique(j);
      }
    }

    /** The position of a hand among the kernel's. */
    ghost function Position(v: nat): (j: nat)
      requires IsHand(v)
      ensures j < |kernel.hands| && kernel.hands[j].vIdx == v
    {
      var j :| 0 <= j < |kernel.hands| && kernel.hands[j].vIdx == v; j
    }

    lemma PositionUnique(j: nat)
      requires Ready() && j < |kernel.hands|
      ensures IsHand(kernel.hands[j].vIdx) && Position(kernel.hands[j].vIdx) == j
    {
      assert ReadyAt(0);
      assert IsHand(kernel.hands[j].vIdx);
    }

    method CombineHand(node: Node, p: nat, opp: array<real>, childCfu: seq<array<real>>, i: nat, ghost j: nat)
      returns (value: real)
      requires Ready() && Playable(opp[..]) && Proper(node, size) && node.Choice? && !AllZero(InOrder(opp[..]))
      requires |childCfu| == |node.children| && i < size
      requires forall a :: 0 <= a < |childCfu| ==> ChildWalk(node, p, opp[..], a, childCfu[a][..])
      requires j < |kernel.hands| && kernel.hands[j].vIdx == i
      ensures value == Walk(kernel.hands, mode, node, p, InOrder(opp[..]), j)
    {
      ghost var w := InOrder(opp[..]);
      if node.actor == p {
        match mode {
          case Weighted => value := WeightedResponse(node, p, childCfu, i, j, w);
          case BestResponse => value := BestOfActions(node, p, childCfu, i, j, w);
        }
      } else {
        value := SumResponse(node, p, childCfu, i, j, w);
      }
    }

    /** The actions' values for the hand at i are the walks of the children. */
    ghost predicate Utils(node: Node, p: nat, childCfu: seq<array<real>>, i: nat, j: nat, w: seq<real>)
      requires node.Choice?
      reads set x | x in childCfu
    {
      && |childCfu| == |node.children| && j < |kernel.hands| == |w| && kernel.hands[j].vIdx == i
      && (forall a :: 0 <= a < |childCfu| ==> i < childCfu[a].Length)
      && forall a :: 0 <= a < |childCfu| ==>
           childCfu[a][i] == Walk(kernel.hands, mode, node.children[a], p,
                                  if node.actor == p then w else Rollout(kernel.hands, node, w, a), j)
    }

    method WeightedResponse(node: Node, p: nat, childCfu: seq<array<real>>, i: nat, ghost j: nat, ghost w: seq<real>)
      returns (value: real)
      requires node.Choice? && node.actor == p && mode.Weighted? && Utils(node, p, childCfu, i, j, w)
      ensures value == WalkSum(kernel.hands, mode, node, p, w, j, |node.children|)
    {
      value := 0.0;
      for a := 0 to |node.children|
        invariant value == WalkSum(kernel.hands, mode, node, p, w, j, a)
      {
        var weight := Prob(node, i, a);
        if weight > 0.0 {
          value := value + childCfu[a][i] * weight;
        }
      }
    }

    method SumResponse(node: Node, p: nat, childCfu: seq<array<real>>, i: nat, ghost j: nat, ghost w: seq<real>)
      returns (value: real)
      requires node.Choice? && node.actor != p && Utils(node, p, childCfu, i, j, w)
      ensures value == WalkSum(kernel.hands, mode, node, p, w, j, |node.children|)
    {
      value := 0.0;
      for a := 0 to |node.children|
        invariant value == WalkSum(kernel.hands, mode, node, p, w, j, a)
      {
        value := value + childCfu[a][i];
      }
    }

    method BestOfActions(node: Node, p: nat, childCfu: seq<array<real>>, i: nat, ghost j: nat, ghost w: seq<real>)
      returns (value: real)
      requires node.Choice? && node.actor == p && mode.BestResponse? && Utils(node, p, childCfu, i, j, w)
      ensures value == Masked(BestOf(kernel.hands, node, p, w, j, |node.children|))
    {
      value := WORST;
      for a := 0 to |node.children|
        invariant value == BestOf(kernel.hands, node, p, w, j, a)
      {
        if Prob(node, i, a) > 0.0 {
          var util := childCfu[a][i];
          if util != BELIEF_MASK && util > value {
            value := util;
          }
        }
      }
      if -0.001 < value - WORST < 0.001 {
        value := BELIEF_MASK;
      }
    }

    // -------------------------------------------------------------- solving

    /** Both players' walks against the other's range, weighted with their own range, in big blinds over two players. */
    method Solve(root: Node, root0: array<real>, root1: array<real>, bigBlind: int) returns (avg: real)
      requires Ready() && Proper(root, size) && bigBlind > 0
      requires root0.Length == size == root1.Length && Range(root0[..]) && Range(root1[..])
      ensures var first, second := Local(root0[..]), Local(root1[..]);
        avg == (Solved(root, 0, first, second) + Solved(root, 1, second, first)) / (2 * bigBlind) as real
    {
      var local0 := Copy(root0);
      var local1 := Copy(root1);
      NormalizeExcludeBoard(local0, kernel.board);
      NormalizeExcludeBoard(local1, kernel.board);
      var sum0 := SolveSide(root, 0, local0, local1, root0[..], root1[..]);
      var sum1 := SolveSide(root, 1, local1, local0, root1[..], root0[..]);
      var cfuSum := 0.0 + sum0;
      cfuSum := cfuSum + sum1;
      avg := cfuSum / (2 * bigBlind) as real;
    }

    method SolveSide(root: Node, p: nat, mine: array<real>, theirs: array<real>, ghost o: seq<real>,
                     ghost o': seq<real>)
      returns (sum: real)
      requires Ready() && Proper(root, size) && |o| == |o'| == size && Range(o) && Range(o')
      requires mine[..] == Local(o) && theirs[..] == Local(o')
      ensures sum == Solved(root, p, Local(o), Local(o'))
    {
      var opp := Copy(theirs);
      Scale(opp, REGRET_SCALER);
      LocalIsPlayable(o');
      var cfu := WalkTree(root, p, opp);
      WalkIsCombined(root, p, opp[..], cfu[..]);
      DotMultiply(cfu, mine);
      sum := BeliefSum(cfu);
    }

    /** local_root_belief. */
    ghost function Local(o: seq<real>): (l: seq<real>)
      ensures |l| == |o|
    {
      Normalized(Excluded(o, kernel.board))
    }

    /** What Solve adds up for player p with range x against range y. */
    ghost function Solved(root: Node, p: nat, x: seq<real>, y: seq<real>): real
      requires |x| == size
    {
      Sum(Unmasked(Multiplied(Combined(root, p, Scaled(y, REGRET_SCALER)), x)))
    }

    lemma LocalMeans(o: seq<real>)
      requires Ready() && |o| == size && Range(o)
      ensures Range(InOrder(Local(o))) && forall v: nat :: v < size && !IsHand(v) ==> Local(o)[v] == BELIEF_MASK
      ensures forall j :: 0 <= j < |kernel.hands| ==>
        InOrder(Scaled(Local(o), REGRET_SCALER))[j] == REGRET_SCALER * InOrder(Local(o))[j]
    {
      assert ReadyAt(0);
      Lists();
      NormalizedIsRange(o, kernel.board);
      forall j | 0 <= j < |kernel.hands| ensures InOrder(Local(o))[j] >= 0.0 {
        assert IsHand(kernel.hands[j].vIdx);
      }
    }

    lemma LocalIsPlayable(o: seq<real>)
      requires Ready() && |o| == size && Range(o)
      ensures Playable(Scaled(Local(o), REGRET_SCALER))
    {
      LocalMeans(o);
    }

    lemma WalkIsCombined(node: Node, p: nat, o: seq<real>, c: seq<real>)
      requires IsWalk(node, p, o, c)
      ensures c == Combined(node, p, o)
    {
    }

    /** What every hand earns player p against the range y, as the walk is called by Solve. */
    ghost function Values(root: Node, p: nat, y: seq<real>): (u: seq<real>)
      ensures |u| == |kernel.hands|
    {
      WalkAll(kernel.hands, mode, root, p, InOrder(Scaled(y, REGRET_SCALER)))
    }

    /** Solve adds up what the player earns, less what is mistaken for masks. */
    lemma SolvedIsEarned(root: Node, p: nat, o: seq<real>, o': seq<real>)
      requires Ready() && |o| == |o'| == size && Range(o) && Range(o')
      ensures var x, y := Local(o), Local(o');
        Solved(root, p, x, y) + Sum(Lost(InOrder(x), Values(root, p, y))) == Dot(InOrder(x), Values(root, p, y))
    {
      var x, y := Local(o), Local(o');
      var c, idx := Combined(root, p, Scaled(y, REGRET_SCALER)), Indices(kernel.hands);
      LocalMeans(o);
      CombinedInOrder(root, p, Scaled(y, REGRET_SCALER));
      IndicesAreHands();
      SharesAddUp(c, x, idx, InOrder(x), Values(root, p, y));
    }

    lemma IndicesAreHands()
      requires Ready()
      ensures Distinct(Indices(kernel.hands)) && forall j :: 0 <= j < |kernel.hands| ==> kernel.hands[j].vIdx < size
      ensures forall v: nat :: v < size && v !in Indices(kernel.hands) ==> !IsHand(v)
    {
      assert ReadyAt(0);
      Lists();
      forall v: nat | IsHand(v) ensures v in Indices(kernel.hands) {
        assert Indices(kernel.hands)[Position(v)] == v;
      }
    }

    lemma CombinedInOrder(root: Node, p: nat, o: seq<real>)
      requires Ready()
      ensures forall j :: 0 <= j < |kernel.hands| ==>
        At(Combined(root, p, o), kernel.hands[j].vIdx) == Walk(kernel.hands, mode, root, p, InOrder(o), j)
      ensures forall v: nat :: v < size && !IsHand(v) ==> Combined(root, p, o)[v] == 0.0
    {
      Lists();
      forall j: nat | j < |kernel.hands|
        ensures At(Combined(root, p, o), kernel.hands[j].vIdx) == Walk(kernel.hands, mode, root, p, InOrder(o), j)
      {
        PositionUnique(j);
      }
    }

    /** No hand of player p with a weight has a value that Solve takes for a mask. */
    ghost predicate NothingMasked(root: Node, p: nat, o: seq<real>, o': seq<real>) {
      NoneMistaken(InOrder(Local(o)), Values(root, p, Local(o')))
    }

    /** What the values mistaken for masks would add to player p's sum: nothing above zero. */
    ghost function LostTo(root: Node, p: nat, o: seq<real>, o': seq<real>): real {
      Sum(Lost(InOrder(Local(o)), Values(root, p, Local(o'))))
    }

    /** With a fixed strategy the two players' sums cancel but for what is mistaken, exactly if nothing is. */
    lemma SolveIsZeroSum(root: Node, o: seq<real>, o': seq<real>)
      requires Ready() && Proper(root, size) && FoldersArePlayers(root) && mode == Weighted
      requires |o| == |o'| == size && Range(o) && Range(o')
      ensures var sums := Solved(root, 0, Local(o), Local(o')) + Solved(root, 1, Local(o'), Local(o));
        && sums == -LostTo(root, 0, o, o') - LostTo(root, 1, o', o) >= 0.0
        && (sums == 0.0 <==> NothingMasked(root, 0, o, o') && NothingMasked(root, 1, o', o))
    {
      hide Solved, NothingMasked, LostTo, Local, Values, InOrder, Proper, FoldersArePlayers, Range, Ready, Dot, Earned;
      BothSolved(root, o, o');
      SolveEarns(root, o, o');
      RangesInOrder(o, o');
      FixedStrategiesAreZeroSum(kernel.hands, root, InOrder(Scaled(Local(o), REGRET_SCALER)),
        InOrder(Scaled(Local(o'), REGRET_SCALER)), size);
    }

    /** In best-response mode the profiler's sum is never negative. */
    lemma SolveIsExploitability(root: Node, o: seq<real>, o': seq<real>)
      requires Ready() && Proper(root, size) && FoldersArePlayers(root) && mode == BestResponse
      requires |o| == |o'| == size && Range(o) && Range(o')
      requires MaskFree(kernel.hands, root, 0, InOrder(Scaled(Local(o'), REGRET_SCALER)))
      requires MaskFree(kernel.hands, root, 1, InOrder(Scaled(Local(o), REGRET_SCALER)))
      ensures Solved(root, 0, Local(o), Local(o')) + Solved(root, 1, Local(o'), Local(o)) >= 0.0
    {
      hide Solved, NothingMasked, LostTo, Local, Values, InOrder, Proper, FoldersArePlayers, Range, Ready, Dot, Earned,
           MaskFree;
      BothSolved(root, o, o');
      SolveEarns(root, o, o');
      RangesInOrder(o, o');
      BestResponsesNeverLose(kernel.hands, root, InOrder(Scaled(Local(o), REGRET_SCALER)),
        InOrder(Scaled(Local(o'), REGRET_SCALER)), size);
    }

    /**
      In best-response mode what Solve adds up for a player, but for what is mistaken for masks, is the most that any
      strategy of his earns him with his range, playing the same actions against the same opponent.
     */
    lemma SolvedIsTheMost(root: Node, p: nat, o: seq<real>, o': seq<real>)
      requires Ready() && Proper(root, size) && mode == BestResponse
      requires |o| == |o'| == size && Range(o) && Range(o')
      requires MaskFree(kernel.hands, root, p, InOrder(Scaled(Local(o'), REGRET_SCALER)))
      ensures var x, w := InOrder(Local(o)), InOrder(Scaled(Local(o'), REGRET_SCALER));
        var most := Solved(root, p, Local(o), Local(o')) + LostTo(root, p, o, o');
        && (forall other: Node :: Deviates(root, other, p, size) ==>
              Earned(kernel.hands, Weighted, other, p, x, w) <= most)
        && exists other: Node ::
             Deviates(root, other, p, size) && Earned(kernel.hands, Weighted, other, p, x, w) == most
    {
      var x, w := InOrder(Local(o)), InOrder(Scaled(Local(o'), REGRET_SCALER));
      SolvedIsEarned(root, p, o, o');
      OwnHands();
      RangesInOrder(o, o');
      LocalMeans(o);
      hide Solved, LostTo, Local, Values, InOrder, Proper, Range, Ready, Dot, MaskFree, Deviates;
      MaskFreeIsAbove(kernel.hands, root, p, w);
      ReplyIsStrategy(kernel.hands, root, p, w, size);
      BestEarnings(kernel.hands, root, p, x, w, size);
    }

    lemma OwnHands()
      requires Ready()
      ensures OwnIndices(kernel.hands, size)
    {
      assert ReadyAt(0);
      Lists();
    }

    /** The ranges Solve walks against weigh every hand REGRET_SCALER times. */
    lemma SolveEarns(root: Node, o: seq<real>, o': seq<real>)
      requires Ready() && |o| == |o'| == size && Range(o) && Range(o')
      ensures var x', y' := InOrder(Scaled(Local(o), REGRET_SCALER)), InOrder(Scaled(Local(o'), REGRET_SCALER));
        && Earned(kernel.hands, mode, root, 0, x', y') ==
             REGRET_SCALER * Dot(InOrder(Local(o)), Values(root, 0, Local(o')))
        && Earned(kernel.hands, mode, root, 1, y', x') ==
             REGRET_SCALER * Dot(InOrder(Local(o')), Values(root, 1, Local(o)))
    {
      var x', y' := InOrder(Scaled(Local(o), REGRET_SCALER)), InOrder(Scaled(Local(o'), REGRET_SCALER));
      LocalMeans(o);
      LocalMeans(o');
      ScaledEarned(root, 0, InOrder(Local(o)), x', y');
      ScaledEarned(root, 1, InOrder(Local(o')), y', x');
    }

    lemma RangesInOrder(o: seq<real>, o': seq<real>)
      requires Ready() && |o| == |o'| == size && Range(o) && Range(o')
      ensures Range(InOrder(Scaled(Local(o), REGRET_SCALER))) && Range(InOrder(Scaled(Local(o'), REGRET_SCALER)))
      ensures forall j :: 0 <= j < |kernel.hands| ==> kernel.hands[j].vIdx < size
    {
      LocalMeans(o);
      LocalMeans(o');
      Lists();
    }

    lemma BothSolved(root: Node, o: seq<real>, o': seq<real>)
      requires Ready() && |o| == |o'| == size && Range(o) && Range(o')
      ensures Solved(root, 0, Local(o), Local(o')) + LostTo(root, 0, o, o') ==
        Dot(InOrder(Local(o)), Values(root, 0, Local(o')))
      ensures Solved(root, 1, Local(o'), Local(o)) + LostTo(root, 1, o', o) ==
        Dot(InOrder(Local(o')), Values(root, 1, Local(o)))
      ensures LostTo(root, 0, o, o') <= 0.0 && LostTo(root, 1, o', o) <= 0.0
      ensures LostTo(root, 0, o, o') == 0.0 <==> NothingMasked(root, 0, o, o')
      ensures LostTo(root, 1, o', o) == 0.0 <==> NothingMasked(root, 1, o', o)
    {
      SolvedIsEarned(root, 0, o, o');
      SolvedIsEarned(root, 1, o', o);
      LocalMeans(o);
      LocalMeans(o');
      LossMeans(InOrder(Local(o)), Values(root, 0, Local(o')));
      LossMeans(InOrder(Local(o')), Values(root, 1, Local(o)));
    }

    lemma ScaledEarned(root: Node, p: nat, x: seq<real>, x': seq<real>, w: seq<real>)
      requires |x| == |x'| == |w| == |kernel.hands| && forall j :: 0 <= j < |x| ==> x'[j] == REGRET_SCALER * x[j]
      ensures Earned(kernel.hands, mode, root, p, x', w) == REGRET_SCALER * Earned(kernel.hands, mode, root, p, x, w)
    {
      DotScale(x, x', REGRET_SCALER, WalkAll(kernel.hands, mode, root, p, w));
    }
  }

  function At(o: seq<real>, v: nat): real {
    if v < |o| then o[v] else 0.0
  }

  ghost predicate Distinct(idx: seq<nat>) {
    forall k, l :: 0 <= k < l < |idx| ==> idx[k] != idx[l]
  }

  /** sHandKernel: the indices of the hands that avoid the board, ascending. */
  method ValidIndex(size: nat, board: set<nat>) returns (valid: seq<nat>)
    ensures forall v: nat :: v in valid <==> v < size && Avoids(v, board)
    ensures Distinct(valid)
  {
    valid := [];
    for i := 0 to size
      invariant forall v: nat :: v in valid <==> v < i && Avoids(v, board)
      invariant Distinct(valid)
    {
      var highLow := Cards.FromVectorIndex(i);
      if highLow.0 in board || highLow.1 in board {
        continue;
      }
      assert i !in valid;
      valid := valid + [i];
    }
  }

  lemma PayIsProduct(kernel: TermEval.TermEvalKernel, value: real, spent: int)
    ensures kernel.Pay(value, spent) == spent as real * value
  {
  }

  // ---------------------------------------------------------------- sums over all hands or some

  function Picked(x: seq<real>, idx: seq<nat>): (y: seq<real>)
    ensures |y| == |idx| && forall k :: 0 <= k < |idx| ==> y[k] == At(x, idx[k])
  {
    seq(|idx|, k requires 0 <= k < |idx| => At(x, idx[k]))
  }

  /** A value or a weighted value so close to -1 that it is taken for a mask. */
  predicate Mistaken(x: real, u: real) {
    IsPruned(u) || IsPruned(u * x)
  }

  /** Nothing that counts is mistaken: weight zero loses nothing. */
  ghost predicate NoneMistaken(x: seq<real>, u: seq<real>) {
    |x| == |u| && forall j :: 0 <= j < |x| && x[j] > 0.0 ==> !Mistaken(x[j], u[j])
  }

  /** What is lost to values mistaken for masks. */
  ghost function Lost(x: seq<real>, u: seq<real>): (l: seq<real>)
    requires |x| == |u|
    ensures |l| == |x| && forall j :: 0 <= j < |l| ==> l[j] == if Mistaken(x[j], u[j]) then x[j] * u[j] else 0.0
  {
    seq(|x|, j requires 0 <= j < |x| => if Mistaken(x[j], u[j]) then x[j] * u[j] else 0.0)
  }

  /** What is mistaken is negative, so losses never make up for each other. */
  lemma LossMeans(x: seq<real>, u: seq<real>)
    requires |x| == |u| && Range(x)
    ensures Sum(Lost(x, u)) <= 0.0
    ensures Sum(Lost(x, u)) == 0.0 <==> NoneMistaken(x, u)
  {
    var l := Lost(x, u);
    forall j | 0 <= j < |l| ensures l[j] <= 0.0 && (l[j] == 0.0 <==> x[j] == 0.0 || !Mistaken(x[j], u[j]))
    {
      if Mistaken(x[j], u[j]) { LossOfOne(x[j], u[j]); }
    }
    var zeros, gain := ScaledBy(l, 0.0), ScaledBy(l, -1.0);
    SumNotNegative(gain);
    SumOfZeros(zeros);
    SumAdds(zeros, l, gain);
    if NoneMistaken(x, u) {
      SumOfZeros(l);
    } else {
      var j :| 0 <= j < |l| && x[j] > 0.0 && Mistaken(x[j], u[j]);
      assert gain[j] > 0.0;
    }
  }

  lemma LossOfOne(x: real, u: real)
    requires x >= 0.0 && Mistaken(x, u)
    ensures x * u <= 0.0 && (x * u == 0.0 <==> x == 0.0)
  {
    if IsPruned(u) { TimesMono(x, u, -0.5); }
  }

  lemma ShareSplits(x: real, u: real)
    requires !IsPruned(x)
    ensures x * u ==
      (if IsPruned(MultiplyOne(u, x)) then 0.0 else MultiplyOne(u, x)) + if Mistaken(x, u) then x * u else 0.0
  {
  }

  /** Multiplying and summing over all indices, against the scalar product over the hands alone. */
  lemma SharesAddUp(c: seq<real>, x: seq<real>, idx: seq<nat>, w: seq<real>, u: seq<real>)
    requires |c| == |x| && Distinct(idx) && |idx| == |w| == |u|
    requires forall j :: 0 <= j < |idx| ==> idx[j] < |c| && w[j] == x[idx[j]] && u[j] == c[idx[j]] && !IsPruned(w[j])
    requires forall v: nat :: v < |c| && v !in idx ==> c[v] == 0.0 && IsPruned(x[v])
    ensures Sum(Unmasked(Multiplied(c, x))) + Sum(Lost(w, u)) == Dot(w, u)
  {
    var t, l, d := Unmasked(Multiplied(c, x)), Lost(w, u), Products(w, u);
    SumOfPicked(t, idx);
    var s := Picked(t, idx);
    forall j | 0 <= j < |idx| ensures d[j] == s[j] + l[j] { ShareSplits(w[j], u[j]); }
    SumAdds(d, s, l);
  }

  /** When everything else is zero, summing the picked entries is enough. */
  lemma PickedSnoc(x: seq<real>, x': seq<real>, idx: seq<nat>)
    requires Distinct(idx) && idx != [] && (forall k :: 0 <= k < |idx| ==> idx[k] < |x|)
    requires idx[|idx| - 1] < |x| && x' == x[idx[|idx| - 1] := 0.0]
    ensures var n := |idx| - 1; Sum(Picked(x, idx)) == Sum(Picked(x', idx[..n])) + x[idx[n]]
  {
    var n := |idx| - 1;
    assert Picked(x', idx[..n]) == Picked(x, idx)[..n];
  }

  lemma {:induction false} SumOfPicked(x: seq<real>, idx: seq<nat>)
    requires Distinct(idx) && forall k :: 0 <= k < |idx| ==> idx[k] < |x|
    requires forall v: nat :: v < |x| && v !in idx ==> x[v] == 0.0
    ensures Sum(x) == Sum(Picked(x, idx))
    decreases |idx|
  {
    if idx == [] {
      SumOfConstant(x, 0.0);
      TimesIsProduct(|x|, 0.0);
    } else {
      var n := |idx| - 1;
      var x' := x[idx[n] := 0.0];
      assert forall v: nat :: v in idx ==> v in idx[..n] || v == idx[n];
      SumOfPicked(x', idx[..n]);
      SumUpdate(x, idx[n], 0.0);
      PickedSnoc(x, x', idx);
      hide Picked;
    }
  }

  ghost function Indices(hands: seq<HandAndRank>): (idx: seq<nat>)
    ensures |idx| == |hands| && forall j :: 0 <= j < |hands| ==> idx[j] == hands[j].vIdx
  {
    seq(|hands|, j requires 0 <= j < |hands| => hands[j].vIdx)
  }

  ghost function FoldTerms(o: seq<real>, v: nat): (t: seq<real>)
    ensures |t| == |o|
    ensures forall u :: 0 <= u < |o| ==>
      t[u] == if u == v || Cards.VectorIdxClash(v, u) then 0.0 else FoldSums.Pos(o[u])
  {
    seq(|o|, u requires 0 <= u < |o| => if u == v || Cards.VectorIdxClash(v, u) then 0.0 else FoldSums.Pos(o[u]))
  }

  lemma {:induction false} FoldIsSum(o: seq<real>, v: nat, t: seq<real>, n: nat)
    requires n <= |o| && t == FoldTerms(o, v)
    ensures FoldSums.FoldSum(o, v, n) == Sum(t[..n])
  {
    if n > 0 {
      FoldIsSum(o, v, t, n - 1);
      assert t[..n][..n - 1] == t[..n - 1];
    }
  }

  function NoClashTerm(hands: seq<HandAndRank>, w: seq<real>, i: nat, j: nat): real
    requires i < |hands| == |w| && j < |hands|
  {
    if hands[i].Has(hands[j].high) || hands[i].Has(hands[j].low) || w[j] <= 0.0 then 0.0 else w[j]
  }

  lemma {:induction false} NoClashIsSum(hands: seq<HandAndRank>, w: seq<real>, i: nat, t: seq<real>, n: nat)
    requires i < |hands| == |w| == |t| && n <= |hands|
    requires forall j :: 0 <= j < |hands| ==> t[j] == NoClashTerm(hands, w, i, j)
    ensures NoClash(hands, w, i, n) == Sum(t[..n])
  {
    if n > 0 {
      NoClashIsSum(hands, w, i, t, n - 1);
      assert t[..n][..n - 1] == t[..n - 1];
    }
  }

  /** Indices clash when hands share a card. */
  lemma SameTerm(mine: HandAndRank, opp: HandAndRank, o: seq<real>)
    requires mine.low < mine.high && mine.vIdx == Cards.ToVectorIndex(mine.high, mine.low)
    requires opp.low < opp.high && opp.vIdx == Cards.ToVectorIndex(opp.high, opp.low)
    ensures mine.Has(opp.high) || mine.Has(opp.low) <==>
      mine.vIdx == opp.vIdx || Cards.VectorIdxClash(mine.vIdx, opp.vIdx)
  {
    Cards.IndexRoundTrip(mine.high, mine.low);
    Cards.IndexRoundTrip(opp.high, opp.low);
    Cards.ClashIsSharing(mine.vIdx, opp.vIdx);
  }

  // ---------------------------------------------------------------- rolling out, hand after hand

  /** The range after action a, with the first n valid hands done. */
  ghost function Rolled(node: Node, o: seq<real>, a: nat, valid: seq<nat>, n: nat): (r: seq<real>)
    requires node.Choice? && n <= |valid|
    ensures |r| == |o|
  {
    if n == 0 then o
    else
      var r, i := Rolled(node, o, a, valid, n - 1), valid[n - 1];
      if i < |o| then r[i := Roll(o[i], Prob(node, i, a))] else r
  }

  lemma {:induction false} RolledMeans(node: Node, o: seq<real>, a: nat, valid: seq<nat>, n: nat)
    requires node.Choice? && n <= |valid|
    ensures forall v: nat :: v < |o| ==>
      Rolled(node, o, a, valid, n)[v] == if v in valid[..n] then Roll(o[v], Prob(node, v, a)) else o[v]
  {
    if n > 0 {
      RolledMeans(node, o, a, valid, n - 1);
      assert valid[..n] == valid[..n - 1] + [valid[n - 1]];
    }
  }

  lemma RolledKeeps(node: Node, o: seq<real>, valid: seq<nat>, k: nat)
    requires node.Choice? && k < |valid| && Distinct(valid) && valid[k] < |o|
    ensures forall a: nat :: Rolled(node, o, a, valid, k)[valid[k]] == o[valid[k]]
  {
    forall a: nat ensures Rolled(node, o, a, valid, k)[valid[k]] == o[valid[k]] { RolledMeans(node, o, a, valid, k); }
  }

  lemma SkipKeeps(node: Node, o: seq<real>, valid: seq<nat>, k: nat)
    requires node.Choice? && k < |valid| && Distinct(valid) && valid[k] < |o|
    requires IsPruned(o[valid[k]]) || o[valid[k]] == 0.0
    ensures forall a: nat :: Rolled(node, o, a, valid, k + 1) == Rolled(node, o, a, valid, k)
  {
    RolledKeeps(node, o, valid, k);
  }
}
