/**
  TermEvalKernel of modules/engine/src/term_eval_kernel.cpp: rank groups, running nets and per-card
  skip lists in arrays.  Both showdown evaluations are proved against module RankSlots, the pairwise one
  against Showdown, the skip-list one against FastValue, which agree exactly when no slot is skipped.
 */
module TermEval {
  import opened RankSlots
  import Cards
  import opened FoldSums

  const BELIEF_MASK: real := -1.0

  class TermEvalKernel {
    const numCards: nat
    const maxSlots: nat        // rows of the per-card tables, 46 in the source
    const board: set<nat>
    const hands: seq<HandAndRank>
    const uniqueRankCount: nat
    const firstEqual: array<int>   // rank_first_equal_index_
    const firstLosing: array<int>  // rank_first_losing_index_

    /** No card comes in so many ranks that its skip list would run out of the table. */
    ghost predicate Fits() {
      && Prepared(hands, numCards, board) && maxSlots >= 2
      && forall c: nat :: c < numCards ==> Slots(hands, Holding(c), |hands|) < maxSlots
    }

    /** What PreStack computes: group k of equal rank runs from firstEqual[k] to firstLosing[k]. */
    ghost predicate Valid()
      reads firstEqual, firstLosing
    {
      && Fits()
      && uniqueRankCount == Slots(hands, All, |hands|) == firstEqual.Length == firstLosing.Length
      && firstEqual != firstLosing
      && (forall k :: 0 <= k < uniqueRankCount ==> firstEqual[k] == Before(hands, k, |hands|))
      && (forall k :: 0 <= k < uniqueRankCount ==> firstLosing[k] == Before(hands, k + 1, |hands|))
    }

    /** Prepare, from the sorted hands on: count the different ranks, then PreStack. */
    constructor (numCards: nat, maxSlots: nat, board: set<nat>, hands: seq<HandAndRank>)
      requires Prepared(hands, numCards, board) && maxSlots >= 2
      requires forall c: nat :: c < numCards ==> Slots(hands, Holding(c), |hands|) < maxSlots
      ensures Valid()
      ensures this.numCards == numCards && this.maxSlots == maxSlots && this.board == board && this.hands == hands
      ensures fresh(firstEqual) && fresh(firstLosing)
    {
      this.numCards, this.maxSlots, this.board, this.hands := numCards, maxSlots, board, hands;
      var n := CountRanks(hands);
      uniqueRankCount := n;
      firstEqual := new int[n];
      firstLosing := new int[n];
      new;
      PreStack();
    }

    static method CountRanks(hands: seq<HandAndRank>) returns (n: nat)
      requires Sorted(hands)
      ensures n == Slots(hands, All, |hands|)
    {
      var ranks: set<int> := {};
      for j := 0 to |hands|
        invariant |ranks| == Slots(hands, All, j)
        invariant forall r :: r in ranks <==> exists i :: 0 <= i < j && hands[i].rank == r
      {
        assert LastIdx(hands, All, j) == j - 1;
        assert hands[j].rank in ranks <==> j > 0 && hands[j - 1].rank == hands[j].rank;
        if hands[j].rank in ranks {
          assert ranks + {hands[j].rank} == ranks;
        } else {
          assert |ranks + {hands[j].rank}| == |ranks| + 1;
        }
        ranks := ranks + {hands[j].rank};
      }
      n := |ranks|;
    }

    method PreStack()
      requires Fits() && uniqueRankCount == Slots(hands, All, |hands|) == firstEqual.Length == firstLosing.Length
      requires firstEqual != firstLosing
      modifies firstEqual, firstLosing
      ensures Valid()
    {
      FindFirstEqual();
      for j := 0 to uniqueRankCount - 1
        invariant forall k :: 0 <= k < uniqueRankCount ==> firstEqual[k] == Before(hands, k, |hands|)
        invariant forall k :: 0 <= k < j ==> firstLosing[k] == Before(hands, k + 1, |hands|)
        modifies firstLosing
      {
        firstLosing[j] := firstEqual[j + 1];
      }
      AllBefore(hands, uniqueRankCount, |hands|);
      firstLosing[uniqueRankCount - 1] := |hands|;
    }

    method FindFirstEqual()
      requires Fits() && uniqueRankCount == Slots(hands, All, |hands|) == firstEqual.Length
      modifies firstEqual
      ensures uniqueRankCount > 0 && forall k :: 0 <= k < uniqueRankCount ==> firstEqual[k] == Before(hands, k, |hands|)
    {
      RankStep(hands, 0);
      var lastSeenRank := hands[0].rank;
      var rankIndex := 0;
      firstEqual[0] := 0;
      for i := 0 to |hands|
        invariant lastSeenRank == hands[if i == 0 then 0 else i - 1].rank
        invariant rankIndex == SlotOf(hands, All, if i == 0 then 0 else i - 1) < uniqueRankCount
        invariant forall k :: 0 <= k <= rankIndex ==> firstEqual[k] == Before(hands, k, |hands|)
      {
        RankStep(hands, i);
        var rank := hands[i].rank;
        if rank != lastSeenRank {
          lastSeenRank := rank;
          rankIndex := rankIndex + 1;
          firstEqual[rankIndex] := i;
        }
      }
    }

    // -------------------------------------------------------------- tallying the opponent's range

    /** The arrays of StackShowdownProb hold the columns cols, one for each card. */
    ghost predicate Stored(cols: seq<Column>, lastSlot: array<int>, skip: array2<int>,
                           slotSum: array2<real>, cardSum: array<real>)
      reads lastSlot, skip, slotSum, cardSum
    {
      && |cols| == numCards == lastSlot.Length == cardSum.Length == skip.Length1 == slotSum.Length1
      && skip.Length0 == slotSum.Length0 == maxSlots
      && (forall c :: 0 <= c < numCards ==>
            && cols[c].last == lastSlot[c] && cols[c].sum == cardSum[c]
            && |cols[c].skip| == |cols[c].slots| == maxSlots)
      && (forall s, c :: 0 <= c < numCards && 0 <= s < maxSlots ==>
            cols[c].skip[s] == skip[s, c] && cols[c].slots[s] == slotSum[s, c])
    }

    /** Adds a hand of rank number rankI and the given weight to the column of card c. */
    method AddCard(c: nat, rankI: int, weight: real, lastSlot: array<int>, skip: array2<int>,
                   slotSum: array2<real>, cardSum: array<real>, ghost cols: seq<Column>)
      returns (ghost newCols: seq<Column>)
      requires Stored(cols, lastSlot, skip, slotSum, cardSum) && c < numCards && cols[c].Room()
      modifies lastSlot, skip, slotSum, cardSum
      ensures newCols == cols[c := cols[c].Add(rankI, weight)]
      ensures Stored(newCols, lastSlot, skip, slotSum, cardSum)
    {
      var idx := lastSlot[c];
      if idx < 0 || skip[idx, c] != rankI {
        idx := idx + 1;
        lastSlot[c] := idx;
        skip[idx, c] := rankI;
      }
      slotSum[idx, c] := slotSum[idx, c] + weight;
      cardSum[c] := cardSum[c] + weight;
      newCols := cols[c := cols[c].Add(rankI, weight)];
    }

    /** How far the first pass of StackShowdownProb has come after n hands. */
    ghost predicate TalliedTo(n: nat, w: seq<real>, rankSum: array<real>, cols: seq<Column>, lastSlot: array<int>,
                              skip: array2<int>, slotSum: array2<real>, cardSum: array<real>)
      reads rankSum, lastSlot, skip, slotSum, cardSum
    {
      && n <= |hands| == |w| && rankSum.Length == uniqueRankCount
      && (forall k :: 0 <= k < rankSum.Length ==> rankSum[k] == SlotSum(hands, w, All, k, n))
      && Stored(cols, lastSlot, skip, slotSum, cardSum)
      && forall c :: 0 <= c < numCards ==> Tallied(hands, cols[c], c, n, w)
    }

    /** Tallies hand j of rank number rankI: for its rank and for both its cards. */
    method TallyOne(j: nat, rankI: nat, weight: real, rankSum: array<real>, lastSlot: array<int>, skip: array2<int>,
                    slotSum: array2<real>, cardSum: array<real>, ghost w: seq<real>, ghost start: seq<Column>)
      returns (ghost cols: seq<Column>)
      requires Fits() && j < |hands| == |w| && w[j] == weight
      requires rankI < uniqueRankCount && SlotOf(hands, All, j) == rankI
      requires rankSum != cardSum
      requires TalliedTo(j, w, rankSum, start, lastSlot, skip, slotSum, cardSum)
      modifies rankSum, lastSlot, skip, slotSum, cardSum
      ensures TalliedTo(j + 1, w, rankSum, cols, lastSlot, skip, slotSum, cardSum)
    {
      TallyHand(hands, start, numCards, board, maxSlots, j, w);
      rankSum[rankI] := rankSum[rankI] + weight;
      cols := AddCard(hands[j].high, rankI, weight, lastSlot, skip, slotSum, cardSum, start);
      cols := AddCard(hands[j].low, rankI, weight, lastSlot, skip, slotSum, cardSum, cols);
    }

    /** Tallies the hands of one rank. */
    method TallyRank(rankI: nat, opp: array<real>, rankSum: array<real>, lastSlot: array<int>, skip: array2<int>,
                     slotSum: array2<real>, cardSum: array<real>, ghost start: seq<Column>)
      returns (ghost cols: seq<Column>)
      requires Valid() && opp.Length == |hands| && rankI < uniqueRankCount
      requires rankSum != opp && rankSum != cardSum && opp != cardSum
      requires lastSlot != firstEqual && lastSlot != firstLosing
      requires TalliedTo(Before(hands, rankI, |hands|), opp[..], rankSum, start, lastSlot, skip, slotSum, cardSum)
      modifies rankSum, lastSlot, skip, slotSum, cardSum
      ensures TalliedTo(Before(hands, rankI + 1, |hands|), opp[..], rankSum, cols, lastSlot, skip, slotSum, cardSum)
    {
      cols := start;
      BeforeGrows(hands, rankI, |hands|);
      for j := firstEqual[rankI] to firstLosing[rankI]
        invariant opp[..] == old(opp[..])
        invariant TalliedTo(j, opp[..], rankSum, cols, lastSlot, skip, slotSum, cardSum)
      {
        InGroup(hands, rankI, j);
        cols := TallyOne(j, rankI, opp[j], rankSum, lastSlot, skip, slotSum, cardSum, opp[..], cols);
      }
    }

    /** The first pass of StackShowdownProb: sums of the range by rank, and by slot of each card. */
    method TallyHands(opp: array<real>, rankSum: array<real>, lastSlot: array<int>, skip: array2<int>,
                      slotSum: array2<real>, cardSum: array<real>, ghost start: seq<Column>)
      returns (beliefSum: real, ghost cols: seq<Column>)
      requires Valid() && opp.Length == |hands|
      requires rankSum != opp && rankSum != cardSum && opp != cardSum
      requires lastSlot != firstEqual && lastSlot != firstLosing
      requires TalliedTo(0, opp[..], rankSum, start, lastSlot, skip, slotSum, cardSum)
      modifies rankSum, lastSlot, skip, slotSum, cardSum
      ensures beliefSum == PickSum(hands, opp[..], All, |hands|)
      ensures TalliedTo(|hands|, opp[..], rankSum, cols, lastSlot, skip, slotSum, cardSum)
    {
      cols, beliefSum := start, 0.0;
      NoneBefore(hands, |hands|);
      for rankI := 0 to uniqueRankCount
        invariant Valid() && opp[..] == old(opp[..])
        invariant beliefSum == PickSum(hands, opp[..], All, Before(hands, rankI, |hands|))
        invariant TalliedTo(Before(hands, rankI, |hands|), opp[..], rankSum, cols, lastSlot, skip, slotSum, cardSum)
      {
        RankSum(hands, opp[..], rankI);
        cols := TallyRank(rankI, opp, rankSum, lastSlot, skip, slotSum, cardSum, cols);
        beliefSum := beliefSum + rankSum[rankI];
      }
      AllBeforeEnd(hands);
    }

    /** The net of every rank, one rank after the other. */
    method NetRanks(rankSum: array<real>, beliefSum: real, rankNet: array<real>, ghost w: seq<real>)
      requires Valid() && |w| == |hands| && beliefSum == PickSum(hands, w, All, |hands|)
      requires rankSum.Length == uniqueRankCount == rankNet.Length && rankSum != rankNet
      requires forall k :: 0 <= k < rankSum.Length ==> rankSum[k] == SlotSum(hands, w, All, k, |hands|)
      modifies rankNet
      ensures forall k :: 0 <= k < rankNet.Length ==> rankNet[k] == SlotNet(hands, w, All, k, |hands|)
    {
      for rankI := 0 to uniqueRankCount
        invariant forall k :: 0 <= k < rankI ==> rankNet[k] == SlotNet(hands, w, All, k, |hands|)
      {
        FirstSlotNet(hands, w, All, |hands|);
        NextSlotNet(hands, w, All, rankI, |hands|);
        if rankI == 0 {
          rankNet[rankI] := rankSum[rankI] - beliefSum;
          continue;
        }
        rankNet[rankI] := rankNet[rankI - 1] + rankSum[rankI - 1] + rankSum[rankI];
      }
    }

    /** The net of every slot of card c: row 0 and the rows of its slots. */
    ghost predicate NettedCard(c: nat, rows: nat, w: seq<real>, cardNet: array2<real>)
      requires |w| == |hands| && c < cardNet.Length1 && rows <= cardNet.Length0
      reads cardNet
    {
      forall s :: 0 <= s < rows ==> cardNet[s, c] == SlotNet(hands, w, Holding(c), s, |hands|)
    }

    /** Follows the skip list of card c to its end. */
    method NetCard(c: nat, skip: array2<int>, slotSum: array2<real>, cardSum: array<real>, cardNet: array2<real>,
                   ghost w: seq<real>, ghost cols: seq<Column>, ghost lastSlot: array<int>)
      requires Valid() && |w| == |hands| && c < numCards && Stored(cols, lastSlot, skip, slotSum, cardSum)
      requires Tallied(hands, cols[c], c, |hands|, w)
      requires cardNet.Length0 >= maxSlots && cardNet.Length1 == numCards && cardNet != slotSum
      modifies cardNet
      ensures forall s, d :: 0 <= s < cardNet.Length0 && 0 <= d < numCards && d != c ==>
        cardNet[s, d] == old(cardNet[s, d])
      ensures NettedCard(c, Rows(c), w, cardNet)
    {
      var skipIdx := 0;
      FirstSlotNet(hands, w, Holding(c), |hands|);
      while true
        invariant skipIdx <= maxSlots && (skipIdx <= 1 || skipIdx <= Slots(hands, Holding(c), |hands|))
        invariant NettedCard(c, skipIdx, w, cardNet)
        invariant forall s, d :: 0 <= s < cardNet.Length0 && 0 <= d < numCards && d != c ==>
          cardNet[s, d] == old(cardNet[s, d])
        decreases maxSlots - skipIdx
      {
        if skipIdx == 0 {
          cardNet[skipIdx, c] := slotSum[skipIdx, c] - cardSum[c];
          skipIdx := skipIdx + 1;
          continue;
        }
        SkipEnds(hands, cols[c].skip, c, skipIdx);
        if skip[skipIdx, c] == -1 {
          break;
        }
        NextSlotNet(hands, w, Holding(c), skipIdx, |hands|);
        cardNet[skipIdx, c] := cardNet[skipIdx - 1, c] + slotSum[skipIdx, c] + slotSum[skipIdx - 1, c];
        skipIdx := skipIdx + 1;
      }
    }

    /** StackShowdownProb: nets by rank and by slot of each card, and the skip lists. */
    method StackShowdownProb(opp: array<real>, rankNet: array<real>, cardNet: array2<real>, skip: array2<int>)
      requires Valid() && opp.Length == |hands| && rankNet.Length == uniqueRankCount && rankNet != opp
      requires cardNet.Length0 >= maxSlots == skip.Length0 && cardNet.Length1 == numCards == skip.Length1
      requires forall s, c :: 0 <= s < maxSlots && 0 <= c < numCards ==> skip[s, c] == -1
      modifies rankNet, cardNet, skip
      ensures opp[..] == old(opp[..])
      ensures forall k :: 0 <= k < rankNet.Length ==> rankNet[k] == SlotNet(hands, opp[..], All, k, |hands|)
      ensures forall c: nat :: c < numCards && c !in board ==> NettedCard(c, Rows(c), opp[..], cardNet)
      ensures forall c: nat :: c < numCards ==> ListNames(c, skip)
    {
      ghost var w := opp[..];
      var rankSum, lastSlot, slotSum, cardSum := NewTallies();
      ghost var cols := EmptyColumns();
      assert TalliedTo(0, w, rankSum, cols, lastSlot, skip, slotSum, cardSum);
      var beliefSum;
      beliefSum, cols := TallyHands(opp, rankSum, lastSlot, skip, slotSum, cardSum, cols);
      NetRanks(rankSum, beliefSum, rankNet, w);
      forall c: nat | c < numCards ensures ListNames(c, skip) { ListIsRight(hands, cols[c].skip, c); }
      NetCards(skip, slotSum, cardSum, cardNet, w, cols, lastSlot);
    }

    method NewTallies()
      returns (rankSum: array<real>, lastSlot: array<int>, slotSum: array2<real>, cardSum: array<real>)
      ensures fresh(rankSum) && fresh(lastSlot) && fresh(slotSum) && fresh(cardSum) && rankSum != cardSum
      ensures rankSum.Length == uniqueRankCount && lastSlot.Length == numCards == cardSum.Length
      ensures slotSum.Length0 == maxSlots && slotSum.Length1 == numCards
      ensures forall k :: 0 <= k < rankSum.Length ==> rankSum[k] == 0.0
      ensures forall c :: 0 <= c < numCards ==> lastSlot[c] == -1 && cardSum[c] == 0.0
      ensures forall s, c :: 0 <= s < maxSlots && 0 <= c < numCards ==> slotSum[s, c] == 0.0
    {
      rankSum := new real[uniqueRankCount](_ => 0.0);
      lastSlot := new int[numCards](_ => -1);
      slotSum := new real[maxSlots, numCards]((_, _) => 0.0);
      cardSum := new real[numCards](_ => 0.0);
    }

    /** What the tables start from. */
    ghost function EmptyColumns(): (cols: seq<Column>)
      ensures |cols| == numCards
    {
      seq(numCards, _ => Column(-1, 0.0, seq(maxSlots, _ => -1), seq(maxSlots, _ => 0.0)))
    }

    /** The nets of all cards that are not on the board. */
    method NetCards(skip: array2<int>, slotSum: array2<real>, cardSum: array<real>, cardNet: array2<real>,
                    ghost w: seq<real>, ghost cols: seq<Column>, ghost lastSlot: array<int>)
      requires Valid() && |w| == |hands| && Stored(cols, lastSlot, skip, slotSum, cardSum)
      requires forall c :: 0 <= c < numCards ==> Tallied(hands, cols[c], c, |hands|, w)
      requires cardNet.Length0 >= maxSlots && cardNet.Length1 == numCards && cardNet != slotSum
      modifies cardNet
      ensures forall c: nat :: c < numCards && c !in board ==> NettedCard(c, Rows(c), w, cardNet)
    {
      for c := 0 to numCards
        invariant Stored(cols, lastSlot, skip, slotSum, cardSum)
        invariant forall d: nat :: d < c && d !in board ==> NettedCard(d, Rows(d), w, cardNet)
      {
        if c in board {
          continue;
        }
        NetCard(c, skip, slotSum, cardSum, cardNet, w, cols, lastSlot);
      }
    }

    /** The rows of card c's column that are filled: its slots, and always row 0. */
    ghost function Rows(c: nat): (n: nat)
      ensures Fits() && c < numCards ==> 1 <= n <= maxSlots
    {
      var n := Slots(hands, Holding(c), |hands|);
      if n == 0 then 1 else n
    }

    /** Every slot of card c is named by the rank number of its hands. */
    ghost predicate ListNames(c: nat, skip: array2<int>)
      requires skip.Length0 == maxSlots && c < skip.Length1
      reads skip
    {
      forall j :: 0 <= j < |hands| && hands[j].Has(c) ==>
        var s := SlotOf(hands, Holding(c), j);
        0 <= s < maxSlots && skip[s, c] == SlotOf(hands, All, j)
    }

    // -------------------------------------------------------------- evaluating my range

    ghost predicate Beliefs(opp: array<real>, my: array<real>) {
      opp != my && opp.Length == my.Length && forall j :: 0 <= j < |hands| ==> hands[j].vIdx < opp.Length
    }

    /** The opponent's weights in the order of the sorted hands. */
    ghost function Weights(opp: array<real>): (w: seq<real>)
      requires forall j :: 0 <= j < |hands| ==> hands[j].vIdx < opp.Length
      reads opp
      ensures |w| == |hands| && forall j :: 0 <= j < |w| ==> w[j] == opp[hands[j].vIdx]
    {
      seq(|hands|, j requires 0 <= j < |hands| && hands[j].vIdx < opp.Length reads opp => opp[hands[j].vIdx])
    }

    /** Which of my hands are not masked. */
    ghost function Live(my: array<real>): (live: seq<bool>)
      requires forall j :: 0 <= j < |hands| ==> hands[j].vIdx < my.Length
      reads my
      ensures |live| == |hands| && forall j :: 0 <= j < |live| ==> (live[j] <==> my[hands[j].vIdx] != BELIEF_MASK)
    {
      seq(|hands|, j requires 0 <= j < |hands| && hands[j].vIdx < my.Length reads my =>
        my[hands[j].vIdx] != BELIEF_MASK)
    }

    /** My range after the evaluation of my first n hands: hand j is worth value[j] per chip, masked hands stay. */
    ghost function Evaluated(n: nat, start: seq<real>, value: seq<real>, spent: int): (my: seq<real>)
      requires n <= |hands| == |value| && forall j :: 0 <= j < |hands| ==> hands[j].vIdx < |start|
      ensures |my| == |start|
    {
      if n == 0 then start
      else
        var before, v := Evaluated(n - 1, start, value, spent), hands[n - 1].vIdx;
        if before[v] == BELIEF_MASK then before else before[v := Pay(value[n - 1], spent)]
    }

    function Pay(value: real, spent: int): real { value * spent as real }

    lemma EvaluatedStep(n: nat, start: seq<real>, value: seq<real>, spent: int, my: seq<real>)
      requires n < |hands| == |value| && forall j :: 0 <= j < |hands| ==> hands[j].vIdx < |start|
      requires my == Evaluated(n, start, value, spent)
      ensures Evaluated(n + 1, start, value, spent) ==
        if my[hands[n].vIdx] == BELIEF_MASK then my else my[hands[n].vIdx := Pay(value[n], spent)]
    {
    }

    /** Every hand that was not masked gets its value, everything else stays. */
    lemma {:induction false} EvaluatedMeans(n: nat, start: seq<real>, value: seq<real>, spent: int)
      requires Prepared(hands, numCards, board) && n <= |hands| == |value|
      requires forall j :: 0 <= j < |hands| ==> hands[j].vIdx < |start|
      ensures var my := Evaluated(n, start, value, spent);
        && (forall j :: 0 <= j < |hands| ==>
              my[hands[j].vIdx] == if j < n && start[hands[j].vIdx] != BELIEF_MASK then Pay(value[j], spent)
                                   else start[hands[j].vIdx])
        && forall v :: 0 <= v < |my| && (forall j :: 0 <= j < n ==> hands[j].vIdx != v) ==> my[v] == start[v]
    {
      if n > 0 { EvaluatedMeans(n - 1, start, value, spent); }
    }

    ghost function ShowdownValues(w: seq<real>): (v: seq<real>)
      requires |w| == |hands|
      ensures |v| == |hands| && forall j :: 0 <= j < |hands| ==> v[j] == Showdown(hands, w, j, |hands|)
    {
      seq(|hands|, j requires 0 <= j < |hands| => Showdown(hands, w, j, |hands|))
    }

    ghost function FastValues(w: seq<real>, live: seq<bool>): (v: seq<real>)
      requires |w| == |hands| == |live|
      ensures |v| == |hands| && forall j :: 0 <= j < |hands| ==> v[j] == FastValue(hands, w, live, j)
    {
      seq(|hands|, j requires 0 <= j < |hands| => FastValue(hands, w, live, j))
    }

    /** NaiveShowdownEval: every hand that is not masked against every opponent hand. */
    method NaiveShowdownEval(opp: array<real>, my: array<real>, spent: int)
      requires Valid() && Beliefs(opp, my)
      modifies my
      ensures my[..] == Evaluated(|hands|, old(my[..]), ShowdownValues(Weights(opp)), spent)
    {
      ghost var w, start := Weights(opp), my[..];
      ghost var value := ShowdownValues(w);
      for myPos := 0 to |hands|
        invariant my[..] == Evaluated(myPos, start, value, spent)
      {
        EvaluatedStep(myPos, start, value, spent, my[..]);
        var v := hands[myPos].vIdx;
        if my[v] == BELIEF_MASK {
          continue;
        }
        var sum := NaiveSum(opp, myPos, w);
        SetResult(my, v, Pay(sum, spent));
      }
    }

    method SetResult(my: array<real>, v: nat, x: real)
      requires v < my.Length
      modifies my
      ensures my[..] == old(my[..])[v := x]
    {
      my[v] := x;
    }

    method NaiveSum(opp: array<real>, myPos: nat, ghost w: seq<real>) returns (sum: real)
      requires Fits() && myPos < |hands| == |w|
      requires forall j :: 0 <= j < |hands| ==> hands[j].vIdx < opp.Length && w[j] == opp[hands[j].vIdx]
      ensures sum == Showdown(hands, w, myPos, |hands|)
    {
      sum := 0.0;
      for oppPos := 0 to |hands|
        invariant sum == Showdown(hands, w, myPos, oppPos)
      {
        var weight := opp[hands[oppPos].vIdx];
        DuelSteps(hands, numCards, board, myPos, oppPos, weight);
        if myPos == oppPos || weight == 0.0 || hands[myPos].rank == hands[oppPos].rank
           || hands[myPos].CardCrash(hands[oppPos]) {
          continue;
        }
        sum := sum + if myPos > oppPos then weight else -weight;
      }
    }

    /** FastShowdownEval: one pass over my hands, a pointer into the skip list of every card. */
    method FastShowdownEval(opp: array<real>, my: array<real>, spent: int)
      requires Valid() && Beliefs(opp, my)
      modifies my
      ensures my[..] == Evaluated(|hands|, old(my[..]), FastValues(Weights(opp), old(Live(my))), spent)
    {
      ghost var w, live := Weights(opp), Live(my);
      var belief := Gather(opp);
      var rankNet := new real[uniqueRankCount];
      var cardNet := new real[maxSlots, numCards]((_, _) => 0.0);
      var skip := new int[maxSlots, numCards]((_, _) => -1);
      FillTables(belief, rankNet, cardNet, skip);
      var lastIdx, lastNet := StartPointers(cardNet, skip, rankNet, live, w);
      EvalRanks(my, spent, rankNet, cardNet, skip, lastIdx, lastNet, live, w);
    }

    method FillTables(belief: array<real>, rankNet: array<real>, cardNet: array2<real>, skip: array2<int>)
      requires Valid() && belief.Length == |hands| && rankNet.Length == uniqueRankCount && rankNet != belief
      requires cardNet.Length0 == maxSlots == skip.Length0 && cardNet.Length1 == numCards == skip.Length1
      requires forall s, c :: 0 <= s < maxSlots && 0 <= c < numCards ==> skip[s, c] == -1
      modifies rankNet, cardNet, skip
      ensures Tables(rankNet, cardNet, skip, old(belief[..]))
    {
      StackShowdownProb(belief, rankNet, cardNet, skip);
      forall k: nat ensures RankTabled(k, rankNet, belief[..]) {}
      forall c: nat ensures CardTabled(c, cardNet, skip, belief[..]) {}
    }

    method Gather(opp: array<real>) returns (belief: array<real>)
      requires forall j :: 0 <= j < |hands| ==> hands[j].vIdx < opp.Length
      ensures fresh(belief) && belief[..] == Weights(opp)
    {
      belief := new real[|hands|];
      for i := 0 to |hands|
        invariant forall j :: 0 <= j < i ==> belief[j] == opp[hands[j].vIdx]
        modifies belief
      {
        belief[i] := opp[hands[i].vIdx];
      }
    }

    /** The pointer of card c after my first n hands, and the net it points to. */
    ghost predicate Pointed(c: nat, n: nat, live: seq<bool>, w: seq<real>, idx: int, net: real) {
      && |live| == |hands| == |w| && n <= |hands|
      && idx == Pointer(hands, live, c, n)
      && net == SlotNet(hands, w, Holding(c), idx, |hands|)
    }

    ghost predicate AllPointed(n: nat, live: seq<bool>, w: seq<real>, idx: seq<int>, net: seq<real>) {
      |idx| == |net| == numCards && forall c: nat :: PointedAt(c, n, live, w, idx, net)
    }

    ghost predicate PointedAt(c: nat, n: nat, live: seq<bool>, w: seq<real>, idx: seq<int>, net: seq<real>)
      requires |idx| == |net| == numCards
    {
      c < numCards && c !in board ==> Pointed(c, n, live, w, idx[c], net[c])
    }

    method StartPointers(cardNet: array2<real>, ghost skip: array2<int>, ghost rankNet: array<real>,
                         ghost live: seq<bool>, ghost w: seq<real>)
      returns (lastIdx: array<int>, lastNet: array<real>)
      requires |live| == |hands| == |w| && Tables(rankNet, cardNet, skip, w)
      ensures fresh(lastIdx) && fresh(lastNet) && AllPointed(0, live, w, lastIdx[..], lastNet[..])
    {
      lastIdx := new int[numCards](_ => 0);
      lastNet := new real[numCards];
      for c := 0 to numCards
        invariant forall d :: 0 <= d < c ==> lastNet[d] == cardNet[0, d]
        modifies lastNet
      {
        lastNet[c] := cardNet[0, c];
      }
      forall c: nat ensures PointedAt(c, 0, live, w, lastIdx[..], lastNet[..]) {
        assert CardTabled(c, cardNet, skip, w);
      }
    }

    /** The tables the second pass reads. */
    ghost predicate Tables(rankNet: array<real>, cardNet: array2<real>, skip: array2<int>, w: seq<real>)
      reads rankNet, cardNet, skip
    {
      && Fits() && |w| == |hands| && rankNet.Length == uniqueRankCount
      && cardNet.Length0 == maxSlots == skip.Length0 && cardNet.Length1 == numCards == skip.Length1
      && (forall k: nat :: RankTabled(k, rankNet, w))
      && forall c: nat :: CardTabled(c, cardNet, skip, w)
    }

    ghost predicate RankTabled(k: nat, rankNet: array<real>, w: seq<real>)
      requires Fits() && |w| == |hands|
      reads rankNet
    {
      k < rankNet.Length ==> rankNet[k] == SlotNet(hands, w, All, k, |hands|)
    }

    ghost predicate CardTabled(c: nat, cardNet: array2<real>, skip: array2<int>, w: seq<real>)
      requires Fits() && |w| == |hands|
      requires cardNet.Length0 == maxSlots == skip.Length0 && cardNet.Length1 == numCards == skip.Length1
      reads cardNet, skip
    {
      c < numCards ==> ListNames(c, skip) && (c !in board ==> NettedCard(c, Rows(c), w, cardNet))
    }

    method EvalRanks(my: array<real>, spent: int, rankNet: array<real>, cardNet: array2<real>, skip: array2<int>,
                     lastIdx: array<int>, lastNet: array<real>, ghost live: seq<bool>, ghost w: seq<real>)
      requires Valid() && Tables(rankNet, cardNet, skip, w) && AllPointed(0, live, w, lastIdx[..], lastNet[..])
      requires (forall j :: 0 <= j < |hands| ==> hands[j].vIdx < my.Length) && live == Live(my)
      requires rankNet != my && rankNet != lastNet && my != lastNet
      requires lastIdx != firstEqual && lastIdx != firstLosing
      modifies my, lastIdx, lastNet
      ensures my[..] == Evaluated(|hands|, old(my[..]), FastValues(w, live), spent)
    {
      NoneBefore(hands, |hands|);
      for rankI := 0 to uniqueRankCount
        invariant Valid() && Tables(rankNet, cardNet, skip, w)
        invariant AllPointed(Before(hands, rankI, |hands|), live, w, lastIdx[..], lastNet[..])
        invariant my[..] == Evaluated(Before(hands, rankI, |hands|), old(my[..]), FastValues(w, live), spent)
      {
        EvalRank(rankI, my, spent, rankNet, cardNet, skip, lastIdx, lastNet, live, w, old(my[..]));
      }
      AllBeforeEnd(hands);
    }

    method EvalRank(rankI: nat, my: array<real>, spent: int, rankNet: array<real>, cardNet: array2<real>,
                    skip: array2<int>, lastIdx: array<int>, lastNet: array<real>,
                    ghost live: seq<bool>, ghost w: seq<real>, ghost start: seq<real>)
      requires Valid() && rankI < uniqueRankCount && Tables(rankNet, cardNet, skip, w)
      requires AllPointed(Before(hands, rankI, |hands|), live, w, lastIdx[..], lastNet[..])
      requires StartFits(live, start)
      requires my[..] == Evaluated(Before(hands, rankI, |hands|), start, FastValues(w, live), spent)
      requires rankNet != my && rankNet != lastNet && my != lastNet
      requires lastIdx != firstEqual && lastIdx != firstLosing
      modifies my, lastIdx, lastNet
      ensures AllPointed(Before(hands, rankI + 1, |hands|), live, w, lastIdx[..], lastNet[..])
      ensures my[..] == Evaluated(Before(hands, rankI + 1, |hands|), start, FastValues(w, live), spent)
    {
      assert RankTabled(rankI, rankNet, w);
      BeforeGrows(hands, rankI, |hands|);
      Begun(firstEqual[rankI], live, w, start, spent, my[..], lastIdx[..], lastNet[..]);
      EvalGroup(rankI, firstEqual[rankI], firstLosing[rankI], rankNet[rankI],
                my, spent, rankNet, cardNet, skip, lastIdx, lastNet, live, w, start);
      assert DoneAt(0, firstLosing[rankI], live, w, start, spent, my[..], lastIdx[..], lastNet[..]);
    }

    /** My first n hands are evaluated, and the pointers are past them. */
    ghost predicate Done(n: nat, live: seq<bool>, w: seq<real>, start: seq<real>, spent: int,
                         my: seq<real>, idx: seq<int>, net: seq<real>) {
      forall k: nat :: DoneAt(k, n, live, w, start, spent, my, idx, net)
    }

    ghost predicate DoneAt(k: nat, n: nat, live: seq<bool>, w: seq<real>, start: seq<real>, spent: int,
                           my: seq<real>, idx: seq<int>, net: seq<real>) {
      && Fits() && StartFits(live, start) && |w| == |hands| && n <= |hands|
      && AllPointed(n, live, w, idx, net) && my == Evaluated(n, start, FastValues(w, live), spent)
    }

    lemma Begun(n: nat, live: seq<bool>, w: seq<real>, start: seq<real>, spent: int,
                my: seq<real>, idx: seq<int>, net: seq<real>)
      requires DoneAt(0, n, live, w, start, spent, my, idx, net)
      ensures Done(n, live, w, start, spent, my, idx, net)
    {
    }

    /** The hands of one rank. */
    method EvalGroup(rankI: nat, from: nat, to: nat, base: real, my: array<real>, spent: int,
                     ghost rankNet: array<real>,
                     cardNet: array2<real>, skip: array2<int>, lastIdx: array<int>, lastNet: array<real>,
                     ghost live: seq<bool>, ghost w: seq<real>, ghost start: seq<real>)
      requires Tables(rankNet, cardNet, skip, w)
      requires from == Before(hands, rankI, |hands|) && to == Before(hands, rankI + 1, |hands|) && from <= to <= |hands|
      requires base == SlotNet(hands, w, All, rankI, |hands|)
      requires Done(from, live, w, start, spent, my[..], lastIdx[..], lastNet[..])
      requires rankNet != my && rankNet != lastNet && my != lastNet
      modifies my, lastIdx, lastNet
      ensures Done(to, live, w, start, spent, my[..], lastIdx[..], lastNet[..])
    {
      for j := from to to
        invariant Tables(rankNet, cardNet, skip, w)
        invariant Done(j, live, w, start, spent, my[..], lastIdx[..], lastNet[..])
      {
        EvalOne(j, rankI, base, my, spent, rankNet, cardNet, skip, lastIdx, lastNet, live, w, start);
      }
    }

    /** The hands are in the range the evaluation started from, and live says which are not masked there. */
    ghost predicate StartFits(live: seq<bool>, start: seq<real>) {
      && |live| == |hands|
      && forall j :: 0 <= j < |hands| ==> hands[j].vIdx < |start| && (live[j] <==> start[hands[j].vIdx] != BELIEF_MASK)
    }

    /** One of the hands of a rank. */
    method EvalOne(j: nat, rankI: nat, base: real, my: array<real>, spent: int, ghost rankNet: array<real>,
                   cardNet: array2<real>, skip: array2<int>, lastIdx: array<int>, lastNet: array<real>,
                   ghost live: seq<bool>, ghost w: seq<real>, ghost start: seq<real>)
      requires Tables(rankNet, cardNet, skip, w)
      requires Before(hands, rankI, |hands|) <= j < Before(hands, rankI + 1, |hands|)
      requires j < |hands| && base == SlotNet(hands, w, All, rankI, |hands|) && my != lastNet
      requires Done(j, live, w, start, spent, my[..], lastIdx[..], lastNet[..])
      modifies my, lastIdx, lastNet
      ensures Done(j + 1, live, w, start, spent, my[..], lastIdx[..], lastNet[..])
    {
      ghost var my0 := my[..];
      DoneOpens(j, live, w, start, spent, my0, lastIdx[..], lastNet[..]);
      InGroup(hands, rankI, j);
      HandTables(j, rankNet, cardNet, skip, w);
      EvalHand(j, rankI, base, my, spent, cardNet, skip, lastIdx, lastNet, live, w);
      DoneStep(j, live, w, start, spent, my0, my[..], lastIdx[..], lastNet[..]);
    }

    lemma DoneOpens(j: nat, live: seq<bool>, w: seq<real>, start: seq<real>, spent: int,
                    my: seq<real>, idx: seq<int>, net: seq<real>)
      requires j < |hands| && Done(j, live, w, start, spent, my, idx, net)
      ensures |live| == |hands| == |w| && AllPointed(j, live, w, idx, net)
      ensures hands[j].vIdx < |my| && (live[j] <==> my[hands[j].vIdx] != BELIEF_MASK)
    {
      assert DoneAt(0, j, live, w, start, spent, my, idx, net);
      StepOf(j, start, live, w, spent);
    }

    lemma DoneStep(j: nat, live: seq<bool>, w: seq<real>, start: seq<real>, spent: int,
                   my: seq<real>, my': seq<real>, idx: seq<int>, net: seq<real>)
      requires j < |hands| == |live| == |w| && hands[j].vIdx < |my| && AllPointed(j + 1, live, w, idx, net)
      requires exists idx0, net0 :: Done(j, live, w, start, spent, my, idx0, net0)
      requires my' == if live[j] then my[hands[j].vIdx := Pay(FastValue(hands, w, live, j), spent)] else my
      ensures Done(j + 1, live, w, start, spent, my', idx, net)
    {
      var idx0, net0 :| Done(j, live, w, start, spent, my, idx0, net0);
      assert DoneAt(0, j, live, w, start, spent, my, idx0, net0);
      StepOf(j, start, live, w, spent);
      Begun(j + 1, live, w, start, spent, my', idx, net);
    }

    /** The result of hand j, in terms of the range before. */
    lemma StepOf(j: nat, start: seq<real>, live: seq<bool>, w: seq<real>, spent: int)
      requires Prepared(hands, numCards, board) && j < |hands| == |live| == |w|
      requires forall i :: 0 <= i < |hands| ==> hands[i].vIdx < |start|
      requires live[j] <==> start[hands[j].vIdx] != BELIEF_MASK
      ensures var my, v := Evaluated(j, start, FastValues(w, live), spent), hands[j].vIdx;
        && (live[j] <==> my[v] != BELIEF_MASK)
        && Evaluated(j + 1, start, FastValues(w, live), spent) ==
           if live[j] then my[v := Pay(FastValue(hands, w, live, j), spent)] else my
    {
      NotYet(j, start, FastValues(w, live), spent);
      EvaluatedStep(j, start, FastValues(w, live), spent, Evaluated(j, start, FastValues(w, live), spent));
    }

    lemma HandTables(j: nat, rankNet: array<real>, cardNet: array2<real>, skip: array2<int>, w: seq<real>)
      requires Tables(rankNet, cardNet, skip, w) && j < |hands|
      ensures HandTabled(j, cardNet, skip, w)
    {
      assert CardTabled(hands[j].high, cardNet, skip, w) && CardTabled(hands[j].low, cardNet, skip, w);
      assert HandTabledAt(0, j, cardNet, skip, w);
    }

    /** The tables hold what the evaluation of hand j needs. */
    ghost predicate HandTabled(j: nat, cardNet: array2<real>, skip: array2<int>, w: seq<real>)
      reads cardNet, skip
    {
      Fits() && j < |hands| == |w| && forall k: nat :: HandTabledAt(k, j, cardNet, skip, w)
    }

    ghost predicate HandTabledAt(k: nat, j: nat, cardNet: array2<real>, skip: array2<int>, w: seq<real>)
      reads cardNet, skip
    {
      && Fits() && j < |hands| == |w|
      && cardNet.Length0 == maxSlots == skip.Length0 && cardNet.Length1 == numCards == skip.Length1
      && NettedCard(hands[j].high, Rows(hands[j].high), w, cardNet) && ListNames(hands[j].high, skip)
      && NettedCard(hands[j].low, Rows(hands[j].low), w, cardNet) && ListNames(hands[j].low, skip)
    }

    /** Evaluates my hand j, of rank number rankI with net base. */
    method EvalHand(j: nat, rankI: nat, base: real, my: array<real>, spent: int, cardNet: array2<real>,
                    skip: array2<int>,
                    lastIdx: array<int>, lastNet: array<real>, ghost live: seq<bool>, ghost w: seq<real>)
      requires HandTabled(j, cardNet, skip, w) && |live| == |hands| && SlotOf(hands, All, j) == rankI
      requires base == SlotNet(hands, w, All, rankI, |hands|) && my != lastNet
      requires AllPointed(j, live, w, lastIdx[..], lastNet[..])
      requires hands[j].vIdx < my.Length && (live[j] <==> my[hands[j].vIdx] != BELIEF_MASK)
      modifies my, lastIdx, lastNet
      ensures AllPointed(j + 1, live, w, lastIdx[..], lastNet[..])
      ensures my[..] ==
        if live[j] then old(my[..])[hands[j].vIdx := Pay(FastValue(hands, w, live, j), spent)] else old(my[..])
    {
      var v := hands[j].vIdx;
      if my[v] == BELIEF_MASK {
        PassOthers(j, live, w, lastIdx[..], lastNet[..]);
        return;
      }
      var drift := Drift(j, rankI, cardNet, skip, lastIdx, lastNet, live, w);
      SetResult(my, v, Pay(base - drift, spent));
    }

    /** Moves the pointers of hand j's cards and adds up the nets they then point to. */
    method Drift(j: nat, rankI: nat, cardNet: array2<real>, skip: array2<int>, lastIdx: array<int>,
                 lastNet: array<real>,
                 ghost live: seq<bool>, ghost w: seq<real>)
      returns (drift: real)
      requires HandTabled(j, cardNet, skip, w) && |live| == |hands| && live[j] && SlotOf(hands, All, j) == rankI
      requires AllPointed(j, live, w, lastIdx[..], lastNet[..])
      modifies lastIdx, lastNet
      ensures AllPointed(j + 1, live, w, lastIdx[..], lastNet[..])
      ensures SlotNet(hands, w, All, rankI, |hands|) - drift == FastValue(hands, w, live, j)
    {
      var h := hands[j];
      HandPoints(j, live, w, lastIdx[..], lastNet[..]);
      drift := 0.0;
      var net := MovePointer(h.high, j, rankI, cardNet, skip, lastIdx, lastNet, live, w);
      drift := drift + net;
      net := MovePointer(h.low, j, rankI, cardNet, skip, lastIdx, lastNet, live, w);
      drift := drift + net;
    }

    /** Hand j has not been evaluated among the first j. */
    lemma {:induction false} NotYet(j: nat, start: seq<real>, value: seq<real>, spent: int)
      requires Prepared(hands, numCards, board) && j < |hands| == |value|
      requires forall i :: 0 <= i < |hands| ==> hands[i].vIdx < |start|
      ensures Evaluated(j, start, value, spent)[hands[j].vIdx] == start[hands[j].vIdx]
    {
      EvaluatedMeans(j, start, value, spent);
    }

    /** Moves the pointer of card c to my hand j, and returns the net it then points to. */
    method MovePointer(c: nat, j: nat, rankI: nat, cardNet: array2<real>, skip: array2<int>,
                       lastIdx: array<int>, lastNet: array<real>, ghost live: seq<bool>, ghost w: seq<real>)
      returns (net: real)
      requires HandTabled(j, cardNet, skip, w) && |live| == |hands| && live[j] && SlotOf(hands, All, j) == rankI
      requires hands[j].Has(c) && lastNet.Length == lastIdx.Length == numCards
      requires Pointed(c, j, live, w, lastIdx[c], lastNet[c])
      modifies lastIdx, lastNet
      ensures net == SlotNet(hands, w, Holding(c), Pointer(hands, live, c, j + 1), |hands|)
      ensures lastIdx[..] == old(lastIdx[..])[c := Pointer(hands, live, c, j + 1)]
      ensures lastNet[..] == old(lastNet[..])[c := net]
    {
      NextRow(c, j, rankI, cardNet, skip, live, w, lastIdx[c], lastNet[c]);
      if skip[lastIdx[c], c] != rankI {
        lastIdx[c] := lastIdx[c] + 1;
        lastNet[c] := cardNet[lastIdx[c], c];
      }
      net := lastNet[c];
    }

    /** The next position of the pointer: the row after it unless the row it is at is named after this rank. */
    lemma NextRow(c: nat, j: nat, rankI: nat, cardNet: array2<real>, skip: array2<int>,
                  live: seq<bool>, w: seq<real>, idx: int, net: real)
      requires HandTabled(j, cardNet, skip, w) && |live| == |hands| && live[j] && SlotOf(hands, All, j) == rankI
      requires hands[j].Has(c) && Pointed(c, j, live, w, idx, net)
      ensures 0 <= idx < maxSlots && c < numCards
      ensures cardNet.Length0 == maxSlots == skip.Length0 && cardNet.Length1 == numCards == skip.Length1
      ensures var next := Pointer(hands, live, c, j + 1);
        && next == (if skip[idx, c] != rankI then idx + 1 else idx) && next < maxSlots
        && cardNet[next, c] == SlotNet(hands, w, Holding(c), next, |hands|)
    {
      assert HandTabledAt(0, j, cardNet, skip, w);
      PointerRow(c, j, live);
      SameSlotSameName(c, j, idx, skip);
    }

    /** Moving the pointers of a hand's two cards points all pointers past it. */
    lemma HandPoints(j: nat, live: seq<bool>, w: seq<real>, idx: seq<int>, net: seq<real>)
      requires Fits() && AllPointed(j, live, w, idx, net) && j < |hands| == |w| == |live| && live[j]
      ensures var h := hands[j];
        && Pointed(h.high, j, live, w, idx[h.high], net[h.high]) && Pointed(h.low, j, live, w, idx[h.low], net[h.low])
        && var p, q := Pointer(hands, live, h.high, j + 1), Pointer(hands, live, h.low, j + 1);
           AllPointed(j + 1, live, w, idx[h.high := p][h.low := q],
                      net[h.high := SlotNet(hands, w, Holding(h.high), p, |hands|)]
                         [h.low := SlotNet(hands, w, Holding(h.low), q, |hands|)])
    {
      var h := hands[j];
      assert PointedAt(h.high, j, live, w, idx, net) && PointedAt(h.low, j, live, w, idx, net);
      OthersStay(j, live, w, idx, net);
    }

    lemma OthersStay(j: nat, live: seq<bool>, w: seq<real>, idx: seq<int>, net: seq<real>)
      requires Fits() && AllPointed(j, live, w, idx, net) && j < |hands| == |w| == |live| && live[j]
      ensures var h := hands[j];
        var p, q := Pointer(hands, live, h.high, j + 1), Pointer(hands, live, h.low, j + 1);
        AllPointed(j + 1, live, w, idx[h.high := p][h.low := q],
                   net[h.high := SlotNet(hands, w, Holding(h.high), p, |hands|)]
                      [h.low := SlotNet(hands, w, Holding(h.low), q, |hands|)])
    {
      var h := hands[j];
      var p, q := Pointer(hands, live, h.high, j + 1), Pointer(hands, live, h.low, j + 1);
      var idx' := idx[h.high := p][h.low := q];
      var net' := net[h.high := SlotNet(hands, w, Holding(h.high), p, |hands|)]
                     [h.low := SlotNet(hands, w, Holding(h.low), q, |hands|)];
      var n := j + 1;
      forall c: nat ensures PointedAt(c, n, live, w, idx', net') {
        assert PointedAt(c, j, live, w, idx, net);
        if c != h.high && c != h.low { StaysPut(c, j, live); }
      }
    }

    /** Hands without the card leave its pointer alone. */
    lemma StaysPut(c: nat, j: nat, live: seq<bool>)
      requires j < |hands| == |live| && c != hands[j].high && c != hands[j].low
      ensures Pointer(hands, live, c, j + 1) == Pointer(hands, live, c, j)
    {
    }

    /** The pointer and its next position are rows of the card's column. */
    lemma PointerRow(c: nat, j: nat, live: seq<bool>)
      requires Fits() && j < |hands| == |live| && live[j] && hands[j].Has(c)
      ensures Pointer(hands, live, c, j) <= Slots(hands, Holding(c), |hands|) - 1
      ensures Pointer(hands, live, c, j + 1) < Rows(c)
    {
      PointerBound(hands, live, c, j);
      PointerBound(hands, live, c, j + 1);
      LastSlot(hands, Holding(c), j + 1);
      SlotsGrow(hands, Holding(c), j + 1, |hands|);
      SlotsGrow(hands, Holding(c), j, |hands|);
    }

    /** The name of a slot of card c is hand j's rank number exactly when it is hand j's slot. */
    lemma SameSlotSameName(c: nat, j: nat, s: int, skip: array2<int>)
      requires Fits() && j < |hands| && hands[j].Has(c) && skip.Length0 == maxSlots && skip.Length1 == numCards
      requires ListNames(c, skip) && 0 <= s < Slots(hands, Holding(c), |hands|)
      ensures s < maxSlots && (skip[s, c] == SlotOf(hands, All, j) <==> s == SlotOf(hands, Holding(c), j))
    {
      var k := SlotInhabited(hands, Holding(c), s, |hands|);
      SlotsLikeRanks(hands, Holding(c), k, j);
      SlotsLikeRanks(hands, All, k, j);
    }

    /** A masked hand leaves all pointers. */
    lemma PassOthers(j: nat, live: seq<bool>, w: seq<real>, idx: seq<int>, net: seq<real>)
      requires AllPointed(j, live, w, idx, net) && j < |hands| == |live| == |w| && !live[j]
      ensures AllPointed(j + 1, live, w, idx, net)
    {
      var n := j + 1;
      forall c: nat ensures PointedAt(c, n, live, w, idx, net) { assert PointedAt(c, j, live, w, idx, net); }
    }

    // -------------------------------------------------------------- the two showdown evaluations agree

    lemma {:induction false} SameValuesSameRange(start: seq<real>, u: seq<real>, v: seq<real>, spent: int, n: nat)
      requires Prepared(hands, numCards, board) && |u| == |v| == |hands| && n <= |hands|
      requires forall j :: 0 <= j < |hands| ==> hands[j].vIdx < |start|
      requires forall j :: 0 <= j < |hands| && start[hands[j].vIdx] != BELIEF_MASK ==> u[j] == v[j]
      ensures Evaluated(n, start, u, spent) == Evaluated(n, start, v, spent)
    {
      if n > 0 {
        SameValuesSameRange(start, u, v, spent, n - 1);
        NotYet(n - 1, start, v, spent);
      }
    }

    /** With no slot of any card skipped, both evaluations leave the same range. */
    lemma ShowdownEvalsAgree(w: seq<real>, start: seq<real>, live: seq<bool>, spent: int)
      requires Prepared(hands, numCards, board) && |live| == |hands| == |w|
      requires forall j :: 0 <= j < |hands| ==>
        hands[j].vIdx < |start| && (live[j] <==> start[hands[j].vIdx] != BELIEF_MASK)
      requires forall c: nat, i: nat :: NoGapAt(hands, live, c, i)
      ensures Evaluated(|hands|, start, FastValues(w, live), spent) ==
        Evaluated(|hands|, start, ShowdownValues(w), spent)
    {
      var u, v := FastValues(w, live), ShowdownValues(w);
      forall j | 0 <= j < |hands| && start[hands[j].vIdx] != BELIEF_MASK ensures u[j] == v[j] {
        ExactHand(hands, numCards, board, live, j, w);
      }
      SameValuesSameRange(start, u, v, spent, |hands|);
    }

    /** As in the alternate walk, which masks no hand of mine that avoids the board. */
    lemma UnmaskedEvalsAgree(w: seq<real>, start: seq<real>, live: seq<bool>, spent: int)
      requires Prepared(hands, numCards, board) && |live| == |hands| == |w|
      requires forall j :: 0 <= j < |hands| ==>
        hands[j].vIdx < |start| && start[hands[j].vIdx] != BELIEF_MASK && live[j]
      ensures Evaluated(|hands|, start, FastValues(w, live), spent) ==
        Evaluated(|hands|, start, ShowdownValues(w), spent)
    {
      forall c: nat, i: nat ensures NoGapAt(hands, live, c, i) { UnmaskedHasNoGap(hands, live, c, i); }
      ShowdownEvalsAgree(w, start, live, spent);
    }

    // -------------------------------------------------------------- when a player folded

    /** My hands are the indices of their cards, in ranges over all hands of the deck. */
    ghost predicate Indexed(opp: array<real>, my: array<real>) {
      && Beliefs(opp, my) && opp.Length == Cards.Pairs(numCards)
      && forall j :: 0 <= j < |hands| ==> hands[j].vIdx == Cards.ToVectorIndex(hands[j].high, hands[j].low)
    }

    ghost function FoldValues(opp: seq<real>): (v: seq<real>)
      requires forall j :: 0 <= j < |hands| ==> hands[j].vIdx < |opp|
      ensures |v| == |hands| && forall j :: 0 <= j < |hands| ==> v[j] == FastFold(opp, hands[j].vIdx)
    {
      seq(|hands|, j requires 0 <= j < |hands| => FastFold(opp, hands[j].vIdx))
    }

    /** StackFoldingProb: the whole range, and what each card takes away. */
    method StackFoldingProb(opp: array<real>, drift: array<real>) returns (sum: real)
      requires drift.Length == numCards && opp.Length == Cards.Pairs(numCards) && opp != drift
      requires forall c :: 0 <= c < numCards ==> drift[c] == 0.0
      modifies drift
      ensures sum == Total(opp[..], opp.Length)
      ensures forall c :: 0 <= c < numCards ==> drift[c] == WithCard(opp[..], c, opp.Length)
    {
      sum := 0.0;
      for i := 0 to opp.Length
        invariant opp[..] == old(opp[..])
        invariant sum == Total(opp[..], i)
        invariant forall c :: 0 <= c < numCards ==> drift[c] == WithCard(opp[..], c, i)
      {
        var w := opp[i];
        if w > 0.0 {
          sum := sum + w;
          ghost var high, low := Cards.IndexOfPair(i);
          assert high < numCards;
          var highLow := Cards.FromVectorIndex(i);
          drift[highLow.0] := drift[highLow.0] + w;
          drift[highLow.1] := drift[highLow.1] + w;
        }
      }
    }

    /** FastFoldEval. */
    method FastFoldEval(opp: array<real>, my: array<real>, spent: int)
      requires Fits() && Indexed(opp, my)
      modifies my
      ensures my[..] == Evaluated(|hands|, old(my[..]), FoldValues(opp[..]), spent)
    {
      var drift := new real[numCards](_ => 0.0);
      var base := StackFoldingProb(opp, drift);
      ghost var w, start := opp[..], my[..];
      FoldBegins(w, start, spent);
      for myPos := 0 to |hands|
        invariant opp[..] == w && FoldedTo(myPos, w, start, spent, my[..])
        modifies my
      {
        FoldOne(myPos, opp, my, spent, drift, base, start);
      }
      assert FoldedToAt(0, |hands|, w, start, spent, my[..]);
    }

    /** My first n hands are evaluated against a fold. */
    ghost predicate FoldedTo(n: nat, w: seq<real>, start: seq<real>, spent: int, my: seq<real>) {
      forall k: nat :: FoldedToAt(k, n, w, start, spent, my)
    }

    ghost predicate FoldedToAt(k: nat, n: nat, w: seq<real>, start: seq<real>, spent: int, my: seq<real>) {
      && n <= |hands| && (forall j :: 0 <= j < |hands| ==> hands[j].vIdx < |w| && hands[j].vIdx < |start|)
      && my == Evaluated(n, start, FoldValues(w), spent)
    }

    lemma FoldBegins(w: seq<real>, start: seq<real>, spent: int)
      requires forall j :: 0 <= j < |hands| ==> hands[j].vIdx < |w| && hands[j].vIdx < |start|
      ensures FoldedTo(0, w, start, spent, start)
    {
    }

    lemma FoldStep(n: nat, w: seq<real>, start: seq<real>, spent: int, my: seq<real>)
      requires n < |hands| && FoldedTo(n, w, start, spent, my) && hands[n].vIdx < |my| && hands[n].vIdx < |w|
      ensures var v := hands[n].vIdx;
        FoldedTo(n + 1, w, start, spent, if my[v] == BELIEF_MASK then my else my[v := Pay(FastFold(w, v), spent)])
    {
      assert FoldedToAt(0, n, w, start, spent, my);
      EvaluatedStep(n, start, FoldValues(w), spent, my);
    }

    method FoldOne(myPos: nat, opp: array<real>, my: array<real>, spent: int, drift: array<real>, base: real,
                   ghost start: seq<real>)
      requires Fits() && Indexed(opp, my) && myPos < |hands| && drift.Length == numCards && my != drift
      requires base == Total(opp[..], opp.Length)
      requires forall c :: 0 <= c < numCards ==> drift[c] == WithCard(opp[..], c, opp.Length)
      requires FoldedTo(myPos, opp[..], start, spent, my[..])
      modifies my
      ensures FoldedTo(myPos + 1, opp[..], start, spent, my[..])
    {
      FoldStep(myPos, opp[..], start, spent, my[..]);
      var v := hands[myPos].vIdx;
      if my[v] != BELIEF_MASK {
        var net := FoldNet(myPos, opp, drift, base);
        SetResult(my, v, Pay(net, spent));
      }
    }

    method FoldNet(myPos: nat, opp: array<real>, drift: array<real>, base: real) returns (net: real)
      requires Fits() && myPos < |hands| && hands[myPos].vIdx < opp.Length && drift.Length == numCards
      requires hands[myPos].vIdx == Cards.ToVectorIndex(hands[myPos].high, hands[myPos].low)
      requires base == Total(opp[..], opp.Length)
      requires forall c :: 0 <= c < numCards ==> drift[c] == WithCard(opp[..], c, opp.Length)
      ensures net == FastFold(opp[..], hands[myPos].vIdx)
    {
      var v := hands[myPos].vIdx;
      Cards.IndexRoundTrip(hands[myPos].high, hands[myPos].low);
      var highLow := Cards.FromVectorIndex(v);
      var totalDrift := drift[highLow.0] + drift[highLow.1] - opp[v];
      net := base - totalDrift;
    }

    /** NaiveFoldEval, which evaluates every hand of the deck. */
    method NaiveFoldEval(opp: array<real>, my: array<real>, spent: int)
      requires opp != my && opp.Length == my.Length
      modifies my
      ensures forall v :: 0 <= v < my.Length ==>
        my[v] == if old(my[v]) == BELIEF_MASK then old(my[v]) else Pay(FoldSum(opp[..], v, opp.Length), spent)
    {
      for myPos := 0 to my.Length
        invariant forall v :: 0 <= v < my.Length ==>
          my[v] == if v >= myPos || old(my[v]) ==
            BELIEF_MASK then old(my[v]) else Pay(FoldSum(opp[..], v, opp.Length), spent)
      {
        if my[myPos] == BELIEF_MASK {
          continue;
        }
        var sum := 0.0;
        for oppPos := 0 to opp.Length
          invariant sum == FoldSum(opp[..], myPos, oppPos)
        {
          if myPos == oppPos || Cards.VectorIdxClash(myPos, oppPos) {
            continue;
          }
          var weight := opp[oppPos];
          if weight > 0.0 {
            sum := sum + weight;
          }
        }
        my[myPos] := Pay(sum, spent);
      }
    }
  }

  /** The tests of the pairwise loop, in order, come to Duel. */
  lemma DuelSteps(hands: seq<HandAndRank>, numCards: nat, board: set<nat>, i: nat, j: nat, w: real)
    requires Prepared(hands, numCards, board) && i < |hands| && j < |hands|
    ensures Duel(hands[i], hands[j], w) ==
      if i == j || w == 0.0 || hands[i].rank == hands[j].rank || hands[i].CardCrash(hands[j]) then 0.0
      else if i > j then w else -w
  {
    CrashIsSharing(hands[i], hands[j]);
  }

  lemma ListIsRight(hands: seq<HandAndRank>, skip: seq<int>, c: nat)
    requires SkipsRight(hands, skip, c, |hands|)
    ensures forall j :: 0 <= j < |hands| && hands[j].Has(c) ==>
      var s := SlotOf(hands, Holding(c), j);
      0 <= s < |skip| && skip[s] == SlotOf(hands, All, j)
  {
  }

  lemma SlotNames(hands: seq<HandAndRank>, skip: seq<int>, c: nat, k: nat)
    requires SkipsRight(hands, skip, c, |hands|) && k < |hands| && hands[k].Has(c)
    ensures 0 <= SlotOf(hands, Holding(c), k) < |skip|
    ensures skip[SlotOf(hands, Holding(c), k)] == SlotOf(hands, All, k) >= 0
  {
    LastSlot(hands, All, k + 1);
  }

  /** The skip list ends exactly after its slots. */
  lemma SkipEnds(hands: seq<HandAndRank>, skip: seq<int>, c: nat, s: nat)
    requires Sorted(hands) && SkipsRight(hands, skip, c, |hands|) && s < |skip|
    ensures skip[s] == -1 <==> s >= Slots(hands, Holding(c), |hands|)
  {
    if s < Slots(hands, Holding(c), |hands|) {
      var k := SlotInhabited(hands, Holding(c), s, |hands|);
      SlotNames(hands, skip, c, k);
    }
  }

  // ---------------------------------------------------------------- how many rows the tables need

  /** Where the walk along a skip list stops: the first empty row from s on, or the end of the table. */
  function WalkEnd(skip: seq<int>, s: nat): (e: nat)
    decreases |skip| - s
  {
    if s >= |skip| || skip[s] == -1 then s else WalkEnd(skip, s + 1)
  }

  /** As many rows as ranks hold the list; the walk, which looks for an empty row, needs one row more. */
  lemma {:induction false} WalkStaysInside(hands: seq<HandAndRank>, skip: seq<int>, c: nat, s: nat)
    requires Sorted(hands) && SkipsRight(hands, skip, c, |hands|) && s < |skip|
    requires s <= 1 || s <= Slots(hands, Holding(c), |hands|)
    ensures WalkEnd(skip, s) < |skip| <==> Slots(hands, Holding(c), |hands|) < |skip|
    decreases |skip| - s
  {
    SlotsFit(hands, skip, c, |hands|);
    SkipEnds(hands, skip, c, s);
    if skip[s] != -1 && s + 1 < |skip| { WalkStaysInside(hands, skip, c, s + 1); }
  }

  lemma SlotsFit(hands: seq<HandAndRank>, skip: seq<int>, c: nat, n: nat)
    requires n <= |hands| && SkipsRight(hands, skip, c, n)
    ensures Slots(hands, Holding(c), n) <= |skip|
  {
    LastSlot(hands, Holding(c), n);
  }

  /** A table of as many rows as ranks is filled without leaving it. */
  lemma {:induction false} ListFits(hands: seq<HandAndRank>, c: nat, rows: nat, n: nat) returns (skip: seq<int>)
    requires Sorted(hands) && n <= |hands| && Slots(hands, Holding(c), n) <= rows
    ensures |skip| == rows && SkipsRight(hands, skip, c, n)
  {
    if n == 0 {
      skip := seq(rows, _ => -1);
    } else {
      SlotsGrow(hands, Holding(c), n - 1, n);
      skip := ListFits(hands, c, rows, n - 1);
      if hands[n - 1].Has(c) {
        SkipStep(hands, skip, c, n - 1);
        skip := skip[SlotOf(hands, Holding(c), n - 1) := SlotOf(hands, All, n - 1)];
      }
    }
  }

  /** The hands of card 0 with n other cards, all of different ranks. */
  function Star(n: nat): seq<HandAndRank> {
    seq(n, k requires 0 <= k < n => HandAndRank(k + 1, 0, k, k))
  }

  lemma {:induction false} StarSlots(n: nat, m: nat)
    requires m <= n
    ensures Slots(Star(n), Holding(0), m) == m
  {
    if m > 0 { StarSlots(n, m - 1); }
  }

  lemma StarSorted(n: nat)
    ensures |Star(n)| == n && Sorted(Star(n))
  {
  }

  lemma StarPrepared(n: nat, numCards: nat, board: set<nat>)
    requires 0 < n < numCards && forall b :: b in board ==> n < b
    ensures Prepared(Star(n), numCards, board)
  {
  }

  /**
    One card can come in as many ranks as there are other cards off the board, 46 of 52 on a board of five: the
    walk then runs past a table of n rows, which held its list.
   */
  lemma WalkRunsPast(n: nat, numCards: nat, board: set<nat>) returns (skip: seq<int>)
    requires 2 <= n < numCards && forall b :: b in board ==> n < b
    ensures Prepared(Star(n), numCards, board)
    ensures |skip| == n == Slots(Star(n), Holding(0), n) && SkipsRight(Star(n), skip, 0, n) && WalkEnd(skip, 1) >= n
  {
    hide Prepared, Star, SkipsRight, Slots;
    StarPrepared(n, numCards, board);
    StarSlots(n, n);
    assert Sorted(Star(n)) && |Star(n)| == n by { StarSorted(n); }
    skip := ListFits(Star(n), 0, n, n);
    WalkStaysInside(Star(n), skip, 0, 1);
  }

  /** The tables of one card: its last slot, its summed weight, and rank and weight of each slot. */
  datatype Column = Column(last: int, sum: real, skip: seq<int>, slots: seq<real>)
  {
    predicate Room() { -1 <= last && last + 1 < |skip| == |slots| }

    /** What AddCard does to the column. */
    function Add(rankI: int, weight: real): Column
      requires Room()
    {
      var s := if last < 0 || skip[last] != rankI then last + 1 else last;
      Column(s, sum + weight, skip[s := rankI], slots[s := slots[s] + weight])
    }
  }

  /** The tables of card c after the first n hands. */
  ghost predicate Tallied(hands: seq<HandAndRank>, col: Column, c: nat, n: nat, w: seq<real>) {
    && n <= |hands| == |w|
    && col.last == Slots(hands, Holding(c), n) - 1
    && SumsRight(hands, col, c, n, w)
    && SkipsRight(hands, col.skip, c, n)
  }

  ghost predicate SumsRight(hands: seq<HandAndRank>, col: Column, c: nat, n: nat, w: seq<real>)
    requires n <= |hands| == |w|
  {
    && col.sum == PickSum(hands, w, Holding(c), n)
    && forall s :: 0 <= s < |col.slots| ==> col.slots[s] == SlotSum(hands, w, Holding(c), s, n)
  }

  /** The skip list of card c names the rank of each of its slots, and ends with -1. */
  ghost predicate SkipsRight(hands: seq<HandAndRank>, skip: seq<int>, c: nat, n: nat)
    requires n <= |hands|
  {
    && (forall s :: Slots(hands, Holding(c), n) <= s < |skip| ==> skip[s] == -1)
    && forall j :: 0 <= j < n && hands[j].Has(c) ==>
         var s := SlotOf(hands, Holding(c), j);
         0 <= s < |skip| && skip[s] == SlotOf(hands, All, j)
  }

  /** Hand j goes to its slot, a new one exactly when its rank is not that of the last slot. */
  lemma FindSlot(hands: seq<HandAndRank>, col: Column, c: nat, j: nat, w: seq<real>)
    requires Sorted(hands) && Tallied(hands, col, c, j, w) && j < |hands| && hands[j].Has(c)
    requires Slots(hands, Holding(c), j + 1) < |col.skip| == |col.slots|
    ensures col.Room() && SlotOf(hands, Holding(c), j) ==
      (if col.last < 0 || col.skip[col.last] != SlotOf(hands, All, j) then col.last + 1 else col.last)
  {
    SlotStep(hands, c, j);
    var l := LastIdx(hands, Holding(c), j);
    assert l >= 0 ==> col.skip[SlotOf(hands, Holding(c), l)] == SlotOf(hands, All, l);
  }

  lemma SkipStep(hands: seq<HandAndRank>, skip: seq<int>, c: nat, j: nat)
    requires Sorted(hands) && j < |hands| && hands[j].Has(c) && SkipsRight(hands, skip, c, j)
    requires SlotOf(hands, Holding(c), j) < |skip|
    ensures 0 <= SlotOf(hands, Holding(c), j)
    ensures SkipsRight(hands, skip[SlotOf(hands, Holding(c), j) := SlotOf(hands, All, j)], c, j + 1)
  {
    SlotStep(hands, c, j);
    var s := SlotOf(hands, Holding(c), j);
    var after := skip[s := SlotOf(hands, All, j)];
    forall i | 0 <= i < j + 1 && hands[i].Has(c)
      ensures 0 <= SlotOf(hands, Holding(c), i) < |skip|
      ensures after[SlotOf(hands, Holding(c), i)] == SlotOf(hands, All, i)
    {
      SlotsLikeRanks(hands, Holding(c), i, j);
      SlotsLikeRanks(hands, All, i, j);
    }
  }

  lemma TallyStep(hands: seq<HandAndRank>, col: Column, c: nat, j: nat, w: seq<real>)
    requires Sorted(hands) && Tallied(hands, col, c, j, w) && j < |hands| && hands[j].Has(c)
    requires Slots(hands, Holding(c), j + 1) < |col.skip| == |col.slots|
    ensures col.Room() && Tallied(hands, col.Add(SlotOf(hands, All, j), w[j]), c, j + 1, w)
  {
    FindSlot(hands, col, c, j, w);
    SkipStep(hands, col.skip, c, j);
  }

  lemma TallySkip(hands: seq<HandAndRank>, col: Column, c: nat, j: nat, w: seq<real>)
    requires Tallied(hands, col, c, j, w) && j < |hands| && !hands[j].Has(c)
    ensures Tallied(hands, col, c, j + 1, w)
  {
  }

  /** Hand j opens a new slot of its card exactly when its rank is not the one of the card's last slot. */
  lemma SlotStep(hands: seq<HandAndRank>, c: nat, j: nat)
    requires Sorted(hands) && j < |hands| && hands[j].Has(c)
    ensures var l, pick := LastIdx(hands, Holding(c), j), Holding(c);
      && Slots(hands, pick, j + 1) == Slots(hands, pick, j) + (if NewSlot(hands, pick, j) then 1 else 0) > 0
      && (l < 0 ==> Slots(hands, pick, j) == 0)
      && (l >= 0 ==> SlotOf(hands, pick, l) == Slots(hands, pick, j) - 1 >= 0
                     && (NewSlot(hands, pick, j) <==> SlotOf(hands, All, l) != SlotOf(hands, All, j)))
  {
    var pick := Holding(c);
    LastSlot(hands, pick, j);
    var l := LastIdx(hands, pick, j);
    if l >= 0 { SlotsLikeRanks(hands, All, l, j); }
  }

  lemma {:induction false} BeforeGrows(hands: seq<HandAndRank>, k: int, n: nat)
    requires n <= |hands|
    ensures Before(hands, k, n) <= Before(hands, k + 1, n)
  {
    if n > 0 { BeforeGrows(hands, k, n - 1); }
  }

  lemma InGroup(hands: seq<HandAndRank>, k: int, j: nat)
    requires Before(hands, k, |hands|) <= j < Before(hands, k + 1, |hands|)
    ensures SlotOf(hands, All, j) == k
  {
    BeforeComesFirst(hands, k, j, |hands|);
    BeforeComesFirst(hands, k + 1, j, |hands|);
  }

  lemma AllBeforeEnd(hands: seq<HandAndRank>)
    requires hands != []
    ensures Before(hands, Slots(hands, All, |hands|), |hands|) == |hands|
  {
    AllBefore(hands, Slots(hands, All, |hands|), |hands|);
  }

  lemma {:induction false} GroupSum(hands: seq<HandAndRank>, w: seq<real>, k: int, n: nat)
    requires |w| == |hands| && Before(hands, k, |hands|) <= n <= Before(hands, k + 1, |hands|)
    ensures PickSum(hands, w, All, n) ==
      PickSum(hands, w, All, Before(hands, k, |hands|)) + SlotSum(hands, w, All, k, n)
  {
    if n == Before(hands, k, |hands|) {
      NothingYet(hands, w, k, n);
    } else {
      GroupSum(hands, w, k, n - 1);
      InGroup(hands, k, n - 1);
    }
  }

  lemma RankSum(hands: seq<HandAndRank>, w: seq<real>, k: int)
    requires |w| == |hands|
    ensures var b, e := Before(hands, k, |hands|), Before(hands, k + 1, |hands|);
      PickSum(hands, w, All, e) == PickSum(hands, w, All, b) + SlotSum(hands, w, All, k, e)
  {
    BeforeGrows(hands, k, |hands|);
    GroupSum(hands, w, k, Before(hands, k + 1, |hands|));
  }

  lemma {:induction false} NoneBefore(hands: seq<HandAndRank>, n: nat)
    requires n <= |hands|
    ensures Before(hands, 0, n) == 0
  {
    if n > 0 {
      NoneBefore(hands, n - 1);
      LastSlot(hands, All, n);
    }
  }

  lemma {:induction false} NothingYet(hands: seq<HandAndRank>, w: seq<real>, k: int, n: nat)
    requires |w| == |hands| && n <= Before(hands, k, |hands|)
    ensures SlotSum(hands, w, All, k, n) == 0.0
  {
    if n > 0 {
      NothingYet(hands, w, k, n - 1);
      BeforeComesFirst(hands, k, n - 1, |hands|);
    }
  }

  /** Tallying hand j for its two cards tallies it for every card. */
  lemma TallyHand(hands: seq<HandAndRank>, cols: seq<Column>, numCards: nat, board: set<nat>, maxSlots: nat, j: nat,
                  w: seq<real>)
    requires Prepared(hands, numCards, board) && j < |hands| == |w| && |cols| == numCards
    requires forall c: nat :: c < numCards ==> Slots(hands, Holding(c), |hands|) < maxSlots
    requires forall c :: 0 <= c < numCards ==> |cols[c].skip| == |cols[c].slots| == maxSlots
    requires forall c :: 0 <= c < numCards ==> Tallied(hands, cols[c], c, j, w)
    ensures var h, r := hands[j], SlotOf(hands, All, j);
      && cols[h.high].Room() && cols[h.low].Room()
      && var after := cols[h.high := cols[h.high].Add(r, w[j])][h.low := cols[h.low].Add(r, w[j])];
         forall c :: 0 <= c < numCards ==> Tallied(hands, after[c], c, j + 1, w)
  {
    var h := hands[j];
    SlotsGrow(hands, Holding(h.high), j + 1, |hands|);
    SlotsGrow(hands, Holding(h.low), j + 1, |hands|);
    TallyStep(hands, cols[h.high], h.high, j, w);
    TallyStep(hands, cols[h.low], h.low, j, w);
    forall c: nat | c < numCards && c != h.high && c != h.low ensures Tallied(hands, cols[c], c, j + 1, w) {
      TallySkip(hands, cols[c], c, j, w);
    }
  }
}
