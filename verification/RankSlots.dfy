/**
  The combinatorics of modules/engine/src/term_eval_kernel.cpp: hands sorted by rank, the groups of
  equal rank (for all hands, or for the hands holding one card), and why the net weight below minus
  above a rank can be summed up group by group.
 */
module RankSlots {

  datatype HandAndRank = HandAndRank(high: nat, low: nat, rank: int, vIdx: nat)
  {
    predicate Has(c: nat) { high == c || low == c }

    /** CardCrash, with its early exits. */
    predicate CardCrash(that: HandAndRank) {
      if high < that.low then false
      else if low > that.high then false
      else Has(that.high) || Has(that.low)
    }
  }

  /** All hands, or the hands holding a card. */
  datatype Pick = All | Holding(card: nat)
  {
    predicate Of(h: HandAndRank) { All? || h.Has(card) }
  }

  /** What Prepare and Sort leave: the hands that avoid the board, each once, by ascending rank. */
  ghost predicate Prepared(hands: seq<HandAndRank>, numCards: nat, board: set<nat>) {
    && hands != []
    && (forall j :: 0 <= j < |hands| ==>
          hands[j].low < hands[j].high < numCards && hands[j].high !in board && hands[j].low !in board)
    && Sorted(hands)
    && (forall i, j :: 0 <= i < j < |hands| ==>
          hands[i].vIdx != hands[j].vIdx && (hands[i].high != hands[j].high || hands[i].low != hands[j].low))
  }

  ghost predicate Sorted(hands: seq<HandAndRank>) {
    forall i, j :: 0 <= i < j < |hands| ==> hands[i].rank <= hands[j].rank
  }

  lemma CrashIsSharing(a: HandAndRank, b: HandAndRank)
    requires a.low < a.high && b.low < b.high
    ensures a.CardCrash(b) <==> a.Has(b.high) || a.Has(b.low)
  {
  }

  // ---------------------------------------------------------------- what a showdown is worth

  /** What opponent hand j with weight w is worth to hand i. */
  function Duel(mine: HandAndRank, opp: HandAndRank, w: real): real {
    if mine.Has(opp.high) || mine.Has(opp.low) then 0.0 else Signed(opp.rank, mine.rank, w)
  }

  function Signed(a: int, b: int, w: real): real {
    if a < b then w else if a > b then -w else 0.0
  }

  /** Hand i against the first n opponent hands, pair by pair. */
  function Showdown(hands: seq<HandAndRank>, w: seq<real>, i: nat, n: nat): real
    requires i < |hands| == |w| && n <= |hands|
  {
    if n == 0 then 0.0 else Showdown(hands, w, i, n - 1) + Duel(hands[i], hands[n - 1], w[n - 1])
  }

  /** Weight below rank r minus weight above it, among the picked hands. */
  function Net(hands: seq<HandAndRank>, w: seq<real>, pick: Pick, r: int, n: nat): real
    requires n <= |hands| == |w|
  {
    if n == 0 then 0.0
    else Net(hands, w, pick, r, n - 1) + if pick.Of(hands[n - 1]) then Signed(hands[n - 1].rank, r, w[n - 1]) else 0.0
  }

  /** All hands, less those holding one of my cards: nothing is taken off twice but my own hand, which counts zero. */
  lemma {:induction false} ShowdownByCards(hands: seq<HandAndRank>, w: seq<real>, numCards: nat, board: set<nat>,
                                           i: nat, n: nat)
    requires Prepared(hands, numCards, board) && i < |hands| == |w| && n <= |hands|
    ensures Showdown(hands, w, i, n) ==
      Net(hands, w, All, hands[i].rank, n)
      - Net(hands, w, Holding(hands[i].high), hands[i].rank, n)
      - Net(hands, w, Holding(hands[i].low), hands[i].rank, n)
  {
    if n > 0 {
      ShowdownByCards(hands, w, numCards, board, i, n - 1);
      var opp := hands[n - 1];
      if opp.Has(hands[i].high) && opp.Has(hands[i].low) { assert n - 1 == i; }
    }
  }

  // ---------------------------------------------------------------- groups of equal rank

  /** The last picked hand among the first n, or -1. */
  function LastIdx(hands: seq<HandAndRank>, pick: Pick, n: nat): (i: int)
    requires n <= |hands|
    ensures -1 <= i < n
    ensures i >= 0 ==> pick.Of(hands[i])
    ensures forall j :: i < j < n ==> !pick.Of(hands[j])
  {
    if n == 0 then -1 else if pick.Of(hands[n - 1]) then n - 1 else LastIdx(hands, pick, n - 1)
  }

  /** Picked hand j has another rank than the picked hand before it. */
  predicate NewSlot(hands: seq<HandAndRank>, pick: Pick, j: nat)
    requires j < |hands|
  {
    pick.Of(hands[j]) &&
    var last := LastIdx(hands, pick, j);
    last < 0 || hands[last].rank != hands[j].rank
  }

  /** The number of different ranks among the picked ones of the first n hands. */
  function Slots(hands: seq<HandAndRank>, pick: Pick, n: nat): nat
    requires n <= |hands|
  {
    if n == 0 then 0 else Slots(hands, pick, n - 1) + if NewSlot(hands, pick, n - 1) then 1 else 0
  }

  /** The position of hand j's rank among the ranks of the picked hands. */
  function SlotOf(hands: seq<HandAndRank>, pick: Pick, j: nat): int
    requires j < |hands|
  {
    Slots(hands, pick, j + 1) - 1
  }

  lemma {:induction false} SlotsGrow(hands: seq<HandAndRank>, pick: Pick, m: nat, n: nat)
    requires m <= n <= |hands|
    ensures Slots(hands, pick, m) <= Slots(hands, pick, n)
  {
    if m < n { SlotsGrow(hands, pick, m, n - 1); }
  }

  lemma {:induction false} LastSlot(hands: seq<HandAndRank>, pick: Pick, n: nat)
    requires n <= |hands|
    ensures LastIdx(hands, pick, n) < 0 ==> Slots(hands, pick, n) == 0
    ensures LastIdx(hands, pick, n) >= 0 ==>
      SlotOf(hands, pick, LastIdx(hands, pick, n)) == Slots(hands, pick, n) - 1 >= 0
  {
    if n > 0 && !pick.Of(hands[n - 1]) { LastSlot(hands, pick, n - 1); }
    else if n > 0 {
      LastSlot(hands, pick, n - 1);
    }
  }

  /** Slots are ordered as the ranks are. */
  lemma {:induction false} SlotOrder(hands: seq<HandAndRank>, pick: Pick, i: nat, j: nat)
    requires Sorted(hands) && i <= j < |hands| && pick.Of(hands[i]) && pick.Of(hands[j])
    ensures SlotOf(hands, pick, i) <= SlotOf(hands, pick, j)
    ensures SlotOf(hands, pick, i) == SlotOf(hands, pick, j) <==> hands[i].rank == hands[j].rank
    decreases j
  {
    if i < j {
      var last := LastIdx(hands, pick, j);
      assert i <= last;
      SlotOrder(hands, pick, i, last);
      LastSlot(hands, pick, j);
    }
  }

  /** The summed weight of slot s. */
  function SlotSum(hands: seq<HandAndRank>, w: seq<real>, pick: Pick, s: int, n: nat): real
    requires n <= |hands| == |w|
  {
    if n == 0 then 0.0
    else SlotSum(hands, w, pick, s, n - 1)
         + if pick.Of(hands[n - 1]) && SlotOf(hands, pick, n - 1) == s then w[n - 1] else 0.0
  }

  function PickSum(hands: seq<HandAndRank>, w: seq<real>, pick: Pick, n: nat): real
    requires n <= |hands| == |w|
  {
    if n == 0 then 0.0 else PickSum(hands, w, pick, n - 1) + if pick.Of(hands[n - 1]) then w[n - 1] else 0.0
  }

  /** Weight in lower slots minus weight in higher slots. */
  function SlotNet(hands: seq<HandAndRank>, w: seq<real>, pick: Pick, s: int, n: nat): real
    requires n <= |hands| == |w|
  {
    if n == 0 then 0.0
    else SlotNet(hands, w, pick, s, n - 1)
         + if pick.Of(hands[n - 1]) then Signed(SlotOf(hands, pick, n - 1), s, w[n - 1]) else 0.0
  }

  /** The first net: everything but slot 0 lies above. */
  lemma {:induction false} FirstSlotNet(hands: seq<HandAndRank>, w: seq<real>, pick: Pick, n: nat)
    requires n <= |hands| == |w|
    ensures SlotNet(hands, w, pick, 0, n) == SlotSum(hands, w, pick, 0, n) - PickSum(hands, w, pick, n)
  {
    if n > 0 {
      FirstSlotNet(hands, w, pick, n - 1);
      if pick.Of(hands[n - 1]) { LastSlot(hands, pick, n); }
    }
  }

  /** Moving up one slot passes that slot and the one before. */
  lemma {:induction false} NextSlotNet(hands: seq<HandAndRank>, w: seq<real>, pick: Pick, s: int, n: nat)
    requires n <= |hands| == |w|
    ensures SlotNet(hands, w, pick, s, n) ==
      SlotNet(hands, w, pick, s - 1, n) + SlotSum(hands, w, pick, s - 1, n) + SlotSum(hands, w, pick, s, n)
  {
    if n > 0 { NextSlotNet(hands, w, pick, s, n - 1); }
  }

  /** The net of hand i's slot is the net of its rank. */
  lemma {:induction false} SlotNetIsNet(hands: seq<HandAndRank>, w: seq<real>, pick: Pick, i: nat, n: nat)
    requires Sorted(hands) && i < |hands| == |w| && n <= |hands| && pick.Of(hands[i])
    ensures SlotNet(hands, w, pick, SlotOf(hands, pick, i), n) == Net(hands, w, pick, hands[i].rank, n)
  {
    if n > 0 {
      SlotNetIsNet(hands, w, pick, i, n - 1);
      if pick.Of(hands[n - 1]) { SlotsLikeRanks(hands, pick, n - 1, i); }
    }
  }

  lemma SlotsLikeRanks(hands: seq<HandAndRank>, pick: Pick, j: nat, i: nat)
    requires Sorted(hands) && i < |hands| && j < |hands| && pick.Of(hands[i]) && pick.Of(hands[j])
    ensures SlotOf(hands, pick, j) < SlotOf(hands, pick, i) <==> hands[j].rank < hands[i].rank
    ensures SlotOf(hands, pick, j) == SlotOf(hands, pick, i) <==> hands[j].rank == hands[i].rank
  {
    if j <= i { SlotOrder(hands, pick, j, i); } else { SlotOrder(hands, pick, i, j); }
  }

  /** How many of the first n hands have a rank before rank number k. */
  function Before(hands: seq<HandAndRank>, k: int, n: nat): (b: nat)
    requires n <= |hands|
    ensures b <= n
  {
    if n == 0 then 0 else Before(hands, k, n - 1) + if SlotOf(hands, All, n - 1) < k then 1 else 0
  }

  /** The hands before rank number k come first. */
  lemma {:induction false} BeforeComesFirst(hands: seq<HandAndRank>, k: int, j: nat, n: nat)
    requires j < n <= |hands|
    ensures j < Before(hands, k, n) <==> SlotOf(hands, All, j) < k
  {
    SlotsGrow(hands, All, j + 1, n);
    if j < n - 1 {
      BeforeComesFirst(hands, k, j, n - 1);
    } else if SlotOf(hands, All, j) < k {
      AllBefore(hands, k, n);
    }
  }

  lemma {:induction false} AllBefore(hands: seq<HandAndRank>, k: int, n: nat)
    requires n <= |hands| && (n > 0 ==> SlotOf(hands, All, n - 1) < k)
    ensures Before(hands, k, n) == n
  {
    if n > 1 { SlotsGrow(hands, All, n - 1, n); }
    if n > 0 { AllBefore(hands, k, n - 1); }
  }

  /** The rank number of hand i, from that of the hand before; a new rank starts at i. */
  lemma RankStep(hands: seq<HandAndRank>, i: nat)
    requires i < |hands|
    ensures SlotOf(hands, All, i) < Slots(hands, All, |hands|)
    ensures i == 0 ==> SlotOf(hands, All, i) == 0 == Before(hands, 0, |hands|)
    ensures i > 0 ==>
      SlotOf(hands, All, i) == SlotOf(hands, All, i - 1) + if hands[i].rank != hands[i - 1].rank then 1 else 0
    ensures i > 0 && hands[i].rank != hands[i - 1].rank ==> Before(hands, SlotOf(hands, All, i), |hands|) == i
  {
    SlotsGrow(hands, All, i + 1, |hands|);
    assert LastIdx(hands, All, i) == i - 1;
    var k := SlotOf(hands, All, i);
    BeforeComesFirst(hands, k, i, |hands|);
    if i > 0 { BeforeComesFirst(hands, k, i - 1, |hands|); }
  }

  // ---------------------------------------------------------------- the pointer into a card's skip list

  /**
    Where FastShowdownEval's pointer for card c stands after the first n of my hands: a hand that is
    evaluated moves it by at most one.  live[j] says that my hand j is not masked.
   */
  function Pointer(hands: seq<HandAndRank>, live: seq<bool>, c: nat, n: nat): nat
    requires n <= |hands| == |live|
  {
    if n == 0 then 0
    else
      var p := Pointer(hands, live, c, n - 1);
      if live[n - 1] && hands[n - 1].Has(c) && SlotOf(hands, Holding(c), n - 1) != p then p + 1 else p
  }

  /** What FastShowdownEval computes for hand i, for one chip. */
  function FastValue(hands: seq<HandAndRank>, w: seq<real>, live: seq<bool>, i: nat): real
    requires i < |hands| == |w| == |live|
  {
    var h := hands[i];
    SlotNet(hands, w, All, SlotOf(hands, All, i), |hands|)
    - (SlotNet(hands, w, Holding(h.high), Pointer(hands, live, h.high, i + 1), |hands|)
       + SlotNet(hands, w, Holding(h.low), Pointer(hands, live, h.low, i + 1), |hands|))
  }

  lemma {:induction false} PointerBound(hands: seq<HandAndRank>, live: seq<bool>, c: nat, n: nat)
    requires n <= |hands| == |live|
    ensures Pointer(hands, live, c, n) == 0 || Pointer(hands, live, c, n) < Slots(hands, Holding(c), n)
  {
    if n > 0 {
      PointerBound(hands, live, c, n - 1);
      LastSlot(hands, Holding(c), n);
    }
  }

  /** The last of the first n hands that is evaluated and holds c, or -1. */
  function LastLive(hands: seq<HandAndRank>, live: seq<bool>, c: nat, n: nat): (i: int)
    requires n <= |hands| == |live|
    ensures -1 <= i < n
    ensures i >= 0 ==> live[i] && hands[i].Has(c)
    ensures forall j :: i < j < n ==> !(live[j] && hands[j].Has(c))
  {
    if n == 0 then -1
    else if live[n - 1] && hands[n - 1].Has(c) then n - 1
    else LastLive(hands, live, c, n - 1)
  }

  /** The pointer stands where it was after the last evaluated hand. */
  lemma {:induction false} PointerStays(hands: seq<HandAndRank>, live: seq<bool>, c: nat, n: nat)
    requires n <= |hands| == |live|
    ensures var l := LastLive(hands, live, c, n);
      Pointer(hands, live, c, n) == if l < 0 then 0 else Pointer(hands, live, c, l + 1)
  {
    if n > 0 && !(live[n - 1] && hands[n - 1].Has(c)) { PointerStays(hands, live, c, n - 1); }
  }

  ghost predicate PointerRight(hands: seq<HandAndRank>, live: seq<bool>, c: nat, i: nat)
    requires |hands| == |live|
  {
    i < |hands| && live[i] && hands[i].Has(c) ==>
      Pointer(hands, live, c, i + 1) == SlotOf(hands, Holding(c), i)
  }

  /** Hand i is evaluated at slot 0 or 1 of card c, or after a hand in the same or the preceding slot. */
  ghost predicate NoGapAt(hands: seq<HandAndRank>, live: seq<bool>, c: nat, i: nat)
    requires |hands| == |live|
  {
    i < |hands| && live[i] && hands[i].Has(c) && SlotOf(hands, Holding(c), i) > 1 ==>
      exists j :: 0 <= j < i && live[j] && hands[j].Has(c)
                  && SlotOf(hands, Holding(c), j) >= SlotOf(hands, Holding(c), i) - 1
  }

  lemma {:induction false} NoGapMeansRight(hands: seq<HandAndRank>, live: seq<bool>, c: nat, i: nat)
    requires Sorted(hands) && |hands| == |live|
    requires forall k: nat :: NoGapAt(hands, live, c, k)
    ensures PointerRight(hands, live, c, i)
  {
    hide Slots, LastIdx, Sorted;
    if i < |hands| && live[i] && hands[i].Has(c) {
      var pick := Holding(c);
      var l := LastLive(hands, live, c, i);
      PointerStays(hands, live, c, i);
      LastSlot(hands, pick, i + 1);
      if l >= 0 {
        LastSlot(hands, pick, l + 1);
        NoGapMeansRight(hands, live, c, l);
        assert PointerRight(hands, live, c, l);
        SlotOrder(hands, pick, l, i);
      }
      assert NoGapAt(hands, live, c, i);
      if SlotOf(hands, pick, i) > 1 {
        var j :| 0 <= j < i && live[j] && hands[j].Has(c) && SlotOf(hands, pick, j) >= SlotOf(hands, pick, i) - 1;
        SlotOrder(hands, pick, j, l);
      }
    }
  }

  lemma {:induction false} RightMeansNoGap(hands: seq<HandAndRank>, live: seq<bool>, c: nat, i: nat)
    requires Sorted(hands) && |hands| == |live|
    requires forall k: nat :: PointerRight(hands, live, c, k)
    ensures NoGapAt(hands, live, c, i)
  {
    if i < |hands| && live[i] && hands[i].Has(c) && SlotOf(hands, Holding(c), i) > 1 {
      assert PointerRight(hands, live, c, i);
      PointerStays(hands, live, c, i);
      var l := LastLive(hands, live, c, i);
      assert l >= 0 && PointerRight(hands, live, c, l);
    }
  }

  // ---------------------------------------------------------------- one opponent hand

  /** The range with weight 1 on hand k and nothing else. */
  function Only(n: nat, k: nat): (w: seq<real>)
    ensures |w| == n
  {
    seq(n, j => if j == k then 1.0 else 0.0)
  }

  lemma {:induction false} OnlySlotNet(hands: seq<HandAndRank>, pick: Pick, k: nat, s: int, n: nat)
    requires n <= |hands| && k < |hands|
    ensures SlotNet(hands, Only(|hands|, k), pick, s, n) ==
      if k < n && pick.Of(hands[k]) then Signed(SlotOf(hands, pick, k), s, 1.0) else 0.0
  {
    if n > 0 { OnlySlotNet(hands, pick, k, s, n - 1); }
  }

  lemma {:induction false} OnlyShowdown(hands: seq<HandAndRank>, k: nat, i: nat, n: nat)
    requires n <= |hands| && k < |hands| && i < |hands|
    ensures Showdown(hands, Only(|hands|, k), i, n) == if k < n then Duel(hands[i], hands[k], 1.0) else 0.0
  {
    if n > 0 { OnlyShowdown(hands, k, i, n - 1); }
  }

  /** Some picked hand sits in every slot. */
  lemma {:induction false} SlotInhabited(hands: seq<HandAndRank>, pick: Pick, s: nat, n: nat) returns (k: nat)
    requires n <= |hands| && s < Slots(hands, pick, n)
    ensures k < n && pick.Of(hands[k]) && SlotOf(hands, pick, k) == s
  {
    if s < Slots(hands, pick, n - 1) { k := SlotInhabited(hands, pick, s, n - 1); } else { k := n - 1; }
  }

  // ---------------------------------------------------------------- the fast form is exact when no slot is skipped

  /** The fast value of hand i is the pairwise one, whatever the opponent's range. */
  ghost predicate ExactAt(hands: seq<HandAndRank>, live: seq<bool>, i: nat)
    requires |hands| == |live|
  {
    i < |hands| && live[i] ==>
      forall w: seq<real> :: |w| == |hands| ==>
        FastValue(hands, w, live, i) == Showdown(hands, w, i, |hands|)
  }

  lemma RightMeansExact(hands: seq<HandAndRank>, numCards: nat, board: set<nat>, live: seq<bool>, i: nat, w: seq<real>)
    requires Prepared(hands, numCards, board) && i < |hands| == |live| == |w| && live[i]
    requires PointerRight(hands, live, hands[i].high, i) && PointerRight(hands, live, hands[i].low, i)
    ensures FastValue(hands, w, live, i) == Showdown(hands, w, i, |hands|)
  {
    var h := hands[i];
    ShowdownByCards(hands, w, numCards, board, i, |hands|);
    SlotNetIsNet(hands, w, All, i, |hands|);
    SlotNetIsNet(hands, w, Holding(h.high), i, |hands|);
    SlotNetIsNet(hands, w, Holding(h.low), i, |hands|);
  }

  lemma ExactHand(hands: seq<HandAndRank>, numCards: nat, board: set<nat>, live: seq<bool>, i: nat, w: seq<real>)
    requires Prepared(hands, numCards, board) && i < |hands| == |live| == |w| && live[i]
    requires forall c: nat, k: nat :: NoGapAt(hands, live, c, k)
    ensures FastValue(hands, w, live, i) == Showdown(hands, w, i, |hands|)
  {
    NoGapMeansRight(hands, live, hands[i].high, i);
    NoGapMeansRight(hands, live, hands[i].low, i);
    RightMeansExact(hands, numCards, board, live, i, w);
  }

  /** A pointer that stands wrong shows in some range. */
  lemma WrongMeansInexact(hands: seq<HandAndRank>, numCards: nat, board: set<nat>, live: seq<bool>, c: nat, i: nat)
    requires Prepared(hands, numCards, board) && |hands| == |live|
    requires !PointerRight(hands, live, c, i)
    ensures !ExactAt(hands, live, i)
  {
    hide Showdown, Net, Slots, Sorted;
    var h, pick, p := hands[i], Holding(c), Pointer(hands, live, c, i + 1);
    PointerBound(hands, live, c, i + 1);
    LastSlot(hands, pick, i + 1);
    var k := SlotInhabited(hands, pick, p, i + 1);
    SlotsLikeRanks(hands, pick, k, i);
    SlotsLikeRanks(hands, All, k, i);
    var other := if h.high == c then h.low else h.high;
    assert !hands[k].Has(other);
    var w := Only(|hands|, k);
    OnlySlotNet(hands, All, k, SlotOf(hands, All, i), |hands|);
    OnlySlotNet(hands, pick, k, p, |hands|);
    OnlySlotNet(hands, Holding(other), k, Pointer(hands, live, other, i + 1), |hands|);
    OnlyShowdown(hands, k, i, |hands|);
    assert FastValue(hands, w, live, i) == 1.0;
  }

  /**
    The skip-list evaluation agrees with the pairwise one on every opponent range exactly when, for
    every card, no evaluated hand comes more than one slot after the one evaluated before it.
   */
  lemma FastIsExact(hands: seq<HandAndRank>, numCards: nat, board: set<nat>, live: seq<bool>)
    requires Prepared(hands, numCards, board) && |hands| == |live|
    ensures (forall i: nat :: ExactAt(hands, live, i)) <==> (forall c: nat, i: nat :: NoGapAt(hands, live, c, i))
  {
    if forall c: nat, i: nat :: NoGapAt(hands, live, c, i) {
      forall i: nat ensures ExactAt(hands, live, i) {
        if i < |hands| && live[i] {
          forall w: seq<real> | |w| == |hands|
            ensures FastValue(hands, w, live, i) == Showdown(hands, w, i, |hands|)
          {
            ExactHand(hands, numCards, board, live, i, w);
          }
        }
      }
    }
    if forall i: nat :: ExactAt(hands, live, i) {
      forall c: nat, i: nat ensures NoGapAt(hands, live, c, i) {
        forall k: nat ensures PointerRight(hands, live, c, k) {
          assert ExactAt(hands, live, k);
          if !PointerRight(hands, live, c, k) { WrongMeansInexact(hands, numCards, board, live, c, k); }
        }
        RightMeansNoGap(hands, live, c, i);
      }
    }
  }

  /** Card 0 with cards 1, 2 and 3, of ascending rank. */
  function ThreeHands(): seq<HandAndRank> {
    [HandAndRank(1, 0, 0, 0), HandAndRank(2, 0, 1, 1), HandAndRank(3, 0, 2, 3)]
  }

  lemma ThreeSlots()
    ensures Prepared(ThreeHands(), 4, {})
    ensures forall j :: 0 <= j < 3 ==> ThreeHands()[j].Has(0) && Slots(ThreeHands(), Holding(0), j + 1) == j + 1
  {
    var hands, pick := ThreeHands(), Holding(0);
    assert Slots(hands, pick, 1) == 1;
    assert Slots(hands, pick, 2) == 2;
    assert Slots(hands, pick, 3) == 3;
  }

  /** Masking the middle one leaves a gap: the third hand's pointer moves on to the second's slot only. */
  lemma MaskedHandLeavesGap()
    ensures Prepared(ThreeHands(), 4, {})
    ensures var live := [true, false, true];
      !NoGapAt(ThreeHands(), live, 0, 2) && exists i: nat :: !ExactAt(ThreeHands(), live, i)
  {
    hide Prepared, Slots, ExactAt;
    ThreeSlots();
    assert !NoGapAt(ThreeHands(), [true, false, true], 0, 2);
    FastIsExact(ThreeHands(), 4, {}, [true, false, true]);
  }

  /** With no hand of mine masked there is no gap. */
  lemma {:induction false} UnmaskedHasNoGap(hands: seq<HandAndRank>, live: seq<bool>, c: nat, i: nat)
    requires Sorted(hands) && |hands| == |live| && forall j :: 0 <= j < |live| ==> live[j]
    ensures NoGapAt(hands, live, c, i)
  {
    if i < |hands| && hands[i].Has(c) && SlotOf(hands, Holding(c), i) > 1 {
      LastSlot(hands, Holding(c), i);
      var l := LastIdx(hands, Holding(c), i);
      assert l >= 0 && live[l];
    }
  }
}
