/**
  The State of modules/core/src/game.c as a mutable object: fixed arrays for chips, folds and the
  action log, updated in place.  View() is the hand of module Betting that the fields stand for, and
  every method is proved against the function of that module it computes.
 */
module GameState {
  import opened Betting
  import opened TurnOrder
  import opened Hands
  import opened Chips
  import SidePots
  import Payoffs

  class State {
    var handId: nat
    var round: nat
    var maxSpent: int
    var minNoLimitRaiseTo: int
    var finished: bool
    const spent: array<int>
    const stackPlayer: array<int>
    const playerFolded: array<bool>
    const numActions: array<int>
    const action: array2<Action>
    const actingPlayer: array2<int>
    const sumRoundSpent: array2<int>

    ghost var hand: Hand  // the value the fields stand for

    /** The arrays have their fixed sizes and are different arrays. */
    ghost predicate Valid() {
      && spent.Length == stackPlayer.Length == playerFolded.Length == MAX_PLAYERS
      && numActions.Length == action.Length0 == actingPlayer.Length0 == MAX_ROUNDS
      && action.Length1 == actingPlayer.Length1 == MAX_NUM_ACTIONS
      && sumRoundSpent.Length0 == MAX_ROUNDS && sumRoundSpent.Length1 == MAX_PLAYERS && sumRoundSpent != actingPlayer
      && spent != stackPlayer && spent != numActions && stackPlayer != numActions
    }

    /** The fields and the first numPlayers and numRounds entries of the arrays are those of hand. */
    ghost predicate For(g: Game)
      reads this, spent, stackPlayer, playerFolded, numActions, action, actingPlayer, sumRoundSpent
    {
      && Valid() && g.Valid() && hand.Shape(g)
      && hand.round == round && hand.maxSpent == maxSpent
      && hand.minRaiseTo == minNoLimitRaiseTo && hand.finished == finished
      && (forall p :: 0 <= p < g.numPlayers ==>
            hand.spent[p] == spent[p] && hand.stack[p] == stackPlayer[p] && hand.folded[p] == playerFolded[p])
      && LogIs(g) && RoundSpentIs(g)
    }

    ghost predicate RoundSpentIs(g: Game)
      requires Valid() && hand.Shape(g) && g.Valid()
      reads this`hand, sumRoundSpent
    {
      forall r, p :: 0 <= r < g.numRounds && 0 <= p < g.numPlayers ==> hand.roundSpent[r][p] == sumRoundSpent[r, p]
    }

    /** The log arrays hold hand.moves, made by players of the game. */
    ghost predicate LogIs(g: Game)
      requires Valid() && g.Valid() && |hand.moves| == g.numRounds
      reads this`hand, numActions, action, actingPlayer
    {
      forall r :: 0 <= r < g.numRounds ==>
        && |hand.moves[r]| == numActions[r] <= MAX_NUM_ACTIONS
        && forall i :: 0 <= i < |hand.moves[r]| ==>
             hand.moves[r][i].action == action[r, i] && hand.moves[r][i].player == actingPlayer[r, i] < g.numPlayers
    }

    ghost function Arrays(): set<object> {
      {spent, stackPlayer, playerFolded, numActions, action, actingPlayer, sumRoundSpent}
    }

    constructor ()
      ensures Valid() && fresh(Arrays())
    {
      handId, round, maxSpent, minNoLimitRaiseTo, finished := 0, 0, 0, 0, false;
      spent := new int[MAX_PLAYERS](_ => 0);
      stackPlayer := new int[MAX_PLAYERS](_ => 0);
      playerFolded := new bool[MAX_PLAYERS](_ => false);
      numActions := new int[MAX_ROUNDS](_ => 0);
      action := new Action[MAX_ROUNDS, MAX_NUM_ACTIONS]((_, _) => Action(Call, 0));
      actingPlayer := new int[MAX_ROUNDS, MAX_NUM_ACTIONS]((_, _) => 0);
      sumRoundSpent := new int[MAX_ROUNDS, MAX_PLAYERS]((_, _) => 0);
      hand := Hand(0, [], [], 0, 0, [], [], false, []);
    }

    // -------------------------------------------------------------- counting players

    method NumFolded(g: Game) returns (n: nat)
      requires For(g)
      ensures n == Betting.NumFolded(hand)
    {
      n := 0;
      ghost var h := hand;
      for p := 0 to g.numPlayers
        invariant n == |FoldedBelow(h, p)|
      {
        FoldedStep(h, p);
        if playerFolded[p] {
          n := n + 1;
        }
      }
    }

    method NumActingPlayers(g: Game) returns (n: nat)
      requires For(g)
      ensures n == NumAble(hand)
    {
      n := 0;
      ghost var h := hand;
      for p := 0 to g.numPlayers
        invariant n == |AbleBelow(h, p)|
      {
        AbleStep(h, p);
        if !playerFolded[p] && spent[p] < stackPlayer[p] {
          n := n + 1;
        }
      }
    }

    method NumRaises(g: Game) returns (n: nat)
      requires For(g)
      ensures n == Raises(hand.Log())
    {
      n := 0;
      ghost var log := hand.Log();
      for i := 0 to numActions[round]
        invariant n == Raises(log[..i])
      {
        assert log[..i + 1][..i] == log[..i];
        if action[round, i].kind == Raise {
          n := n + 1;
        }
      }
      assert log[..|log|] == log;
    }

    method NumCalled(g: Game) returns (n: nat)
      requires For(g)
      ensures n == Called(hand, hand.Log())
    {
      n := 0;
      ghost var h := hand;
      ghost var log := h.Log();
      assert log[..|log|] == log;
      var i := numActions[round];
      while i > 0
        invariant 0 <= i <= |log|
        invariant n + Called(h, log[..i]) == Called(h, log)
      {
        assert log[..i][..i - 1] == log[..i - 1];
        var p := actingPlayer[round, i - 1];
        if action[round, i - 1].kind == Raise {
          if spent[p] < stackPlayer[p] {
            n := n + 1;
          }
          return;
        } else if action[round, i - 1].kind == Call {
          if spent[p] < stackPlayer[p] {
            n := n + 1;
          }
        }
        i := i - 1;
      }
    }

    // -------------------------------------------------------------- whose turn it is

    predicate IsAble(g: Game, p: nat): (r: bool)
      requires For(g) && p < g.numPlayers
      reads this, spent, stackPlayer, playerFolded, numActions, action, actingPlayer, sumRoundSpent
      ensures r <==> hand.Able(p)
    {
      !playerFolded[p] && spent[p] < stackPlayer[p]
    }

    method NextPlayer(g: Game, curPlayer: nat) returns (n: nat)
      requires For(g)
      requires exists q: nat :: q < g.numPlayers && hand.Able(q)
      ensures n == Betting.NextPlayer(g, hand, curPlayer)
    {
      ghost var q: nat :| q < g.numPlayers && hand.Able(q);
      n := FirstSeat(g, hand, curPlayer, q);
      n := SearchFrom(g, n, q);
    }

    /** Goes round the table from seat c to the first player who can act; player q can. */
    method SearchFrom(g: Game, c: nat, ghost q: nat) returns (n: nat)
      requires For(g) && q < g.numPlayers && hand.Able(q) && c < g.numPlayers && Off(g.numPlayers, c, q) < g.numPlayers
      ensures n == FirstAble(hand, g.numPlayers, c, g.numPlayers)
    {
      ghost var left := g.numPlayers;
      ghost var found := FirstAble(hand, g.numPlayers, c, left);
      n := c;
      hide FirstAble;
      while !IsAble(g, n)
        invariant n < g.numPlayers && Off(g.numPlayers, n, q) < left && FirstAble(hand, g.numPlayers, n, left) == found
        decreases left
      {
        NextSeat(hand, g.numPlayers, n, q, left);
        n := SeatUp(g.numPlayers, n);
        left := left - 1;
      }
      SearchEnds(hand, g.numPlayers, n, left);
    }

    method CurrentPlayer(g: Game) returns (p: nat)
      requires For(g) && !finished
      requires exists q: nat :: q < g.numPlayers && hand.Able(q)
      ensures p == Betting.CurrentPlayer(g, hand)
    {
      ghost var h := hand;
      if numActions[round] != 0 {
        p := NextPlayer(g, actingPlayer[round, numActions[round] - 1]);
      } else {
        p := NextPlayer(g, g.firstPlayer[round] + g.numPlayers - 1);
      }
    }

    // -------------------------------------------------------------- dealing

    method InitState(g: Game, id: nat)
      requires Valid() && g.Valid()
      modifies this, spent, stackPlayer, playerFolded, numActions, sumRoundSpent
      ensures For(g) && handId == id
      ensures hand == Deal(g, if g.useStateStack then old(stackPlayer[..g.numPlayers]) else g.stack)
    {
      hide MaxBlind, RoundSpentIs, LogIs;
      handId := id;
      round := 0;
      ClearRounds(g);
      PostBlinds(g);
      if g.noLimit {
        minNoLimitRaiseTo := if maxSpent != 0 then maxSpent * 2 else 1;
      } else {
        minNoLimitRaiseTo := 0;
      }
      for r := 0 to g.numRounds
        invariant forall q :: 0 <= q < r ==> numActions[q] == 0
        modifies numActions
      {
        numActions[r] := 0;
      }
      finished := false;
      hand := Deal(g, if g.useStateStack then old(stackPlayer[..g.numPlayers]) else g.stack);
      NothingLogged(g);
    }

    lemma NothingLogged(g: Game)
      requires Valid() && g.Valid() && |hand.moves| == g.numRounds && hand.Shape(g)
      requires forall r :: 0 <= r < g.numRounds ==> hand.moves[r] == [] && numActions[r] == 0
      requires forall r, p :: 0 <= r < g.numRounds && 0 <= p < g.numPlayers ==>
        sumRoundSpent[r, p] == hand.roundSpent[r][p]
      ensures LogIs(g) && RoundSpentIs(g)
    {
    }

    method ClearRounds(g: Game)
      requires Valid() && g.Valid()
      modifies sumRoundSpent
      ensures forall r, p :: 0 <= r < g.numRounds && 0 <= p < g.numPlayers ==> sumRoundSpent[r, p] == 0
    {
      for r := 0 to g.numRounds
        invariant forall q, p :: 0 <= q < r && 0 <= p < g.numPlayers ==> sumRoundSpent[q, p] == 0
      {
        for p := 0 to g.numPlayers
          invariant forall q, l :: 0 <= q < r && 0 <= l < g.numPlayers ==> sumRoundSpent[q, l] == 0
          invariant forall l :: 0 <= l < p ==> sumRoundSpent[r, l] == 0
        {
          sumRoundSpent[r, p] := 0;
        }
      }
    }

    method PostBlinds(g: Game)
      requires Valid() && g.Valid() && round == 0
      modifies this`maxSpent, spent, stackPlayer, playerFolded, sumRoundSpent
      ensures forall r, p :: 0 <= r < g.numRounds && 0 <= p < g.numPlayers ==>
        sumRoundSpent[r, p] == if r == 0 then g.blind[p] else old(sumRoundSpent[r, p])
      ensures maxSpent == MaxBlind(g.blind, 0)
      ensures forall p :: 0 <= p < g.numPlayers ==>
        && spent[p] == g.blind[p] && !playerFolded[p]
        && stackPlayer[p] == if g.useStateStack then old(stackPlayer[p]) else g.stack[p]
    {
      maxSpent := 0;
      for p := 0 to g.numPlayers
        invariant maxSpent == MaxBlind(g.blind[..p], 0)
        invariant forall q :: 0 <= q < p ==> spent[q] == g.blind[q] && !playerFolded[q]
        invariant forall r, q :: 0 <= r < MAX_ROUNDS && 0 <= q < MAX_PLAYERS ==>
          sumRoundSpent[r, q] == if r == 0 && q < p then g.blind[q] else old(sumRoundSpent[r, q])
        invariant forall q :: 0 <= q < MAX_PLAYERS ==>
          stackPlayer[q] == if q < p && !g.useStateStack then g.stack[q] else old(stackPlayer[q])
      {
        assert g.blind[..p + 1][..p] == g.blind[..p];
        PostBlind(g, p);
        if g.blind[p] > maxSpent {
          maxSpent := g.blind[p];
        }
      }
      assert g.blind[..g.numPlayers] == g.blind;
    }

    method PostBlind(g: Game, p: nat)
      requires Valid() && g.Valid() && round == 0 && p < g.numPlayers
      modifies spent, stackPlayer, playerFolded, sumRoundSpent
      ensures spent[..] == old(spent[..])[p := g.blind[p]] && playerFolded[..] == old(playerFolded[..])[p := false]
      ensures stackPlayer[..] == if g.useStateStack then old(stackPlayer[..]) else old(stackPlayer[..])[p := g.stack[p]]
      ensures forall r, q :: 0 <= r < MAX_ROUNDS && 0 <= q < MAX_PLAYERS ==>
        sumRoundSpent[r, q] == if r == 0 && q == p then g.blind[p] else old(sumRoundSpent[r, q])
    {
      spent[p] := g.blind[p];
      sumRoundSpent[round, p] := g.blind[p];
      if !g.useStateStack {
        stackPlayer[p] := g.stack[p];
      }
      playerFolded[p] := false;
    }

    // -------------------------------------------------------------- which actions are accepted

    method MayRaise(g: Game) returns (may: bool)
      requires For(g) && !finished
      ensures may == Betting.MayRaise(g, hand)
    {
      var raises := NumRaises(g);
      if raises >= g.maxRaises[round] {
        return false;
      }
      if numActions[round] + g.numPlayers > MAX_NUM_ACTIONS {
        return false;
      }
      var acting := NumActingPlayers(g);
      may := acting > 1;
    }

    method RaiseIsValid(g: Game) returns (valid: bool, minSize: int, maxSize: int)
      requires For(g) && !finished
      requires exists q: nat :: q < g.numPlayers && hand.Able(q)
      ensures RaiseRange(g, hand) == if valid then Some((minSize, maxSize)) else None
    {
      minSize, maxSize := 0, 0;
      valid := MayRaise(g);
      if !valid || !g.noLimit {
        return;
      }
      var p := CurrentPlayer(g);
      minSize := minNoLimitRaiseTo;
      maxSize := stackPlayer[p];
      if minSize > stackPlayer[p] {
        if maxSpent >= stackPlayer[p] {
          valid := false;
        } else {
          minSize := maxSize;
        }
      }
    }

    method IsValidAction(g: Game, tryFixing: bool, a: Action) returns (code: nat, fixed: Action)
      requires For(g)
      requires !finished ==> exists q: nat :: q < g.numPlayers && hand.Able(q)
      ensures (code, fixed) == Check(g, hand, tryFixing, a)
    {
      fixed := a;
      if finished || a.kind == Invalid {
        return 0, a;
      }
      var p := CurrentPlayer(g);
      if a.kind == Raise {
        var valid, lo, hi := RaiseIsValid(g);
        if !valid {
          return 0, a;
        }
        if g.noLimit {
          if a.size < lo {
            if !tryFixing {
              return 0, a;
            }
            fixed := a.(size := lo);
          } else if a.size > hi {
            if !tryFixing {
              return 0, a;
            }
            fixed := a.(size := hi);
          }
        }
      } else if a.kind == Fold {
        if spent[p] == maxSpent || spent[p] == stackPlayer[p] {
          return PREMATURE_FOLD, a;
        }
        if a.size != 0 {
          fixed := a.(size := 0);
        }
      } else {
        if a.size != 0 {
          fixed := a.(size := 0);
        }
      }
      code := 1;
    }

    // -------------------------------------------------------------- doing an action

    method DoAction(g: Game, a: Action)
      requires For(g) && !finished
      requires exists q: nat :: q < g.numPlayers && hand.Able(q)
      requires AssertsHold(g, hand, a)
      modifies this, spent, playerFolded, numActions, action, actingPlayer, sumRoundSpent
      ensures For(g) && handId == old(handId)
      ensures hand == Betting.DoAction(g, old(hand), a)
    {
      hide For, AssertsHold, Bet, Close, Record, Valid, Hand.Shape, Game.Valid, Betting.DoAction, Act;
      MeetsAsserts(g, a);
      ghost var before := hand;
      var p := CurrentPlayer(g);
      RecordMove(g, a, p);
      PlaceBet(g, a, p);
      CloseRound(g);
      Composed(g, before, a);
    }

    lemma MeetsAsserts(g: Game, a: Action)
      requires For(g) && AssertsHold(g, hand, a)
      ensures round < numActions.Length && numActions[round] < MAX_NUM_ACTIONS && a.kind != Invalid
      ensures hand.Shape(g) && g.Valid() && hand.finished == finished
    {
    }

    method RecordMove(g: Game, a: Action, p: nat)
      requires For(g) && p < g.numPlayers && numActions[round] < MAX_NUM_ACTIONS
      modifies this`hand, numActions, action, actingPlayer
      ensures For(g) && hand == Record(old(hand), Move(a, p))
    {
      action[round, numActions[round]] := a;
      actingPlayer[round, numActions[round]] := p;
      numActions[round] := numActions[round] + 1;
      hand := Record(hand, Move(a, p));
    }

    method PlaceBet(g: Game, a: Action, p: nat)
      requires For(g) && p < g.numPlayers && a.kind != Invalid
      modifies this`maxSpent, this`minNoLimitRaiseTo, this`hand, spent, playerFolded, sumRoundSpent
      ensures For(g) && hand == Bet(g, old(hand), p, a)
    {
      match a.kind {
      case Fold =>
        playerFolded[p] := true;
        hand := Bet(g, hand, p, a);
      case Call =>
        if maxSpent > stackPlayer[p] {
          SpendUpTo(g, p, stackPlayer[p]);
        } else {
          SpendUpTo(g, p, maxSpent);
        }
      case Raise =>
        RaiseTop(g, a, p);
        SpendUpTo(g, p, maxSpent);
      }
    }

    /** Player p has now spent x, in all and at this point of the round. */
    method SpendUpTo(g: Game, p: nat, x: int)
      requires For(g) && p < g.numPlayers
      modifies this`hand, spent, sumRoundSpent
      ensures For(g) && hand == Spend(old(hand), p, x)
    {
      spent[p] := x;
      sumRoundSpent[round, p] := x;
      hand := Spend(hand, p, x);
    }

    /** A raise sets what has to be called, and in no-limit games what the next raise has to reach. */
    method RaiseTop(g: Game, a: Action, p: nat)
      requires For(g) && p < g.numPlayers && a.kind == Raise
      modifies this`maxSpent, this`minNoLimitRaiseTo, this`hand
      ensures For(g) && Spend(hand, p, maxSpent) == Bet(g, old(hand), p, a)
    {
      if g.noLimit {
        if a.size + a.size - maxSpent > minNoLimitRaiseTo {
          minNoLimitRaiseTo := a.size + a.size - maxSpent;
        }
        maxSpent := a.size;
      } else {
        if maxSpent + g.raiseSize[round] > stackPlayer[p] {
          maxSpent := stackPlayer[p];
        } else {
          maxSpent := maxSpent + g.raiseSize[round];
        }
      }
      hand := hand.(maxSpent := maxSpent, minRaiseTo := minNoLimitRaiseTo);
    }

    method FindEnding(g: Game) returns (e: Ending)
      requires For(g) && !finished
      ensures e == EndingOf(g, hand)
    {
      var folded := NumFolded(g);
      if folded + 1 >= g.numPlayers {
        return HandOver;
      }
      var called := NumCalled(g);
      var acting := NumActingPlayers(g);
      if called < acting {
        return GoesOn;
      }
      if acting > 1 {
        if round + 1 < g.numRounds {
          e := RoundOver;
        } else {
          e := HandOver;
        }
      } else {
        e := AllInShowdown;
      }
    }

    method CloseRound(g: Game)
      requires For(g) && !finished
      modifies this`round, this`minNoLimitRaiseTo, this`finished, this`hand
      ensures For(g) && hand == Close(g, old(hand))
    {
      var ending := FindEnding(g);
      match ending {
      case GoesOn =>
      case HandOver =>
        finished := true;
      case RoundOver =>
        round := round + 1;
        var raiseBy := MinimumRaise(g);
        minNoLimitRaiseTo := raiseBy + maxSpent;
      case AllInShowdown =>
        finished := true;
        round := g.numRounds - 1;
      }
      hand := Close(g, hand);
    }

    method MinimumRaise(g: Game) returns (raiseBy: int)
      requires g.Valid()
      ensures raiseBy == MaxBlind(g.blind, 1)
    {
      raiseBy := 1;
      for p := 0 to g.numPlayers
        invariant raiseBy == MaxBlind(g.blind[..p], 1)
      {
        assert g.blind[..p + 1][..p] == g.blind[..p];
        if g.blind[p] > raiseBy {
          raiseBy := g.blind[p];
        }
      }
      assert g.blind[..g.numPlayers] == g.blind;
    }

    // -------------------------------------------------------------- what a finished hand pays

    /**
      valueOfState for one player.  rank[p] is the rank of p's hand, -1 when he mucked it.  At a
      showdown the source needs chips from the player asked about and from somebody else.
     */
    method ValueOfState(g: Game, rank: seq<int>, player: nat) returns (value: real)
      requires For(g) && |rank| == g.numPlayers && player < g.numPlayers
      requires forall p :: 0 <= p < g.numPlayers ==> 0 <= spent[p] <= SidePots.INT32_MAX
      requires !playerFolded[player] && Betting.NumFolded(hand) + 1 != g.numPlayers ==>
        spent[player] > 0 && exists p :: 0 <= p < g.numPlayers && p != player && spent[p] > 0
      ensures SidePots.NoNegative(Payoffs.StakesOf(hand, rank))
      ensures value == Payoffs.StateValue(g, hand, rank, player)
    {
      ghost var all := Payoffs.StakesOf(hand, rank);
      if playerFolded[player] {
        return -(spent[player] as real);
      }
      var folded := NumFolded(g);
      if folded + 1 == g.numPlayers {
        value := SumOfOthers(g, player);
        return;
      }
      var stake, hands, n, playerIdx := ListStakes(g, rank, player);
      SidePots.ValueWithoutZeros(all, player, all[player].spent);
      value := SidePots.SidePotLoop(stake, hands, n, playerIdx, SidePots.Remain(all, 0));
    }

    method SumOfOthers(g: Game, player: nat) returns (value: real)
      requires For(g) && player < g.numPlayers
      ensures value == (Payoffs.SumSpent(hand.spent) - hand.spent[player]) as real
    {
      value := 0.0;
      for p := 0 to g.numPlayers
        invariant value == (Payoffs.SumSpent(hand.spent[..p]) - if p > player then hand.spent[player] else 0) as real
      {
        assert hand.spent[..p + 1][..p] == hand.spent[..p];
        if p == player {
          continue;
        }
        value := value + spent[p] as real;
      }
      assert hand.spent[..g.numPlayers] == hand.spent;
    }

    /** The stakes that are not zero, those who folded without a hand; and where the player's is. */
    method FillStakes(g: Game, rank: seq<int>, player: nat, stake: array<int>, hands: array<int>,
                      ghost all: seq<SidePots.Stake>)
      returns (n: nat, playerIdx: nat)
      requires For(g) && |rank| == g.numPlayers && player < g.numPlayers && spent[player] > 0 && !playerFolded[player]
      requires forall p :: 0 <= p < g.numPlayers ==> 0 <= spent[p]
      requires all == Payoffs.StakesOf(hand, rank)
      requires stake.Length == hands.Length == MAX_PLAYERS && stake != hands
      requires stake != spent && stake != stackPlayer && stake != numActions
      requires hands != spent && hands != stackPlayer && hands != numActions
      modifies stake, hands
      ensures SidePots.Holds(stake, hands, SidePots.Remain(all, 0)) && n == |SidePots.Remain(all, 0)|
      ensures playerIdx == |SidePots.Remain(all[..player], 0)|
    {
      ghost var kept: seq<SidePots.Stake> := [];
      n, playerIdx := 0, 0;
      for p := 0 to g.numPlayers
        invariant n == |kept| <= p && kept == SidePots.Remain(all[..p], 0)
        invariant SidePots.Holds(stake, hands, kept)
        invariant p > player ==> playerIdx == |SidePots.Remain(all[..player], 0)|
        modifies stake, hands
      {
        SidePots.RemainSnoc(all, p);
        if spent[p] == 0 {
          continue;
        }
        if p == player {
          playerIdx := n;
        }
        kept := PutStake(stake, hands, n, spent[p], if playerFolded[p] then -1 else rank[p], kept);
        n := n + 1;
      }
      assert all[..g.numPlayers] == all;
    }

    static method PutStake(stake: array<int>, hands: array<int>, n: nat, chips: int, hand: int,
                           ghost kept: seq<SidePots.Stake>)
      returns (ghost more: seq<SidePots.Stake>)
      requires SidePots.Holds(stake, hands, kept) && n == |kept| < stake.Length && stake != hands
      modifies stake, hands
      ensures more == kept + [SidePots.Stake(chips, hand)] && SidePots.Holds(stake, hands, more)
    {
      stake[n], hands[n] := chips, hand;
      more := kept + [SidePots.Stake(chips, hand)];
    }

    /** The players with chips in the pot: what they put in and how good their hands are. */
    method ListStakes(g: Game, rank: seq<int>, player: nat)
      returns (stake: array<int>, hands: array<int>, n: nat, playerIdx: nat)
      requires For(g) && |rank| == g.numPlayers && player < g.numPlayers && spent[player] > 0 && !playerFolded[player]
      requires forall p :: 0 <= p < g.numPlayers ==> 0 <= spent[p] <= SidePots.INT32_MAX
      ensures fresh(stake) && fresh(hands) && stake != hands
      ensures var all := Payoffs.StakesOf(hand, rank);
        && SidePots.Holds(stake, hands, SidePots.Remain(all, 0)) && n == |SidePots.Remain(all, 0)|
        && SidePots.Positive(SidePots.Remain(all, 0))
        && playerIdx == |SidePots.Remain(all[..player], 0)| < n
    {
      ghost var all := Payoffs.StakesOf(hand, rank);
      stake := new int[MAX_PLAYERS];
      hands := new int[MAX_PLAYERS];
      n, playerIdx := FillStakes(g, rank, player, stake, hands, all);
      assert all[..g.numPlayers] == all;
      SidePots.PotWithoutZeros(all, player);
    }
  }

  lemma FoldedStep(h: Hand, p: nat)
    requires p < |h.folded|
    ensures FoldedBelow(h, 0) == {}
    ensures |FoldedBelow(h, p + 1)| == |FoldedBelow(h, p)| + if h.folded[p] then 1 else 0
  {
    assert FoldedBelow(h, p + 1) == FoldedBelow(h, p) + if h.folded[p] then {p} else {};
  }

  lemma AbleStep(h: Hand, p: nat)
    ensures AbleBelow(h, 0) == {}
    ensures |AbleBelow(h, p + 1)| == |AbleBelow(h, p)| + if h.Able(p) then 1 else 0
  {
    assert AbleBelow(h, p + 1) == AbleBelow(h, p) + if h.Able(p) then {p} else {};
  }

  /** doAction by its steps. */
  lemma Composed(g: Game, h: Hand, a: Action)
    requires g.Valid() && h.Shape(g)
    ensures Record(h, Move(a, Betting.CurrentPlayer(g, h))).Shape(g)
    ensures var p := Betting.CurrentPlayer(g, h);
      Betting.DoAction(g, h, a) == Close(g, Bet(g, Record(h, Move(a, p)), p, a))
  {
  }

  /** Where the search for the next player starts. */
  method FirstSeat(g: Game, ghost h: Hand, cur: nat, ghost q: nat) returns (c: nat)
    requires q < g.numPlayers
    ensures c < g.numPlayers && Off(g.numPlayers, c, q) < g.numPlayers
    ensures FirstAble(h, g.numPlayers, c, g.numPlayers) == Betting.NextPlayer(g, h, cur)
  {
    c := (cur + 1) % g.numPlayers;
  }

  lemma SearchEnds(h: Hand, n: nat, c: nat, left: nat)
    requires h.Able(c)
    ensures FirstAble(h, n, c, left) == c
  {
  }

  method SeatUp(n: nat, c: nat) returns (d: nat)
    requires c < n
    ensures d == if c + 1 == n then 0 else c + 1
  {
    SeatAfter(n, c);
    d := (c + 1) % n;
  }

  lemma NextSeat(h: Hand, n: nat, c: nat, q: nat, left: nat)
    requires c < n && q < n && h.Able(q) && !h.Able(c) && Off(n, c, q) < left
    ensures var d := if c + 1 == n then 0 else c + 1;
      d < n && Off(n, d, q) == Off(n, c, q) - 1 && FirstAble(h, n, c, left) == FirstAble(h, n, d, left - 1)
  {
  }

  // ---------------------------------------------------------------- stepping back

  /** The number of actions in the log. */
  method TotalAction(g: Game, s: State) returns (n: nat)
    requires s.For(g)
    requires forall r :: s.round < r < g.numRounds ==> s.hand.moves[r] == []
    ensures n == |History(s.hand)|
  {
    n := 0;
    for r := 0 to s.round + 1
      invariant n == |FlatLog(s.hand.moves, r)|
    {
      ActionsSize(s.hand.moves[r]);
      n := n + s.numActions[r];
    }
    FlatLogTail(s.hand.moves, s.round + 1, g.numRounds);
  }

  lemma {:induction false} FlatLogTail(moves: seq<seq<Move>>, k: nat, n: nat)
    requires k <= n <= |moves| && forall r :: k <= r < n ==> moves[r] == []
    ensures FlatLog(moves, n) == FlatLog(moves, k)
  {
    if k < n { FlatLogTail(moves, k, n - 1); }
  }

  lemma {:induction false} ActionsAt(log: seq<Move>, i: nat)
    requires i < |log|
    ensures |Actions(log)| == |log| && Actions(log)[i] == log[i].action
  {
    ActionsSize(log);
    if i < |log| - 1 { ActionsAt(log[..|log| - 1], i); ActionsSize(log[..|log| - 1]); }
  }

  /** Action i of round r is action |rounds before r| + i of the history. */
  lemma {:induction false} HistoryAt(moves: seq<seq<Move>>, k: nat, r: nat, i: nat)
    requires r < k <= |moves| && i < |moves[r]|
    ensures |FlatLog(moves, r)| + i < |FlatLog(moves, r + 1)| <= |FlatLog(moves, k)|
    ensures FlatLog(moves, k)[|FlatLog(moves, r)| + i] == moves[r][i].action
  {
    hide FlatLog, Actions;
    ActionsAt(moves[r], i);
    RoundAfter(moves, r);
    if r < k - 1 {
      HistoryAt(moves, k - 1, r, i);
      RoundAfter(moves, k - 1);
      var at, before := |FlatLog(moves, r)| + i, FlatLog(moves, k - 1);
      assert at < |before| && (before + Actions(moves[k - 1]))[at] == before[at];
    }
  }

  lemma RoundAfter(moves: seq<seq<Move>>, r: nat)
    requires r < |moves|
    ensures FlatLog(moves, r + 1) == FlatLog(moves, r) + Actions(moves[r])
    ensures |FlatLog(moves, r + 1)| == |FlatLog(moves, r)| + |moves[r]|
  {
    ActionsSize(moves[r]);
  }

  /** StateTableInfoCopy, as far as the betting goes. */
  method CopyTable(g: Game, from: State, to: State)
    requires from.For(g) && to.For(g) && from.Arrays() !! to.Arrays() && from != to
    modifies to`handId, to`hand, to.stackPlayer
    ensures to.For(g) && to.handId == from.handId && to.hand == old(to.hand).(stack := from.hand.stack)
    ensures from.For(g)
  {
    for p := 0 to g.numPlayers
      invariant forall q :: 0 <= q < p ==> to.stackPlayer[q] == from.stackPlayer[q]
      modifies to.stackPlayer
    {
      to.stackPlayer[p] := from.stackPlayer[p];
    }
    to.handId := from.handId;
    to.hand := to.hand.(stack := from.hand.stack);
  }

  /**
    What replaying a run from the log of a reference state into a target state starts from; ReplayingAt(0, ..) opens it.
   */
  ghost predicate Replaying(g: Game, reference: State, target: State, run: Run)
    reads reference, reference.Arrays(), target, target.Arrays()
  {
    && g.Valid() && reference.hand.Shape(g) && target.hand.Shape(g) && reference.round == reference.hand.round
    && forall k: nat :: ReplayingAt(k, g, reference, target, run)
  }

  ghost predicate ReplayingAt(k: nat, g: Game, reference: State, target: State, run: Run)
    reads reference, reference.Arrays(), target, target.Arrays()
  {
    && reference.For(g) && target.For(g)
    && reference.Arrays() !! target.Arrays() && reference != target
    && Logs(g, reference.hand, run)
  }

  /** The log of the hand is the run; sealed, LogsAt(0, ..) opens it. */
  ghost predicate Logs(g: Game, h: Hand, run: Run) {
    forall k: nat :: LogsAt(k, g, h, run)
  }

  ghost predicate LogsAt(k: nat, g: Game, h: Hand, run: Run) {
    run.Valid() && run.game == g && h.Shape(g) && History(h) == run.acts
  }

  /** Does action number k of the run, which is entry i of round r, again. */
  method ReplayAction(g: Game, reference: State, target: State, r: nat, i: nat, ghost run: Run, ghost k: nat)
    requires Replaying(g, reference, target, run) && r < g.numRounds && i < |reference.hand.moves[r]|
    requires k == |FlatLog(reference.hand.moves, r)| + i && StandsAt(k, run, target.hand)
    modifies target, target.spent, target.playerFolded, target.numActions, target.action, target.actingPlayer,
             target.sumRoundSpent
    ensures Replaying(g, reference, target, run) && reference.hand == old(reference.hand)
    ensures StandsAt(k + 1, run, target.hand)
  {
    hide Replaying, ReplayingAt, Logs, StandsAt, FlatLog, Betting.DoAction, AssertsHold, Betting.CurrentPlayer;
    hide State.For, State.Valid, Game.Valid, Hand.Shape;
    FieldsOf(g, reference, target, r, i, run);
    StepOfLog(g, reference.hand, run, r, i, k, target.hand);
    target.DoAction(g, reference.action[r, i]);
    Resealed(g, reference, target, run);
  }

  lemma Resealed(g: Game, reference: State, target: State, run: Run)
    requires reference.For(g) && target.For(g) && reference.Arrays() !! target.Arrays() && reference != target
    requires g.Valid() && Logs(g, reference.hand, run)
    ensures Replaying(g, reference, target, run)
  {
  }

  lemma FieldsOf(g: Game, reference: State, target: State, r: nat, i: nat, run: Run)
    requires Replaying(g, reference, target, run) && r < g.numRounds && i < |reference.hand.moves[r]|
    ensures reference.For(g) && target.For(g) && Logs(g, reference.hand, run) && g.Valid()
    ensures target.finished == target.hand.finished && target.hand.Shape(g) && reference.hand.Shape(g)
    ensures r < reference.action.Length0 && i < reference.action.Length1
    ensures reference.action[r, i] == reference.hand.moves[r][i].action
    ensures reference.Arrays() !! target.Arrays() && reference != target
  {
    assert ReplayingAt(0, g, reference, target, run);
  }

  /** Entry i of round r is what the run does next. */
  lemma StepOfLog(g: Game, h: Hand, run: Run, r: nat, i: nat, k: nat, now: Hand)
    requires g.Valid() && Logs(g, h, run) && h.Shape(g) && now.Shape(g) && r < g.numRounds && i < |h.moves[r]|
    requires k == |FlatLog(h.moves, r)| + i && StandsAt(k, run, now)
    ensures var a := h.moves[r][i].action;
      && !now.finished && now.Able(Betting.CurrentPlayer(g, now)) && AssertsHold(g, now, a)
      && StandsAt(k + 1, run, Betting.DoAction(g, now, a))
  {
    hide AssertsHold, Betting.DoAction, Betting.CurrentPlayer;
    assert LogsAt(0, g, h, run);
    HistoryAt(h.moves, g.numRounds, r, i);
    RunStep(run, k);
  }

  lemma RunStep(run: Run, k: nat)
    requires run.Valid() && k < |run.acts|
    ensures var g, h := run.game, run.hands[k];
      && h.Shape(g) && !h.finished && h.Able(Betting.CurrentPlayer(g, h)) && AssertsHold(g, h, run.acts[k])
      && run.hands[k + 1] == Betting.DoAction(g, h, run.acts[k])
  {
    RunKeepsTurn(run, k);
    NeverStuck(run, k);
    RunMeetsAsserts(run, k);
    assert run.LegalAt(k);
  }

  /** The hand is the one of the run before the actions of round r. */
  ghost predicate Stands(moves: seq<seq<Move>>, r: nat, run: Run, h: Hand) {
    r <= |moves| && |FlatLog(moves, r)| <= |run.acts| < |run.hands| && h == run.hands[|FlatLog(moves, r)|]
  }

  /** The hand is the one of the run after k actions. */
  ghost predicate StandsAt(k: nat, run: Run, h: Hand) {
    k <= |run.acts| < |run.hands| && h == run.hands[k]
  }

  /** Does the actions of round r again, or the first toDo of them. */
  method ReplayRound(g: Game, reference: State, target: State, r: nat, toDo: nat, ghost run: Run)
    returns (left: nat)
    requires Replaying(g, reference, target, run) && r < g.numRounds && toDo > 0
    requires Stands(reference.hand.moves, r, run, target.hand)
    modifies target, target.spent, target.playerFolded, target.numActions, target.action, target.actingPlayer,
             target.sumRoundSpent
    ensures Replaying(g, reference, target, run) && reference.hand == old(reference.hand)
    ensures left == 0 ==> StandsAt(|FlatLog(reference.hand.moves, r)| + toDo, run, target.hand)
    ensures left > 0 ==>
      Stands(reference.hand.moves, r + 1, run, target.hand) && left + |reference.hand.moves[r]| == toDo
  {
    hide Replaying, ReplayingAt, FlatLog, State.For, Hand.Shape, Game.Valid;
    left := toDo;
    RoundSize(g, reference, target, run, r);
    ghost var done := |FlatLog(reference.hand.moves, r)|;
    var n := reference.numActions[r];
    RoundAfter(reference.hand.moves, r);
    for a := 0 to n
      invariant Replaying(g, reference, target, run) && reference.hand == old(reference.hand)
      invariant left + a == toDo && left > 0 && StandsAt(done + a, run, target.hand)
    {
      ReplayAction(g, reference, target, r, a, run, done + a);
      left := left - 1;
      if left == 0 {
        return;
      }
    }
  }

  lemma RoundSize(g: Game, reference: State, target: State, run: Run, r: nat)
    requires Replaying(g, reference, target, run) && r < g.numRounds
    ensures r < |reference.hand.moves| && r < reference.numActions.Length
    ensures reference.numActions[r] == |reference.hand.moves[r]|
  {
    assert ReplayingAt(0, g, reference, target, run);
  }

  lemma WholeLog(g: Game, h: Hand, run: Run, rounds: nat)
    requires Logs(g, h, run) && h.Shape(g) && rounds <= g.numRounds
    requires forall r :: rounds <= r < g.numRounds ==> h.moves[r] == []
    ensures |FlatLog(h.moves, rounds)| == |run.acts| && |FlatLog(h.moves, 0)| == 0
  {
    assert LogsAt(0, g, h, run);
    FlatLogTail(h.moves, rounds, g.numRounds);
  }

  lemma NothingReplayed(g: Game, reference: State, target: State, run: Run)
    requires Replaying(g, reference, target, run)
    requires forall r :: reference.round < r < g.numRounds ==> reference.hand.moves[r] == []
    ensures var moves, rounds := reference.hand.moves, reference.round + 1;
      |FlatLog(moves, 0)| == 0 && 0 < rounds <= g.numRounds == |moves| && |FlatLog(moves, rounds)| == |run.acts|
  {
    assert ReplayingAt(0, g, reference, target, run);
    WholeLog(g, reference.hand, run, reference.round + 1);
  }

  method ReplayRounds(g: Game, reference: State, target: State, toDo: nat, ghost run: Run)
    returns (ret: int)
    requires Replaying(g, reference, target, run) && toDo > 0
    requires forall r :: reference.round < r < g.numRounds ==> reference.hand.moves[r] == []
    requires StandsAt(0, run, target.hand)
    modifies target, target.spent, target.playerFolded, target.numActions, target.action, target.actingPlayer,
             target.sumRoundSpent
    ensures Replaying(g, reference, target, run) && reference.hand == old(reference.hand)
    ensures if toDo <= |run.acts| then ret == 0 && StandsAt(toDo, run, target.hand)
            else ret == -1 && StandsAt(|run.acts|, run, target.hand)
  {
    hide FlatLog, Replaying, Logs, State.For, Hand.Shape, Game.Valid, Run.Valid;
    var left := toDo;
    ghost var moves := reference.hand.moves;
    NothingReplayed(g, reference, target, run);
    var rounds := reference.round + 1;
    for r := 0 to rounds
      invariant Replaying(g, reference, target, run) && reference.hand == old(reference.hand)
      invariant left > 0 && |FlatLog(moves, r)| + left == toDo && Stands(moves, r, run, target.hand)
    {
      RoundAfter(moves, r);
      left := ReplayRound(g, reference, target, r, left, run);
      if left == 0 {
        return 0;
      }
    }
    ret := -1;
  }

  /**
    StepBackAction, for a reference state that the run led to.  Going k steps back, 0 <= k < |acts|,
    gives the hand as it was k actions earlier; going back all the way gives a freshly dealt hand, on
    the stacks of initState rather than those of the reference.
   */
  method StepBackAction(g: Game, reference: State, target: State, backSteps: int, ghost run: Run)
    returns (ret: int)
    requires reference.For(g) && target.Valid() && reference.Arrays() !! target.Arrays() && reference != target
    requires run.Valid() && run.game == g && run.Last() == reference.hand
    modifies target, target.Arrays()
    ensures target.For(g) && reference.For(g) && reference.hand == old(reference.hand)
    ensures 0 <= backSteps < |run.acts| ==> ret == 0 && target.hand == run.hands[|run.acts| - backSteps]
    ensures backSteps == |run.acts| ==>
      ret == 0 && target.hand == Deal(g, if g.useStateStack then old(target.stackPlayer[..g.numPlayers]) else g.stack)
    ensures backSteps > |run.acts| ==> ret == -1 && target.hand == Deal(g, run.stacks)
    ensures backSteps < 0 ==> ret == -1 && target.hand == reference.hand
  {
    hide History, Logs, Deal, Run.Valid, Replaying, StandsAt, State.For, Hand.Shape, Game.Valid, FlatLog;
    Recorded(g, reference, run);
    Redealt(g, if g.useStateStack then target.stackPlayer[..g.numPlayers] else g.stack, run.stacks);
    target.InitState(g, 0);
    var total := TotalAction(g, reference);
    var toDo := total - backSteps;
    if toDo == 0 {
      return 0;
    }
    CopyTable(g, reference, target);
    if toDo < 0 {
      return -1;
    }
    StartsOver(g, reference, target, run);
    ret := ReplayRounds(g, reference, target, toDo, run);
    Unsealed(g, reference, target, run, if toDo <= total then toDo else total);
  }

  /** What the state a run led to says of the run. */
  lemma Recorded(g: Game, reference: State, run: Run)
    requires reference.For(g) && run.Valid() && run.game == g && run.Last() == reference.hand
    ensures Logs(g, reference.hand, run) && |History(reference.hand)| == |run.acts|
    ensures |run.hands| == |run.acts| + 1 && run.hands[0] == Deal(g, run.stacks) && reference.hand.stack == run.stacks
    ensures g.Valid() && reference.hand.Shape(g) && reference.round == reference.hand.round
    ensures run.hands[|run.acts|] == reference.hand
    ensures forall r :: reference.round < r < g.numRounds ==> reference.hand.moves[r] == []
  {
    RunLog(run);
  }

  lemma Redealt(g: Game, stacks: seq<int>, others: seq<int>)
    requires g.Valid()
    ensures Deal(g, stacks).stack == stacks && Deal(g, stacks).(stack := others) == Deal(g, others)
  {
  }

  lemma StartsOver(g: Game, reference: State, target: State, run: Run)
    requires reference.For(g) && target.For(g) && reference.Arrays() !! target.Arrays() && reference != target
    requires Logs(g, reference.hand, run) && |run.hands| > |run.acts| && target.hand == run.hands[0]
    ensures Replaying(g, reference, target, run) && StandsAt(0, run, target.hand)
  {
  }

  lemma Unsealed(g: Game, reference: State, target: State, run: Run, k: nat)
    requires Replaying(g, reference, target, run) && StandsAt(k, run, target.hand)
    ensures reference.For(g) && target.For(g) && k < |run.hands| && target.hand == run.hands[k]
  {
    assert ReplayingAt(0, g, reference, target, run);
  }

  lemma RunLog(run: Run)
    requires run.Valid()
    ensures var h := run.Last();
      && History(h) == run.acts && h.stack == run.stacks
      && forall r :: h.round < r < |h.moves| ==> h.moves[r] == []
  {
    LogIsTheRun(run, |run.acts|);
    LaterRoundsEmpty(run, |run.acts|);
    RunKeepsTurn(run, |run.acts|);
    assert run.acts[..|run.acts|] == run.acts;
  }
}
