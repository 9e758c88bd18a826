/**
  Which raises modules/core/src/game.c allows, and what the bet of a limit game comes to: the largest blind and the
  fixed size of every raise.
 */
module RaiseLimits {
  import opened Betting
  import opened TurnOrder
  import opened Hands
  import opened Chips

  /** Fewer raises than the round may have, room in the log for everybody, and somebody to raise against. */
  ghost predicate RaiseIsOpen(g: Game, h: Hand)
    requires g.Valid() && h.Shape(g)
  {
    Raises(h.Log()) < g.maxRaises[h.round] && |h.Log()| + g.numPlayers <= MAX_NUM_ACTIONS && 2 <= NumAble(h)
  }

  /**
    Without a limit the legal raises are those above the bet within the stack, but not short of the smallest raise
    unless they are all-in.
   */
  lemma LegalRaises(g: Game, h: Hand, s: int)
    requires g.Valid() && g.noLimit && ChipInv(g, h) && !h.finished
    ensures var stack := h.stack[CurrentPlayer(g, h)];
      Legal(g, h, Action(Raise, s)) <==>
      RaiseIsOpen(g, h) && h.maxSpent < s <= stack && (h.minRaiseTo <= s || s == stack)
  {
  }

  /** With a limit a raise is legal whatever size is named. */
  lemma LegalLimitRaises(g: Game, h: Hand, s: int)
    requires g.Valid() && !g.noLimit && h.Shape(g) && !h.finished
    ensures Legal(g, h, Action(Raise, s)) <==> RaiseIsOpen(g, h)
  {
  }

  // ---------------------------------------------------------------- raises of a round

  ghost predicate RaisesWithin(g: Game, h: Hand) {
    |h.moves| == |g.maxRaises| && forall q :: 0 <= q < |h.moves| ==> Raises(h.moves[q]) <= g.maxRaises[q]
  }

  /** No round ever has more raises than it may have. */
  lemma {:induction false} RunRaisesWithin(r: Run, k: nat)
    requires r.Valid() && k <= |r.acts|
    ensures RaisesWithin(r.game, r.hands[k])
  {
    if k > 0 {
      RunRaisesWithin(r, k - 1);
      assert r.LegalAt(k - 1);
      ActionRaisesWithin(r.game, r.hands[k - 1], r.acts[k - 1]);
    }
  }

  lemma ActionRaisesWithin(g: Game, h: Hand, a: Action)
    requires g.Valid() && h.Shape(g) && Legal(g, h, a) && RaisesWithin(g, h)
    ensures RaisesWithin(g, DoAction(g, h, a))
  {
    hide NumAble, CurrentPlayer;
    ActLog(g, h, a);
    var log := h.Log();
    assert (log + [Move(a, CurrentPlayer(g, h))])[..|log|] == log;
  }

  // ---------------------------------------------------------------- the bet of a limit game

  /** What the raises of the first rounds add up to. */
  function RaisedIn(g: Game, moves: seq<seq<Move>>, rounds: nat): int
    requires rounds <= |moves| && rounds <= |g.raiseSize|
  {
    if rounds == 0 then 0
    else RaisedIn(g, moves, rounds - 1) + Raises(moves[rounds - 1]) * g.raiseSize[rounds - 1]
  }

  /** The largest blind and all raises. */
  function LimitBet(g: Game, moves: seq<seq<Move>>): int
    requires |moves| == |g.raiseSize|
  {
    MaxBlind(g.blind, 0) + RaisedIn(g, moves, |moves|)
  }

  lemma {:induction false} OneRaiseMore(g: Game, moves: seq<seq<Move>>, q: nat, e: Move, rounds: nat)
    requires q < |moves| && rounds <= |moves| == |g.raiseSize|
    ensures RaisedIn(g, moves[q := moves[q] + [e]], rounds) ==
      RaisedIn(g, moves, rounds) + if q < rounds && e.action.kind.Raise? then g.raiseSize[q] else 0
  {
    if rounds > 0 {
      OneRaiseMore(g, moves, q, e, rounds - 1);
      assert (moves[q] + [e])[..|moves[q]|] == moves[q];
      var n := Raises(moves[rounds - 1]);
      assert (n + 1) * g.raiseSize[rounds - 1] == n * g.raiseSize[rounds - 1] + g.raiseSize[rounds - 1];
    }
  }

  ghost predicate DeepEnough(stacks: seq<int>, bet: int) {
    forall p :: 0 <= p < |stacks| ==> bet <= stacks[p]
  }

  /** As long as everybody could pay it, the bet is the largest blind and the size of every raise of the log. */
  lemma {:induction false} LimitBetIsLogged(r: Run, k: nat)
    requires r.Valid() && !r.game.noLimit && k <= |r.acts| && forall q :: 0 <= q < |r.game.raiseSize| ==>
      r.game.raiseSize[q] >= 0
    requires |r.hands[k].moves| == |r.game.raiseSize| && DeepEnough(r.stacks, LimitBet(r.game, r.hands[k].moves))
    ensures r.hands[k].maxSpent == LimitBet(r.game, r.hands[k].moves)
  {
    hide LimitBet, DoAction, Legal, TurnInv, Game.Valid, Hand.Shape;
    if k == 0 {
      DealIsLogged(r.game, r.stacks);
    } else {
      var h, a := r.hands[k - 1], r.acts[k - 1];
      assert r.LegalAt(k - 1);
      RunKeepsTurn(r, k - 1);
      ActionRaises(r.game, h, a);
      LimitBetIsLogged(r, k - 1);
      ActionBets(r.game, h, a);
    }
  }

  lemma DealIsLogged(g: Game, stacks: seq<int>)
    requires g.Valid()
    ensures Deal(g, stacks).maxSpent == LimitBet(g, Deal(g, stacks).moves)
  {
    NothingRaised(g, Deal(g, stacks).moves, g.numRounds);
  }

  lemma {:induction false} NothingRaised(g: Game, moves: seq<seq<Move>>, rounds: nat)
    requires rounds <= |moves| == |g.raiseSize| && forall q :: 0 <= q < |moves| ==> moves[q] == []
    ensures RaisedIn(g, moves, rounds) == 0
  {
    if rounds > 0 { NothingRaised(g, moves, rounds - 1); }
  }

  lemma ActionRaises(g: Game, h: Hand, a: Action)
    requires g.Valid() && h.Shape(g)
    ensures var after := DoAction(g, h, a).moves;
      h.round < |after| == |h.moves| == |g.raiseSize| &&
      LimitBet(g, after) == LimitBet(g, h.moves) + if a.kind.Raise? then g.raiseSize[h.round] else 0
  {
    hide MaxBlind;
    ActLog(g, h, a);
    var e := Move(a, CurrentPlayer(g, h));
    assert DoAction(g, h, a).moves == Act(g, h, a).moves == h.moves[h.round := h.moves[h.round] + [e]];
    OneRaiseMore(g, h.moves, h.round, e, |h.moves|);
  }

  lemma ActionBets(g: Game, h: Hand, a: Action)
    requires g.Valid() && h.Shape(g) && !g.noLimit
    requires a.kind.Raise? ==> DeepEnough(h.stack, h.maxSpent + g.raiseSize[h.round])
    ensures DoAction(g, h, a).maxSpent == h.maxSpent + if a.kind.Raise? then g.raiseSize[h.round] else 0
  {
    var p := CurrentPlayer(g, h);
    assert SameTable(DoAction(g, h, a), Act(g, h, a));
    assert p < |h.stack|;
  }
}
