/**
  The smallest raise of a no-limit hand (min_no_limit_raise_to of modules/core/src/game.c), told from the log alone.
 */
module MinRaise {
  import opened Betting
  import opened Hands

  /** What a player must have put in after these entries: the size of the last raise, or the bet they began with. */
  function BetAfter(log: seq<Move>, bet: int): int {
    if log == [] then bet
    else if log[|log| - 1].action.kind.Raise? then log[|log| - 1].action.size
    else BetAfter(log[..|log| - 1], bet)
  }

  /** The bet a round begins with. */
  function BetBefore(g: Game, moves: seq<seq<Move>>, r: nat): int
    requires r <= |moves|
  {
    if r == 0 then MaxBlind(g.blind, 0) else BetAfter(moves[r - 1], BetBefore(g, moves, r - 1))
  }

  /** The smallest raise before anybody has raised in the round. */
  function Opening(g: Game, r: nat, bet: int): int {
    if r == 0 then if bet == 0 then 1 else 2 * bet
    else bet + MaxBlind(g.blind, 1)
  }

  /** Entry i raises. */
  predicate RaiseAt(log: seq<Move>, i: nat) {
    i < |log| && log[i].action.kind.Raise?
  }

  /** What it takes to raise on top of entry i by as much as that raised the bet. */
  function SameAgain(log: seq<Move>, i: nat, bet: int): int
    requires i < |log|
  {
    log[i].action.size + (log[i].action.size - BetAfter(log[..i], bet))
  }

  /** The largest of the opening raise and of what every raise of the round asks for. */
  ghost predicate Asked(m: int, g: Game, moves: seq<seq<Move>>, r: nat)
    requires r < |moves|
  {
    var log, bet := moves[r], BetBefore(g, moves, r);
    && Opening(g, r, bet) <= m && (forall i: nat :: RaiseAt(log, i) ==> SameAgain(log, i, bet) <= m)
    && (m == Opening(g, r, bet) || exists i: nat :: RaiseAt(log, i) && SameAgain(log, i, bet) == m)
  }

  /** Bet and smallest raise are those of the log of round r, the last one with entries or the one in play. */
  ghost predicate AskedIn(g: Game, h: Hand, r: nat) {
    && r <= h.round && r < |h.moves| && (!h.finished ==> r == h.round)
    && (forall s :: r < s < |h.moves| ==> h.moves[s] == [])
    && h.maxSpent == BetAfter(h.moves[r], BetBefore(g, h.moves, r)) && Asked(h.minRaiseTo, g, h.moves, r)
  }

  lemma {:induction false} EarlierRounds(g: Game, moves: seq<seq<Move>>, moves': seq<seq<Move>>, r: nat)
    requires r <= |moves| && r <= |moves'| && moves[..r] == moves'[..r]
    ensures BetBefore(g, moves, r) == BetBefore(g, moves', r)
  {
    if r > 0 {
      assert moves[r - 1] == moves[..r][r - 1] == moves'[..r][r - 1] == moves'[r - 1];
      assert moves[..r - 1] == moves[..r][..r - 1] == moves'[..r][..r - 1] == moves'[..r - 1];
      EarlierRounds(g, moves, moves', r - 1);
    }
  }

  /** One entry more. */
  lemma OneMoreEntry(m: int, g: Game, moves: seq<seq<Move>>, moves': seq<seq<Move>>, r: nat, e: Move)
    requires r < |moves| && moves' == moves[r := moves[r] + [e]] && Asked(m, g, moves, r)
    ensures var bet := BetAfter(moves[r], BetBefore(g, moves, r));
      && BetBefore(g, moves', r) == BetBefore(g, moves, r)
      && BetAfter(moves'[r], BetBefore(g, moves', r)) == (if e.action.kind.Raise? then e.action.size else bet)
      && Asked(if e.action.kind.Raise? && 2 * e.action.size - bet > m then 2 * e.action.size - bet else m, g, moves', r)
  {
    EarlierRounds(g, moves, moves', r);
    var log, log', start := moves[r], moves'[r], BetBefore(g, moves, r);
    assert log'[..|log|] == log;
    forall i: nat | i < |log|
      ensures RaiseAt(log', i) == RaiseAt(log, i) && SameAgain(log', i, start) == SameAgain(log, i, start)
    {
      assert log'[..i] == log[..i];
    }
    assert SameAgain(log', |log|, start) == 2 * e.action.size - BetAfter(log, start);
    assert RaiseAt(log', |log|) == e.action.kind.Raise?;
  }

  lemma ActAsks(g: Game, h: Hand, a: Action)
    requires g.Valid() && g.noLimit && h.Shape(g) && AskedIn(g, h, h.round)
    ensures var h1 := Act(g, h, a);
      h1.round == h.round && h1.finished == h.finished && AskedIn(g, h1, h.round)
  {
    var p := CurrentPlayer(g, h);
    var h1 := Act(g, h, a);
    OneMoreEntry(h.minRaiseTo, g, h.moves, h1.moves, h.round, Move(a, p));
  }

  lemma CloseAsks(g: Game, h: Hand)
    requires g.Valid() && h.Shape(g) && !h.finished && AskedIn(g, h, h.round)
    ensures var r := Close(g, h);
      AskedIn(g, r, if r.finished then h.round else r.round)
  {
    hide EndingOf;
    var r := Close(g, h);
    if r.round == h.round + 1 && !r.finished {
      assert r.moves[r.round] == [];
    }
  }

  lemma DealAsks(g: Game, stacks: seq<int>)
    requires g.Valid() && g.noLimit
    ensures AskedIn(g, Deal(g, stacks), 0)
  {
  }

  /**
    In every hand of a no-limit game the bet is the size of the last raise, and the smallest next raise is the largest
    of two things: the round's opening raise, and for every raise of the round its size and what it put on top again.
   */
  lemma {:induction false} RunAsks(r: Run, k: nat) returns (round: nat)
    requires r.Valid() && r.game.noLimit && k <= |r.acts|
    ensures AskedIn(r.game, r.hands[k], round)
  {
    hide AskedIn, Deal, Act, Close, Legal, Game.Valid, Hand.Shape;
    if k == 0 {
      DealAsks(r.game, r.stacks);
      round := 0;
    } else {
      round := RunAsks(r, k - 1);
      var h, a := r.hands[k - 1], r.acts[k - 1];
      assert r.LegalAt(k - 1);
      RunKeepsTurn(r, k - 1);
      RoundInPlay(r.game, h, round);
      ActAsks(r.game, h, a);
      CloseAsks(r.game, Act(r.game, h, a));
      round := if r.hands[k].finished then h.round else r.hands[k].round;
    }
  }

  lemma RoundInPlay(g: Game, h: Hand, r: nat)
    requires AskedIn(g, h, r) && !h.finished
    ensures r == h.round
  {
  }
}
