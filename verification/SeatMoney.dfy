/**
  Whose winnings the dealer of modules/agent/src/dealer.c credits to a seat: those of the player who sits there in that
  hand, as the button goes round.
 */
module SeatMoney {
  import opened Betting
  import opened Chips
  import opened Matches
  import opened MatchMoney
  import SidePots
  import Payoffs

  /** The player sits in the seat when player 0 sits at the button. */
  predicate Sits(n: nat, button: nat, p: nat, s: nat)
    requires n > 0
  {
    p < n && s == (p + button) % n
  }

  // ---------------------------------------------------------------- one turn

  /**
    When a hand ends every seat's total grows by what the player wins who sits there, and the button moves on one seat,
    unless seats are fixed.
   */
  lemma TurnCredits(t: Table, m: Match, a: Action, p: nat, s: nat)
    requires AtTable(t, m) && Sits(t.game.numPlayers, m.player0Seat, p, s)
    ensures s < t.game.numPlayers == |m.total| == |Turn(t, m, a).total|
    ensures var h, n := DoAction(t.game, m.hand, a), t.game.numPlayers;
      && Turn(t, m, a).total[s] == m.total[s] + (if h.finished then t.worth(h.spent, h.folded, m.ranks, p) else 0.0)
      && Turn(t, m, a).player0Seat ==
         if h.finished && !t.fixedSeats then (m.player0Seat + 1) % n else m.player0Seat
  {
    hide DoAction, Deal, Game.Valid, Hand.Shape;
    SeatsRoundTrip(t.game.numPlayers, m.player0Seat, p);
  }

  // ---------------------------------------------------------------- a live match

  /** Entry k ends a hand. */
  ghost predicate Ends(v: Live, k: nat) {
    v.Sized() && k < |v.es| && AtTable(v.t, v.ms[k]) && DoAction(v.t.game, v.ms[k].hand, v.es[k].action).finished
  }

  /** The hands that the first k entries end. */
  ghost function HandsDone(v: Live, k: nat): nat {
    if k == 0 then 0 else HandsDone(v, k - 1) + if Ends(v, k - 1) then 1 else 0
  }

  /** Where player 0 sits when the match has come to entry k. */
  ghost function Button(v: Live, k: nat): nat
    requires v.Valid()
  {
    if v.t.fixedSeats then v.ms[0].player0Seat else (v.ms[0].player0Seat + HandsDone(v, k)) % v.t.game.numPlayers
  }

  /** What player p wins with the hand that entry k ends. */
  ghost function WonAt(v: Live, k: nat, p: nat): real
    requires v.Valid() && Ends(v, k)
  {
    var m := v.ms[k];
    var h := DoAction(v.t.game, m.hand, v.es[k].action);
    v.t.worth(h.spent, h.folded, m.ranks, p)
  }

  /** What they win together with the first k entries, player who[j] playing at entry j. */
  ghost function WonBy(v: Live, who: seq<nat>, k: nat): real
    requires v.Valid() && k <= |who|
  {
    if k == 0 then 0.0 else WonBy(v, who, k - 1) + if Ends(v, k - 1) then WonAt(v, k - 1, who[k - 1]) else 0.0
  }

  /** In seat s, hand after hand, sit the players of who. */
  ghost predicate SitThere(v: Live, who: seq<nat>, s: nat)
    requires v.Valid()
  {
    forall k: nat :: k < |who| ==> Sits(v.t.game.numPlayers, Button(v, k), who[k], s)
  }

  lemma {:induction false} ButtonGoesRound(v: Live, k: nat)
    requires v.Valid() && k <= |v.es|
    ensures AtTable(v.t, v.ms[k]) && v.ms[k].player0Seat == Button(v, k)
  {
    hide DoAction, Game.Valid, Hand.Shape;
    if k == 0 {
      OneTurn(v.ms[0].player0Seat, v.t.game.numPlayers);
    } else {
      hide Button, HandsDone, LiveTurn, AtTable;
      ButtonGoesRound(v, k - 1);
      assert v.TurnAt(k - 1);
      NextIsTurn(v, k - 1);
      ButtonMoves(v.t, v.ms[k - 1], v.es[k - 1].action);
      NextButton(v, k - 1);
    }
  }

  lemma NextIsTurn(v: Live, k: nat)
    requires v.Valid() && k < |v.es| && v.TurnAt(k)
    ensures AtTable(v.t, v.ms[k]) && v.ms[k + 1] == Turn(v.t, v.ms[k], v.es[k].action) && AtTable(v.t, v.ms[k + 1])
  {
    hide DoAction, Check, Game.Valid, Hand.Shape;
  }

  lemma ButtonMoves(t: Table, m: Match, a: Action)
    requires AtTable(t, m)
    ensures Turn(t, m, a).player0Seat ==
      if DoAction(t.game, m.hand, a).finished && !t.fixedSeats then (m.player0Seat + 1) % t.game.numPlayers
      else m.player0Seat
  {
    hide DoAction, Game.Valid, Hand.Shape;
  }

  lemma NextButton(v: Live, k: nat)
    requires v.Valid() && k < |v.es| && AtTable(v.t, v.ms[k])
    ensures v.t.game.numPlayers > 0
    ensures Button(v, k + 1) ==
      if DoAction(v.t.game, v.ms[k].hand, v.es[k].action).finished && !v.t.fixedSeats then
        (Button(v, k) + 1) % v.t.game.numPlayers
      else Button(v, k)
  {
    hide DoAction, Game.Valid, Hand.Shape;
    assert v.t.game.numPlayers > 0 by { TableHasPlayers(v.t, v.ms[k]); }
    NextSeat(v.ms[0].player0Seat + HandsDone(v, k), v.t.game.numPlayers);
  }

  lemma TableHasPlayers(t: Table, m: Match)
    requires AtTable(t, m)
    ensures t.game.numPlayers > 0
  {
  }

  lemma NextSeat(x: nat, n: nat)
    requires n > 0
    ensures (x % n + 1) % n == (x + 1) % n
  {
    var q := x / n;
    assert x == q * n + x % n;
    if x % n + 1 < n {
      assert x + 1 == q * n + (x % n + 1);
      Remainder(x + 1, n, q, x % n + 1);
      Remainder(x % n + 1, n, 0, x % n + 1);
    } else {
      assert x + 1 == (q + 1) * n + 0;
      Remainder(x + 1, n, q + 1, 0);
      Remainder(n, n, 1, 0);
    }
  }

  lemma Remainder(x: nat, n: nat, q: nat, r: nat)
    requires n > 0 && x == q * n + r && r < n
    ensures x % n == r
  {
    var d := x / n - q;
    assert x == n * (x / n) + x % n;
    assert n * d == n * (x / n) - n * q;
    if d >= 1 { AtLeastOnce(n, d); } else if d <= -1 { AtLeastOnce(n, -d); }
  }

  lemma AtLeastOnce(n: int, d: int)
    requires n > 0 && d >= 1
    ensures n * d >= n && n * -d <= -n
  {
  }

  /** In every hand somebody sits there. */
  lemma SomebodySits(v: Live, s: nat, k: nat) returns (who: seq<nat>)
    requires v.Valid() && s < v.t.game.numPlayers && k <= |v.es|
    ensures |who| == k && SitThere(v, who, s)
  {
    var n := v.t.game.numPlayers;
    who := seq(k, j requires 0 <= j < k => SeatToPlayer(n, Button(v, j), s));
    forall j: nat | j < k ensures Sits(n, Button(v, j), who[j], s) {
      ButtonGoesRound(v, j);
      SeatsRoundTrip(n, Button(v, j), s);
    }
  }

  /** At any point of a live match a seat has what it began with and what those won who sat there, hand by hand. */
  lemma {:induction false} SeatsKeepTheirOwn(v: Live, who: seq<nat>, s: nat, k: nat)
    requires v.Valid() && k <= |who| == |v.es| && SitThere(v, who, s) && s < v.t.game.numPlayers
    ensures AtTable(v.t, v.ms[k]) && v.ms[k].total[s] == v.ms[0].total[s] + WonBy(v, who, k)
  {
    hide DoAction, Game.Valid, Hand.Shape;
    ButtonGoesRound(v, k);
    if k > 0 {
      SeatsKeepTheirOwn(v, who, s, k - 1);
      assert v.TurnAt(k - 1);
      ButtonGoesRound(v, k - 1);
      assert Sits(v.t.game.numPlayers, Button(v, k - 1), who[k - 1], s);
      TurnCredits(v.t, v.ms[k - 1], v.es[k - 1].action, who[k - 1], s);
    }
  }

  // ---------------------------------------------------------------- by the rules of the game

  /** No amount is negative. */
  ghost predicate Sound(h: Hand) {
    && (forall p :: 0 <= p < |h.stack| ==> h.stack[p] >= 0) && (forall p :: 0 <= p < |h.spent| ==> h.spent[p] >= 0)
    && h.maxSpent >= 0 && h.minRaiseTo >= 0
  }

  /** Raises put something on top: always without a limit, by their sizes with one. */
  ghost predicate RaisesUp(g: Game) {
    g.noLimit || forall r :: 0 <= r < |g.raiseSize| ==> g.raiseSize[r] >= 0
  }

  lemma {:induction false} HighestBlind(blind: seq<int>, floor: int)
    ensures MaxBlind(blind, floor) >= floor
  {
    if blind != [] { HighestBlind(blind[..|blind| - 1], floor); }
  }

  lemma DealIsSound(g: Game)
    requires g.Valid() && g.Covers(g.stack)
    ensures Sound(Deal(g, g.stack))
  {
    HighestBlind(g.blind, 0);
  }

  lemma ActionIsSound(g: Game, h: Hand, a: Action)
    requires g.Valid() && h.Shape(g) && Sound(h) && Legal(g, h, a) && RaisesUp(g)
    ensures Sound(DoAction(g, h, a))
  {
    HighestBlind(g.blind, 1);
    assert Sound(Act(g, h, a));
  }

  lemma {:induction false} MatchIsSound(v: Live, k: nat)
    requires Begins(v) && k < |v.ms| && DealsRanks(v.t) && RaisesUp(v.t.game)
    ensures AtTable(v.t, v.ms[k]) && Sound(v.ms[k].hand) && Ranks(v.t, v.ms[k].ranks)
  {
    DealIsSound(v.t.game);
    if k > 0 {
      MatchIsSound(v, k - 1);
      assert v.TurnAt(k - 1);
      TurnIsSound(v.t, v.ms[k - 1], v.es[k - 1].action);
    }
  }

  lemma TurnIsSound(t: Table, m: Match, a: Action)
    requires AtTable(t, m) && Sound(m.hand) && Ranks(t, m.ranks) && DealsRanks(t) && RaisesUp(t.game)
    requires Check(t.game, m.hand, false, a).0 != 0
    ensures Sound(Turn(t, m, a).hand) && Ranks(t, Turn(t, m, a).ranks)
    ensures Sound(DoAction(t.game, m.hand, a))
  {
    hide Check, DoAction, Sound, Ranks, Deal, Legal, Hand.Shape, Game.Valid, Game.Covers;
    LegalIsChecked(t.game, m.hand, a);
    ActionIsSound(t.game, m.hand, a);
    DealIsSound(t.game);
  }

  /** What a player wins with a hand is valueOfState. */
  lemma WonByTheRules(v: Live, k: nat, p: nat)
    requires Begins(v) && DealsRanks(v.t) && RaisesUp(v.t.game) && PaysByRules(v.t)
    requires Ends(v, k) && p < v.t.game.numPlayers
    ensures var h, ranks := DoAction(v.t.game, v.ms[k].hand, v.es[k].action), v.ms[k].ranks;
      && h.Shape(v.t.game) && |ranks| == v.t.game.numPlayers && SidePots.NoNegative(Payoffs.StakesOf(h, ranks))
      && WonAt(v, k, p) == Payoffs.StateValue(v.t.game, h, ranks, p)
  {
    MatchIsSound(v, k);
    assert v.TurnAt(k);
    TurnIsSound(v.t, v.ms[k], v.es[k].action);
    var h := DoAction(v.t.game, v.ms[k].hand, v.es[k].action);
    hide DoAction, Payoffs.StateValue;
    assert PaysAt(v.t, h, v.ms[k].ranks, p);
  }
}
