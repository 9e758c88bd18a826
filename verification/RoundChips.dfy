/**
  What sum_round_spent of modules/core/src/game.c is good for: in every hand that can be played, it tells what the
  players put in before the round, and what the last raiser put in on top, so that a raise of x times the last raise
  (XLastRaise in module ActionAbs) is x times what the round has raised so far.
 */
module RoundChips {
  import opened Betting
  import opened TurnOrder
  import opened Hands
  import opened ActionAbs

  /** Player p called or raised. */
  ghost predicate Bets(log: seq<Move>, p: nat) {
    exists i :: 0 <= i < |log| && log[i].player == p && (log[i].action.kind.Call? || log[i].action.kind.Raise?)
  }

  lemma BetsSnoc(log: seq<Move>, m: Move, p: nat)
    ensures Bets(log + [m], p) <==>
      Bets(log, p) || (m.player == p && (m.action.kind.Call? || m.action.kind.Raise?))
  {
    var more := log + [m];
    if Bets(log, p) {
      var i :| 0 <= i < |log| && log[i].player == p && (log[i].action.kind.Call? || log[i].action.kind.Raise?);
      assert more[i] == log[i];
    }
    if m.player == p && (m.action.kind.Call? || m.action.kind.Raise?) { assert more[|log|] == m; }
  }

  /** The rows of this round and of the rounds to come. */
  ghost predicate RowsRight(g: Game, h: Hand)
    requires h.Shape(g)
  {
    && (forall p: nat :: p < g.numPlayers ==>
          h.roundSpent[h.round][p] == if h.round == 0 || Bets(h.Log(), p) then h.spent[p] else 0)
    && forall r, p :: h.round < r < g.numRounds && 0 <= p < g.numPlayers ==> h.roundSpent[r][p] == 0
  }

  /** Whoever takes part in the round had spent m before it. */
  ghost predicate StartsFrom(g: Game, h: Hand, m: int)
    requires h.Shape(g)
  {
    if h.round == 0 then m == 0
    else forall p: nat :: p < g.numPlayers && (h.Able(p) || Bets(h.Log(), p)) ==> h.roundSpent[h.round - 1][p] == m
  }

  /** The last raiser has spent the most; when nobody raised, the most is what it was before. */
  ghost predicate TopRight(g: Game, h: Hand, m: int)
    requires g.Valid() && h.Shape(g)
  {
    match LastRaise(h.Log())
    case Some(last) => last.player < g.numPlayers && h.spent[last.player] == h.maxSpent && Bets(h.Log(), last.player)
    case None => h.maxSpent == if h.round == 0 then MaxBlind(g.blind, 0) else m
  }

  ghost predicate WithinStacks(h: Hand) {
    |h.spent| == |h.stack| && forall p :: 0 <= p < |h.spent| ==> h.spent[p] <= h.stack[p]
  }

  ghost predicate RoundInv(g: Game, h: Hand, m: int)
    requires g.Valid() && h.Shape(g)
  {
    RowsRight(g, h) && StartsFrom(g, h, m) && TopRight(g, h, m) && WithinStacks(h)
  }

  lemma DealRight(g: Game, stacks: seq<int>)
    requires g.Valid() && g.Covers(stacks)
    ensures RoundInv(g, Deal(g, stacks), 0)
  {
  }

  lemma LastRaiseSnoc(log: seq<Move>, m: Move)
    ensures LastRaise(log + [m]) == if m.action.kind.Raise? then Some(m) else LastRaise(log)
  {
    assert (log + [m])[..|log|] == log;
  }

  /** What an action does to the rows, before it is decided whether the round is over. */
  lemma ActRows(g: Game, h: Hand, a: Action)
    requires g.Valid() && h.Shape(g) && RowsRight(g, h) && !a.kind.Invalid?
    ensures RowsRight(g, Act(g, h, a))
  {
    var p, h1 := CurrentPlayer(g, h), Act(g, h, a);
    ActLog(g, h, a);
    forall q: nat | q < g.numPlayers
      ensures h1.roundSpent[h.round][q] == if h.round == 0 || Bets(h1.Log(), q) then h1.spent[q] else 0
    {
      BetsSnoc(h.Log(), Move(a, p), q);
    }
  }

  lemma ActStarts(g: Game, h: Hand, a: Action, m: int)
    requires g.Valid() && h.Shape(g) && StartsFrom(g, h, m) && h.Able(CurrentPlayer(g, h))
    ensures StartsFrom(g, Act(g, h, a), m)
  {
    var p, h1 := CurrentPlayer(g, h), Act(g, h, a);
    ActLog(g, h, a);
    if h.round > 0 {
      forall q: nat | q < g.numPlayers && (h1.Able(q) || Bets(h1.Log(), q))
        ensures h1.roundSpent[h.round - 1][q] == m
      {
        BetsSnoc(h.Log(), Move(a, p), q);
        assert h.Able(q) || Bets(h.Log(), q);
      }
    }
  }

  lemma ActTop(g: Game, h: Hand, a: Action, m: int)
    requires g.Valid() && h.Shape(g) && TopRight(g, h, m) && Legal(g, h, a) && WithinStacks(h)
    ensures TopRight(g, Act(g, h, a), m) && WithinStacks(Act(g, h, a))
  {
    var p, h1 := CurrentPlayer(g, h), Act(g, h, a);
    ActLog(g, h, a);
    LastRaiseSnoc(h.Log(), Move(a, p));
    match LastRaise(h1.Log()) {
    case Some(last) => BetsSnoc(h.Log(), Move(a, p), last.player);
    case None =>
    }
  }

  /** The entries since the last raise end the log. */
  lemma {:induction false} SinceEndsLog(log: seq<Move>)
    ensures |Since(log)| <= |log| && Since(log) == log[|log| - |Since(log)|..]
  {
    if log != [] && !log[|log| - 1].action.kind.Raise? {
      var n := |log| - 1;
      SinceEndsLog(log[..n]);
      assert log[..n][n - |Since(log[..n])|..] + [log[n]] == log[n - |Since(log[..n])|..];
    }
  }

  /** When a round closes, whoever can still act has matched the bet in it. */
  lemma ClosedRows(g: Game, h: Hand, p: nat)
    requires g.Valid() && OrderInv(g, h) && RowsRight(g, h) && p < g.numPlayers && h.Able(p)
    requires AllActed(h) && BetsMatched(h)
    ensures h.roundSpent[h.round][p] == h.maxSpent
  {
    var since := Since(h.Log());
    assert Acted(since, p);
    var k :| 0 <= k < |since| && since[k].player == p;
    assert Settled(h, since[k]);
    SinceEndsLog(h.Log());
    assert h.Log()[|h.Log()| - |since| + k] == since[k];
    assert Bets(h.Log(), p);
  }

  /** The next round starts from the most anybody has spent. */
  lemma CloseRows(g: Game, h: Hand, m: int)
    requires g.Valid() && OrderInv(g, h) && RoundInv(g, h, m) && !h.finished && !Close(g, h).finished
    ensures RoundInv(g, Close(g, h), if Close(g, h).round == h.round then m else h.maxSpent)
    ensures Close(g, h).round != h.round ==> Close(g, h).Log() == [] && Close(g, h).maxSpent == h.maxSpent
  {
    hide Called, NumAble, NumFolded, Since, Bets, LastRaise, MaxBlind;
    var r := Close(g, h);
    if r.round != h.round {
      NoLog();
      AllActedMatched(g, h);
      assert r.Log() == [];
      forall p: nat | p < g.numPlayers && r.Able(p) ensures r.roundSpent[h.round][p] == h.maxSpent {
        assert h.Able(p);
        ClosedRows(g, h, p);
      }
    }
  }

  lemma NoLog()
    ensures LastRaise([]) == None && forall p :: !Bets([], p)
  {
  }

  lemma ActionRows(g: Game, h: Hand, a: Action, m: int)
    requires g.Valid() && TurnInv(g, h) && Legal(g, h, a) && RoundInv(g, h, m) && h.Able(CurrentPlayer(g, h))
    requires !DoAction(g, h, a).finished
    ensures var r := DoAction(g, h, a);
      && RoundInv(g, r, if r.round == h.round then m else r.maxSpent) && (r.round != h.round ==> r.Log() == [])
  {
    ActRows(g, h, a);
    ActStarts(g, h, a, m);
    ActTop(g, h, a, m);
    ActKeepsOrder(g, h, a);
    ActLog(g, h, a);
    hide RowsRight, StartsFrom, TopRight, WithinStacks, OrderInv, TurnInv, Legal;
    assert !Act(g, h, a).finished;
    CloseRows(g, Act(g, h, a), m);
  }

  /** The hand of a run in which the round of hand k began. */
  ghost predicate RoundStarts(r: Run, k: nat, start: nat, m: int)
    requires k < |r.hands|
  {
    && start <= k && r.hands[start].round == r.hands[k].round && r.hands[start].Log() == []
    && m == if r.hands[k].round == 0 then 0 else r.hands[start].maxSpent
  }

  lemma {:induction false} RunRounds(r: Run, k: nat) returns (m: int, start: nat)
    requires r.Valid() && k <= |r.acts| && !r.hands[k].finished
    ensures r.hands[k].Shape(r.game) && RoundInv(r.game, r.hands[k], m) && RoundStarts(r, k, start, m)
  {
    hide RoundInv, DoAction, Legal, TurnInv;
    RunKeepsTurn(r, k);
    if k == 0 {
      DealRight(r.game, r.stacks);
      m, start := 0, 0;
    } else {
      var h, a := r.hands[k - 1], r.acts[k - 1];
      RunKeepsTurn(r, k - 1);
      NeverStuck(r, k - 1);
      assert r.LegalAt(k - 1);
      m, start := RunRounds(r, k - 1);
      ActionRows(r.game, h, a, m);
      if r.hands[k].round != h.round {
        m, start := r.hands[k].maxSpent, k;
      }
    }
  }

  /**
    Heads-up, the base of XLastRaise is what has been put on top of m, the amount both players had put in when the round
    began, and m is what a raise starts from.  There is no base exactly when nobody raised after the first round.
   */
  lemma LastRaiseIsTheRoundsTop(r: Run, k: nat) returns (m: int, start: nat)
    requires r.Valid() && k <= |r.acts| && ToAct(r.game, r.hands[k])
    ensures r.hands[k].Shape(r.game) && RoundStarts(r, k, start, m)
    ensures var g, h := r.game, r.hands[k];
      && Before(h, CurrentPlayer(g, h)) == m
      && LastRaiseNet(g, h) == if h.round > 0 && LastRaise(h.Log()).None? then None else Some(h.maxSpent - m)
  {
    hide RoundInv, ToAct, Legal, DoAction, LastRaiseNet;
    assert !r.hands[k].finished by { StillOpen(r.game, r.hands[k]); }
    m, start := RunRounds(r, k);
    BaseIsOnTop(r.game, r.hands[k], m);
  }

  lemma StillOpen(g: Game, h: Hand)
    requires ToAct(g, h)
    ensures !h.finished
  {
  }

  lemma BaseIsOnTop(g: Game, h: Hand, m: int)
    requires ToAct(g, h) && RoundInv(g, h, m)
    ensures g.Valid() && h.Shape(g) && Before(h, CurrentPlayer(g, h)) == m
    ensures LastRaiseNet(g, h) == if h.round > 0 && LastRaise(h.Log()).None? then None else Some(h.maxSpent - m)
  {
    if h.round == 0 {
      RaiserIsFound(g, h);
      LastRaiseMeans(h.Log());
      HighestBlind(g);
    }
    if BlindIsLast(h) { NobodyRaised(h.Log()); }
  }

  lemma HighestBlind(g: Game)
    requires g.Valid() && g.numPlayers == 2
    ensures MaxBlind(g.blind, 0) == BigBlind(g)
  {
    var b := g.blind;
    assert b[..|b| - 1] == [b[0]];
    assert MaxBlind([b[0]], 0) == b[0];
  }

  lemma NobodyRaised(log: seq<Move>)
    requires log == [] || (|log| == 1 && log[0].action.kind.Call?)
    ensures LastRaise(log) == None
  {
  }
}
