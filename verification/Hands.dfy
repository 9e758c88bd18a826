/**
  Whole hands: every hand that legal actions can reach from the deal keeps the turn order, moves its
  chips only as the rules say, ends, and is rebuilt from its action log.
 */
module Hands {
  import opened Betting
  import opened TurnOrder

  /** Actions done from the deal on, and the hands they lead to: acts[k] leads from hands[k] to hands[k + 1]. */
  datatype Run = Run(game: Game, stacks: seq<int>, acts: seq<Action>, hands: seq<Hand>)
  {
    /** Action k is legal where it is done, and leads to the next hand. */
    ghost predicate LegalAt(k: nat) {
      k < |acts| && k + 1 < |hands| ==>
        && game.Valid() && hands[k].Shape(game)
        && Legal(game, hands[k], acts[k])
        && hands[k + 1] == DoAction(game, hands[k], acts[k])
    }

    ghost predicate Valid() {
      && game.Valid() && game.Covers(stacks)
      && |hands| == |acts| + 1
      && hands[0] == Deal(game, stacks)
      && forall k: nat :: LegalAt(k)
    }

    function Last(): Hand
      requires |hands| > 0
    {
      hands[|hands| - 1]
    }
  }

  // ---------------------------------------------------------------- the turn order is kept

  lemma DealInTurn(g: Game, stacks: seq<int>)
    requires g.Valid() && g.Covers(stacks)
    ensures TurnInv(g, Deal(g, stacks))
  {
    var h := Deal(g, stacks);
    var p :| 0 <= p < |stacks| && g.blind[p] < stacks[p];
    assert p in AbleBelow(h, g.numPlayers);
    AbleAtMost(h, g.numPlayers);
  }

  lemma CloseKeepsTurn(g: Game, h: Hand)
    requires g.Valid() && OrderInv(g, h) && !h.finished
    ensures Close(g, h).finished || TurnInv(g, Close(g, h))
  {
    var h2 := Close(g, h);
    if h2.round != h.round && !h2.finished {
      assert h2.Log() == [];
      assert AbleBelow(h2, g.numPlayers) == AbleBelow(h, g.numPlayers);
      AbleAtMost(h, g.numPlayers);
    }
  }

  /** A legal action finishes the hand or leaves it with somebody yet to match the bet. */
  lemma ActionKeepsTurn(g: Game, h: Hand, a: Action)
    requires g.Valid() && TurnInv(g, h) && Legal(g, h, a)
    ensures DoAction(g, h, a).finished || TurnInv(g, DoAction(g, h, a))
  {
    ActKeepsOrder(g, h, a);
    CloseKeepsTurn(g, Act(g, h, a));
  }

  /** Every hand of a run that is not finished is in turn order. */
  lemma {:induction false} RunKeepsTurn(r: Run, k: nat)
    requires r.Valid() && k <= |r.acts|
    ensures r.hands[k].Shape(r.game) && r.hands[k].stack == r.stacks
    ensures r.hands[k].finished || TurnInv(r.game, r.hands[k])
    ensures k < |r.acts| ==> !r.hands[k].finished
  {
    hide RaiseRange, DoAction, Game.Valid;
    if k == 0 {
      DealInTurn(r.game, r.stacks);
    } else {
      RunKeepsTurn(r, k - 1);
      assert r.LegalAt(k - 1);
      ActionKeepsTurn(r.game, r.hands[k - 1], r.acts[k - 1]);
    }
    assert r.LegalAt(k);
  }

  // ---------------------------------------------------------------- one action more

  ghost function Longer(r: Run, a: Action): Run
    requires |r.hands| > 0 && r.game.Valid() && r.Last().Shape(r.game)
  {
    Run(r.game, r.stacks, r.acts + [a], r.hands + [DoAction(r.game, r.Last(), a)])
  }

  lemma LongerIsValid(r: Run, a: Action)
    requires r.Valid() && r.Last().Shape(r.game) && Legal(r.game, r.Last(), a)
    ensures Longer(r, a).Valid()
  {
    forall k: nat ensures Longer(r, a).LegalAt(k) { assert r.LegalAt(k); }
  }

  // ---------------------------------------------------------------- when a round closes

  /** Everybody who can still act made an entry since the last raise. */
  ghost predicate AllActed(h: Hand) {
    forall q: nat :: q < |h.folded| && h.Able(q) ==> Acted(Since(h.Log()), q)
  }

  ghost predicate BetsMatched(h: Hand)
  {
    forall q: nat :: q < |h.folded| && h.Able(q) ==> q < |h.spent| && h.spent[q] == h.maxSpent
  }

  lemma AllActedMatched(g: Game, h: Hand)
    requires g.Valid() && OrderInv(g, h)
    ensures AllActed(h) <==> Called(h, h.Log()) >= NumAble(h)
    ensures AllActed(h) ==> BetsMatched(h)
  {
    PendingCount(g, h);
    var pending := Pending(h, Since(h.Log()));
    if pending != {} {
      var q :| q in pending;
      assert !AllActed(h);
    } else {
      forall q: nat | q < |h.folded| && h.Able(q) ensures Acted(Since(h.Log()), q) {
        assert q !in pending;
      }
    }
    forall q: nat | AllActed(h) && q < |h.folded| && h.Able(q) ensures h.spent[q] == h.maxSpent {
      var i :| 0 <= i < |Since(h.Log())| && Since(h.Log())[i].player == q;
      assert Settled(h, Since(h.Log())[i]);
    }
  }

  lemma CloseCases(g: Game, h: Hand)
    requires g.Valid() && OrderInv(g, h) && !h.finished
    ensures var r := Close(g, h);
      && ((r.finished || r.round != h.round) <==> (NumFolded(h) + 1 >= g.numPlayers || AllActed(h)))
      && (r.finished <==> (NumFolded(h) + 1 >= g.numPlayers
                           || (AllActed(h) && (NumAble(h) <= 1 || h.round + 1 == g.numRounds))))
  {
    AllActedMatched(g, h);
  }

  /**
    An action closes the round (or the hand) exactly when it leaves one player unfolded or everybody
    able to act has acted on the current bet; then all of them have put in exactly maxSpent.
   */
  lemma RoundClosesWhenMatched(g: Game, h: Hand, a: Action)
    requires g.Valid() && TurnInv(g, h) && Legal(g, h, a)
    ensures var h1, h2 := Act(g, h, a), DoAction(g, h, a);
      && ((h2.finished || h2.round != h.round) <==> (NumFolded(h1) + 1 >= g.numPlayers || AllActed(h1)))
      && (AllActed(h1) ==> BetsMatched(h1))
      && (h2.finished <==> (NumFolded(h1) + 1 >= g.numPlayers
                            || (AllActed(h1) && (NumAble(h1) <= 1 || h.round + 1 == g.numRounds))))
  {
    ActKeepsOrder(g, h, a);
    assert Act(g, h, a).round == h.round && !Act(g, h, a).finished;
    CloseCases(g, Act(g, h, a));
    AllActedMatched(g, Act(g, h, a));
  }

  // ---------------------------------------------------------------- the log

  function Actions(log: seq<Move>): seq<Action> {
    if log == [] then [] else Actions(log[..|log| - 1]) + [log[|log| - 1].action]
  }

  /** The actions of the first k rounds, in the order they were done. */
  function FlatLog(moves: seq<seq<Move>>, k: nat): seq<Action>
    requires k <= |moves|
  {
    if k == 0 then [] else FlatLog(moves, k - 1) + Actions(moves[k - 1])
  }

  function History(h: Hand): seq<Action> {
    FlatLog(h.moves, |h.moves|)
  }

  lemma {:induction false} FlatLogSnoc(moves: seq<seq<Move>>, r: nat, m: Move, k: nat)
    requires r < |moves| && k <= |moves|
    requires forall j :: r < j < |moves| ==> moves[j] == []
    ensures FlatLog(moves[r := moves[r] + [m]], k) == FlatLog(moves, k) + if k > r then [m.action] else []
  {
    if k > 0 {
      FlatLogSnoc(moves, r, m, k - 1);
      if k - 1 == r { assert (moves[r] + [m])[..|moves[r]|] == moves[r]; }
    }
  }

  lemma ActionExtendsHistory(g: Game, h: Hand, a: Action)
    requires g.Valid() && TurnInv(g, h)
    ensures History(DoAction(g, h, a)) == History(h) + [a]
  {
    FlatLogSnoc(h.moves, h.round, Move(a, CurrentPlayer(g, h)), |h.moves|);
  }

  /** The log of a hand is exactly the actions that led to it. */
  lemma {:induction false} LogIsTheRun(r: Run, k: nat)
    requires r.Valid() && k <= |r.acts|
    ensures History(r.hands[k]) == r.acts[..k]
  {
    if k == 0 {
      EmptyHistory(r.hands[0].moves, r.game.numRounds);
    } else {
      LogIsTheRun(r, k - 1);
      HistoryStep(r, k - 1);
      assert r.acts[..k] == r.acts[..k - 1] + [r.acts[k - 1]];
    }
  }

  lemma HistoryStep(r: Run, k: nat)
    requires r.Valid() && k < |r.acts|
    ensures History(r.hands[k + 1]) == History(r.hands[k]) + [r.acts[k]]
  {
    RunKeepsTurn(r, k);
    assert r.LegalAt(k);
    ActionExtendsHistory(r.game, r.hands[k], r.acts[k]);
  }

  lemma EmptyHistory(moves: seq<seq<Move>>, k: nat)
    requires k <= |moves| && forall r :: 0 <= r < |moves| ==> moves[r] == []
    ensures FlatLog(moves, k) == []
  {
  }

  /** Hands with the same game, stacks and log are the same hand. */
  lemma LogDeterminesHand(r: Run, s: Run)
    requires r.Valid() && s.Valid() && r.game == s.game && r.stacks == s.stacks
    requires History(r.Last()) == History(s.Last())
    ensures r.Last() == s.Last()
  {
    LogIsTheRun(r, |r.acts|);
    LogIsTheRun(s, |s.acts|);
    assert r.acts == r.acts[..|r.acts|] == s.acts[..|s.acts|] == s.acts;
    SameActionsSameHands(r, s, |r.acts|);
  }

  lemma {:induction false} SameActionsSameHands(r: Run, s: Run, k: nat)
    requires r.Valid() && s.Valid() && r.game == s.game && r.stacks == s.stacks && r.acts == s.acts && k <= |r.acts|
    ensures r.hands[k] == s.hands[k]
  {
    hide DoAction, Legal, Deal, Hand.Shape, Game.Valid, Game.Covers;
    if k > 0 {
      SameActionsSameHands(r, s, k - 1);
      assert r.LegalAt(k - 1) && s.LegalAt(k - 1);
    }
  }

  // ---------------------------------------------------------------- every hand ends

  ghost predicate LogsFit(h: Hand) {
    forall r :: 0 <= r < |h.moves| ==> |h.moves[r]| <= MAX_NUM_ACTIONS
  }

  lemma {:induction false} RunLogsFit(r: Run, k: nat)
    requires r.Valid() && k <= |r.acts|
    ensures LogsFit(r.hands[k])
  {
    if k > 0 {
      RunKeepsTurn(r, k - 1);
      assert r.LegalAt(k - 1);
      ActKeepsOrder(r.game, r.hands[k - 1], r.acts[k - 1]);
    }
  }

  lemma {:induction false} FlatLogSize(moves: seq<seq<Move>>, k: nat)
    requires k <= |moves| && forall r :: 0 <= r < |moves| ==> |moves[r]| <= MAX_NUM_ACTIONS
    ensures |FlatLog(moves, k)| <= MAX_NUM_ACTIONS * k
  {
    if k > 0 {
      FlatLogSize(moves, k - 1);
      ActionsSize(moves[k - 1]);
    }
  }

  lemma ActionsSize(log: seq<Move>)
    ensures |Actions(log)| == |log|
  {
  }

  /** No run is longer than MAX_NUM_ACTIONS actions for each round. */
  lemma HandsEnd(r: Run)
    requires r.Valid()
    ensures |r.acts| <= MAX_NUM_ACTIONS * r.game.numRounds
  {
    RunKeepsTurn(r, |r.acts|);
    RunLogsFit(r, |r.acts|);
    FlatLogSize(r.Last().moves, r.game.numRounds);
    LogIsTheRun(r, |r.acts|);
  }

  /**
    In a hand of a run that is not finished the search for the next player succeeds, that player has not
    acted on the current bet, the log of the round has room for one more action, and calling is possible.
   */
  lemma NeverStuck(r: Run, k: nat)
    requires r.Valid() && k <= |r.acts| && !r.hands[k].finished
    ensures var g, h := r.game, r.hands[k];
      && h.Shape(g) && h.Able(CurrentPlayer(g, h))
      && !Acted(Since(h.Log()), CurrentPlayer(g, h))
      && |h.Log()| < MAX_NUM_ACTIONS
      && Legal(g, h, Action(Call, 0))
  {
    RunKeepsTurn(r, k);
    var g, h := r.game, r.hands[k];
    CurrentPlayerComesNext(g, h);
    OrderKept(h, g.numPlayers, Since(h.Log()), Move(Action(Call, 0), CurrentPlayer(g, h)));
  }

  /** The log of a later round is empty. */
  lemma {:induction false} LaterRoundsEmpty(r: Run, k: nat)
    requires r.Valid() && k <= |r.acts|
    ensures forall j :: r.hands[k].round < j < |r.hands[k].moves| ==> r.hands[k].moves[j] == []
  {
    if k > 0 {
      RunKeepsTurn(r, k - 1);
      assert r.LegalAt(k - 1);
      ActLog(r.game, r.hands[k - 1], r.acts[k - 1]);
    }
  }
}
