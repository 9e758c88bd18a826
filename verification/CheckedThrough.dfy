/**
  A heads-up game in which the betting tree of modules/engine/src/action_abs.cpp cannot be built: after two calls nobody
  has raised in the second round, whose raises are configured to go on top of the last raise.
 */
module CheckedThrough {
  import opened Betting
  import opened Hands
  import opened Chips
  import opened ActionAbs
  import opened BettingTree

  /** Blinds of 5 and 10 and two rounds. */
  function HeadsUp(): Game {
    Game(2, 2, true, [100, 100], false, [5, 10], [0, 0], [0, 1], [255, 255])
  }

  const Calling: Action := Action(Call, 0)

  function HandOf(round: nat, spent: seq<int>, log: seq<Move>): Hand {
    Hand(round, [100, 100], spent, 10, 20, [false, false], [log, []], false, [spent, [0, 0]])
  }

  function Dealt(): Hand { HandOf(0, [5, 10], []) }

  function FirstCall(): Hand { HandOf(0, [10, 10], [Move(Calling, 0)]) }

  function SecondRound(): Hand { HandOf(1, [10, 10], [Move(Calling, 0), Move(Calling, 1)]) }

  function Checked(): Run {
    Run(HeadsUp(), [100, 100], [Calling, Calling], [Dealt(), FirstCall(), SecondRound()])
  }

  lemma DealtIsDealt()
    ensures HeadsUp().Valid() && HeadsUp().Covers([100, 100]) && Deal(HeadsUp(), [100, 100]) == Dealt()
    ensures MaxBlind(HeadsUp().blind, 1) == 10
  {
    var b := [5, 10];
    assert b[..1] == [5] && [5][..0] == [];
    assert MaxBlind([5], 0) == 5 && MaxBlind(b, 0) == 10 && MaxBlind([5], 1) == 5;
    var h := Deal(HeadsUp(), [100, 100]);
    assert h.folded == [false, false] && h.moves == [[], []];
    assert h.roundSpent[1] == [0, 0];
    assert h.roundSpent == [[5, 10], [0, 0]];
  }

  lemma CallOnce()
    ensures var g, h := HeadsUp(), Dealt();
      g.Valid() && h.Shape(g) && Legal(g, h, Calling) && Strict(g, h, Calling) && DoAction(g, h, Calling) == FirstCall()
  {
    DealtIsDealt();
    FirstActs();
    FirstStays();
    hide Act, Close;
  }

  lemma FirstActs()
    ensures HeadsUp().Valid() && Dealt().Shape(HeadsUp()) && Act(HeadsUp(), Dealt(), Calling) == FirstCall()
  {
    DealtIsDealt();
    assert CurrentPlayer(HeadsUp(), Dealt()) == 0;
    var h1 := Act(HeadsUp(), Dealt(), Calling);
    assert h1.spent == [10, 10] && h1.roundSpent == FirstCall().roundSpent;
    assert h1.moves[0] == FirstCall().moves[0];
    assert h1.moves == FirstCall().moves;
  }

  /** One of two has called. */
  lemma FirstStays()
    ensures HeadsUp().Valid() && FirstCall().Shape(HeadsUp()) && Close(HeadsUp(), FirstCall()) == FirstCall()
  {
    var h := FirstCall();
    DealtIsDealt();
    assert FoldedBelow(h, 2) == {} && AbleBelow(h, 2) == {0, 1};
    assert h.Log() == [Move(Calling, 0)] && [Move(Calling, 0)][..0] == [];
    assert Called(h, h.Log()) == 1;
  }

  lemma CallTwice()
    ensures var g, h := HeadsUp(), FirstCall();
      g.Valid() && h.Shape(g) && Legal(g, h, Calling) && Strict(g, h, Calling)
      && DoAction(g, h, Calling) == SecondRound()
  {
    DealtIsDealt();
    SecondActs();
    SecondCloses();
    hide Act, Close;
  }

  function BothCalled(): Hand { HandOf(0, [10, 10], [Move(Calling, 0), Move(Calling, 1)]) }

  lemma SecondActs()
    ensures HeadsUp().Valid() && FirstCall().Shape(HeadsUp()) && Act(HeadsUp(), FirstCall(), Calling) == BothCalled()
  {
    DealtIsDealt();
    assert CurrentPlayer(HeadsUp(), FirstCall()) == 1;
    var h1 := Act(HeadsUp(), FirstCall(), Calling);
    assert h1.spent == [10, 10] && h1.roundSpent == FirstCall().roundSpent;
    assert h1.moves[0] == BothCalled().moves[0];
    assert h1.moves == BothCalled().moves;
  }

  lemma SecondCloses()
    ensures HeadsUp().Valid() && BothCalled().Shape(HeadsUp()) && Close(HeadsUp(), BothCalled()) == SecondRound()
  {
    var h := BothCalled();
    DealtIsDealt();
    assert FoldedBelow(h, 2) == {} && AbleBelow(h, 2) == {0, 1};
    var log := h.Log();
    assert log[..1] == [log[0]] && log[..1][..0] == [];
    assert Called(h, log[..1]) == 1 && Called(h, log) == 2;
  }

  lemma CheckedIsPath()
    ensures Path(HeadsUp(), Checked())
  {
    var g, r := HeadsUp(), Checked();
    DealtIsDealt();
    CallOnce();
    CallTwice();
    forall k: nat ensures r.LegalAt(k) && StrictAt(r, k) {
      if k == 0 {} else if k == 1 {}
    }
  }

  /** Calls are always on offer, so building the tree from the deal meets the hand where it exits. */
  lemma CheckingRunsDead(workers: seq<Fcpa>)
    requires |workers| == MAX_ROUNDS && workers[1].raiseMode == XLastRaise
    ensures var g, deal := HeadsUp(), Run(HeadsUp(), [100, 100], [], [Dealt()]);
      Path(g, deal) && RunsDead(g, workers, deal)
  {
    var g, r, deal := HeadsUp(), Checked(), Run(HeadsUp(), [100, 100], [], [Dealt()]);
    CheckedIsPath();
    DealtIsDealt();
    forall k: nat ensures deal.LegalAt(k) && StrictAt(deal, k) {}
    forall k: nat ensures CandidateAt(g, workers, r, k) { if k == 0 {} else if k == 1 {} }
    assert r.acts[..0] == [] && r.hands[..1] == [Dealt()];
    SecondRoundExits(workers);
    assert DeadEnd(g, workers, r) && Onward(g, workers, deal, r);
  }

  lemma SecondRoundExits(workers: seq<Fcpa>)
    requires |workers| == MAX_ROUNDS && workers[1].raiseMode == XLastRaise
    ensures HeadsUp().Valid() && SecondRound().Shape(HeadsUp()) && Exits(HeadsUp(), SecondRound(), workers[1])
  {
    var g, h := HeadsUp(), SecondRound();
    CheckedIsPath();
    OnPath(g, Checked(), 2);
    assert AbleBelow(h, 2) == {0, 1};
    ExitsInOneMode(g, h, workers[1]);
  }
}
