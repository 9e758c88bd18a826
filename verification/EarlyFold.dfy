/**
  A fold that isValidAction accepts although there is no bet to fold to (PREMATURE_FOLD) can lose chips for everybody:
  the folded player has put in the most, and nobody who is in can take the top of the pot.
 */
module EarlyFold {
  import opened Betting
  import opened Hands
  import opened SidePots
  import opened Payoffs

  /** A big blind of 10 against two stacks of 5. */
  function ShortStacks(): Game {
    Game(3, 1, true, [20, 5, 5], false, [10, 0, 0], [0], [1], [255])
  }

  function HandOf(spent: seq<int>, folded: bool, log: seq<Move>, finished: bool): Hand {
    Hand(0, [20, 5, 5], spent, 10, 20, [folded, false, false], [log], finished, [spent])
  }

  function FirstCall(): Hand { HandOf([10, 5, 0], false, [Move(Action(Call, 0), 1)], false) }

  function SecondCall(): Hand {
    HandOf([10, 5, 5], false, [Move(Action(Call, 0), 1), Move(Action(Call, 0), 2)], false)
  }

  function Folded(): Hand {
    HandOf([10, 5, 5], true, [Move(Action(Call, 0), 1), Move(Action(Call, 0), 2), Move(Action(Fold, 0), 0)], true)
  }

  function Played(): Run {
    Run(ShortStacks(), [20, 5, 5], [Action(Call, 0), Action(Call, 0), Action(Fold, 0)],
        [Deal(ShortStacks(), [20, 5, 5]), FirstCall(), SecondCall(), Folded()])
  }

  lemma Dealt()
    ensures Deal(ShortStacks(), [20, 5, 5]) == HandOf([10, 0, 0], false, [], false)
    ensures ShortStacks().Valid() && ShortStacks().Covers([20, 5, 5])
  {
    var b := [10, 0, 0];
    assert b[..2] == [10, 0] && b[..2][..1] == [10] && b[..2][..1][..0] == [];
    assert MaxBlind([10], 0) == 10 && MaxBlind([10, 0], 0) == 10 && MaxBlind(b, 0) == 10;
    assert b[0] < [20, 5, 5][0];
  }

  lemma CallOnce()
    ensures var g, h := ShortStacks(), HandOf([10, 0, 0], false, [], false);
      g.Valid() && h.Shape(g) && Legal(g, h, Action(Call, 0)) && DoAction(g, h, Action(Call, 0)) == FirstCall()
  {
    var g, h := ShortStacks(), HandOf([10, 0, 0], false, [], false);
    Dealt();
    assert CurrentPlayer(g, h) == 1;
    var h1 := Act(g, h, Action(Call, 0));
    assert h1.spent == [10, 5, 0];
    assert h1.moves[0] == [Move(Action(Call, 0), 1)] == FirstCall().moves[0];
    assert h1.moves == FirstCall().moves;
    assert h1 == FirstCall();
    assert FoldedBelow(h1, 3) == {};
    assert AbleBelow(h1, 3) == {0, 2};
    assert [Move(Action(Call, 0), 1)][..0] == [];
    assert Called(h1, h1.Log()) == 0;
  }

  lemma CallTwice()
    ensures var g, h := ShortStacks(), FirstCall();
      g.Valid() && h.Shape(g) && Legal(g, h, Action(Call, 0)) && DoAction(g, h, Action(Call, 0)) == SecondCall()
  {
    var g, h := ShortStacks(), FirstCall();
    Dealt();
    assert CurrentPlayer(g, h) == 2;
    var h1 := Act(g, h, Action(Call, 0));
    assert h1.spent == [10, 5, 5];
    assert h1.moves[0] == SecondCall().moves[0];
    assert h1.moves == SecondCall().moves;
    assert h1 == SecondCall();
    assert FoldedBelow(h1, 3) == {};
    assert AbleBelow(h1, 3) == {0};
    var log := h1.Log();
    assert log[..1] == [log[0]] && log[..1][..0] == [];
    assert Called(h1, log[..1]) == 0 && Called(h1, log) == 0;
  }

  lemma FoldEarly()
    ensures var g, h := ShortStacks(), SecondCall();
      && g.Valid() && h.Shape(g) && Check(g, h, false, Action(Fold, 0)).0 == PREMATURE_FOLD
      && Legal(g, h, Action(Fold, 0)) && DoAction(g, h, Action(Fold, 0)) == Folded()
  {
    var g, h := ShortStacks(), SecondCall();
    Dealt();
    assert FirstAble(h, 3, 0, 3) == 0;
    assert CurrentPlayer(g, h) == 0;
    var h1 := Act(g, h, Action(Fold, 0));
    assert h1.folded == [true, false, false];
    assert h1.moves[0] == Folded().moves[0];
    assert h1.moves == Folded().moves;
    assert FoldedBelow(h1, 3) == {0};
    assert AbleBelow(h1, 3) == {};
    assert NumAble(h1) == 0;
  }

  /** The hand is over, and the three payoffs do not sum to zero, whatever the hands are. */
  lemma EarlyFoldLosesChips(rank: seq<int>)
    requires |rank| == 3 && rank[1] >= 0 && rank[2] >= 0
    ensures Played().Valid() && Played().Last().finished && Played().Last().Shape(ShortStacks())
    ensures NoNegative(StakesOf(Played().Last(), rank))
    ensures SumState(ShortStacks(), Played().Last(), rank, 3) != 0.0
  {
    Dealt();
    EachIsLegal();
    FoldedLoses(rank);
  }

  lemma EachIsLegal()
    requires HandOf([10, 0, 0], false, [], false) == Deal(ShortStacks(), [20, 5, 5])
    ensures forall k: nat :: Played().LegalAt(k)
  {
    CallOnce();
    CallTwice();
    FoldEarly();
    hide Legal, DoAction, Deal, Hand.Shape, Game.Valid;
    assert Played().LegalAt(0) && Played().LegalAt(1) && Played().LegalAt(2);
    forall k: nat ensures Played().LegalAt(k) {
      if k == 0 {} else if k == 1 {} else if k == 2 {}
    }
  }

  lemma FoldedLoses(rank: seq<int>)
    requires |rank| == 3 && rank[1] >= 0 && rank[2] >= 0
    ensures Folded().Shape(ShortStacks()) && NoNegative(StakesOf(Folded(), rank))
    ensures SumState(ShortStacks(), Folded(), rank, 3) != 0.0
  {
    var h := Folded();
    assert FoldedBelow(h, 3) == {0};
    assert h.spent[0] == 10 && !h.folded[1];
    PayoffsSumToZero(ShortStacks(), h, rank, 10);
  }
}
