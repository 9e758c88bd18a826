/**
  Chips in no-limit hands: maxSpent is the largest amount spent, nobody spends more than his stack,
  a minimum raise really raises, and, when nobody folds without facing a bet, the largest amount
  was spent by a player who is still in.
 */
module Chips {
  import opened Betting
  import opened TurnOrder
  import opened Hands

  ghost predicate ChipInv(g: Game, h: Hand) {
    && h.Shape(g)
    && (forall p :: 0 <= p < g.numPlayers ==> 0 <= h.spent[p] <= h.maxSpent && h.spent[p] <= h.stack[p])
    && (exists p :: 0 <= p < g.numPlayers && h.spent[p] == h.maxSpent)
    && h.minRaiseTo > h.maxSpent
  }

  /** Some player who has not folded has spent maxSpent. */
  ghost predicate LiveMax(h: Hand) {
    exists p :: 0 <= p < |h.folded| && p < |h.spent| && !h.folded[p] && h.spent[p] == h.maxSpent
  }

  lemma {:induction false} MaxBlindIsMax(blind: seq<int>, floor: int)
    ensures MaxBlind(blind, floor) >= floor
    ensures forall p :: 0 <= p < |blind| ==> blind[p] <= MaxBlind(blind, floor)
    ensures MaxBlind(blind, floor) == floor || MaxBlind(blind, floor) in blind
  {
    if blind != [] {
      MaxBlindIsMax(blind[..|blind| - 1], floor);
      forall p | 0 <= p < |blind| ensures blind[p] <= MaxBlind(blind, floor) {
        if p < |blind| - 1 { assert blind[p] == blind[..|blind| - 1][p]; }
      }
    }
  }

  lemma DealChips(g: Game, stacks: seq<int>)
    requires g.Valid() && g.noLimit && g.Covers(stacks)
    ensures ChipInv(g, Deal(g, stacks)) && LiveMax(Deal(g, stacks))
  {
    MaxBlindIsMax(g.blind, 0);
    var h := Deal(g, stacks);
    if h.maxSpent == 0 {
      assert h.spent[0] == h.maxSpent && !h.folded[0];
    } else {
      var p :| 0 <= p < g.numPlayers && g.blind[p] == h.maxSpent;
      assert h.spent[p] == h.maxSpent && !h.folded[p];
    }
  }

  /** A raise within the range raiseIsValid gives is what the asserts of doAction ask for. */
  lemma LegalRaiseMeetsAsserts(g: Game, h: Hand, a: Action)
    requires g.Valid() && g.noLimit && ChipInv(g, h) && Legal(g, h, a) && a.kind.Raise?
    ensures h.maxSpent < a.size <= h.stack[CurrentPlayer(g, h)]
  {
  }

  lemma ActKeepsChips(g: Game, h: Hand, a: Action)
    requires g.Valid() && g.noLimit && ChipInv(g, h) && Legal(g, h, a)
    requires 0 <= h.stack[CurrentPlayer(g, h)]
    ensures ChipInv(g, Act(g, h, a))
  {
    var c, h1 := CurrentPlayer(g, h), Act(g, h, a);
    var p :| 0 <= p < g.numPlayers && h.spent[p] == h.maxSpent;
    assert h1.spent[if a.kind.Raise? then c else p] == h1.maxSpent;
  }

  lemma CloseKeepsChips(g: Game, h: Hand)
    requires g.Valid() && g.noLimit && ChipInv(g, h)
    ensures ChipInv(g, Close(g, h))
  {
    MaxBlindIsMax(g.blind, 1);
    var h2 := Close(g, h);
    var p :| 0 <= p < g.numPlayers && h.spent[p] == h.maxSpent;
    assert h2.spent[p] == h2.maxSpent;
  }

  lemma ActionKeepsChips(g: Game, h: Hand, a: Action)
    requires g.Valid() && g.noLimit && ChipInv(g, h) && Legal(g, h, a)
    ensures ChipInv(g, DoAction(g, h, a))
  {
    assert 0 <= h.spent[CurrentPlayer(g, h)] <= h.stack[CurrentPlayer(g, h)];
    ActKeepsChips(g, h, a);
    CloseKeepsChips(g, Act(g, h, a));
  }

  /** The chip invariant holds of every hand of a no-limit run. */
  lemma {:induction false} RunKeepsChips(r: Run, k: nat)
    requires r.Valid() && r.game.noLimit && k <= |r.acts|
    ensures ChipInv(r.game, r.hands[k])
  {
    if k == 0 {
      DealChips(r.game, r.stacks);
    } else {
      RunKeepsChips(r, k - 1);
      assert r.LegalAt(k - 1);
      ActionKeepsChips(r.game, r.hands[k - 1], r.acts[k - 1]);
    }
  }

  /** The asserts of doAction hold of every action of a run. */
  lemma RunMeetsAsserts(r: Run, k: nat)
    requires r.Valid() && k < |r.acts|
    ensures r.hands[k].Shape(r.game) && AssertsHold(r.game, r.hands[k], r.acts[k])
  {
    RunKeepsTurn(r, k);
    NeverStuck(r, k);
    assert r.LegalAt(k);
    if r.game.noLimit && r.acts[k].kind.Raise? {
      RunKeepsChips(r, k);
      LegalRaiseMeetsAsserts(r.game, r.hands[k], r.acts[k]);
    }
  }

  // ---------------------------------------------------------------- folding only when facing a bet

  /** isValidAction answers 1, not PREMATURE_FOLD. */
  ghost predicate Strict(g: Game, h: Hand, a: Action)
    requires g.Valid() && h.Shape(g)
  {
    Check(g, h, false, a).0 == 1
  }

  ghost predicate StrictAt(r: Run, k: nat) {
    k < |r.acts| && k < |r.hands| ==>
      r.game.Valid() && r.hands[k].Shape(r.game) && Strict(r.game, r.hands[k], r.acts[k])
  }

  /** Nobody folds without facing a bet. */
  ghost predicate StrictRun(r: Run) {
    forall k: nat :: StrictAt(r, k)
  }

  lemma {:induction false} RunKeepsLiveMax(r: Run, k: nat)
    requires r.Valid() && r.game.noLimit && StrictRun(r) && k <= |r.acts|
    ensures LiveMax(r.hands[k])
  {
    if k == 0 {
      DealChips(r.game, r.stacks);
    } else {
      RunKeepsLiveMax(r, k - 1);
      RunKeepsChips(r, k - 1);
      assert TurnInv(r.game, r.hands[k - 1]) by { RunKeepsTurn(r, k - 1); }
      assert r.LegalAt(k - 1) && StrictAt(r, k - 1);
      ActKeepsLiveMax(r.game, r.hands[k - 1], r.acts[k - 1]);
    }
  }

  lemma ActKeepsLiveMax(g: Game, h: Hand, a: Action)
    requires g.Valid() && g.noLimit && ChipInv(g, h) && LiveMax(h) && TurnInv(g, h)
    requires Legal(g, h, a) && Strict(g, h, a)
    ensures LiveMax(DoAction(g, h, a))
  {
    CurrentPlayerComesNext(g, h);
    var c, h1 := CurrentPlayer(g, h), Act(g, h, a);
    var p :| 0 <= p < g.numPlayers && !h.folded[p] && h.spent[p] == h.maxSpent;
    var q := if a.kind.Raise? then c else p;
    assert !h1.folded[q] && h1.spent[q] == h1.maxSpent;
    assert !DoAction(g, h, a).folded[q] && DoAction(g, h, a).spent[q] == DoAction(g, h, a).maxSpent;
  }

  // ---------------------------------------------------------------- limit games

  /** In a limit game an action lowers the largest bet exactly when it raises from a stack below it. */
  lemma LimitRaiseLowersMax(g: Game, h: Hand, a: Action)
    requires g.Valid() && h.Shape(g) && !g.noLimit && g.raiseSize[h.round] >= 0 && Legal(g, h, a)
    ensures DoAction(g, h, a).maxSpent < h.maxSpent <==> a.kind.Raise? && h.stack[CurrentPlayer(g, h)] < h.maxSpent
  {
    assert SameTable(DoAction(g, h, a), Act(g, h, a));
  }

  /** Blinds of 10 and 5, and 8 chips for the small blind. */
  const ShortBlind: Game := Game(2, 1, false, [100, 8], false, [10, 5], [10], [1], [4])

  ghost function ShortRaise(): (r: Run)
    requires ShortBlind.Valid()
  {
    var h := Deal(ShortBlind, [100, 8]);
    assert h.Shape(ShortBlind);
    Run(ShortBlind, [100, 8], [Action(Raise, 0)], [h, DoAction(ShortBlind, h, Action(Raise, 0))])
  }

  /** His raise is accepted and takes the largest bet from 10 to 8. */
  lemma ShortRaiseLowersMax()
    ensures ShortBlind.Valid() && ShortRaise().Valid()
    ensures ShortRaise().hands[0].maxSpent == 10 && ShortRaise().hands[1].maxSpent == 8
  {
    var g := ShortBlind;
    var h := Deal(g, [100, 8]);
    assert g.blind[..1] == [10] && [10][..0] == [];
    assert MaxBlind([10], 0) == 10 && MaxBlind(g.blind, 0) == 10;
    assert AbleBelow(h, 2) == {0, 1};
    assert CurrentPlayer(g, h) == 1;
    assert ShortRaise().LegalAt(0);
    forall k: nat ensures ShortRaise().LegalAt(k) { if k == 0 {} }
  }

  // ---------------------------------------------------------------- isValidAction

  /**
    What isValidAction lets through is legal once it has adjusted the action, and is let through
    again, unchanged and without fixing: a logged action replays.
   */
  lemma CheckedIsLegal(g: Game, h: Hand, tryFixing: bool, a: Action)
    requires g.Valid() && h.Shape(g)
    requires Check(g, h, tryFixing, a).0 != 0
    ensures Legal(g, h, Check(g, h, tryFixing, a).1)
    ensures Check(g, h, false, Check(g, h, tryFixing, a).1) == Check(g, h, tryFixing, a)
  {
  }

  /** How far apart two sizes are. */
  function Distance(a: int, b: int): nat { if a < b then b - a else a - b }

  /** A raise that is mended becomes the legal raise nearest to it. */
  lemma MendedIsNearest(g: Game, h: Hand, a: Action, s: int)
    requires g.Valid() && h.Shape(g) && g.noLimit && a.kind.Raise? && Legal(g, h, Action(Raise, s))
    ensures var mended := Check(g, h, true, a).1;
      Legal(g, h, mended) && mended.kind.Raise? && Distance(mended.size, a.size) <= Distance(s, a.size)
  {
  }

  /** Without fixing nothing but legal actions is let through. */
  lemma LegalIsChecked(g: Game, h: Hand, a: Action)
    requires g.Valid() && h.Shape(g)
    ensures Legal(g, h, a) <==> Check(g, h, false, a).0 != 0
  {
  }

  // ---------------------------------------------------------------- finished hands

  /** At a showdown everybody still in has put in the largest amount or his whole stack. */
  lemma ShowdownSpent(r: Run)
    requires r.Valid() && r.game.noLimit
    requires r.Last().finished && NumFolded(r.Last()) + 1 < r.game.numPlayers
    ensures var h := r.Last();
      |h.folded| == |h.spent| == |h.stack| &&
      forall p :: 0 <= p < |h.folded| && !h.folded[p] ==> h.spent[p] == h.maxSpent || h.spent[p] == h.stack[p]
  {
    var k := |r.acts| - 1;
    RunKeepsTurn(r, k);
    assert r.LegalAt(k);
    RunKeepsChips(r, k + 1);
    FinishedMatched(r.game, r.hands[k], r.acts[k]);
  }

  lemma FinishedMatched(g: Game, h0: Hand, a: Action)
    requires g.Valid() && TurnInv(g, h0) && Legal(g, h0, a)
    requires ChipInv(g, DoAction(g, h0, a))
    requires var h := DoAction(g, h0, a); h.finished && NumFolded(h) + 1 < g.numPlayers
    ensures var h := DoAction(g, h0, a);
      forall p :: 0 <= p < g.numPlayers && !h.folded[p] ==> h.spent[p] == h.maxSpent || h.spent[p] == h.stack[p]
  {
    RoundClosesWhenMatched(g, h0, a);
    var h, h1 := DoAction(g, h0, a), Act(g, h0, a);
    forall p: nat | p < g.numPlayers && !h.folded[p] ensures h.spent[p] == h.maxSpent || h.spent[p] == h.stack[p] {
      assert h1.Able(p) || h1.spent[p] >= h1.stack[p];
    }
  }
}
