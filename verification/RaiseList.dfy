/**
  Which raises the action abstraction of modules/engine/src/action_abs.cpp lists: what a configured ratio asks for,
  within what is legal, and the whole stack where the ratio is -1.
 */
module RaiseList {
  import opened Betting
  import opened Payoffs
  import opened ActionAbs

  /** Configured ratio i holds here. */
  predicate Applies(h: Hand, conf: Fcpa, mode: RaiseMode, i: nat) {
    i < |conf.raiseConfig| && conf.raiseConfig[i].IsApplicable(|h.Log()|, mode)
  }

  /** It asks for all the player has, or more. */
  predicate AsksForAll(g: Game, h: Hand, conf: Fcpa, mode: RaiseMode, base: int, hi: int, i: nat)
    requires g.Valid() && h.Shape(g)
  {
    Applies(h, conf, mode, i) && conf.raiseConfig[i].ratio != -1.0
    && WantedSize(g, h, mode, conf.raiseConfig[i].ratio, base) >= hi
  }

  /** The raise to s is what ratio i comes to: all-in for -1 and what is no less, what it wants, or the least legal. */
  predicate ComesTo(g: Game, h: Hand, conf: Fcpa, mode: RaiseMode, base: int, lo: int, hi: int, i: nat, s: int)
    requires g.Valid() && h.Shape(g) && hi > 0
  {
    Applies(h, conf, mode, i) &&
    var size := WantedSize(g, h, mode, conf.raiseConfig[i].ratio, base);
    if conf.raiseConfig[i].ratio == -1.0 || size >= hi then s == hi
    else s == Larger(size, lo) && BelowFilter(s, hi, conf.highFilter)
  }

  function Larger(a: int, b: int): int { if a < b then b else a }

  /** A raise is listed exactly if it is what some ratio comes to, with none before it that asks for all. */
  lemma {:induction false} Listed(g: Game, h: Hand, conf: Fcpa, mode: RaiseMode, base: int, lo: int, hi: int, i: nat,
                                  s: int)
    requires g.Valid() && h.Shape(g) && hi > 0 && i <= |conf.raiseConfig|
    ensures s in RaiseSizes(g, h, conf, mode, base, lo, hi, i) <==>
      exists k: nat :: k >= i && ComesTo(g, h, conf, mode, base, lo, hi, k, s)
        && forall j: nat :: i <= j < k ==> !AsksForAll(g, h, conf, mode, base, hi, j)
    decreases |conf.raiseConfig| - i
  {
    hide WantedSize, BelowFilter;
    if i < |conf.raiseConfig| {
      Listed(g, h, conf, mode, base, lo, hi, i + 1, s);
      var (sizes, last) := RaiseFor(g, h, conf, mode, base, lo, hi, i);
      assert s in sizes <==> ComesTo(g, h, conf, mode, base, lo, hi, i, s);
      assert last <==> AsksForAll(g, h, conf, mode, base, hi, i);
      if s in sizes { assert ComesTo(g, h, conf, mode, base, lo, hi, i, s); }
    }
  }

  /** A ratio of -1 that holds puts the whole stack on the list. */
  lemma AllInIsOffered(g: Game, h: Hand, conf: Fcpa, i: nat)
    requires ToAct(g, h) && RaiseRange(g, h).Some? && !Exits(g, h, conf)
    requires Applies(h, conf, ModeOf(conf, h), i) && conf.raiseConfig[i].ratio == -1.0
    ensures Action(Raise, h.stack[CurrentPlayer(g, h)]) in Candidates(g, h, conf)
  {
    var mode := ModeOf(conf, h);
    var (lo, hi) := RaiseRange(g, h).value;
    var base := RaiseBase(g, h, mode).value;
    assert 0 < hi == h.stack[CurrentPlayer(g, h)] by { WholeStack(g, h); }
    hide ToAct, RaiseRange, RaiseBase, ModeOf, RaiseSizes;
    SomeAsksForAll(g, h, conf, mode, base, lo, hi, 0, i);
    var sizes := RaiseSizes(g, h, conf, mode, base, lo, hi, 0);
    var k: nat :| k < |sizes| && sizes[k] == hi;
    RaiseIsCandidate(g, h, conf, sizes, k);
  }

  lemma WholeStack(g: Game, h: Hand)
    requires ToAct(g, h) && RaiseRange(g, h).Some?
    ensures 0 < RaiseRange(g, h).value.1 == h.stack[CurrentPlayer(g, h)]
  {
  }

  lemma RaiseIsCandidate(g: Game, h: Hand, conf: Fcpa, sizes: seq<int>, k: nat)
    requires g.Valid() && h.Shape(g) && sizes == SizesHere(g, h, conf) && k < |sizes|
    ensures Action(Raise, sizes[k]) in Candidates(g, h, conf)
  {
    assert ActionAbs.Raises(sizes)[k] == Action(Raise, sizes[k]);
  }

  lemma {:induction false} SomeAsksForAll(g: Game, h: Hand, conf: Fcpa, mode: RaiseMode, base: int, lo: int, hi: int,
                                          i: nat, k: nat)
    requires g.Valid() && h.Shape(g) && hi > 0 && i <= k && Applies(h, conf, mode, k)
    requires conf.raiseConfig[k].ratio == -1.0
    ensures hi in RaiseSizes(g, h, conf, mode, base, lo, hi, i)
    decreases k - i
  {
    hide WantedSize, BelowFilter;
    if i < k { SomeAsksForAll(g, h, conf, mode, base, lo, hi, i + 1, k); }
  }

  // ---------------------------------------------------------------- what a ratio of the pot asks for

  /** Before it is made legal the raise adds the ratio of the chips in the pot to what the player has put in. */
  lemma PotRatio(g: Game, h: Hand, ratio: real)
    requires ToAct(g, h) && ratio >= 0.0
    ensures var p, pot := CurrentPlayer(g, h), SumSpent(h.spent);
      && RaiseBase(g, h, PotNet) == Some(pot)
      && var added := WantedSize(g, h, PotNet, ratio, pot) - h.spent[p];
         added as real <= ratio * pot as real < added as real + 1.0
  {
    hide ToAct, SizeFor, SumSpent, CurrentPlayer;
    ChipsThere(g, h);
    var p, pot := CurrentPlayer(g, h), SumSpent(h.spent);
    SpentIsNotNegative(h.spent);
    Added(ratio, pot, h.spent[p]);
  }

  /** After a call, which counts as in the pot, it adds the ratio to the bet. */
  lemma PotAfterCallRatio(g: Game, h: Hand, ratio: real)
    requires ToAct(g, h) && ratio >= 0.0
    ensures var p := CurrentPlayer(g, h);
      var pot := SumSpent(h.spent[p := h.maxSpent]);
      && RaiseBase(g, h, PotAfterCall) == Some(pot)
      && var added := WantedSize(g, h, PotAfterCall, ratio, pot) - h.maxSpent;
         added as real <= ratio * pot as real < added as real + 1.0
  {
    hide ToAct, SizeFor, SumSpent, CurrentPlayer;
    ChipsThere(g, h);
    var p := CurrentPlayer(g, h);
    SpentAfter(h.spent, p, h.maxSpent);
    SpentIsNotNegative(h.spent);
    SpentIsNotNegative(h.spent[p := h.maxSpent]);
    Added(ratio, SumSpent(h.spent[p := h.maxSpent]), h.maxSpent);
  }

  lemma ChipsThere(g: Game, h: Hand)
    requires ToAct(g, h)
    ensures g.Valid() && h.Shape(g) && |h.spent| == g.numPlayers && h.maxSpent >= 0
    ensures forall p :: 0 <= p < |h.spent| ==> h.spent[p] >= 0
  {
    assert h.spent[0] >= 0;
  }

  lemma Added(ratio: real, pot: int, spent: int)
    requires ratio >= 0.0 && pot >= 0 && spent >= 0
    ensures var added := SizeFor(ratio, pot, spent) - spent;
      added as real <= ratio * pot as real < added as real + 1.0
  {
    var x := ratio * pot as real;
    assert x >= 0.0;
  }

  lemma {:induction false} SpentIsNotNegative(spent: seq<int>)
    requires forall p :: 0 <= p < |spent| ==> spent[p] >= 0
    ensures SumSpent(spent) >= 0
  {
    if spent != [] { SpentIsNotNegative(spent[..|spent| - 1]); }
  }

  lemma {:induction false} SpentAfter(spent: seq<int>, p: nat, x: int)
    requires p < |spent|
    ensures SumSpent(spent[p := x]) == SumSpent(spent) - spent[p] + x
  {
    var n := |spent| - 1;
    if p < n {
      SpentAfter(spent[..n], p, x);
      assert spent[p := x][..n] == spent[..n][p := x];
    } else {
      assert spent[p := x][..n] == spent[..n];
    }
  }
}
