/**
  The totals a match of modules/agent/src/dealer.c keeps for its seats, when hands pay by valueOfState: as long as
  nobody folds without facing a bet, what the seats won adds up to what it was at the start.
 */
module MatchMoney {
  import opened Betting
  import opened Hands
  import opened Chips
  import opened Sums
  import opened Matches
  import SidePots
  import Payoffs

  /** Hands pay by valueOfState. */
  ghost predicate PaysByRules(t: Table) {
    forall h: Hand, rank: seq<int>, p: nat :: PaysAt(t, h, rank, p)
  }

  ghost predicate PaysAt(t: Table, h: Hand, rank: seq<int>, p: nat) {
    h.Shape(t.game) && |rank| == t.game.numPlayers && p < |rank| && SidePots.NoNegative(Payoffs.StakesOf(h, rank)) ==>
      t.worth(h.spent, h.folded, rank, p) == Payoffs.StateValue(t.game, h, rank, p)
  }

  ghost predicate Ranks(t: Table, ranks: seq<int>) {
    |ranks| == t.game.numPlayers && forall p :: 0 <= p < |ranks| ==> ranks[p] >= 0
  }

  ghost predicate DealsRanks(t: Table) {
    forall rng: nat :: Ranks(t, t.deal(rng).0)
  }

  // ---------------------------------------------------------------- the payoffs of a hand, by seats

  lemma {:induction false} SumConcat(a: seq<real>, b: seq<real>)
    ensures Sum(a + b) == Sum(a) + Sum(b)
  {
    if b == [] {
      assert a + b == a;
    } else {
      var n := |b| - 1;
      assert (a + b)[..|a + b| - 1] == a + b[..n];
      SumConcat(a, b[..n]);
    }
  }

  function BySeat(values: seq<real>, player0Seat: nat): (r: seq<real>)
    requires player0Seat < |values|
    ensures |r| == |values|
  {
    seq(|values|, s requires 0 <= s < |values| => values[SeatToPlayer(|values|, player0Seat, s)])
  }

  /** Going round the table from another seat adds up to the same. */
  lemma SumBySeat(values: seq<real>, player0Seat: nat)
    requires player0Seat < |values|
    ensures Sum(BySeat(values, player0Seat)) == Sum(values)
  {
    hide SeatToPlayer, Sum;
    var n := |values|;
    var cut := n - player0Seat;
    var seats, turned := BySeat(values, player0Seat), values[cut..] + values[..cut];
    forall s | 0 <= s < n ensures seats[s] == turned[s] { SeatIs(n, player0Seat, s); }
    assert seats == turned;
    assert values == values[..cut] + values[cut..];
    SumConcat(values[cut..], values[..cut]);
    SumConcat(values[..cut], values[cut..]);
  }

  lemma SeatIs(n: nat, player0Seat: nat, s: nat)
    requires player0Seat < n && s < n
    ensures SeatToPlayer(n, player0Seat, s) == if s < player0Seat then s + n - player0Seat else s - player0Seat
  {
    OneTurn(s + n - player0Seat, n);
  }

  ghost function Values(g: Game, h: Hand, rank: seq<int>): (r: seq<real>)
    requires h.Shape(g) && |rank| == g.numPlayers && SidePots.NoNegative(Payoffs.StakesOf(h, rank))
    ensures |r| == g.numPlayers && forall p :: 0 <= p < |r| ==> r[p] == Payoffs.StateValue(g, h, rank, p)
  {
    seq(g.numPlayers, p requires 0 <= p < g.numPlayers => Payoffs.StateValue(g, h, rank, p))
  }

  lemma {:induction false} ValuesSum(g: Game, h: Hand, rank: seq<int>, k: nat)
    requires h.Shape(g) && |rank| == g.numPlayers && SidePots.NoNegative(Payoffs.StakesOf(h, rank)) && k <= g.numPlayers
    ensures Sum(Values(g, h, rank)[..k]) == Payoffs.SumState(g, h, rank, k)
  {
    if k > 0 {
      ValuesSum(g, h, rank, k - 1);
      assert Values(g, h, rank)[..k][..k - 1] == Values(g, h, rank)[..k - 1];
    }
  }

  /** What the seats have after a hand. */
  lemma TotalsSum(t: Table, m: Match, h: Hand)
    requires AtTable(t, m) && PaysByRules(t) && h.Shape(t.game) && Ranks(t, m.ranks)
    requires SidePots.NoNegative(Payoffs.StakesOf(h, m.ranks))
    ensures Sum(Totals(t, m, h)) == Sum(m.total) + Payoffs.SumState(t.game, h, m.ranks, t.game.numPlayers)
  {
    var n, values := t.game.numPlayers, Values(t.game, h, m.ranks);
    var seats := BySeat(values, m.player0Seat);
    forall s | 0 <= s < n ensures Totals(t, m, h)[s] == m.total[s] + seats[s] {
      assert PaysAt(t, h, m.ranks, SeatToPlayer(n, m.player0Seat, s));
    }
    SumAdds(Totals(t, m, h), m.total, seats);
    SumBySeat(values, m.player0Seat);
    ValuesSum(t.game, h, m.ranks, n);
    assert values[..n] == values;
  }

  // ---------------------------------------------------------------- a live match

  /** Every logged action answers a bet that is there: none is a premature fold. */
  ghost predicate StrictMatch(v: Live) {
    forall k: nat :: StrictTurn(v, k)
  }

  ghost predicate StrictTurn(v: Live, k: nat) {
    v.Sized() && k < |v.es| ==> AtTable(v.t, v.ms[k]) && Strict(v.t.game, v.ms[k].hand, v.es[k].action)
  }

  /** A match whose first hand was just dealt, from cards with ranks. */
  ghost predicate Begins(v: Live) {
    v.Valid() && v.ms[0].hand == Deal(v.t.game, v.t.game.stack) && Ranks(v.t, v.ms[0].ranks)
  }

  /** How the hand in play came about. */
  ghost predicate Running(v: Live, k: nat, run: Run) {
    && v.Sized() && k < |v.ms| && run.Valid() && run.game == v.t.game && run.Last() == v.ms[k].hand
    && StrictRun(run) && !run.Last().finished
  }

  lemma StrictLonger(r: Run, a: Action)
    requires r.Valid() && StrictRun(r) && r.Last().Shape(r.game) && Legal(r.game, r.Last(), a)
    requires Strict(r.game, r.Last(), a)
    ensures Longer(r, a).Valid() && StrictRun(Longer(r, a))
  {
    hide Strict, Legal, DoAction, Hand.Shape, Game.Valid, Game.Covers;
    LongerIsValid(r, a);
    forall k: nat ensures StrictAt(Longer(r, a), k) { assert StrictAt(r, k); }
  }

  lemma FirstRun(t: Table) returns (run: Run)
    requires t.Valid()
    ensures run == Run(t.game, t.game.stack, [], [Deal(t.game, t.game.stack)])
    ensures run.Valid() && StrictRun(run) && !run.Last().finished
  {
    run := Run(t.game, t.game.stack, [], [Deal(t.game, t.game.stack)]);
    forall k: nat ensures run.LegalAt(k) && StrictAt(run, k) {}
  }

  /** One hand after another, nothing is won that nobody lost. */
  lemma {:induction false} MatchIsZeroSum(v: Live, k: nat) returns (run: Run)
    requires Begins(v) && k < |v.ms| && v.t.game.noLimit && PaysByRules(v.t) && DealsRanks(v.t) && StrictMatch(v)
    ensures Running(v, k, run) && AtTable(v.t, v.ms[k]) && Ranks(v.t, v.ms[k].ranks)
    ensures Sum(v.ms[k].total) == Sum(v.ms[0].total)
  {
    if k == 0 {
      run := FirstRun(v.t);
    } else {
      var before := MatchIsZeroSum(v, k - 1);
      assert v.TurnAt(k - 1) && StrictTurn(v, k - 1);
      run := TurnIsZeroSum(v.t, v.ms[k - 1], v.es[k - 1].action, before);
    }
  }

  lemma TurnIsZeroSum(t: Table, m: Match, a: Action, before: Run) returns (run: Run)
    requires AtTable(t, m) && t.game.noLimit && PaysByRules(t) && DealsRanks(t) && Ranks(t, m.ranks)
    requires before.Valid() && before.game == t.game && before.Last() == m.hand && StrictRun(before)
    requires Strict(t.game, m.hand, a)
    ensures run.Valid() && run.game == t.game && run.Last() == Turn(t, m, a).hand && StrictRun(run)
    ensures !run.Last().finished
    ensures Ranks(t, Turn(t, m, a).ranks) && Sum(Turn(t, m, a).total) == Sum(m.total)
  {
    LegalIsChecked(t.game, m.hand, a);
    StrictLonger(before, a);
    run := Longer(before, a);
    var h := DoAction(t.game, m.hand, a);
    assert run.Last() == h;
    if h.finished {
      Payoffs.StrictHandsAreZeroSum(run, m.ranks);
      TotalsSum(t, m, h);
      run := FirstRun(t);
    }
  }
}
