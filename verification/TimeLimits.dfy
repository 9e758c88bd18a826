/**
  What the clocks of modules/agent/src/dealer.c keep to: no answer takes longer than it may, and no seat's answers take
  longer together than they may in a hand, or in a match.
 */
module TimeLimits {
  import opened Betting
  import opened Matches

  /** How long the answer took; nothing when the clock went backwards. */
  function Took(e: Entry): int {
    if e.recv.Before(e.send) then 0 else e.recv.Since(e.send)
  }

  ghost predicate BySeat(v: Live, k: nat, s: nat)
    requires v.Sized() && k < |v.es|
  {
    AtTable(v.t, v.ms[k]) && Seat(v.t, v.ms[k]) == s
  }

  ghost predicate EndsHand(v: Live, k: nat)
    requires v.Sized() && k < |v.es|
  {
    AtTable(v.t, v.ms[k]) && DoAction(v.t.game, v.ms[k].hand, v.es[k].action).finished
  }

  /** What the answers of seat s among the first k took. */
  ghost function TookInMatch(v: Live, s: nat, k: nat): int
    requires v.Sized() && k <= |v.es|
  {
    if k == 0 then 0 else TookInMatch(v, s, k - 1) + if BySeat(v, k - 1, s) then Took(v.es[k - 1]) else 0
  }

  /** The same in the hand in play. */
  ghost function TookInHand(v: Live, s: nat, k: nat): int
    requires v.Sized() && k <= |v.es|
  {
    if k == 0 || EndsHand(v, k - 1) then 0
    else TookInHand(v, s, k - 1) + if BySeat(v, k - 1, s) then Took(v.es[k - 1]) else 0
  }

  /** The clocks show at least that. */
  lemma {:induction false} ClocksShow(v: Live, s: nat, k: nat)
    requires v.Valid() && k <= |v.es| && s < |v.cs[0].usedHand| && v.cs[0].usedHand[s] >= 0
    ensures s < |v.cs[k].usedHand| == |v.cs[k].usedMatch| == |v.cs[0].usedMatch|
    ensures v.cs[k].usedHand[s] >= TookInHand(v, s, k)
    ensures v.cs[k].usedMatch[s] >= v.cs[0].usedMatch[s] + TookInMatch(v, s, k)
  {
    if k > 0 {
      ClocksShow(v, s, k - 1);
      assert v.TurnAt(k - 1);
      TurnShows(v.t, v.ms[k - 1], v.cs[k - 1], v.before[k - 1], v.es[k - 1], v.ms[k], v.cs[k], s);
    }
  }

  lemma TurnShows(t: Table, m: Match, c: Clocks, before: Clocks, e: Entry, m': Match, c': Clocks, s: nat)
    requires AtTable(t, m) && LiveTurn(t, m, c, before, e, m', c') && s < |c.usedHand| == |c.usedMatch|
    ensures |c'.usedHand| == |c'.usedMatch| == |c.usedHand|
    ensures var took := if Seat(t, m) == s then Took(e) else 0;
      && c'.usedMatch[s] >= c.usedMatch[s] + took
      && if DoAction(t.game, m.hand, e.action).finished then c'.usedHand[s] == 0
         else c'.usedHand[s] >= c.usedHand[s] + took
    ensures Took(e) > 0 ==> Took(e) <= t.maxResponseMicros
    ensures Seat(t, m) == s && Took(e) > 0 ==>
      c.usedHand[s] + Took(e) <= t.maxUsedHandMicros && c.usedMatch[s] + Took(e) <= t.maxUsedMatchMicros
  {
    hide DoAction, Check, Seat;
  }

  /** Every answer of a live match is in time, by itself and with the seat's others in the hand and in the match. */
  lemma AnswersAreInTime(v: Live, k: nat)
    requires v.Valid() && k < |v.es| && (forall s :: 0 <= s < |v.cs[0].usedHand| ==> v.cs[0].usedHand[s] >= 0)
    requires Took(v.es[k]) > 0
    ensures AtTable(v.t, v.ms[k]) && |v.cs[0].usedMatch| == v.t.game.numPlayers
    ensures var s := Seat(v.t, v.ms[k]);
      && Took(v.es[k]) <= v.t.maxResponseMicros
      && TookInHand(v, s, k) + Took(v.es[k]) <= v.t.maxUsedHandMicros
      && v.cs[0].usedMatch[s] + TookInMatch(v, s, k) + Took(v.es[k]) <= v.t.maxUsedMatchMicros
  {
    assert v.TurnAt(k);
    var s := Seat(v.t, v.ms[k]);
    ClocksShow(v, s, k);
    TurnShows(v.t, v.ms[k], v.cs[k], v.before[k], v.es[k], v.ms[k + 1], v.cs[k + 1], s);
  }
}
