/**
  Turn order: since the last raise of the round the players have acted once each, going round the
  table, and nobody who can still act was skipped.  So the count numCalled makes is the number of
  players who matched the bet, a round closes exactly when everybody able to act has matched it, and
  a round never needs more than MAX_NUM_ACTIONS log entries.
 */
module TurnOrder {
  import opened Betting

  /** How many seats q is after s, going round a table of n. */
  function Off(n: nat, s: nat, q: nat): int {
    if q >= s then q - s else q + n - s
  }

  /** The log entries from the last raise on (all of them when nobody raised). */
  function Since(log: seq<Move>): seq<Move> {
    if log == [] then []
    else if log[|log| - 1].action.kind.Raise? then [log[|log| - 1]]
    else Since(log[..|log| - 1]) + [log[|log| - 1]]
  }

  /** What an entry of the current bet says about its player now. */
  predicate Settled(h: Hand, m: Move) {
    && m.player < |h.folded| && m.player < |h.spent| && m.player < |h.stack|
    && !m.action.kind.Invalid?
    && (m.action.kind.Fold? <==> h.folded[m.player])
    && (!m.action.kind.Fold? ==>
          h.spent[m.player] == if h.maxSpent > h.stack[m.player] then h.stack[m.player] else h.maxSpent)
  }

  /** The entries run once round the table, in seat order. */
  predicate Ordered(n: nat, since: seq<Move>) {
    forall i, j :: 0 <= i < j < |since| ==>
      Off(n, since[0].player, since[i].player) < Off(n, since[0].player, since[j].player)
  }

  /** Player q made one of the entries. */
  ghost predicate Acted(since: seq<Move>, q: nat) {
    exists i :: 0 <= i < |since| && since[i].player == q
  }

  /** Nobody able to act sits between the first and the last entry without having acted. */
  ghost predicate NoneSkipped(h: Hand, n: nat, since: seq<Move>) {
    since != [] ==>
      forall q: nat :: q < n && h.Able(q)
        && Off(n, since[0].player, q) <= Off(n, since[0].player, since[|since| - 1].player)
        ==> Acted(since, q)
  }

  /** What holds between two actions, also while it is being decided whether the round closes. */
  ghost predicate OrderInv(g: Game, h: Hand)
    requires g.Valid()
  {
    var since := Since(h.Log());
    && h.Shape(g)
    && (forall r :: 0 <= r < |h.moves| ==> |h.moves[r]| <= MAX_NUM_ACTIONS)
    && (forall r :: h.round < r < |h.moves| ==> h.moves[r] == [])
    && (forall i :: 0 <= i < |h.Log()| ==> h.Log()[i].player < g.numPlayers)
    && (forall i :: 0 <= i < |since| ==> Settled(h, since[i]))
    && Ordered(g.numPlayers, since)
    && NoneSkipped(h, g.numPlayers, since)
    && |h.Log()| + NumAble(h) - Called(h, h.Log()) <= MAX_NUM_ACTIONS
  }

  /** The invariant of a hand that is not finished: somebody has yet to match the bet. */
  ghost predicate TurnInv(g: Game, h: Hand)
    requires g.Valid()
  {
    !h.finished && OrderInv(g, h) && Called(h, h.Log()) < NumAble(h)
  }

  // ---------------------------------------------------------------- the search for the next player

  lemma {:induction false} FirstAbleFinds(h: Hand, n: nat, c: nat, left: nat, q: nat)
    requires c < n && q < n && h.Able(q) && Off(n, c, q) < left <= n
    ensures var r := FirstAble(h, n, c, left);
      r < n && h.Able(r) && Off(n, c, r) <= Off(n, c, q)
      && forall x: nat :: x < n && Off(n, c, x) < Off(n, c, r) ==> !h.Able(x)
    decreases left
  {
    if !h.Able(c) {
      var d := if c + 1 == n then 0 else c + 1;
      FirstAbleFinds(h, n, d, left - 1, q);
      assert forall x: nat :: x < n && x != c ==> Off(n, d, x) == Off(n, c, x) - 1;
    }
  }

  /** The players able to act who have not matched the current bet. */
  ghost function Pending(h: Hand, since: seq<Move>): set<nat> {
    set q: nat | q < |h.folded| && h.Able(q) && !Acted(since, q)
  }

  ghost function Matched(h: Hand, since: seq<Move>): set<nat> {
    set q: nat | q < |h.folded| && h.Able(q) && Acted(since, q)
  }

  lemma SinceLog(log: seq<Move>)
    requires log != []
    ensures Since(log) != [] && Since(log)[|Since(log)| - 1] == log[|log| - 1]
  {
  }

  lemma ActedSnoc(since: seq<Move>, m: Move)
    ensures forall q :: Acted(since + [m], q) <==> Acted(since, q) || q == m.player
  {
    forall q ensures Acted(since + [m], q) <==> Acted(since, q) || q == m.player {
      if Acted(since, q) {
        var i :| 0 <= i < |since| && since[i].player == q;
        assert (since + [m])[i].player == q;
      }
      if q == m.player { assert (since + [m])[|since|].player == q; }
    }
  }

  /** numCalled counts exactly the able players who made an entry since the last raise. */
  lemma {:induction false} CalledCountsMatched(h: Hand, n: nat, log: seq<Move>)
    requires forall i :: 0 <= i < |Since(log)| ==> Settled(h, Since(log)[i])
    requires forall i :: 0 <= i < |log| ==> log[i].player < n
    requires Ordered(n, Since(log))
    ensures Called(h, log) == |Matched(h, Since(log))|
  {
    if log == [] {
      assert Matched(h, []) == {};
    } else {
      var init, last := log[..|log| - 1], log[|log| - 1];
      assert log[|log| - 1] == last;
      if last.action.kind.Raise? {
        assert Settled(h, [last][0]);
        assert Matched(h, []) == {};
        MatchedSnoc(h, [], last);
        assert [] + [last] == [last];
      } else {
        var before := Since(init);
        OrderedPrefix(h, n, before, last);
        CalledCountsMatched(h, n, init);
        FreshPlayer(n, before, last);
        MatchedSnoc(h, before, last);
      }
    }
  }

  lemma MatchedSnoc(h: Hand, before: seq<Move>, last: Move)
    requires !Acted(before, last.player) && last.player < |h.folded|
    ensures |Matched(h, before + [last])| == |Matched(h, before)| + if h.Able(last.player) then 1 else 0
  {
    ActedSnoc(before, last);
    assert Matched(h, before + [last]) == Matched(h, before) + if h.Able(last.player) then {last.player} else {};
  }

  lemma OrderedPrefix(h: Hand, n: nat, before: seq<Move>, last: Move)
    requires Ordered(n, before + [last])
    requires forall i :: 0 <= i < |before + [last]| ==> Settled(h, (before + [last])[i])
    ensures Ordered(n, before) && Settled(h, last)
    ensures forall i :: 0 <= i < |before| ==> Settled(h, before[i])
  {
    var all := before + [last];
    assert Settled(h, all[|before|]);
    forall i | 0 <= i < |before| ensures Settled(h, before[i]) { assert all[i] == before[i]; }
    forall i, j | 0 <= i < j < |before|
      ensures Off(n, before[0].player, before[i].player) < Off(n, before[0].player, before[j].player)
    {
      assert all[0] == before[0] && all[i] == before[i] && all[j] == before[j];
    }
  }

  lemma FreshPlayer(n: nat, before: seq<Move>, last: Move)
    requires Ordered(n, before + [last])
    ensures !Acted(before, last.player)
  {
    var all := before + [last];
    forall i | 0 <= i < |before| ensures before[i].player != last.player {
      assert all[i] == before[i] && all[|before|] == last;
      assert Off(n, all[0].player, all[i].player) < Off(n, all[0].player, all[|before|].player);
    }
  }

  lemma AbleSplits(h: Hand, since: seq<Move>)
    ensures NumAble(h) == |Matched(h, since)| + |Pending(h, since)|
  {
    assert AbleBelow(h, |h.folded|) == Matched(h, since) + Pending(h, since);
  }

  // ---------------------------------------------------------------- one action

  lemma SeatAfter(n: nat, c: nat)
    requires c < n
    ensures (c + 1) % n == if c + 1 == n then 0 else c + 1
  {
    if c + 1 < n { SmallMod(c + 1, n); }
  }

  lemma SmallMod(a: nat, n: nat)
    requires a < n
    ensures a % n == a
  {
  }

  /** Seats seen from the seat after last, in terms of seats seen from f. */
  lemma OffAfter(n: nat, f: nat, last: nat, s: nat, x: nat)
    requires f < n && last < n && x < n && s == if last + 1 == n then 0 else last + 1
    ensures Off(n, s, x) ==
      Off(n, f, x) - Off(n, f, last) - 1 + if Off(n, f, x) > Off(n, f, last) then 0 else n
  {
  }

  /** Seat c comes after all entries of since, and nobody able to act sits in between. */
  ghost predicate ComesNext(h: Hand, n: nat, since: seq<Move>, c: nat) {
    && c < n
    && h.Able(c)
    && (since != [] ==>
          var f, last := since[0].player, since[|since| - 1].player;
          && Off(n, f, last) < Off(n, f, c)
          && forall x: nat :: x < n && Off(n, f, last) < Off(n, f, x) < Off(n, f, c) ==> !h.Able(x))
  }

  lemma {:induction false} NextComesNext(h: Hand, n: nat, since: seq<Move>, q: nat)
    requires |h.folded| == n
    requires forall i :: 0 <= i < |since| ==> since[i].player < n
    requires NoneSkipped(h, n, since) && since != []
    requires q in Pending(h, since)
    ensures ComesNext(h, n, since, FirstAble(h, n, (since[|since| - 1].player + 1) % n, n))
  {
    var f, last := since[0].player, since[|since| - 1].player;
    var s := (last + 1) % n;
    var c := FirstAble(h, n, s, n);
    SeatAfter(n, last);
    OffAfter(n, f, last, s, q);
    FirstAbleFinds(h, n, s, n, q);
    OffAfter(n, f, last, s, c);
    forall x: nat | x < n && Off(n, f, last) < Off(n, f, x) < Off(n, f, c) ensures !h.Able(x) {
      OffAfter(n, f, last, s, x);
    }
  }

  /** The player whose turn it is can act and comes after everybody who acted on the current bet. */
  lemma {:induction false} CurrentPlayerComesNext(g: Game, h: Hand)
    requires g.Valid() && TurnInv(g, h)
    ensures ComesNext(h, g.numPlayers, Since(h.Log()), CurrentPlayer(g, h))
  {
    hide TurnInv, CurrentPlayer, Since;
    if h.Log() == [] {
      assert Since([]) == [] by { NothingSince(); }
      ShapeInTurn(g, h);
      RoundOpener(g, h);
    } else {
      NextInRound(g, h);
    }
  }

  lemma NothingSince()
    ensures Since([]) == []
  {
  }

  lemma ShapeInTurn(g: Game, h: Hand)
    requires g.Valid() && TurnInv(g, h)
    ensures h.Shape(g)
  {
  }

  lemma NextInRound(g: Game, h: Hand)
    requires g.Valid() && TurnInv(g, h) && h.Log() != []
    ensures ComesNext(h, g.numPlayers, Since(h.Log()), CurrentPlayer(g, h))
  {
    hide Called, FirstAble, ComesNext;
    var n, log, since := g.numPlayers, h.Log(), Since(h.Log());
    CalledCountsMatched(h, n, log);
    AbleSplits(h, since);
    var q :| q in Pending(h, since);
    SinceLog(log);
    SincePlayers(log, n);
    NextComesNext(h, n, since, q);
  }

  lemma SincePlayers(log: seq<Move>, n: nat)
    requires forall i :: 0 <= i < |log| ==> log[i].player < n
    ensures forall i :: 0 <= i < |Since(log)| ==> Since(log)[i].player < n
  {
  }

  /** When nobody has acted in the round it is the turn of the first who can, from the round's first player on. */
  lemma RoundOpener(g: Game, h: Hand)
    requires g.Valid() && TurnInv(g, h) && h.Shape(g) && h.Log() == []
    ensures var n, first, c := g.numPlayers, g.firstPlayer[h.round], CurrentPlayer(g, h);
      && first < n && c < n && h.Able(c)
      && forall x: nat :: x < n && Off(n, first, x) < Off(n, first, c) ==> !h.Able(x)
  {
    hide FirstAble, TurnInv, Off;
    var n, first := g.numPlayers, g.firstPlayer[h.round];
    var q := SomebodyAble(g, h);
    assert NextPlayer(g, h, first + n - 1) == FirstAble(h, n, first, n) by { RoundTheTable(first, n); }
    assert Off(n, first, q) < n by { OffIsBelow(n, first, q); }
    FirstAbleFinds(h, n, first, n, q);
  }

  lemma OffIsBelow(n: nat, s: nat, q: nat)
    requires s < n && q < n
    ensures Off(n, s, q) < n
  {
  }

  lemma SomebodyAble(g: Game, h: Hand) returns (q: nat)
    requires g.Valid() && TurnInv(g, h) && h.Log() == []
    ensures q < g.numPlayers && h.Able(q)
  {
    assert NumAble(h) > 0;
    q :| q in AbleBelow(h, |h.folded|);
  }

  lemma RoundTheTable(s: nat, n: nat)
    requires s < n
    ensures (s + n - 1 + 1) % n == s
  {
  }

  /** Adding an entry by the player who comes next keeps the turn order. */
  lemma {:induction false} OrderKept(h: Hand, n: nat, since: seq<Move>, m: Move)
    requires Ordered(n, since) && NoneSkipped(h, n, since)
    requires ComesNext(h, n, since, m.player)
    ensures Ordered(n, since + [m]) && NoneSkipped(h, n, since + [m]) && !Acted(since, m.player)
  {
    var all := since + [m];
    forall i, j | 0 <= i < j < |all|
      ensures Off(n, all[0].player, all[i].player) < Off(n, all[0].player, all[j].player)
    {
      if j == |since| && i < |since| - 1 {
        assert Off(n, since[0].player, since[i].player) < Off(n, since[0].player, since[|since| - 1].player);
      }
    }
    FreshPlayer(n, since, m);
    ActedSnoc(since, m);
  }

  lemma PendingCount(g: Game, h: Hand)
    requires g.Valid() && OrderInv(g, h)
    ensures NumAble(h) - Called(h, h.Log()) == |Pending(h, Since(h.Log()))|
  {
    CalledCountsMatched(h, g.numPlayers, h.Log());
    AbleSplits(h, Since(h.Log()));
  }

  /** The entries of the current bet after action m: a raise starts a new bet. */
  function SinceAfter(since: seq<Move>, m: Move): seq<Move> {
    if m.action.kind.Raise? then [m] else since + [m]
  }

  lemma ActLog(g: Game, h: Hand, a: Action)
    requires g.Valid() && h.Shape(g)
    ensures var h1 := Act(g, h, a);
      && h1.Shape(g) && h1.round == h.round
      && h1.Log() == h.Log() + [Move(a, CurrentPlayer(g, h))]
      && h1.moves == h.moves[h.round := h1.Log()]
      && Since(h1.Log()) == SinceAfter(Since(h.Log()), Move(a, CurrentPlayer(g, h)))
      && forall q: nat :: q != CurrentPlayer(g, h) ==>
        (h1.Able(q) <==> h.Able(q)) && (h1.HasChips(q) <==> h.HasChips(q))
  {
    var h1 := Act(g, h, a);
    assert h1.Log()[..|h.Log()|] == h.Log();
  }

  lemma {:induction false} ActSettles(g: Game, h: Hand, a: Action)
    requires g.Valid() && TurnInv(g, h)
    requires Legal(g, h, a)
    requires h.Able(CurrentPlayer(g, h)) && !Acted(Since(h.Log()), CurrentPlayer(g, h))
    ensures var h1 := Act(g, h, a);
      forall i :: 0 <= i < |Since(h1.Log())| ==> Settled(h1, Since(h1.Log())[i])
  {
    ActLog(g, h, a);
    var since := Since(h.Log());
    var h1 := Act(g, h, a);
    var since1 := Since(h1.Log());
    forall i | 0 <= i < |since1| ensures Settled(h1, since1[i]) {
      if i < |since1| - 1 {
        assert since1[i] == since[i];
        assert Acted(since, since[i].player);
      }
    }
  }

  lemma {:induction false} ActPending(h: Hand, h1: Hand, since: seq<Move>, m: Move)
    requires |h1.folded| == |h.folded| && h.Able(m.player) && !Acted(since, m.player)
    requires forall q: nat :: q != m.player ==> (h1.Able(q) <==> h.Able(q))
    ensures |Pending(h1, SinceAfter(since, m))| ==
      if m.action.kind.Raise? then NumAble(h) - 1 else |Pending(h, since)| - 1
  {
    if m.action.kind.Raise? {
      ActedSnoc([], m);
      assert [m] == [] + [m];
      var able := AbleBelow(h, |h.folded|);
      assert Pending(h1, [m]) == able - {m.player};
      SetLess(able, m.player);
    } else {
      ActedSnoc(since, m);
      assert Pending(h1, since + [m]) == Pending(h, since) - {m.player};
      SetLess(Pending(h, since), m.player);
    }
  }

  /** The log after an action is in order, and one player fewer has to match the bet. */
  lemma {:induction false} ActKeepsOrder(g: Game, h: Hand, a: Action)
    requires g.Valid() && TurnInv(g, h)
    requires Legal(g, h, a)
    ensures OrderInv(g, Act(g, h, a))
    ensures var h1 := Act(g, h, a);
      NumAble(h1) - Called(h1, h1.Log())
      == if a.kind.Raise? then NumAble(h) - 1 else NumAble(h) - Called(h, h.Log()) - 1
  {
    hide CurrentPlayer, NoneSkipped, Ordered, Called, Game.Valid;
    var n, since, m := g.numPlayers, Since(h.Log()), Move(a, CurrentPlayer(g, h));
    var h1 := Act(g, h, a);
    CurrentPlayerComesNext(g, h);
    OrderKept(h, n, since, m);
    ActLog(g, h, a);
    ActSettles(g, h, a);
    ActNoneSkipped(h, h1, n, since, m);
    CalledCountsMatched(h1, n, h1.Log());
    AbleSplits(h1, SinceAfter(since, m));
    ActPending(h, h1, since, m);
    PendingCount(g, h);
    assert NumAble(h) <= n by { AbleAtMost(h, n); }
    assert a.kind.Raise? ==> |h.Log()| + n <= MAX_NUM_ACTIONS;
  }

  lemma ActNoneSkipped(h: Hand, h1: Hand, n: nat, since: seq<Move>, m: Move)
    requires m.player < n
    requires NoneSkipped(h, n, since + [m]) && Ordered(n, since + [m])
    requires forall q: nat :: q != m.player ==> (h1.Able(q) <==> h.Able(q))
    ensures NoneSkipped(h1, n, SinceAfter(since, m)) && Ordered(n, SinceAfter(since, m))
  {
    ActedSnoc([], m);
    assert [m] == [] + [m];
    ActedSnoc(since, m);
  }

  lemma SetLess(s: set<nat>, c: nat)
    requires c in s
    ensures |s - {c}| == |s| - 1
  {
  }

  lemma {:induction false} AbleAtMost(h: Hand, n: nat)
    ensures |AbleBelow(h, n)| <= n
  {
    if n > 0 {
      AbleAtMost(h, n - 1);
      assert AbleBelow(h, n) == AbleBelow(h, n - 1) + if h.Able(n - 1) then {n - 1} else {};
    } else {
      assert AbleBelow(h, n) == {};
    }
  }
}
