/**
  A match as modules/agent/src/dealer.c runs it, turn by turn: what one action makes of the match, what
  the clocks count, and why the transaction log of any part of a match rebuilds it.
 */
module Matches {
  import opened Betting
  import opened TurnOrder
  import opened Hands

  datatype Time = Time(sec: nat, usec: nat)
  {
    predicate Valid() { usec < 1000000 }

    predicate Before(that: Time) {
      sec < that.sec || (sec == that.sec && usec < that.usec)
    }

    /** The microseconds since an earlier time. */
    function Since(that: Time): int {
      (sec - that.sec) * 1000000 + usec - that.usec
    }
  }

  /**
    What does not change during a match: the game, the time limits, what the cards dealt from a generator
    state are worth (a rank for every player, and the next generator state), and what a hand pays.
   */
  datatype Table = Table(
    game: Game,
    fixedSeats: bool,
    maxInvalidActions: nat,
    maxResponseMicros: int,
    maxUsedHandMicros: int,
    maxUsedMatchMicros: int,
    deal: nat -> (seq<int>, nat),
    worth: (seq<int>, seq<bool>, seq<int>, nat) -> real)
  {
    ghost predicate Valid() {
      game.Valid() && !game.useStateStack && game.Covers(game.stack)
    }
  }

  /** Where a match stands. */
  datatype Match = Match(handId: nat, player0Seat: nat, rng: nat, ranks: seq<int>, hand: Hand, total: seq<real>)

  /** The part of ErrorInfo that counts time. */
  datatype Clocks = Clocks(usedHand: seq<int>, usedMatch: seq<int>)

  /** A line of the transaction log. */
  datatype Entry = Entry(action: Action, handId: nat, send: Time, recv: Time)

  // ---------------------------------------------------------------- seats

  function SeatToPlayer(n: nat, player0Seat: nat, seat: nat): (p: nat)
    requires n > 0 && player0Seat < n
    ensures p < n
  {
    (seat + n - player0Seat) % n
  }

  function PlayerToSeat(n: nat, player0Seat: nat, player: nat): (s: nat)
    requires n > 0
    ensures s < n
  {
    (player + player0Seat) % n
  }

  /** Seats and players are matched one to one. */
  lemma SeatsRoundTrip(n: nat, player0Seat: nat, k: nat)
    requires player0Seat < n && k < n
    ensures PlayerToSeat(n, player0Seat, SeatToPlayer(n, player0Seat, k)) == k
    ensures SeatToPlayer(n, player0Seat, PlayerToSeat(n, player0Seat, k)) == k
  {
    OneTurn(k + n - player0Seat, n);
    OneTurn(k + player0Seat, n);
    OneTurn(SeatToPlayer(n, player0Seat, k) + player0Seat, n);
    OneTurn(PlayerToSeat(n, player0Seat, k) + n - player0Seat, n);
  }

  lemma OneTurn(x: nat, n: nat)
    requires n > 0 && x < 2 * n
    ensures x % n == if x < n then x else x - n
  {
    if x >= n { assert x == n + (x - n); }
  }

  // ---------------------------------------------------------------- one turn

  ghost predicate AtTable(t: Table, m: Match) {
    && t.Valid() && m.player0Seat < t.game.numPlayers && |m.total| == t.game.numPlayers && m.hand.Shape(t.game)
  }

  /** The hand waits for a player to act. */
  ghost predicate InPlay(t: Table, m: Match) {
    AtTable(t, m) && !m.hand.finished && TurnInv(t.game, m.hand)
  }

  /** The seat whose player acts. */
  ghost function Seat(t: Table, m: Match): (s: nat)
    requires AtTable(t, m)
    ensures s < t.game.numPlayers
  {
    PlayerToSeat(t.game.numPlayers, m.player0Seat, CurrentPlayer(t.game, m.hand))
  }

  /** Every seat's total, with what its player won in hand h. */
  function Totals(t: Table, m: Match, h: Hand): (total: seq<real>)
    requires m.player0Seat < t.game.numPlayers
    ensures |total| == |m.total|
  {
    seq(|m.total|, s requires 0 <= s < |m.total| =>
      m.total[s] + t.worth(h.spent, h.folded, m.ranks, SeatToPlayer(t.game.numPlayers, m.player0Seat, s)))
  }

  /** setUpNewHand. */
  function NextHand(t: Table, m: Match): Match
    requires t.game.Valid()
  {
    var (ranks, rng) := t.deal(m.rng);
    m.(handId := m.handId + 1,
       player0Seat := if t.fixedSeats then m.player0Seat else (m.player0Seat + 1) % t.game.numPlayers,
       hand := Deal(t.game, t.game.stack), ranks := ranks, rng := rng)
  }

  /** What action a makes of the match; after the last action of a hand the next one is dealt. */
  ghost function Turn(t: Table, m: Match, a: Action): (m': Match)
    requires AtTable(t, m)
    ensures AtTable(t, m')
  {
    var h := DoAction(t.game, m.hand, a);
    if h.finished then NextHand(t, m.(hand := h, total := Totals(t, m, h))) else m.(hand := h)
  }

  // ---------------------------------------------------------------- the clocks

  /** checkErrorTimes: the clocks after a response, and whether the match goes on. */
  function CheckTimes(t: Table, c: Clocks, seat: nat, send: Time, recv: Time): (r: (bool, Clocks))
    requires seat < |c.usedHand| == |c.usedMatch|
    ensures |r.1.usedHand| == |c.usedHand| == |r.1.usedMatch|
  {
    if recv.Before(send) then (true, c)
    else
      var micros := recv.Since(send);
      var c' := Clocks(c.usedHand[seat := c.usedHand[seat] + micros], c.usedMatch[seat := c.usedMatch[seat] + micros]);
      (micros <= t.maxResponseMicros && c'.usedHand[seat] <= t.maxUsedHandMicros
       && c'.usedMatch[seat] <= t.maxUsedMatchMicros, c')
  }

  /** checkErrorNewHand. */
  function ResetHand(c: Clocks): Clocks {
    c.(usedHand := seq(|c.usedHand|, _ => 0))
  }

  ghost predicate AtMost(c: Clocks, d: Clocks) {
    && |c.usedHand| == |c.usedMatch| == |d.usedHand| == |d.usedMatch|
    && (forall s :: 0 <= s < |c.usedHand| ==> c.usedHand[s] <= d.usedHand[s])
    && forall s :: 0 <= s < |c.usedHand| ==> c.usedMatch[s] <= d.usedMatch[s]
  }

  /** Clocks that show less pass whatever the others pass, and still show less. */
  lemma LessTimePasses(t: Table, c: Clocks, d: Clocks, seat: nat, send: Time, recv: Time)
    requires AtMost(c, d) && seat < |c.usedHand| && CheckTimes(t, d, seat, send, recv).0
    ensures CheckTimes(t, c, seat, send, recv).0
    ensures AtMost(CheckTimes(t, c, seat, send, recv).1, CheckTimes(t, d, seat, send, recv).1)
  {
  }

  /** Responses only add to the clocks. */
  lemma TimeOnlyGrows(t: Table, c: Clocks, seat: nat, send: Time, recv: Time)
    requires seat < |c.usedHand| == |c.usedMatch| && send.Valid() && recv.Valid()
    ensures AtMost(c, CheckTimes(t, c, seat, send, recv).1)
  {
  }

  // ---------------------------------------------------------------- replaying the log

  datatype Replayed = Broken | Resumed(m: Match, c: Clocks)

  /** One line of the log in processTransactionFile. */
  ghost function ReplayEntry(t: Table, m: Match, c: Clocks, e: Entry): (r: Replayed)
    requires AtTable(t, m) && |c.usedHand| == |c.usedMatch| == t.game.numPlayers
    ensures r.Resumed? ==> AtTable(t, r.m) && |r.c.usedHand| == |r.c.usedMatch| == t.game.numPlayers
  {
    if e.handId != m.handId || Check(t.game, m.hand, false, e.action).0 == 0 then Broken
    else
      var (ok, c') := CheckTimes(t, c, Seat(t, m), e.send, e.recv);
      if !ok then Broken
      else
        var a := Check(t.game, m.hand, false, e.action).1;
        Resumed(Turn(t, m, a), if DoAction(t.game, m.hand, a).finished then ResetHand(c') else c')
  }

  /** The whole log, up to the first line that fails. */
  ghost function Replay(t: Table, m: Match, c: Clocks, es: seq<Entry>): (r: Replayed)
    requires AtTable(t, m) && |c.usedHand| == |c.usedMatch| == t.game.numPlayers
    ensures r.Resumed? ==> AtTable(t, r.m) && |r.c.usedHand| == |r.c.usedMatch| == t.game.numPlayers
  {
    if es == [] then Resumed(m, c)
    else
      match Replay(t, m, c, es[..|es| - 1])
      case Broken => Broken
      case Resumed(m', c') => ReplayEntry(t, m', c', es[|es| - 1])
  }

  // ---------------------------------------------------------------- recovery

  /**
    A live match: entry k was logged when the match stood at ms[k] with clocks cs[k], just after the last check
    of the times, made with the clocks at before[k].
   */
  datatype Live = Live(t: Table, ms: seq<Match>, cs: seq<Clocks>, before: seq<Clocks>, es: seq<Entry>)
  {
    ghost predicate Sized() {
      |ms| == |cs| == |es| + 1 && |before| == |es|
    }

    ghost predicate TurnAt(k: nat) {
      Sized() && k < |es| ==> AtTable(t, ms[k]) && LiveTurn(t, ms[k], cs[k], before[k], es[k], ms[k + 1], cs[k + 1])
    }

    ghost predicate Valid() {
      && Sized() && AtTable(t, ms[0]) && |cs[0].usedHand| == |cs[0].usedMatch| == t.game.numPlayers
      && forall k: nat :: TurnAt(k)
    }
  }

  /** What gameLoop does between two looks for the player to act. */
  ghost predicate LiveTurn(t: Table, m: Match, c: Clocks, before: Clocks, e: Entry, m': Match, c': Clocks)
    requires AtTable(t, m)
  {
    && e.handId == m.handId
    && Check(t.game, m.hand, false, e.action).0 != 0 && Check(t.game, m.hand, false, e.action).1 == e.action
    && m' == Turn(t, m, e.action)
    && AtMost(c, before) && Seat(t, m) < |before.usedHand|
    && CheckTimes(t, before, Seat(t, m), e.send, e.recv).0
    && var after := CheckTimes(t, before, Seat(t, m), e.send, e.recv).1;
       c' == if DoAction(t.game, m.hand, e.action).finished then ResetHand(after) else after
  }

  /**
    Replaying what was logged up to any point of a live match never fails, and brings back the match as it stood:
    hand, button, generator, cards and totals.  The clocks show no more than they did live.
   */
  lemma {:induction false} LogRecovers(v: Live, c: Clocks, k: nat)
    requires v.Valid() && k <= |v.es| && AtMost(c, v.cs[0])
    ensures var r := Replay(v.t, v.ms[0], c, v.es[..k]);
      r.Resumed? && r.m == v.ms[k] && AtMost(r.c, v.cs[k]) && AtTable(v.t, v.ms[k])
  {
    if k > 0 {
      LogRecovers(v, c, k - 1);
      assert v.es[..k][..k - 1] == v.es[..k - 1];
      assert v.TurnAt(k - 1);
      EntryRecovers(v.t, v.ms[k - 1], v.cs[k - 1], v.before[k - 1], v.es[k - 1], v.ms[k], v.cs[k],
                    Replay(v.t, v.ms[0], c, v.es[..k - 1]).c);
    }
  }

  lemma EntryRecovers(t: Table, m: Match, c: Clocks, before: Clocks, e: Entry, m': Match, c': Clocks, less: Clocks)
    requires AtTable(t, m) && LiveTurn(t, m, c, before, e, m', c') && AtMost(less, c)
    requires |less.usedHand| == t.game.numPlayers
    ensures var r := ReplayEntry(t, m, less, e); r.Resumed? && r.m == m' && AtMost(r.c, c') && AtTable(t, m')
  {
    LessTimePasses(t, less, before, Seat(t, m), e.send, e.recv);
  }
}
