/**
  The dealer of modules/agent/src/dealer.c: reads the players' responses, checks and logs them, plays them, and
  can take up a match from its transaction log.
 */
module Dealer {
  import opened Betting
  import opened Hands
  import opened Chips
  import opened Matches
  import GameState

  /** A line from the player to act, as the parsers see it. */
  datatype Reply =
    | Comment(recv: Time)              // starts with '#' or ';'
    | Unrequested(recv: Time)          // no state, or not the current one
    | Unreadable(recv: Time)           // the current state, but no action after it
    | Chosen(recv: Time, action: Action)
  {
    predicate Answers() { Unreadable? || Chosen? }
  }

  /** The number of lines before the first that answers the state. */
  function Passed(replies: seq<Reply>): (n: nat)
    ensures n <= |replies| && (n < |replies| ==> replies[n].Answers())
    ensures forall k :: 0 <= k < n ==> !replies[k].Answers()
  {
    if replies == [] || replies[0].Answers() then 0 else 1 + Passed(replies[1..])
  }

  /** What is done for an answer: its action, mended if need be, and a call where it holds none that can be. */
  ghost function Mended(g: Game, h: Hand, r: Reply): Action
    requires g.Valid() && h.Shape(g)
  {
    if r.Chosen? && Check(g, h, true, r.action).0 != 0 then Check(g, h, true, r.action).1 else Action(Call, 0)
  }

  /** What the clocks make of the lines up to the first answer; without an answer in time there is none. */
  ghost function Listen(t: Table, c: Clocks, seat: nat, send: Time, replies: seq<Reply>): (r: (bool, Clocks))
    requires seat < |c.usedHand| == |c.usedMatch|
    ensures r.0 ==> Passed(replies) < |replies|
    decreases |replies|
  {
    if replies == [] then (false, c)
    else if replies[0].Comment? then Listen(t, c, seat, send, replies[1..])
    else
      var (ok, c') := CheckTimes(t, c, seat, send, replies[0].recv);
      if !ok || replies[0].Answers() then (ok, c') else Listen(t, c', seat, send, replies[1..])
  }

  /** An answer that holds no action, or none that can be done or mended. */
  ghost predicate Bad(g: Game, h: Hand, r: Reply)
    requires g.Valid() && h.Shape(g)
  {
    r.Unreadable? || (r.Chosen? && Check(g, h, true, r.action).0 == 0)
  }

  /** No answer comes in time, or the one that comes is a bad action too many. */
  ghost predicate GivesUp(t: Table, m: Match, c: Clocks, seat: nat, invalid: int, send: Time, replies: seq<Reply>)
    requires AtTable(t, m) && seat < |c.usedHand| == |c.usedMatch|
  {
    !Listen(t, c, seat, send, replies).0 ||
    var answer := replies[Passed(replies)];
    answer.Chosen? && Bad(t.game, m.hand, answer) && invalid + 1 > t.maxInvalidActions
  }

  /** The player to act gives up on what is left of the replies. */
  ghost predicate GivesUpSomewhere(t: Table, m: Match, c: Clocks, send: Time, replies: seq<Reply>) {
    AtTable(t, m) && |c.usedHand| == |c.usedMatch| == t.game.numPlayers &&
    exists done: nat, invalid: int :: GivesUpAfter(t, m, c, send, replies, done, invalid)
  }

  ghost predicate GivesUpAfter(t: Table, m: Match, c: Clocks, send: Time, replies: seq<Reply>, done: nat, invalid: int)
    requires AtTable(t, m) && |c.usedHand| == |c.usedMatch| == t.game.numPlayers
  {
    done <= |replies| && GivesUp(t, m, c, Seat(t, m), invalid, send, replies[done..])
  }

  lemma GaveUp(t: Table, m: Match, c: Clocks, send: Time, replies: seq<Reply>, done: nat, invalid: int)
    requires AtTable(t, m) && |c.usedHand| == |c.usedMatch| == t.game.numPlayers && done <= |replies|
    requires GivesUp(t, m, c, Seat(t, m), invalid, send, replies[done..])
    ensures GivesUpSomewhere(t, m, c, send, replies)
  {
    assert GivesUpAfter(t, m, c, send, replies, done, invalid);
  }

  /** The entry logs what is done in match m for answer r to a state sent at the given time. */
  ghost predicate Logs(t: Table, m: Match, r: Reply, send: Time, e: Entry) {
    && AtTable(t, m) && r.Answers()
    && e.action == Mended(t.game, m.hand, r) && e.recv == r.recv && e.send == send
  }

  /** It does so for one of the answers. */
  ghost predicate LogsOneOf(t: Table, m: Match, replies: seq<Reply>, send: Time, e: Entry) {
    exists i :: 0 <= i < |replies| && Logs(t, m, replies[i], send, e)
  }

  method Zeros(n: nat) returns (a: array<int>)
    ensures fresh(a) && a.Length == n && a[..] == seq(n, _ => 0)
  {
    a := new int[n](_ => 0);
  }

  class Dealer {
    const t: Table
    const state: GameState.State
    var handId: nat
    var player0Seat: nat
    var rng: nat
    var ranks: seq<int>
    const numInvalid: array<int>
    const usedHand: array<int>
    const usedMatch: array<int>
    const totalValue: array<real>

    ghost var m: Match      // where the match stands
    ghost var c: Clocks
    ghost var run: Run      // the hand in play

    ghost predicate Sized() {
      && t.Valid() && state.Valid()
      && numInvalid.Length == usedHand.Length == usedMatch.Length == totalValue.Length == t.game.numPlayers
      && usedHand != usedMatch && numInvalid != usedHand && numInvalid != usedMatch
      && Apart(state, numInvalid) && Apart(state, usedHand) && Apart(state, usedMatch)
    }

    ghost function Repr(): set<object> {
      {this, state, numInvalid, usedHand, usedMatch, totalValue} + state.Arrays()
    }

    /** The clocks' arrays hold c. */
    ghost predicate Timed()
      reads this`c, usedHand, usedMatch
    {
      c.usedHand == usedHand[..] && c.usedMatch == usedMatch[..]
    }

    /** The fields hold m, and the state the hand in play. */
    ghost predicate Valid()
      reads Repr()
    {
      && Sized() && Timed() && Staged()
      && state.For(t.game) && state.hand == m.hand && state.handId == m.handId
      && AtTable(t, m) && Dealt(t, m, run)
    }

    ghost predicate Staged()
      reads this, totalValue
    {
      && m.handId == handId && m.player0Seat == player0Seat && m.rng == rng && m.ranks == ranks
      && m.total == totalValue[..]
    }

    constructor (t: Table, seed: nat)
      requires t.Valid()
      ensures Valid() && fresh(Repr()) && this.t == t
      ensures m == First(t, seed) && c == Clocks(seq(t.game.numPlayers, _ => 0), seq(t.game.numPlayers, _ => 0))
    {
      hide Deal, Valid, Hand.Shape;
      this.t := t;
      state := new GameState.State();
      handId, player0Seat := 0, 0;
      var dealt := t.deal(seed);
      ranks, rng := dealt.0, dealt.1;
      var n := t.game.numPlayers;
      var invalid := Zeros(n);
      var hand := Zeros(n);
      var total := Zeros(n);
      numInvalid, usedHand, usedMatch := invalid, hand, total;
      totalValue := new real[t.game.numPlayers](_ => 0.0);
      m := First(t, seed);
      c := Clocks(seq(t.game.numPlayers, _ => 0), seq(t.game.numPlayers, _ => 0));
      run := Run(t.game, t.game.stack, [], [Deal(t.game, t.game.stack)]);
      new;
      assert Sized() && fresh(Repr());
      assert totalValue[..] == seq(t.game.numPlayers, _ => 0.0);
      StartHand();
    }

    /** initState for the hand the fields describe. */
    method StartHand()
      requires Sized() && Timed() && Staged() && m.player0Seat < t.game.numPlayers
      requires |m.total| == t.game.numPlayers
      requires m.hand == Deal(t.game, t.game.stack) && run == Run(t.game, t.game.stack, [], [m.hand])
      modifies state, state.Arrays()
      ensures Valid()
    {
      DealtFirst(t, m);
      state.InitState(t.game, handId);
    }

    // -------------------------------------------------------------- time

    /** checkErrorTimes. */
    method CheckErrorTimes(seat: nat, send: Time, recv: Time) returns (ok: bool)
      requires Sized() && Timed() && seat < t.game.numPlayers
      modifies this`c, usedHand, usedMatch
      ensures Timed() && (ok, c) == CheckTimes(t, old(c), seat, send, recv)
    {
      if recv.Before(send) {
        return true;
      }
      var micros := recv.Since(send);
      usedHand[seat] := usedHand[seat] + micros;
      usedMatch[seat] := usedMatch[seat] + micros;
      c := CheckTimes(t, c, seat, send, recv).1;
      assert usedHand[..] == old(usedHand[..])[seat := usedHand[seat]];
      assert usedMatch[..] == old(usedMatch[..])[seat := usedMatch[seat]];
      if micros > t.maxResponseMicros {
        return false;
      }
      if usedHand[seat] > t.maxUsedHandMicros {
        return false;
      }
      if usedMatch[seat] > t.maxUsedMatchMicros {
        return false;
      }
      ok := true;
    }

    /** checkErrorNewHand. */
    method CheckErrorNewHand()
      requires Sized() && Timed()
      modifies this`c, usedHand
      ensures Timed() && c == ResetHand(old(c))
    {
      for p := 0 to t.game.numPlayers
        invariant forall q :: 0 <= q < p ==> usedHand[q] == 0
        invariant usedMatch[..] == old(usedMatch[..])
        modifies usedHand
      {
        usedHand[p] := 0;
      }
      c := ResetHand(c);
    }

    /** checkErrorInvalidAction. */
    method CheckErrorInvalidAction(seat: nat) returns (ok: bool)
      requires Sized() && seat < t.game.numPlayers
      modifies numInvalid
      ensures numInvalid[..] == old(numInvalid[..])[seat := old(numInvalid[seat]) + 1]
      ensures ok <==> old(numInvalid[seat]) + 1 <= t.maxInvalidActions
    {
      numInvalid[seat] := numInvalid[seat] + 1;
      ok := numInvalid[seat] <= t.maxInvalidActions;
    }

    // -------------------------------------------------------------- live play

    /**
      readPlayerResponse: every line but a comment is timed from the sending of the state; the first one that answers
      the state is taken, changed to a call if it holds no valid action.
     */
    method ReadPlayerResponse(seat: nat, send: Time, replies: seq<Reply>)
      returns (ok: bool, action: Action, recv: Time, rest: seq<Reply>, ghost before: Clocks)
      requires Valid() && seat == Seat(t, m) && send.Valid()
      requires forall k :: 0 <= k < |replies| ==> replies[k].recv.Valid()
      modifies this`c, usedHand, usedMatch, numInvalid
      ensures Valid() && (forall k :: 0 <= k < |rest| ==> rest[k].recv.Valid())
      ensures ok ==> Check(t.game, m.hand, false, action) == (Check(t.game, m.hand, false, action).0, action)
      ensures ok ==> Check(t.game, m.hand, false, action).0 != 0
      ensures ok ==> AtMost(old(c), before) && (true, c) == CheckTimes(t, before, seat, send, recv)
      ensures ok ==> Passed(replies) < |replies| && recv == replies[Passed(replies)].recv
      ensures ok ==> action == Mended(t.game, m.hand, replies[Passed(replies)])
      ensures ok ==> rest == replies[Passed(replies) + 1..]
      ensures ok <==> !GivesUp(t, m, old(c), seat, old(numInvalid[seat]), send, replies)
      ensures c == Listen(t, old(c), seat, send, replies).1
    {
      hide Check, CheckTimes, Mended, AtTable, Hand.Shape, Game.Valid, Run.Valid, Dealt, Betting.CurrentPlayer, Bad;
      action, recv, rest, before := Action(Call, 0), send, replies, c;
      ghost var n := 0;
      while true
        invariant Valid() && AtMost(old(c), c) && forall k :: 0 <= k < |rest| ==> rest[k].recv.Valid()
        invariant n <= |replies| && rest == replies[n..] && Passed(replies) == n + Passed(rest)
        invariant Listen(t, old(c), seat, send, replies) == Listen(t, c, seat, send, rest)
        invariant numInvalid[..] == old(numInvalid[..])
        decreases |rest|
      {
        if rest == [] {
          return false, action, recv, rest, before;
        }
        var line := rest[0];
        rest, recv, n := rest[1..], line.recv, n + 1;
        if line.Comment? {
          continue;
        }
        before := c;
        TimeOnlyGrows(t, c, seat, send, recv);
        ok := CheckErrorTimes(seat, send, recv);
        if !ok {
          return;
        }
        if line.Unrequested? {
          continue;
        }
        ok, action := TakeAction(seat, line);
        return;
      }
    }

    /** The action of an answer to the state. */
    method TakeAction(seat: nat, line: Reply) returns (ok: bool, action: Action)
      requires Valid() && seat == Seat(t, m) && line.Answers()
      modifies numInvalid
      ensures Valid()
      ensures ok ==> Check(t.game, m.hand, false, action) == (Check(t.game, m.hand, false, action).0, action)
      ensures ok ==> Check(t.game, m.hand, false, action).0 != 0
      ensures ok <==> !(line.Chosen? && Bad(t.game, m.hand, line) && old(numInvalid[seat]) + 1 > t.maxInvalidActions)
      ensures Bad(t.game, m.hand, line) ==> numInvalid[..] == old(numInvalid[..])[seat := old(numInvalid[seat]) + 1]
      ensures !Bad(t.game, m.hand, line) ==> numInvalid[..] == old(numInvalid[..])
      ensures ok ==> action == Mended(t.game, m.hand, line)
    {
      hide Hand.Shape, Game.Valid, Run.Valid, Legal, RaiseRange, Dealt, InPlay, CurrentPlayer, GameState.State.For;
      SomebodyToAct();
      if line.Unreadable? {
        ok := CheckErrorInvalidAction(seat);
        return true, Action(Call, 0);
      }
      var code;
      code, action := state.IsValidAction(t.game, true, line.action);
      if code == 0 {
        ok := CheckErrorInvalidAction(seat);
        return ok, Action(Call, 0);
      }
      CheckedIsLegal(t.game, m.hand, true, line.action);
      ok := true;
    }

    lemma SomebodyToAct()
      requires Valid()
      ensures InPlay(t, m) && exists q: nat :: q < t.game.numPlayers && state.hand.Able(q)
    {
      StillPlaying(t, m, run);
    }

    /** One turn of gameLoop: ask the player to act, log what he does, do it. */
    method PlayTurn(send: Time, replies: seq<Reply>)
      returns (ok: bool, entry: Entry, rest: seq<Reply>, ghost before: Clocks)
      requires Valid() && send.Valid() && forall k :: 0 <= k < |replies| ==> replies[k].recv.Valid()
      modifies Repr()
      ensures ok ==> Valid() && AtTable(t, old(m)) && LiveTurn(t, old(m), old(c), before, entry, m, c)
      ensures ok ==> forall k :: 0 <= k < |rest| ==> rest[k].recv.Valid()
      ensures ok ==> Passed(replies) < |replies| && rest == replies[Passed(replies) + 1..]
      ensures ok ==> Logs(t, old(m), replies[Passed(replies)], send, entry)
      ensures AtTable(t, old(m)) && Seat(t, old(m)) < |old(c).usedHand| == |old(c).usedMatch| == t.game.numPlayers
      ensures ok <==>
        !GivesUp(t, old(m), old(c), Seat(t, old(m)), old(numInvalid[Seat(t, m)]), send, replies)
    {
      hide GivesUp, Listen, Bad, Mended, CheckTimes, Passed, Hand.Shape, Game.Valid, Run.Valid;
      SomebodyToAct();
      var p := state.CurrentPlayer(t.game);
      var seat := PlayerToSeat(t.game.numPlayers, player0Seat, p);
      var action, recv;
      ok, action, recv, rest, before := ReadPlayerResponse(seat, send, replies);
      entry := Entry(action, state.handId, send, recv);
      if ok {
        PlayAction(action);
      }
    }

    /** Does a checked action, and sets up the next hand when it ends this one. */
    method PlayAction(a: Action)
      requires Valid() && Check(t.game, m.hand, false, a) == (Check(t.game, m.hand, false, a).0, a)
      requires Check(t.game, m.hand, false, a).0 != 0
      modifies Repr()
      ensures Valid() && m == Turn(t, old(m), a)
      ensures c == if Betting.DoAction(t.game, old(m.hand), a).finished then ResetHand(old(c)) else old(c)
      ensures numInvalid[..] == old(numInvalid[..])
    {
      hide Betting.DoAction, Check, InPlay, AssertsHold;
      SomebodyToAct();
      RunGoesOn(t, m, run, a);
      DoChecked(a);
      if state.finished {
        FinishHand();
      }
    }

    method DoChecked(a: Action)
      requires Sized() && Staged() && AtTable(t, m) && state.For(t.game) && state.hand == m.hand && !state.finished
      requires AssertsHold(t.game, m.hand, a) && exists q: nat :: q < t.game.numPlayers && state.hand.Able(q)
      modifies this`m, this`run, state, state.Arrays()
      ensures Staged() && state.For(t.game) && state.hand == m.hand && state.handId == old(state.handId)
      ensures m == old(m).(hand := Betting.DoAction(t.game, old(m.hand), a)) && run == Extended(old(run), a, m.hand)
      ensures usedHand[..] == old(usedHand[..]) && usedMatch[..] == old(usedMatch[..])
      ensures numInvalid[..] == old(numInvalid[..])
    {
      state.DoAction(t.game, a);
      m := m.(hand := state.hand);
      run := Extended(run, a, state.hand);
    }

    method FinishHand()
      requires Sized() && Timed() && Staged() && state.For(t.game) && state.hand == m.hand
      requires player0Seat < t.game.numPlayers
      requires |m.total| == t.game.numPlayers
      modifies this, state, state.Arrays(), usedHand, totalValue
      ensures Valid() && m == NextHand(t, old(m).(total := Totals(t, old(m), old(m).hand))) && c == ResetHand(old(c))
    {
      AddTotals();
      SetUpNewHand();
    }

    /** Every seat's total grows by what its player won. */
    method AddTotals()
      requires Sized() && Timed() && Staged() && state.For(t.game) && state.hand == m.hand
      requires player0Seat < t.game.numPlayers
      modifies this`m, totalValue
      ensures Staged() && m == old(m).(total := Totals(t, old(m), old(m).hand))
    {
      var spent, folded := state.spent[..t.game.numPlayers], state.playerFolded[..t.game.numPlayers];
      assert spent == m.hand.spent && folded == m.hand.folded;
      for p := 0 to t.game.numPlayers
        invariant forall s :: 0 <= s < t.game.numPlayers ==>
          totalValue[s] ==
            if SeatToPlayer(t.game.numPlayers, player0Seat, s) < p then Totals(t, m, m.hand)[s] else old(totalValue[s])
        modifies totalValue
      {
        forall s | 0 <= s < t.game.numPlayers
          ensures SeatToPlayer(t.game.numPlayers, player0Seat, s) == p <==>
            s == PlayerToSeat(t.game.numPlayers, player0Seat, p)
        {
          SeatsRoundTrip(t.game.numPlayers, player0Seat, s);
          SeatsRoundTrip(t.game.numPlayers, player0Seat, p);
        }
        var value := t.worth(spent, folded, ranks, p);
        var s := PlayerToSeat(t.game.numPlayers, player0Seat, p);
        totalValue[s] := totalValue[s] + value;
      }
      assert totalValue[..] == Totals(t, m, m.hand);
      m := m.(total := Totals(t, m, m.hand));
    }

    /** setUpNewHand. */
    method SetUpNewHand()
      requires Sized() && Timed() && Staged() && player0Seat < t.game.numPlayers && |m.total| == t.game.numPlayers
      modifies this, state, state.Arrays(), usedHand
      ensures Valid() && m == NextHand(t, old(m)) && c == ResetHand(old(c))
    {
      hide Valid, NextHand, ResetHand;
      NextIsDeal(t, m);
      MoveOn();
      StartHand();
    }

    /** The fields of the next hand. */
    method MoveOn()
      requires Sized() && Timed() && Staged() && player0Seat < t.game.numPlayers && |m.total| == t.game.numPlayers
      modifies this, usedHand
      ensures Sized() && Timed() && Staged() && m == NextHand(t, old(m)) && c == ResetHand(old(c))
      ensures run == Run(t.game, t.game.stack, [], [m.hand])
    {
      hide Deal, Hand.Shape, Game.Valid, Run.Valid, AtTable, Betting.DoAction;
      ghost var start := m;
      handId := handId + 1;
      if !t.fixedSeats {
        player0Seat := (player0Seat + 1) % t.game.numPlayers;
      }
      CheckErrorNewHand();
      var dealt := t.deal(rng);
      ranks, rng := dealt.0, dealt.1;
      m := NextHand(t, start);
      run := Run(t.game, t.game.stack, [], [m.hand]);
    }

    /** gameLoop, for as many turns as the sending times given: what it logs is a live match. */
    method GameLoop(numHands: nat, sends: seq<Time>, replies: seq<Reply>)
      returns (ok: bool, log: seq<Entry>, ghost live: Live)
      requires Valid() && (forall k :: 0 <= k < |sends| ==> sends[k].Valid())
      requires forall k :: 0 <= k < |replies| ==> replies[k].recv.Valid()
      modifies Repr()
      ensures PlayedOn(live, t, sends, replies, log) && live.ms[0] == old(m) && live.cs[0] == old(c)
      ensures ok ==> Valid() && m == live.ms[|log|] && c == live.cs[|log|]
      ensures ok ==> |log| == |sends| || live.ms[|log|].handId >= numHands
      ensures !ok ==> |log| < |sends| && live.ms[|log|].handId < numHands
      ensures !ok ==> GivesUpSomewhere(t, live.ms[|log|], live.cs[|log|], sends[|log|], replies)
    {
      hide GivesUp, GivesUpSomewhere;
      hide LiveTurn, Logs, Passed, InPlay, AtTable, PlayedOn, Valid, Hand.Shape, Game.Valid, LogsOneOf, Timed, Sized,
           Live.Valid, Run.Valid, Staged, Dealt;
      log, live := [], Live(t, [m], [c], [], []);
      var rest := replies;
      ghost var done: nat := 0;
      NothingYet(sends, replies);
      for k := 0 to |sends|
        invariant Valid() && PlayedOn(live, t, sends, replies, log)
        invariant |log| == k && |live.ms| == |live.cs| == k + 1
        invariant live.ms[0] == old(m) && live.cs[0] == old(c) && m == live.ms[k] && c == live.cs[k]
        invariant done <= |replies| && rest == replies[done..]
      {
        SameHandId();
        if handId >= numHands {
          break;
        }
        ghost var m0, c0, before, was := m, c, c, rest;
        ghost var invalid := SeatInvalid();
        var entry;
        ok, entry, rest, before := PlayTurn(sends[k], rest);
        if !ok {
          GaveUp(t, m0, c0, sends[k], replies, done, invalid);
          return;
        }
        OneOfThem(replies, done, was);
        OneMorePlayed(live, t, sends, replies, log, before, entry, m, c, done + Passed(was));
        done := done + Passed(was) + 1;
        live := OneMore(live, before, entry, m, c);
        log := log + [entry];
      }
      ok := true;
    }

    lemma SameHandId()
      requires Valid()
      ensures m.handId == handId && AtTable(t, m) && |c.usedHand| == |c.usedMatch| == t.game.numPlayers
    {
    }

    /** The bad actions so far of the seat to act. */
    ghost function SeatInvalid(): int
      requires Valid()
      reads Repr()
    {
      numInvalid[Seat(t, m)]
    }

    lemma NothingYet(sends: seq<Time>, replies: seq<Reply>)
      requires Valid()
      ensures PlayedOn(Live(t, [m], [c], [], []), t, sends, replies, [])
    {
      NothingPlayed(t, m, c, sends, replies);
    }

    // -------------------------------------------------------------- taking up a match

    /** processTransactionFile. */
    method ProcessTransactionFile(es: seq<Entry>) returns (ok: bool)
      requires Valid()
      modifies Repr()
      ensures match Replay(t, old(m), old(c), es) {
                case Broken => !ok
                case Resumed(m', c') => ok && Valid() && m == m' && c == c' }
    {
      hide ReplayEntry, InPlay;
      ghost var m0, c0 := m, c;
      SomebodyToAct();
      for k := 0 to |es|
        invariant Valid() && Replay(t, m0, c0, es[..k]) == Resumed(m, c)
      {
        assert es[..k + 1][..k] == es[..k];
        var good := ProcessEntry(es[k]);
        if !good {
          BrokenStays(t, m0, c0, es, k + 1);
          return false;
        }
      }
      assert es[..|es|] == es;
      ok := true;
    }

    method ProcessEntry(e: Entry) returns (ok: bool)
      requires Valid()
      modifies Repr()
      ensures match ReplayEntry(t, old(m), old(c), e) {
                case Broken => !ok
                case Resumed(m', c') => ok && Valid() && m == m' && c == c' }
    {
      hide Betting.DoAction, Check, Turn, CheckTimes, Betting.CurrentPlayer, PlayerToSeat;
      if e.handId != handId {
        return false;
      }
      var action, s;
      ok, action, s := Vet(e.action);
      if !ok {
        return;
      }
      ok := CheckErrorTimes(s, e.send, e.recv);
      if !ok {
        return;
      }
      PlayAction(action);
    }

    /** Whether the action may be done, what isValidAction makes of it, and the seat that does it. */
    method Vet(a: Action) returns (ok: bool, action: Action, s: nat)
      requires Valid()
      ensures s == Seat(t, m) < t.game.numPlayers && ok == (Check(t.game, m.hand, false, a).0 != 0)
      ensures ok ==> action == Check(t.game, m.hand, false, a).1 && Check(t.game, m.hand, false, action).0 != 0
      ensures ok ==> Check(t.game, m.hand, false, action).1 == action
    {
      hide Check, InPlay, Legal;
      SomebodyToAct();
      var code;
      code, action := state.IsValidAction(t.game, false, a);
      ok := code != 0;
      if ok { CheckedIsLegal(t.game, m.hand, false, a); }
      var p := state.CurrentPlayer(t.game);
      s := PlayerToSeat(t.game.numPlayers, player0Seat, p);
    }
  }

  /** live is a live match with the given log, of actions done for answers among the replies. */
  ghost predicate PlayedOn(live: Live, t: Table, sends: seq<Time>, replies: seq<Reply>, log: seq<Entry>) {
    && live.t == t && live.Valid() && live.es == log && |log| <= |sends|
    && forall k :: 0 <= k < |log| ==> LogsOneOf(t, live.ms[k], replies, sends[k], log[k])
  }

  lemma NothingPlayed(t: Table, m: Match, c: Clocks, sends: seq<Time>, replies: seq<Reply>)
    requires AtTable(t, m) && |c.usedHand| == |c.usedMatch| == t.game.numPlayers
    ensures PlayedOn(Live(t, [m], [c], [], []), t, sends, replies, [])
  {
    var v := Live(t, [m], [c], [], []);
    forall k: nat ensures v.TurnAt(k) {}
  }

  lemma OneMorePlayed(live: Live, t: Table, sends: seq<Time>, replies: seq<Reply>, log: seq<Entry>, before: Clocks,
                      e: Entry, m: Match, c: Clocks, i: nat)
    requires PlayedOn(live, t, sends, replies, log) && |log| < |sends| && i < |replies|
    requires AtTable(t, live.ms[|log|]) && LiveTurn(t, live.ms[|log|], live.cs[|log|], before, e, m, c)
    requires Logs(t, live.ms[|log|], replies[i], sends[|log|], e)
    ensures PlayedOn(OneMore(live, before, e, m, c), t, sends, replies, log + [e])
  {
    hide LiveTurn, Logs;
    OneMoreIsLive(live, before, e, m, c);
  }

  /** The first answer of the lines that are left is one of the answers, and leaves fewer lines. */
  lemma OneOfThem(replies: seq<Reply>, done: nat, rest: seq<Reply>)
    requires done <= |replies| && rest == replies[done..] && Passed(rest) < |rest|
    ensures rest[Passed(rest)] == replies[done + Passed(rest)]
    ensures rest[Passed(rest) + 1..] == replies[done + Passed(rest) + 1..]
  {
  }

  /** The array is not one of the state's. */
  ghost predicate Apart(state: GameState.State, a: array<int>) {
    a != state.spent && a != state.stackPlayer && a != state.numActions
  }

  /** The first hand of a match. */
  function First(t: Table, seed: nat): Match
    requires t.game.Valid()
  {
    var (ranks, rng) := t.deal(seed);
    Match(0, 0, rng, ranks, Deal(t.game, t.game.stack), seq(t.game.numPlayers, _ => 0.0))
  }

  /** run is how the hand in play came about, and the seats fit; sealed, DealtAt(.., 0) opens it. */
  ghost predicate Dealt(t: Table, m: Match, run: Run) {
    forall k: nat :: DealtAt(t, m, run, k)
  }

  ghost predicate DealtAt(t: Table, m: Match, run: Run, k: nat) {
    && t.Valid() && m.player0Seat < t.game.numPlayers && |m.total| == t.game.numPlayers
    && run.Valid() && run.game == t.game && run.stacks == t.game.stack && run.Last() == m.hand
    && InPlay(t, m)
  }

  lemma DealtFirst(t: Table, m: Match)
    requires t.Valid() && m.player0Seat < t.game.numPlayers && |m.total| == t.game.numPlayers
    requires m.hand == Deal(t.game, t.game.stack)
    ensures Dealt(t, m, Run(t.game, t.game.stack, [], [m.hand]))
  {
    DealInTurn(t.game, t.game.stack);
    var r := Run(t.game, t.game.stack, [], [m.hand]);
    forall k: nat ensures r.LegalAt(k) {}
    forall k: nat ensures DealtAt(t, m, r, k) {}
  }

  lemma StillPlaying(t: Table, m: Match, run: Run)
    requires Dealt(t, m, run)
    ensures InPlay(t, m) && exists q: nat :: q < t.game.numPlayers && m.hand.Able(q)
  {
    assert DealtAt(t, m, run, 0);
    NeverStuck(run, |run.acts|);
  }

  lemma NextIsDeal(t: Table, m: Match)
    requires t.Valid() && m.player0Seat < t.game.numPlayers
    ensures var next := NextHand(t, m);
      next.hand == Deal(t.game, t.game.stack) && next.total == m.total && next.player0Seat < t.game.numPlayers
  {
  }

  ghost function Extended(r: Run, a: Action, h: Hand): Run {
    r.(acts := r.acts + [a], hands := r.hands + [h])
  }

  lemma RunGoesOn(t: Table, m: Match, run: Run, a: Action)
    requires AtTable(t, m) && Dealt(t, m, run) && Check(t.game, m.hand, false, a).0 != 0
    requires Check(t.game, m.hand, false, a).1 == a
    ensures AssertsHold(t.game, m.hand, a)
    ensures var h := DoAction(t.game, m.hand, a);
      !h.finished ==> Dealt(t, m.(hand := h), Extended(run, a, h))
  {
    assert DealtAt(t, m, run, 0);
    CheckedIsLegal(t.game, m.hand, false, a);
    var h := DoAction(t.game, m.hand, a);
    var r := Longer(run, a);
    LongerIsValid(run, a);
    RunMeetsAsserts(r, |run.acts|);
    ActionKeepsTurn(t.game, m.hand, a);
    if !h.finished {
      forall k: nat ensures DealtAt(t, m.(hand := h), r, k) {}
    }
  }

  ghost function OneMore(v: Live, before: Clocks, e: Entry, m: Match, c: Clocks): Live {
    Live(v.t, v.ms + [m], v.cs + [c], v.before + [before], v.es + [e])
  }

  lemma OneMoreIsLive(v: Live, before: Clocks, e: Entry, m: Match, c: Clocks)
    requires v.Valid() && AtTable(v.t, v.ms[|v.es|]) && LiveTurn(v.t, v.ms[|v.es|], v.cs[|v.es|], before, e, m, c)
    ensures OneMore(v, before, e, m, c).Valid()
  {
    hide LiveTurn;
    var w := OneMore(v, before, e, m, c);
    forall k: nat ensures w.TurnAt(k) { assert v.TurnAt(k); }
  }

  lemma {:induction false} BrokenStays(t: Table, m: Match, c: Clocks, es: seq<Entry>, k: nat)
    requires AtTable(t, m) && |c.usedHand| == |c.usedMatch| == t.game.numPlayers
    requires k <= |es| && Replay(t, m, c, es[..k]).Broken?
    ensures Replay(t, m, c, es).Broken?
    decreases |es|
  {
    if k < |es| {
      var init := es[..|es| - 1];
      assert init[..k] == es[..k];
      BrokenStays(t, m, c, init, k);
    } else {
      assert es[..k] == es;
    }
  }

  /**
    A dealer that is restarted with the transaction log of another, written up to any point, stands where that one
    stood: the log is accepted, and no time limit the first run passed is exceeded.
   */
  method Recover(t: Table, seed: nat, numHands: nat, sends: seq<Time>, replies: seq<Reply>) returns (same: bool)
    requires t.Valid() && (forall k :: 0 <= k < |sends| ==> sends[k].Valid())
    requires forall k :: 0 <= k < |replies| ==> replies[k].recv.Valid()
    ensures same
  {
    var first := new Dealer(t, seed);
    var ok, log, live := first.GameLoop(numHands, sends, replies);
    var second := new Dealer(t, seed);
    LogRecovers(live, second.c, |log|);
    assert live.es[..|log|] == log;
    var resumed := second.ProcessTransactionFile(log);
    assert second.m == live.ms[|log|] && (ok ==> second.m == first.m);
    same := resumed && (!ok || (second.handId == first.handId && second.player0Seat == first.player0Seat
                                && second.rng == first.rng && second.totalValue[..] == first.totalValue[..]));
  }
}
