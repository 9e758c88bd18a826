/**
  The readers and printers of modules/core/src/game.c as loops over a string and a position, the betting
  done on a State; each is proved against its function in module StateText.
 */
module TextIO {
  import opened Betting
  import opened Hands
  import opened Chips
  import opened Numbers
  import opened StateText
  import GameState

  /** readCards. */
  method ReadCards(f: Format, s: string, maxCards: nat) returns (cards: seq<nat>, c: nat)
    ensures c <= |s| && (cards, s[c..]) == StateText.ReadCards(f, maxCards, s)
  {
    cards, c := [], 0;
    assert s[0..] == s;
    FrontNothing(StateText.ReadCards(f, maxCards, s));
    for i := 0 to maxCards
      invariant c <= |s|
      invariant StateText.ReadCards(f, maxCards, s) == Front(cards, StateText.ReadCards(f, maxCards - i, s[c..]))
    {
      var card := ReadCard(f, s[c..]);
      if card == None {
        assert cards + [] == cards;
        return;
      }
      assert s[c..][2..] == s[c + 2..];
      FrontTwice(cards, card.value, StateText.ReadCards(f, maxCards - i - 1, s[c + 2..]));
      cards := cards + [card.value];
      c := c + 2;
    }
    assert cards + [] == cards;
  }

  function Front(cards: seq<nat>, r: (seq<nat>, string)): (seq<nat>, string) {
    (cards + r.0, r.1)
  }

  lemma FrontNothing(r: (seq<nat>, string))
    ensures Front([], r) == r
  {
    assert [] + r.0 == r.0;
  }

  lemma FrontTwice(cards: seq<nat>, card: nat, r: (seq<nat>, string))
    ensures Front(cards, ([card] + r.0, r.1)) == Front(cards + [card], r)
  {
    assert cards + ([card] + r.0) == cards + [card] + r.0;
  }

  /** readHoleCards; -1 if a player's cards are incomplete. */
  method ReadHoleCards(f: Format, s: string) returns (holeCards: seq<seq<nat>>, c: int)
    ensures match StateText.ReadHoleCards(f, 0, s) {
              case Error => c == -1
              case Got(hole, rest) => 0 <= c <= |s| && holeCards == hole && s[c..] == rest }
  {
    holeCards, c := [], 0;
    assert s[0..] == s;
    BeforeNothing(StateText.ReadHoleCards(f, 0, s));
    for p := 0 to f.game.numPlayers
      invariant 0 <= c <= |s|
      invariant StateText.ReadHoleCards(f, 0, s) == Before(holeCards, StateText.ReadHoleCards(f, p, s[c..]))
    {
      var ok, cards, r := ReadPlayer(f, s, p, c);
      if !ok {
        return [], -1;
      }
      BeforeTwice(holeCards, cards, StateText.ReadHoleCards(f, p + 1, s[r..]));
      holeCards, c := holeCards + [cards], r;
    }
    assert holeCards + [] == holeCards;
  }

  /** The cards of player p at position c. */
  method ReadPlayer(f: Format, s: string, p: nat, c: nat) returns (ok: bool, cards: seq<nat>, c': nat)
    requires p < f.game.numPlayers && c <= |s|
    ensures c' <= |s|
    ensures StateText.ReadHoleCards(f, p, s[c..]) ==
      if ok then Before([cards], StateText.ReadHoleCards(f, p + 1, s[c'..])) else Error
  {
    c' := c;
    if p != 0 && c < |s| && s[c] == '|' {
      c' := c + 1;
    }
    var r;
    cards, r := ReadCards(f, s[c'..], f.numHoleCards);
    PlayerStep(f, s, p, c, c', cards, r);
    ok := true;
    if |cards| == 0 {
      cards := Unknown(f.numHoleCards);
    } else if |cards| != f.numHoleCards {
      ok := false;
    } else {
      c' := c' + r;
    }
  }

  /** What reading a player's cards comes to: none of them, all of them, or an error. */
  lemma PlayerStep(f: Format, s: string, p: nat, c: nat, c1: nat, cards: seq<nat>, r: nat)
    requires p < f.game.numPlayers && c <= |s| && c1 == c + (if p != 0 && c < |s| && s[c] == '|' then 1 else 0)
    requires c1 + r <= |s| && (cards, s[c1..][r..]) == StateText.ReadCards(f, f.numHoleCards, s[c1..])
    ensures StateText.ReadHoleCards(f, p, s[c..]) ==
      if cards == [] then Before([Unknown(f.numHoleCards)], StateText.ReadHoleCards(f, p + 1, s[c1..]))
      else if |cards| != f.numHoleCards then Error
      else Before([cards], StateText.ReadHoleCards(f, p + 1, s[c1 + r..]))
  {
    var t := s[c..];
    assert (if p != 0 && t != [] && t[0] == '|' then t[1..] else t) == s[c1..];
    assert s[c1..][r..] == s[c1 + r..];
  }

  /** What has been read, in front of what is still read. */
  function Before<T>(read: seq<T>, p: Parsed<seq<T>>): Parsed<seq<T>> {
    match p
    case Error => Error
    case Got(more, rest) => Got(read + more, rest)
  }

  lemma BeforeNothing<T>(p: Parsed<seq<T>>)
    ensures Before([], p) == p
  {
    if p.Got? { assert [] + p.value == p.value; }
  }

  lemma BeforeTwice<T>(read: seq<T>, x: T, p: Parsed<seq<T>>)
    ensures Before(read, Before([x], p)) == Before(read + [x], p)
  {
    if p.Got? { assert read + ([x] + p.value) == read + [x] + p.value; }
  }

  /** readBoardCards; -1 if a round's cards are incomplete. */
  method ReadBoardCards(f: Format, s: string, round: nat) returns (board: seq<nat>, c: int)
    requires round < |f.numBoardCards|
    ensures match StateText.ReadBoardCards(f, 0, round, s) {
              case Error => c == -1
              case Got(cards, rest) => 0 <= c <= |s| && board == cards && s[c..] == rest }
  {
    board, c := [], 0;
    assert s[0..] == s;
    BeforeNothing(StateText.ReadBoardCards(f, 0, round, s));
    for i := 0 to round + 1
      invariant 0 <= c <= |s|
      invariant StateText.ReadBoardCards(f, 0, round, s) == Before(board, StateText.ReadBoardCards(f, i, round, s[c..]))
    {
      var ok, cards, r := ReadRound(f, s, i, round, c);
      if !ok {
        return [], -1;
      }
      AfterCards(board, cards, StateText.ReadBoardCards(f, i + 1, round, s[r..]));
      board, c := board + cards, r;
    }
    assert board + [] == board;
  }

  method ReadRound(f: Format, s: string, i: nat, round: nat, c: nat) returns (ok: bool, cards: seq<nat>, c': nat)
    requires i <= round < |f.numBoardCards| && c <= |s|
    ensures c' <= |s|
    ensures StateText.ReadBoardCards(f, i, round, s[c..]) ==
      if ok then Before(cards, StateText.ReadBoardCards(f, i + 1, round, s[c'..])) else Error
  {
    c' := c;
    if i != 0 && c < |s| && s[c] == '/' {
      c' := c + 1;
      assert s[c..][1..] == s[c'..];
    }
    var r;
    cards, r := ReadCards(f, s[c'..], f.numBoardCards[i]);
    assert s[c'..][r..] == s[c' + r..];
    ok := |cards| == f.numBoardCards[i];
    c' := c' + r;
  }

  lemma AfterCards(board: seq<nat>, cards: seq<nat>, p: Parsed<seq<nat>>)
    ensures Before(board, Before(cards, p)) == Before(board + cards, p)
  {
    if p.Got? { assert board + (cards + p.value) == board + cards + p.value; }
  }

  /** The hand is what the run leads to; sealed, LedAt(0, ..) opens it. */
  ghost predicate Led(g: Game, run: Run, h: Hand) {
    forall k: nat :: LedAt(k, g, run, h)
  }

  ghost predicate LedAt(k: nat, g: Game, run: Run, h: Hand) {
    run.Valid() && run.game == g && run.Last() == h
  }

  lemma LedOpens(g: Game, run: Run, h: Hand)
    requires Led(g, run, h)
    ensures LedAt(0, g, run, h)
  {
  }

  /** readBetting: replays the text on the state; -1 at the first action that cannot be read or done. */
  method ReadBetting(s: string, g: Game, state: GameState.State, ghost start: Run) returns (c: int, ghost run: Run)
    requires state.For(g) && Led(g, start, state.hand)
    modifies state, state.Arrays()
    ensures match StateText.ReadBetting(g, old(state.hand), s) {
              case Error => c == -1
              case Got(h, rest) => state.For(g) && 0 <= c <= |s| && s[c..] == rest && state.hand ==
                h && Led(g, run, h) }
  {
    c, run := 0, start;
    ghost var whole := StateText.ReadBetting(g, state.hand, s);
    while true
      invariant 0 <= c <= |s| && state.For(g) && Led(g, run, state.hand)
      invariant whole == StateText.ReadBetting(g, state.hand, s[c..])
      decreases |s| - c
    {
      if c == |s| {
        break;
      }
      if s[c] == ':' {
        assert s[c..][1..] == s[c + 1..];
        c := c + 1;
        break;
      }
      if s[c] == '/' {
        assert s[c..][1..] == s[c + 1..];
        c := c + 1;
        continue;
      }
      ActionStep(g, state.hand, s, c);
      c, run := ReadOneAction(s, c, g, state, run);
      if c < 0 {
        return;
      }
    }
  }

  /** The action at position c, done, and the position after it. */
  ghost function OneAction(g: Game, h: Hand, s: string, c: nat): Option<(Hand, int)>
    requires g.Valid() && h.Shape(g) && c < |s|
  {
    match ReadAction(g.noLimit, s[c..])
    case Error => None
    case Got(a, rest) =>
      var (code, action) := Check(g, h, false, a);
      if code == 0 then None else Some((DoAction(g, h, action), |s| - |rest|))
  }

  method ReadOneAction(s: string, c: nat, g: Game, state: GameState.State, ghost start: Run)
    returns (c': int, ghost run: Run)
    requires state.For(g) && Led(g, start, state.hand) && c < |s|
    modifies state, state.Arrays()
    ensures match OneAction(g, old(state.hand), s, c) {
              case None => c' == -1
              case Some((h, after)) => c' == after && state.For(g) && state.hand == h && Led(g, run, h) }
  {
    var a := ReadAction(g.noLimit, s[c..]);
    if a.Error? {
      return -1, start;
    }
    var done;
    done, run := TryAction(g, a.value, state, start);
    c' := if done then |s| - |a.rest| else -1;
  }

  /** What reading and trying one action comes to. */
  lemma ActionStep(g: Game, h: Hand, s: string, c: nat)
    requires g.Valid() && h.Shape(g) && c < |s|
    ensures s[c] != ':' && s[c] != '/' ==>
      match OneAction(g, h, s, c) {
        case None => StateText.ReadBetting(g, h, s[c..]) == Error
        case Some((h', after)) =>
          c < after <= |s| && StateText.ReadBetting(g, h, s[c..]) == StateText.ReadBetting(g, h', s[after..]) }
  {
    hide Hand.Shape, Game.Valid, DoAction, Check, ReadAction, StateText.ReadBetting;
    RestOf(s, c, g.noLimit);
    var a := ReadAction(g.noLimit, s[c..]);
    if s[c] != ':' && s[c] != '/' {
      if a.Got? {
        BettingStep(g, h, s[c..], a.value, a.rest, Check(g, h, false, a.value).0, Check(g, h, false, a.value).1);
      } else {
        BettingFails(g, h, s[c..]);
      }
    }
  }

  lemma BettingFails(g: Game, h: Hand, t: string)
    requires g.Valid() && h.Shape(g) && t != [] && t[0] != ':' && t[0] != '/' && ReadAction(g.noLimit, t).Error?
    ensures StateText.ReadBetting(g, h, t) == Error
  {
    hide DoAction, Check, ReadAction;
  }

  lemma BettingStep(g: Game, h: Hand, t: string, a: Action, rest: string, code: nat, action: Action)
    requires g.Valid() && h.Shape(g) && t != [] && t[0] != ':' && t[0] != '/'
    requires ReadAction(g.noLimit, t) == Got(a, rest) && Check(g, h, false, a) == (code, action)
    ensures StateText.ReadBetting(g, h, t) ==
      if code == 0 then Error else StateText.ReadBetting(g, DoAction(g, h, action), rest)
  {
    hide DoAction, Check, ReadAction;
  }

  /** What a reader leaves is the end of its string. */
  lemma RestOf(s: string, c: nat, noLimit: bool)
    requires c < |s|
    ensures var a := ReadAction(noLimit, s[c..]); a.Got? ==> |a.rest| < |s| - c && a.rest == s[|s| - |a.rest|..]
  {
    var t := s[c..];
    var a := ReadAction(noLimit, t);
    if a.Got? && KindOf(t[0]).Raise? && noLimit {
      IntRest(t[1..]);
      assert t[1..] == s[c + 1..];
    }
  }

  lemma IntRest(s: string)
    ensures var p := ReadInt(s); p.Got? ==> |p.rest| < |s| && p.rest == s[|s| - |p.rest|..]
  {
    SpacesRest(s);
    var t := SkipSpaces(s);
    var sign := t != [] && (t[0] == '-' || t[0] == '+');
    var u := if sign then t[1..] else t;
    assert u == s[|s| - |u|..];
  }

  lemma {:induction false} SpacesRest(s: string)
    ensures SkipSpaces(s) == s[|s| - |SkipSpaces(s)|..]
  {
    if s != [] && Space(s[0]) { SpacesRest(s[1..]); }
  }

  method TryAction(g: Game, a: Action, state: GameState.State, ghost start: Run) returns (done: bool, ghost run: Run)
    requires state.For(g) && Led(g, start, state.hand)
    modifies state, state.Arrays()
    ensures done <==> Check(g, old(state.hand), false, a).0 != 0
    ensures done ==> state.For(g) && state.hand == DoAction(g, old(state.hand), Check(g, old(state.hand), false, a).1)
    ensures done ==> Led(g, run, state.hand)
  {
    run := start;
    if state.finished {
      return false, run;
    }
    SomebodyToAct(g, start, state.hand);
    var code, action := state.IsValidAction(g, false, a);
    if code == 0 {
      return false, run;
    }
    CheckedIsLegal(g, state.hand, false, a);
    run := OneMore(g, start, state.hand, action);
    state.DoAction(g, action);
    done := true;
  }

  lemma SomebodyToAct(g: Game, run: Run, h: Hand)
    requires Led(g, run, h) && !h.finished
    ensures exists q: nat :: q < g.numPlayers && h.Able(q)
  {
    LedOpens(g, run, h);
    NeverStuck(run, |run.acts|);
  }

  lemma OneMore(g: Game, run: Run, h: Hand, a: Action) returns (longer: Run)
    requires g.Valid() && h.Shape(g) && Led(g, run, h) && Legal(g, h, a)
    ensures Led(g, longer, DoAction(g, h, a)) && AssertsHold(g, h, a)
  {
    LedOpens(g, run, h);
    longer := Longer(run, a);
    LongerIsValid(run, a);
    RunMeetsAsserts(longer, |run.acts|);
  }

  /** printBetting. */
  method PrintBetting(f: Format, state: GameState.State) returns (s: string)
    requires state.For(f.game)
    ensures s == StateText.PrintBetting(f, state.hand)
  {
    s := "";
    ghost var moves := state.hand.moves;
    for i := 0 to state.round + 1
      invariant s == Text(f.game.noLimit, RoundTokens(moves, i))
    {
      ghost var slash := if i > 0 then [Slash] else [];
      if i != 0 {
        s := s + "/";
      }
      SlashText(f.game.noLimit, RoundTokens(moves, i), slash);
      ghost var before := RoundTokens(moves, i) + slash;
      assert before + ActTokens(moves[i])[..0] == before;
      for a := 0 to state.numActions[i]
        invariant s == Text(f.game.noLimit, before + ActTokens(moves[i])[..a])
      {
        var printed := PrintAction(f.game.noLimit, state.action[i, a]);
        OneText(f.game.noLimit, before, ActTokens(moves[i]), a);
        s := s + printed;
      }
      assert ActTokens(moves[i])[..|moves[i]|] == ActTokens(moves[i]);
    }
  }

  lemma {:induction false} TextConcat(noLimit: bool, a: seq<Token>, b: seq<Token>)
    ensures Text(noLimit, a + b) == Text(noLimit, a) + Text(noLimit, b)
  {
    if a == [] {
      assert a + b == b;
    } else {
      assert (a + b)[1..] == a[1..] + b;
      TextConcat(noLimit, a[1..], b);
    }
  }

  lemma SlashText(noLimit: bool, a: seq<Token>, slash: seq<Token>)
    requires slash == [] || slash == [Slash]
    ensures Text(noLimit, a + slash) == Text(noLimit, a) + if slash == [] then "" else "/"
  {
    TextConcat(noLimit, a, slash);
    assert Text(noLimit, [Slash]) == "/" + Text(noLimit, []);
  }

  lemma OneText(noLimit: bool, before: seq<Token>, acts: seq<Token>, a: nat)
    requires a < |acts| && acts[a].Act?
    ensures Text(noLimit, before + acts[..a + 1]) ==
      Text(noLimit, before + acts[..a]) + PrintAction(noLimit, acts[a].action)
  {
    assert before + acts[..a + 1] == (before + acts[..a]) + [acts[a]];
    TextConcat(noLimit, before + acts[..a], [acts[a]]);
    assert Text(noLimit, [acts[a]]) == TokenText(noLimit, acts[a]) + Text(noLimit, []);
  }
}
