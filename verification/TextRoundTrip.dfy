/**
  Reading a printed match state gives it back: viewer, hand number, stacks, the whole betting state, the cards
  that were shown and the board, whatever follows in the string.
 */
module TextRoundTrip {
  import opened Betting
  import opened Hands
  import opened Numbers
  import opened StateText

  // ---------------------------------------------------------------- cards

  lemma {:induction false} FindAt(s: string, k: nat)
    requires k < |s| && forall i :: 0 <= i < k ==> s[i] != s[k]
    ensures Find(s, s[k]) == k
  {
    var n := |s| - 1;
    if k < n {
      FindAt(s[..n], k);
    } else {
      assert s[k] !in s[..n];
    }
  }

  lemma RankReads(r: nat)
    requires r < MAX_RANKS
    ensures Find(RANKS, ToUpper(RANKS[r])) == r
  {
    FindAt(RANKS, r);
  }

  lemma SuitReads(k: nat)
    requires k < |SUITS|
    ensures Find(SUITS, ToLower(SUITS[k])) == k
  {
    FindAt(SUITS, k);
  }

  lemma CardReads(f: Format, card: nat, rest: string)
    requires 1 <= f.numSuits <= |SUITS| && IsCard(f, card)
    ensures |PrintCard(f, card)| == 2 && ReadCard(f, PrintCard(f, card) + rest) == Some(card)
    ensures (PrintCard(f, card) + rest)[2..] == rest
  {
    var rank, suit := card / f.numSuits, card % f.numSuits;
    Quotient(card, f.numSuits);
    RankReads(rank);
    SuitReads(suit);
    assert (PrintCard(f, card) + rest)[2..] == rest;
  }

  lemma Quotient(card: nat, n: nat)
    requires 0 < n && card < MAX_RANKS * n
    ensures card / n < MAX_RANKS && card / n * n + card % n == card
  {
    AtLeast(MAX_RANKS, card / n, n);
  }

  lemma AtLeast(a: nat, b: nat, n: nat)
    ensures a <= b ==> a * n <= b * n
  {
    if a <= b { assert b * n == a * n + (b - a) * n; }
  }

  lemma {:induction false} CardsRead(f: Format, cards: seq<nat>, rest: string)
    requires 1 <= f.numSuits <= |SUITS| && forall i :: 0 <= i < |cards| ==> IsCard(f, cards[i])
    ensures ReadCards(f, |cards|, PrintCards(f, cards) + rest) == (cards, rest)
  {
    if cards != [] {
      var more := PrintCards(f, cards[1..]) + rest;
      CardReads(f, cards[0], more);
      CardsRead(f, cards[1..], rest);
      Assoc(PrintCard(f, cards[0]), PrintCards(f, cards[1..]), rest);
      OneCard(f, |cards|, PrintCard(f, cards[0]) + more, cards[0], more);
      assert [cards[0]] + cards[1..] == cards;
    } else {
      assert PrintCards(f, cards) + rest == rest;
    }
  }

  lemma OneCard(f: Format, n: nat, s: string, card: nat, more: string)
    requires n > 0 && ReadCard(f, s) == Some(card) && |s| >= 2 && s[2..] == more
    ensures var (cards, rest) := ReadCards(f, n - 1, more); ReadCards(f, n, s) == ([card] + cards, rest)
  {
  }

  /** Separators are no cards. */
  predicate Stops(s: string) { s == [] || s[0] == '|' || s[0] == '/' || s[0] == ':' }

  lemma NoCards(f: Format, n: nat, s: string)
    requires Stops(s)
    ensures ReadCard(f, s) == None && ReadCards(f, n, s) == ([], s)
  {
    if |s| >= 2 {
      assert Find(RANKS, ToUpper(s[0])) < 0 by { assert ToUpper(s[0]) == s[0]; assert s[0] !in RANKS; }
    }
  }

  /** A player's cards: all known, or none. */
  ghost predicate Whole(f: Format, cards: seq<nat>) {
    |cards| == f.numHoleCards && (AllKnown(f, cards) || forall i :: 0 <= i < |cards| ==> cards[i] == UNDEFINED_CARD)
  }

  ghost predicate AllKnown(f: Format, cards: seq<nat>) {
    forall i :: 0 <= i < |cards| ==> IsCard(f, cards[i])
  }

  lemma {:induction false} UnknownPrints(f: Format, cards: seq<nat>)
    requires 1 <= f.numSuits <= |SUITS| && forall i :: 0 <= i < |cards| ==> cards[i] == UNDEFINED_CARD
    ensures PrintCards(f, cards) == "" && cards == Unknown(|cards|)
  {
    if cards != [] { UnknownPrints(f, cards[1..]); }
  }

  /** One player's cards, if they are shown; what follows them is taken for cards only if there are none. */
  lemma PlayerReads(f: Format, cards: seq<nat>, shown: bool, rest: string)
    requires 1 <= f.numSuits <= |SUITS| && Whole(f, cards)
    requires Stops(rest) || f.numHoleCards == 0 || (shown && AllKnown(f, cards))
    ensures var text := (if shown then PrintCards(f, cards) else "") + rest;
      var (read, end) := ReadCards(f, f.numHoleCards, text);
      && (read == [] || |read| == f.numHoleCards) && end == rest && (read == [] ==> text == rest)
      && (if read == [] then Unknown(f.numHoleCards) else read) == if shown then cards else Unknown(f.numHoleCards)
  {
    var text := (if shown then PrintCards(f, cards) else "") + rest;
    if shown && AllKnown(f, cards) {
      CardsRead(f, cards, rest);
      if cards == [] { assert text == rest; }
    } else {
      if shown { UnknownPrints(f, cards); }
      assert text == rest;
      if f.numHoleCards > 0 { NoCards(f, f.numHoleCards, rest); }
    }
  }

  lemma FirstApart(cards: seq<nat>, k: nat)
    requires 0 < k <= |cards|
    ensures [cards[0]] + cards[1..][..k - 1] == cards[..k] && cards[1..][k - 1..] == cards[k..]
  {
  }

  /** A reader that wants n cards takes what is there of them. */
  lemma {:induction false} TakesCards(f: Format, n: nat, cards: seq<nat>, rest: string)
    requires 1 <= f.numSuits <= |SUITS| && AllKnown(f, cards) && Stops(rest)
    ensures var k := if n < |cards| then n else |cards|;
      ReadCards(f, n, PrintCards(f, cards) + rest) == (cards[..k], PrintCards(f, cards[k..]) + rest)
  {
    hide ReadCard, PrintCard, IsCard, Stops;
    var k := if n < |cards| then n else |cards|;
    if cards == [] {
      assert PrintCards(f, cards) + rest == rest;
      NoCards(f, n, rest);
    } else if n > 0 {
      var more := PrintCards(f, cards[1..]) + rest;
      CardReads(f, cards[0], more);
      Assoc(PrintCard(f, cards[0]), PrintCards(f, cards[1..]), rest);
      TakesCards(f, n - 1, cards[1..], rest);
      OneCard(f, n, PrintCard(f, cards[0]) + more, cards[0], more);
      assert PrintCards(f, cards) + rest == PrintCard(f, cards[0]) + more;
      hide PrintCards, ReadCards;
      FirstApart(cards, k);
    }
  }

  // ---------------------------------------------------------------- hole cards and board

  /** The hole cards a reader of the text gets to know, of players p and up. */
  ghost function Seen(f: Format, ms: MatchState, p: nat): (hole: seq<seq<nat>>)
    requires p <= f.game.numPlayers == |ms.holeCards|
    ensures |hole| == f.game.numPlayers - p
    ensures forall q :: p <= q < f.game.numPlayers ==>
      hole[q - p] == if Shown(f, ms, q) then ms.holeCards[q] else Unknown(f.numHoleCards)
    decreases f.game.numPlayers - p
  {
    if p == f.game.numPlayers then []
    else [if Shown(f, ms, p) then ms.holeCards[p] else Unknown(f.numHoleCards)] + Seen(f, ms, p + 1)
  }

  /** What may follow the hole cards. */
  predicate Ends(s: string) { s == [] || s[0] == '/' || s[0] == ':' }

  lemma StartOfHole(f: Format, ms: MatchState, p: nat, rest: string)
    requires f.Valid() && 0 < p <= f.game.numPlayers == |ms.holeCards| && Ends(rest)
    ensures Stops(PrintHoleCards(f, ms, p) + rest)
  {
    if p == f.game.numPlayers { assert PrintHoleCards(f, ms, p) + rest == rest; }
  }

  ghost function Body(f: Format, ms: MatchState, p: nat): string
    requires f.Valid() && p < f.game.numPlayers == |ms.holeCards|
  {
    if Shown(f, ms, p) then PrintCards(f, ms.holeCards[p]) else ""
  }

  /** The separator before player p's cards is skipped. */
  lemma SkipsBar(f: Format, ms: MatchState, p: nat, rest: string)
    requires f.Valid() && p < f.game.numPlayers == |ms.holeCards|
    ensures var s, t := PrintHoleCards(f, ms, p) + rest, Body(f, ms, p) + (PrintHoleCards(f, ms, p + 1) + rest);
      t == if p != 0 && s != [] && s[0] == '|' then s[1..] else s
  {
    hide PrintCards, Shown;
    var more := PrintHoleCards(f, ms, p + 1);
    Assoc(Body(f, ms, p), more, rest);
    if p == 0 {
      assert PrintHoleCards(f, ms, p) == Body(f, ms, p) + more;
    } else {
      Assoc("|", Body(f, ms, p), more);
      Behind('|', PrintHoleCards(f, ms, p), Body(f, ms, p) + more, rest);
    }
  }

  /** What stands behind a first character. */
  lemma Behind(ch: char, s: string, t: string, rest: string)
    requires s == [ch] + t
    ensures (s + rest) != [] && (s + rest)[0] == ch && (s + rest)[1..] == t + rest
  {
  }

  lemma HoleStep(f: Format, p: nat, s: string, t: string, others: seq<seq<nat>>, end: string)
    requires p < f.game.numPlayers && t == if p != 0 && s != [] && s[0] == '|' then s[1..] else s
    requires var (cards, rest) := ReadCards(f, f.numHoleCards, t);
      (cards == [] || |cards| == f.numHoleCards) && ReadHoleCards(f, p + 1, if cards == [] then t else rest) ==
        Got(others, end)
    ensures var cards := ReadCards(f, f.numHoleCards, t).0;
      ReadHoleCards(f, p, s) == Got([if cards == [] then Unknown(f.numHoleCards) else cards] + others, end)
  {
  }

  /** The player whose cards stand in front of the board. */
  function LastSeat(f: Format): nat
    requires f.game.numPlayers > 0
  {
    f.game.numPlayers - 1
  }

  ghost predicate LastShown(f: Format, ms: MatchState)
    requires f.Valid() && |ms.holeCards| == f.game.numPlayers
  {
    Shown(f, ms, LastSeat(f)) && AllKnown(f, ms.holeCards[LastSeat(f)])
  }

  lemma {:induction false} HoleCardsRead(f: Format, ms: MatchState, p: nat, rest: string)
    requires f.Valid() && p <= f.game.numPlayers == |ms.holeCards|
    requires Ends(rest) || f.numHoleCards == 0 || LastShown(f, ms)
    requires forall q :: 0 <= q < |ms.holeCards| ==> Whole(f, ms.holeCards[q])
    ensures ReadHoleCards(f, p, PrintHoleCards(f, ms, p) + rest) == Got(Seen(f, ms, p), rest)
    decreases f.game.numPlayers - p
  {
    if p == f.game.numPlayers {
      assert PrintHoleCards(f, ms, p) + rest == rest;
    } else {
      var more := PrintHoleCards(f, ms, p + 1) + rest;
      MoreStops(f, ms, p, rest);
      PlayerReads(f, ms.holeCards[p], Shown(f, ms, p), more);
      SkipsBar(f, ms, p, rest);
      HoleCardsRead(f, ms, p + 1, rest);
      HoleStep(f, p, PrintHoleCards(f, ms, p) + rest, Body(f, ms, p) + more, Seen(f, ms, p + 1), rest);
    }
  }

  /** What stands behind player p's cards. */
  lemma MoreStops(f: Format, ms: MatchState, p: nat, rest: string)
    requires f.Valid() && p < f.game.numPlayers == |ms.holeCards|
    ensures p < LastSeat(f) || Ends(rest) ==> Stops(PrintHoleCards(f, ms, p + 1) + rest)
  {
    if p < LastSeat(f) {
      assert PrintHoleCards(f, ms, p + 1)[0] == '|';
    } else if Ends(rest) {
      StartOfHole(f, ms, p + 1, rest);
    }
  }

  /** A last player whose cards are not printed takes the first board cards for them. */
  lemma {:induction false} HoleCardsMisread(f: Format, ms: MatchState, p: nat, cards: seq<nat>, rest: string)
    requires f.Valid() && p < f.game.numPlayers == |ms.holeCards| && !LastShown(f, ms)
    requires forall q :: 0 <= q < |ms.holeCards| ==> Whole(f, ms.holeCards[q])
    requires f.numHoleCards > 0 && cards != [] && AllKnown(f, cards) && Stops(rest)
    ensures var read := ReadHoleCards(f, p, PrintHoleCards(f, ms, p) + (PrintCards(f, cards) + rest));
      read == Error || (f.numHoleCards <= |cards| && read.rest == PrintCards(f, cards[f.numHoleCards..]) + rest)
    decreases f.game.numPlayers - p
  {
    var board := PrintCards(f, cards) + rest;
    var s, more := PrintHoleCards(f, ms, p) + board, PrintHoleCards(f, ms, p + 1) + board;
    SkipsBar(f, ms, p, board);
    if p == LastSeat(f) {
      if Shown(f, ms, p) { UnknownPrints(f, ms.holeCards[p]); }
      assert more == board && Body(f, ms, p) + more == board;
      TakesCards(f, f.numHoleCards, cards, rest);
      LastStep(f, p, s, board);
    } else {
      MoreStops(f, ms, p, board);
      PlayerReads(f, ms.holeCards[p], Shown(f, ms, p), more);
      HoleCardsMisread(f, ms, p + 1, cards, rest);
      MisreadStep(f, p, s, Body(f, ms, p) + more, more);
    }
  }

  lemma LastStep(f: Format, p: nat, s: string, t: string)
    requires p + 1 == f.game.numPlayers && t == if p != 0 && s != [] && s[0] == '|' then s[1..] else s
    requires ReadCards(f, f.numHoleCards, t).0 != []
    ensures var (cards, rest) := ReadCards(f, f.numHoleCards, t);
      ReadHoleCards(f, p, s) == if |cards| == f.numHoleCards then Got([cards], rest) else Error
  {
    var cards := ReadCards(f, f.numHoleCards, t).0;
    assert [cards] + [] == [cards];
  }

  lemma MisreadStep(f: Format, p: nat, s: string, t: string, more: string)
    requires p < f.game.numPlayers && t == if p != 0 && s != [] && s[0] == '|' then s[1..] else s
    requires var (cards, rest) := ReadCards(f, f.numHoleCards, t);
      (cards == [] || |cards| == f.numHoleCards) && rest == more && (cards == [] ==> t == more)
    ensures var others := ReadHoleCards(f, p + 1, more);
      if others == Error then ReadHoleCards(f, p, s) == Error
      else ReadHoleCards(f, p, s).Got? && ReadHoleCards(f, p, s).rest == others.rest
  {
  }

  /** What the board text starts with, when no cards are dealt before the first betting. */
  lemma StartOfBoard(f: Format, board: seq<nat>, round: nat, rest: string)
    requires f.Valid() && round < |f.numBoardCards| && f.numBoardCards[0] == 0 && Ends(rest)
    ensures Ends(PrintBoardCards(f, board, 0, round) + rest)
  {
    assert BoardOf(f, board, 0) == [];
    var more := PrintBoardCards(f, board, 1, round);
    assert PrintBoardCards(f, board, 0, round) == more;
    if round == 0 { assert more + rest == rest; }
  }

  lemma {:induction false} BoardStartGrows(f: Format, r: nat, n: nat)
    requires r <= n <= |f.numBoardCards|
    ensures f.BoardStart(r) <= f.BoardStart(n)
  {
    if r < n { BoardStartGrows(f, r, n - 1); }
  }

  lemma {:induction false} BoardReads(f: Format, board: seq<nat>, r: nat, round: nat, rest: string)
    requires f.Valid() && r <= round + 1 <= |f.numBoardCards|
    requires f.BoardStart(round + 1) <= |board| && forall k :: 0 <= k < f.BoardStart(round + 1) ==> IsCard(f, board[k])
    ensures ReadBoardCards(f, r, round, PrintBoardCards(f, board, r, round) + rest) ==
      Got(BoardFrom(f, board, r, round), rest)
    decreases round + 1 - r
  {
    if r > round {
      assert PrintBoardCards(f, board, r, round) + rest == rest;
      BoardSlices(f, board, r, round);
    } else {
      BoardSlices(f, board, r, round);
      var more := PrintBoardCards(f, board, r + 1, round) + rest;
      CardsRead(f, BoardOf(f, board, r), more);
      BoardStep(f, board, r, round, rest);
      BoardReads(f, board, r + 1, round, rest);
      OneRound(f, r, round, PrintBoardCards(f, board, r, round) + rest, PrintCards(f, BoardOf(f, board, r)) + more,
               BoardFrom(f, board, r + 1, round), rest);
    }
  }

  /** The board cards of rounds r up to round. */
  function BoardFrom(f: Format, board: seq<nat>, r: nat, round: nat): seq<nat>
    requires r <= round + 1 <= |f.numBoardCards|
  {
    var from, to := f.BoardStart(r), f.BoardStart(round + 1);
    if from <= to <= |board| then board[from..to] else []
  }

  lemma BoardSlices(f: Format, board: seq<nat>, r: nat, round: nat)
    requires r <= round + 1 <= |f.numBoardCards| && f.BoardStart(round + 1) <= |board|
    requires forall k :: 0 <= k < f.BoardStart(round + 1) ==> IsCard(f, board[k])
    ensures r > round ==> BoardFrom(f, board, r, round) == []
    ensures r <= round ==> BoardFrom(f, board, r, round) == BoardOf(f, board, r) + BoardFrom(f, board, r + 1, round)
    ensures r <= round ==> |BoardOf(f, board, r)| == f.numBoardCards[r]
    ensures r <= round ==> forall i :: 0 <= i < |BoardOf(f, board, r)| ==> IsCard(f, BoardOf(f, board, r)[i])
  {
    BoardStartGrows(f, r, round + 1);
    if r <= round { BoardStartGrows(f, r + 1, round + 1); }
  }

  lemma OneRound(f: Format, r: nat, round: nat, s: string, t: string, others: seq<nat>, end: string)
    requires r <= round < |f.numBoardCards| && t == if r != 0 && s != [] && s[0] == '/' then s[1..] else s
    requires var (cards, rest) := ReadCards(f, f.numBoardCards[r], t);
      |cards| == f.numBoardCards[r] && ReadBoardCards(f, r + 1, round, rest) == Got(others, end)
    ensures ReadBoardCards(f, r, round, s) == Got(ReadCards(f, f.numBoardCards[r], t).0 + others, end)
  {
  }

  lemma BoardStep(f: Format, board: seq<nat>, r: nat, round: nat, rest: string)
    requires f.Valid() && r <= round < |f.numBoardCards|
    ensures var s := PrintBoardCards(f, board, r, round) + rest;
      var t := PrintCards(f, BoardOf(f, board, r)) + (PrintBoardCards(f, board, r + 1, round) + rest);
      (if r != 0 && s != [] && s[0] == '/' then s[1..] else s) == t
  {
    hide PrintCards, BoardOf;
    var s := PrintBoardCards(f, board, r, round) + rest;
    var t := PrintCards(f, BoardOf(f, board, r)) + (PrintBoardCards(f, board, r + 1, round) + rest);
    if r == 0 {
      assert s == t;
    } else {
      assert s == ['/'] + t;
      assert s[1..] == t;
    }
  }

  // ---------------------------------------------------------------- stacks

  predicate StackChar(ch: char) { Digit(ch) || ch == '|' || ch == '-' }

  lemma IntsStep(n: nat, s: string, x: int, more: string)
    requires n > 1 && StrTol(s) == (x, more) && more != []
    ensures ReadInts(n, s).0 == [x] + ReadInts(n - 1, more[1..]).0 && ReadInts(n, s).1 == ReadInts(n - 1, more[1..]).1
  {
  }

  lemma FirstIntReads(stacks: seq<int>, rest: string)
    requires |stacks| > 1
    ensures StrTol(PrintStack(stacks) + rest) == (stacks[0], ['|'] + (PrintStack(stacks[1..]) + rest))
    ensures (['|'] + (PrintStack(stacks[1..]) + rest))[1..] == PrintStack(stacks[1..]) + rest
  {
    var others := PrintStack(stacks[1..]);
    assert PrintStack(stacks) == DecInt(stacks[0]) + "|" + others;
    hide StrTol, DecInt, PrintStack;
    BarBetween(DecInt(stacks[0]), others, rest);
    DecIntReads(stacks[0], ['|'] + (others + rest));
  }

  lemma BarBetween(a: string, b: string, rest: string)
    ensures (a + "|" + b) + rest == a + (['|'] + (b + rest)) && (['|'] + (b + rest))[1..] == b + rest
  {
  }

  lemma LastInt(stacks: seq<int>, rest: string)
    requires |stacks| == 1 && (rest == [] || !Digit(rest[0]))
    ensures ReadInts(|stacks|, PrintStack(stacks) + rest) == (stacks, rest)
  {
    DecIntReads(stacks[0], rest);
    OneInt(PrintStack(stacks) + rest, stacks[0], rest);
    assert stacks == [stacks[0]];
  }

  lemma OneInt(s: string, x: int, rest: string)
    requires StrTol(s) == (x, rest)
    ensures ReadInts(1, s) == ([x], rest)
  {
  }

  lemma FirstInt(stacks: seq<int>, rest: string)
    requires |stacks| > 1 && ReadInts(|stacks| - 1, PrintStack(stacks[1..]) + rest) == (stacks[1..], rest)
    ensures ReadInts(|stacks|, PrintStack(stacks) + rest) == (stacks, rest)
  {
    FirstIntReads(stacks, rest);
    IntsStep(|stacks|, PrintStack(stacks) + rest, stacks[0], ['|'] + (PrintStack(stacks[1..]) + rest));
    assert [stacks[0]] + stacks[1..] == stacks;
  }

  lemma {:induction false} IntsRead(stacks: seq<int>, rest: string)
    requires stacks != [] && (rest == [] || !Digit(rest[0]))
    ensures ReadInts(|stacks|, PrintStack(stacks) + rest) == (stacks, rest)
  {
    if |stacks| == 1 {
      LastInt(stacks, rest);
    } else {
      IntsRead(stacks[1..], rest);
      FirstInt(stacks, rest);
    }
  }

  lemma IntChars(n: int)
    ensures forall k :: 0 <= k < |DecInt(n)| ==> StackChar(DecInt(n)[k])
  {
    if n < 0 { DecIsDigits(-n); } else { DecIsDigits(n); }
  }

  lemma {:induction false} StackChars(stacks: seq<int>)
    ensures forall k :: 0 <= k < |PrintStack(stacks)| ==> StackChar(PrintStack(stacks)[k])
    ensures |PrintStack(stacks)| >= |stacks|
    ensures |stacks| >= 2 ==> |PrintStack(stacks)| >= 3
  {
    if stacks != [] { IntChars(stacks[0]); }
    if |stacks| > 1 { StackChars(stacks[1..]); }
  }

  /** No card is spelled with the characters of a stack. */
  lemma NoStackCard(f: Format, s: string)
    requires |s| >= 2 ==> StackChar(s[1])
    ensures ReadCard(f, s) == None
  {
    if |s| >= 2 {
      assert ToLower(s[1]) == s[1] && s[1] !in SUITS;
    }
  }

  lemma StackReads(f: Format, stacks: seq<int>, rest: string)
    requires |stacks| == f.game.numPlayers >= 2
    ensures ReadStack(f, PrintStack(stacks) + (":" + rest)) == (Some(stacks), rest)
  {
    var text, more := PrintStack(stacks), ":" + rest;
    var s := text + more;
    StackChars(stacks);
    assert forall k :: 0 <= k < 3 ==> s[k] == text[k];
    NoStackCard(f, s);
    NoStackCard(f, s[1..]);
    IntsRead(stacks, more);
    assert more[1..] == rest;
  }

  // ---------------------------------------------------------------- betting

  /** Actions without a size where the text has none. */
  ghost predicate Plain(g: Game, a: Action) {
    !a.kind.Invalid? && (a.size == 0 || (a.kind.Raise? && g.noLimit))
  }

  function TokenActions(ts: seq<Token>): seq<Action> {
    if ts == [] then [] else (if ts[0].Act? then [ts[0].action] else []) + TokenActions(ts[1..])
  }

  lemma ActionReads(g: Game, a: Action, rest: string)
    requires Plain(g, a) && (rest == [] || !Digit(rest[0]))
    ensures ReadAction(g.noLimit, PrintAction(g.noLimit, a) + rest) == Got(a, rest)
  {
    var size := if g.noLimit && a.kind.Raise? then DecInt(a.size) else "";
    After(KindChar(a.kind), size, rest);
    if g.noLimit && a.kind.Raise? {
      DecIntReads(a.size, rest);
    } else {
      assert size + rest == rest;
    }
  }

  lemma StartOfText(g: Game, ts: seq<Token>, tail: string)
    requires forall i :: 0 <= i < |ts| && ts[i].Act? ==> Plain(g, ts[i].action)
    requires tail != [] && tail[0] == ':'
    ensures Text(g.noLimit, ts) + tail != [] && !Digit((Text(g.noLimit, ts) + tail)[0])
  {
    if ts != [] {
      TextSplits(g, ts, tail);
      TokenStart(g, ts[0]);
      FirstOf(TokenText(g.noLimit, ts[0]), Text(g.noLimit, ts[1..]) + tail);
    } else {
      assert Text(g.noLimit, ts) + tail == tail;
    }
  }

  lemma TokenStart(g: Game, t: Token)
    requires t.Act? ==> Plain(g, t.action)
    ensures !Digit(TokenText(g.noLimit, t)[0])
  {
  }

  lemma TextSplits(g: Game, ts: seq<Token>, tail: string)
    requires ts != []
    ensures Text(g.noLimit, ts) + tail == TokenText(g.noLimit, ts[0]) + (Text(g.noLimit, ts[1..]) + tail)
  {
  }

  /** One action of the text is done. */
  lemma ActionStep(g: Game, h: Hand, a: Action, more: string)
    requires g.Valid() && h.Shape(g) && Legal(g, h, a) && Plain(g, a) && more != [] && !Digit(more[0])
    ensures ReadBetting(g, h, PrintAction(g.noLimit, a) + more) == ReadBetting(g, DoAction(g, h, a), more)
  {
    ActionReads(g, a, more);
    PlainPasses(g, h, a);
    var s := PrintAction(g.noLimit, a) + more;
    assert s[0] == KindChar(a.kind);
  }

  lemma SlashStep(g: Game, h: Hand, more: string)
    requires g.Valid() && h.Shape(g)
    ensures ReadBetting(g, h, "/" + more) == ReadBetting(g, h, more)
  {
    assert ("/" + more)[1..] == more;
  }

  /** Replaying the text of the rest of a run from where it starts ends where the run ends. */
  lemma {:induction false} BettingReads(r: Run, k: nat, ts: seq<Token>, tail: string)
    requires r.Valid() && k <= |r.acts| && TokenActions(ts) == r.acts[k..]
    requires forall i :: 0 <= i < |ts| && ts[i].Act? ==> Plain(r.game, ts[i].action)
    requires tail != [] && tail[0] == ':'
    ensures r.hands[k].Shape(r.game)
    ensures ReadBetting(r.game, r.hands[k], Text(r.game.noLimit, ts) + tail) == Got(r.Last(), tail[1..])
    decreases |ts|
  {
    RunKeepsTurn(r, k);
    if ts == [] {
      assert Text(r.game.noLimit, ts) + tail == tail;
    } else {
      var more := Text(r.game.noLimit, ts[1..]) + tail;
      TextSplits(r.game, ts, tail);
      if ts[0] == Slash {
        SlashStep(r.game, r.hands[k], more);
        BettingReads(r, k, ts[1..], tail);
      } else {
        var a := ts[0].action;
        FirstAction(r, k, ts);
        StartOfText(r.game, ts[1..], tail);
        ActionStep(r.game, r.hands[k], a, more);
        BettingReads(r, k + 1, ts[1..], tail);
      }
    }
  }

  lemma FirstAction(r: Run, k: nat, ts: seq<Token>)
    requires r.Valid() && k <= |r.acts| && TokenActions(ts) == r.acts[k..] && ts != [] && ts[0].Act?
    ensures k < |r.acts| && ts[0].action == r.acts[k] && TokenActions(ts[1..]) == r.acts[k + 1..]
    ensures r.hands[k].Shape(r.game) && Legal(r.game, r.hands[k], r.acts[k])
    ensures r.hands[k + 1] == DoAction(r.game, r.hands[k], r.acts[k])
  {
    assert r.acts[k..] == [ts[0].action] + TokenActions(ts[1..]);
    assert r.acts[k..][1..] == r.acts[k + 1..];
    assert r.LegalAt(k);
  }

  /** A plain legal action passes isValidAction as it is. */
  lemma PlainPasses(g: Game, h: Hand, a: Action)
    requires g.Valid() && h.Shape(g) && Legal(g, h, a) && Plain(g, a)
    ensures Check(g, h, false, a).0 != 0 && Check(g, h, false, a).1 == a
  {
  }

  lemma {:induction false} TokensConcat(a: seq<Token>, b: seq<Token>)
    ensures TokenActions(a + b) == TokenActions(a) + TokenActions(b)
  {
    if a == [] {
      assert a + b == b;
    } else {
      assert (a + b)[1..] == a[1..] + b;
      TokensConcat(a[1..], b);
    }
  }

  lemma {:induction false} LogTokens(log: seq<Move>)
    ensures TokenActions(ActTokens(log)) == Actions(log)
  {
    if log != [] {
      var n := |log| - 1;
      LogTokens(log[..n]);
      assert ActTokens(log) == ActTokens(log[..n]) + [Act(log[n].action)];
      TokensConcat(ActTokens(log[..n]), [Act(log[n].action)]);
    }
  }

  lemma {:induction false} RoundsTokens(moves: seq<seq<Move>>, n: nat)
    requires n <= |moves|
    ensures TokenActions(RoundTokens(moves, n)) == FlatLog(moves, n)
  {
    if n > 0 {
      RoundsTokens(moves, n - 1);
      LogTokens(moves[n - 1]);
      SlashBetween(RoundTokens(moves, n - 1), if n > 1 then [Slash] else [], ActTokens(moves[n - 1]));
    }
  }

  lemma SlashBetween(a: seq<Token>, slash: seq<Token>, b: seq<Token>)
    requires slash == [] || slash == [Slash]
    ensures TokenActions(a + slash + b) == TokenActions(a) + TokenActions(b)
  {
    TokensConcat(a + slash, b);
    TokensConcat(a, slash);
    assert TokenActions(slash) == [];
  }

  lemma {:induction false} RoundActs(moves: seq<seq<Move>>, n: nat, i: nat)
    requires n <= |moves| && i < |RoundTokens(moves, n)| && RoundTokens(moves, n)[i].Act?
    ensures RoundTokens(moves, n)[i].action in FlatLog(moves, n)
  {
    var slash := if n > 1 then [Slash] else [];
    var before := RoundTokens(moves, n - 1);
    if i < |before| {
      RoundActs(moves, n - 1, i);
    } else {
      LogHas(moves[n - 1], i - |before| - |slash|);
    }
  }

  lemma {:induction false} LogHas(log: seq<Move>, i: int)
    requires 0 <= i < |log|
    ensures log[i].action in Actions(log)
  {
    if i < |log| - 1 {
      LogHas(log[..|log| - 1], i);
    } else {
      assert Actions(log)[|Actions(log)| - 1] == log[i].action;
    }
  }

  lemma {:induction false} EmptyRounds(moves: seq<seq<Move>>, k: nat, n: nat)
    requires k <= n <= |moves| && forall r :: k <= r < n ==> moves[r] == []
    ensures FlatLog(moves, n) == FlatLog(moves, k)
  {
    if k < n { EmptyRounds(moves, k, n - 1); }
  }

  /** The printed betting of a hand replays to that hand. */
  lemma PrintedBettingReads(f: Format, r: Run, rest: string)
    requires f.Valid() && r.Valid() && r.game == f.game && forall a :: a in r.acts ==> Plain(r.game, a)
    ensures r.Last().Shape(f.game)
    ensures ReadBetting(f.game, Deal(f.game, r.stacks), PrintBetting(f, r.Last()) + (":" + rest)) == Got(r.Last(), rest)
  {
    var h := r.Last();
    RunKeepsTurn(r, |r.acts|);
    var ts := RoundTokens(h.moves, h.round + 1);
    RoundsTokens(h.moves, h.round + 1);
    LaterRoundsEmpty(r, |r.acts|);
    EmptyRounds(h.moves, h.round + 1, |h.moves|);
    LogIsTheRun(r, |r.acts|);
    assert r.acts[..|r.acts|] == r.acts == r.acts[0..];
    forall i | 0 <= i < |ts| && ts[i].Act? ensures Plain(r.game, ts[i].action) { RoundActs(h.moves, h.round + 1, i); }
    BettingReads(r, 0, ts, ":" + rest);
    assert (":" + rest)[1..] == rest;
  }

  // ---------------------------------------------------------------- match states

  /**
    A match state as it comes up in a match: the hand of a run, with cards for everybody or nobody and a known board.
   */
  ghost predicate Reached(f: Format, ms: MatchState, r: Run) {
    && f.Valid() && r.Valid() && r.game == f.game && r.Last() ==
      ms.hand && (forall a :: a in r.acts ==> Plain(r.game, a))
    && ms.viewer < f.game.numPlayers == |ms.holeCards|
    && (forall q :: 0 <= q < |ms.holeCards| ==> Whole(f, ms.holeCards[q]))
    && ms.hand.round < |f.numBoardCards| && f.BoardStart(ms.hand.round + 1) <= |ms.board|
    && forall k :: 0 <= k < f.BoardStart(ms.hand.round + 1) ==> IsCard(f, ms.board[k])
  }

  lemma HeaderReads(f: Format, viewer: nat, handId: nat, rest: string)
    requires f.Valid() && viewer < f.game.numPlayers
    ensures ReadMatchState(f, HEADER + (Dec(viewer) + (":" + (Dec(handId) + (":" + rest))))) ==
      ReadRest(f, viewer, handId, rest)
  {
    var t := ":" + rest;
    var u := ":" + (Dec(handId) + t);
    var s := HEADER + (Dec(viewer) + u);
    assert s[|HEADER|..] == Dec(viewer) + u;
    DecReads(viewer, u);
    assert u[1..] == Dec(handId) + t;
    DecReads(handId, t);
    assert t[1..] == rest;
  }

  /** The text in front of the hole cards, piece by piece. */
  lemma StateSplits(f: Format, ms: MatchState, rest: string)
    requires f.Valid() && ms.hand.Shape(f.game) && |ms.holeCards| == f.game.numPlayers
    ensures var hole := PrintHoleCards(f, ms, 0) + (PrintBoardCards(f, ms.board, 0, ms.hand.round) + rest);
      PrintMatchState(f, ms) + rest ==
      HEADER + (Dec(ms.viewer) + (":" + (Dec(ms.handId) + (":" +
        (PrintStack(ms.hand.stack) + (":" + (PrintBetting(f, ms.hand) + (":" + hole))))))))
  {
    var p0 := PrintHoleCards(f, ms, 0) + PrintBoardCards(f, ms.board, 0, ms.hand.round);
    var p1 := ":" + p0;
    var p2 := PrintBetting(f, ms.hand) + p1;
    var p3 := ":" + p2;
    var p4 := PrintStack(ms.hand.stack) + p3;
    var p5 := ":" + p4;
    var p6 := Dec(ms.handId) + p5;
    var p7 := ":" + p6;
    Assoc(PrintHoleCards(f, ms, 0), PrintBoardCards(f, ms.board, 0, ms.hand.round), rest);
    Assoc(":", p0, rest);
    Assoc(PrintBetting(f, ms.hand), p1, rest);
    Assoc(":", p2, rest);
    Assoc(PrintStack(ms.hand.stack), p3, rest);
    Assoc(":", p4, rest);
    Assoc(Dec(ms.handId), p5, rest);
    Assoc(":", p6, rest);
    Assoc(Dec(ms.viewer), p7, rest);
    Assoc(HEADER, Dec(ms.viewer) + p7, rest);
  }

  lemma Assoc(a: string, b: string, c: string)
    ensures (a + b) + c == a + (b + c)
  {
  }

  lemma StartOfCards(f: Format, ms: MatchState, board: string)
    requires f.Valid() && |ms.holeCards| == f.game.numPlayers && Whole(f, ms.holeCards[0])
    ensures PrintHoleCards(f, ms, 0) + board != [] && (PrintHoleCards(f, ms, 0) + board)[0] != ':'
  {
    var body, more := Body(f, ms, 0), PrintHoleCards(f, ms, 1);
    assert PrintHoleCards(f, ms, 0) == body + more && more[0] == '|';
    if Shown(f, ms, 0) && ms.holeCards[0] != [] {
      if AllKnown(f, ms.holeCards[0]) {
        CardReads(f, ms.holeCards[0][0], "");
        assert body[0] == PrintCard(f, ms.holeCards[0][0])[0];
        assert ':' !in RANKS;
      } else {
        UnknownPrints(f, ms.holeCards[0]);
      }
    }
  }

  /** The text tells hole cards from board cards. */
  ghost predicate Readable(f: Format, ms: MatchState)
    requires f.Valid() && |ms.holeCards| == f.game.numPlayers
  {
    f.numBoardCards[0] == 0 || f.numHoleCards == 0 || LastShown(f, ms)
  }

  ghost function HoleText(f: Format, ms: MatchState, rest: string): string
    requires f.Valid() && ms.hand.Shape(f.game) && |ms.holeCards| == f.game.numPlayers
  {
    PrintHoleCards(f, ms, 0) + (PrintBoardCards(f, ms.board, 0, ms.hand.round) + rest)
  }

  /** What a reader makes of hole and board cards, after the betting of hand h. */
  function Cards(f: Format, viewer: nat, handId: nat, h: Hand, s: string): Parsed<MatchState>
    requires h.round < |f.numBoardCards|
  {
    match ReadHoleCards(f, 0, s)
    case Error => Error
    case Got(hole, rest) =>
      match ReadBoardCards(f, 0, h.round, rest)
      case Error => Error
      case Got(board, rest) => Got(MatchState(viewer, handId, h, hole, board), rest)
  }

  /** Up to the cards every match state reads back. */
  lemma UpToCards(f: Format, ms: MatchState, r: Run, rest: string)
    requires Reached(f, ms, r)
    ensures ms.hand.Shape(f.game)
    ensures ReadMatchState(f, PrintMatchState(f, ms) + rest) ==
      Cards(f, ms.viewer, ms.handId, ms.hand, HoleText(f, ms, rest))
  {
    RunKeepsTurn(r, |r.acts|);
    var hole := HoleText(f, ms, rest);
    var betting := PrintBetting(f, ms.hand) + (":" + hole);
    StateSplits(f, ms, rest);
    HeaderReads(f, ms.viewer, ms.handId, PrintStack(ms.hand.stack) + (":" + betting));
    StackReads(f, ms.hand.stack, betting);
    PrintedBettingReads(f, r, hole);
    StartOfCards(f, ms, PrintBoardCards(f, ms.board, 0, ms.hand.round) + rest);
    RestIsCards(f, ms, PrintStack(ms.hand.stack) + (":" + betting), betting, hole);
  }

  lemma RestIsCards(f: Format, ms: MatchState, s: string, betting: string, hole: string)
    requires f.Valid() && ms.hand.round < |f.numBoardCards| && hole != [] && hole[0] != ':'
    requires ReadStack(f, s) == (Some(ms.hand.stack), betting)
    requires ReadBetting(f.game, Deal(f.game, ms.hand.stack), betting) == Got(ms.hand, hole)
    ensures ReadRest(f, ms.viewer, ms.handId, s) == Cards(f, ms.viewer, ms.handId, ms.hand, hole)
  {
    hide ReadStack, ReadBetting, ReadHoleCards, ReadBoardCards, Deal;
  }

  /**
    A printed match state reads back, whatever is appended to it: the same viewer, hand number and betting state, the
    cards that were shown, and the board.
   */
  lemma PrintedStateReads(f: Format, ms: MatchState, r: Run, rest: string)
    requires Reached(f, ms, r) && Readable(f, ms) && (rest == [] || rest[0] == ':')
    ensures ms.hand.Shape(f.game)
    ensures ReadMatchState(f, PrintMatchState(f, ms) + rest) ==
      Got(MatchState(ms.viewer, ms.handId, ms.hand, Seen(f, ms, 0), ms.board[..f.BoardStart(ms.hand.round + 1)]), rest)
  {
    hide ReadMatchState, ReadHoleCards, ReadBoardCards, PrintHoleCards, PrintBoardCards, PrintMatchState,
      MatchStatesEqual;
    UpToCards(f, ms, r, rest);
    var board := PrintBoardCards(f, ms.board, 0, ms.hand.round) + rest;
    if f.numBoardCards[0] == 0 { StartOfBoard(f, ms.board, ms.hand.round, rest); }
    HoleCardsRead(f, ms, 0, board);
    BoardReads(f, ms.board, 0, ms.hand.round, rest);
    BoardStartGrows(f, 0, ms.hand.round + 1);
    assert BoardFrom(f, ms.board, 0, ms.hand.round) == ms.board[..f.BoardStart(ms.hand.round + 1)];
  }

  /** The board's text starts with the cards of the first round. */
  lemma BoardSplits(f: Format, board: seq<nat>, round: nat, rest: string)
    requires f.Valid() && round < |f.numBoardCards| && (rest == [] || rest[0] == ':')
    ensures var more := PrintBoardCards(f, board, 1, round) + rest;
      Stops(more) && PrintBoardCards(f, board, 0, round) + rest == PrintCards(f, BoardOf(f, board, 0)) + more
  {
    BoardStep(f, board, 0, round, rest);
    var more := PrintBoardCards(f, board, 1, round);
    if round == 0 {
      assert more + rest == rest;
    } else {
      var others := PrintCards(f, BoardOf(f, board, 1)) + PrintBoardCards(f, board, 2, round);
      Assoc("/", PrintCards(f, BoardOf(f, board, 1)), PrintBoardCards(f, board, 2, round));
      Behind('/', more, others, rest);
    }
  }

  /** A board some of whose first cards are missing does not read. */
  lemma BoardMissesCards(f: Format, round: nat, cards: seq<nat>, rest: string)
    requires f.Valid() && round < |f.numBoardCards| && |cards| < f.numBoardCards[0] && AllKnown(f, cards) && Stops(rest)
    ensures ReadBoardCards(f, 0, round, PrintCards(f, cards) + rest) == Error
  {
    TakesCards(f, f.numBoardCards[0], cards, rest);
  }

  /** Every other match state does not read at all. */
  lemma MisreadFails(f: Format, ms: MatchState, r: Run, rest: string)
    requires Reached(f, ms, r) && !Readable(f, ms) && (rest == [] || rest[0] == ':')
    ensures ms.hand.Shape(f.game)
    ensures ReadMatchState(f, PrintMatchState(f, ms) + rest) == Error
  {
    UpToCards(f, ms, r, rest);
    BoardSplits(f, ms.board, ms.hand.round, rest);
    BoardSlices(f, ms.board, 0, ms.hand.round);
    CardsFail(f, ms, BoardOf(f, ms.board, 0), PrintBoardCards(f, ms.board, 1, ms.hand.round) + rest);
  }

  lemma CardsFail(f: Format, ms: MatchState, cards: seq<nat>, more: string)
    requires f.Valid() && f.game.numPlayers == |ms.holeCards| && !Readable(f, ms) && ms.hand.round < |f.numBoardCards|
    requires forall q :: 0 <= q < |ms.holeCards| ==> Whole(f, ms.holeCards[q])
    requires |cards| == f.numBoardCards[0] && AllKnown(f, cards) && Stops(more)
    ensures Cards(f, ms.viewer, ms.handId, ms.hand, PrintHoleCards(f, ms, 0) + (PrintCards(f, cards) + more)) == Error
  {
    hide ReadHoleCards, ReadBoardCards, PrintHoleCards, PrintCards;
    HoleCardsMisread(f, ms, 0, cards, more);
    if f.numHoleCards <= |cards| {
      BoardMissesCards(f, ms.hand.round, cards[f.numHoleCards..], more);
    }
  }

  /** So a printed match state reads back exactly if its text tells hole cards from board cards. */
  lemma ReadsBackExactly(f: Format, ms: MatchState, r: Run, rest: string)
    requires Reached(f, ms, r) && (rest == [] || rest[0] == ':')
    ensures ms.hand.Shape(f.game)
    ensures var p := ReadMatchState(f, PrintMatchState(f, ms) + rest);
      && (p.Got? <==> Readable(f, ms))
      && (p.Got? ==> p.rest == rest && p.value.hand == ms.hand && MatchStatesEqual(f, ms, p.value))
  {
    hide ReadMatchState, PrintMatchState, Run.Valid, Plain;
    if Readable(f, ms) { PrintedStateReads(f, ms, r, rest); } else { MisreadFails(f, ms, r, rest); }
  }

  // ---------------------------------------------------------------- a match state that does not read back

  /** Two players, one card each, one board card before the only betting. */
  function OpenBoard(): Format {
    Format(Game(2, 1, false, [10, 10], false, [1, 2], [2], [0], [1]), 4, 1, [1])
  }

  function OpenDeal(): Run {
    Run(OpenBoard().game, [10, 10], [], [Deal(OpenBoard().game, [10, 10])])
  }

  /** The first player's view. */
  function OpenState(): MatchState {
    MatchState(0, 0, Deal(OpenBoard().game, [10, 10]), [[3], [7]], [11])
  }

  lemma EarlyBoardFails()
    ensures Reached(OpenBoard(), OpenState(), OpenDeal()) && OpenState().hand.Shape(OpenBoard().game)
    ensures ReadMatchState(OpenBoard(), PrintMatchState(OpenBoard(), OpenState())) == Error
  {
    var f, ms, r := OpenBoard(), OpenState(), OpenDeal();
    assert f.game.blind[0] < [10, 10][0];
    assert f.game.Covers([10, 10]);
    assert f.BoardStart(1) == f.BoardStart(0) + 1;
    assert PrintMatchState(f, ms) + "" == PrintMatchState(f, ms);
    MisreadFails(f, ms, r, "");
  }
}
