/**
  The match-state text of modules/core/src/game.c: printing a match state and reading it back, with
  the betting replayed by the rules.  Strings stand for character arrays; a reader returns what is left of its string.
 */
module StateText {
  import opened Betting
  import opened Hands
  import opened Numbers

  const UNDEFINED_CARD: nat := 60
  const MAX_RANKS: nat := 13
  const SUITS: string := "cdhs"
  const RANKS: string := "23456789TJQKA"

  /** What the text depends on beside the betting rules. */
  datatype Format = Format(game: Game, numSuits: nat, numHoleCards: nat, numBoardCards: seq<nat>)
  {
    ghost predicate Valid() {
      && game.Valid() && 1 <= numSuits <= |SUITS| && |numBoardCards| == game.numRounds
    }

    /** bcStart. */
    function BoardStart(round: nat): nat
      requires round <= |numBoardCards|
    {
      if round == 0 then 0 else BoardStart(round - 1) + numBoardCards[round - 1]
    }
  }

  datatype MatchState = MatchState(viewer: nat, handId: nat, hand: Hand, holeCards: seq<seq<nat>>, board: seq<nat>)

  // ---------------------------------------------------------------- cards

  function ToUpper(ch: char): char {
    if 'a' <= ch <= 'z' then (ch as int - 32) as char else ch
  }

  function ToLower(ch: char): char {
    if 'A' <= ch <= 'Z' then (ch as int + 32) as char else ch
  }

  /** The place of ch in s, or -1 (strchr). */
  function Find(s: string, ch: char): (k: int)
    ensures -1 <= k < |s|
    ensures k >= 0 ==> s[k] == ch
    ensures k < 0 ==> ch !in s
  {
    if s == [] then -1
    else if s[|s| - 1] == ch && Find(s[..|s| - 1], ch) < 0 then |s| - 1
    else Find(s[..|s| - 1], ch)
  }

  function ReadCard(f: Format, s: string): Option<nat> {
    if |s| < 2 then None
    else
      var rank, suit := Find(RANKS, ToUpper(s[0])), Find(SUITS, ToLower(s[1]));
      if rank < 0 || suit < 0 then None else Some(rank * f.numSuits + suit)
  }

  /** Reads up to n cards, and stops at the first that is none. */
  function ReadCards(f: Format, n: nat, s: string): (r: (seq<nat>, string))
    ensures |r.0| <= n && |r.1| <= |s|
  {
    if n == 0 then ([], s)
    else
      match ReadCard(f, s)
      case None => ([], s)
      case Some(card) =>
        var (cards, rest) := ReadCards(f, n - 1, s[2..]);
        ([card] + cards, rest)
  }

  predicate IsCard(f: Format, card: nat) {
    f.numSuits > 0 && card < MAX_RANKS * f.numSuits && card != UNDEFINED_CARD
  }

  function PrintCard(f: Format, card: nat): string
    requires 1 <= f.numSuits <= |SUITS|
  {
    if card == UNDEFINED_CARD || card / f.numSuits >= MAX_RANKS then ""
    else [RANKS[card / f.numSuits], SUITS[card % f.numSuits]]
  }

  function PrintCards(f: Format, cards: seq<nat>): string
    requires 1 <= f.numSuits <= |SUITS|
  {
    if cards == [] then "" else PrintCard(f, cards[0]) + PrintCards(f, cards[1..])
  }

  // ---------------------------------------------------------------- actions

  function KindOf(ch: char): ActionType {
    if ch == 'f' || ch == 'F' then Fold
    else if ch == 'c' || ch == 'C' || ch == 'k' || ch == 'K' then Call
    else if ch == 'r' || ch == 'R' || ch == 'b' || ch == 'B' then Raise
    else Invalid
  }

  function KindChar(kind: ActionType): char {
    match kind
    case Fold => 'f'
    case Call => 'c'
    case Raise => 'r'
    case Invalid => '\0'
  }

  /** Only a no-limit raise has a size. */
  function ReadAction(noLimit: bool, s: string): (p: Parsed<Action>)
    requires s != []
    ensures p.Got? ==> |p.rest| < |s|
  {
    var kind := KindOf(s[0]);
    if kind.Raise? && noLimit then
      match ReadInt(s[1..])
      case Error => Error
      case Got(size, rest) => Got(Action(kind, size), rest)
    else Got(Action(kind, 0), s[1..])
  }

  function PrintAction(noLimit: bool, a: Action): (s: string)
    ensures s != [] && s[0] == KindChar(a.kind)
  {
    [KindChar(a.kind)] + if noLimit && a.kind.Raise? then DecInt(a.size) else ""
  }

  // ---------------------------------------------------------------- betting

  datatype Token = Slash | Act(action: Action)

  function TokenText(noLimit: bool, t: Token): (s: string)
    ensures s != []
  {
    match t
    case Slash => "/"
    case Act(a) => PrintAction(noLimit, a)
  }

  function Text(noLimit: bool, ts: seq<Token>): string {
    if ts == [] then "" else TokenText(noLimit, ts[0]) + Text(noLimit, ts[1..])
  }

  function ActTokens(log: seq<Move>): (ts: seq<Token>)
    ensures |ts| == |log| && forall i :: 0 <= i < |log| ==> ts[i] == Act(log[i].action)
  {
    seq(|log|, i requires 0 <= i < |log| => Act(log[i].action))
  }

  /** The first n rounds, separated by slashes. */
  function RoundTokens(moves: seq<seq<Move>>, n: nat): seq<Token>
    requires n <= |moves|
  {
    if n == 0 then []
    else RoundTokens(moves, n - 1) + (if n > 1 then [Slash] else []) + ActTokens(moves[n - 1])
  }

  function PrintBetting(f: Format, h: Hand): string
    requires h.round < |h.moves|
  {
    Text(f.game.noLimit, RoundTokens(h.moves, h.round + 1))
  }

  /** Does every action it reads, if it is valid; slashes are skipped, a colon ends the betting. */
  ghost function ReadBetting(g: Game, h: Hand, s: string): Parsed<Hand>
    requires g.Valid() && h.Shape(g)
    decreases |s|
  {
    if s == [] then Got(h, s)
    else if s[0] == ':' then Got(h, s[1..])
    else if s[0] == '/' then ReadBetting(g, h, s[1..])
    else
      match ReadAction(g.noLimit, s)
      case Error => Error
      case Got(a, rest) =>
        var (code, action) := Check(g, h, false, a);
        if code == 0 then Error else ReadBetting(g, DoAction(g, h, action), rest)
  }

  // ---------------------------------------------------------------- stacks

  function PrintStack(stacks: seq<int>): string {
    if stacks == [] then ""
    else if |stacks| == 1 then DecInt(stacks[0])
    else DecInt(stacks[0]) + "|" + PrintStack(stacks[1..])
  }

  /** n numbers, one character apart. */
  function ReadInts(n: nat, s: string): (r: (seq<int>, string))
    ensures |r.0| == n
  {
    if n == 0 then ([], s)
    else
      var (x, rest) := StrTol(s);
      if n == 1 then ([x], rest)
      else
        var (xs, end) := ReadInts(n - 1, if rest == [] then rest else rest[1..]);
        ([x] + xs, end)
  }

  /** The stacks, or none if the text goes on with the betting or, in the older protocol, with cards. */
  function ReadStack(f: Format, s: string): (Option<seq<int>>, string) {
    if s != [] && s[0] == ':' then (None, s[1..])
    else if ReadCard(f, s).Some? || (s != [] && ReadCard(f, s[1..]).Some?) then (None, s)
    else
      var (stacks, rest) := ReadInts(f.game.numPlayers, s);
      (Some(stacks), if rest != [] && rest[0] == ':' then rest[1..] else rest)
  }

  // ---------------------------------------------------------------- hole and board cards

  /** A player's cards are shown to himself, and after a showdown to all unless he folded. */
  ghost predicate Shown(f: Format, ms: MatchState, p: nat) {
    || p == ms.viewer
    || (ms.hand.finished && p < |ms.hand.folded| && !ms.hand.folded[p] && NumFolded(ms.hand) + 1 != f.game.numPlayers)
  }

  ghost function PrintHoleCards(f: Format, ms: MatchState, p: nat): string
    requires f.Valid() && p <= f.game.numPlayers == |ms.holeCards|
    decreases f.game.numPlayers - p
  {
    if p == f.game.numPlayers then ""
    else
      (if p != 0 then "|" else "") + (if Shown(f, ms, p) then PrintCards(f, ms.holeCards[p]) else "")
      + PrintHoleCards(f, ms, p + 1)
  }

  function Unknown(n: nat): seq<nat> { seq(n, _ => UNDEFINED_CARD) }

  /** The hole cards of players p and up. */
  function ReadHoleCards(f: Format, p: nat, s: string): Parsed<seq<seq<nat>>>
    requires p <= f.game.numPlayers
    decreases f.game.numPlayers - p
  {
    if p == f.game.numPlayers then Got([], s)
    else
      var t := if p != 0 && s != [] && s[0] == '|' then s[1..] else s;
      var (cards, rest) := ReadCards(f, f.numHoleCards, t);
      if cards == [] then
        match ReadHoleCards(f, p + 1, t)
        case Error => Error
        case Got(others, end) => Got([Unknown(f.numHoleCards)] + others, end)
      else if |cards| != f.numHoleCards then Error
      else
        match ReadHoleCards(f, p + 1, rest)
        case Error => Error
        case Got(others, end) => Got([cards] + others, end)
  }

  function BoardOf(f: Format, board: seq<nat>, r: nat): seq<nat>
    requires r < |f.numBoardCards|
  {
    if f.BoardStart(r) + f.numBoardCards[r] <= |board|
    then board[f.BoardStart(r)..f.BoardStart(r) + f.numBoardCards[r]] else []
  }

  /** The board cards of rounds r up to round. */
  function PrintBoardCards(f: Format, board: seq<nat>, r: nat, round: nat): string
    requires 1 <= f.numSuits <= |SUITS| && round < |f.numBoardCards|
    decreases round + 1 - r
  {
    if r > round then ""
    else (if r != 0 then "/" else "") + PrintCards(f, BoardOf(f, board, r)) + PrintBoardCards(f, board, r + 1, round)
  }

  function ReadBoardCards(f: Format, r: nat, round: nat, s: string): Parsed<seq<nat>>
    requires round < |f.numBoardCards|
    decreases round + 1 - r
  {
    if r > round then Got([], s)
    else
      var t := if r != 0 && s != [] && s[0] == '/' then s[1..] else s;
      var (cards, rest) := ReadCards(f, f.numBoardCards[r], t);
      if |cards| != f.numBoardCards[r] then Error
      else
        match ReadBoardCards(f, r + 1, round, rest)
        case Error => Error
        case Got(others, end) => Got(cards + others, end)
  }

  // ---------------------------------------------------------------- match states

  const HEADER: string := "MATCHSTATE:"

  ghost function PrintMatchState(f: Format, ms: MatchState): string
    requires f.Valid() && ms.hand.Shape(f.game) && |ms.holeCards| == f.game.numPlayers
  {
    HEADER + (Dec(ms.viewer) + (":" + (Dec(ms.handId) + (":" + (PrintStack(ms.hand.stack) + (":"
    + (PrintBetting(f, ms.hand) + (":"
    + (PrintHoleCards(f, ms, 0) + PrintBoardCards(f, ms.board, 0, ms.hand.round))))))))))
  }

  /** readMatchState, of a string for a game whose stacks come from the text or from the game. */
  ghost function ReadMatchState(f: Format, s: string): Parsed<MatchState>
    requires f.Valid()
  {
    if !(HEADER <= s) then Error
    else
      match ReadNat(s[|HEADER|..])
      case Error => Error
      case Got(viewer, rest) =>
        if viewer >= f.game.numPlayers || rest == [] || rest[0] != ':' then Error
        else
          match ReadNat(rest[1..])
          case Error => Error
          case Got(handId, rest) =>
            if rest == [] || rest[0] != ':' then Error
            else ReadRest(f, viewer, handId, rest[1..])
  }

  ghost function ReadRest(f: Format, viewer: nat, handId: nat, s: string): Parsed<MatchState>
    requires f.Valid()
  {
    var (stacks, rest) := ReadStack(f, s);
    match ReadBetting(f.game, Deal(f.game, if stacks.Some? then stacks.value else f.game.stack), rest)
    case Error => Error
    case Got(h, rest) =>
      match ReadHoleCards(f, 0, if rest != [] && rest[0] == ':' then rest[1..] else rest)
      case Error => Error
      case Got(hole, rest) =>
        if h.round >= |f.numBoardCards| then Error
        else
          match ReadBoardCards(f, 0, h.round, rest)
          case Error => Error
          case Got(board, rest) => Got(MatchState(viewer, handId, h, hole, board), rest)
  }

  /** matchStatesEqual. */
  ghost predicate MatchStatesEqual(f: Format, a: MatchState, b: MatchState)
    requires f.Valid() && a.hand.Shape(f.game) && b.hand.Shape(f.game)
  {
    && a.viewer == b.viewer && a.handId == b.handId && a.hand.round == b.hand.round
    && (forall r :: 0 <= r <= a.hand.round ==> Actions(a.hand.moves[r]) == Actions(b.hand.moves[r]))
    && (var t := f.BoardStart(a.hand.round + 1); t <= |a.board| && t <= |b.board| && a.board[..t] == b.board[..t])
    && a.viewer < |a.holeCards| && a.viewer < |b.holeCards| && a.holeCards[a.viewer] == b.holeCards[b.viewer]
  }
}
