/**
  The betting rules of modules/core/src/game.c as functions on values: who acts next, which
  actions are accepted, what an action does to the hand, when a round closes.  Module GameState
  holds the same operations as methods on a mutable State and proves each against its function here.
 */
module Betting {

  const MAX_ROUNDS: nat := 4
  const MAX_PLAYERS: nat := 10
  const MAX_NUM_ACTIONS: nat := 32
  const PREMATURE_FOLD: nat := 5

  datatype ActionType = Fold | Call | Raise | Invalid

  datatype Action = Action(kind: ActionType, size: int)

  datatype Move = Move(action: Action, player: nat)

  datatype Game = Game(
    numPlayers: nat,
    numRounds: nat,
    noLimit: bool,
    stack: seq<int>,
    useStateStack: bool,
    blind: seq<int>,
    raiseSize: seq<int>,
    firstPlayer: seq<nat>,
    maxRaises: seq<nat>)
  {
    /** What readGame checks before it hands out a game, plus blinds that are not negative. */
    ghost predicate Valid() {
      && 2 <= numPlayers <= MAX_PLAYERS
      && 1 <= numRounds <= MAX_ROUNDS
      && |stack| == |blind| == numPlayers
      && |raiseSize| == |firstPlayer| == |maxRaises| == numRounds
      && (forall r :: 0 <= r < numRounds ==> firstPlayer[r] < numPlayers)
      && (forall p :: 0 <= p < numPlayers ==> 0 <= blind[p])
    }

    /** Stacks a hand can be dealt with: they cover the blinds and leave somebody a decision. */
    ghost predicate Covers(stacks: seq<int>) {
      && |stacks| == |blind|
      && (forall p :: 0 <= p < |stacks| ==> blind[p] <= stacks[p])
      && (exists p :: 0 <= p < |stacks| && blind[p] < stacks[p])
    }
  }

  /**
    The betting part of a State; moves[r] is the log of round r, and roundSpent[r][p] (sum_round_spent) is what player
    p had spent in all after his last call or raise of round r, or 0.
   */
  datatype Hand = Hand(
    round: nat,
    stack: seq<int>,
    spent: seq<int>,
    maxSpent: int,
    minRaiseTo: int,
    folded: seq<bool>,
    moves: seq<seq<Move>>,
    finished: bool,
    roundSpent: seq<seq<int>>)
  {
    ghost predicate Shape(g: Game) {
      && |stack| == |spent| == |folded| == g.numPlayers
      && |moves| == |roundSpent| == g.numRounds
      && round < g.numRounds
      && SpentRows(g.numPlayers)
    }

    ghost predicate SpentRows(n: nat) {
      forall r :: 0 <= r < |roundSpent| ==> |roundSpent[r]| == n
    }

    predicate HasChips(p: nat) {
      p < |spent| && p < |stack| && spent[p] < stack[p]
    }

    /** Neither folded nor all-in. */
    predicate Able(p: nat) {
      p < |folded| && !folded[p] && HasChips(p)
    }

    function Log(): seq<Move> {
      if round < |moves| then moves[round] else []
    }
  }

  // ---------------------------------------------------------------- counting players

  ghost function AbleBelow(h: Hand, n: nat): set<nat> {
    set p: nat | p < n && h.Able(p)
  }

  ghost function NumAble(h: Hand): nat {
    |AbleBelow(h, |h.folded|)|
  }

  ghost function FoldedBelow(h: Hand, n: nat): set<nat> {
    set p: nat | p < n && p < |h.folded| && h.folded[p]
  }

  ghost function NumFolded(h: Hand): nat {
    |FoldedBelow(h, |h.folded|)|
  }

  /** numCalled: players with chips left who called or made the last bet, counted from the end of the log. */
  function Called(h: Hand, log: seq<Move>): nat {
    if log == [] then 0
    else
      var last := log[|log| - 1];
      var one := if h.HasChips(last.player) then 1 else 0;
      match last.action.kind
      case Raise => one
      case Call => one + Called(h, log[..|log| - 1])
      case _ => Called(h, log[..|log| - 1])
  }

  function Raises(log: seq<Move>): nat {
    if log == [] then 0
    else Raises(log[..|log| - 1]) + if log[|log| - 1].action.kind.Raise? then 1 else 0
  }

  // ---------------------------------------------------------------- whose turn it is

  /** The first able player at or after candidate c, going round the table. */
  function FirstAble(h: Hand, n: nat, c: nat, left: nat): (r: nat)
    ensures c < n ==> r < n
    decreases left
  {
    if left == 0 || h.Able(c) then c
    else FirstAble(h, n, if c + 1 == n then 0 else c + 1, left - 1)
  }

  function NextPlayer(g: Game, h: Hand, cur: nat): (r: nat)
    requires g.numPlayers > 0
    ensures r < g.numPlayers
  {
    FirstAble(h, g.numPlayers, (cur + 1) % g.numPlayers, g.numPlayers)
  }

  function CurrentPlayer(g: Game, h: Hand): (r: nat)
    requires g.Valid() && h.Shape(g)
    ensures r < g.numPlayers
  {
    if h.Log() != [] then NextPlayer(g, h, h.Log()[|h.Log()| - 1].player)
    else NextPlayer(g, h, g.firstPlayer[h.round] + g.numPlayers - 1)
  }

  // ---------------------------------------------------------------- dealing and doing actions

  /** max(floor, blind[0], ..., blind[n - 1]). */
  function MaxBlind(blind: seq<int>, floor: int): int {
    if blind == [] then floor
    else
      var m := MaxBlind(blind[..|blind| - 1], floor);
      if blind[|blind| - 1] > m then blind[|blind| - 1] else m
  }

  function Deal(g: Game, stacks: seq<int>): Hand
    requires g.Valid()
  {
    var m := MaxBlind(g.blind, 0);
    Hand(0, stacks, g.blind, m,
         if !g.noLimit then 0 else if m != 0 then 2 * m else 1,
         seq(g.numPlayers, _ => false), seq(g.numRounds, _ => []), false,
         seq(g.numRounds, r => if r == 0 then g.blind else seq(g.numPlayers, _ => 0)))
  }

  function Record(h: Hand, m: Move): Hand
    requires h.round < |h.moves|
  {
    h.(moves := h.moves[h.round := h.moves[h.round] + [m]])
  }

  /** Player p has now spent x. */
  function Spend(h: Hand, p: nat, x: int): Hand
    requires p < |h.spent| && h.round < |h.roundSpent| && p < |h.roundSpent[h.round]|
  {
    h.(spent := h.spent[p := x], roundSpent := h.roundSpent[h.round := h.roundSpent[h.round][p := x]])
  }

  /** The chips an action moves. */
  function Bet(g: Game, h: Hand, p: nat, a: Action): (r: Hand)
    requires g.Valid() && h.Shape(g) && p < g.numPlayers
    ensures r.Shape(g) && r.stack == h.stack
  {
    match a.kind
    case Fold => h.(folded := h.folded[p := true])
    case Call => Spend(h, p, if h.maxSpent > h.stack[p] then h.stack[p] else h.maxSpent)
    case Raise =>
      if g.noLimit then
        var again := a.size + a.size - h.maxSpent;
        Spend(h, p, a.size).(minRaiseTo := if again > h.minRaiseTo then again else h.minRaiseTo, maxSpent := a.size)
      else
        var top := h.maxSpent + g.raiseSize[h.round];
        var m := if top > h.stack[p] then h.stack[p] else top;
        Spend(h, p, m).(maxSpent := m)
    case Invalid => h
  }

  datatype Ending = GoesOn | RoundOver | HandOver | AllInShowdown

  /** When a round or the hand is over, from the numbers of players who folded, called and can act. */
  function Decide(g: Game, round: nat, folded: nat, called: nat, able: nat): Ending {
    if folded + 1 >= g.numPlayers then HandOver
    else if called < able then GoesOn
    else if able <= 1 then AllInShowdown
    else if round + 1 < g.numRounds then RoundOver
    else HandOver
  }

  ghost function EndingOf(g: Game, h: Hand): Ending {
    Decide(g, h.round, NumFolded(h), Called(h, h.Log()), NumAble(h))
  }

  /** Only the round, the minimum raise and the finished flag differ. */
  ghost predicate SameTable(a: Hand, b: Hand) {
    && a.moves == b.moves && a.stack == b.stack && a.spent == b.spent
    && a.maxSpent == b.maxSpent && a.folded == b.folded && a.roundSpent == b.roundSpent
  }

  /** The tail of doAction. */
  ghost function Close(g: Game, h: Hand): (r: Hand)
    requires g.Valid() && h.Shape(g)
    ensures r.Shape(g) && SameTable(r, h) && h.round <= r.round
  {
    match EndingOf(g, h)
    case HandOver => h.(finished := true)
    case AllInShowdown => h.(finished := true, round := g.numRounds - 1)
    case RoundOver => h.(round := h.round + 1, minRaiseTo := MaxBlind(g.blind, 1) + h.maxSpent)
    case GoesOn => h
  }

  ghost function Act(g: Game, h: Hand, a: Action): (r: Hand)
    requires g.Valid() && h.Shape(g)
    ensures r.Shape(g) && r.stack == h.stack
  {
    var p := CurrentPlayer(g, h);
    Bet(g, Record(h, Move(a, p)), p, a)
  }

  ghost function DoAction(g: Game, h: Hand, a: Action): (r: Hand)
    requires g.Valid() && h.Shape(g)
    ensures r.Shape(g) && r.stack == h.stack && SameTable(r, Act(g, h, a)) && Act(g, h, a).round <= r.round
  {
    Close(g, Act(g, h, a))
  }

  /** What doAction asserts: room in the log, a known action, a no-limit raise that really raises. */
  ghost predicate AssertsHold(g: Game, h: Hand, a: Action)
    requires g.Valid() && h.Shape(g)
  {
    && |h.Log()| < MAX_NUM_ACTIONS
    && !a.kind.Invalid?
    && (a.kind.Raise? && g.noLimit ==> h.maxSpent < a.size <= h.stack[CurrentPlayer(g, h)])
  }

  // ---------------------------------------------------------------- which actions are accepted

  datatype Option<T> = None | Some(value: T)

  ghost predicate MayRaise(g: Game, h: Hand)
    requires g.Valid() && h.Shape(g)
  {
    Raises(h.Log()) < g.maxRaises[h.round] && |h.Log()| + g.numPlayers <= MAX_NUM_ACTIONS && NumAble(h) > 1
  }

  /** The no-limit raise sizes open to a player with the given stack. */
  function SizeRange(minRaiseTo: int, maxSpent: int, stack: int): Option<(int, int)> {
    if minRaiseTo <= stack then Some((minRaiseTo, stack))
    else if maxSpent >= stack then None
    else Some((stack, stack))
  }

  /** raiseIsValid: the smallest and largest raise-to, when a raise is possible at all. */
  ghost function RaiseRange(g: Game, h: Hand): Option<(int, int)>
    requires g.Valid() && h.Shape(g)
  {
    if !MayRaise(g, h) then None
    else if !g.noLimit then Some((0, 0))
    else SizeRange(h.minRaiseTo, h.maxSpent, h.stack[CurrentPlayer(g, h)])
  }

  /** isValidAction: its return code, and the action as it leaves it. */
  ghost function Check(g: Game, h: Hand, tryFixing: bool, a: Action): (r: (nat, Action))
    requires g.Valid() && h.Shape(g)
  {
    if h.finished || a.kind.Invalid? then (0, a)
    else
      var p := CurrentPlayer(g, h);
      match a.kind
      case Raise =>
        (match RaiseRange(g, h)
         case None => (0, a)
         case Some((lo, hi)) =>
           if !g.noLimit then (1, a)
           else if a.size < lo then if tryFixing then (1, a.(size := lo)) else (0, a)
           else if a.size > hi then if tryFixing then (1, a.(size := hi)) else (0, a)
           else (1, a))
      case Fold =>
        if h.spent[p] == h.maxSpent || h.spent[p] == h.stack[p] then (PREMATURE_FOLD, a)
        else (1, a.(size := 0))
      case _ => (1, a.(size := 0))
  }

  /** What isValidAction lets through, as a property of the action that is then done. */
  ghost predicate Legal(g: Game, h: Hand, a: Action)
    requires g.Valid() && h.Shape(g)
  {
    && !h.finished
    && !a.kind.Invalid?
    && (a.kind.Raise? ==>
          && RaiseRange(g, h).Some?
          && (g.noLimit ==> RaiseRange(g, h).value.0 <= a.size <= RaiseRange(g, h).value.1))
  }
}
