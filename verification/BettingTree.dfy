/**
  The betting tree of modules/engine/src/action_abs.cpp and modules/engine/src/node.cpp: nodes are hands, edges are the
  actions the abstraction offers.  A node is built once and is a value from then on.
 */
module BettingTree {
  import opened Betting
  import opened TurnOrder
  import opened Hands
  import opened Chips
  import opened GameState
  import opened Payoffs
  import opened ActionAbs

  datatype Node = Node(state: Hand, index: nat, siblingIdx: int, children: seq<Node>)

  // ---------------------------------------------------------------- hands, copied out of and into a State

  /** A copy of the fields of a State, as a node keeps them. */
  method CopyOut(g: Game, s: State) returns (h: Hand)
    requires s.For(g)
    ensures h == s.hand
  {
    var moves: seq<seq<Move>> := [];
    for r := 0 to g.numRounds
      invariant moves == s.hand.moves[..r]
    {
      var log := LogOut(g, s, r);
      moves := moves + [log];
    }
    var roundSpent := RoundSpentOut(g, s);
    h := Hand(s.round, s.stackPlayer[..g.numPlayers], s.spent[..g.numPlayers], s.maxSpent, s.minNoLimitRaiseTo,
              s.playerFolded[..g.numPlayers], moves, s.finished, roundSpent);
    assert moves == s.hand.moves;
    assert h.stack == s.hand.stack && h.spent == s.hand.spent && h.folded == s.hand.folded;
  }

  method RoundSpentOut(g: Game, s: State) returns (all: seq<seq<int>>)
    requires s.For(g)
    ensures all == s.hand.roundSpent
  {
    all := [];
    for r := 0 to g.numRounds
      invariant all == s.hand.roundSpent[..r]
    {
      var row: seq<int> := [];
      for p := 0 to g.numPlayers
        invariant row == s.hand.roundSpent[r][..p]
      {
        row := row + [s.sumRoundSpent[r, p]];
      }
      assert row == s.hand.roundSpent[r];
      all := all + [row];
    }
  }

  method LogOut(g: Game, s: State, r: nat) returns (log: seq<Move>)
    requires s.For(g) && r < g.numRounds
    ensures log == s.hand.moves[r]
  {
    log := [];
    for i := 0 to s.numActions[r]
      invariant log == s.hand.moves[r][..i]
    {
      assert s.hand.moves[r][i].player == s.actingPlayer[r, i];
      log := log + [Move(s.action[r, i], s.actingPlayer[r, i])];
    }
  }

  /** The log fits the arrays of a State. */
  ghost predicate LogFits(g: Game, h: Hand) {
    forall r :: 0 <= r < |h.moves| ==> RoundFits(g, h.moves[r])
  }

  ghost predicate RoundFits(g: Game, log: seq<Move>) {
    |log| <= MAX_NUM_ACTIONS && forall i :: 0 <= i < |log| ==> log[i].player < g.numPlayers
  }

  /** Row r of the log arrays holds the log. */
  ghost predicate RowIs(s: State, r: nat, log: seq<Move>)
    requires s.Valid() && r < MAX_ROUNDS
    reads s.numActions, s.action, s.actingPlayer
  {
    && s.numActions[r] == |log| <= MAX_NUM_ACTIONS
    && forall i :: 0 <= i < |log| ==> s.action[r, i] == log[i].action && s.actingPlayer[r, i] == log[i].player
  }

  /** A new State with the given fields. */
  method CopyIn(g: Game, h: Hand) returns (s: State)
    requires g.Valid() && h.Shape(g) && LogFits(g, h)
    ensures fresh(s) && fresh(s.Arrays()) && s.For(g) && s.hand == h
  {
    s := new State();
    s.round, s.maxSpent, s.minNoLimitRaiseTo, s.finished := h.round, h.maxSpent, h.minRaiseTo, h.finished;
    ChipsIn(g, h, s);
    for r := 0 to g.numRounds
      modifies s.numActions, s.action, s.actingPlayer
      invariant forall q :: 0 <= q < r ==> RowIs(s, q, h.moves[q])
    {
      RowIn(s, r, h.moves[r]);
    }
    RoundSpentIn(g, h, s);
    s.hand := h;
    forall r | 0 <= r < g.numRounds ensures RowIs(s, r, h.moves[r]) && RoundFits(g, h.moves[r]) {}
  }

  method ChipsIn(g: Game, h: Hand, s: State)
    requires g.Valid() && h.Shape(g) && s.Valid()
    modifies s.spent, s.stackPlayer, s.playerFolded
    ensures forall p :: 0 <= p < g.numPlayers ==>
      s.spent[p] == h.spent[p] && s.stackPlayer[p] == h.stack[p] && s.playerFolded[p] == h.folded[p]
  {
    for p := 0 to g.numPlayers
      invariant forall q :: 0 <= q < p ==>
        s.spent[q] == h.spent[q] && s.stackPlayer[q] == h.stack[q] && s.playerFolded[q] == h.folded[q]
    {
      s.spent[p], s.stackPlayer[p], s.playerFolded[p] := h.spent[p], h.stack[p], h.folded[p];
    }
  }

  method RoundSpentIn(g: Game, h: Hand, s: State)
    requires g.Valid() && h.Shape(g) && s.Valid()
    modifies s.sumRoundSpent
    ensures forall r, p :: 0 <= r < g.numRounds && 0 <= p < g.numPlayers ==> s.sumRoundSpent[r, p] == h.roundSpent[r][p]
  {
    for r := 0 to g.numRounds
      invariant forall q, p :: 0 <= q < r && 0 <= p < g.numPlayers ==> s.sumRoundSpent[q, p] == h.roundSpent[q][p]
    {
      for p := 0 to g.numPlayers
        invariant forall q, l :: 0 <= q < r && 0 <= l < g.numPlayers ==> s.sumRoundSpent[q, l] == h.roundSpent[q][l]
        invariant forall l :: 0 <= l < p ==> s.sumRoundSpent[r, l] == h.roundSpent[r][l]
      {
        s.sumRoundSpent[r, p] := h.roundSpent[r][p];
      }
    }
  }

  method RowIn(s: State, r: nat, log: seq<Move>)
    requires s.Valid() && r < MAX_ROUNDS && |log| <= MAX_NUM_ACTIONS
    modifies s.numActions, s.action, s.actingPlayer
    ensures RowIs(s, r, log)
    ensures forall q, l :: 0 <= q < MAX_ROUNDS && q != r && old(RowIs(s, q, l)) ==> RowIs(s, q, l)
  {
    for i := 0 to |log|
      modifies s.action, s.actingPlayer
      invariant forall j :: 0 <= j < i ==> s.action[r, j] == log[j].action && s.actingPlayer[r, j] == log[j].player
      invariant forall q, j :: 0 <= q < MAX_ROUNDS && q != r && 0 <= j < MAX_NUM_ACTIONS ==>
        s.action[q, j] == old(s.action[q, j]) && s.actingPlayer[q, j] == old(s.actingPlayer[q, j])
    {
      s.action[r, i], s.actingPlayer[r, i] := log[i].action, log[i].player;
    }
    s.numActions[r] := |log|;
    forall q, l | 0 <= q < MAX_ROUNDS && q != r && old(RowIs(s, q, l)) ensures RowIs(s, q, l) {
      assert s.numActions[q] == old(s.numActions[q]);
    }
  }

  // ---------------------------------------------------------------- the last action

  /** GetLastActionFromState: the last action of the last round that has one. */
  function LastAction(moves: seq<seq<Move>>, n: nat): Action
    requires n <= |moves|
  {
    if n == 0 then Action(Invalid, 0)
    else if moves[n - 1] != [] then moves[n - 1][|moves[n - 1]| - 1].action
    else LastAction(moves, n - 1)
  }

  function LastActionOf(h: Hand): Action {
    if h.round < |h.moves| then LastAction(h.moves, h.round + 1) else Action(Invalid, 0)
  }

  /** Empty rounds are skipped. */
  lemma {:induction false} LastActionSkips(moves: seq<seq<Move>>, n: nat, k: nat)
    requires k < n <= |moves| && moves[k] != [] && forall j :: k < j < n ==> moves[j] == []
    ensures LastAction(moves, n) == moves[k][|moves[k]| - 1].action
  {
    if k < n - 1 { LastActionSkips(moves, n - 1, k); }
  }

  /**
    The last action of a hand is the one that led to it, also when it closed a round or sent the hand to the showdown.
   */
  lemma LastActionIsLast(g: Game, h: Hand, a: Action)
    requires g.Valid() && TurnInv(g, h)
    ensures LastActionOf(DoAction(g, h, a)) == a
  {
    ActLog(g, h, a);
    var h2 := DoAction(g, h, a);
    LastActionSkips(h2.moves, h2.round + 1, h.round);
  }

  // ---------------------------------------------------------------- the hands of the tree

  /** A run of a two-player no-limit game in which nobody folds without a bet to fold to. */
  ghost predicate Path(g: Game, r: Run) {
    r.Valid() && StrictRun(r) && r.game == g && g.noLimit && g.numPlayers == 2
  }

  lemma LongerIsPath(g: Game, r: Run, a: Action)
    requires Path(g, r) && r.Last().Shape(g) && !r.Last().finished && Offered(g, r.Last(), a)
    ensures Path(g, Longer(r, a)) && AssertsHold(g, r.Last(), a)
  {
    var e := Longer(r, a);
    CheckedIsLegal(g, r.Last(), false, a);
    LongerIsValid(r, a);
    forall k: nat ensures StrictAt(e, k) { assert StrictAt(r, k); }
    RunMeetsAsserts(e, |r.acts|);
  }

  lemma {:induction false} RunFoldsNobody(g: Game, r: Run, k: nat)
    requires Path(g, r) && k <= |r.acts| && !r.hands[k].finished
    ensures NobodyFolded(r.hands[k])
  {
    if k > 0 {
      RunKeepsTurn(r, k - 1);
      RunFoldsNobody(g, r, k - 1);
      assert r.LegalAt(k - 1);
      FoldFinishes(g, r.hands[k - 1], r.acts[k - 1]);
    }
  }

  /** With two players a fold is the end of the hand. */
  lemma FoldFinishes(g: Game, h: Hand, a: Action)
    requires g.Valid() && h.Shape(g) && g.numPlayers == 2 && NobodyFolded(h)
    ensures !DoAction(g, h, a).finished ==> NobodyFolded(DoAction(g, h, a))
  {
    if a.kind.Fold? {
      var p, h1 := CurrentPlayer(g, h), Act(g, h, a);
      assert FoldedBelow(h1, 2) == {p};
    }
  }

  lemma OneFoldsAtMost(g: Game, r: Run)
    requires Path(g, r)
    ensures var h := r.Last(); |h.folded| == 2 && !(h.folded[0] && h.folded[1])
  {
    var k := |r.acts|;
    RunKeepsTurn(r, k);
    if k > 0 {
      RunKeepsTurn(r, k - 1);
      RunFoldsNobody(g, r, k - 1);
      assert r.LegalAt(k - 1);
    }
  }

  lemma {:induction false} RunLogFits(r: Run, k: nat)
    requires r.Valid() && k <= |r.acts|
    ensures LogFits(r.game, r.hands[k])
  {
    hide Legal, Bet, Close, NumAble;
    RunLogsFit(r, k);
    if k > 0 {
      RunLogFits(r, k - 1);
      RunKeepsTurn(r, k - 1);
      assert r.LegalAt(k - 1);
      ActLog(r.game, r.hands[k - 1], r.acts[k - 1]);
    }
  }

  /** What the construction needs of a hand of a path. */
  lemma PathFits(g: Game, r: Run)
    requires Path(g, r)
    ensures r.Last().Shape(g) && LogFits(g, r.Last()) && |r.acts| <= MAX_NUM_ACTIONS * g.numRounds
    ensures !r.Last().finished ==> ToAct(g, r.Last())
  {
    RunLogFits(r, |r.acts|);
    HandsEnd(r);
    OnPath(g, r, |r.acts|);
  }

  lemma OnPath(g: Game, r: Run, k: nat)
    requires Path(g, r) && k <= |r.acts|
    ensures r.hands[k].Shape(g) && (!r.hands[k].finished ==> ToAct(g, r.hands[k]))
  {
    RunKeepsTurn(r, k);
    RunKeepsChips(r, k);
    if !r.hands[k].finished {
      NeverStuck(r, k);
      RunFoldsNobody(g, r, k);
    }
  }

  // ---------------------------------------------------------------- what a finished tree is

  /** The child's hand comes from this one by an action on offer, its last. */
  ghost predicate Edge(g: Game, h: Hand, child: Hand)
    requires g.Valid() && h.Shape(g)
  {
    Offered(g, h, LastActionOf(child)) && child == DoAction(g, h, LastActionOf(child))
  }

  function ChildCode(n: Node): int {
    Code(LastActionOf(n.state))
  }

  ghost predicate IncreasingNodes(c: seq<Node>) {
    forall i, j :: 0 <= i < j < |c| ==> ChildCode(c[i]) < ChildCode(c[j])
  }

  function ActionsOf(c: seq<Node>): (r: seq<Action>)
    ensures |r| == |c| && forall i :: 0 <= i < |c| ==> r[i] == LastActionOf(c[i].state)
  {
    seq(|c|, i requires 0 <= i < |c| => LastActionOf(c[i].state))
  }

  /** The candidates of a hand in the order of their codes, one for each code. */
  ghost predicate Chosen(g: Game, workers: seq<Fcpa>, h: Hand, actions: seq<Action>)
    requires g.Valid() && h.Shape(g)
  {
    && h.round < |workers| && !Exits(g, h, workers[h.round]) && Increasing(actions)
    && From(actions, Candidates(g, h, workers[h.round])) && SameCodes(Candidates(g, h, workers[h.round]), actions)
  }

  /**
    A child for every action on offer and no other, numbered in the order of the actions' codes, one of them calling.
   */
  ghost predicate Grown(g: Game, workers: seq<Fcpa>, n: Node)
    requires g.Valid()
    decreases n, 1
  {
    && n.state.Shape(g)
    && (n.state.finished ==> n.children == [])
    && (!n.state.finished ==> CallsAmong(n.children) && IncreasingNodes(n.children))
    && (!n.state.finished ==> Chosen(g, workers, n.state, ActionsOf(n.children)))
    && forall i: nat :: GrownKid(g, workers, n, i)
  }

  ghost predicate GrownKid(g: Game, workers: seq<Fcpa>, n: Node, i: nat)
    requires g.Valid() && n.state.Shape(g)
    decreases n, 0
  {
    i < |n.children| ==>
      Edge(g, n.state, n.children[i].state) && Grown(g, workers, n.children[i]) && n.children[i].siblingIdx == i
  }

  ghost predicate CallsAmong(c: seq<Node>) {
    exists i :: 0 <= i < |c| && LastActionOf(c[i].state).kind == Call
  }

  /** The stake of a finished hand, times the sign of the showdown, is its value; not both players folded. */
  ghost predicate Pays(g: Game, h: Hand) {
    && h.Shape(g) && g.numPlayers == 2 && !(h.folded[0] && h.folded[1])
    && forall rank: seq<int>, p: nat :: |rank| == 2 && rank[0] >= 0 && rank[1] >= 0 && p < 2 ==> PaysAt(g, h, rank, p)
  }

  ghost predicate PaysAt(g: Game, h: Hand, rank: seq<int>, p: nat)
    requires h.Shape(g) && g.numPlayers == 2 && |rank| == 2 && p < 2
  {
    && SidePots.NoNegative(StakesOf(h, rank))
    && StateValue(g, h, rank, p) ==
       (if !h.folded[0] && !h.folded[1] then ShowdownSign(rank, p) * GetStake(h, p) else GetStake(h, p)) as real
  }

  ghost predicate AllPay(g: Game, n: Node)
    decreases n, 1
  {
    && (n.state.finished ==> Pays(g, n.state))
    && forall i: nat :: KidPays(g, n, i)
  }

  ghost predicate KidPays(g: Game, n: Node, i: nat)
    decreases n, 0
  {
    i < |n.children| ==> AllPay(g, n.children[i])
  }

  lemma TerminalPays(g: Game, r: Run)
    requires Path(g, r) && r.Last().finished
    ensures Pays(g, r.Last())
  {
    PathFits(g, r);
    OneFoldsAtMost(g, r);
    forall rank: seq<int>, p: nat | |rank| == 2 && rank[0] >= 0 && rank[1] >= 0 && p < 2
      ensures PaysAt(g, r.Last(), rank, p)
    {
      StakeIsValue(r, rank, p);
    }
  }

  /** The numbers of the terminal or the choice nodes of a round, in the order the nodes were made. */
  function Numbers(n: Node, round: nat, terminal: bool): seq<nat> {
    (if n.state.round == round && n.state.finished == terminal then [n.index] else [])
    + KidsNumbers(n.children, |n.children|, round, terminal)
  }

  function KidsNumbers(c: seq<Node>, k: nat, round: nat, terminal: bool): seq<nat>
    requires k <= |c|
    decreases c, k
  {
    if k == 0 then [] else KidsNumbers(c, k - 1, round, terminal) + Numbers(c[k - 1], round, terminal)
  }

  // ---------------------------------------------------------------- building it

  /** The hand after an action, worked out in a State of its own. */
  method HandAfter(g: Game, h: Hand, a: Action) returns (h2: Hand)
    requires ToAct(g, h) && LogFits(g, h) && AssertsHold(g, h, a)
    ensures h2 == DoAction(g, h, a)
  {
    var s := CopyIn(g, h);
    s.DoAction(g, a);
    h2 := CopyOut(g, s);
  }

  /** The actions of a node in the order of their codes, each once. */
  method OrderedActions(g: Game, workers: seq<Fcpa>, h: Hand) returns (actions: seq<Action>, exits: bool)
    requires ToAct(g, h) && LogFits(g, h) && |workers| == MAX_ROUNDS
    ensures exits <==> Exits(g, h, workers[h.round])
    ensures !exits ==> Chosen(g, workers, h, actions)
    ensures AllOffered(g, h, actions) && Increasing(actions) && Action(Call, 0) in actions
  {
    var s := CopyIn(g, h);
    var c: seq<Action>;
    c, exits := GetCandidateActions(g, s, workers[h.round]);
    CandidatesAreOffered(g, h, workers[h.round]);
    assert Action(Call, 0) in c;
    var sorted := SortActions(c);
    AllOf(g, h, sorted, c);
    actions := RemoveDuplicates(sorted);
    AllOf(g, h, actions, sorted);
    SameCodesFrom(c, sorted, actions);
    OnlyCallHasItsCode(g, h, sorted, actions);
  }

  lemma AllOf(g: Game, h: Hand, r: seq<Action>, c: seq<Action>)
    requires g.Valid() && h.Shape(g) && AllOffered(g, h, c) && From(r, c)
    ensures AllOffered(g, h, r) && forall i :: 0 <= i < |r| ==> Code(r[i]) > -2
  {
    forall i | 0 <= i < |r| ensures Offered(g, h, r[i]) && Code(r[i]) > -2 {
      assert r[i] in c;
      var k :| 0 <= k < |c| && c[k] == r[i];
    }
  }

  lemma SameCodesFrom(c: seq<Action>, sorted: seq<Action>, r: seq<Action>)
    requires From(c, sorted) && SameCodes(sorted, r)
    ensures SameCodes(c, r)
  {
    forall k: nat ensures CodeIn(c, r, k) {
      if k < |c| {
        assert c[k] in sorted;
        var j: nat :| j < |sorted| && sorted[j] == c[k];
        assert CodeIn(sorted, r, j);
      }
    }
  }

  lemma OnlyCallHasItsCode(g: Game, h: Hand, sorted: seq<Action>, actions: seq<Action>)
    requires g.Valid() && h.Shape(g) && AllOffered(g, h, actions)
    requires Action(Call, 0) in sorted && SameCodes(sorted, actions)
    ensures Action(Call, 0) in actions
  {
    var k: nat :| k < |sorted| && sorted[k] == Action(Call, 0);
    assert CodeIn(sorted, actions, k);
    assert HasCode(actions, 0);
    var i :| 0 <= i < |actions| && Code(actions[i]) == 0;
    assert Offered(g, h, actions[i]) && actions[i] == Action(Call, 0);
  }

  /** The node is the child of a hand for an action: grown, and paying at its ends. */
  ghost predicate KidOf(g: Game, workers: seq<Fcpa>, h: Hand, a: Action, n: Node)
    requires g.Valid() && h.Shape(g)
  {
    forall k: nat :: KidOfAt(k, g, workers, h, a, n)
  }

  ghost predicate KidOfAt(k: nat, g: Game, workers: seq<Fcpa>, h: Hand, a: Action, n: Node)
    requires g.Valid() && h.Shape(g)
  {
    n.state == DoAction(g, h, a) && LastActionOf(n.state) == a && Grown(g, workers, n) && AllPay(g, n)
  }

  lemma KidOpens(g: Game, workers: seq<Fcpa>, h: Hand, a: Action, n: Node)
    requires g.Valid() && h.Shape(g) && KidOf(g, workers, h, a, n)
    ensures KidOfAt(0, g, workers, h, a, n)
  {
  }

  /** The children made so far are those for the first actions. */
  ghost predicate KidsGrown(g: Game, workers: seq<Fcpa>, h: Hand, actions: seq<Action>, c: seq<Node>)
    requires g.Valid() && h.Shape(g)
  {
    |c| <= |actions| && forall k :: 0 <= k < |c| ==> KidOf(g, workers, h, actions[k], c[k])
  }

  // ---------------------------------------------------------------- numbering the nodes

  function Span(a: nat, b: nat): seq<nat>
    requires a <= b
  {
    seq(b - a, i requires i >= 0 => a + i)
  }

  /** In every round, the nodes got the numbers from the counter before to the counter after. */
  ghost predicate Counted(n: Node, before: seq<nat>, after: seq<nat>, terminal: bool)
    requires |before| == |after| == MAX_ROUNDS
  {
    forall r: nat :: CountedAt(n, before, after, terminal, r)
  }

  ghost predicate CountedAt(n: Node, before: seq<nat>, after: seq<nat>, terminal: bool, r: nat)
    requires |before| == |after| == MAX_ROUNDS
  {
    r < MAX_ROUNDS ==> before[r] <= after[r] && Numbers(n, r, terminal) == Span(before[r], after[r])
  }

  ghost predicate KidsCounted(c: seq<Node>, before: seq<nat>, after: seq<nat>, terminal: bool)
    requires |before| == |after| == MAX_ROUNDS
  {
    forall r: nat :: KidsCountedAt(c, before, after, terminal, r)
  }

  ghost predicate KidsCountedAt(c: seq<Node>, before: seq<nat>, after: seq<nat>, terminal: bool, r: nat)
    requires |before| == |after| == MAX_ROUNDS
  {
    r < MAX_ROUNDS ==> before[r] <= after[r] && KidsNumbers(c, |c|, r, terminal) == Span(before[r], after[r])
  }

  lemma {:induction false} KidsPrefix(c: seq<Node>, d: seq<Node>, k: nat, r: nat, terminal: bool)
    requires k <= |c| <= |d| && forall i :: 0 <= i < |c| ==> d[i] == c[i]
    ensures KidsNumbers(d, k, r, terminal) == KidsNumbers(c, k, r, terminal)
  {
    if k > 0 { KidsPrefix(c, d, k - 1, r, terminal); }
  }

  lemma SpansJoin(a: nat, b: nat, c: nat)
    requires a <= b <= c
    ensures Span(a, b) + Span(b, c) == Span(a, c)
  {
  }

  lemma OneMoreKid(c: seq<Node>, n: Node, before: seq<nat>, mid: seq<nat>, after: seq<nat>, terminal: bool)
    requires |before| == |mid| == |after| == MAX_ROUNDS
    requires KidsCounted(c, before, mid, terminal) && Counted(n, mid, after, terminal)
    ensures KidsCounted(c + [n], before, after, terminal)
  {
    forall r: nat ensures KidsCountedAt(c + [n], before, after, terminal, r) {
      assert KidsCountedAt(c, before, mid, terminal, r) && CountedAt(n, mid, after, terminal, r);
      KidsPrefix(c, c + [n], |c|, r, terminal);
      if r < MAX_ROUNDS { SpansJoin(before[r], mid[r], after[r]); }
    }
  }

  lemma NoKidsYet(counters: seq<nat>, terminal: bool)
    requires |counters| == MAX_ROUNDS
    ensures KidsCounted([], counters, counters, terminal)
  {
    forall r: nat ensures KidsCountedAt([], counters, counters, terminal, r) {}
  }

  /** The node itself got the first number of its kind and round, its children the others. */
  lemma NodeIsCounted(n: Node, before: seq<nat>, mid: seq<nat>, after: seq<nat>, terminal: bool)
    requires |before| == |mid| == |after| == MAX_ROUNDS && n.state.round < MAX_ROUNDS
    requires KidsCounted(n.children, mid, after, terminal)
    requires mid == if n.state.finished == terminal then before[n.state.round := n.index + 1] else before
    requires n.state.finished == terminal ==> n.index == before[n.state.round]
    ensures Counted(n, before, after, terminal)
  {
    forall r: nat ensures CountedAt(n, before, after, terminal, r) {
      assert KidsCountedAt(n.children, mid, after, terminal, r);
      if r < MAX_ROUNDS && r == n.state.round && n.state.finished == terminal {
        SpansJoin(before[r], before[r] + 1, after[r]);
        assert Span(before[r], before[r] + 1) == [n.index];
      }
    }
  }

  /** Numbering the children leaves everything below them, and all other numbers, alone. */
  function Renumbered(c: seq<Node>): (r: seq<Node>)
    ensures |r| == |c| && forall i :: 0 <= i < |c| ==> r[i] == c[i].(siblingIdx := i)
  {
    seq(|c|, i requires 0 <= i < |c| => c[i].(siblingIdx := i))
  }

  lemma {:induction false} RenumberedKids(c: seq<Node>, k: nat, r: nat, terminal: bool)
    requires k <= |c|
    ensures KidsNumbers(Renumbered(c), k, r, terminal) == KidsNumbers(c, k, r, terminal)
  {
    if k > 0 { RenumberedKids(c, k - 1, r, terminal); }
  }

  lemma RenumberedIsCounted(c: seq<Node>, before: seq<nat>, after: seq<nat>, terminal: bool)
    requires |before| == |after| == MAX_ROUNDS && KidsCounted(c, before, after, terminal)
    ensures KidsCounted(Renumbered(c), before, after, terminal)
  {
    forall r: nat ensures KidsCountedAt(Renumbered(c), before, after, terminal, r) {
      assert KidsCountedAt(c, before, after, terminal, r);
      RenumberedKids(c, |c|, r, terminal);
    }
  }

  // ---------------------------------------------------------------- SortChildNodes

  ghost predicate SortedNodes(c: seq<Node>) {
    forall i, j :: 0 <= i < j < |c| ==> ChildCode(c[i]) <= ChildCode(c[j])
  }

  /** Children in the order of their last actions' codes, each numbered by its place; sorted ones keep their places. */
  method SortChildNodes(c: seq<Node>) returns (r: seq<Node>)
    ensures SortedNodes(r) && |r| == |c|
    ensures forall i :: 0 <= i < |r| ==> r[i].siblingIdx == i && exists n :: n in c && r[i] == n.(siblingIdx := i)
    ensures SortedNodes(c) ==> r == Renumbered(c)
  {
    var s := SortNodes(c);
    r := [];
    for a := 0 to |s|
      invariant r == Renumbered(s)[..a]
    {
      r := r + [s[a].(siblingIdx := a)];
    }
    assert r == Renumbered(s);
  }

  method SortNodes(c: seq<Node>) returns (r: seq<Node>)
    ensures SortedNodes(r) && |r| == |c| && (SortedNodes(c) ==> r == c)
    ensures forall n :: n in r ==> n in c
  {
    r := [];
    for i := 0 to |c|
      invariant |r| == i && SortedNodes(r) && (SortedNodes(c) ==> r == c[..i])
      invariant forall n :: n in r ==> n in c
    {
      r := InsertNode(r, c[i]);
    }
    assert c[..|c|] == c;
  }

  method InsertNode(c: seq<Node>, n: Node) returns (r: seq<Node>)
    requires SortedNodes(c)
    ensures SortedNodes(r) && |r| == |c| + 1
    ensures forall m :: m in r ==> m == n || m in c
    ensures (forall i :: 0 <= i < |c| ==> ChildCode(c[i]) <= ChildCode(n)) ==> r == c + [n]
  {
    var k := |c|;
    while k > 0 && ChildCode(n) < ChildCode(c[k - 1])
      invariant 0 <= k <= |c| && forall i :: k <= i < |c| ==> ChildCode(n) < ChildCode(c[i])
    {
      k := k - 1;
    }
    r := Inserted(c, k, n);
    InsertedIsIn(c, k, n);
    NodeInserted(c, k, n, r);
  }

  lemma NodeInserted(c: seq<Node>, k: nat, n: Node, r: seq<Node>)
    requires SortedNodes(c) && k <= |c| && (k > 0 ==> ChildCode(c[k - 1]) <= ChildCode(n))
    requires forall i :: k <= i < |c| ==> ChildCode(n) < ChildCode(c[i])
    requires r == Inserted(c, k, n)
    ensures SortedNodes(r)
  {
    forall i, j | 0 <= i < j < |r| ensures ChildCode(r[i]) <= ChildCode(r[j]) {
      if i == k {
        assert r[j] == c[j - 1];
      } else if i > k {
        assert r[i] == c[i - 1] && r[j] == c[j - 1];
      } else if j > k {
        assert r[i] == c[i] && r[j] == c[j - 1];
      }
    }
  }

  // ---------------------------------------------------------------- BuildBettingTreeInner

  lemma HereFits(g: Game, workers: seq<Fcpa>, path: Run)
    requires Path(g, path) && |workers| == MAX_ROUNDS
    ensures var h := path.Last();
      && h.Shape(g) && LogFits(g, h) && g.Valid() && h.round < MAX_ROUNDS
      && (!h.finished ==> ToAct(g, h)) && |path.acts| <= MAX_NUM_ACTIONS * g.numRounds
      && (!h.finished && Exits(g, h, workers[h.round]) ==> RunsDead(g, workers, path))
  {
    PathFits(g, path);
    assert path.acts[..|path.acts|] == path.acts && path.hands[..|path.acts| + 1] == path.hands;
    var h := path.Last();
    if !h.finished && Exits(g, h, workers[h.round]) {
      assert DeadEnd(g, workers, path) && Onward(g, workers, path, path);
    }
  }

  lemma KidsMakeGrown(g: Game, workers: seq<Fcpa>, h: Hand, actions: seq<Action>, c: seq<Node>, n: Node)
    requires g.Valid() && h.Shape(g) && !h.finished && AllOffered(g, h, actions) && Chosen(g, workers, h, actions)
    requires Action(Call, 0) in actions && |c| == |actions| && KidsGrown(g, workers, h, actions, c)
    requires n.state == h && n.children == Renumbered(c)
    ensures Grown(g, workers, n) && AllPay(g, n)
  {
    KidsStand(g, workers, h, actions, c, n);
    KidsCall(g, workers, h, actions, c, n);
    GrownFromKids(g, workers, n);
  }

  lemma KidsStand(g: Game, workers: seq<Fcpa>, h: Hand, actions: seq<Action>, c: seq<Node>, n: Node)
    requires g.Valid() && h.Shape(g) && AllOffered(g, h, actions) && Increasing(actions)
    requires |c| == |actions| && KidsGrown(g, workers, h, actions, c) && n.children == Renumbered(c)
    ensures forall i :: 0 <= i < |n.children| ==> KidStands(g, workers, h, n, i)
    ensures IncreasingNodes(n.children) && ActionsOf(n.children) == actions
  {
    forall i | 0 <= i < |c| ensures KidStands(g, workers, h, n, i) && LastActionOf(n.children[i].state) == actions[i] {
      assert Offered(g, h, actions[i]);
      KidRenumbered(g, workers, h, actions[i], c[i], n, i);
    }
  }

  lemma KidsCall(g: Game, workers: seq<Fcpa>, h: Hand, actions: seq<Action>, c: seq<Node>, n: Node)
    requires g.Valid() && h.Shape(g) && Action(Call, 0) in actions
    requires |c| == |actions| && KidsGrown(g, workers, h, actions, c) && n.children == Renumbered(c)
    ensures CallsAmong(n.children)
  {
    var k: nat :| k < |actions| && actions[k] == Action(Call, 0);
    KidOpens(g, workers, h, actions[k], c[k]);
    assert LastActionOf(n.children[k].state).kind == Call;
  }

  /** What Grown and AllPay ask of one child. */
  ghost predicate KidStands(g: Game, workers: seq<Fcpa>, h: Hand, n: Node, i: nat)
    requires g.Valid() && h.Shape(g) && i < |n.children|
  {
    && Edge(g, h, n.children[i].state) && Grown(g, workers, n.children[i]) && AllPay(g, n.children[i])
    && n.children[i].siblingIdx == i
  }

  lemma KidRenumbered(g: Game, workers: seq<Fcpa>, h: Hand, a: Action, kid: Node, n: Node, i: nat)
    requires g.Valid() && h.Shape(g) && Offered(g, h, a) && KidOf(g, workers, h, a, kid)
    requires i < |n.children| && n.children[i] == kid.(siblingIdx := i)
    ensures KidStands(g, workers, h, n, i) && LastActionOf(n.children[i].state) == a
  {
    KidOpens(g, workers, h, a, kid);
    RenamedIsGrown(g, workers, kid, i);
  }

  lemma GrownFromKids(g: Game, workers: seq<Fcpa>, n: Node)
    requires g.Valid() && n.state.Shape(g) && !n.state.finished && CallsAmong(n.children) && IncreasingNodes(n.children)
    requires forall i :: 0 <= i < |n.children| ==> KidStands(g, workers, n.state, n, i)
    requires Chosen(g, workers, n.state, ActionsOf(n.children))
    ensures Grown(g, workers, n) && AllPay(g, n)
  {
    forall i: nat ensures GrownKid(g, workers, n, i) && KidPays(g, n, i) {
      if i < |n.children| { assert KidStands(g, workers, n.state, n, i); }
    }
  }

  lemma RenamedIsGrown(g: Game, workers: seq<Fcpa>, n: Node, i: nat)
    requires g.Valid() && Grown(g, workers, n) && AllPay(g, n)
    ensures Grown(g, workers, n.(siblingIdx := i)) && AllPay(g, n.(siblingIdx := i))
  {
    forall k: nat ensures GrownKid(g, workers, n.(siblingIdx := i), k) && KidPays(g, n.(siblingIdx := i), k) {
      assert GrownKid(g, workers, n, k) && KidPays(g, n, k);
    }
  }

  lemma KidsAreInOrder(g: Game, workers: seq<Fcpa>, h: Hand, actions: seq<Action>, c: seq<Node>)
    requires g.Valid() && h.Shape(g) && Increasing(actions) && KidsGrown(g, workers, h, actions, c)
    ensures SortedNodes(c)
  {
    forall i, j | 0 <= i < j < |c| ensures ChildCode(c[i]) <= ChildCode(c[j]) {
      KidOpens(g, workers, h, actions[i], c[i]);
      KidOpens(g, workers, h, actions[j], c[j]);
    }
  }

  /** The counters of the choice and of the terminal nodes of each round. */
  ghost predicate Counters(choice: array<nat>, term: array<nat>) {
    choice != term && choice.Length == term.Length == MAX_ROUNDS
  }

  /** The node, once all its children are there. */
  method WithChildren(g: Game, workers: seq<Fcpa>, state: Hand, index: nat, actions: seq<Action>, children: seq<Node>)
    returns (n: Node)
    requires g.Valid() && state.Shape(g) && !state.finished && AllOffered(g, state, actions)
    requires Chosen(g, workers, state, actions)
    requires Action(Call, 0) in actions && |children| == |actions| && KidsGrown(g, workers, state, actions, children)
    ensures n == Node(state, index, -1, Renumbered(children)) && Grown(g, workers, n) && AllPay(g, n)
  {
    KidsAreInOrder(g, workers, state, actions, children);
    var sorted := SortChildNodes(children);
    n := Node(state, index, -1, sorted);
    KidsMakeGrown(g, workers, state, actions, children, n);
  }

  /** A path to a hand where the source exits. */
  ghost predicate DeadEnd(g: Game, workers: seq<Fcpa>, r: Run) {
    && Path(g, r) && r.Last().Shape(g) && !r.Last().finished && r.Last().round < |workers|
    && Exits(g, r.Last(), workers[r.Last().round])
  }

  /** Action k of the run is one that the abstraction has on offer. */
  ghost predicate CandidateAt(g: Game, workers: seq<Fcpa>, r: Run, k: nat) {
    k < |r.acts| && k < |r.hands| ==>
      && g.Valid() && r.hands[k].Shape(g) && r.hands[k].round < |workers|
      && r.acts[k] in Candidates(g, r.hands[k], workers[r.hands[k].round])
  }

  /** r goes on where path ends, by actions on offer. */
  ghost predicate Onward(g: Game, workers: seq<Fcpa>, path: Run, r: Run) {
    && |path.acts| <= |r.acts| && |path.hands| == |path.acts| + 1 <= |r.hands|
    && path.acts == r.acts[..|path.acts|] && path.hands == r.hands[..|path.hands|]
    && forall k: nat :: k >= |path.acts| ==> CandidateAt(g, workers, r, k)
  }

  /** Actions on offer lead from the end of the path to a hand where the source exits. */
  ghost predicate RunsDead(g: Game, workers: seq<Fcpa>, path: Run) {
    exists r :: DeadEnd(g, workers, r) && Onward(g, workers, path, r)
  }

  lemma RunsDeadBefore(g: Game, workers: seq<Fcpa>, path: Run, a: Action)
    requires Path(g, path) && path.Last().Shape(g) && path.Last().round < |workers|
    requires a in Candidates(g, path.Last(), workers[path.Last().round]) && RunsDead(g, workers, Longer(path, a))
    ensures RunsDead(g, workers, path)
  {
    hide Candidates, DeadEnd;
    var longer, n := Longer(path, a), |path.acts|;
    var r :| DeadEnd(g, workers, r) && Onward(g, workers, longer, r);
    assert r.acts[..n] == longer.acts[..n] == path.acts && r.hands[..n + 1] == longer.hands[..n + 1] == path.hands;
    assert r.acts[n] == longer.acts[n] == a && r.hands[n] == longer.hands[n] == path.Last();
    assert CandidateAt(g, workers, r, n);
    forall k: nat | k >= n ensures CandidateAt(g, workers, r, k) {
      if k > n { assert k >= |longer.acts|; }
    }
  }

  /** A tree that was built holds every hand that actions on offer lead to, so there is no dead end below its root. */
  lemma {:induction false} GrownIsAlive(g: Game, workers: seq<Fcpa>, n: Node, r: Run, k: nat)
    requires DeadEnd(g, workers, r) && k <= |r.acts| && r.hands[k] == n.state
    requires forall j: nat :: j >= k ==> CandidateAt(g, workers, r, j)
    ensures !Grown(g, workers, n)
    decreases |r.acts| - k
  {
    hide DeadEnd, Grown, CandidateAt;
    PathOpens(g, workers, r);
    if Grown(g, workers, n) && k < |r.acts| {
      var i := ChildOnPath(g, workers, n, r, k);
      GrownIsAlive(g, workers, n.children[i], r, k + 1);
    } else if Grown(g, workers, n) {
      GrownStays(g, workers, n, r);
    }
  }

  lemma PathOpens(g: Game, workers: seq<Fcpa>, r: Run)
    requires DeadEnd(g, workers, r)
    ensures Path(g, r) && |r.hands| == |r.acts| + 1
  {
  }

  lemma GrownStays(g: Game, workers: seq<Fcpa>, n: Node, r: Run)
    requires DeadEnd(g, workers, r) && n.state == r.Last()
    ensures !Grown(g, workers, n)
  {
  }

  lemma ChildOnPath(g: Game, workers: seq<Fcpa>, n: Node, r: Run, k: nat) returns (i: nat)
    requires Path(g, r) && k < |r.acts| && r.hands[k] == n.state && Grown(g, workers, n)
    requires CandidateAt(g, workers, r, k)
    ensures i < |n.children| && r.hands[k + 1] == n.children[i].state && Grown(g, workers, n.children[i])
  {
    hide ToAct, Candidates, Exits, Legal, DoAction;
    OnPath(g, r, k);
    assert r.LegalAt(k);
    NotOver(g, r.hands[k], r.acts[k]);
    i := ChildFor(g, workers, n, r.acts[k]);
    assert GrownKid(g, workers, n, i);
  }

  lemma NotOver(g: Game, h: Hand, a: Action)
    requires g.Valid() && h.Shape(g) && Legal(g, h, a)
    ensures !h.finished
  {
  }

  lemma AliveBelow(g: Game, workers: seq<Fcpa>, n: Node, path: Run)
    requires Path(g, path) && path.Last() == n.state && Grown(g, workers, n)
    ensures !RunsDead(g, workers, path)
  {
    if r :| DeadEnd(g, workers, r) && Onward(g, workers, path, r) {
      assert r.hands[|path.acts|] == path.hands[|path.acts|];
      GrownIsAlive(g, workers, n, r, |path.acts|);
    }
  }

  lemma ChildFor(g: Game, workers: seq<Fcpa>, n: Node, a: Action) returns (i: nat)
    requires g.Valid() && Grown(g, workers, n) && !n.state.finished && ToAct(g, n.state) && n.state.round < |workers|
    requires a in Candidates(g, n.state, workers[n.state.round])
    ensures i < |n.children| && n.children[i].state == DoAction(g, n.state, a)
  {
    hide ToAct, Candidates, Exits;
    var c, actions := Candidates(g, n.state, workers[n.state.round]), ActionsOf(n.children);
    CandidatesAreOffered(g, n.state, workers[n.state.round]);
    var k: nat :| k < |c| && c[k] == a;
    assert CodeIn(c, actions, k);
    i :| 0 <= i < |actions| && Code(actions[i]) == Code(a);
    assert GrownKid(g, workers, n, i);
    assert Offered(g, n.state, actions[i]) && Offered(g, n.state, a);
  }

  lemma ChosenAreCandidates(g: Game, workers: seq<Fcpa>, h: Hand, actions: seq<Action>)
    requires g.Valid() && h.Shape(g) && Chosen(g, workers, h, actions)
    ensures h.round < |workers|
    ensures forall i :: 0 <= i < |actions| ==> actions[i] in Candidates(g, h, workers[h.round])
  {
  }

  /** There is none unless some round is configured to raise on top of the last raise alone. */
  lemma DeadEndsInOneMode(g: Game, workers: seq<Fcpa>, r: Run)
    requires DeadEnd(g, workers, r)
    ensures r.Last().round > 0 && workers[r.Last().round].raiseMode == XLastRaise
  {
    PathFits(g, r);
    ExitsInOneMode(g, r.Last(), workers[r.Last().round]);
  }

  /** How many actions may still be done below the end of a path. */
  ghost function Room(g: Game, path: Run): int {
    MAX_NUM_ACTIONS * g.numRounds - |path.acts|
  }

  /** The subtree below the hand a path leads to; it ends because every path does. */
  method BuildBettingTreeInner(g: Game, workers: seq<Fcpa>, state: Hand, choice: array<nat>, term: array<nat>,
                               ghost path: Run) returns (n: Node, exits: bool)
    requires |workers| == MAX_ROUNDS && Counters(choice, term)
    requires Path(g, path) && path.Last() == state
    modifies choice, term
    ensures exits ==> RunsDead(g, workers, path)
    ensures !exits ==> n.state == state && Grown(g, workers, n) && AllPay(g, n)
    ensures !exits ==> Counted(n, old(choice[..]), choice[..], false) && Counted(n, old(term[..]), term[..], true)
    decreases Room(g, path), 2
  {
    hide Grown, AllPay, Chosen, Exits, Counted, KidsCounted, AllOffered, LogFits, Increasing, Path, ToAct, KidsGrown;
    hide Hand.Shape, Game.Valid;
    HereFits(g, workers, path);
    if state.finished {
      n := Leaf(g, workers, state, choice, term, path);
      return n, false;
    }
    ghost var choice0, term0 := choice[..], term[..];
    var index := choice[state.round];
    choice[state.round] := index + 1;
    ghost var choice1 := choice[..];
    assert choice1 == choice0[state.round := index + 1];
    var actions: seq<Action>;
    actions, exits := OrderedActions(g, workers, state);
    n := Node(state, index, -1, []);
    if exits {
      return;
    }
    var children: seq<Node>;
    children, exits := BuildChildren(g, workers, state, actions, choice, term, path);
    if exits {
      return;
    }
    n := WithChildren(g, workers, state, index, actions, children);
    InnerIsCounted(n, children, choice0, choice1, choice[..], term0, term[..]);
  }

  lemma InnerIsCounted(n: Node, c: seq<Node>, choice0: seq<nat>, choice1: seq<nat>, choice2: seq<nat>, term0: seq<nat>,
                       term1: seq<nat>)
    requires |choice0| == |choice1| == |choice2| == |term0| == |term1| == MAX_ROUNDS && n.state.round < MAX_ROUNDS
    requires !n.state.finished && n.children == Renumbered(c)
    requires n.index == choice0[n.state.round] && choice1 == choice0[n.state.round := n.index + 1]
    requires KidsCounted(c, choice1, choice2, false) && KidsCounted(c, term0, term1, true)
    ensures Counted(n, choice0, choice2, false) && Counted(n, term0, term1, true)
  {
    RenumberedIsCounted(c, choice1, choice2, false);
    RenumberedIsCounted(c, term0, term1, true);
    NodeIsCounted(n, choice0, choice1, choice2, false);
    NodeIsCounted(n, term0, term0, term1, true);
  }

  lemma OffersEach(g: Game, path: Run, h: Hand, actions: seq<Action>)
    requires Path(g, path) && path.Last() == h && ToAct(g, h) && AllOffered(g, h, actions)
    ensures g.Valid() && h.Shape(g)
    ensures forall i :: 0 <= i < |actions| ==> Offered(g, h, actions[i])
    ensures |path.acts| <= MAX_NUM_ACTIONS * g.numRounds
  {
    PathFits(g, path);
  }

  /** A child for each action. */
  method BuildChildren(g: Game, workers: seq<Fcpa>, state: Hand, actions: seq<Action>, choice: array<nat>,
                       term: array<nat>, ghost path: Run) returns (children: seq<Node>, exits: bool)
    requires |workers| == MAX_ROUNDS && Counters(choice, term)
    requires Path(g, path) && path.Last() == state && ToAct(g, state) && LogFits(g, state)
    requires AllOffered(g, state, actions) && Chosen(g, workers, state, actions)
    modifies choice, term
    ensures exits ==> RunsDead(g, workers, path)
    ensures !exits ==> |children| == |actions| && KidsGrown(g, workers, state, actions, children)
    ensures !exits ==> KidsCounted(children, old(choice[..]), choice[..], false)
    ensures !exits ==> KidsCounted(children, old(term[..]), term[..], true)
    decreases Room(g, path), 1
  {
    hide KidOf, KidsCounted, Counted, RunsDead, AllOffered, Path, ToAct, LogFits, Hand.Shape, Game.Valid, Offered;
    hide Chosen, Candidates;
    OffersEach(g, path, state, actions);
    ChosenAreCandidates(g, workers, state, actions);
    children, exits := [], false;
    ghost var choice0, term0 := choice[..], term[..];
    NoKidsYet(choice0, false);
    NoKidsYet(term0, true);
    for i := 0 to |actions|
      invariant |children| == i && KidsGrown(g, workers, state, actions, children)
      invariant KidsCounted(children, choice0, choice[..], false) && KidsCounted(children, term0, term[..], true)
    {
      ghost var choice1, term1 := choice[..], term[..];
      var kid, out := BuildChild(g, workers, state, actions[i], choice, term, path);
      if out {
        return [], true;
      }
      OneMoreKid(children, kid, choice0, choice1, choice[..], false);
      OneMoreKid(children, kid, term0, term1, term[..], true);
      children := children + [kid];
    }
  }

  /** The child for one action: the hand after it, and the tree below. */
  method BuildChild(g: Game, workers: seq<Fcpa>, state: Hand, a: Action, choice: array<nat>, term: array<nat>,
                    ghost path: Run) returns (kid: Node, exits: bool)
    requires |workers| == MAX_ROUNDS && Counters(choice, term)
    requires Path(g, path) && path.Last() == state && ToAct(g, state) && LogFits(g, state) && Offered(g, state, a)
    requires state.round < |workers| && a in Candidates(g, state, workers[state.round])
    modifies choice, term
    ensures exits ==> RunsDead(g, workers, path)
    ensures !exits ==> KidOf(g, workers, state, a, kid)
    ensures !exits ==> Counted(kid, old(choice[..]), choice[..], false) && Counted(kid, old(term[..]), term[..], true)
    decreases Room(g, path), 0
  {
    LongerIsPath(g, path, a);
    PathFits(g, Longer(path, a));
    var child := HandAfter(g, state, a);
    LastActionIsLast(g, state, a);
    kid, exits := BuildBettingTreeInner(g, workers, child, choice, term, Longer(path, a));
    if exits { RunsDeadBefore(g, workers, path, a); }
  }

  /** A terminal node. */
  method Leaf(g: Game, ghost workers: seq<Fcpa>, state: Hand, choice: array<nat>, term: array<nat>, ghost path: Run)
    returns (n: Node)
    requires Counters(choice, term) && Path(g, path) && path.Last() == state && state.finished
    modifies term
    ensures n.state == state && Grown(g, workers, n) && AllPay(g, n)
    ensures Counted(n, choice[..], choice[..], false) && Counted(n, old(term[..]), term[..], true)
  {
    PathFits(g, path);
    TerminalPays(g, path);
    var index := term[state.round];
    ghost var term0 := term[..];
    n := Node(state, index, -1, []);
    term[state.round] := index + 1;
    NoKidsYet(choice[..], false);
    NoKidsYet(term[..], true);
    NodeIsCounted(n, choice[..], choice[..], choice[..], false);
    NodeIsCounted(n, term0, term[..], term[..], true);
  }

  // ---------------------------------------------------------------- IsBettingTreeValid

  /** The check of the source: every node but the last ones has children in order, one of which calls. */
  ghost predicate ValidTree(n: Node)
    decreases n, 1
  {
    n.state.finished ||
      (n.children != [] && InOrder(n.children) && CallNumbered(n.children) && forall i: nat :: ValidKid(n, i))
  }

  ghost predicate ValidKid(n: Node, i: nat)
    decreases n, 0
  {
    i < |n.children| ==> ValidTree(n.children[i])
  }

  ghost predicate InOrder(c: seq<Node>) {
    IncreasingNodes(c) && (c != [] ==> ChildCode(c[0]) > -2)
  }

  /** The first child that calls has its place among the children. */
  ghost predicate CallNumbered(c: seq<Node>) {
    exists i :: 0 <= i < |c| && LastActionOf(c[i].state).kind == Call && c[i].siblingIdx != -1
      && forall j :: 0 <= j < i ==> LastActionOf(c[j].state).kind != Call
  }

  method IsBettingTreeValid(n: Node) returns (valid: bool)
    ensures valid <==> ValidTree(n)
  {
    if n.state.finished {
      return true;
    }
    if |n.children| == 0 {
      return false;
    }
    var inOrder := CodesInOrder(n.children);
    if !inOrder {
      return false;
    }
    var calls := FindsCall(n.children);
    if !calls {
      return false;
    }
    for i := 0 to |n.children|
      invariant forall k: nat :: k < i ==> ValidKid(n, k)
    {
      valid := IsBettingTreeValid(n.children[i]);
      if !valid {
        assert !ValidKid(n, i);
        return;
      }
    }
    assert forall k: nat :: ValidKid(n, k);
    return true;
  }

  method CodesInOrder(c: seq<Node>) returns (ok: bool)
    ensures ok <==> InOrder(c)
  {
    var last := -2;
    for i := 0 to |c|
      invariant last == if i == 0 then -2 else ChildCode(c[i - 1])
      invariant IncreasingNodes(c[..i]) && (i > 0 ==> ChildCode(c[0]) > -2)
    {
      var code := ChildCode(c[i]);
      if code <= last {
        return false;
      }
      last := code;
    }
    assert c[..|c|] == c;
    return true;
  }

  /** Whether there is a call; its place is -1 as long as nobody numbered it. */
  method FindsCall(c: seq<Node>) returns (found: bool)
    ensures found <==> CallNumbered(c)
  {
    for i := 0 to |c|
      invariant forall j :: 0 <= j < i ==> LastActionOf(c[j].state).kind != Call
    {
      if LastActionOf(c[i].state).kind == Call {
        return c[i].siblingIdx != -1;
      }
    }
    return false;
  }

  /** A grown tree passes the check. */
  lemma {:induction false} GrownIsValid(g: Game, workers: seq<Fcpa>, n: Node)
    requires g.Valid() && Grown(g, workers, n)
    ensures ValidTree(n)
    decreases n
  {
    if !n.state.finished {
      forall i: nat ensures ValidKid(n, i) {
        assert GrownKid(g, workers, n, i);
        if i < |n.children| { GrownIsValid(g, workers, n.children[i]); }
      }
      assert GrownKid(g, workers, n, 0);
      var i :| 0 <= i < |n.children| && LastActionOf(n.children[i].state).kind == Call;
      FirstCall(g, workers, n, i);
    }
  }

  /** Only one child calls. */
  lemma FirstCall(g: Game, workers: seq<Fcpa>, n: Node, i: nat)
    requires g.Valid() && Grown(g, workers, n) && i < |n.children| && LastActionOf(n.children[i].state).kind == Call
    ensures CallNumbered(n.children)
  {
    assert GrownKid(g, workers, n, i);
    forall j: nat | j < i ensures LastActionOf(n.children[j].state).kind != Call {
      assert ChildCode(n.children[j]) < ChildCode(n.children[i]);
    }
  }

  /** The whole tree, from a hand that a path from the deal leads to; its check never fails. */
  method BuildBettingTree(g: Game, workers: seq<Fcpa>, state: Hand, ghost path: Run)
    returns (n: Node, exits: bool, valid: bool)
    requires |workers| == MAX_ROUNDS && Path(g, path) && path.Last() == state
    ensures exits <==> RunsDead(g, workers, path)
    ensures !exits ==> n.state == state && Grown(g, workers, n) && AllPay(g, n) && valid
    ensures !exits ==> AllNumbered(n, false) && AllNumbered(n, true)
  {
    hide Grown, AllPay, RunsDead, Counted, AllNumbered, ValidTree, Path, Hand.Shape, Game.Valid;
    HereFits(g, workers, path);
    var choice, term := new nat[MAX_ROUNDS](_ => 0), new nat[MAX_ROUNDS](_ => 0);
    ghost var zero := choice[..];
    assert term[..] == zero;
    n, exits := BuildBettingTreeInner(g, workers, state, choice, term, path);
    if exits {
      return n, true, false;
    }
    AliveBelow(g, workers, n, path);
    FromZero(n, zero, choice[..], false);
    FromZero(n, zero, term[..], true);
    GrownIsValid(g, workers, n);
    valid := IsBettingTreeValid(n);
  }

  /** The nodes of each round are numbered 0, 1, 2 and so on, in the order of a walk of the tree. */
  ghost predicate AllNumbered(n: Node, terminal: bool) {
    forall r: nat :: r < MAX_ROUNDS ==> Numbers(n, r, terminal) == Span(0, |Numbers(n, r, terminal)|)
  }

  lemma FromZero(n: Node, before: seq<nat>, after: seq<nat>, terminal: bool)
    requires |before| == |after| == MAX_ROUNDS && Counted(n, before, after, terminal)
    requires forall r :: 0 <= r < MAX_ROUNDS ==> before[r] == 0
    ensures AllNumbered(n, terminal)
  {
    forall r: nat | r < MAX_ROUNDS ensures Numbers(n, r, terminal) == Span(0, |Numbers(n, r, terminal)|) {
      assert CountedAt(n, before, after, terminal, r);
    }
  }
}
