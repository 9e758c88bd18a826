/**
  The action abstraction of modules/engine/src/action_abs.cpp: the actions a node of the betting tree offers, from the
  configured raise sizes, and their order.
 */
module ActionAbs {
  import opened Betting
  import opened TurnOrder
  import opened Chips
  import opened GameState
  import opened Payoffs

  datatype RaiseMode = PotNet | PotAfterCall | NetOrX | XLastRaise

  datatype RaiseConfig = RaiseConfig(mode: RaiseMode, ratio: real, begin: int, end: int)
  {
    predicate IsApplicable(numActions: int, m: RaiseMode) {
      m == mode && begin <= numActions <= end
    }
  }

  datatype Fcpa = Fcpa(raiseMode: RaiseMode, raiseConfig: seq<RaiseConfig>, highFilter: real)

  /**
    An action that may be on an edge of the tree: accepted, no fold without a bet to fold to, sized as its kind wants.
   */
  ghost predicate Offered(g: Game, h: Hand, a: Action)
    requires g.Valid() && h.Shape(g)
  {
    && !a.kind.Invalid? && Strict(g, h, a)
    && if a.kind.Raise? then a.size > 0 else a.size == 0
  }

  ghost predicate AllOffered(g: Game, h: Hand, c: seq<Action>)
    requires g.Valid() && h.Shape(g)
  {
    forall i :: 0 <= i < |c| ==> Offered(g, h, c[i])
  }

  /** A hand of a two-player no-limit game in which somebody is to act. */
  ghost predicate ToAct(g: Game, h: Hand) {
    && g.Valid() && g.noLimit && g.numPlayers == 2 && TurnInv(g, h) && ChipInv(g, h)
    && h.Able(CurrentPlayer(g, h)) && Legal(g, h, Action(Call, 0)) && NobodyFolded(h)
  }

  ghost predicate NobodyFolded(h: Hand) {
    forall p :: 0 <= p < |h.folded| ==> !h.folded[p]
  }

  /** C's conversion of a double to an integer. */
  function Truncate(x: real): int {
    if x >= 0.0 then x.Floor else -((-x).Floor)
  }

  /** Chips already spent and a multiple of the base on top. */
  function SizeFor(ratio: real, base: int, spent: int): int {
    Truncate(ratio * base as real + spent as real)
  }

  /** The chips in the pot, with those it takes to call if the mode says so. */
  method GetPot(g: Game, s: State, afterCall: bool, acting: nat) returns (pot: int)
    requires s.For(g) && acting < g.numPlayers
    ensures pot == SumSpent(s.hand.spent) + if afterCall then s.hand.maxSpent - s.hand.spent[acting] else 0
  {
    pot := 0;
    ghost var spent := s.hand.spent;
    for p := 0 to g.numPlayers
      invariant pot == SumSpent(spent[..p])
    {
      assert spent[..p + 1][..p] == spent[..p];
      pot := pot + s.spent[p];
    }
    assert spent[..g.numPlayers] == spent;
    if afterCall {
      pot := pot + s.maxSpent - s.spent[acting];
    }
  }

  /** Whether somebody raised in this round; the blinds are a raise. */
  method WithEarlyRaiseAction(g: Game, s: State) returns (early: bool)
    requires s.For(g)
    ensures early <==> s.round == 0 || exists i :: 0 <= i < |s.hand.Log()| && s.hand.Log()[i].action.kind == Raise
  {
    if s.round == 0 {
      return true;
    }
    for a := 0 to s.numActions[s.round]
      invariant forall i :: 0 <= i < a ==> s.hand.Log()[i].action.kind != Raise
    {
      if s.action[s.round, a].kind == Raise {
        assert s.hand.Log()[a].action.kind == Raise;
        return true;
      }
    }
    return false;
  }

  // ---------------------------------------------------------------- the last bet of a round

  /** The last raise of the log. */
  function LastRaise(log: seq<Move>): Option<Move> {
    if log == [] then None
    else if log[|log| - 1].action.kind.Raise? then Some(log[|log| - 1])
    else LastRaise(log[..|log| - 1])
  }

  lemma {:induction false} LastRaiseMeans(log: seq<Move>)
    ensures LastRaise(log).Some? <==> exists i :: 0 <= i < |log| && log[i].action.kind == Raise
    ensures LastRaise(log).Some? ==> LastRaise(log).value in log
  {
    if log != [] {
      var n := |log| - 1;
      LastRaiseMeans(log[..n]);
      forall i | 0 <= i < |log| && log[i].action.kind == Raise
        ensures LastRaise(log).Some?
      {
        if i < n { assert log[..n][i] == log[i]; }
      }
    }
  }

  ghost predicate LastBetExists(h: Hand) {
    BlindIsLast(h) || exists i :: 0 <= i < |h.Log()| && h.Log()[i].action.kind == Raise
  }

  /** Nobody did more than call the blinds. */
  predicate BlindIsLast(h: Hand) {
    h.round == 0 && (h.Log() == [] || (|h.Log()| == 1 && h.Log()[0].action.kind == Call))
  }

  function BigBlind(g: Game): int
    requires |g.blind| >= 2
  {
    if g.blind[0] > g.blind[1] then g.blind[0] else g.blind[1]
  }

  /** What player p had spent before the round. */
  function Before(h: Hand, p: nat): int
    requires h.round < |h.roundSpent| && h.SpentRows(|h.spent|) && p < |h.spent|
  {
    if h.round == 0 then 0 else h.roundSpent[h.round - 1][p]
  }

  /** What the last raiser put in in this round, or the big blind; none where the source exits. */
  function LastRaiseNet(g: Game, h: Hand): Option<int>
    requires g.Valid() && h.Shape(g)
  {
    if BlindIsLast(h) then Some(BigBlind(g))
    else
      match LastRaise(h.Log())
      case None => None
      case Some(m) =>
        if m.player < g.numPlayers then Some(h.roundSpent[h.round][m.player] - Before(h, m.player)) else None
  }

  method GetLastRaiseNet(g: Game, s: State) returns (net: Option<int>)
    requires s.For(g)
    ensures net == LastRaiseNet(g, s.hand)
    ensures net.Some? <==> LastBetExists(s.hand)
  {
    ghost var log := s.hand.Log();
    LastRaiseMeans(log);
    if s.round == 0 {
      var bb := if g.blind[0] > g.blind[1] then g.blind[0] else g.blind[1];
      if s.numActions[0] == 0 {
        return Some(bb);
      }
      if s.numActions[0] == 1 && s.action[0, 0].kind == Call {
        return Some(bb);
      }
    }
    assert !BlindIsLast(s.hand);
    var a := s.numActions[s.round];
    assert log[..|log|] == log;
    while a > 0
      invariant 0 <= a <= |log| && LastRaise(log) == LastRaise(log[..a])
    {
      a := a - 1;
      assert log[..a + 1][..a] == log[..a];
      if s.action[s.round, a].kind == Raise {
        var raiser := s.actingPlayer[s.round, a];
        assert LastRaise(log) == Some(log[a]);
        return Some(s.sumRoundSpent[s.round, raiser] - if s.round > 0 then s.sumRoundSpent[s.round - 1, raiser] else 0);
      }
    }
    return None;
  }

  lemma {:induction false} SinceIsAll(log: seq<Move>)
    requires forall i :: 0 <= i < |log| ==> log[i].action.kind != Raise
    ensures Since(log) == log
  {
    if log != [] { SinceIsAll(log[..|log| - 1]); }
  }

  lemma BothActed(log: seq<Move>)
    requires |log| > 1 && Ordered(2, log) && log[0].player < 2 && log[1].player < 2
    ensures Acted(log, 0) && Acted(log, 1)
  {
    assert Off(2, log[0].player, log[0].player) < Off(2, log[0].player, log[1].player);
    assert Acted(log, log[0].player) && Acted(log, log[1].player);
  }

  /** Before the flop the blinds or somebody's raise is always there to be raised. */
  lemma RaiserIsFound(g: Game, h: Hand)
    requires ToAct(g, h) && h.round == 0
    ensures LastBetExists(h)
  {
    var log := h.Log();
    if forall i :: 0 <= i < |log| ==> log[i].action.kind != Raise {
      SinceIsAll(log);
      CurrentPlayerComesNext(g, h);
      OrderKept(h, 2, log, Move(Action(Call, 0), CurrentPlayer(g, h)));
      if |log| > 1 { BothActed(log); }
      if |log| == 1 { assert Settled(h, log[0]); }
    }
  }

  // ---------------------------------------------------------------- raises

  /** The mode at this node: a composite one depends on whether somebody raised. */
  ghost function ModeOf(conf: Fcpa, h: Hand): (mode: RaiseMode)
    ensures mode != NetOrX
  {
    if conf.raiseMode != NetOrX then conf.raiseMode
    else if h.round == 0 || exists i :: 0 <= i < |h.Log()| && h.Log()[i].action.kind == Raise then XLastRaise
    else PotNet
  }

  /** GetRaiseBase: what the ratios are of. */
  function RaiseBase(g: Game, h: Hand, mode: RaiseMode): Option<int>
    requires g.Valid() && h.Shape(g)
  {
    match mode
    case PotNet => Some(SumSpent(h.spent))
    case PotAfterCall => Some(SumSpent(h.spent) + h.maxSpent - h.spent[CurrentPlayer(g, h)])
    case XLastRaise => LastRaiseNet(g, h)
    case NetOrX => None
  }

  /** The raise for one ratio: that much of the base on top of what the player has spent. */
  function WantedSize(g: Game, h: Hand, mode: RaiseMode, ratio: real, base: int): int
    requires g.Valid() && h.Shape(g)
  {
    var p := CurrentPlayer(g, h);
    SizeFor(ratio, base, match mode
                         case PotAfterCall => h.maxSpent
                         case XLastRaise => Before(h, p)
                         case _ => h.spent[p])
  }

  predicate BelowFilter(size: int, hi: int, filter: real)
    requires hi > 0
  {
    size as real / hi as real < filter
  }

  /** What configured ratio i adds to the sizes on offer, and whether it is the last: one that asks for all-in is. */
  function RaiseFor(g: Game, h: Hand, conf: Fcpa, mode: RaiseMode, base: int, lo: int, hi: int, i: nat)
    : (seq<int>, bool)
    requires g.Valid() && h.Shape(g) && hi > 0 && i < |conf.raiseConfig|
  {
    var c := conf.raiseConfig[i];
    var size := WantedSize(g, h, mode, c.ratio, base);
    var raised := if size < lo then lo else size;
    if !c.IsApplicable(|h.Log()|, mode) then ([], false)
    else if c.ratio == -1.0 then ([hi], false)
    else if size >= hi then ([hi], true)
    else if BelowFilter(raised, hi, conf.highFilter) then ([raised], false)
    else ([], false)
  }

  /** The sizes of the raises on offer for the configured ratios from number i on. */
  function RaiseSizes(g: Game, h: Hand, conf: Fcpa, mode: RaiseMode, base: int, lo: int, hi: int, i: nat): seq<int>
    requires g.Valid() && h.Shape(g) && hi > 0 && i <= |conf.raiseConfig|
    decreases |conf.raiseConfig| - i
  {
    if i == |conf.raiseConfig| then []
    else
      var (sizes, last) := RaiseFor(g, h, conf, mode, base, lo, hi, i);
      if last then sizes else sizes + RaiseSizes(g, h, conf, mode, base, lo, hi, i + 1)
  }

  /** They are raises a player can make. */
  lemma {:induction false} SizesFit(g: Game, h: Hand, conf: Fcpa, mode: RaiseMode, base: int, lo: int, hi: int, i: nat)
    requires g.Valid() && h.Shape(g) && 0 < lo <= hi && i <= |conf.raiseConfig|
    ensures forall k :: 0 <= k < |RaiseSizes(g, h, conf, mode, base, lo, hi, i)| ==>
      lo <= RaiseSizes(g, h, conf, mode, base, lo, hi, i)[k] <= hi
    decreases |conf.raiseConfig| - i
  {
    if i < |conf.raiseConfig| { SizesFit(g, h, conf, mode, base, lo, hi, i + 1); }
  }

  function Raises(sizes: seq<int>): (r: seq<Action>)
    ensures |r| == |sizes| && forall k :: 0 <= k < |sizes| ==> r[k] == Action(Raise, sizes[k])
  {
    seq(|sizes|, k requires 0 <= k < |sizes| => Action(Raise, sizes[k]))
  }

  /** What a node offers: folding if there is a bet to fold to, calling, and raises. */
  ghost function Candidates(g: Game, h: Hand, conf: Fcpa): seq<Action>
    requires g.Valid() && h.Shape(g)
  {
    (if Strict(g, h, Action(Fold, 0)) then [Action(Fold, 0)] else []) + [Action(Call, 0)]
      + Raises(SizesHere(g, h, conf))
  }

  ghost function SizesHere(g: Game, h: Hand, conf: Fcpa): seq<int>
    requires g.Valid() && h.Shape(g)
  {
    var mode := ModeOf(conf, h);
    match (RaiseRange(g, h), RaiseBase(g, h, mode))
    case (Some((lo, hi)), Some(base)) => if hi > 0 then RaiseSizes(g, h, conf, mode, base, lo, hi, 0) else []
    case _ => []
  }

  /** The source exits at this node: a raise is possible, its size hangs on a last bet, and there is none. */
  ghost predicate Exits(g: Game, h: Hand, conf: Fcpa)
    requires g.Valid() && h.Shape(g)
  {
    RaiseRange(g, h).Some? && RaiseBase(g, h, ModeOf(conf, h)).None?
  }

  /** It does so only when configured to raise on top of the last raise whatever happened before. */
  lemma ExitsInOneMode(g: Game, h: Hand, conf: Fcpa)
    requires ToAct(g, h)
    ensures Exits(g, h, conf) <==>
      RaiseRange(g, h).Some? && conf.raiseMode == XLastRaise && h.round > 0 && LastRaise(h.Log()) == None
  {
    LastRaiseMeans(h.Log());
    if h.round == 0 { RaiserIsFound(g, h); }
    if LastRaise(h.Log()).Some? {
      var m := LastRaise(h.Log()).value;
      var i :| 0 <= i < |h.Log()| && h.Log()[i] == m;
    }
  }

  method GetRaiseBase(g: Game, s: State, mode: RaiseMode) returns (base: Option<int>)
    requires s.For(g) && ToAct(g, s.hand) && mode != NetOrX
    ensures base == RaiseBase(g, s.hand, mode)
  {
    if mode == XLastRaise {
      base := GetLastRaiseNet(g, s);
    } else {
      var acting := s.CurrentPlayer(g);
      var pot := GetPot(g, s, mode == PotAfterCall, acting);
      base := Some(pot);
    }
  }

  method WantedRaise(g: Game, s: State, mode: RaiseMode, ratio: real, acting: nat, base: int) returns (size: int)
    requires s.For(g) && acting == CurrentPlayer(g, s.hand) && mode != NetOrX
    ensures size == WantedSize(g, s.hand, mode, ratio, base)
  {
    var spent: int;
    if mode == XLastRaise {
      spent := if s.round == 0 then 0 else s.sumRoundSpent[s.round - 1, acting];
    } else {
      spent := s.spent[acting];
      if mode == PotAfterCall {
        spent := spent + (s.maxSpent - s.spent[acting]);
      }
    }
    size := SizeFor(ratio, base, spent);
  }

  method ModeHere(g: Game, s: State, conf: Fcpa) returns (mode: RaiseMode)
    requires s.For(g)
    ensures mode == ModeOf(conf, s.hand)
  {
    mode := conf.raiseMode;
    if mode == NetOrX {
      var early := WithEarlyRaiseAction(g, s);
      mode := if early then XLastRaise else PotNet;
    }
  }

  /** The raises on offer: each configured ratio, clamped to what is legal, and all-in for a ratio of -1. */
  method RaiseActions(g: Game, s: State, conf: Fcpa, mode: RaiseMode, base: int, lo: int, hi: int)
    returns (raises: seq<Action>)
    requires s.For(g) && ToAct(g, s.hand) && 0 < lo <= hi && mode != NetOrX
    ensures raises == Raises(RaiseSizes(g, s.hand, conf, mode, base, lo, hi, 0))
  {
    ghost var h := s.hand;
    ghost var all := RaiseSizes(g, h, conf, mode, base, lo, hi, 0);
    var acting := s.CurrentPlayer(g);
    hide ToAct, RaiseFor, RaiseSizes, CurrentPlayer;
    var sizes: seq<int> := [];
    for i := 0 to |conf.raiseConfig|
      invariant sizes + RaiseSizes(g, h, conf, mode, base, lo, hi, i) == all
    {
      var more, last := RaiseOf(g, s, conf, mode, base, lo, hi, i, acting);
      SizesStep(g, h, conf, mode, base, lo, hi, i, sizes);
      sizes := sizes + more;
      if last {
        break;
      }
    }
    SizesStep(g, h, conf, mode, base, lo, hi, |conf.raiseConfig|, sizes);
    raises := Raises(sizes);
  }

  lemma SizesStep(g: Game, h: Hand, conf: Fcpa, mode: RaiseMode, base: int, lo: int, hi: int, i: nat, before: seq<int>)
    requires g.Valid() && h.Shape(g) && hi > 0 && i <= |conf.raiseConfig|
    ensures before + RaiseSizes(g, h, conf, mode, base, lo, hi, i) ==
      if i == |conf.raiseConfig| then before
      else
        var (sizes, last) := RaiseFor(g, h, conf, mode, base, lo, hi, i);
        before + sizes + if last then [] else RaiseSizes(g, h, conf, mode, base, lo, hi, i + 1)
  {
    hide RaiseFor;
  }

  method RaiseOf(g: Game, s: State, conf: Fcpa, mode: RaiseMode, base: int, lo: int, hi: int, i: nat, acting: nat)
    returns (sizes: seq<int>, last: bool)
    requires s.For(g) && acting == CurrentPlayer(g, s.hand) && 0 < lo <= hi && mode != NetOrX && i < |conf.raiseConfig|
    ensures (sizes, last) == RaiseFor(g, s.hand, conf, mode, base, lo, hi, i)
  {
    hide WantedSize, BelowFilter, CurrentPlayer;
    var c := conf.raiseConfig[i];
    if !c.IsApplicable(s.numActions[s.round], mode) {
      return [], false;
    }
    if c.ratio == -1.0 {
      return [hi], false;
    }
    var size := WantedRaise(g, s, mode, c.ratio, acting, base);
    if size >= hi {
      return [hi], true;
    }
    if size < lo {
      size := lo;
    }
    if BelowFilter(size, hi, conf.highFilter) {
      return [size], false;
    }
    return [], false;
  }

  lemma CandidatesAreOffered(g: Game, h: Hand, conf: Fcpa)
    requires ToAct(g, h)
    ensures AllOffered(g, h, Candidates(g, h, conf))
  {
    var c, mode := Candidates(g, h, conf), ModeOf(conf, h);
    forall k | 0 <= k < |c| ensures Offered(g, h, c[k]) {
      match (RaiseRange(g, h), RaiseBase(g, h, mode)) {
      case (Some((lo, hi)), Some(base)) => SizesFit(g, h, conf, mode, base, lo, hi, 0);
      case _ =>
      }
    }
  }

  /** The actions a node offers. */
  method GetCandidateActions(g: Game, s: State, conf: Fcpa) returns (valid: seq<Action>, exits: bool)
    requires s.For(g) && ToAct(g, s.hand)
    ensures exits <==> Exits(g, s.hand, conf)
    ensures valid == Candidates(g, s.hand, conf)
  {
    valid, exits := [], false;
    for a := 0 to 3
      invariant a == 0 ==> valid == []
      invariant a == 1 ==> valid == if Strict(g, s.hand, Action(Fold, 0)) then [Action(Fold, 0)] else []
      invariant a == 2 ==>
        valid == (if Strict(g, s.hand, Action(Fold, 0)) then [Action(Fold, 0)] else []) + [Action(Call, 0)]
      invariant a == 3 ==> valid == Candidates(g, s.hand, conf) && !Exits(g, s.hand, conf)
      invariant !exits
    {
      if a < 2 {
        var action := Action(if a == 0 then Fold else Call, 0);
        var code, fixed := s.IsValidAction(g, false, action);
        if code == 1 {
          valid := valid + [action];
        }
      } else {
        var raises;
        raises, exits := RaisesHere(g, s, conf);
        valid := valid + raises;
        if exits {
          return;
        }
      }
    }
  }

  method RaisesHere(g: Game, s: State, conf: Fcpa) returns (raises: seq<Action>, exits: bool)
    requires s.For(g) && ToAct(g, s.hand)
    ensures raises == Raises(SizesHere(g, s.hand, conf)) && (exits <==> Exits(g, s.hand, conf))
  {
    raises, exits := [], false;
    var raiseIsValid, lo, hi := s.RaiseIsValid(g);
    if raiseIsValid {
      var mode := ModeHere(g, s, conf);
      var base := GetRaiseBase(g, s, mode);
      if base.None? {
        return raises, true;
      }
      raises := RaiseActions(g, s, conf, mode, base.value, lo, hi);
    }
  }

  // ---------------------------------------------------------------- in order, without duplicates

  /** actionToCode. */
  function Code(a: Action): int {
    if a.kind.Fold? then -1 else if a.kind.Raise? then a.size else 0
  }

  ghost predicate Sorted(c: seq<Action>) {
    forall i, j :: 0 <= i < j < |c| ==> Code(c[i]) <= Code(c[j])
  }

  ghost predicate Increasing(c: seq<Action>) {
    forall i, j :: 0 <= i < j < |c| ==> Code(c[i]) < Code(c[j])
  }

  /** Sorted by code, as std::sort does. */
  method SortActions(c: seq<Action>) returns (r: seq<Action>)
    ensures Sorted(r) && forall a :: a in r <==> a in c
  {
    r := [];
    for i := 0 to |c|
      invariant Sorted(r) && forall a :: a in r <==> a in c[..i]
    {
      assert c[..i + 1] == c[..i] + [c[i]];
      r := InsertAction(r, c[i]);
    }
    assert c[..|c|] == c;
  }

  method InsertAction(c: seq<Action>, a: Action) returns (r: seq<Action>)
    requires Sorted(c)
    ensures Sorted(r) && forall b :: b in r <==> b in c || b == a
  {
    var k := |c|;
    while k > 0 && Code(a) < Code(c[k - 1])
      invariant 0 <= k <= |c| && forall i :: k <= i < |c| ==> Code(a) < Code(c[i])
    {
      k := k - 1;
    }
    r := Inserted(c, k, a);
    InsertedIsIn(c, k, a);
    InsertedIsSorted(c, k, a, r);
  }

  function Inserted<T>(c: seq<T>, k: nat, a: T): (r: seq<T>)
    requires k <= |c|
    ensures |r| == |c| + 1 && r[k] == a
    ensures forall i :: 0 <= i < k ==> r[i] == c[i]
    ensures forall i :: k < i < |r| ==> r[i] == c[i - 1]
  {
    c[..k] + [a] + c[k..]
  }

  lemma InsertedIsIn<T>(c: seq<T>, k: nat, a: T)
    requires k <= |c|
    ensures forall b :: b in Inserted(c, k, a) <==> b in c || b == a
  {
    assert c == c[..k] + c[k..];
  }

  lemma InsertedIsSorted(c: seq<Action>, k: nat, a: Action, r: seq<Action>)
    requires Sorted(c) && k <= |c| && (forall i :: k <= i < |c| ==> Code(a) < Code(c[i]))
    requires (k > 0 ==> Code(c[k - 1]) <= Code(a))
    requires r == Inserted(c, k, a)
    ensures Sorted(r)
  {
    forall i, j | 0 <= i < j < |r| ensures Code(r[i]) <= Code(r[j]) {
      if i == k {
        assert r[j] == c[j - 1];
      } else if i > k {
        assert r[i] == c[i - 1] && r[j] == c[j - 1];
      } else if j > k {
        assert r[i] == c[i] && r[j] == c[j - 1];
      }
    }
  }

  /** Of sorted actions, one for each code. */
  method RemoveDuplicates(c: seq<Action>) returns (r: seq<Action>)
    requires Sorted(c) && forall i :: 0 <= i < |c| ==> Code(c[i]) > -2
    ensures Increasing(r) && From(r, c)
    ensures SameCodes(c, r)
  {
    r := c;
    HasOwnCodes(c);
    var last, i: nat := -2, 0;
    while i < |r|
      invariant i <= |r| && Sorted(r) && Increasing(r[..i]) && From(r, c) && SameCodes(c, r)
      invariant last == if i == 0 then -2 else Code(r[i - 1])
      invariant forall k :: 0 <= k < |r| ==> Code(r[k]) > -2
      decreases |r| - i
    {
      if Code(r[i]) == last {
        ErasedIsFine(c, r, i);
        r := Erased(r, i);
      } else {
        last := Code(r[i]);
        i := i + 1;
      }
    }
    assert r[..i] == r;
  }

  ghost predicate From(r: seq<Action>, c: seq<Action>) {
    forall a :: a in r ==> a in c
  }

  /** Every code of c is the code of an action in r. */
  ghost predicate SameCodes(c: seq<Action>, r: seq<Action>) {
    forall k: nat :: CodeIn(c, r, k)
  }

  ghost predicate CodeIn(c: seq<Action>, r: seq<Action>, k: nat) {
    k < |c| ==> HasCode(r, Code(c[k]))
  }

  ghost predicate HasCode(r: seq<Action>, code: int) {
    exists i :: 0 <= i < |r| && Code(r[i]) == code
  }

  lemma HasOwnCodes(c: seq<Action>)
    ensures SameCodes(c, c)
  {
    forall k: nat ensures CodeIn(c, c, k) {
      if k < |c| {
        var code := Code(c[k]);
        assert HasCode(c, code);
      }
    }
  }

  /** The vector without element i. */
  function Erased(c: seq<Action>, i: nat): (r: seq<Action>)
    requires i < |c|
  {
    c[..i] + c[i + 1..]
  }

  lemma ErasedIsFine(c: seq<Action>, r: seq<Action>, i: nat)
    requires 0 < i < |r| && Sorted(r) && Increasing(r[..i]) && Code(r[i]) == Code(r[i - 1])
    requires From(r, c) && SameCodes(c, r)
    ensures var e := Erased(r, i);
      && Sorted(e) && Increasing(e[..i]) && e[i - 1] == r[i - 1] && From(e, c) && SameCodes(c, e)
      && forall k :: 0 <= k < |e| ==> e[k] == if k < i then r[k] else r[k + 1]
  {
    var e := Erased(r, i);
    assert e[..i] == r[..i];
    forall k: nat ensures CodeIn(c, e, k) {
      assert CodeIn(c, r, k);
      if k < |c| {
        var j :| 0 <= j < |r| && Code(r[j]) == Code(c[k]);
        var l := if j < i then j else j - 1;
        assert Code(e[l]) == Code(c[k]);
        assert HasCode(e, Code(c[k]));
      }
    }
  }
}
