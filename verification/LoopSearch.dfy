/**
  The search of EMD::FindLoop in modules/engine/src/emd.cpp: depth first along row and column chains, backing up
  when a chain has no unused slot left.  Why it ends, and what its path is.
 */
module LoopSearch {
  import opened Transport
  import opened InitialPlan
  import opened Basis

  /** The chain in which the slot at depth d of the path was found. */
  function ChainAt(xs: seq<Slot>, rows: seq<seq<nat>>, cols: seq<seq<nat>>, k: nat, d: nat): seq<nat>
    requires k < |xs| && InGrid(xs, |rows|, |cols|)
  {
    if d % 2 == 1 then rows[xs[k].i] else cols[xs[k].j]
  }

  function IndexOf(chain: seq<nat>, k: nat): (p: nat)
    ensures k in chain ==> p < |chain| && chain[p] == k
    ensures p <= |chain|
  {
    if chain == [] || chain[0] == k then 0 else 1 + IndexOf(chain[1..], k)
  }

  lemma {:induction false} IndexOfAt(chain: seq<nat>, p: nat)
    requires NoRepeat(chain) && p < |chain|
    ensures IndexOf(chain, chain[p]) == p
  {
    if p > 0 { IndexOfAt(chain[1..], p - 1); }
  }

  /** How many slots come after slot k in its chain. */
  function Remaining(xs: seq<Slot>, rows: seq<seq<nat>>, cols: seq<seq<nat>>, k: nat, d: nat): nat
    requires k < |xs| && InGrid(xs, |rows|, |cols|)
  {
    var chain := ChainAt(xs, rows, cols, k, d);
    |chain| - IndexOf(chain, k)
  }

  // ---------------------------------------------------------------- the rank of a path

  function Power(b: nat, e: nat): (p: nat)
    ensures b > 0 ==> p > 0
  {
    if e == 0 then 1 else Times(b, Power(b, e - 1))
  }

  function Times(a: nat, b: nat): (p: nat)
    ensures a > 0 && b > 0 ==> p > 0
  {
    if a == 0 then 0 else b + Times(a - 1, b)
  }

  lemma {:induction false} TimesGrows(a: nat, a': nat, b: nat)
    requires a <= a'
    ensures Times(a, b) <= Times(a', b)
  {
    if a < a' { TimesGrows(a, a' - 1, b); }
  }

  /** The number whose digits in base n + 2 are digits. */
  function Rank(digits: seq<nat>, n: nat): nat {
    if digits == [] then 0 else Times(digits[0], Power(n + 2, |digits| - 1)) + Rank(digits[1..], n)
  }

  lemma {:induction false} RankBound(digits: seq<nat>, n: nat)
    requires forall d :: 0 <= d < |digits| ==> digits[d] <= n + 1
    ensures Rank(digits, n) < Power(n + 2, |digits|)
  {
    if digits != [] {
      RankBound(digits[1..], n);
      TimesGrows(digits[0], n + 1, Power(n + 2, |digits| - 1));
    }
  }

  /** A smaller digit outweighs whatever comes after it. */
  lemma {:induction false} RankDrops(a: seq<nat>, b: seq<nat>, d: nat, n: nat)
    requires |a| == |b| && d < |a| && a[..d] == b[..d] && b[d] < a[d]
    requires forall e :: 0 <= e < |a| ==> a[e] <= n + 1 && b[e] <= n + 1
    ensures Rank(b, n) < Rank(a, n)
  {
    if d == 0 {
      RankBound(b[1..], n);
      TimesGrows(b[0] + 1, a[0], Power(n + 2, |a| - 1));
    } else {
      assert a[0] == a[..d][0] && b[0] == b[..d][0];
      assert a[1..][..d - 1] == a[..d][1..] && b[1..][..d - 1] == b[..d][1..];
      RankDrops(a[1..], b[1..], d - 1, n);
    }
  }

  predicate Inside(path: seq<nat>, n: nat) {
    forall d :: 0 <= d < |path| ==> path[d] < n
  }

  /** What is left to try at every depth; nothing has been tried below the path. */
  ghost function Digits(xs: seq<Slot>, rows: seq<seq<nat>>, cols: seq<seq<nat>>, path: seq<nat>): (r: seq<nat>)
    requires InGrid(xs, |rows|, |cols|) && Inside(path, |xs|)
    ensures |r| == |xs| + 1
    ensures forall d :: 0 <= d < |r| ==>
      r[d] == if d < |path| then Remaining(xs, rows, cols, path[d], d) else |xs| + 1
  {
    seq(|xs| + 1, d requires 0 <= d => if d < |path| then Remaining(xs, rows, cols, path[d], d) else |xs| + 1)
  }

  lemma {:induction false} ShortList(chain: seq<nat>, n: nat)
    requires NoRepeat(chain) && Inside(chain, n)
    ensures |chain| <= n
  {
    var s := set k | 0 <= k < |chain| :: chain[k];
    assert s <= UpTo(n);
    UpToSize(n);
    SetSize(chain, s);
    SubsetSize(s, UpTo(n));
  }

  function UpTo(n: nat): (s: set<nat>)
    ensures forall k: nat :: k in s <==> k < n
  {
    if n == 0 then {} else UpTo(n - 1) + {n - 1}
  }

  lemma {:induction false} UpToSize(n: nat)
    ensures |UpTo(n)| == n
  {
    if n > 0 {
      UpToSize(n - 1);
      assert UpTo(n) == UpTo(n - 1) + {n - 1};
    }
  }

  lemma {:induction false} SetSize(chain: seq<nat>, s: set<nat>)
    requires NoRepeat(chain) && s == set k | 0 <= k < |chain| :: chain[k]
    ensures |s| == |chain|
  {
    if chain != [] {
      var m := |chain| - 1;
      var t := set k | 0 <= k < m :: chain[..m][k];
      SetSize(chain[..m], t);
      assert s == t + {chain[m]};
      assert chain[m] !in t;
    }
  }

  lemma {:induction false} SubsetSize(a: set<nat>, b: set<nat>)
    requires a <= b
    ensures |a| <= |b| && (|a| == |b| ==> a == b)
  {
    assert b == a + (b - a);
  }

  // ---------------------------------------------------------------- the path

  /** A path of different slots that alternate, starting in the column of the entering slot. */
  ghost predicate Path(xs: seq<Slot>, enter: nat, path: seq<nat>) {
    && enter < |xs| && NoRepeat(path) && Alternates(xs, path)
    && (path != [] ==> xs[path[0]].j == xs[enter].j)
  }

  /** Going deeper lowers the rank. */
  lemma DeeperDrops(xs: seq<Slot>, rows: seq<seq<nat>>, cols: seq<seq<nat>>, path: seq<nat>, next: nat)
    requires InGrid(xs, |rows|, |cols|) && Linked(xs, |xs|, |xs|, rows, cols)
    requires NoRepeat(path) && Inside(path, |xs|) && next < |xs| && next !in path
    ensures Rank(Digits(xs, rows, cols, path + [next]), |xs|) < Rank(Digits(xs, rows, cols, path), |xs|)
  {
    var a, b := Digits(xs, rows, cols, path), Digits(xs, rows, cols, path + [next]);
    assert NoRepeat(path + [next]) && Inside(path + [next], |xs|);
    ShortList(path + [next], |xs|);
    DigitsBound(xs, rows, cols, path);
    DigitsBound(xs, rows, cols, path + [next]);
    var d := |path|;
    RemainingBound(xs, rows, cols, next, d);
    assert a[..d] == b[..d];
    RankDrops(a, b, d, |xs|);
  }

  lemma InsideOf(chain: seq<nat>, n: nat)
    requires forall k: nat :: k in chain ==> k < n
    ensures Inside(chain, n)
  {
    forall d | 0 <= d < |chain| ensures chain[d] < n { assert chain[d] in chain; }
  }

  lemma RemainingBound(xs: seq<Slot>, rows: seq<seq<nat>>, cols: seq<seq<nat>>, k: nat, d: nat)
    requires InGrid(xs, |rows|, |cols|) && Linked(xs, |xs|, |xs|, rows, cols) && k < |xs|
    ensures Remaining(xs, rows, cols, k, d) <= |xs|
  {
    assert RowChain(xs, |xs|, |xs|, xs[k].i, rows[xs[k].i]);
    assert ColChain(xs, |xs|, |xs|, xs[k].j, cols[xs[k].j]);
    InsideOf(rows[xs[k].i], |xs|);
    InsideOf(cols[xs[k].j], |xs|);
    ShortList(rows[xs[k].i], |xs|);
    ShortList(cols[xs[k].j], |xs|);
  }

  lemma DigitsBound(xs: seq<Slot>, rows: seq<seq<nat>>, cols: seq<seq<nat>>, path: seq<nat>)
    requires InGrid(xs, |rows|, |cols|) && Linked(xs, |xs|, |xs|, rows, cols)
    requires Inside(path, |xs|)
    ensures forall d :: 0 <= d < |xs| + 1 ==> Digits(xs, rows, cols, path)[d] <= |xs| + 1
  {
    forall d | 0 <= d < |xs| + 1 ensures Digits(xs, rows, cols, path)[d] <= |xs| + 1 {
      if d < |path| { RemainingBound(xs, rows, cols, path[d], d); }
    }
  }

  /** Trying the next slot of a chain, after backing up, lowers the rank. */
  lemma NextDrops(xs: seq<Slot>, rows: seq<seq<nat>>, cols: seq<seq<nat>>, path: seq<nat>, d: nat, next: nat)
    requires InGrid(xs, |rows|, |cols|) && Linked(xs, |xs|, |xs|, rows, cols)
    requires NoRepeat(path) && d < |path| && next < |xs| && Inside(path, |xs|)
    requires Remaining(xs, rows, cols, next, d) < Remaining(xs, rows, cols, path[d], d)
    ensures Rank(Digits(xs, rows, cols, path[..d] + [next]), |xs|) < Rank(Digits(xs, rows, cols, path), |xs|)
  {
    var path' := path[..d] + [next];
    ShortList(path, |xs|);
    var a, b := Digits(xs, rows, cols, path), Digits(xs, rows, cols, path');
    DigitsBound(xs, rows, cols, path);
    DigitsBound(xs, rows, cols, path');
    assert a[..d] == b[..d];
    RankDrops(a, b, d, |xs|);
  }

  /** A slot later in the same chain has fewer slots after it. */
  lemma LaterRemains(xs: seq<Slot>, rows: seq<seq<nat>>, cols: seq<seq<nat>>, k: nat, d: nat, p: nat)
    requires InGrid(xs, |rows|, |cols|) && Linked(xs, |xs|, |xs|, rows, cols) && k < |xs|
    requires IndexOf(ChainAt(xs, rows, cols, k, d), k) < p < |ChainAt(xs, rows, cols, k, d)|
    ensures var next := ChainAt(xs, rows, cols, k, d)[p];
      && next < |xs| && (if d % 2 == 1 then xs[next].i == xs[k].i else xs[next].j == xs[k].j)
      && Remaining(xs, rows, cols, next, d) < Remaining(xs, rows, cols, k, d)
  {
    var chain := ChainAt(xs, rows, cols, k, d);
    assert RowChain(xs, |xs|, |xs|, xs[k].i, rows[xs[k].i]);
    assert ColChain(xs, |xs|, |xs|, xs[k].j, cols[xs[k].j]);
    assert chain[p] in chain;
    IndexOfAt(chain, p);
  }

  /** The path up to depth d, and then another slot of the same chain. */
  lemma PathStep(xs: seq<Slot>, enter: nat, path: seq<nat>, d: nat, next: nat)
    requires Path(xs, enter, path) && Inside(path, |xs|) && d <= |path| && next < |xs| && next !in path[..d]
    requires d == 0 ==> xs[next].j == xs[enter].j
    requires d > 0 ==> if d % 2 == 1 then xs[next].i == xs[path[d - 1]].i else xs[next].j == xs[path[d - 1]].j
    ensures Path(xs, enter, path[..d] + [next]) && Inside(path[..d] + [next], |xs|)
  {
    var path' := path[..d] + [next];
    forall k: nat ensures JoinedAt(xs, path', k) { assert JoinedAt(xs, path, k); }
  }

  /** In a path, the slot at depth d shares its row or column with the one before. */
  lemma SameChain(xs: seq<Slot>, enter: nat, path: seq<nat>, d: nat, next: nat)
    requires Path(xs, enter, path) && Inside(path, |xs|) && d < |path| && next < |xs|
    requires if d % 2 == 1 then xs[next].i == xs[path[d]].i else xs[next].j == xs[path[d]].j
    ensures d == 0 ==> xs[next].j == xs[enter].j
    ensures d > 0 ==> if d % 2 == 1 then xs[next].i == xs[path[d - 1]].i else xs[next].j == xs[path[d - 1]].j
  {
    assert JoinedAt(xs, path, d);
  }

  /** A path of even length that has come back to the entering slot's column is a loop. */
  lemma PathCloses(xs: seq<Slot>, enter: nat, path: seq<nat>)
    requires Path(xs, enter, path) && Inside(path, |xs|) && path != [] && |path| % 2 == 0
    requires xs[path[|path| - 1]].j == xs[enter].j
    ensures Loop(xs, path)
  {
  }

  /** Taking the next slot at depth d keeps a path, of lower rank. */
  lemma BackedUp(xs: seq<Slot>, rows: seq<seq<nat>>, cols: seq<seq<nat>>, enter: nat, path: seq<nat>, d: nat, next: nat)
    requires InGrid(xs, |rows|, |cols|) && Linked(xs, |xs|, |xs|, rows, cols)
    requires Path(xs, enter, path) && Inside(path, |xs|) && d < |path| && next < |xs| && next !in path[..d]
    requires if d % 2 == 1 then xs[next].i == xs[path[d]].i else xs[next].j == xs[path[d]].j
    requires Remaining(xs, rows, cols, next, d) < Remaining(xs, rows, cols, path[d], d)
    ensures Path(xs, enter, path[..d] + [next]) && Inside(path[..d] + [next], |xs|)
    ensures Rank(Digits(xs, rows, cols, path[..d] + [next]), |xs|) < Rank(Digits(xs, rows, cols, path), |xs|)
  {
    SameChain(xs, enter, path, d, next);
    PathStep(xs, enter, path, d, next);
    NextDrops(xs, rows, cols, path, d, next);
  }

  // ---------------------------------------------------------------- the search misses no loop

  predicate SameLine(xs: seq<Slot>, k: nat, l: nat, d: nat)
    requires k < |xs| && l < |xs|
  {
    if d % 2 == 1 then xs[k].i == xs[l].i else xs[k].j == xs[l].j
  }

  /** Up to depth d the path is the target's; there the target's slot is still to come in the chain. */
  ghost predicate AheadAt(xs: seq<Slot>, rows: seq<seq<nat>>, cols: seq<seq<nat>>, path: seq<nat>, target: seq<nat>,
                          d: nat)
    requires InGrid(xs, |rows|, |cols|) && Inside(path, |xs|) && Inside(target, |xs|)
  {
    && 1 <= d < |path| && d < |target| && path[..d] == target[..d]
    && Remaining(xs, rows, cols, target[d], d) < Remaining(xs, rows, cols, path[d], d)
  }

  /** The search has not passed the target: it is on the way to it, or will get there after backing up. */
  ghost predicate Ahead(xs: seq<Slot>, rows: seq<seq<nat>>, cols: seq<seq<nat>>, path: seq<nat>, target: seq<nat>)
    requires InGrid(xs, |rows|, |cols|) && Inside(path, |xs|) && Inside(target, |xs|)
  {
    (path != [] && path <= target) || exists d: nat :: AheadAt(xs, rows, cols, path, target, d)
  }

  /** Slot next is the first of its chain that is not in the path. */
  ghost predicate FirstFree(xs: seq<Slot>, rows: seq<seq<nat>>, cols: seq<seq<nat>>, path: seq<nat>, next: nat, d: nat)
    requires InGrid(xs, |rows|, |cols|) && next < |xs|
  {
    forall k: nat :: k < |xs| && k !in path && SameLine(xs, k, next, d) ==>
      Remaining(xs, rows, cols, k, d) <= Remaining(xs, rows, cols, next, d)
  }

  lemma SamePlace(xs: seq<Slot>, rows: seq<seq<nat>>, cols: seq<seq<nat>>, k: nat, l: nat, d: nat)
    requires InGrid(xs, |rows|, |cols|) && Linked(xs, |xs|, |xs|, rows, cols) && k < |xs| && l < |xs|
    requires SameLine(xs, k, l, d)
    requires Remaining(xs, rows, cols, k, d) == Remaining(xs, rows, cols, l, d)
    ensures k == l
  {
    assert RowChain(xs, |xs|, |xs|, xs[k].i, rows[xs[k].i]);
    assert ColChain(xs, |xs|, |xs|, xs[k].j, cols[xs[k].j]);
    assert Live(k, |xs|, |xs|) && Live(l, |xs|, |xs|);
  }

  /** Where the target goes on from a path that is on the way to it. */
  lemma TargetNext(xs: seq<Slot>, path: seq<nat>, target: seq<nat>)
    requires Loop(xs, target) && path != [] && path <= target && |path| < |target| && Inside(path, |xs|)
    ensures target[|path|] < |xs| && target[|path|] !in path
    ensures SameLine(xs, target[|path|], path[|path| - 1], |path|)
  {
    assert JoinedAt(xs, target, |path|);
  }

  /** Going deeper by the first free slot keeps the target ahead. */
  lemma AheadDeeper(xs: seq<Slot>, rows: seq<seq<nat>>, cols: seq<seq<nat>>, path: seq<nat>, target: seq<nat>,
                    next: nat)
    requires InGrid(xs, |rows|, |cols|) && Linked(xs, |xs|, |xs|, rows, cols) && Inside(path, |xs|)
    requires Inside(target, |xs|)
    requires Loop(xs, target) && Ahead(xs, rows, cols, path, target) && path != [] && path != target && next < |xs|
    requires SameLine(xs, next, path[|path| - 1], |path|) && FirstFree(xs, rows, cols, path, next, |path|)
    ensures Ahead(xs, rows, cols, path + [next], target)
  {
    if path <= target {
      TargetNext(xs, path, target);
      TargetDeeper(xs, rows, cols, path, target, next);
    } else {
      var e: nat :| AheadAt(xs, rows, cols, path, target, e);
      assert (path + [next])[..e] == path[..e];
      assert AheadAt(xs, rows, cols, path + [next], target, e);
    }
  }

  lemma TargetDeeper(xs: seq<Slot>, rows: seq<seq<nat>>, cols: seq<seq<nat>>, path: seq<nat>, target: seq<nat>,
                     next: nat)
    requires InGrid(xs, |rows|, |cols|) && Linked(xs, |xs|, |xs|, rows, cols) && Inside(path, |xs|)
    requires Inside(target, |xs|)
    requires path != [] && path <= target && |path| < |target| && target[|path|] !in path && next < |xs|
    requires SameLine(xs, next, path[|path| - 1], |path|) && SameLine(xs, target[|path|], path[|path| - 1], |path|)
    requires FirstFree(xs, rows, cols, path, next, |path|)
    ensures Ahead(xs, rows, cols, path + [next], target)
  {
    hide Linked;
    var path', d := path + [next], |path|;
    var k := target[d];
    assert SameLine(xs, k, next, d);
    assert Remaining(xs, rows, cols, k, d) <= Remaining(xs, rows, cols, next, d);
    if Remaining(xs, rows, cols, k, d) == Remaining(xs, rows, cols, next, d) {
      SamePlace(xs, rows, cols, k, next, d);
      assert path' <= target;
    } else {
      assert path'[..d] == path == target[..d];
      assert AheadAt(xs, rows, cols, path', target, d);
    }
  }

  /** A path that cannot go deeper is not on the way to the target. */
  lemma AheadAbove(xs: seq<Slot>, rows: seq<seq<nat>>, cols: seq<seq<nat>>, path: seq<nat>, target: seq<nat>)
    requires InGrid(xs, |rows|, |cols|) && Inside(path, |xs|) && Inside(target, |xs|)
    requires Loop(xs, target) && Ahead(xs, rows, cols, path, target) && path != [] && path != target
    requires forall k: nat :: k < |xs| && SameLine(xs, k, path[|path| - 1], |path|) ==> k in path
    ensures exists d: nat :: AheadAt(xs, rows, cols, path, target, d)
  {
    if path <= target { TargetNext(xs, path, target); }
  }

  /** Slot next is the first free one after slot k in their chain. */
  ghost predicate NextFree(xs: seq<Slot>, rows: seq<seq<nat>>, cols: seq<seq<nat>>, path: seq<nat>, k: nat, next: nat,
                           d: nat)
    requires InGrid(xs, |rows|, |cols|) && next < |xs| && k < |xs|
  {
    forall l: nat :: l < |xs| && l !in path && SameLine(xs, l, k, d) ==>
      Remaining(xs, rows, cols, l, d) >= Remaining(xs, rows, cols, k, d) ||
      Remaining(xs, rows, cols, l, d) <= Remaining(xs, rows, cols, next, d)
  }

  lemma TargetLater(xs: seq<Slot>, rows: seq<seq<nat>>, cols: seq<seq<nat>>, enter: nat, path: seq<nat>,
                    target: seq<nat>, d: nat)
    requires InGrid(xs, |rows|, |cols|) && Path(xs, enter, path) && Inside(path, |xs|) && Inside(target, |xs|)
    requires Loop(xs, target) && AheadAt(xs, rows, cols, path, target, d)
    ensures target[d] !in path[..d + 1] && SameLine(xs, target[d], path[d], d)
  {
    assert JoinedAt(xs, target, d) && JoinedAt(xs, path, d);
    assert target[d - 1] == target[..d][d - 1] == path[..d][d - 1] == path[d - 1];
    assert path[..d + 1] == target[..d] + [path[d]];
    assert target[d] !in target[..d];
  }

  /** Taking the next free slot at depth d keeps the target ahead. */
  lemma AheadNext(xs: seq<Slot>, rows: seq<seq<nat>>, cols: seq<seq<nat>>, enter: nat, path: seq<nat>, target: seq<nat>,
                  d: nat, e: nat, next: nat)
    requires InGrid(xs, |rows|, |cols|) && Linked(xs, |xs|, |xs|, rows, cols)
    requires Path(xs, enter, path) && Inside(path, |xs|) && Inside(target, |xs|) && Loop(xs, target)
    requires AheadAt(xs, rows, cols, path, target, e) && e <= d < |path| && next < |xs|
    requires SameLine(xs, next, path[d], d) && NextFree(xs, rows, cols, path[..d + 1], path[d], next, d)
    ensures Inside(path[..d] + [next], |xs|) && Ahead(xs, rows, cols, path[..d] + [next], target)
  {
    hide Linked, Loop, Path, JoinedAt;
    var path' := path[..d] + [next];
    if e < d {
      assert path'[..e] == path[..e];
      assert AheadAt(xs, rows, cols, path', target, e);
    } else {
      TargetLater(xs, rows, cols, enter, path, target, d);
      assert path'[..d] == path[..d];
      if Remaining(xs, rows, cols, target[d], d) == Remaining(xs, rows, cols, next, d) {
        SamePlace(xs, rows, cols, target[d], next, d);
        assert path' == target[..d + 1];
      } else {
        assert AheadAt(xs, rows, cols, path', target, d);
      }
    }
  }

  /** All that going on to the first free slot does: the path stays one, it ranks lower, and the target lies ahead. */
  lemma GoDeeper(xs: seq<Slot>, rows: seq<seq<nat>>, cols: seq<seq<nat>>, enter: nat, path: seq<nat>, target: seq<nat>,
                 next: nat)
    requires InGrid(xs, |rows|, |cols|) && Linked(xs, |xs|, |xs|, rows, cols) && Inside(target, |xs|)
    requires Path(xs, enter, path) && Inside(path, |xs|) && Loop(xs, target) && Ahead(xs, rows, cols, path, target)
    requires path != [] && path != target && next < |xs| && next !in path
    requires SameLine(xs, next, path[|path| - 1], |path|) && FirstFree(xs, rows, cols, path, next, |path|)
    ensures Path(xs, enter, path + [next]) && Inside(path + [next], |xs|)
    ensures Ahead(xs, rows, cols, path + [next], target)
    ensures Rank(Digits(xs, rows, cols, path + [next]), |xs|) < Rank(Digits(xs, rows, cols, path), |xs|)
  {
    hide Loop, Ahead, FirstFree, Rank, Linked, InGrid;
    assert path[..|path|] == path;
    PathStep(xs, enter, path, |path|, next);
    DeeperDrops(xs, rows, cols, path, next);
    AheadDeeper(xs, rows, cols, path, target, next);
  }
}
