/**
  Why the basic cells of modules/engine/src/emd.cpp connect all rows and columns, from Russel's plan on and through
  every pivot: so that prices can be found, and the entering slot always closes a loop.
 */
module SpanningTree {
  import opened Transport
  import opened InitialPlan
  import opened Basis
  import opened LoopSearch

  /** No live cell has its row in a and its column outside b, or the other way round. */
  ghost predicate Sealed(xs: seq<Slot>, n: nat, skip: nat, a: set<nat>, b: set<nat>)
    requires n <= |xs|
  {
    forall k: nat :: Live(k, n, skip) ==> (xs[k].i in a <==> xs[k].j in b)
  }

  ghost predicate HasAll(a: set<nat>, n: nat) { forall i: nat :: i < n ==> i in a }

  ghost predicate Holds(a: set<nat>, u: seq<nat>) { forall k :: 0 <= k < |u| ==> u[k] in a }

  ghost predicate HasNone(a: set<nat>, n: nat) { forall i: nat :: i < n ==> i !in a }

  /** The live cells connect n1 rows and n2 columns: no cut separates them. */
  ghost predicate Connected(xs: seq<Slot>, n: nat, skip: nat, n1: nat, n2: nat)
    requires n <= |xs|
  {
    forall a: set<nat>, b: set<nat> :: Sealed(xs, n, skip, a, b) ==>
      (HasAll(a, n1) && HasAll(b, n2)) || (HasNone(a, n1) && HasNone(b, n2))
  }

  // ---------------------------------------------------------------- Russel's plan

  /** Every row and column is connected to one that is open. */
  ghost predicate Hanging(xs: seq<Slot>, u: seq<nat>, v: seq<nat>, n1: nat, n2: nat) {
    forall a: set<nat>, b: set<nat> ::
      Sealed(xs, |xs|, |xs|, a, b) && Holds(a, u) && Holds(b, v) ==> HasAll(a, n1) && HasAll(b, n2)
  }

  lemma HangsAtFirst(u: seq<nat>, v: seq<nat>)
    requires (forall k :: 0 <= k < |u| ==> u[k] == k) && forall k :: 0 <= k < |v| ==> v[k] == k
    ensures Hanging([], u, v, |u|, |v|)
  {
    forall a: set<nat>, b: set<nat> | Sealed([], 0, 0, a, b) && Holds(a, u) && Holds(b, v)
      ensures HasAll(a, |u|) && HasAll(b, |v|)
    {
      forall i: nat | i < |u| ensures i in a { assert u[i] == i; }
      forall j: nat | j < |v| ensures j in b { assert v[j] == j; }
    }
  }

  /** A row or column that is closed hangs on its last cell. */
  lemma HangStep(xs: seq<Slot>, u: seq<nat>, v: seq<nat>, n1: nat, n2: nat, pu: nat, pv: nat, t: real, rowGone: bool)
    requires Hanging(xs, u, v, n1, n2) && NoRepeat(u) && NoRepeat(v) && pu < |u| && pv < |v|
    ensures Hanging(xs + [Slot(u[pu], v[pv], t)], Left(u, pu, rowGone), Left(v, pv, !rowGone), n1, n2)
  {
    var xs', u', v' := xs + [Slot(u[pu], v[pv], t)], Left(u, pu, rowGone), Left(v, pv, !rowGone);
    LeftMeans(u, pu, rowGone);
    LeftMeans(v, pv, !rowGone);
    forall a: set<nat>, b: set<nat> | Sealed(xs', |xs'|, |xs'|, a, b) && Holds(a, u') && Holds(b, v')
      ensures HasAll(a, n1) && HasAll(b, n2)
    {
      HangOne(xs, u, v, n1, n2, pu, pv, t, rowGone, a, b);
    }
  }

  lemma HangOne(xs: seq<Slot>, u: seq<nat>, v: seq<nat>, n1: nat, n2: nat, pu: nat, pv: nat, t: real, rowGone: bool,
                a: set<nat>, b: set<nat>)
    requires Hanging(xs, u, v, n1, n2) && NoRepeat(u) && NoRepeat(v) && pu < |u| && pv < |v|
    requires Sealed(xs + [Slot(u[pu], v[pv], t)], |xs| + 1, |xs| + 1, a, b)
    requires Holds(a, Left(u, pu, rowGone)) && Holds(b, Left(v, pv, !rowGone))
    ensures HasAll(a, n1) && HasAll(b, n2)
  {
    var xs' := xs + [Slot(u[pu], v[pv], t)];
    LeftMeans(u, pu, rowGone);
    LeftMeans(v, pv, !rowGone);
    assert Live(|xs|, |xs'|, |xs'|) && xs'[|xs|] == Slot(u[pu], v[pv], t);
    assert Sealed(xs, |xs|, |xs|, a, b) by {
      forall k: nat | Live(k, |xs|, |xs|) ensures xs[k].i in a <==> xs[k].j in b {
        assert Live(k, |xs'|, |xs'|) && xs'[k] == xs[k];
      }
    }
    assert v[pv] in b && u[pu] in a by {
      if rowGone { assert v[pv] in Left(v, pv, !rowGone); } else { assert u[pu] in Left(u, pu, rowGone); }
    }
    forall k | 0 <= k < |u| ensures u[k] in a { if u[k] != u[pu] { assert u[k] in Left(u, pu, rowGone); } }
    forall k | 0 <= k < |v| ensures v[k] in b { if v[k] != v[pv] { assert v[k] in Left(v, pv, !rowGone); } }
    assert Holds(a, u) && Holds(b, v);
  }

  /** With one row open and no column the cells connect everything. */
  lemma HangsTogether(xs: seq<Slot>, u: seq<nat>, n1: nat, n2: nat)
    requires Hanging(xs, u, [], n1, n2) && |u| == 1 && InGrid(xs, n1, n2)
    ensures Connected(xs, |xs|, |xs|, n1, n2)
  {
    forall a: set<nat>, b: set<nat> | Sealed(xs, |xs|, |xs|, a, b)
      ensures (HasAll(a, n1) && HasAll(b, n2)) || (HasNone(a, n1) && HasNone(b, n2))
    {
      if u[0] in a {
        assert Holds(a, u) && Holds(b, []);
      } else {
        var a', b' := UpTo(n1 + u[0] + 1) - a, UpTo(n2) - b;
        assert Sealed(xs, |xs|, |xs|, a', b') && Holds(a', u) && Holds(b', []);
        assert HasAll(a', n1) && HasAll(b', n2);
        forall i: nat | i < n1 ensures i !in a { assert i in a'; }
        forall j: nat | j < n2 ensures j !in b { assert j in b'; }
      }
    }
  }

  /** Cells count, not amounts; and slots that are not live do not count. */
  lemma SameConnected(xs: seq<Slot>, n: nat, skip: nat, ys: seq<Slot>, n': nat, skip': nat, n1: nat, n2: nat)
    requires n <= |xs| && n' <= |ys| && Connected(xs, n, skip, n1, n2)
    requires forall k: nat :: Live(k, n, skip) ==> Live(k, n', skip') && ys[k].i == xs[k].i && ys[k].j == xs[k].j
    ensures Connected(ys, n', skip', n1, n2)
  {
    forall a: set<nat>, b: set<nat> | Sealed(ys, n', skip', a, b)
      ensures (HasAll(a, n1) && HasAll(b, n2)) || (HasNone(a, n1) && HasNone(b, n2))
    {
      assert Sealed(xs, n, skip, a, b);
    }
  }

  // ---------------------------------------------------------------- a pivot

  /** Along a stretch of a loop, whose cells have row and column on the same side, the side is the same. */
  lemma {:induction false} SameSide(xs: seq<Slot>, loop: seq<nat>, a: set<nat>, b: set<nat>, lo: nat, hi: nat)
    requires Loop(xs, loop) && lo <= hi < |loop|
    requires forall l :: lo <= l <= hi ==> (xs[loop[l]].i in a <==> xs[loop[l]].j in b)
    ensures xs[loop[lo]].i in a <==> xs[loop[hi]].i in a
  {
    if lo < hi {
      SameSide(xs, loop, a, b, lo, hi - 1);
      assert JoinedAt(xs, loop, hi);
    }
  }

  /** A giver of a loop can leave: the rest of the loop still connects its row and its column. */
  lemma LeavingKeepsConnected(xs: seq<Slot>, loop: seq<nat>, at: nat, n1: nat, n2: nat)
    requires Loop(xs, loop) && at < |loop| && at % 2 == 1 && Connected(xs, |xs|, |xs|, n1, n2)
    ensures Connected(xs, |xs|, loop[at], n1, n2)
  {
    forall a: set<nat>, b: set<nat> | Sealed(xs, |xs|, loop[at], a, b)
      ensures (HasAll(a, n1) && HasAll(b, n2)) || (HasNone(a, n1) && HasNone(b, n2))
    {
      forall l | 0 <= l < |loop| && l != at ensures xs[loop[l]].i in a <==> xs[loop[l]].j in b {
        assert Live(loop[l], |xs|, loop[at]);
      }
      var last := |loop| - 1;
      SameSide(xs, loop, a, b, 0, at - 1);
      assert JoinedAt(xs, loop, at);
      if at < last {
        SameSide(xs, loop, a, b, at + 1, last);
        assert JoinedAt(xs, loop, at + 1);
      }
      assert xs[loop[at]].i in a <==> xs[loop[at]].j in b;
      assert Sealed(xs, |xs|, |xs|, a, b);
    }
  }

  // ---------------------------------------------------------------- there is a loop

  /** A path from the entering slot whose last slot leads to row i, or to column j. */
  ghost predicate ToRow(xs: seq<Slot>, enter: nat, path: seq<nat>, i: nat) {
    && Path(xs, enter, path) && Inside(path, |xs|) && path != [] && path[0] == enter
    && |path| % 2 == 1 && xs[path[|path| - 1]].i == i
  }

  ghost predicate ToCol(xs: seq<Slot>, enter: nat, path: seq<nat>, j: nat) {
    && Path(xs, enter, path) && Inside(path, |xs|) && path != [] && path[0] == enter
    && |path| % 2 == 0 && xs[path[|path| - 1]].j == j
  }

  lemma Shorter(xs: seq<Slot>, enter: nat, path: seq<nat>, d: nat)
    requires Path(xs, enter, path) && Inside(path, |xs|) && 0 < d <= |path|
    ensures Path(xs, enter, path[..d]) && Inside(path[..d], |xs|)
  {
    forall k: nat ensures JoinedAt(xs, path[..d], k) { assert JoinedAt(xs, path, k); }
  }

  lemma Extends(xs: seq<Slot>, enter: nat, path: seq<nat>, k: nat)
    requires Path(xs, enter, path) && Inside(path, |xs|) && path != [] && k < |xs| && k !in path
    requires if |path| % 2 == 1 then xs[k].i == xs[path[|path| - 1]].i else xs[k].j == xs[path[|path| - 1]].j
    ensures Path(xs, enter, path + [k]) && Inside(path + [k], |xs|)
  {
    PathStep(xs, enter, path, |path|, k);
    assert path[..|path|] == path;
  }

  /** A cell of a row that a path leads to: a path leads to its column. */
  lemma AcrossToCol(xs: seq<Slot>, enter: nat, path: seq<nat>, k: nat)
    requires k < |xs| && k != enter && ToRow(xs, enter, path, xs[k].i)
    ensures exists q :: ToCol(xs, enter, q, xs[k].j)
  {
    if k in path {
      var d :| 0 <= d < |path| && path[d] == k;
      assert JoinedAt(xs, path, d);
      var e := if d % 2 == 1 then d + 1 else d;
      Shorter(xs, enter, path, e);
      assert ToCol(xs, enter, path[..e], xs[k].j);
    } else {
      Extends(xs, enter, path, k);
      assert ToCol(xs, enter, path + [k], xs[k].j);
    }
  }

  /** A cell of a column that a path leads to: a path leads to its row. */
  lemma DownToRow(xs: seq<Slot>, enter: nat, path: seq<nat>, k: nat)
    requires k < |xs| && k != enter && ToCol(xs, enter, path, xs[k].j)
    ensures exists q :: ToRow(xs, enter, q, xs[k].i)
  {
    if k in path {
      var d :| 0 <= d < |path| && path[d] == k;
      assert JoinedAt(xs, path, d);
      var e := if d % 2 == 0 then d + 1 else d;
      Shorter(xs, enter, path, e);
      assert ToRow(xs, enter, path[..e], xs[k].i);
    } else {
      Extends(xs, enter, path, k);
      assert ToRow(xs, enter, path + [k], xs[k].i);
    }
  }

  /** A slot entering a basis that connects everything closes a loop. */
  lemma LoopExists(xs: seq<Slot>, enter: nat, n1: nat, n2: nat) returns (loop: seq<nat>)
    requires enter < |xs| && InGrid(xs, n1, n2) && Connected(xs, |xs|, enter, n1, n2)
    ensures Loop(xs, loop) && loop[0] == enter
  {
    hide ToRow, ToCol, Loop, Connected;
    var a := set i | i in UpTo(n1) && exists p :: ToRow(xs, enter, p, i);
    var b := set j | j in UpTo(n2) && exists p :: ToCol(xs, enter, p, j);
    forall k: nat | Live(k, |xs|, enter) ensures xs[k].i in a <==> xs[k].j in b {
      if xs[k].i in a {
        var p :| ToRow(xs, enter, p, xs[k].i);
        AcrossToCol(xs, enter, p, k);
      } else if xs[k].j in b {
        var p :| ToCol(xs, enter, p, xs[k].j);
        DownToRow(xs, enter, p, k);
      }
    }
    assert Sealed(xs, |xs|, enter, a, b);
    EnterStarts(xs, enter);
    assert xs[enter].i in a;
    assert HasAll(b, n2) by { ConnectedHasAll(xs, enter, n1, n2, a, b, xs[enter].i); }
    assert xs[enter].j in b;
    loop :| ToCol(xs, enter, loop, xs[enter].j);
    ColumnCloses(xs, enter, loop);
  }

  lemma ConnectedHasAll(xs: seq<Slot>, enter: nat, n1: nat, n2: nat, a: set<nat>, b: set<nat>, i: nat)
    requires Connected(xs, |xs|, enter, n1, n2) && Sealed(xs, |xs|, enter, a, b) && i in a && i < n1
    ensures HasAll(b, n2)
  {
  }

  lemma EnterStarts(xs: seq<Slot>, enter: nat)
    requires enter < |xs|
    ensures ToRow(xs, enter, [enter], xs[enter].i)
  {
  }

  lemma ColumnCloses(xs: seq<Slot>, enter: nat, loop: seq<nat>)
    requires enter < |xs| && ToCol(xs, enter, loop, xs[enter].j)
    ensures Loop(xs, loop) && loop[0] == enter
  {
    PathCloses(xs, enter, loop);
  }
}
