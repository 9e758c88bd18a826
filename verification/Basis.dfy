/**
  The basis of modules/engine/src/emd.cpp: slots threaded into a chain for every row and every column,
  with one slot left empty.
 */
module Basis {
  import opened Transport
  import opened InitialPlan

  /** The slots below n except skip. */
  ghost predicate Live(k: nat, n: nat, skip: nat) { k < n && k != skip }

  /** rows and cols chain the live slots by their rows and columns, each slot once. */
  ghost predicate Linked(xs: seq<Slot>, n: nat, skip: nat, rows: seq<seq<nat>>, cols: seq<seq<nat>>) {
    && n <= |xs|
    && (forall i :: 0 <= i < |rows| ==> RowChain(xs, n, skip, i, rows[i]))
    && forall j :: 0 <= j < |cols| ==> ColChain(xs, n, skip, j, cols[j])
  }

  ghost predicate RowChain(xs: seq<Slot>, n: nat, skip: nat, i: nat, chain: seq<nat>)
    requires n <= |xs|
  {
    NoRepeat(chain) && forall k: nat :: k in chain <==> Live(k, n, skip) && xs[k].i == i
  }

  ghost predicate ColChain(xs: seq<Slot>, n: nat, skip: nat, j: nat, chain: seq<nat>)
    requires n <= |xs|
  {
    NoRepeat(chain) && forall k: nat :: k in chain <==> Live(k, n, skip) && xs[k].j == j
  }

  /** Some live slot stands at cell (i, j). */
  ghost predicate Used(xs: seq<Slot>, n: nat, skip: nat, i: nat, j: nat)
    requires n <= |xs|
  {
    exists k: nat :: Live(k, n, skip) && xs[k].i == i && xs[k].j == j
  }

  /** No two live slots stand at the same cell. */
  ghost predicate Apart(xs: seq<Slot>, n: nat, skip: nat)
    requires n <= |xs|
  {
    forall k: nat, l: nat :: Live(k, n, skip) && Live(l, n, skip) && k != l ==> xs[k].i != xs[l].i || xs[k].j != xs[l].j
  }

  // ---------------------------------------------------------------- a slot enters or leaves

  function Insert(chains: seq<seq<nat>>, i: nat, k: nat): (r: seq<seq<nat>>)
    requires i < |chains|
    ensures |r| == |chains|
  {
    chains[i := [k] + chains[i]]
  }

  /** The chain without slot k. */
  function Unlink(chain: seq<nat>, k: nat): seq<nat> {
    if chain == [] then []
    else if chain[0] == k then chain[1..]
    else [chain[0]] + Unlink(chain[1..], k)
  }

  lemma ConsNoRepeat(k: nat, chain: seq<nat>)
    requires NoRepeat(chain) && k !in chain
    ensures NoRepeat([k] + chain)
    ensures forall l: nat :: l in [k] + chain <==> l == k || l in chain
  {
  }

  lemma {:induction false} UnlinkMeans(chain: seq<nat>, k: nat)
    requires NoRepeat(chain)
    ensures NoRepeat(Unlink(chain, k)) && forall l: nat :: l in Unlink(chain, k) <==> l in chain && l != k
  {
    if chain != [] {
      var rest := chain[1..];
      assert chain == [chain[0]] + rest;
      assert chain[0] !in rest;
      if chain[0] != k {
        UnlinkMeans(rest, k);
        ConsNoRepeat(chain[0], Unlink(rest, k));
      }
    }
  }

  /** Slot k, whatever it held, takes its place in the chains of its row and column. */
  lemma LinkStep(xs: seq<Slot>, n: nat, k: nat, rows: seq<seq<nat>>, cols: seq<seq<nat>>, s: Slot, n': nat, skip': nat)
    requires Linked(xs, n, k, rows, cols) && k < |xs| && s.i < |rows| && s.j < |cols| && n <= n' <= |xs|
    requires forall l: nat :: Live(l, n', skip') <==> Live(l, n, k) || l == k
    ensures Linked(xs[k := s], n', skip', Insert(rows, s.i, k), Insert(cols, s.j, k))
  {
    var xs', rows', cols' := xs[k := s], Insert(rows, s.i, k), Insert(cols, s.j, k);
    forall i: nat | i < |rows| ensures RowChain(xs', n', skip', i, rows'[i]) {
      assert RowChain(xs, n, k, i, rows[i]);
      ConsNoRepeat(k, rows[i]);
    }
    forall j: nat | j < |cols| ensures ColChain(xs', n', skip', j, cols'[j]) {
      assert ColChain(xs, n, k, j, cols[j]);
      ConsNoRepeat(k, cols[j]);
    }
  }

  lemma UnlinkStep(xs: seq<Slot>, n: nat, k: nat, rows: seq<seq<nat>>, cols: seq<seq<nat>>)
    requires Linked(xs, n, n, rows, cols) && k < n && xs[k].i < |rows| && xs[k].j < |cols|
    ensures var s := xs[k];
      Linked(xs, n, k, rows[s.i := Unlink(rows[s.i], k)], cols[s.j := Unlink(cols[s.j], k)])
  {
    var s := xs[k];
    var rows', cols' := rows[s.i := Unlink(rows[s.i], k)], cols[s.j := Unlink(cols[s.j], k)];
    forall i: nat | i < |rows| ensures RowChain(xs, n, k, i, rows'[i]) {
      assert RowChain(xs, n, n, i, rows[i]);
      UnlinkMeans(rows[i], k);
    }
    forall j: nat | j < |cols| ensures ColChain(xs, n, k, j, cols'[j]) {
      assert ColChain(xs, n, n, j, cols[j]);
      UnlinkMeans(cols[j], k);
    }
  }

  /** Chains do not look at the amounts. */
  lemma SameCells(xs: seq<Slot>, ys: seq<Slot>, n: nat, skip: nat, rows: seq<seq<nat>>, cols: seq<seq<nat>>)
    requires |xs| == |ys| && Linked(xs, n, skip, rows, cols)
    requires forall k: nat :: k < |xs| && k != skip ==> ys[k].i == xs[k].i && ys[k].j == xs[k].j
    ensures Linked(ys, n, skip, rows, cols)
    ensures Apart(xs, n, skip) ==> Apart(ys, n, skip)
    ensures forall i: nat, j: nat :: Used(xs, n, skip, i, j) <==> Used(ys, n, skip, i, j)
  {
    forall i: nat | i < |rows| ensures RowChain(ys, n, skip, i, rows[i]) {
      assert RowChain(xs, n, skip, i, rows[i]);
    }
    forall j: nat | j < |cols| ensures ColChain(ys, n, skip, j, cols[j]) {
      assert ColChain(xs, n, skip, j, cols[j]);
    }
  }

  /** A slot at an unused cell stands apart, and its cell is the only one that becomes used. */
  lemma UsedStep(xs: seq<Slot>, n: nat, k: nat, s: Slot, n': nat, skip': nat)
    requires n <= |xs| && k < |xs| && n' <= |xs| && Apart(xs, n, k) && !Used(xs, n, k, s.i, s.j)
    requires forall l: nat :: Live(l, n', skip') <==> Live(l, n, k) || l == k
    ensures Apart(xs[k := s], n', skip')
    ensures forall i: nat, j: nat ::
      Used(xs[k := s], n', skip', i, j) <==> Used(xs, n, k, i, j) || (i == s.i && j == s.j)
  {
    var xs' := xs[k := s];
    forall l: nat | Live(l, n', skip') ensures l == k || (Live(l, n, k) && xs'[l] == xs[l]) {}
    forall i: nat, j: nat | Used(xs, n, k, i, j) || (i == s.i && j == s.j) ensures Used(xs', n', skip', i, j) {
      if Used(xs, n, k, i, j) {
        var l: nat :| Live(l, n, k) && xs[l].i == i && xs[l].j == j;
        assert Live(l, n', skip') && xs'[l] == xs[l];
      } else {
        assert Live(k, n', skip') && xs'[k] == s;
      }
    }
  }

  /** When a slot leaves, its cell alone becomes free. */
  lemma FreedStep(xs: seq<Slot>, n: nat, k: nat)
    requires n <= |xs| && k < n && Apart(xs, n, n)
    ensures Apart(xs, n, k)
    ensures forall i: nat, j: nat ::
      Used(xs, n, k, i, j) <==> Used(xs, n, n, i, j) && !(i == xs[k].i && j == xs[k].j)
  {
    forall i: nat, j: nat | Used(xs, n, n, i, j) && !(i == xs[k].i && j == xs[k].j) ensures Used(xs, n, k, i, j) {
      var l: nat :| Live(l, n, n) && xs[l].i == i && xs[l].j == j;
      assert Live(l, n, k);
    }
    forall i: nat, j: nat | Used(xs, n, k, i, j) ensures Used(xs, n, n, i, j) && !(i == xs[k].i && j == xs[k].j) {
      var l: nat :| Live(l, n, k) && xs[l].i == i && xs[l].j == j;
      assert Live(l, n, n) && Live(k, n, n);
    }
  }
}
