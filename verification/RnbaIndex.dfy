/**
  The dense index of modules/engine/src/rnba_kernel.hpp: every (round, node, bucket, action) of a betting
  tree gets one number below max_index, and every number belongs to one.
 */
module RnbaIndex {

  const MAX_ROUNDS: nat := 4

  /** A betting tree, as far as the kernel looks: nodes that end the game or the tree, and choice nodes. */
  datatype Tree = Leaf | Inner(round: nat, n: nat, children: seq<Tree>)

  /** A choice node: its round, its number in the round, how many actions it has. */
  datatype Info = Info(round: nat, n: nat, size: nat)

  /** The choice nodes in the order of the recursion. */
  function Nodes(t: Tree): (l: seq<Info>)
    decreases t, 1
  {
    match t
    case Leaf => []
    case Inner(round, n, children) => [Info(round, n, |children|)] + NodesOf(t, |children|)
  }

  /** The choice nodes below the first k children. */
  function NodesOf(t: Tree, k: nat): seq<Info>
    requires t.Inner? && k <= |t.children|
    decreases t, 0, k
  {
    if k == 0 then [] else NodesOf(t, k - 1) + Nodes(t.children[k - 1])
  }

  /** The number of choice nodes of round r. */
  function Count(l: seq<Info>, r: nat): nat {
    if l == [] then 0 else Count(l[..|l| - 1], r) + if l[|l| - 1].round == r then 1 else 0
  }

  /** The number of actions of round r. */
  function Actions(l: seq<Info>, r: nat): nat {
    if l == [] then 0 else Actions(l[..|l| - 1], r) + if l[|l| - 1].round == r then l[|l| - 1].size else 0
  }

  /** Where node k starts among the actions of its round. */
  function Start(l: seq<Info>, k: nat): nat
    requires k < |l|
  {
    Actions(l[..k], l[k].round)
  }

  /** Where round r starts. */
  function Base(l: seq<Info>, bmax: seq<nat>, r: nat): (b: nat)
    requires r <= |bmax|
  {
    if r == 0 then 0 else Base(l, bmax, r - 1) + bmax[r - 1] * Actions(l, r - 1)
  }

  lemma BaseStep(l: seq<Info>, bmax: seq<nat>, r: nat)
    requires r < |bmax|
    ensures Base(l, bmax, r + 1) == Base(l, bmax, r) + Cells(bmax[r], Actions(l, r))
  {
  }

  /** The entries of a round: one for every bucket and action. */
  function Cells(buckets: nat, actions: nat): nat { buckets * actions }

  function MaxIndex(l: seq<Info>, bmax: seq<nat>): nat {
    Base(l, bmax, |bmax|)
  }

  /** Nodes of a tree whose numbers count through each round, in any order. */
  ghost predicate Numbered(l: seq<Info>, bmax: seq<nat>) {
    && |bmax| == MAX_ROUNDS
    && (forall k :: 0 <= k < |l| ==> l[k].round < MAX_ROUNDS && l[k].n < Count(l, l[k].round) && l[k].size > 0)
    && forall k, m :: 0 <= k < m < |l| ==> l[k].round != l[m].round || l[k].n != l[m].n
  }

  ghost predicate ValidTuple(l: seq<Info>, bmax: seq<nat>, k: nat, b: nat, a: nat) {
    k < |l| && l[k].round < |bmax| && b < bmax[l[k].round] && a < l[k].size
  }

  /** hash_rnba, for the node at place k. */
  function Hash(l: seq<Info>, bmax: seq<nat>, k: nat, b: nat, a: nat): nat
    requires k < |l| && l[k].round < |bmax|
  {
    Base(l, bmax, l[k].round) + bmax[l[k].round] * Start(l, k) + b * l[k].size + a
  }

  // ---------------------------------------------------------------- products

  lemma MulMono(a: nat, b: nat, n: nat)
    requires a <= b
    ensures n * a <= n * b && a * n <= b * n
  {
  }

  lemma MulPlus(a: nat, b: nat, n: nat)
    ensures n * (a + b) == n * a + n * b && (a + b) * n == a * n + b * n
  {
  }

  /** Two digits in base n. */
  lemma TwoDigits(b: nat, a: nat, bmax: nat, n: nat)
    requires b < bmax && a < n
    ensures b * n + a < bmax * n
  {
    MulMono(b + 1, bmax, n);
    MulPlus(b, 1, n);
  }

  lemma LessDigits(b: nat, a: nat, b': nat, a': nat, n: nat)
    requires a < n && b < b'
    ensures b * n + a < b' * n + a'
  {
    MulMono(b + 1, b', n);
    MulPlus(b, 1, n);
  }

  lemma SplitDigits(z: nat, bmax: nat, n: nat) returns (b: nat, a: nat)
    requires n > 0 && z < bmax * n
    ensures b < bmax && a < n && b * n + a == z
  {
    b, a := z / n, z % n;
    assert n * (z / n) + z % n == z;
    if b >= bmax { MulMono(bmax, b, n); }
  }

  // ---------------------------------------------------------------- slices

  lemma {:induction false} ActionsGrow(l: seq<Info>, k: nat, m: nat, r: nat)
    requires k <= m <= |l|
    ensures Actions(l[..k], r) <= Actions(l[..m], r)
    ensures k < m && l[k].round == r ==> Actions(l[..k], r) + l[k].size <= Actions(l[..m], r)
  {
    if k < m {
      assert l[..m][..m - 1] == l[..m - 1];
      ActionsGrow(l, k, m - 1, r);
    }
  }

  lemma {:induction false} BaseGrows(l: seq<Info>, bmax: seq<nat>, r: nat, q: nat)
    requires r <= q <= |bmax|
    ensures Base(l, bmax, r) <= Base(l, bmax, q)
    ensures r < q ==> Base(l, bmax, r) + bmax[r] * Actions(l, r) <= Base(l, bmax, q)
  {
    if r < q { BaseGrows(l, bmax, r, q - 1); }
  }

  /** The slice of node k: all its buckets. */
  function SliceBegin(l: seq<Info>, bmax: seq<nat>, k: nat): nat
    requires k < |l| && l[k].round < |bmax|
  {
    Base(l, bmax, l[k].round) + bmax[l[k].round] * Start(l, k)
  }

  function SliceEnd(l: seq<Info>, bmax: seq<nat>, k: nat): nat
    requires k < |l| && l[k].round < |bmax|
  {
    Base(l, bmax, l[k].round) + bmax[l[k].round] * (Start(l, k) + l[k].size)
  }

  /** The numbers of node k lie in its slice, and the slice in that of its round. */
  lemma HashInSlice(l: seq<Info>, bmax: seq<nat>, k: nat, b: nat, a: nat)
    requires ValidTuple(l, bmax, k, b, a)
    ensures SliceBegin(l, bmax, k) <= Hash(l, bmax, k, b, a) < SliceEnd(l, bmax, k)
    ensures SliceEnd(l, bmax, k) <= Base(l, bmax, l[k].round + 1) <= MaxIndex(l, bmax)
  {
    var r := l[k].round;
    TwoDigits(b, a, bmax[r], l[k].size);
    MulPlus(Start(l, k), l[k].size, bmax[r]);
    ActionsGrow(l, k, |l|, r);
    assert l[..|l|] == l;
    MulMono(Start(l, k) + l[k].size, Actions(l, r), bmax[r]);
    BaseGrows(l, bmax, r + 1, |bmax|);
  }

  lemma SlicesOrdered(l: seq<Info>, bmax: seq<nat>, k: nat, k': nat)
    requires k < k' < |l| && l[k].round == l[k'].round < |bmax|
    ensures SliceEnd(l, bmax, k) <= SliceBegin(l, bmax, k')
  {
    ActionsGrow(l, k, k', l[k].round);
    MulMono(Start(l, k) + l[k].size, Start(l, k'), bmax[l[k].round]);
  }

  /** Numbers are ordered by round, then by node, then by bucket, then by action. */
  lemma HashOrders(l: seq<Info>, bmax: seq<nat>, k: nat, b: nat, a: nat, k': nat, b': nat, a': nat)
    requires ValidTuple(l, bmax, k, b, a) && ValidTuple(l, bmax, k', b', a')
    requires l[k].round < l[k'].round
          || (l[k].round == l[k'].round && (k < k' || (k == k' && (b < b' || (b == b' && a < a')))))
    ensures Hash(l, bmax, k, b, a) < Hash(l, bmax, k', b', a')
  {
    if k == k' {
      if b < b' { LessDigits(b, a, b', a', l[k].size); }
    } else {
      HashInSlice(l, bmax, k, b, a);
      HashInSlice(l, bmax, k', b', a');
      if l[k].round < l[k'].round {
        BaseGrows(l, bmax, l[k].round + 1, l[k'].round);
      } else {
        SlicesOrdered(l, bmax, k, k');
      }
    }
  }

  /** Different tuples have different numbers. */
  lemma HashInjective(l: seq<Info>, bmax: seq<nat>, k: nat, b: nat, a: nat, k': nat, b': nat, a': nat)
    requires ValidTuple(l, bmax, k, b, a) && ValidTuple(l, bmax, k', b', a')
    ensures Hash(l, bmax, k, b, a) == Hash(l, bmax, k', b', a') <==> k == k' && b == b' && a == a'
  {
    var r, r' := l[k].round, l[k'].round;
    if r < r' || (r == r' && (k < k' || (k == k' && (b < b' || (b == b' && a < a'))))) {
      HashOrders(l, bmax, k, b, a, k', b', a');
    } else if r' < r || k' < k || b' < b || a' < a {
      HashOrders(l, bmax, k', b', a', k, b, a);
    }
  }

  lemma {:induction false} FindRound(l: seq<Info>, bmax: seq<nat>, x: nat, q: nat) returns (r: nat)
    requires q <= |bmax| && x < Base(l, bmax, q)
    ensures r < q && Base(l, bmax, r) <= x < Base(l, bmax, r) + bmax[r] * Actions(l, r)
  {
    if x < Base(l, bmax, q - 1) { r := FindRound(l, bmax, x, q - 1); } else { r := q - 1; }
  }

  lemma {:induction false} FindNode(l: seq<Info>, r: nat, bmax: nat, y: nat, m: nat) returns (k: nat)
    requires m <= |l| && y < bmax * Actions(l[..m], r)
    ensures k < m && l[k].round == r
    ensures bmax * Start(l, k) <= y < bmax * (Start(l, k) + l[k].size)
  {
    assert Actions([], r) == 0 && l[..0] == [] && bmax * 0 == 0;
    if m > 1 && y < bmax * Actions(l[..m - 1], r) {
      k := FindNode(l, r, bmax, y, m - 1);
    } else {
      k := m - 1;
      assert l[..m][..m - 1] == l[..m - 1];
    }
  }

  /** Every number below MaxIndex belongs to a tuple. */
  lemma HashSurjective(l: seq<Info>, bmax: seq<nat>, x: nat) returns (k: nat, b: nat, a: nat)
    requires x < MaxIndex(l, bmax) && forall i :: 0 <= i < |l| ==> l[i].size > 0
    ensures ValidTuple(l, bmax, k, b, a) && Hash(l, bmax, k, b, a) == x
  {
    var r := FindRound(l, bmax, x, |bmax|);
    assert l[..|l|] == l;
    k := FindNode(l, r, bmax[r], x - Base(l, bmax, r), |l|);
    MulPlus(Start(l, k), l[k].size, bmax[r]);
    b, a := SplitDigits(x - Base(l, bmax, r) - bmax[r] * Start(l, k), bmax[r], l[k].size);
  }

  // ---------------------------------------------------------------- the threads' shares

  /** The buckets of thread i of num. */
  function Begin(bmax: nat, num: nat, i: nat): nat
    requires num > 0
  {
    i * (bmax / num)
  }

  function End(bmax: nat, num: nat, i: nat): nat
    requires num > 0
  {
    if i == num - 1 then bmax else (i + 1) * (bmax / num)
  }

  /** The thread of bucket b, not before thread from. */
  lemma {:induction false} FindThread(bmax: nat, num: nat, b: nat, from: nat) returns (i: nat)
    requires from < num && Begin(bmax, num, from) <= b < bmax
    ensures i < num && Begin(bmax, num, i) <= b < End(bmax, num, i)
    decreases num - from
  {
    if from == num - 1 || b < End(bmax, num, from) {
      i := from;
    } else {
      i := FindThread(bmax, num, b, from + 1);
    }
  }

  /** Every bucket belongs to exactly one thread. */
  lemma OneThread(bmax: nat, num: nat, b: nat) returns (i: nat)
    requires num > 0 && b < bmax
    ensures i < num && Begin(bmax, num, i) <= b < End(bmax, num, i)
    ensures forall j: nat :: j < num && Begin(bmax, num, j) <= b < End(bmax, num, j) ==> j == i
  {
    i := FindThread(bmax, num, b, 0);
    forall j: nat | j < num && Begin(bmax, num, j) <= b < End(bmax, num, j) ensures j == i {
      OnlyThread(bmax, num, b, i, j);
    }
  }

  lemma OnlyThread(bmax: nat, num: nat, b: nat, i: nat, j: nat)
    requires num > 0 && i < num && j < num
    requires Begin(bmax, num, i) <= b < End(bmax, num, i) && Begin(bmax, num, j) <= b < End(bmax, num, j)
    ensures j == i
  {
    if i < j {
      MulMono(i + 1, j, bmax / num);
    } else if j < i {
      MulMono(j + 1, i, bmax / num);
    }
  }

  /** The cell x is one that thread i writes for round r. */
  ghost predicate Writes(l: seq<Info>, bmax: seq<nat>, num: nat, r: nat, i: nat, x: nat) {
    num > 0 && i < num && exists k: nat, b: nat, a: nat {:trigger ValidTuple(l, bmax, k, b, a)} ::
      && ValidTuple(l, bmax, k, b, a) && l[k].round == r
      && Begin(bmax[r], num, i) <= b < End(bmax[r], num, i) && Hash(l, bmax, k, b, a) == x
  }

  /** Every cell is written by exactly one thread, for exactly one round. */
  lemma OneWriter(l: seq<Info>, bmax: seq<nat>, num: nat, x: nat) returns (r: nat, i: nat)
    requires num > 0 && x < MaxIndex(l, bmax) && forall k :: 0 <= k < |l| ==> l[k].size > 0
    ensures Writes(l, bmax, num, r, i, x)
    ensures forall r': nat, i': nat :: Writes(l, bmax, num, r', i', x) ==> r' == r && i' == i
  {
    var k, b, a := HashSurjective(l, bmax, x);
    r := l[k].round;
    i := OneThread(bmax[r], num, b);
    forall r': nat, i': nat | Writes(l, bmax, num, r', i', x) ensures r' == r && i' == i {
      var k': nat, b': nat, a': nat :| ValidTuple(l, bmax, k', b', a') && l[k'].round == r'
        && Begin(bmax[r'], num, i') <= b' < End(bmax[r'], num, i') && Hash(l, bmax, k', b', a') == x;
      HashInjective(l, bmax, k, b, a, k', b', a');
    }
  }

  // ---------------------------------------------------------------- nodes by their numbers

  /** The numbers of the first m nodes, in round r. */
  ghost function NumbersOf(l: seq<Info>, m: nat, r: nat): set<nat>
    requires m <= |l|
  {
    set k | 0 <= k < m && l[k].round == r :: l[k].n
  }

  lemma {:induction false} NumbersSize(l: seq<Info>, m: nat, r: nat)
    requires m <= |l| && forall k, j :: 0 <= k < j < |l| ==> l[k].round != l[j].round || l[k].n != l[j].n
    ensures |NumbersOf(l, m, r)| == Count(l[..m], r)
  {
    if m > 0 {
      NumbersSize(l, m - 1, r);
      assert l[..m][..m - 1] == l[..m - 1];
      if l[m - 1].round == r {
        assert NumbersOf(l, m, r) == NumbersOf(l, m - 1, r) + {l[m - 1].n};
        assert l[m - 1].n !in NumbersOf(l, m - 1, r);
      } else {
        assert NumbersOf(l, m, r) == NumbersOf(l, m - 1, r);
      }
    }
  }

  function UpTo(n: nat): (s: set<nat>)
    ensures |s| == n && forall k: nat :: k in s <==> k < n
  {
    if n == 0 then {} else UpTo(n - 1) + {n - 1}
  }

  lemma {:induction false} FullSubset(a: set<nat>, b: set<nat>)
    requires a <= b && |a| == |b|
    ensures a == b
  {
    assert b == a + (b - a);
  }

  /** Every number of a round belongs to a node: numbers that do not repeat and stay below the count leave none out. */
  lemma NodeOfNumber(l: seq<Info>, bmax: seq<nat>, r: nat, n: nat) returns (k: nat)
    requires Numbered(l, bmax) && n < Count(l, r)
    ensures k < |l| && l[k].round == r && l[k].n == n
  {
    NumbersSize(l, |l|, r);
    assert l[..|l|] == l;
    FullSubset(NumbersOf(l, |l|, r), UpTo(Count(l, r)));
    assert n in NumbersOf(l, |l|, r);
    k :| 0 <= k < |l| && l[k].round == r && l[k].n == n;
  }
}
