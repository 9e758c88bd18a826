/**
  sRNBAKernel of modules/engine/src/rnba_kernel.hpp, which lays out the index of module RnbaIndex by walking
  the betting tree twice, and the zip-average conversion of strategy.cpp, whose threads write by it.
 */
module RnbaKernel {
  import opened RnbaIndex

  class Kernel {
    const amax: seq<array<nat>>        // amax_by_rn_, one array for each round
    const starting: seq<array<nat>>    // node_starting_index_by_round_
    const total: array<nat>            // action_total_count_by_round_
    const roundIndex0: array<nat>      // round_index_0_
    const bmax: seq<nat>               // bmax_by_r_
    const nmax: seq<nat>               // nmax_by_r_
    var maxIndex: nat
    ghost const l: seq<Info>           // the choice nodes of the tree

    ghost predicate Sized() {
      && |bmax| == |nmax| == |amax| == |starting| == MAX_ROUNDS == total.Length == roundIndex0.Length
      && Numbered(l, bmax) && total != roundIndex0
      && (forall r :: 0 <= r < MAX_ROUNDS ==> nmax[r] == Count(l, r) == amax[r].Length == starting[r].Length)
      && (forall r, q :: 0 <= r < MAX_ROUNDS && 0 <= q < MAX_ROUNDS ==> amax[r] != starting[q])
      && (forall r, q :: 0 <= r < q < MAX_ROUNDS ==> amax[r] != amax[q] && starting[r] != starting[q])
      && (forall r :: 0 <= r < MAX_ROUNDS ==>
            amax[r] != total && amax[r] != roundIndex0 && starting[r] != total && starting[r] != roundIndex0)
    }

    ghost function Tables(): set<object> {
      (set x | x in amax) + (set x | x in starting) + {total, roundIndex0}
    }

    /** The tables hold the first n nodes; sealed, BuiltAt(n, 0) opens it. */
    ghost predicate Built(n: nat)
      reads Tables()
    {
      n <= |l| && forall k: nat :: BuiltAt(n, k)
    }

    ghost predicate BuiltAt(n: nat, unused: nat)
      reads Tables()
    {
      && Sized() && n <= |l|
      && (forall r :: 0 <= r < MAX_ROUNDS ==> total[r] == Actions(l[..n], r))
      && forall k :: 0 <= k < n ==> amax[l[k].round][l[k].n] == l[k].size && starting[l[k].round][l[k].n] == Start(l, k)
    }

    ghost predicate Valid()
      reads this, Tables()
    {
      && Built(|l|) && maxIndex == MaxIndex(l, bmax) && roundIndex0.Length == |bmax| == MAX_ROUNDS
      && forall r :: 0 <= r < MAX_ROUNDS ==> roundIndex0[r] == Base(l, bmax, r)
    }

    /** BuildInternal: counts the nodes, makes room for them, and lays them out. */
    constructor (root: Tree, bucketCounts: seq<nat>)
      requires Numbered(Nodes(root), bucketCounts)
      ensures Valid() && fresh(Tables()) && l == Nodes(root) && bmax == bucketCounts
    {
      bmax, l := bucketCounts, Nodes(root);
      var counts := CountInternal(root);
      nmax := counts;
      var a := Allocate(counts);
      var s := Allocate(counts);
      amax, starting := a, s;
      total := new nat[MAX_ROUNDS](_ => 0);
      roundIndex0 := new nat[MAX_ROUNDS](_ => 0);
      maxIndex := 0;
      new;
      Build(root);
    }

    static method Allocate(counts: seq<nat>) returns (t: seq<array<nat>>)
      ensures |t| == |counts| && forall r :: 0 <= r < |t| ==> fresh(t[r]) && t[r].Length == counts[r]
      ensures forall r, q :: 0 <= r < q < |t| ==> t[r] != t[q]
    {
      t := [];
      for i := 0 to |counts|
        invariant |t| == i && forall r :: 0 <= r < i ==> fresh(t[r]) && t[r].Length == counts[r]
        invariant forall r, q :: 0 <= r < q < i ==> t[r] != t[q]
      {
        var x := new nat[counts[i]];
        t := t + [x];
      }
    }

    /** CountInteral_r, summed up for each round. */
    static method CountInternal(t: Tree) returns (counts: seq<nat>)
      ensures |counts| == MAX_ROUNDS && forall r :: 0 <= r < MAX_ROUNDS ==> counts[r] == Count(Nodes(t), r)
      decreases t
    {
      counts := [0, 0, 0, 0];
      if t.Leaf? {
        return;
      }
      if t.round < MAX_ROUNDS {
        counts := counts[t.round := 1];
      }
      OneNode(t);
      for i := 0 to |t.children|
        invariant |counts| == MAX_ROUNDS
        invariant forall r :: 0 <= r < MAX_ROUNDS ==>
          counts[r] == Count([Info(t.round, t.n, |t.children|)], r) + Count(NodesOf(t, i), r)
      {
        var below := CountInternal(t.children[i]);
        CountsAdd(NodesOf(t, i), Nodes(t.children[i]));
        counts := seq(MAX_ROUNDS, r requires 0 <= r < MAX_ROUNDS && |counts| == |below| == MAX_ROUNDS =>
          counts[r] + below[r]);
      }
      CountsAdd([Info(t.round, t.n, |t.children|)], NodesOf(t, |t.children|));
    }

    method Build(root: Tree)
      requires Sized() && l == Nodes(root)
      requires forall r :: 0 <= r < MAX_ROUNDS ==> total[r] == 0 && roundIndex0[r] == 0
      modifies this`maxIndex, Tables()
      ensures Valid()
    {
      forall k: nat ensures BuiltAt(0, k) {}
      BuildInternal(root, 0);
      Finish();
    }

    /** Where every round starts, and where the last one ends. */
    method FillBases()
      requires roundIndex0.Length == total.Length == MAX_ROUNDS == |bmax| && roundIndex0 != total && roundIndex0[0] == 0
      requires forall r :: 0 <= r < MAX_ROUNDS ==> total[r] == Actions(l, r)
      modifies this`maxIndex, roundIndex0
      ensures maxIndex == Base(l, bmax, MAX_ROUNDS)
      ensures forall r :: 0 <= r < MAX_ROUNDS ==> roundIndex0[r] == Base(l, bmax, r)
    {
      assert Base(l, bmax, 0) == 0;
      hide Base, Cells;
      for i := 0 to MAX_ROUNDS
        invariant forall r :: 0 <= r < MAX_ROUNDS ==> r <= i ==> roundIndex0[r] == Base(l, bmax, r)
        modifies roundIndex0
      {
        if i < 3 {
          BaseStep(l, bmax, i);
          roundIndex0[i + 1] := roundIndex0[i] + Cells(bmax[i], total[i]);
        }
      }
      BaseStep(l, bmax, 3);
      maxIndex := roundIndex0[3] + Cells(bmax[3], total[3]);
    }

    /** Where the rounds start. */
    method Finish()
      requires Built(|l|) && roundIndex0.Length == MAX_ROUNDS && forall r :: 0 <= r < MAX_ROUNDS ==> roundIndex0[r] == 0
      modifies this`maxIndex, roundIndex0
      ensures Valid()
    {
      assert BuiltAt(|l|, 0) && l[..|l|] == l;
      FillBases();
      forall k: nat ensures BuiltAt(|l|, k) {}
    }

    /** BuildInternal_r: the nodes of t are the next ones to lay out. */
    method BuildInternal(t: Tree, ghost n: nat)
      requires Built(n) && n + |Nodes(t)| <= |l| && l[n..n + |Nodes(t)|] == Nodes(t)
      modifies Tables() - {roundIndex0}
      ensures Built(n + |Nodes(t)|)
      decreases t
    {
      if t.Leaf? {
        return;
      }
      FirstNode(t, n);
      PlaceNode(t.round, t.n, |t.children|, n);
      ghost var m := n + 1;
      for i := 0 to |t.children|
        invariant m == n + 1 + |NodesOf(t, i)| && Built(m)
      {
        SubtreeNext(t, i, n);
        BuildInternal(t.children[i], m);
        m := m + |Nodes(t.children[i])|;
      }
    }

    method PlaceNode(round: nat, nodeIdx: nat, size: nat, ghost n: nat)
      requires Built(n) && n < |l| && l[n] == Info(round, nodeIdx, size)
      modifies Tables() - {roundIndex0}
      ensures Built(n + 1)
    {
      assert BuiltAt(n, 0);
      amax[round][nodeIdx] := size;
      starting[round][nodeIdx] := total[round];
      total[round] := total[round] + size;
      assert l[..n + 1][..n] == l[..n];
      ghost var next := n + 1;
      forall k: nat ensures BuiltAt(next, k) {}
    }

    lemma FirstNode(t: Tree, n: nat)
      requires t.Inner? && n + |Nodes(t)| <= |l| && l[n..n + |Nodes(t)|] == Nodes(t)
      ensures l[n] == Info(t.round, t.n, |t.children|)
    {
      assert l[n] == l[n..n + |Nodes(t)|][0];
    }

    lemma SubtreeNext(t: Tree, i: nat, n: nat)
      requires t.Inner? && i < |t.children| && n + |Nodes(t)| <= |l| && l[n..n + |Nodes(t)|] == Nodes(t)
      ensures var m, below := n + 1 + |NodesOf(t, i)|, Nodes(t.children[i]);
        m + |below| <= |l| && l[m..m + |below|] == below
    {
      hide Nodes, NodesOf, Sized;
      ChildSlice(t, i);
      SliceOfSlice(l, n, Nodes(t), 1 + |NodesOf(t, i)|, Nodes(t.children[i]));
    }

    method Amax(r: nat, n: nat, ghost k: nat) returns (a: nat)
      requires Valid() && k < |l| && r == l[k].round < |bmax| && n == l[k].n
      ensures a == l[k].size
    {
      assert BuiltAt(|l|, 0);
      a := amax[r][n];
    }

    method Nmax(r: nat) returns (n: nat)
      requires Valid() && r < MAX_ROUNDS
      ensures n == Count(l, r) && Numbered(l, bmax)
    {
      assert BuiltAt(|l|, 0);
      n := nmax[r];
    }

    lemma SameNumber(k: nat, k': nat)
      requires Valid() && k < |l| && k' < |l|
      ensures l[k].round == l[k'].round && l[k].n == l[k'].n ==> k == k'
    {
      assert BuiltAt(|l|, 0);
    }

    lemma AllBelow(r: nat)
      requires Valid()
      ensures forall k :: 0 <= k < |l| && l[k].round == r ==> l[k].n < Count(l, r)
    {
      assert BuiltAt(|l|, 0);
    }

    lemma RoundsBelow()
      requires Valid()
      ensures forall k :: 0 <= k < |l| ==> l[k].round < MAX_ROUNDS
    {
      assert BuiltAt(|l|, 0);
    }

    /** hash_rnba. */
    method HashRnba(r: nat, n: nat, b: nat, a: nat, ghost k: nat) returns (x: nat)
      requires Valid() && ValidTuple(l, bmax, k, b, a) && r == l[k].round && n == l[k].n
      ensures x == Hash(l, bmax, k, b, a) < maxIndex
    {
      HashInSlice(l, bmax, k, b, a);
      assert BuiltAt(|l|, 0);
      x := roundIndex0[r] + bmax[r] * starting[r][n] + b * amax[r][n] + a;
    }
  }

  lemma {:induction false} CountsAdd(a: seq<Info>, b: seq<Info>)
    ensures forall r :: Count(a + b, r) == Count(a, r) + Count(b, r)
    decreases |b|
  {
    if b == [] {
      assert a + b == a;
    } else {
      CountsAdd(a, b[..|b| - 1]);
      assert (a + b)[..|a + b| - 1] == a + b[..|b| - 1];
    }
  }

  lemma OneNode(t: Tree)
    requires t.Inner?
    ensures forall r :: Count([Info(t.round, t.n, |t.children|)], r) == if t.round == r then 1 else 0
    ensures forall r :: Count([], r) == 0
  {
    var one := [Info(t.round, t.n, |t.children|)];
    assert one[..0] == [];
  }

  /** The nodes below the first k children start with those below the first i. */
  lemma {:induction false} SuffixOf(t: Tree, i: nat, k: nat) returns (after: seq<Info>)
    requires t.Inner? && i <= k <= |t.children|
    ensures NodesOf(t, k) == NodesOf(t, i) + after
  {
    if i == k {
      after := [];
    } else {
      var before := SuffixOf(t, i, k - 1);
      after := before + Nodes(t.children[k - 1]);
    }
  }

  lemma SliceOfSlice(l: seq<Info>, n: nat, whole: seq<Info>, p: nat, part: seq<Info>)
    requires n + |whole| <= |l| && l[n..n + |whole|] == whole
    requires p + |part| <= |whole| && whole[p..p + |part|] == part
    ensures l[n + p..n + p + |part|] == part
  {
    var slice := l[n + p..n + p + |part|];
    forall i | 0 <= i < |part| ensures slice[i] == part[i] {
      assert l[n..n + |whole|][p + i] == whole[p + i];
      assert whole[p..p + |part|][i] == part[i];
    }
  }

  lemma ChildSlice(t: Tree, i: nat)
    requires t.Inner? && i < |t.children|
    ensures var p, below := 1 + |NodesOf(t, i)|, Nodes(t.children[i]);
      p + |below| <= |Nodes(t)| && Nodes(t)[p..p + |below|] == below
  {
    hide Nodes, NodesOf;
    var first, before, below := Info(t.round, t.n, |t.children|), NodesOf(t, i), Nodes(t.children[i]);
    var after := SuffixOf(t, i + 1, |t.children|);
    NodesUnfold(t, i);
    MiddlePart(first, before, below, after);
  }

  lemma NodesUnfold(t: Tree, i: nat)
    requires t.Inner? && i < |t.children|
    ensures Nodes(t) == [Info(t.round, t.n, |t.children|)] + NodesOf(t, |t.children|)
    ensures NodesOf(t, i + 1) == NodesOf(t, i) + Nodes(t.children[i])
  {
  }

  lemma MiddlePart(first: Info, before: seq<Info>, part: seq<Info>, after: seq<Info>)
    ensures var l := [first] + (before + part + after);
      var p := 1 + |before|;
      p + |part| <= |l| && l[p..p + |part|] == part
  {
  }

  // ---------------------------------------------------------------- converting averages, thread by thread

  class Strategy {
    const kernel: Kernel
    const zipavg: array<int>
    /** What ComputeStrategy and rounding make of an entry, by round, node, bucket and action. */
    const zip: (nat, nat, nat, nat) -> int

    ghost predicate Valid()
      reads kernel, kernel.Tables()
    {
      kernel.Valid() && zipavg.Length == kernel.maxIndex && zipavg !in kernel.Tables()
    }

    constructor (kernel: Kernel, zipavg: array<int>, zip: (nat, nat, nat, nat) -> int)
      requires kernel.Valid() && zipavg.Length == kernel.maxIndex && zipavg !in kernel.Tables()
      ensures Valid() && this.kernel == kernel && this.zipavg == zipavg && this.zip == zip
    {
      this.kernel, this.zipavg, this.zip := kernel, zipavg, zip;
    }

    /** The cell of a tuple holds what it should. */
    ghost predicate Converted(z: seq<int>, k: nat, b: nat, a: nat) {
      ValidTuple(kernel.l, kernel.bmax, k, b, a) ==>
        var x := Hash(kernel.l, kernel.bmax, k, b, a); x < |z| && z[x] == zip(kernel.l[k].round, kernel.l[k].n, b, a)
    }

    /** The cell of a tuple is as it was. */
    ghost predicate Untouched(z: seq<int>, before: seq<int>, k: nat, b: nat, a: nat) {
      ValidTuple(kernel.l, kernel.bmax, k, b, a) ==>
        var x := Hash(kernel.l, kernel.bmax, k, b, a); x < |z| && x < |before| && z[x] == before[x]
    }

    /** One action of a node and a bucket. */
    method ConvertOne(r: nat, n: nat, b: nat, a: nat, ghost k: nat)
      requires Valid() && ValidTuple(kernel.l, kernel.bmax, k, b, a) && r == kernel.l[k].round && n == kernel.l[k].n
      modifies zipavg
      ensures Valid() && Converted(zipavg[..], k, b, a)
      ensures forall k': nat, b': nat, a': nat :: k' != k || b' != b || a' != a ==>
        Untouched(zipavg[..], old(zipavg[..]), k', b', a')
    {
      var rnba := kernel.HashRnba(r, n, b, a, k);
      zipavg[rnba] := zip(r, n, b, a);
      assert zipavg[..] == old(zipavg[..])[rnba := zip(r, n, b, a)];
      forall k': nat, b': nat, a': nat | k' != k || b' != b || a' != a
        ensures Untouched(zipavg[..], old(zipavg[..]), k', b', a')
      {
        if ValidTuple(kernel.l, kernel.bmax, k', b', a') {
          HashInjective(kernel.l, kernel.bmax, k, b, a, k', b', a');
          HashInSlice(kernel.l, kernel.bmax, k', b', a');
        }
      }
    }

    /** All actions of a node and a bucket. */
    method ConvertNode(r: nat, n: nat, b: nat, ghost k: nat)
      requires Valid() && k < |kernel.l| && r == kernel.l[k].round < |kernel.bmax| && n == kernel.l[k].n
      requires b < kernel.bmax[r]
      modifies zipavg
      ensures Valid() && forall a: nat :: Converted(zipavg[..], k, b, a)
      ensures forall k': nat, b': nat, a': nat :: k' != k || b' != b ==>
        Untouched(zipavg[..], old(zipavg[..]), k', b', a')
    {
      var aMax := kernel.Amax(r, n, k);
      forall k': nat, b': nat, a': nat ensures Untouched(zipavg[..], old(zipavg[..]), k', b', a') {
        InTable(k', b', a');
      }
      for a := 0 to aMax
        invariant Valid() && forall a': nat :: a' < a ==> Converted(zipavg[..], k, b, a')
        invariant forall k': nat, b': nat, a': nat :: k' != k || b' != b ==>
          Untouched(zipavg[..], old(zipavg[..]), k', b', a')
      {
        ghost var z := zipavg[..];
        ConvertOne(r, n, b, a, k);
        forall a': nat | a' < a ensures Converted(zipavg[..], k, b, a') {
          assert Converted(z, k, b, a') && Untouched(zipavg[..], z, k, b, a');
        }
        forall k': nat, b': nat, a': nat | k' != k || b' != b
          ensures Untouched(zipavg[..], old(zipavg[..]), k', b', a') {
          assert Untouched(z, old(zipavg[..]), k', b', a') && Untouched(zipavg[..], z, k', b', a');
        }
      }
    }

    lemma InTable(k: nat, b: nat, a: nat)
      requires Valid()
      ensures Untouched(zipavg[..], zipavg[..], k, b, a)
    {
      if ValidTuple(kernel.l, kernel.bmax, k, b, a) { HashInSlice(kernel.l, kernel.bmax, k, b, a); }
    }

    /** ThreadedZipAvgConvert: the buckets from bBegin to bEnd of round r. */
    method ThreadedZipAvgConvert(r: nat, bBegin: nat, bEnd: nat)
      requires Valid() && r < MAX_ROUNDS && bEnd <= kernel.bmax[r]
      modifies zipavg
      ensures Valid()
      ensures forall k: nat, b: nat, a: nat :: InShare(r, bBegin, bEnd, k, b) ==> Converted(zipavg[..], k, b, a)
      ensures forall k: nat, b: nat, a: nat :: !InShare(r, bBegin, bEnd, k, b) ==>
        Untouched(zipavg[..], old(zipavg[..]), k, b, a)
    {
      forall k: nat, b: nat, a: nat ensures Untouched(zipavg[..], old(zipavg[..]), k, b, a) { InTable(k, b, a); }
      var b := bBegin;
      while b < bEnd
        invariant Valid() && (bBegin <= bEnd ==> b <= bEnd) && (bBegin > bEnd ==> b == bBegin)
        invariant forall k: nat, b': nat, a: nat :: InShare(r, bBegin, b, k, b') ==> Converted(zipavg[..], k, b', a)
        invariant forall k: nat, b': nat, a: nat :: !InShare(r, bBegin, b, k, b') ==>
          Untouched(zipavg[..], old(zipavg[..]), k, b', a)
      {
        ghost var z := zipavg[..];
        ConvertBucket(r, b);
        Advance(z, old(zipavg[..]), r, bBegin, b);
        b := b + 1;
      }
    }

    lemma Advance(z: seq<int>, before: seq<int>, r: nat, bBegin: nat, b: nat)
      requires bBegin <= b
      requires forall k: nat, b': nat, a: nat :: InShare(r, bBegin, b, k, b') ==> Converted(z, k, b', a)
      requires forall k: nat, b': nat, a: nat :: !InShare(r, bBegin, b, k, b') ==> Untouched(z, before, k, b', a)
      requires forall k: nat, b': nat, a: nat :: InShare(r, b, b + 1, k, b') ==> Converted(zipavg[..], k, b', a)
      requires forall k: nat, b': nat, a: nat :: !InShare(r, b, b + 1, k, b') ==> Untouched(zipavg[..], z, k, b', a)
      ensures forall k: nat, b': nat, a: nat :: InShare(r, bBegin, b + 1, k, b') ==> Converted(zipavg[..], k, b', a)
      ensures forall k: nat, b': nat, a: nat :: !InShare(r, bBegin, b + 1, k, b') ==>
        Untouched(zipavg[..], before, k, b', a)
    {
      forall k: nat, b': nat, a: nat | InShare(r, bBegin, b + 1, k, b') ensures Converted(zipavg[..], k, b', a) {
        if b' != b { assert Converted(z, k, b', a) && Untouched(zipavg[..], z, k, b', a); }
      }
      forall k: nat, b': nat, a: nat | !InShare(r, bBegin, b + 1, k, b')
        ensures Untouched(zipavg[..], before, k, b', a) {
        assert Untouched(z, before, k, b', a) && Untouched(zipavg[..], z, k, b', a);
      }
    }

    /** The tuples of round r with buckets from begin to end. */
    ghost predicate InShare(r: nat, begin: nat, end: nat, k: nat, b: nat) {
      k < |kernel.l| && kernel.l[k].round == r && begin <= b < end
    }

    /** All nodes of round r, for one bucket. */
    method ConvertBucket(r: nat, b: nat)
      requires Valid() && r < MAX_ROUNDS && b < kernel.bmax[r]
      modifies zipavg
      ensures Valid()
      ensures forall k: nat, b': nat, a: nat :: InShare(r, b, b + 1, k, b') ==> Converted(zipavg[..], k, b', a)
      ensures forall k: nat, b': nat, a: nat :: !InShare(r, b, b + 1, k, b') ==>
        Untouched(zipavg[..], old(zipavg[..]), k, b', a)
    {
      forall k: nat, b': nat, a: nat ensures Untouched(zipavg[..], old(zipavg[..]), k, b', a) { InTable(k, b', a); }
      var nMax := kernel.Nmax(r);
      for n := 0 to nMax
        invariant Valid()
        invariant forall k: nat, a: nat :: NodeBelow(r, k, n) ==> Converted(zipavg[..], k, b, a)
        invariant forall k: nat, b': nat, a: nat :: !(NodeBelow(r, k, n) && b' == b) ==>
          Untouched(zipavg[..], old(zipavg[..]), k, b', a)
      {
        ghost var z := zipavg[..];
        ghost var k0 := NodeOfNumber(kernel.l, kernel.bmax, r, n);
        ConvertNode(r, n, b, k0);
        forall k: nat, a: nat | NodeBelow(r, k, n + 1) ensures Converted(zipavg[..], k, b, a) {
          kernel.SameNumber(k, k0);
          if k != k0 { assert Converted(z, k, b, a) && Untouched(zipavg[..], z, k, b, a); }
        }
        forall k: nat, b': nat, a: nat | !(NodeBelow(r, k, n + 1) && b' == b)
          ensures Untouched(zipavg[..], old(zipavg[..]), k, b', a)
        {
          assert Untouched(z, old(zipavg[..]), k, b', a) && Untouched(zipavg[..], z, k, b', a);
        }
      }
      kernel.AllBelow(r);
    }

    ghost predicate NodeBelow(r: nat, k: nat, n: nat) {
      k < |kernel.l| && kernel.l[k].round == r && kernel.l[k].n < n
    }

    /** ConvertWavgToZipAvg: the threads of every round, which share the buckets between them. */
    method ConvertWavgToZipAvg(numThreads: nat)
      requires Valid() && numThreads > 0
      modifies zipavg
      ensures Valid() && forall k: nat, b: nat, a: nat :: Converted(zipavg[..], k, b, a)
    {
      for r := 0 to MAX_ROUNDS
        invariant Valid()
        invariant forall k: nat, b: nat, a: nat :: k < |kernel.l| && kernel.l[k].round < r ==>
          Converted(zipavg[..], k, b, a)
      {
        ConvertRound(r, numThreads);
      }
      kernel.RoundsBelow();
    }

    method ConvertRound(r: nat, numThreads: nat)
      requires Valid() && numThreads > 0 && r < MAX_ROUNDS
      requires forall k: nat, b: nat, a: nat :: k < |kernel.l| && kernel.l[k].round < r ==>
        Converted(zipavg[..], k, b, a)
      modifies zipavg
      ensures Valid()
      ensures forall k: nat, b: nat, a: nat :: k < |kernel.l| && kernel.l[k].round < r + 1 ==>
        Converted(zipavg[..], k, b, a)
    {
      var bMax := kernel.bmax[r];
      for i := 0 to numThreads
        invariant Valid()
        invariant forall k: nat, b: nat, a: nat :: k < |kernel.l| && kernel.l[k].round < r ==>
          Converted(zipavg[..], k, b, a)
        invariant forall k: nat, b: nat, a: nat ::
          InShare(r, 0, DoneBefore(bMax, numThreads, i), k, b) ==> Converted(zipavg[..], k, b, a)
      {
        ghost var z := zipavg[..];
        ShareFits(bMax, numThreads, i);
        ThreadedZipAvgConvert(r, Begin(bMax, numThreads, i), End(bMax, numThreads, i));
        forall k: nat, b: nat, a: nat | k < |kernel.l| && kernel.l[k].round < r ensures Converted(zipavg[..], k, b, a) {
          assert Converted(z, k, b, a) && Untouched(zipavg[..], z, k, b, a);
        }
        forall k: nat, b: nat, a: nat | InShare(r, 0, End(bMax, numThreads, i), k, b)
          ensures Converted(zipavg[..], k, b, a) {
          if b < Begin(bMax, numThreads, i) { assert Converted(z, k, b, a) && Untouched(zipavg[..], z, k, b, a); }
        }
      }
      forall k: nat, b: nat, a: nat | k < |kernel.l| && kernel.l[k].round == r ensures Converted(zipavg[..], k, b, a) {
        if b < bMax { assert InShare(r, 0, bMax, k, b); }
      }
    }
  }

  /** The buckets done when thread i starts. */
  function DoneBefore(bmax: nat, num: nat, i: nat): nat
    requires num > 0
  {
    if i == num then bmax else Begin(bmax, num, i)
  }

  lemma ShareFits(bmax: nat, num: nat, i: nat)
    requires i < num
    ensures Begin(bmax, num, i) <= End(bmax, num, i) <= bmax
    ensures i + 1 < num ==> End(bmax, num, i) == Begin(bmax, num, i + 1)
  {
    var step := bmax / num;
    assert num * step <= bmax;
    MulMono(i, num, step);
    MulMono(i + 1, num, step);
    MulMono(i, i + 1, step);
  }
}
