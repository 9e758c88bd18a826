/**
  AllocateFlops of modules/engine/src/cfr.cpp: public buckets of flops are handed out to threads, each to the first that
  stays under its share, or else to the one with the least work.
 */
module Flops {

  /** The flops of a list of public buckets. */
  function Load(list: seq<nat>, size: seq<nat>): nat
    requires forall k :: 0 <= k < |list| ==> list[k] < |size|
  {
    if list == [] then 0 else Load(list[..|list| - 1], size) + size[list[|list| - 1]]
  }

  function Sum(x: seq<nat>): nat {
    if x == [] then 0 else Sum(x[..|x| - 1]) + x[|x| - 1]
  }

  /** The flops of the list are no more than most. */
  ghost predicate Within(list: seq<nat>, size: seq<nat>, most: nat) {
    Buckets(list, size) && Load(list, size) <= most
  }

  ghost predicate NoRepeat(list: seq<nat>) {
    forall k, l :: 0 <= k < l < |list| ==> list[k] != list[l]
  }

  ghost predicate Buckets(list: seq<nat>, size: seq<nat>) {
    forall k :: 0 <= k < |list| ==> list[k] < |size|
  }

  /** Bucket p is on the list of thread c. */
  ghost predicate On(boards: seq<seq<nat>>, c: nat, p: nat) {
    c < |boards| && p in boards[c]
  }

  ghost predicate AllOn(boards: seq<seq<nat>>, pubs: seq<nat>) {
    forall p :: p in pubs ==> exists c: nat :: On(boards, c, p)
  }

  ghost predicate OnOne(boards: seq<seq<nat>>, pubs: seq<nat>) {
    && (forall c: nat, p: nat :: On(boards, c, p) ==> p in pubs)
    && (forall c: nat, d: nat, p: nat :: On(boards, c, p) && On(boards, d, p) ==> c == d)
    && (forall c :: 0 <= c < |boards| ==> NoRepeat(boards[c]))
  }

  /** The buckets of pubs are dealt out: each is on exactly one list, once. */
  ghost predicate Dealt(boards: seq<seq<nat>>, pubs: seq<nat>) {
    AllOn(boards, pubs) && OnOne(boards, pubs)
  }

  ghost predicate Tallied(boards: seq<seq<nat>>, tally: seq<nat>, size: seq<nat>) {
    |boards| == |tally| && forall c :: 0 <= c < |boards| ==>
      Buckets(boards[c], size) && tally[c] == Load(boards[c], size)
  }

  /** Buckets sorted by how many flops they hold: which thread of how many takes which. */
  method AllocateFlops(pubs: seq<nat>, size: seq<nat>, numThread: nat, numCombinations: nat)
    returns (board: seq<seq<nat>>)
    requires Buckets(pubs, size) && NoRepeat(pubs) && numCombinations == Load(pubs, size)
    requires 1 <= numThread && (numThread >= 60 ==> Home(numThread, 30) == 0)
    ensures |board| == numThread
    ensures var cluster := Cluster(numThread);
      && Dealt(board[..cluster], pubs)
      && (forall t :: 0 <= t < numThread ==> board[t] == board[Home(t, cluster)])
      && forall t :: 0 <= t < numThread ==> Within(board[t], size, Share(numCombinations, cluster) + Largest(size))
  {
    if numThread > 1 {
      ShareIsQuotient(Cluster(numThread), numCombinations);
      board := ManyThreads(pubs, size, numThread, Share(numCombinations, Cluster(numThread)));
    } else {
      board := [pubs];
      OneList(pubs);
      OneCluster(1);
      assert board[..1] == board && Share(numCombinations, 1) == numCombinations;
    }
  }

  method ManyThreads(pubs: seq<nat>, size: seq<nat>, numThread: nat, cap: nat) returns (board: seq<seq<nat>>)
    requires Buckets(pubs, size) && NoRepeat(pubs) && 1 < numThread && (numThread >= 60 ==> Home(numThread, 30) == 0)
    requires IsShare(cap, Cluster(numThread), Load(pubs, size))
    ensures |board| == numThread && Dealt(board[..Cluster(numThread)], pubs)
    ensures forall t :: 0 <= t < numThread ==> board[t] == board[Home(t, Cluster(numThread))]
    ensures forall t :: 0 <= t < numThread ==> Within(board[t], size, cap + Largest(size))
  {
    var cluster := if numThread > 60 then 30 else numThread;
    var lists := Distribute(pubs, size, cluster, cap);
    board := lists;
    OneCluster(cluster);
    assert board[..cluster] == lists;
    if numThread > 60 {
      board := CopyClusters(lists, cluster, numThread);
    }
    forall t | 0 <= t < numThread ensures board[t] == board[Home(t, cluster)] == lists[Home(t, cluster)] {
      assert board[Home(t, cluster)] == board[..cluster][Home(t, cluster)];
    }
  }

  /** What each of n threads should get at most. */
  function Share(total: nat, n: nat): nat
    requires n > 0
  {
    total / n
  }

  /** The threads among which the buckets are dealt out; the others copy them. */
  function Cluster(numThread: nat): nat {
    if numThread > 60 then 30 else numThread
  }

  /** The thread of the first cluster that thread t copies. */
  function Home(t: nat, cluster: nat): (c: nat)
    requires cluster > 0
    ensures c < cluster
  {
    t % cluster
  }

  /** No number of flops that all n threads hold comes to the total, unless it is within the cap. */
  ghost predicate IsShare(cap: nat, n: nat, total: nat) {
    forall x: nat :: Mul(x, n) <= total ==> x <= cap
  }

  function Mul(a: nat, b: nat): nat { a * b }

  lemma ShareIsQuotient(n: nat, total: nat)
    requires n > 0
    ensures IsShare(Share(total, n), n, total)
  {
    forall x: nat | Mul(x, n) <= total ensures x <= total / n { Quotient(x, n, total); }
  }

  function Largest(size: seq<nat>): (m: nat)
    ensures forall p :: 0 <= p < |size| ==> size[p] <= m
  {
    if size == [] then 0
    else
      var m := Largest(size[..|size| - 1]);
      if size[|size| - 1] > m then size[|size| - 1] else m
  }

  lemma OneList(pubs: seq<nat>)
    requires NoRepeat(pubs)
    ensures Dealt([pubs], pubs)
  {
    forall p | p in pubs ensures exists c: nat :: On([pubs], c, p) { assert On([pubs], 0, p); }
  }

  /** After some of the buckets: lists holds them, tally what each thread got, and idx has got least. */
  ghost predicate Progress(lists: seq<seq<nat>>, tally: seq<nat>, idx: nat, done: seq<nat>, size: seq<nat>) {
    && Dealt(lists, done) && Tallied(lists, tally, size)
    && Buckets(done, size) && Sum(tally) == Load(done, size)
    && idx < |tally| && forall c :: 0 <= c < |tally| ==> tally[idx] <= tally[c]
  }

  ghost predicate AllBelow(tally: seq<nat>, most: nat) {
    forall c :: 0 <= c < |tally| ==> tally[c] <= most
  }

  method Distribute(pubs: seq<nat>, size: seq<nat>, cluster: nat, cap: nat) returns (lists: seq<seq<nat>>)
    requires Buckets(pubs, size) && NoRepeat(pubs) && cluster > 0 && IsShare(cap, cluster, Load(pubs, size))
    ensures |lists| == cluster && Dealt(lists, pubs)
    ensures forall c :: 0 <= c < cluster ==> Within(lists[c], size, cap + Largest(size))
  {
    var tally: seq<nat> := seq(cluster, _ => 0);
    lists := seq(cluster, _ => []);
    var idx: nat := 0;
    AllZero(tally);
    for k := 0 to |pubs|
      invariant |lists| == |tally| == cluster
      invariant Progress(lists, tally, idx, pubs[..k], size) && AllBelow(tally, cap + Largest(size))
    {
      lists, tally, idx := Assign(lists, tally, idx, pubs, size, k, cap);
    }
    assert pubs[..|pubs|] == pubs;
  }

  method Assign(lists: seq<seq<nat>>, tally: seq<nat>, idx: nat, pubs: seq<nat>, size: seq<nat>, k: nat, cap: nat)
    returns (lists': seq<seq<nat>>, tally': seq<nat>, idx': nat)
    requires k < |pubs| && Buckets(pubs, size) && NoRepeat(pubs) && IsShare(cap, |tally|, Load(pubs, size))
    requires Progress(lists, tally, idx, pubs[..k], size) && AllBelow(tally, cap + Largest(size))
    ensures |lists'| == |tally'| == |tally|
    ensures Progress(lists', tally', idx', pubs[..k + 1], size) && AllBelow(tally', cap + Largest(size))
  {
    var pub := pubs[k];
    var i := FirstWithRoom(tally, size[pub], cap);
    if i == |tally| {
      i := idx;
    }
    Chosen(tally, idx, i, pubs, size, k, cap);
    DealtGrows(lists, pubs, k, i);
    TalliedGrows(lists, tally, size, i, pub);
    lists' := lists[i := lists[i] + [pub]];
    tally' := tally[i := tally[i] + size[pub]];
    idx' := MinElement(tally');
  }

  /** The first thread that stays within the cap, or their number. */
  method FirstWithRoom(tally: seq<nat>, more: nat, cap: nat) returns (i: nat)
    ensures i <= |tally|
    ensures i < |tally| ==> tally[i] + more <= cap
    ensures forall c :: 0 <= c < i ==> tally[c] + more > cap
  {
    i := 0;
    while i < |tally| && cap - (tally[i] + more) < 0
      invariant i <= |tally| && forall c :: 0 <= c < i ==> tally[c] + more > cap
    {
      i := i + 1;
    }
  }

  /** std::min_element. */
  method MinElement(tally: seq<nat>) returns (idx: nat)
    requires tally != []
    ensures idx < |tally| && forall c :: 0 <= c < |tally| ==> tally[idx] <= tally[c]
  {
    idx := 0;
    for c := 1 to |tally|
      invariant idx < |tally| && forall d :: 0 <= d < c ==> tally[idx] <= tally[d]
    {
      if tally[c] < tally[idx] {
        idx := c;
      }
    }
  }

  lemma {:induction false} AllZero(tally: seq<nat>)
    requires forall c :: 0 <= c < |tally| ==> tally[c] == 0
    ensures Sum(tally) == 0
  {
    if tally != [] { AllZero(tally[..|tally| - 1]); }
  }

  lemma {:induction false} SumUpdate(x: seq<nat>, i: nat, y: nat)
    requires i < |x|
    ensures Sum(x[i := y]) == Sum(x) - x[i] + y
  {
    var n := |x| - 1;
    if i < n {
      SumUpdate(x[..n], i, y);
      assert x[i := y][..n] == x[..n][i := y];
    } else {
      assert x[i := y][..n] == x[..n];
    }
  }

  lemma {:induction false} LoadGrows(pubs: seq<nat>, size: seq<nat>, k: nat)
    requires Buckets(pubs, size) && k <= |pubs|
    ensures Load(pubs[..k], size) <= Load(pubs, size)
    decreases |pubs| - k
  {
    if k < |pubs| {
      LoadGrows(pubs, size, k + 1);
      assert pubs[..k + 1][..k] == pubs[..k];
    } else {
      assert pubs[..k] == pubs;
    }
  }

  /** The least tally is no more than the average. */
  lemma {:induction false} LeastTimes(tally: seq<nat>, least: nat)
    requires forall c :: 0 <= c < |tally| ==> least <= tally[c]
    ensures Mul(least, |tally|) <= Sum(tally)
  {
    if tally != [] { LeastTimes(tally[..|tally| - 1], least); }
  }

  /** Whichever thread takes the bucket, the tallies stay the flops dealt and within the bound. */
  lemma Chosen(tally: seq<nat>, idx: nat, i: nat, pubs: seq<nat>, size: seq<nat>, k: nat, cap: nat)
    requires k < |pubs| && Buckets(pubs, size) && IsShare(cap, |tally|, Load(pubs, size)) && idx < |tally|
    requires forall c :: 0 <= c < |tally| ==> tally[idx] <= tally[c]
    requires Sum(tally) == Load(pubs[..k], size)
    requires i == idx || (i < |tally| && tally[i] + size[pubs[k]] <= cap)
    ensures Sum(tally[i := tally[i] + size[pubs[k]]]) == Load(pubs[..k + 1], size)
    ensures tally[i] + size[pubs[k]] <= cap + Largest(size)
  {
    LoadGrows(pubs, size, k + 1);
    assert pubs[..k + 1][..k] == pubs[..k];
    LeastTimes(tally, tally[idx]);
    SumUpdate(tally, i, tally[i] + size[pubs[k]]);
  }

  lemma Quotient(x: nat, n: nat, total: nat)
    requires n > 0 && x * n <= total
    ensures x <= total / n
  {
    var q := total / n;
    assert total == n * q + total % n < n * (q + 1);
    TimesGrows(q + 1, x, n);
  }

  lemma TimesGrows(a: nat, b: nat, n: nat)
    ensures a <= b ==> n * a <= b * n
  {
    if a <= b { assert b * n == n * a + n * (b - a); }
  }

  lemma DealtGrows(lists: seq<seq<nat>>, pubs: seq<nat>, k: nat, i: nat)
    requires k < |pubs| && i < |lists| && NoRepeat(pubs) && Dealt(lists, pubs[..k])
    ensures Dealt(lists[i := lists[i] + [pubs[k]]], pubs[..k + 1])
  {
    var pub, after := pubs[k], lists[i := lists[i] + [pubs[k]]];
    assert pubs[..k + 1] == pubs[..k] + [pub] && pub !in pubs[..k];
    forall c: nat, p: nat ensures On(after, c, p) <==> On(lists, c, p) || (c == i && p == pub) {}
    var dealt := pubs[..k + 1];
    forall p | p in dealt ensures exists c: nat :: On(after, c, p) {
      if p == pub {
        assert On(after, i, p);
      } else {
        var c: nat :| On(lists, c, p);
        assert On(after, c, p);
      }
    }
    assert pub in lists[i] ==> On(lists, i, pub);
  }

  lemma TalliedGrows(lists: seq<seq<nat>>, tally: seq<nat>, size: seq<nat>, i: nat, pub: nat)
    requires i < |lists| && pub < |size| && Tallied(lists, tally, size)
    ensures Tallied(lists[i := lists[i] + [pub]], tally[i := tally[i] + size[pub]], size)
  {
    var longer := lists[i] + [pub];
    assert longer[..|lists[i]|] == lists[i];
  }

  /** More than sixty threads: every cluster of thirty works on the same lists. */
  method CopyClusters(lists: seq<seq<nat>>, cluster: nat, numThread: nat) returns (board: seq<seq<nat>>)
    requires |lists| == cluster > 0 && cluster <= numThread && Home(numThread, cluster) == 0
    ensures |board| == numThread && board[..cluster] == lists
    ensures forall t :: 0 <= t < numThread ==> board[t] == lists[Home(t, cluster)]
  {
    board := lists + seq(numThread - cluster, _ => []);
    var rep := Share(numThread, cluster);
    Whole(numThread, cluster);
    OneCluster(cluster);
    for c: nat := 0 to cluster
      invariant |board| == numThread && board[..cluster] == lists
      invariant forall t :: 0 <= t < numThread && Home(t, cluster) < c ==> board[t] == lists[Home(t, cluster)]
    {
      board := CopyOne(board, lists, cluster, rep, c);
    }
  }

  method CopyOne(board: seq<seq<nat>>, lists: seq<seq<nat>>, cluster: nat, rep: nat, c: nat)
    returns (copied: seq<seq<nat>>)
    requires c < cluster == |lists| && 1 <= rep && |board| == Place(0, rep, cluster)
    requires cluster <= |board| && board[..cluster] == lists
    ensures |copied| == |board| && copied[..cluster] == lists
    ensures forall t :: 0 <= t < |board| ==> copied[t] == if Home(t, cluster) == c then lists[c] else board[t]
  {
    copied := board;
    OneCluster(cluster);
    PlaceAdds(c, rep, cluster);
    forall t | 0 <= t < cluster ensures board[t] == lists[t] { assert board[..cluster][t] == lists[t]; }
    for r: nat := 1 to rep
      invariant |copied| == |board| && copied[..cluster] == lists
      invariant forall t :: 0 <= t < Place(c, r, cluster) && t < |board| && Home(t, cluster) == c ==>
        copied[t] == lists[c]
      invariant forall t :: 0 <= t < |board| && Home(t, cluster) != c ==> copied[t] == board[t]
    {
      Places(c, r, rep, cluster);
      copied := copied[Place(c, r, cluster) := lists[c]];
    }
  }

  /** Where the list of thread c goes in cluster r: c + r * cluster. */
  function Place(c: nat, r: nat, cluster: nat): nat {
    if r == 0 then c else Place(c, r - 1, cluster) + cluster
  }

  lemma {:induction false} PlaceAdds(c: nat, r: nat, cluster: nat)
    ensures Place(c, r, cluster) == c + Place(0, r, cluster) == c + r * cluster
  {
    if r > 0 { PlaceAdds(c, r - 1, cluster); }
  }

  ghost predicate NoneBetween(c: nat, r: nat, cluster: nat)
    requires cluster > 0
  {
    forall t :: Place(c, r, cluster) < t < Place(c, r, cluster) + cluster ==> Home(t, cluster) != c
  }

  lemma Places(c: nat, r: nat, rep: nat, cluster: nat)
    requires c < cluster && 1 <= r < rep
    ensures cluster <= Place(c, r, cluster) < Place(0, rep, cluster) && Home(Place(c, r, cluster), cluster) == c
    ensures NoneBetween(c, r, cluster) && Place(c, r + 1, cluster) == Place(c, r, cluster) + cluster
  {
    PlaceAdds(c, r, cluster);
    PlaceGrows(0, 1, r, cluster);
    PlaceGrows(0, r + 1, rep, cluster);
    Remainder(c, r, cluster);
    forall t | Place(c, r, cluster) < t < Place(c, r, cluster) + cluster ensures Home(t, cluster) != c {
      NotHome(c, r, cluster, t - Place(c, r, cluster));
    }
  }

  lemma NotHome(c: nat, r: nat, cluster: nat, x: nat)
    requires c < cluster && 0 < x < cluster
    ensures Home(Place(c, r, cluster) + x, cluster) != c
  {
    PlaceAdds(c, r, cluster);
    if c + x < cluster {
      Remainder(c + x, r, cluster);
      PlaceAdds(c + x, r, cluster);
    } else {
      Remainder(c + x - cluster, r + 1, cluster);
      PlaceAdds(c + x - cluster, r + 1, cluster);
    }
  }

  lemma {:induction false} PlaceGrows(c: nat, r: nat, q: nat, cluster: nat)
    requires r <= q
    ensures Place(c, r, cluster) <= Place(c, q, cluster)
  {
    if r < q { PlaceGrows(c, r, q - 1, cluster); }
  }

  lemma Whole(n: nat, cluster: nat)
    requires 0 < cluster <= n && Home(n, cluster) == 0
    ensures 1 <= Share(n, cluster) && n == Place(0, Share(n, cluster), cluster)
  {
    assert n == cluster * (n / cluster) + n % cluster;
    PlaceAdds(0, n / cluster, cluster);
  }

  lemma OneCluster(cluster: nat)
    requires cluster > 0
    ensures forall t :: 0 <= t < cluster ==> Home(t, cluster) == t
  {
    forall t | 0 <= t < cluster ensures Home(t, cluster) == t { Remainder(t, 0, cluster); }
  }

  lemma Remainder(c: nat, r: nat, cluster: nat)
    requires c < cluster
    ensures Home(Place(c, r, cluster), cluster) == c
  {
    var x := c + r * cluster;
    PlaceAdds(c, r, cluster);
    assert x == cluster * (x / cluster) + x % cluster;
    SameQuotient(cluster, r, x / cluster, c, x % cluster);
  }

  /** One number has one quotient and one remainder. */
  lemma SameQuotient(n: nat, q: nat, p: nat, a: nat, b: nat)
    requires a < n && b < n && a + q * n == n * p + b
    ensures q == p && a == b
  {
    TimesGrows(p + 1, q, n);
    TimesGrows(q + 1, p, n);
  }
}
