/**
  Card sets up to renaming the suits (Canonize and ComputeColex of modules/core/src/card_util.cpp; canonize,
  rotateSuits and findSuitPermutation of CardSet.cpp).  A card set is a mask of ranks for each suit.
 */
module Suits {
  import opened Colex

  const NUM_RANK: nat := 13
  const NUM_SUIT: nat := 4

  /** A mask of thirteen ranks for every suit. */
  ghost predicate Masks(m: seq<nat>) {
    |m| == NUM_SUIT && forall s :: 0 <= s < NUM_SUIT ==> m[s] < 0x2000
  }

  function Power2(n: nat): nat {
    if n == 0 then 1 else 2 * Power2(n - 1)
  }

  /** The set bits of the lowest n of mask, numbered from r. */
  function Bits(mask: nat, r: nat, n: nat): (b: seq<nat>)
    decreases n
  {
    if n == 0 then [] else (if mask % 2 == 1 then [r] else []) + Bits(mask / 2, r + 1, n - 1)
  }

  /** Ascending, from r on and below n. */
  predicate Between(b: seq<nat>, r: nat, n: nat) {
    Ascending(b, n) && forall i :: 0 <= i < |b| ==> r <= b[i]
  }

  lemma {:induction false} BitsBetween(mask: nat, r: nat, n: nat)
    ensures Between(Bits(mask, r, n), r, r + n)
    decreases n
  {
    if n > 0 { BitsBetween(mask / 2, r + 1, n - 1); }
  }

  /** The codes of the cards, rank + 13 * suit, ascending; m holds the masks from code r on. */
  function CodesFrom(m: seq<nat>, r: nat): (c: seq<nat>) {
    if m == [] then [] else Bits(m[0], r, NUM_RANK) + CodesFrom(m[1..], r + NUM_RANK)
  }

  lemma {:induction false} CodesBetween(m: seq<nat>, r: nat)
    ensures Between(CodesFrom(m, r), r, r + NUM_RANK * |m|)
  {
    if m != [] {
      BitsBetween(m[0], r, NUM_RANK);
      CodesBetween(m[1..], r + NUM_RANK);
    }
  }

  function Codes(m: seq<nat>): seq<nat> { CodesFrom(m, 0) }

  lemma CodesAscend(m: seq<nat>)
    requires |m| == NUM_SUIT
    ensures Ascending(Codes(m), 52)
  {
    CodesBetween(m, 0);
  }

  function ColexOf(m: seq<nat>): nat
    requires |m| == NUM_SUIT
  {
    Number(Codes(m))
  }

  // ---------------------------------------------------------------- codes determine the masks

  lemma {:induction false} BitsInjective(a: nat, b: nat, r: nat, n: nat)
    requires a < Power2(n) && b < Power2(n) && Bits(a, r, n) == Bits(b, r, n)
    ensures a == b
    decreases n
  {
    if n > 0 {
      SameLowBit(a, b, r, n);
      BitsInjective(a / 2, b / 2, r + 1, n - 1);
    }
  }

  lemma LowBit(a: nat, r: nat, n: nat)
    requires n > 0
    ensures a % 2 == 1 <==> (Bits(a, r, n) != [] && Bits(a, r, n)[0] == r)
    ensures Bits(a / 2, r + 1, n - 1) == if a % 2 == 1 then Bits(a, r, n)[1..] else Bits(a, r, n)
  {
    BitsBetween(a / 2, r + 1, n - 1);
  }

  lemma SameLowBit(a: nat, b: nat, r: nat, n: nat)
    requires n > 0 && Bits(a, r, n) == Bits(b, r, n)
    ensures a % 2 == b % 2 && Bits(a / 2, r + 1, n - 1) == Bits(b / 2, r + 1, n - 1)
  {
    LowBit(a, r, n);
    LowBit(b, r, n);
  }

  lemma SameSplit(c: seq<nat>, k: nat, k': nat, n: nat)
    requires k <= |c| && k' <= |c|
    requires (forall i :: 0 <= i < k ==> c[i] < n) && (forall i :: k <= i < |c| ==> c[i] >= n)
    requires (forall i :: 0 <= i < k' ==> c[i] < n) && (forall i :: k' <= i < |c| ==> c[i] >= n)
    ensures k == k'
  {
    assert k < |c| ==> c[k] >= n;
    assert k' < |c| ==> c[k'] >= n;
  }

  /** Where the low part of an ascending list ends is plain to see. */
  lemma SplitBelow(a: seq<nat>, b: seq<nat>, a': seq<nat>, b': seq<nat>, n: nat)
    requires a + b == a' + b'
    requires (forall i :: 0 <= i < |a| ==> a[i] < n) && (forall i :: 0 <= i < |a'| ==> a'[i] < n)
    requires (forall i :: 0 <= i < |b| ==> b[i] >= n) && (forall i :: 0 <= i < |b'| ==> b'[i] >= n)
    ensures a == a' && b == b'
  {
    assert forall i :: 0 <= i < |a'| ==> (a' + b')[i] < n;
    assert forall i :: |a'| <= i < |a' + b'| ==> (a' + b')[i] >= n;
    SameSplit(a + b, |a|, |a'|, n);
    assert a == (a + b)[..|a|] && b == (a + b)[|a|..];
    assert a' == (a' + b')[..|a'|] && b' == (a' + b')[|a'|..];
  }

  lemma {:induction false} CodesFromInjective(x: seq<nat>, y: seq<nat>, r: nat)
    requires |x| == |y| && CodesFrom(x, r) == CodesFrom(y, r)
    requires forall s :: 0 <= s < |x| ==> x[s] < Power2(NUM_RANK) && y[s] < Power2(NUM_RANK)
    ensures x == y
  {
    if x != [] {
      BitsBetween(x[0], r, NUM_RANK);
      BitsBetween(y[0], r, NUM_RANK);
      CodesBetween(x[1..], r + NUM_RANK);
      CodesBetween(y[1..], r + NUM_RANK);
      SplitBelow(Bits(x[0], r, NUM_RANK), CodesFrom(x[1..], r + NUM_RANK),
                 Bits(y[0], r, NUM_RANK), CodesFrom(y[1..], r + NUM_RANK), r + NUM_RANK);
      BitsInjective(x[0], y[0], r, NUM_RANK);
      CodesFromInjective(x[1..], y[1..], r + NUM_RANK);
      assert x == [x[0]] + x[1..] && y == [y[0]] + y[1..];
    }
  }

  lemma CodesInjective(x: seq<nat>, y: seq<nat>)
    requires Masks(x) && Masks(y) && Codes(x) == Codes(y)
    ensures x == y
  {
    Power13();
    CodesFromInjective(x, y, 0);
  }

  lemma Power13()
    ensures Power2(13) == 0x2000
  {
    assert Power2(6) == 64;
    assert Power2(10) == 1024;
  }

  // ---------------------------------------------------------------- sorting the suits

  function Insert(x: nat, s: seq<nat>): (t: seq<nat>)
    ensures multiset(t) == multiset(s) + multiset{x}
  {
    if s == [] then [x]
    else if x <= s[0] then [x] + s
    else
      assert s == [s[0]] + s[1..];
      [s[0]] + Insert(x, s[1..])
  }

  /** std::sort. */
  function Sort(s: seq<nat>): (t: seq<nat>)
    ensures multiset(t) == multiset(s) && |t| == |s|
  {
    if s == [] then []
    else
      assert s == [s[0]] + s[1..];
      var t := Insert(s[0], Sort(s[1..]));
      assert |multiset(t)| == |multiset(s)|;
      t
  }

  predicate Sorted(s: seq<nat>) {
    forall i, j :: 0 <= i < j < |s| ==> s[i] <= s[j]
  }

  lemma {:induction false} InsertSorted(x: nat, s: seq<nat>)
    requires Sorted(s)
    ensures Sorted(Insert(x, s))
  {
    if s != [] && x > s[0] {
      InsertSorted(x, s[1..]);
      var t := Insert(x, s[1..]);
      forall j | 0 <= j < |t| ensures s[0] <= t[j] {
        assert t[j] in multiset(t);
        if t[j] != x { assert t[j] in s[1..]; }
      }
    }
  }

  lemma {:induction false} SortSorted(s: seq<nat>)
    ensures Sorted(Sort(s))
  {
    if s != [] {
      SortSorted(s[1..]);
      InsertSorted(s[0], Sort(s[1..]));
    }
  }

  /** Sorted lists with the same elements are the same. */
  lemma {:induction false} SortedUnique(a: seq<nat>, b: seq<nat>)
    requires Sorted(a) && Sorted(b) && multiset(a) == multiset(b)
    ensures a == b
    decreases |a|
  {
    assert |a| == |multiset(a)| == |multiset(b)| == |b|;
    if a != [] {
      SameHead(a, b);
      Tail(a);
      Tail(b);
      SortedUnique(a[1..], b[1..]);
      assert a == [a[0]] + a[1..] && b == [b[0]] + b[1..];
    }
  }

  lemma SameHead(a: seq<nat>, b: seq<nat>)
    requires Sorted(a) && Sorted(b) && multiset(a) == multiset(b) && a != [] && b != []
    ensures a[0] == b[0]
  {
    assert a[0] in multiset(b) && b[0] in multiset(a);
    var i :| 0 <= i < |b| && b[i] == a[0];
    var j :| 0 <= j < |a| && a[j] == b[0];
  }

  lemma Tail(a: seq<nat>)
    requires a != []
    ensures multiset(a[1..]) == multiset(a) - multiset{a[0]} && multiset(a) == multiset{a[0]} + multiset(a[1..])
  {
    assert a == [a[0]] + a[1..];
  }

  // ---------------------------------------------------------------- canonical card sets

  /** canonize: the largest mask becomes the first suit. */
  function Canonize(m: seq<nat>): (c: seq<nat>)
    requires |m| == NUM_SUIT
    ensures |c| == NUM_SUIT
  {
    var s := Sort(m);
    [s[3], s[2], s[1], s[0]]
  }

  /** rotateSuits: suit i of m becomes suit p[i]. */
  function RotateSuits(m: seq<nat>, p: seq<nat>): (r: seq<nat>)
    requires |m| == |p| == NUM_SUIT && Permutation(p)
    ensures |r| == NUM_SUIT && forall i :: 0 <= i < NUM_SUIT ==> r[p[i]] == m[i]
  {
    seq(NUM_SUIT, j requires 0 <= j < NUM_SUIT =>
      if p[0] == j then m[0] else if p[1] == j then m[1] else if p[2] == j then m[2] else m[3])
  }

  predicate Permutation(p: seq<nat>) {
    && (forall i :: 0 <= i < |p| ==> p[i] < |p|)
    && forall i, j :: 0 <= i < j < |p| ==> p[i] != p[j]
  }

  /** y is x with its suits renamed. */
  ghost predicate Renamed(x: seq<nat>, y: seq<nat>) {
    |x| == |y| == NUM_SUIT && exists p: seq<nat> :: |p| == NUM_SUIT && Permutation(p) && RotateSuits(x, p) == y
  }

  lemma FourReversed(s: seq<nat>)
    requires |s| == 4
    ensures multiset([s[3], s[2], s[1], s[0]]) == multiset(s)
  {
    assert s == [s[0], s[1], s[2], s[3]];
    assert multiset([s[3], s[2], s[1], s[0]]) == multiset{s[3], s[2], s[1], s[0]};
  }

  lemma CanonizeMasks(m: seq<nat>)
    requires Masks(m)
    ensures Masks(Canonize(m)) && multiset(Canonize(m)) == multiset(m)
  {
    FourReversed(Sort(m));
    forall i | 0 <= i < NUM_SUIT ensures Canonize(m)[i] < 0x2000 {
      assert Canonize(m)[i] in multiset(m);
    }
  }

  /** Card sets have the same canonical form exactly when they have the same masks, in any order. */
  lemma CanonicalForm(x: seq<nat>, y: seq<nat>)
    requires Masks(x) && Masks(y)
    ensures Canonize(x) == Canonize(y) <==> multiset(x) == multiset(y)
  {
    CanonizeMasks(x);
    CanonizeMasks(y);
    SortSorted(x);
    SortSorted(y);
    if multiset(x) == multiset(y) { SortedUnique(Sort(x), Sort(y)); }
  }

  lemma AllTaken(p: seq<nat>)
    requires Permutation(p) && |p| == NUM_SUIT
    ensures forall j: nat :: j < NUM_SUIT ==> j in p
  {
    assert p[0] in p && p[1] in p && p[2] in p && p[3] in p;
  }

  // ---------------------------------------------------------------- finding the renaming

  /**
    findSuitPermutation: every suit of source goes to the first suit of dest with the same ranks that is not taken yet.
   */
  method FindSuitPermutation(source: seq<nat>, dest: seq<nat>) returns (rot: seq<int>)
    requires |source| == |dest| == NUM_SUIT
    ensures |rot| == NUM_SUIT
    ensures multiset(source) == multiset(dest) ==>
      exists p: seq<nat> :: |p| == NUM_SUIT && Permutation(p) && RotateSuits(source, p) == dest && rot == p
  {
    rot := [];
    var taken: set<nat> := {};
    ghost var p: seq<nat> := [];
    for i := 0 to NUM_SUIT
      invariant |rot| == i
      invariant multiset(source) == multiset(dest) ==> rot == p && |p| == i
      invariant multiset(source) == multiset(dest) ==> Matches(source, dest, p, taken)
    {
      var j := FirstFree(source[i], dest, taken);
      rot := rot + [j];
      if j >= 0 {
        if multiset(source) == multiset(dest) { MatchOneMore(source, dest, p, taken, j); }
        p := p + [j];
        taken := taken + {j};
      } else if multiset(source) == multiset(dest) {
        SomeFree(source, dest, p, taken);
        assert false;
      }
    }
    if multiset(source) == multiset(dest) {
      MatchedAll(source, dest, p, taken);
    }
  }

  method FirstFree(mask: nat, dest: seq<nat>, taken: set<nat>) returns (j: int)
    ensures -1 <= j < |dest|
    ensures j >= 0 ==> dest[j] == mask && j !in taken
    ensures j < 0 ==> forall t: nat :: t < |dest| && dest[t] == mask ==> t in taken
  {
    for t := 0 to |dest|
      invariant forall t': nat :: t' < t && dest[t'] == mask ==> t' in taken
    {
      if dest[t] == mask && t !in taken {
        return t;
      }
    }
    j := -1;
  }

  /** The first suits of source have found their places. */
  ghost predicate Matches(source: seq<nat>, dest: seq<nat>, p: seq<nat>, taken: set<nat>) {
    && |p| <= |source| == |dest| && (forall j: nat :: j in taken <==> j in p)
    && (forall i :: 0 <= i < |p| ==> p[i] < |dest| && dest[p[i]] == source[i])
    && (forall i, j :: 0 <= i < j < |p| ==> p[i] != p[j])
  }

  lemma MatchOneMore(source: seq<nat>, dest: seq<nat>, p: seq<nat>, taken: set<nat>, j: nat)
    requires Matches(source, dest, p, taken) && |p| < |source| && j < |dest| && dest[j] == source[|p|] && j !in taken
    ensures Matches(source, dest, p + [j], taken + {j})
  {
  }

  /** How many places below k are not taken and hold mask. */
  function Free(dest: seq<nat>, taken: set<nat>, k: nat, mask: nat): nat
    requires k <= |dest|
  {
    if k == 0 then 0 else Free(dest, taken, k - 1, mask) + if k - 1 !in taken && dest[k - 1] == mask then 1 else 0
  }

  lemma {:induction false} FreeAtFirst(dest: seq<nat>, k: nat, mask: nat)
    requires k <= |dest|
    ensures Free(dest, {}, k, mask) == multiset(dest[..k])[mask]
  {
    if k > 0 {
      FreeAtFirst(dest, k - 1, mask);
      assert dest[..k] == dest[..k - 1] + [dest[k - 1]];
    }
  }

  lemma {:induction false} FreeLess(dest: seq<nat>, taken: set<nat>, j: nat, k: nat, mask: nat)
    requires k <= |dest| && j < |dest| && j !in taken
    ensures Free(dest, taken, k, mask) == Free(dest, taken + {j}, k, mask) + if j < k && dest[j] == mask then 1 else 0
  {
    if k > 0 { FreeLess(dest, taken, j, k - 1, mask); }
  }

  /** What dest holds is what source has placed and what is free. */
  lemma {:induction false} FreeIs(source: seq<nat>, dest: seq<nat>, p: seq<nat>, taken: set<nat>, mask: nat)
    requires Matches(source, dest, p, taken)
    ensures multiset(dest)[mask] == multiset(source[..|p|])[mask] + Free(dest, taken, |dest|, mask)
    decreases |p|
  {
    if p == [] {
      assert taken == {};
      FreeAtFirst(dest, |dest|, mask);
      assert dest[..|dest|] == dest;
    } else {
      var n := |p| - 1;
      var before := taken - {p[n]};
      assert p == p[..n] + [p[n]];
      assert forall j: nat :: j in before <==> j in p[..n];
      FreeIs(source, dest, p[..n], before, mask);
      FreeLess(dest, before, p[n], |dest|, mask);
      assert before + {p[n]} == taken;
      assert source[..|p|] == source[..n] + [source[n]];
    }
  }

  lemma {:induction false} FreeHas(dest: seq<nat>, taken: set<nat>, mask: nat, k: nat)
    requires k <= |dest| && Free(dest, taken, k, mask) > 0
    ensures exists t: nat :: t < k && dest[t] == mask && t !in taken
  {
    if Free(dest, taken, k - 1, mask) > 0 {
      FreeHas(dest, taken, mask, k - 1);
      var t: nat :| t < k - 1 && dest[t] == mask && t !in taken;
      assert t < k;
    }
  }

  lemma {:induction false} FreeNone(dest: seq<nat>, taken: set<nat>, k: nat, mask: nat)
    requires k <= |dest| && forall t: nat :: t < k ==> t in taken
    ensures Free(dest, taken, k, mask) == 0
  {
    if k > 0 { FreeNone(dest, taken, k - 1, mask); }
  }

  /** With the same masks on both sides there is always a free suit. */
  lemma SomeFree(source: seq<nat>, dest: seq<nat>, p: seq<nat>, taken: set<nat>)
    requires Matches(source, dest, p, taken) && |p| < |source| && multiset(source) == multiset(dest)
    ensures exists t: nat :: t < |dest| && dest[t] == source[|p|] && t !in taken
  {
    var n := |p|;
    FreeIs(source, dest, p, taken, source[n]);
    assert source == source[..n] + source[n..];
    assert source[n] == source[n..][0];
    FreeHas(dest, taken, source[n], |dest|);
  }

  /** Renaming the suits leaves the masks the same. */
  lemma RotateKeepsMasks(m: seq<nat>, p: seq<nat>)
    requires |m| == |p| == NUM_SUIT && Permutation(p)
    ensures multiset(RotateSuits(m, p)) == multiset(m)
  {
    var r := RotateSuits(m, p);
    var taken := set j | j in p;
    AllTaken(p);
    assert m[..|p|] == m;
    var before: multiset<nat>, after: multiset<nat> := multiset(m), multiset(r);
    forall mask: nat ensures after[mask] == before[mask] {
      FreeIs(m, r, p, taken, mask);
      FreeNone(r, taken, |r|, mask);
    }
  }

  lemma MatchedAll(source: seq<nat>, dest: seq<nat>, p: seq<nat>, taken: set<nat>)
    requires Matches(source, dest, p, taken) && |p| == |source| == NUM_SUIT
    ensures Permutation(p) && RotateSuits(source, p) == dest
  {
    AllTaken(p);
    var r := RotateSuits(source, p);
    forall j: nat | j < NUM_SUIT ensures r[j] == dest[j] {
      assert j in p;
      var i :| 0 <= i < |p| && p[i] == j;
      assert r[p[i]] == source[i] == dest[p[i]];
    }
  }

  // ---------------------------------------------------------------- the number of the canonical form

  lemma {:induction false} SameMasksRenamed(x: seq<nat>, y: seq<nat>, p: seq<nat>, taken: set<nat>)
    requires |x| == |y| == NUM_SUIT && multiset(x) == multiset(y) && Matches(x, y, p, taken)
    ensures Renamed(x, y)
    decreases NUM_SUIT - |p|
  {
    if |p| == NUM_SUIT {
      MatchedAll(x, y, p, taken);
    } else {
      SomeFree(x, y, p, taken);
      var t: nat :| t < |y| && y[t] == x[|p|] && t !in taken;
      MatchOneMore(x, y, p, taken, t);
      SameMasksRenamed(x, y, p + [t], taken + {t});
    }
  }

  /** Renaming the suits is what leaves the masks the same, in some order. */
  lemma RenamedIsSameMasks(x: seq<nat>, y: seq<nat>)
    requires |x| == |y| == NUM_SUIT
    ensures Renamed(x, y) <==> multiset(x) == multiset(y)
  {
    if Renamed(x, y) {
      var p: seq<nat> :| |p| == NUM_SUIT && Permutation(p) && RotateSuits(x, p) == y;
      RotateKeepsMasks(x, p);
    }
    if multiset(x) == multiset(y) { SameMasksRenamed(x, y, [], {}); }
  }

  /** Canonizing renames the suits. */
  lemma CanonizeRenames(m: seq<nat>)
    requires Masks(m)
    ensures Renamed(m, Canonize(m)) && Canonize(Canonize(m)) == Canonize(m)
  {
    CanonizeMasks(m);
    RenamedIsSameMasks(m, Canonize(m));
    CanonicalForm(m, Canonize(m));
  }

  /**
    Two card sets of the same size get the same number after canonizing exactly when one is the other
    with its suits renamed.
   */
  lemma CanonicalNumbers(x: seq<nat>, y: seq<nat>)
    requires Masks(x) && Masks(y) && |Codes(x)| == |Codes(y)|
    ensures |Codes(Canonize(x))| == |Codes(x)|
    ensures ColexOf(Canonize(x)) == ColexOf(Canonize(y)) <==> Renamed(x, y)
  {
    CanonizeMasks(x);
    CanonizeMasks(y);
    SameSize(x, Canonize(x));
    SameSize(y, Canonize(y));
    RenamedIsSameMasks(x, y);
    CanonicalForm(x, y);
    if ColexOf(Canonize(x)) == ColexOf(Canonize(y)) {
      CodesAscend(Canonize(x));
      CodesAscend(Canonize(y));
      NumberInjective(Codes(Canonize(x)), Codes(Canonize(y)), 52);
      CodesInjective(Canonize(x), Canonize(y));
    }
  }

  function CountBits(mask: nat, n: nat): nat {
    if n == 0 then 0 else mask % 2 + CountBits(mask / 2, n - 1)
  }

  lemma {:induction false} BitsCounted(mask: nat, r: nat, n: nat)
    ensures |Bits(mask, r, n)| == CountBits(mask, n)
    decreases n
  {
    if n > 0 { BitsCounted(mask / 2, r + 1, n - 1); }
  }

  function SumCounts(m: seq<nat>): nat {
    if m == [] then 0 else CountBits(m[0], NUM_RANK) + SumCounts(m[1..])
  }

  lemma {:induction false} SumCountsMoves(a: seq<nat>, b: seq<nat>)
    requires multiset(a) == multiset(b)
    ensures SumCounts(a) == SumCounts(b)
    decreases |a|
  {
    assert |a| == |multiset(a)| == |multiset(b)| == |b|;
    if a != [] {
      assert a[0] in multiset(b);
      var j :| 0 <= j < |b| && b[j] == a[0];
      Tail(a);
      TakeOut(b, j);
      SumCountsMoves(a[1..], b[..j] + b[j + 1..]);
      SumCountsSplit(b, j);
    }
  }

  lemma TakeOut(b: seq<nat>, j: nat)
    requires j < |b|
    ensures multiset(b) == multiset{b[j]} + multiset(b[..j] + b[j + 1..])
    ensures multiset(b[..j] + b[j + 1..]) == multiset(b) - multiset{b[j]}
  {
    assert b == b[..j] + [b[j]] + b[j + 1..];
    assert multiset(b) == multiset(b[..j]) + multiset{b[j]} + multiset(b[j + 1..]);
  }

  lemma {:induction false} SumCountsSplit(b: seq<nat>, j: nat)
    requires j < |b|
    ensures SumCounts(b) == CountBits(b[j], NUM_RANK) + SumCounts(b[..j] + b[j + 1..])
  {
    if j == 0 {
      assert b[..0] + b[1..] == b[1..];
    } else {
      SumCountsSplit(b[1..], j - 1);
      assert (b[..j] + b[j + 1..])[1..] == b[1..][..j - 1] + b[1..][j..];
      assert b[1..][j..] == b[j + 1..];
    }
  }

  lemma SameSize(x: seq<nat>, y: seq<nat>)
    requires |x| == |y| == NUM_SUIT && multiset(x) == multiset(y)
    ensures |Codes(x)| == |Codes(y)|
  {
    SumCountsMoves(x, y);
    CodesCounted(x, 0);
    CodesCounted(y, 0);
  }

  lemma {:induction false} CodesCounted(m: seq<nat>, r: nat)
    ensures |CodesFrom(m, r)| == SumCounts(m)
  {
    if m != [] {
      BitsCounted(m[0], r, NUM_RANK);
      CodesCounted(m[1..], r + NUM_RANK);
    }
  }

  /** ComputeColex, from the codes of the cards that are set. */
  method ComputeColex(m: seq<nat>) returns (value: nat)
    requires |m| == NUM_SUIT
    ensures value == ColexOf(m) && value < Choose(52, |Codes(m)|)
  {
    value := 0;
    var cards := Codes(m);
    CodesAscend(m);
    for i := 0 to |cards|
      invariant value == Number(cards[..i])
    {
      var code := cards[i];
      if code >= i + 1 {
        var c := NCkCard(code, i + 1);
        value := value + c;
      } else {
        ChooseTooMany(code, i + 1);
      }
      assert cards[..i + 1][..i] == cards[..i];
    }
    assert cards[..|cards|] == cards;
    NumberBelow(cards, 52);
  }
}
