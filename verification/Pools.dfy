/**
  The list pools of modules/acpc_server/bm_server.c: entries on a doubly linked list, and removed entries on a free list
  from which the next ones are taken.  An entry is known by its number among those the pool ever allocated.
 */
module Pools {

  const NULL := -1

  /** The list that starts at first is es, and each entry knows the one before it. */
  ghost predicate Linked(first: int, es: seq<nat>, next: seq<int>, prev: seq<int>) {
    && |next| == |prev|
    && (forall k :: 0 <= k < |es| ==> es[k] < |next|)
    && (es == [] ==> first == NULL)
    && (es != [] ==> first == es[0] && next[es[|es| - 1]] == NULL)
    && forall k: nat :: LinkedAt(es, next, prev, k)
  }

  ghost predicate LinkedAt(es: seq<nat>, next: seq<int>, prev: seq<int>, k: nat)
    requires |next| == |prev| && forall k :: 0 <= k < |es| ==> es[k] < |next|
  {
    k + 1 < |es| ==> next[es[k]] == es[k + 1] && prev[es[k + 1]] == es[k]
  }

  /** The entries of the list have the same links as before. */
  lemma LinksKept(first: int, es: seq<nat>, next: seq<int>, prev: seq<int>, next': seq<int>, prev': seq<int>)
    requires Linked(first, es, next, prev) && |next'| == |prev'| >= |next|
    requires forall e :: e in es ==> next'[e] == next[e] && prev'[e] == prev[e]
    ensures Linked(first, es, next', prev')
  {
    forall k: nat ensures LinkedAt(es, next', prev', k) { assert LinkedAt(es, next, prev, k); }
  }

  lemma RestIsLinked(es: seq<nat>, next: seq<int>, prev: seq<int>)
    requires es != [] && Linked(es[0], es, next, prev)
    ensures Linked(next[es[0]], es[1..], next, prev)
  {
    assert LinkedAt(es, next, prev, 0);
    forall k: nat ensures LinkedAt(es[1..], next, prev, k) { assert LinkedAt(es, next, prev, k + 1); }
  }

  /** With a new entry linked before the first one, the list is that entry and then the others. */
  lemma PushIsLinked(entry: nat, first: int, es: seq<nat>, next: seq<int>, prev: seq<int>, next': seq<int>,
                     prev': seq<int>)
    requires Linked(first, es, next, prev) && Distinct(es) && entry !in es && entry < |next'| == |prev'|
    requires |next| <= |next'|
    requires next'[entry] == first && (es != [] ==> prev'[es[0]] == entry)
    requires forall e :: e in es ==> next'[e] == next[e] && (e != es[0] ==> prev'[e] == prev[e])
    ensures Linked(entry, [entry] + es, next', prev')
  {
    forall k: nat ensures LinkedAt([entry] + es, next', prev', k) {
      if 0 < k < |es| {
        assert LinkedAt(es, next, prev, k - 1);
        Differ(es, 0, k);
      }
    }
  }

  /** With its neighbours linked to each other, an entry is off the list. */
  lemma Unlinked(es: seq<nat>, k: nat, next: seq<int>, prev: seq<int>, next': seq<int>, prev': seq<int>)
    requires k < |es| && Distinct(es) && Linked(es[0], es, next, prev) && |next'| == |prev'| == |next|
    requires forall e :: e in es && (k > 0 ==> e != es[k - 1]) ==> next'[e] == next[e]
    requires forall e :: e in es && (k + 1 < |es| ==> e != es[k + 1]) ==> prev'[e] == prev[e]
    requires k > 0 ==> next'[es[k - 1]] == next[es[k]]
    requires k + 1 < |es| ==> prev'[es[k + 1]] == prev[es[k]]
    ensures Linked(if k > 0 then es[0] else next[es[0]], Without(es, k), next', prev')
  {
    var rest := Without(es, k);
    forall l: nat ensures LinkedAt(rest, next', prev', l) {
      assert LinkedAt(es, next, prev, l) && LinkedAt(es, next, prev, l + 1);
      if l + 1 < k {
        Differ(es, l, k - 1);
        if k + 1 < |es| { Differ(es, l + 1, k + 1); }
      } else if k <= l && l + 2 < |es| {
        if k > 0 { Differ(es, k - 1, l + 1); }
        Differ(es, k + 1, l + 2);
      }
    }
    assert LinkedAt(es, next, prev, 0);
    if k + 1 < |es| && k > 0 { Differ(es, k - 1, |es| - 1); }
  }

  ghost predicate Distinct<T>(es: seq<T>) {
    forall k: nat :: DistinctAt(es, k)
  }

  ghost predicate DistinctAt<T>(es: seq<T>, k: nat) {
    k < |es| ==> es[k] !in es[..k]
  }

  ghost predicate Apart<T>(a: seq<T>, b: seq<T>) {
    forall k: nat :: ApartAt(a, b, k)
  }

  ghost predicate ApartAt<T>(a: seq<T>, b: seq<T>, k: nat) {
    k < |a| ==> a[k] !in b
  }

  lemma Differ<T>(es: seq<T>, i: nat, j: nat)
    requires i < |es| && j < |es| && Distinct(es)
    ensures i != j ==> es[i] != es[j]
  {
    assert DistinctAt(es, i) && DistinctAt(es, j);
    if i < j { assert es[..j][i] == es[i]; }
    if j < i { assert es[..i][j] == es[j]; }
  }

  lemma NotInBoth<T>(a: seq<T>, b: seq<T>)
    requires Apart(a, b)
    ensures forall e :: e in a ==> e !in b
  {
    forall e | e in a ensures e !in b {
      var k: nat :| k < |a| && a[k] == e;
      assert ApartAt(a, b, k);
    }
  }

  lemma ApartFrom<T>(a: seq<T>, b: seq<T>)
    requires forall e :: e in a ==> e !in b
    ensures Apart(a, b)
  {
    forall k: nat ensures ApartAt(a, b, k) {}
  }

  lemma PushIsDistinct<T>(e: T, es: seq<T>)
    requires e !in es && Distinct(es)
    ensures Distinct([e] + es)
  {
    forall k: nat ensures DistinctAt([e] + es, k) {
      if 0 < k <= |es| {
        assert DistinctAt(es, k - 1);
        assert ([e] + es)[..k] == [e] + es[..k - 1];
      }
    }
  }

  lemma RestIsDistinct<T>(es: seq<T>)
    requires es != [] && Distinct(es)
    ensures Distinct(es[1..]) && es[0] !in es[1..]
  {
    forall k: nat ensures DistinctAt(es[1..], k) && (k < |es| - 1 ==> es[1..][k] != es[0]) {
      assert DistinctAt(es, k + 1);
      if k < |es| - 1 { assert es[..k + 1] == [es[0]] + es[1..][..k]; }
    }
  }

  /** The item in a recycled entry, or in the next one allocated. */
  function Put<T>(data: seq<T>, entry: nat, item: T): seq<T>
    requires entry <= |data|
  {
    if entry == |data| then data + [item] else data[entry := item]
  }

  /** The list without its k-th entry. */
  function Without<T>(es: seq<T>, k: nat): seq<T>
    requires k < |es|
  {
    es[..k] + es[k + 1..]
  }

  lemma WithoutIsDistinct<T>(es: seq<T>, k: nat)
    requires k < |es| && Distinct(es)
    ensures Distinct(Without(es, k)) && es[k] !in Without(es, k)
    ensures forall e :: e in Without(es, k) ==> e in es
  {
    var rest := Without(es, k);
    forall l: nat ensures DistinctAt(rest, l) && (l < |rest| ==> rest[l] != es[k]) {
      assert DistinctAt(es, l) && DistinctAt(es, l + 1) && DistinctAt(es, k);
      if l < k {
        assert es[..k][l] == rest[l] && rest[..l] == es[..l];
      } else if l < |rest| {
        assert es[..l + 1][k] == es[k];
        forall e | e in rest[..l] ensures e in es[..l + 1] {
          var i :| 0 <= i < l && rest[..l][i] == e;
          assert e == if i < k then es[..l + 1][i] else es[..l + 1][i + 1];
        }
      }
    }
  }

  class Pool<T> {
    var head: int
    var free: int
    var numEntries: int
    /** The memory of every entry allocated so far. */
    var next: seq<int>
    var prev: seq<int>
    var data: seq<T>
    /** The entries in use, from the head, and those on the free list. */
    ghost var live: seq<nat>
    ghost var spare: seq<nat>

    ghost predicate Valid()
      reads this
    {
      && numEntries == |live| && |data| == |next| && Distinct(live) && Distinct(spare) && Apart(live, spare)
      && Linked(head, live, next, prev) && (live != [] ==> prev[live[0]] == NULL)
      && Linked(free, spare, next, prev)
    }

    constructor ()
      ensures Valid() && live == [] && spare == [] && data == []
    {
      head, free, numEntries := NULL, NULL, 0;
      next, prev, data := [], [], [];
      live, spare := [], [];
    }

    /** Walks the list, checking the links back. */
    method EntryInList(list: int, entry: nat, ghost es: seq<nat>) returns (found: bool)
      requires Linked(list, es, next, prev)
      ensures found <==> entry in es
    {
      var cur := list;
      ghost var k: nat := 0;
      while cur != NULL
        invariant k <= |es| && cur == (if k < |es| then es[k] else NULL)
        invariant entry !in es[..k]
        decreases |es| - k
      {
        if entry == cur {
          return true;
        }
        assert LinkedAt(es, next, prev, k);
        if next[cur] != NULL {
          assert prev[next[cur]] == cur;
        }
        cur := next[cur];
        k := k + 1;
      }
      return false;
    }

    /** Where a walk of the list starts. */
    method FirstEntry() returns (first: int)
      requires Valid()
      ensures first == if live == [] then NULL else live[0]
    {
      first := head;
    }

    /** Where it goes on. */
    method NextEntry(cur: nat, ghost k: nat) returns (after: int)
      requires Valid() && k < |live| && live[k] == cur
      ensures after == if k + 1 < |live| then live[k + 1] else NULL
    {
      assert LinkedAt(live, next, prev, k);
      after := next[cur];
    }

    /** The new item goes to the head of the list, in a recycled entry if there is one. */
    method AddItem(item: T) returns (entry: nat)
      requires Valid()
      modifies this
      ensures Valid()
      ensures live == [entry] + old(live) && entry !in old(live)
      ensures entry <= |old(data)| && data == Put(old(data), entry, item)
      ensures old(spare) == [] ==> entry == |old(data)| && spare == []
      ensures old(spare) != [] ==> entry == old(spare[0]) && spare == old(spare[1..])
    {
      NotInBoth(live, spare);
      if free != NULL {
        entry := free;
        free := next[entry];
        RestIsLinked(spare, next, prev);
        RestIsDistinct(spare);
        spare := spare[1..];
      } else {
        entry := |data|;
        next, prev, data := next + [NULL], prev + [NULL], data + [item];
        LinksKept(head, live, old(next), old(prev), next, prev);
        LinksKept(free, spare, old(next), old(prev), next, prev);
      }
      ApartFrom(live, spare);
      Link(entry);
      data := data[entry := item];
      numEntries := numEntries + 1;
    }

    /** An entry on neither list becomes the head. */
    method Link(entry: nat)
      requires |data| == |next| && Distinct(live) && Distinct(spare) && Apart(live, spare)
      requires Linked(head, live, next, prev) && (live != [] ==> prev[live[0]] == NULL)
      requires Linked(free, spare, next, prev)
      requires entry < |data| && entry !in live && entry !in spare
      modifies this`head, this`live, this`next, this`prev
      ensures live == [entry] + old(live) && |data| == |next|
      ensures Distinct(live) && Apart(live, spare)
      ensures Linked(head, live, next, prev) && prev[entry] == NULL && Linked(free, spare, next, prev)
    {
      NotInBoth(live, spare);
      var already := EntryInList(head, entry, live);
      assert !already;
      next := next[entry := head];
      prev := prev[entry := NULL];
      if head != NULL {
        prev := prev[head := entry];
      }
      LinksKept(free, spare, old(next), old(prev), next, prev);
      PushIsLinked(entry, head, live, old(next), old(prev), next, prev);
      PushIsDistinct(entry, live);
      head := entry;
      live := [entry] + live;
      ApartFrom(live, spare);
    }

    /** The k-th entry is taken off the list and put on the free list. */
    method RemoveEntry(entry: nat, ghost k: nat)
      requires Valid() && k < |live| && live[k] == entry
      modifies this
      ensures Valid() && data == old(data)
      ensures live == Without(old(live), k) && spare == [entry] + old(spare)
    {
      Unlink(entry, k);
      Recycle(entry);
      numEntries := numEntries - 1;
    }

    /** An entry off the list goes to the head of the free list. */
    method Recycle(entry: nat)
      requires |data| == |next| && Distinct(live) && Distinct(spare) && Apart(live, spare)
      requires Linked(head, live, next, prev) && (live != [] ==> prev[live[0]] == NULL)
      requires Linked(free, spare, next, prev)
      requires entry < |data| && entry !in live && entry !in spare
      modifies this`free, this`spare, this`next, this`prev
      ensures spare == [entry] + old(spare) && |data| == |next| && Distinct(spare) && Apart(live, spare)
      ensures Linked(head, live, next, prev) && (live != [] ==> prev[live[0]] == NULL)
      ensures Linked(free, spare, next, prev)
    {
      NotInBoth(live, spare);
      var already := EntryInList(free, entry, spare);
      assert !already;
      if free != NULL {
        prev := prev[free := entry];
      }
      next := next[entry := free];
      LinksKept(head, live, old(next), old(prev), next, prev);
      PushIsLinked(entry, free, spare, old(next), old(prev), next, prev);
      PushIsDistinct(entry, spare);
      free := entry;
      spare := [entry] + spare;
      ApartFrom(live, spare);
    }

    method Unlink(entry: nat, ghost k: nat)
      requires Distinct(live) && Apart(live, spare)
      requires Linked(head, live, next, prev) && (live != [] ==> prev[live[0]] == NULL)
      requires Linked(free, spare, next, prev)
      requires k < |live| && live[k] == entry
      modifies this`head, this`live, this`next, this`prev
      ensures live == Without(old(live), k) && |next| == old(|next|) && Distinct(live) && entry !in live
      ensures entry !in spare
      ensures Apart(live, spare)
      ensures Linked(head, live, next, prev) && (live != [] ==> prev[live[0]] == NULL)
      ensures Linked(free, spare, next, prev)
    {
      NotInBoth(live, spare);
      WithoutIsDistinct(live, k);
      assert LinkedAt(live, next, prev, k);
      assert k > 0 ==> LinkedAt(live, next, prev, k - 1);
      if prev[entry] != NULL {
        assert next[prev[entry]] == entry;
        next := next[prev[entry] := next[entry]];
      } else {
        assert head == entry;
        head := next[entry];
      }
      if next[entry] != NULL {
        assert prev[next[entry]] == entry;
        prev := prev[next[entry] := prev[entry]];
      }
      LinksKept(free, spare, old(next), old(prev), next, prev);
      Unlinked(live, k, old(next), old(prev), next, prev);
      live := Without(live, k);
      ApartFrom(live, spare);
    }
  }
}
