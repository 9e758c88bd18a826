/**
  The colexicographic number of a card set (nCk_card and ComputeColex of modules/core/src/card_util.cpp): k cards
  below n get the numbers below "n choose k", each once.
 */
module Colex {

  function Choose(n: nat, k: nat): nat
    decreases n + k
  {
    if k == 0 then 1 else if n == 0 then 0 else Choose(n - 1, k - 1) + Choose(n - 1, k)
  }

  lemma {:induction false} ChooseTooMany(n: nat, k: nat)
    requires n < k
    ensures Choose(n, k) == 0
  {
    if n > 0 {
      ChooseTooMany(n - 1, k - 1);
      ChooseTooMany(n - 1, k);
    }
  }

  lemma {:induction false} ChooseAll(n: nat)
    ensures Choose(n, n) == 1 && (n > 0 ==> Choose(n, 1) == n)
  {
    if n > 0 {
      ChooseAll(n - 1);
      ChooseTooMany(n - 1, n);
    }
  }

  lemma {:induction false} ChooseGrows(m: nat, n: nat, k: nat)
    requires m <= n
    ensures Choose(m, k) <= Choose(n, k)
  {
    if m < n { ChooseGrows(m, n - 1, k); }
  }

  /** nCk_card: Pascal's triangle along its diagonals. */
  method NCkCard(m: nat, n: nat) returns (c: nat)
    requires m <= 52
    ensures c == Choose(m, n)
  {
    if n > m {
      ChooseTooMany(m, n);
      return 0;
    }
    ChooseAll(m);
    if n == 0 || m == n {
      return 1;
    }
    var mat := new nat[52, 52]((_, _) => 0);
    for j := 0 to n
      invariant forall i, l :: 0 <= i <= m - n && 0 <= l < j ==> mat[i, l] == Choose(i + l + 1, l + 1)
      modifies mat
    {
      mat[0, j] := 1;
      ChooseAll(j + 1);
      for i := 1 to m - n + 1
        invariant forall i', l :: 0 <= i' <= m - n && 0 <= l < j ==> mat[i', l] == Choose(i' + l + 1, l + 1)
        invariant forall i' :: 0 <= i' < i ==> mat[i', j] == Choose(i' + j + 1, j + 1)
        modifies mat
      {
        ChooseAll(i + 1);
        if j == 0 {
          mat[i, j] := i + 1;
        } else {
          mat[i, j] := mat[i - 1, j] + mat[i, j - 1];
        }
      }
    }
    c := mat[m - n, n - 1];
  }

  // ---------------------------------------------------------------- numbers of card sets

  /** Card sets are their cards in ascending order. */
  predicate Ascending(cards: seq<nat>, n: nat) {
    && (forall i, j :: 0 <= i < j < |cards| ==> cards[i] < cards[j])
    && forall i :: 0 <= i < |cards| ==> cards[i] < n
  }

  function Number(cards: seq<nat>): nat {
    if cards == [] then 0 else Number(cards[..|cards| - 1]) + Choose(cards[|cards| - 1], |cards|)
  }

  lemma InitAscending(cards: seq<nat>, n: nat)
    requires Ascending(cards, n) && cards != []
    ensures Ascending(cards[..|cards| - 1], cards[|cards| - 1])
  {
  }

  /** The numbers of k cards below n stay below n choose k. */
  lemma {:induction false} NumberBelow(cards: seq<nat>, n: nat)
    requires Ascending(cards, n)
    ensures Number(cards) < Choose(n, |cards|)
  {
    if cards != [] {
      var k, top := |cards|, cards[|cards| - 1];
      InitAscending(cards, n);
      NumberBelow(cards[..k - 1], top);
      assert Choose(top + 1, k) == Choose(top, k - 1) + Choose(top, k);
      ChooseGrows(top + 1, n, k);
    }
  }

  /** Card sets of the same size have different numbers. */
  lemma {:induction false} NumberInjective(a: seq<nat>, b: seq<nat>, n: nat)
    requires Ascending(a, n) && Ascending(b, n) && |a| == |b| && Number(a) == Number(b)
    ensures a == b
  {
    if a != [] {
      var k := |a| - 1;
      InitAscending(a, n);
      InitAscending(b, n);
      SameTop(a, b, n);
      SameInit(a, b);
      NumberInjective(a[..k], b[..k], n);
      assert a == a[..k] + [a[k]] && b == b[..k] + [b[k]];
    }
  }

  lemma SameInit(a: seq<nat>, b: seq<nat>)
    requires |a| == |b| > 0 && Number(a) == Number(b) && a[|a| - 1] == b[|b| - 1]
    ensures Number(a[..|a| - 1]) == Number(b[..|b| - 1])
  {
  }

  lemma SameTop(a: seq<nat>, b: seq<nat>, n: nat)
    requires Ascending(a, n) && Ascending(b, n) && |a| == |b| > 0 && Number(a) == Number(b)
    ensures a[|a| - 1] == b[|b| - 1]
  {
    if a[|a| - 1] < b[|b| - 1] {
      TopDecides(a, b, n);
    } else if b[|b| - 1] < a[|a| - 1] {
      TopDecides(b, a, n);
    }
  }

  /** The larger top card makes the larger number. */
  lemma TopDecides(a: seq<nat>, b: seq<nat>, n: nat)
    requires Ascending(a, n) && Ascending(b, n) && |a| == |b| > 0 && a[|a| - 1] < b[|b| - 1]
    ensures Number(a) < Number(b)
  {
    NumberBelow(a, b[|b| - 1]);
  }

  /** Every number below n choose k is that of k cards below n. */
  lemma {:induction false} NumberSurjective(x: nat, n: nat, k: nat) returns (cards: seq<nat>)
    requires x < Choose(n, k)
    ensures Ascending(cards, n) && |cards| == k && Number(cards) == x
    decreases n + k
  {
    if k == 0 {
      cards := [];
    } else if x < Choose(n - 1, k) {
      cards := NumberSurjective(x, n - 1, k);
    } else {
      var init := NumberSurjective(x - Choose(n - 1, k), n - 1, k - 1);
      cards := init + [n - 1];
      assert cards[..k - 1] == init;
    }
  }
}
