/**
  Hands of two cards as one index (modules/core/src/card_util.cpp): ToVectorIndex and FromVectorIndex
  are inverse bijections, although the second goes through a rounded square root.
 */
module Cards {

  /** The square root of n, rounded to the nearest whole number: r + 1/2 squared is r * (r + 1) + 1/4. */
  function RoundSqrt(n: nat): nat {
    RoundSqrtFrom(n, 0)
  }

  function RoundSqrtFrom(n: nat, r: nat): nat
    decreases if n > r then n - r else 0
  {
    if r * (r + 1) >= n || r >= n then r else RoundSqrtFrom(n, r + 1)
  }

  function Pairs(high: nat): nat {
    (high * high - high) / 2
  }

  function ToVectorIndex(a: nat, b: nat): nat {
    if b > a then Pairs(b) + a else Pairs(a) + b
  }

  function FromVectorIndex(v: nat): (int, int) {
    var high := RoundSqrt(2 * v + 2);
    (high, v - Pairs(high))
  }

  /** VectorIdxClash, with its early exits. */
  predicate VectorIdxClash(v: nat, u: nat) {
    var a, b := FromVectorIndex(v), FromVectorIndex(u);
    if a.0 < b.1 then false
    else if a.1 > b.0 then false
    else a.0 == b.0 || a.0 == b.1 || a.1 == b.0 || a.1 == b.1
  }

  lemma {:induction false} PairsStep(high: nat)
    ensures 2 * Pairs(high) == high * high - high
    ensures Pairs(high + 1) == Pairs(high) + high
  {
    Even(high);
    Even(high + 1);
    assert (high + 1) * (high + 1) - (high + 1) == high * high - high + 2 * high;
  }

  lemma {:induction false} Even(n: nat)
    ensures (n * n - n) % 2 == 0
  {
    if n > 0 {
      Even(n - 1);
      assert n * n - n == (n - 1) * (n - 1) - (n - 1) + 2 * (n - 1);
    }
  }

  lemma {:induction false} RoundSqrtIs(n: nat, r: nat, from: nat)
    requires from <= r <= n && r * (r + 1) >= n && (r > 0 ==> (r - 1) * r < n)
    ensures RoundSqrtFrom(n, from) == r
    decreases r - from
  {
    if from < r {
      Oblong(from, r - 1);
      RoundSqrtIs(n, r, from + 1);
    }
  }

  lemma Oblong(a: nat, b: nat)
    requires a <= b
    ensures a * (a + 1) <= b * (b + 1)
  {
    assert a * (a + 1) <= a * (b + 1) <= b * (b + 1);
  }

  /** A pair of cards survives the trip through its index. */
  lemma IndexRoundTrip(high: nat, low: nat)
    requires low < high
    ensures FromVectorIndex(ToVectorIndex(high, low)) == (high, low)
    ensures ToVectorIndex(high, low) == ToVectorIndex(low, high)
  {
    PairsStep(high);
    var n := 2 * (Pairs(high) + low) + 2;
    Oblong(1, high);
    assert high * (high + 1) == high * high + high && (high - 1) * high == high * high - high;
    assert (high - 1) * high < n <= high * (high + 1);
    assert high <= n;
    RoundSqrtIs(n, high, 0);
  }

  /** Every index is that of one pair of different cards, below Pairs(n) exactly when the cards are below n. */
  lemma {:induction false} IndexOfPair(v: nat) returns (high: nat, low: nat)
    ensures low < high && ToVectorIndex(high, low) == v && FromVectorIndex(v) == (high, low)
    ensures forall n: nat :: v < Pairs(n) <==> high < n
  {
    high := 1;
    while Pairs(high + 1) <= v
      invariant high >= 1 && Pairs(high) <= v
      decreases v - Pairs(high)
    {
      PairsStep(high);
      high := high + 1;
    }
    PairsStep(high);
    low := v - Pairs(high);
    IndexRoundTrip(high, low);
    forall n: nat ensures v < Pairs(n) <==> high < n {
      if high < n { PairsGrow(high + 1, n); } else { PairsGrow(n, high); }
    }
  }

  lemma {:induction false} PairsGrow(m: nat, n: nat)
    requires m <= n
    ensures Pairs(m) <= Pairs(n)
  {
    if m < n {
      PairsGrow(m, n - 1);
      PairsStep(n - 1);
    }
  }

  /** Two indices clash exactly when their pairs share a card. */
  lemma ClashIsSharing(v: nat, u: nat)
    ensures var (a, b), (c, d) := FromVectorIndex(v), FromVectorIndex(u);
      VectorIdxClash(v, u) <==> a == c || a == d || b == c || b == d
  {
    var a, b := IndexOfPair(v);
    var c, d := IndexOfPair(u);
  }
}
