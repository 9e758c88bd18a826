/**
  How AddBasicVariable of modules/engine/src/emd.cpp adds a cell to a shipping plan: the cell exhausts its row or its
  column, which then leaves the lists of open rows and columns.
 */
module InitialPlan {
  import opened Sums
  import opened Transport

  predicate NoRepeat(u: seq<nat>) {
    forall k, l :: 0 <= k < l < |u| ==> u[k] != u[l]
  }

  function Without(u: seq<nat>, pos: nat): (r: seq<nat>)
    requires pos < |u|
    ensures |r| == |u| - 1
  {
    u[..pos] + u[pos + 1..]
  }

  lemma WithoutMeans(u: seq<nat>, pos: nat)
    requires NoRepeat(u) && pos < |u|
    ensures NoRepeat(Without(u, pos)) && forall k: nat :: k in Without(u, pos) <==> k in u && k != u[pos]
  {
    var r := Without(u, pos);
    forall k: nat | k in u && k != u[pos] ensures k in r {
      var l :| 0 <= l < |u| && u[l] == k;
      assert r[if l < pos then l else l - 1] == k;
    }
  }

  /** What AddBasicVariable ships from supply s to demand d, and what it leaves of both. */
  function Allocate(s: real, d: real, tolerance: real): (r: (real, real, real)) {
    if -tolerance <= s - d <= tolerance then (s, 0.0, d - s)
    else if s < d then (s, 0.0, d - s)
    else (d, s - d, 0.0)
  }

  /** The supply exceeds the demand by no more than the tolerance, and is shipped to it all the same. */
  predicate Overshoots(s: real, d: real, tolerance: real) {
    d < s <= d + tolerance
  }

  // ---------------------------------------------------------------- amounts in units

  function Units(k: int, unit: real): real { k as real * unit }

  ghost predicate Multiple(x: real, unit: real) {
    exists k: int :: x == Units(k, unit)
  }

  lemma MultipleMinus(x: real, y: real, unit: real)
    requires Multiple(x, unit) && Multiple(y, unit)
    ensures Multiple(x - y, unit)
  {
    var k :| x == Units(k, unit);
    var l :| y == Units(l, unit);
    TimesPlus(unit, k as real, l as real);
    assert x - y == Units(k - l, unit);
  }

  lemma AtLeastOne(k: real, unit: real)
    requires k >= 1.0 && unit > 0.0
    ensures k * unit >= unit && (-k) * unit <= -unit
  {
    TimesMono(unit, 1.0, k);
  }

  lemma SmallMultiple(x: real, unit: real)
    requires Multiple(x, unit) && -unit < x < unit
    ensures x == 0.0
  {
    var k :| x == Units(k, unit);
    if k >= 1 {
      AtLeastOne(k as real, unit);
    } else if k <= -1 {
      AtLeastOne(-k as real, unit);
    }
  }

  ghost predicate Multiples(x: seq<real>, unit: real) {
    forall k :: 0 <= k < |x| ==> x[k] >= 0.0 && Multiple(x[k], unit)
  }

  /** With amounts in units above the tolerance, the degenerate case is exact. */
  lemma AllocateExact(s: real, d: real, tolerance: real, unit: real)
    requires s >= 0.0 && d >= 0.0 && Multiple(s, unit) && Multiple(d, unit) && 0.0 <= tolerance < unit
    ensures var (t, s', d') := Allocate(s, d, tolerance);
      && t == (if s <= d then s else d) && s' == s - t && d' == d - t
      && Multiple(s', unit) && Multiple(d', unit) && t >= 0.0
  {
    MultipleMinus(s, d, unit);
    MultipleMinus(d, s, unit);
    if -tolerance <= s - d <= tolerance { SmallMultiple(s - d, unit); }
    assert 0.0 == Units(0, unit);
  }

  lemma MultiplesUpdate(x: seq<real>, k: nat, y: real, unit: real)
    requires Multiples(x, unit) && k < |x| && y >= 0.0 && Multiple(y, unit)
    ensures Multiples(x[k := y], unit)
  {
  }

  // ---------------------------------------------------------------- cells, and open rows and columns

  ghost predicate OneEach(xs: seq<Slot>) {
    forall k, l :: 0 <= k < l < |xs| ==> xs[k].i != xs[l].i || xs[k].j != xs[l].j
  }

  /** The cells of the slots lie outside the open rows or the open columns. */
  ghost predicate Closed(xs: seq<Slot>, u: seq<nat>, v: seq<nat>) {
    forall k :: 0 <= k < |xs| ==> xs[k].i !in u || xs[k].j !in v
  }

  /** A list of open rows or columns after a step. */
  function Left(u: seq<nat>, pos: nat, gone: bool): seq<nat>
    requires pos < |u|
  {
    if gone then Without(u, pos) else u
  }

  lemma LeftMeans(u: seq<nat>, pos: nat, gone: bool)
    requires NoRepeat(u) && pos < |u|
    ensures NoRepeat(Left(u, pos, gone))
    ensures forall k: nat :: k in Left(u, pos, gone) <==> k in u && !(gone && k == u[pos])
  {
    WithoutMeans(u, pos);
  }

  lemma FreshCell(xs: seq<Slot>, u: seq<nat>, v: seq<nat>, pu: nat, pv: nat, t: real)
    requires Closed(xs, u, v) && OneEach(xs) && pu < |u| && pv < |v|
    ensures OneEach(xs + [Slot(u[pu], v[pv], t)])
  {
    var xs' := xs + [Slot(u[pu], v[pv], t)];
    forall k, l | 0 <= k < l < |xs'| ensures xs'[k].i != xs'[l].i || xs'[k].j != xs'[l].j {
      if l == |xs| { assert xs[k].i !in u || xs[k].j !in v; }
    }
  }

  lemma ClosedStep(xs: seq<Slot>, u: seq<nat>, v: seq<nat>, pu: nat, pv: nat, t: real, rowGone: bool)
    requires Closed(xs, u, v) && NoRepeat(u) && NoRepeat(v) && pu < |u| && pv < |v|
    ensures Closed(xs + [Slot(u[pu], v[pv], t)], Left(u, pu, rowGone), Left(v, pv, !rowGone))
  {
    LeftMeans(u, pu, rowGone);
    LeftMeans(v, pv, !rowGone);
  }
}
