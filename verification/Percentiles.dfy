/** Percentiles with linear interpolation, over reals. */
module Percentiles {
  import opened Options
  import Sorting

  ghost predicate Ascending(s: seq<real>) {
    forall i, j :: 0 <= i < j < |s| ==> s[i] <= s[j]
  }

  // ----- Sorting

  predicate AtMost(x: real, y: real) { x <= y }

  function Sorted(s: seq<real>): (r: seq<real>)
    ensures |r| == |s|
  {
    Sorting.Sorted(s, AtMost)
  }

  lemma SortedKeeps(s: seq<real>)
    ensures Ascending(Sorted(s)) && multiset(Sorted(s)) == multiset(s)
  {
    Sorting.SortedKeeps(s, AtMost);
    forall i, j | 0 <= i < j < |s|
      ensures Sorted(s)[i] <= Sorted(s)[j]
    {
      assert AtMost(Sorted(s)[i], Sorted(s)[j]);
    }
  }

  /** The order of the values does not matter. */
  lemma SortedOrderFree(a: seq<real>, b: seq<real>)
    requires multiset(a) == multiset(b)
    ensures Sorted(a) == Sorted(b)
  {
    Sorting.SortedOrderFree(a, b, AtMost);
  }

  // ----- Interpolation

  function Ceil(k: real): int { if k == k.Floor as real then k.Floor else k.Floor + 1 }

  /** The value at a fractional position. */
  function At(s: seq<real>, k: real): real
    requires 0.0 <= k <= (|s| - 1) as real
  {
    var lo, hi := k.Floor, Ceil(k);
    if lo == hi then s[lo] else s[lo] + (s[hi] - s[lo]) * (k - lo as real)
  }

  function Pct(s: seq<real>, q: real): Option<real>
    requires 0.0 <= q <= 1.0
  {
    if |s| == 0 then None
    else if |s| == 1 then Some(s[0])
    else Some(At(s, Position(|s| - 1, q)))
  }

  /** The fractional position of a share of the gaps between the values. */
  function Position(gaps: nat, q: real): (k: real)
    requires 0.0 <= q <= 1.0
    ensures 0.0 <= k <= gaps as real
  {
    PositionFits(gaps, q);
    gaps as real * q
  }

  lemma PositionFits(n: nat, q: real)
    requires 0.0 <= q <= 1.0
    ensures 0.0 <= n as real * q <= n as real
  {
    var m := n as real;
    Product(m, q);
    Product(m, 1.0 - q);
    assert m * q + m * (1.0 - q) == m;
  }

  lemma Product(a: real, b: real)
    requires a >= 0.0 && b >= 0.0
    ensures a * b >= 0.0
  {
  }

  lemma Blend(a: real, b: real, f: real)
    requires a <= b && 0.0 <= f <= 1.0
    ensures a <= a + (b - a) * f <= b
  {
    Product(b - a, f);
    Product(b - a, 1.0 - f);
    assert (b - a) * f + (b - a) * (1.0 - f) == b - a;
  }

  lemma BlendMonotone(a: real, b: real, c: real, d: real, f: real)
    requires a <= c && b <= d && 0.0 <= f <= 1.0
    ensures a + (b - a) * f <= c + (d - c) * f
  {
    Product(c - a, 1.0 - f);
    Product(d - b, f);
    assert c + (d - c) * f - (a + (b - a) * f) == (c - a) * (1.0 - f) + (d - b) * f;
  }

  lemma BlendFurther(a: real, b: real, f: real, g: real)
    requires a <= b && f <= g
    ensures a + (b - a) * f <= a + (b - a) * g
  {
    Product(b - a, g - f);
    assert (b - a) * g - (b - a) * f == (b - a) * (g - f);
  }

  /** It lies between the neighbours. */
  lemma AtBetween(s: seq<real>, k: real)
    requires Ascending(s) && 0.0 <= k <= (|s| - 1) as real
    ensures s[k.Floor] <= At(s, k) <= s[Ceil(k)]
  {
    if k.Floor != Ceil(k) {
      Blend(s[k.Floor], s[Ceil(k)], k - k.Floor as real);
    }
  }

  /** At a whole position it is the value that stands there, and between two it runs straight from the one to
      the other. */
  lemma AtInterpolates(s: seq<real>, k: real, i: nat)
    requires 0.0 <= k <= (|s| - 1) as real && i as real <= k
    ensures k == i as real ==> At(s, k) == s[i]
    ensures i < |s| - 1 && k <= (i + 1) as real ==>
      At(s, k) == s[i] * ((i + 1) as real - k) + s[i + 1] * (k - i as real)
  {
    if i < |s| - 1 && k < (i + 1) as real {
      assert k.Floor == i;
      Straight(s[i], s[i + 1], i as real, k);
    }
  }

  lemma Straight(a: real, b: real, from: real, k: real)
    ensures a + (b - a) * (k - from) == a * (from + 1.0 - k) + b * (k - from)
  {
    var f := k - from;
    assert from + 1.0 - k == 1.0 - f;
    assert a * (1.0 - f) == a - a * f;
    assert (b - a) * f == b * f - a * f;
  }

  /** The percentile is read at the share's position: there, or on the straight line between the two values
      around it. */
  lemma PctInterpolates(s: seq<real>, q: real, i: nat)
    requires |s| > 0 && 0.0 <= q <= 1.0 && i as real <= (|s| - 1) as real * q
    ensures Pct(s, q).Some?
    ensures var k := (|s| - 1) as real * q;
            && (k == i as real ==> i < |s| && Pct(s, q).value == s[i])
            && (i < |s| - 1 && k <= (i + 1) as real ==>
                  Pct(s, q).value == s[i] * ((i + 1) as real - k) + s[i + 1] * (k - i as real))
  {
    hide At;
    PositionFits(|s| - 1, q);
    if |s| > 1 {
      AtInterpolates(s, (|s| - 1) as real * q, i);
    }
  }

  lemma AtFurther(s: seq<real>, j: real, k: real)
    requires Ascending(s) && 0.0 <= j <= k <= (|s| - 1) as real
    ensures At(s, j) <= At(s, k)
  {
    AtBetween(s, j);
    AtBetween(s, k);
    if j.Floor == k.Floor {
      if Ceil(j) == Ceil(k) {
        BlendFurther(s[j.Floor], s[Ceil(j)], j - j.Floor as real, k - k.Floor as real);
      }
    } else {
      assert Ceil(j) <= k.Floor;
    }
  }

  lemma PositionFurther(gaps: nat, p: real, q: real)
    requires 0.0 <= p <= q <= 1.0
    ensures Position(gaps, p) <= Position(gaps, q)
  {
    var n := gaps as real;
    Product(n, q - p);
    assert n * q - n * p == n * (q - p);
  }

  /** A larger share is never a smaller percentile. */
  lemma PctMonotone(s: seq<real>, p: real, q: real)
    requires Ascending(s) && |s| > 0 && 0.0 <= p <= q <= 1.0
    ensures Pct(s, p).value <= Pct(s, q).value
  {
    hide At, Position;
    if |s| > 1 {
      PositionFurther(|s| - 1, p, q);
      AtFurther(s, Position(|s| - 1, p), Position(|s| - 1, q));
    }
  }

  /** Larger values never make a smaller percentile. */
  lemma PctMonotoneInData(s: seq<real>, t: seq<real>, q: real)
    requires |s| == |t| > 0 && 0.0 <= q <= 1.0 && forall i :: 0 <= i < |s| ==> s[i] <= t[i]
    ensures Pct(s, q).value <= Pct(t, q).value
  {
    hide At, Position;
    if |s| > 1 {
      AtMonotoneInData(s, t, Position(|s| - 1, q));
    }
  }

  lemma AtMonotoneInData(s: seq<real>, t: seq<real>, k: real)
    requires |s| == |t| > 0 && 0.0 <= k <= (|s| - 1) as real && forall i :: 0 <= i < |s| ==> s[i] <= t[i]
    ensures At(s, k) <= At(t, k)
  {
    BlendMonotone(s[k.Floor], s[Ceil(k)], t[k.Floor], t[Ceil(k)], k - k.Floor as real);
  }

  /** The ends are the least and the greatest value. */
  lemma PctEnds(s: seq<real>)
    requires |s| > 0
    ensures Pct(s, 0.0) == Some(s[0]) && Pct(s, 1.0) == Some(s[|s| - 1])
  {
  }

  // ----- How many lie above and below

  /** How many values are greater, and how many are smaller. */
  ghost function Above(s: seq<real>, r: real): nat { |set i: nat | i < |s| && s[i] > r| }

  ghost function Below(s: seq<real>, r: real): nat { |set i: nat | i < |s| && s[i] < r| }

  ghost function Range(from: nat, to: nat): (r: set<nat>)
    requires from <= to
    ensures |r| == to - from && forall i :: i in r <==> from <= i < to
  {
    if from == to then {} else Range(from, to - 1) + {to - 1}
  }

  lemma WithinRange(places: set<nat>, from: nat, to: nat)
    requires from <= to && forall i :: i in places ==> from <= i < to
    ensures |places| <= to - from
  {
    assert Range(from, to) == places + (Range(from, to) - places);
  }

  lemma AboveFrom(s: seq<real>, r: real, k: nat)
    requires k <= |s| && forall i :: 0 <= i < k ==> s[i] <= r
    ensures Above(s, r) <= |s| - k
  {
    var above := set i: nat | i < |s| && s[i] > r;
    WithinRange(above, k, |s|);
  }

  lemma BelowUpTo(s: seq<real>, r: real, k: nat)
    requires k <= |s| && forall i :: k <= i < |s| ==> s[i] >= r
    ensures Below(s, r) <= k
  {
    var below := set i: nat | i < |s| && s[i] < r;
    WithinRange(below, 0, k);
  }

  /** It lies between the values on either side of its position. */
  lemma PctBetween(s: seq<real>, q: real)
    requires Ascending(s) && |s| > 0 && 0.0 <= q <= 1.0
    ensures var k := Position(|s| - 1, q);
            0 <= k.Floor <= Ceil(k) < |s| && Pct(s, q).Some? && s[k.Floor] <= Pct(s, q).value <= s[Ceil(k)]
  {
    hide At, Position;
    if |s| > 1 {
      AtBetween(s, Position(|s| - 1, q));
    }
  }

  lemma Complement(gaps: nat, q: real)
    requires 0.0 <= q <= 1.0
    ensures gaps - Position(gaps, q).Floor == Ceil(Position(gaps, 1.0 - q))
  {
    var n := gaps as real;
    assert n * (1.0 - q) == n - n * q;
  }

  /** At most a share q of the gaps between n values lies below the percentile, and a share 1 - q above,
      both rounded up. */
  lemma PctShares(s: seq<real>, q: real)
    requires Ascending(s) && |s| > 0 && 0.0 <= q <= 1.0
    ensures Pct(s, q).Some?
    ensures Below(s, Pct(s, q).value) <= Ceil(Position(|s| - 1, q))
    ensures Above(s, Pct(s, q).value) <= Ceil(Position(|s| - 1, 1.0 - q))
  {
    hide At, Pct, Position, Above, Below;
    PctBetween(s, q);
    var k, r := Position(|s| - 1, q), Pct(s, q).value;
    BelowUpTo(s, r, Ceil(k));
    AboveFrom(s, r, k.Floor + 1);
    Complement(|s| - 1, q);
  }

  // ----- The summary of a distribution

  datatype Dist = Dist(n: nat, median: Option<real>, p95: Option<real>, max: Option<real>)

  function DistOf(vals: seq<real>): Dist {
    var s := Sorted(vals);
    Dist(|s|, Pct(s, 0.5), Pct(s, 0.95), if s == [] then None else Some(s[|s| - 1]))
  }

  /** At most a share q of the gaps lies below the value, rounded up, and the rest above. */
  ghost predicate Divides(s: seq<real>, value: real, q: real)
    requires |s| > 0 && 0.0 <= q <= 1.0
  {
    Below(s, value) <= Ceil(Position(|s| - 1, q)) && Above(s, value) <= Ceil(Position(|s| - 1, 1.0 - q))
  }

  /** The median does not exceed the 95th percentile, nor that the maximum, which is the greatest value; the median
      has half of the gaps on either side, the 95th percentile nineteen in twenty below and one above. */
  lemma DistOrdered(vals: seq<real>)
    requires vals != []
    ensures var d := DistOf(vals);
            && d.n == |vals|
            && d.median.Some? && d.p95.Some? && d.max.Some? && d.median.value <= d.p95.value <= d.max.value
            && d.max.value in vals && (forall v :: v in vals ==> v <= d.max.value)
            && Divides(Sorted(vals), d.median.value, 0.5) && Divides(Sorted(vals), d.p95.value, 0.95)
  {
    hide Pct, Sorted, Above, Below, Position;
    var s := Sorted(vals);
    SortedKeeps(vals);
    PctOfMany(s, 0.5);
    PctOfMany(s, 0.95);
    PctMonotone(s, 0.5, 0.95);
    PctMonotone(s, 0.95, 1.0);
    PctEnds(s);
    PctShares(s, 0.5);
    PctShares(s, 0.95);
    assert s[|s| - 1] in multiset(vals);
    forall v | v in vals
      ensures v <= s[|s| - 1]
    {
      assert v in multiset(s);
    }
  }

  lemma PctOfMany(s: seq<real>, q: real)
    requires 0.0 <= q <= 1.0
    ensures Pct(s, q).Some? <==> s != []
  {
  }

  lemma DistOrderFree(a: seq<real>, b: seq<real>)
    requires multiset(a) == multiset(b)
    ensures DistOf(a) == DistOf(b)
  {
    SortedOrderFree(a, b);
  }

  /** Of values that are not negative no summary is negative. */
  lemma DistNotNegative(vals: seq<real>)
    requires forall v :: v in vals ==> v >= 0.0
    ensures DistOf(vals).p95.Some? ==> DistOf(vals).p95.value >= 0.0
  {
    hide Pct, Sorted;
    var s := Sorted(vals);
    PctOfMany(s, 0.95);
    if vals != [] {
      SortedKeeps(vals);
      assert s[0] in multiset(s) && s[0] in multiset(vals);
      assert s[0] in vals;
      PctEnds(s);
      PctMonotone(s, 0.0, 0.95);
    }
  }
}
