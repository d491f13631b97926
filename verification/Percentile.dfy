/** The interpolated percentile of a sorted list, over the reals. */
module Percentiles {

  ghost predicate Sorted(vals: seq<real>) {
    forall i, j | 0 <= i <= j < |vals| :: vals[i] <= vals[j]
  }

  function Floor(k: real): int { k.Floor }

  function Ceil(k: real): int { if k.Floor as real == k then k.Floor else k.Floor + 1 }

  /** The value at the fractional index `k`. */
  function At(vals: seq<real>, k: real): real
    requires vals != [] && 0.0 <= k <= (|vals| - 1) as real
  {
    var f, c := Floor(k), Ceil(k);
    if f == c then vals[f]
    else vals[f] * (c as real - k) + vals[c] * (k - f as real)
  }

  function Index(n: nat, percent: real): real { (n - 1) as real * (percent / 100.0) }

  lemma Scaled(a: real, x: real, y: real)
    requires 0.0 <= a && 0.0 <= x <= y <= 1.0
    ensures 0.0 <= a * x <= a * y <= a
  {
    assert a * (y - x) >= 0.0 && a * (1.0 - y) >= 0.0;
    assert a * y == a * x + a * (y - x) && a == a * y + a * (1.0 - y);
  }

  lemma IndexGrows(n: nat, p: real, q: real)
    requires n > 0 && 0.0 <= p <= q <= 100.0
    ensures 0.0 <= Index(n, p) <= Index(n, q) <= (n - 1) as real
  {
    var x, y := p / 100.0, q / 100.0;
    assert 0.0 <= x <= y <= 1.0;
    Scaled((n - 1) as real, x, y);
  }

  function Percentile(vals: seq<real>, percent: real): real
    requires vals != [] && 0.0 <= percent <= 100.0
  {
    IndexGrows(|vals|, percent, percent);
    At(vals, Index(|vals|, percent))
  }

  /** A weighted mean lies between its two values and grows with the weight of the larger one. */
  lemma Mean(a: real, b: real, v: real, w: real)
    requires a <= b && 0.0 <= v <= w <= 1.0
    ensures a <= a * (1.0 - v) + b * v <= a * (1.0 - w) + b * w <= b
  {
    assert a * (1.0 - v) + b * v == a + (b - a) * v;
    assert a * (1.0 - w) + b * w == a + (b - a) * w;
    assert (b - a) * v <= (b - a) * w <= (b - a) * 1.0;
  }

  /** The value lies between the two samples around the index. */
  lemma BetweenNeighbours(vals: seq<real>, k: real)
    requires vals != [] && Sorted(vals) && 0.0 <= k <= (|vals| - 1) as real
    ensures vals[Floor(k)] <= At(vals, k) <= vals[Ceil(k)]
  {
    var f, c := Floor(k), Ceil(k);
    if f != c {
      Mean(vals[f], vals[c], k - f as real, k - f as real);
      assert c as real - k == 1.0 - (k - f as real);
    }
  }

  lemma AtIsMonotone(vals: seq<real>, k: real, k': real)
    requires vals != [] && Sorted(vals) && 0.0 <= k <= k' <= (|vals| - 1) as real
    ensures At(vals, k) <= At(vals, k')
  {
    BetweenNeighbours(vals, k);
    BetweenNeighbours(vals, k');
    if Floor(k) == Floor(k') {
      var f := Floor(k);
      if Ceil(k) != f && Ceil(k') != f {
        Mean(vals[f], vals[f + 1], k - f as real, k' - f as real);
        assert (f + 1) as real - k == 1.0 - (k - f as real);
        assert (f + 1) as real - k' == 1.0 - (k' - f as real);
      }
    } else {
      assert Ceil(k) <= Floor(k');
    }
  }

  /** More percent, larger value; 0 gives the minimum, 100 the maximum, and in between the value is
      between the two samples next to the index. */
  lemma {:induction false} PercentileIsMonotone(vals: seq<real>, p: real, q: real)
    requires vals != [] && Sorted(vals) && 0.0 <= p <= q <= 100.0
    ensures Percentile(vals, p) <= Percentile(vals, q)
    ensures Percentile(vals, 0.0) == vals[0] && Percentile(vals, 100.0) == vals[|vals| - 1]
    ensures
      var k := Index(|vals|, p);
      0 <= Floor(k) <= Ceil(k) < |vals| && vals[Floor(k)] <= Percentile(vals, p) <= vals[Ceil(k)]
  {
    IndexGrows(|vals|, p, q);
    AtIsMonotone(vals, Index(|vals|, p), Index(|vals|, q));
    BetweenNeighbours(vals, Index(|vals|, p));
  }

  /** Between two neighbouring samples the value is on the straight line that joins them, and at a
      sample it is the sample. */
  lemma AtIsAffine(vals: seq<real>, f: nat, k: real, m: real)
    requires f + 1 < |vals| && f as real <= k <= m <= (f + 1) as real
    ensures At(vals, f as real) == vals[f] && At(vals, (f + 1) as real) == vals[f + 1]
    ensures At(vals, m) - At(vals, k) == (m - k) * (vals[f + 1] - vals[f])
  {
    OnLine(vals, f, k);
    OnLine(vals, f, m);
    assert (m - f as real) - (k - f as real) == m - k;
    Difference(vals[f], vals[f + 1] - vals[f], m - f as real, k - f as real);
  }

  lemma Difference(a: real, slope: real, x: real, y: real)
    ensures (a + x * slope) - (a + y * slope) == (x - y) * slope
  {
  }

  lemma OnLine(vals: seq<real>, f: nat, k: real)
    requires f + 1 < |vals| && f as real <= k <= (f + 1) as real
    ensures At(vals, k) == vals[f] + (k - f as real) * (vals[f + 1] - vals[f])
  {
    var a, b, t := vals[f], vals[f + 1], k - f as real;
    if k == (f + 1) as real {
      assert Floor(k) == f + 1 && t == 1.0;
    } else if k == f as real {
      assert Floor(k) == f && t == 0.0;
    } else {
      assert Floor(k) == f && Ceil(k) == f + 1;
      assert (f + 1) as real - k == 1.0 - t;
      Weighted(a, b, t);
    }
  }

  lemma Weighted(a: real, b: real, t: real)
    ensures a * (1.0 - t) + b * t == a + t * (b - a)
  {
  }

  /** The index is in proportion to the percentage: 0 at 0, and the last one at 100. */
  lemma IndexTimes(n: nat, p: real)
    ensures 100.0 * Index(n, p) == p * (n - 1) as real
  {
    var x := p / 100.0;
    assert 100.0 * ((n - 1) as real * x) == (n - 1) as real * (100.0 * x);
    assert 100.0 * x == p;
  }

  /** So the percentile of any list moves along straight lines: while the index stays between two
      neighbouring samples, the value grows in proportion to it. */
  lemma PercentileIsAffine(vals: seq<real>, f: nat, p: real, q: real)
    requires f + 1 < |vals| && 0.0 <= p <= q <= 100.0
    requires f as real <= Index(|vals|, p) && Index(|vals|, q) <= (f + 1) as real
    ensures Percentile(vals, q) - Percentile(vals, p) ==
      (Index(|vals|, q) - Index(|vals|, p)) * (vals[f + 1] - vals[f])
  {
    hide *;
    IndexGrows(|vals|, p, q);
    AtIsAffine(vals, f, Index(|vals|, p), Index(|vals|, q));
    PercentileIsAt(vals, p);
    PercentileIsAt(vals, q);
  }

  lemma PercentileIsAt(vals: seq<real>, p: real)
    requires vals != [] && 0.0 <= p <= 100.0
    ensures 0.0 <= Index(|vals|, p) <= (|vals| - 1) as real
    ensures Percentile(vals, p) == At(vals, Index(|vals|, p))
  {
    IndexGrows(|vals|, p, p);
  }

  lemma MedianOfTwo(a: real, b: real)
    ensures Percentile([a, b], 50.0) == (a + b) / 2.0
  {
    IndexTimes(2, 0.0);
    IndexTimes(2, 50.0);
    PercentileIsAffine([a, b], 0, 0.0, 50.0);
    PercentileIsAt([a, b], 0.0);
    AtIsAffine([a, b], 0, 0.0, 1.0);
  }
}
