/**
 * Point distance, the "same cluster" relation between hull points, the centroid of a
 * group of points and the choice of the group member nearest to that centroid
 * (`getDist`, `ptsBelongToSameCluster`, `getCentralPoint`, `getMostCentralPoint`).
 *
 * Contour points have integer pixel coordinates. The source measures distances
 * with `Math.sqrt` on doubles; here every comparison of distances is a comparison
 * of squared distances, which is exact.
 */
module Geometry {

  /** A contour point, in pixels. */
  datatype Point = Point(x: int, y: int)

  /** A point with exact rational coordinates, such as a centroid. */
  datatype RealPoint = RealPoint(x: real, y: real)

  /** Two hull points closer than this belong to the same cluster. */
  const ClusterRadius: int := 20

  /** The squared Euclidean distance between two points. */
  function SqDist(p: Point, q: Point): (d: int)
    ensures d >= 0
    ensures d == 0 <==> p == q
  {
    var dx, dy := p.x - q.x, p.y - q.y;
    assert dx * dx >= 0 && dy * dy >= 0;
    assert dx != 0 ==> dx * dx > 0;
    assert dy != 0 ==> dy * dy > 0;
    dx * dx + dy * dy
  }

  /** The squared Euclidean distance from a contour point to a point with real coordinates. */
  function RealSqDist(p: Point, c: RealPoint): real
  {
    var dx, dy := p.x as real - c.x, p.y as real - c.y;
    dx * dx + dy * dy
  }

  /** `ptsBelongToSameCluster`: the distance is strictly below the cluster radius. */
  predicate SameCluster(p: Point, q: Point)
  {
    SqDist(p, q) < ClusterRadius * ClusterRadius
  }

  /**
   * The squared-distance test decides exactly the source's test `getDist(p, q) < 20`:
   * for the true Euclidean distance `d` (the non-negative root of the squared distance),
   * the points are in the same cluster if and only if `d < 20`.
   */
  lemma SameClusterIffDistanceBelowRadius(p: Point, q: Point, d: real)
    requires 0.0 <= d && d * d == SqDist(p, q) as real
    ensures SameCluster(p, q) <==> d < ClusterRadius as real
  {
    var r := ClusterRadius as real;
    SquareMonotone(d, r);
    assert (ClusterRadius * ClusterRadius) as real == r * r;
  }

  /** For non-negative reals, comparing values is comparing their squares. */
  lemma SquareMonotone(d: real, r: real)
    requires 0.0 <= d && 0.0 < r
    ensures d < r <==> d * d < r * r
  {
    var dd, rr := d * d, r * r;
    assert rr - dd == (r - d) * (r + d);
    if d < r {
      ScaleCancels(r + d, 0.0, r - d);
    } else {
      ScaleCancels(r + d, r - d, 0.0);
    }
  }

  /** The cluster relation is reflexive and symmetric. */
  lemma SameClusterReflexiveSymmetric(p: Point, q: Point)
    ensures SameCluster(p, p)
    ensures SameCluster(p, q) <==> SameCluster(q, p)
  {
    assert SqDist(p, q) == SqDist(q, p);
  }

  /** Boundary cases: at distance 19 points cluster; at exactly 20, or at 21, they do not. */
  lemma ClusterBoundary()
    ensures SameCluster(Point(0, 0), Point(19, 0))
    ensures !SameCluster(Point(0, 0), Point(20, 0))
    ensures !SameCluster(Point(0, 0), Point(12, 16))
    ensures !SameCluster(Point(0, 0), Point(21, 0))
  {
  }

  /** The coordinate sum of `pts`, accumulated left to right from (0, 0) as the source's `reduce` does. */
  function Sum(pts: seq<Point>): Point
  {
    if pts == [] then Point(0, 0)
    else
      var s, p := Sum(pts[..|pts| - 1]), pts[|pts| - 1];
      Point(s.x + p.x, s.y + p.y)
  }

  /** The exact quotient `s / n`: the one real whose n-fold is `s`. */
  function Mean(s: int, n: int): (m: real)
    requires n > 0
    ensures n as real * m == s as real
  {
    s as real / n as real
  }

  /**
   * `getCentralPoint`: the arithmetic mean of a non-empty group, computed exactly.
   * It is the unique point whose n-fold is the coordinate sum.
   */
  function Centroid(pts: seq<Point>): (c: RealPoint)
    requires |pts| > 0
    ensures |pts| as real * c.x == Sum(pts).x as real
    ensures |pts| as real * c.y == Sum(pts).y as real
  {
    var s := Sum(pts);
    RealPoint(Mean(s.x, |pts|), Mean(s.y, |pts|))
  }

  /** If every point lies in the box [lo, hi] x [lo', hi'], the sum lies in the n-fold box. */
  lemma {:induction false} SumInBox(pts: seq<Point>, lo: int, hi: int, lo': int, hi': int)
    requires forall i :: 0 <= i < |pts| ==> lo <= pts[i].x <= hi && lo' <= pts[i].y <= hi'
    ensures |pts| * lo <= Sum(pts).x <= |pts| * hi
    ensures |pts| * lo' <= Sum(pts).y <= |pts| * hi'
  {
    if pts != [] {
      var init := pts[..|pts| - 1];
      SumInBox(init, lo, hi, lo', hi');
      assert (|pts| - 1) * lo + lo == |pts| * lo;
      assert (|pts| - 1) * hi + hi == |pts| * hi;
      assert (|pts| - 1) * lo' + lo' == |pts| * lo';
      assert (|pts| - 1) * hi' + hi' == |pts| * hi';
    }
  }

  /** The centroid of a group lies in every axis-aligned box that holds all of its points. */
  lemma CentroidInBox(pts: seq<Point>, lo: int, hi: int, lo': int, hi': int)
    requires |pts| > 0
    requires forall i :: 0 <= i < |pts| ==> lo <= pts[i].x <= hi && lo' <= pts[i].y <= hi'
    ensures lo as real <= Centroid(pts).x <= hi as real
    ensures lo' as real <= Centroid(pts).y <= hi' as real
  {
    SumInBox(pts, lo, hi, lo', hi');
    MeanInBounds(Sum(pts).x, |pts|, lo, hi);
    MeanInBounds(Sum(pts).y, |pts|, lo', hi');
  }

  /** A sum of n values in [lo, hi], divided by n, lies in [lo, hi]. */
  lemma MeanInBounds(s: int, n: int, lo: int, hi: int)
    requires n > 0
    requires n * lo <= s <= n * hi
    ensures lo as real <= Mean(s, n) <= hi as real
  {
    var nr, c := n as real, Mean(s, n);
    assert (n * lo) as real == nr * lo as real;
    assert (n * hi) as real == nr * hi as real;
    ScaleCancels(nr, lo as real, c);
    ScaleCancels(nr, c, hi as real);
  }

  /** Multiplying both sides by the same positive factor keeps the order. */
  lemma ScaleCancels(k: real, a: real, b: real)
    requires k > 0.0
    ensures k * a <= k * b <==> a <= b
    ensures k * a < k * b <==> a < b
  {
    if a <= b {
      assert k * (b - a) >= 0.0;
    } else {
      assert k * (a - b) > 0.0;
    }
  }

  /** Integer keys that are the same positive multiple of two reals compare as those reals do. */
  lemma ScaledKeysCompare(kp: int, kq: int, dp: real, dq: real, k: int)
    requires k > 0 && kp as real == k as real * dp && kq as real == k as real * dq
    ensures kp <= kq <==> dp <= dq
    ensures kp < kq <==> dp < dq
  {
    ScaleCancels(k as real, dp, dq);
  }

  /**
   * The exact centrality key of `p` within the group `pts`: the squared distance
   * from n*p to the coordinate sum, that is |n*p - sum|^2, with n = |pts|.
   */
  function CentralKey(pts: seq<Point>, p: Point): int
  {
    var s, n := Sum(pts), |pts|;
    SqDist(Point(n * p.x, n * p.y), s)
  }

  /** The key is n^2 times the squared distance from `p` to the centroid. */
  lemma CentralKeyScales(pts: seq<Point>, p: Point)
    requires |pts| > 0
    ensures CentralKey(pts, p) as real == (|pts| * |pts|) as real * RealSqDist(p, Centroid(pts))
  {
    var s, n, c := Sum(pts), |pts|, Centroid(pts);
    var nr := n as real;
    var ax, ay := p.x as real - c.x, p.y as real - c.y;
    var ix, iy := n * p.x - s.x, n * p.y - s.y;
    assert ix as real == nr * ax;
    assert iy as real == nr * ay;
    assert (ix * ix) as real == ix as real * ix as real;
    assert (iy * iy) as real == iy as real * iy as real;
    assert (nr * ax) * (nr * ax) == (nr * nr) * (ax * ax);
    assert (nr * ay) * (nr * ay) == (nr * nr) * (ay * ay);
    assert (n * n) as real == nr * nr;
  }

  /**
   * Comparing keys is comparing distances to the centroid: the exact integer test
   * orders the members of a group as the source's distance to `getCentralPoint` does.
   */
  lemma CentralKeyOrder(pts: seq<Point>, p: Point, q: Point)
    requires |pts| > 0
    ensures CentralKey(pts, p) <= CentralKey(pts, q) <==> RealSqDist(p, Centroid(pts)) <= RealSqDist(q, Centroid(pts))
    ensures CentralKey(pts, p) < CentralKey(pts, q) <==> RealSqDist(p, Centroid(pts)) < RealSqDist(q, Centroid(pts))
  {
    var n := |pts|;
    assert n * n > 0 by {
      assert n * n >= n;
    }
    CentralKeyScales(pts, p);
    CentralKeyScales(pts, q);
    ScaledKeysCompare(CentralKey(pts, p), CentralKey(pts, q), RealSqDist(p, Centroid(pts)), RealSqDist(q, Centroid(pts)), n * n);
  }

  /** The position of the first smallest key: what a stable sort would put first. */
  function FirstMinIndex(keys: seq<int>): (i: nat)
    requires |keys| > 0
    ensures i < |keys|
    ensures forall j :: 0 <= j < |keys| ==> keys[i] <= keys[j]
    ensures forall j :: 0 <= j < i ==> keys[i] < keys[j]
  {
    if |keys| == 1 then 0
    else
      var t := 1 + FirstMinIndex(keys[1..]);
      if keys[0] <= keys[t] then 0 else t
  }

  /** The centrality keys of all members of a group, in group order. */
  function CentralKeys(pts: seq<Point>): (keys: seq<int>)
    ensures |keys| == |pts|
    ensures forall i :: 0 <= i < |pts| ==> keys[i] == CentralKey(pts, pts[i])
  {
    seq(|pts|, i requires 0 <= i < |pts| => CentralKey(pts, pts[i]))
  }

  /**
   * `getMostCentralPoint`: the position of the member nearest to the centroid. No member
   * is nearer, and every member before it is strictly farther (the stable sort keeps
   * the earliest of equally near members first).
   */
  function MostCentralIndex(pts: seq<Point>): (i: nat)
    requires |pts| > 0
    ensures i < |pts|
    ensures forall j :: 0 <= j < |pts| ==> CentralKey(pts, pts[i]) <= CentralKey(pts, pts[j])
    ensures forall j :: 0 <= j < i ==> CentralKey(pts, pts[i]) < CentralKey(pts, pts[j])
  {
    var keys := CentralKeys(pts);
    var i := FirstMinIndex(keys);
    assert forall j :: 0 <= j < |pts| ==> keys[j] == CentralKey(pts, pts[j]);
    i
  }

  /** The chosen member is nearest to the real centroid, and the first among equally near members. */
  lemma MostCentralNearestToCentroid(pts: seq<Point>)
    requires |pts| > 0
    ensures var i, c := MostCentralIndex(pts), Centroid(pts);
      && (forall j :: 0 <= j < |pts| ==> RealSqDist(pts[i], c) <= RealSqDist(pts[j], c))
      && (forall j :: 0 <= j < i ==> RealSqDist(pts[i], c) < RealSqDist(pts[j], c))
  {
    var i, c := MostCentralIndex(pts), Centroid(pts);
    forall j | 0 <= j < |pts|
      ensures RealSqDist(pts[i], c) <= RealSqDist(pts[j], c)
      ensures j < i ==> RealSqDist(pts[i], c) < RealSqDist(pts[j], c)
    {
      CentralKeyOrder(pts, pts[i], pts[j]);
    }
  }

  /** Four points equally far from their centroid: the first of them is chosen. */
  lemma MostCentralTieBreak()
    ensures MostCentralIndex([Point(1, 0), Point(0, 1), Point(-1, 0), Point(0, -1)]) == 0
  {
    var pts := [Point(1, 0), Point(0, 1), Point(-1, 0), Point(0, -1)];
    assert Sum(pts[..1]) == Point(1, 0) by {
      assert pts[..1][..0] == [];
    }
    assert Sum(pts[..2]) == Point(1, 1) by {
      assert pts[..2][..1] == pts[..1];
    }
    assert Sum(pts[..3]) == Point(0, 1) by {
      assert pts[..3][..2] == pts[..2];
    }
    assert Sum(pts) == Point(0, 0) by {
      assert pts[..3] == pts[..|pts| - 1];
    }
    assert CentralKey(pts, pts[0]) == 16;
    assert CentralKey(pts, pts[1]) == 16;
    assert CentralKey(pts, pts[2]) == 16;
    assert CentralKey(pts, pts[3]) == 16;
  }
}
