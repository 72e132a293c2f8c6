/**
 * The rough hull (`getRoughHull`): the convex-hull points of the contour, with
 * near-duplicate points merged. Each hull point is paired with its contour index,
 * the points are grouped by the cluster label the partition step gave them, each
 * group is reduced to its most central member, and each representative is looked
 * up again among the (index, point) pairs.
 *
 * The convex hull and the cluster labels come from library code outside this
 * model; they are inputs here. A hull point is identified by its contour index,
 * which is what the source's reference comparison of `Point` objects amounts to:
 * the contour's point list holds one object per contour position.
 */
module HullReduction {
  import opened Geometry
  import opened Seqs

  /** A hull point with the contour index it was taken from. */
  datatype HullPoint = HullPoint(index: int, point: Point)

  /** The convex-hull step either yields hull indices or fails. */
  datatype Option<T> = None | Some(value: T)

  /** Every index in `idx` addresses a point of a contour of length `n`. */
  predicate ValidIndices(idx: seq<int>, n: int)
  {
    forall i :: 0 <= i < |idx| ==> 0 <= idx[i] < n
  }

  /** The hull indices paired with their contour points, in hull order. */
  function PairsOf(contour: seq<Point>, hull: seq<int>): (pairs: seq<HullPoint>)
    requires ValidIndices(hull, |contour|)
  {
    seq(|hull|, i requires 0 <= i < |hull| => HullPoint(hull[i], contour[hull[i]]))
  }

  /** A hull pair carries a hull index and the contour point at that index. */
  lemma PairFromHull(contour: seq<Point>, hull: seq<int>, x: HullPoint)
    requires ValidIndices(hull, |contour|) && x in PairsOf(contour, hull)
    ensures x.index in hull && 0 <= x.index < |contour| && x.point == contour[x.index]
  {
    var i :| 0 <= i < |hull| && PairsOf(contour, hull)[i] == x;
    assert hull[i] == x.index;
  }

  /** The coordinates of a group's members, in group order. */
  function Points(g: seq<HullPoint>): (pts: seq<Point>)
    ensures |pts| == |g|
    ensures forall i :: 0 <= i < |g| ==> pts[i] == g[i].point
  {
    seq(|g|, i requires 0 <= i < |g| => g[i].point)
  }

  /** Builds the list of (index, point) pairs, one per hull index, in hull order. */
  method HullPairs(contour: seq<Point>, hull: seq<int>) returns (pairs: seq<HullPoint>)
    requires ValidIndices(hull, |contour|)
    ensures pairs == PairsOf(contour, hull)
  {
    pairs := [];
    var i := 0;
    while i < |hull|
      invariant 0 <= i <= |hull|
      invariant pairs == PairsOf(contour, hull[..i])
    {
      pairs := pairs + [HullPoint(hull[i], contour[hull[i]])];
      i := i + 1;
    }
    assert hull[..i] == hull;
  }

  /** The members of group `l`: the points whose label is `l`, in hull order. */
  function GroupOf(pts: seq<HullPoint>, labels: seq<int>, l: int): (g: seq<HullPoint>)
    requires |labels| == |pts|
    ensures |g| <= |pts|
    ensures l in labels ==> |g| > 0
  {
    if pts == [] then []
    else
      var n := |pts| - 1;
      GroupOf(pts[..n], labels[..n], l) + (if labels[n] == l then [pts[n]] else [])
  }

  /**
   * Groups the hull points by label: one group per distinct label, and the group of
   * label `l` holds the points labelled `l`, in hull order.
   */
  method GroupByLabel(pts: seq<HullPoint>, labels: seq<int>) returns (groups: map<int, seq<HullPoint>>)
    requires |labels| == |pts|
    ensures groups.Keys == Elems(labels)
    ensures forall l :: l in groups ==> groups[l] == GroupOf(pts, labels, l)
  {
    groups := map[];
    var i := 0;
    while i < |labels|
      invariant 0 <= i <= |labels|
      invariant groups.Keys == Elems(labels[..i])
      invariant forall l :: l in groups ==> groups[l] == []
    {
      assert labels[..i + 1] == labels[..i] + [labels[i]];
      groups := groups[labels[i] := []];
      i := i + 1;
    }
    assert labels[..i] == labels;
    i := 0;
    while i < |pts|
      invariant 0 <= i <= |pts|
      invariant groups.Keys == Elems(labels)
      invariant forall l :: l in groups ==> groups[l] == GroupOf(pts[..i], labels[..i], l)
    {
      var l := labels[i];
      assert pts[..i + 1][..i] == pts[..i] && labels[..i + 1][..i] == labels[..i];
      groups := groups[l := groups[l] + [pts[i]]];
      i := i + 1;
    }
    assert pts[..i] == pts && labels[..i] == labels;
  }

  /** A point is in group `l` exactly when it is a hull point labelled `l`. */
  lemma {:induction false} GroupMembers(pts: seq<HullPoint>, labels: seq<int>, l: int, x: HullPoint)
    requires |labels| == |pts|
    ensures x in GroupOf(pts, labels, l) <==> exists i :: 0 <= i < |pts| && pts[i] == x && labels[i] == l
  {
    if pts != [] {
      var n := |pts| - 1;
      GroupMembers(pts[..n], labels[..n], l, x);
      if x in GroupOf(pts, labels, l) && x !in GroupOf(pts[..n], labels[..n], l) {
        assert pts[n] == x && labels[n] == l;
      }
      if exists i :: 0 <= i < |pts| && pts[i] == x && labels[i] == l {
        var i :| 0 <= i < |pts| && pts[i] == x && labels[i] == l;
        if i < n {
          assert pts[..n][i] == x && labels[..n][i] == l;
        }
      }
    }
  }

  /**
   * With distinct hull points (the convex hull never repeats an index), every hull
   * point belongs to the group of its own label and to no other group.
   */
  lemma EachPointInItsOwnGroup(pts: seq<HullPoint>, labels: seq<int>, i: int, l: int)
    requires |labels| == |pts| && NoDups(pts)
    requires 0 <= i < |pts|
    ensures pts[i] in GroupOf(pts, labels, l) <==> l == labels[i]
  {
    GroupMembers(pts, labels, l, pts[i]);
  }

  /** The sum of the sizes of the groups of the labels in `ks`. */
  function GroupSizeTotal(pts: seq<HullPoint>, labels: seq<int>, ks: seq<int>): nat
    requires |labels| == |pts|
  {
    if ks == [] then 0 else |GroupOf(pts, labels, ks[0])| + GroupSizeTotal(pts, labels, ks[1..])
  }

  /** Adding one labelled point adds one to the total exactly when its label is among `ks`. */
  lemma {:induction false} GroupSizeTotalStep(pts: seq<HullPoint>, labels: seq<int>, ks: seq<int>)
    requires |labels| == |pts| > 0 && NoDups(ks)
    ensures var n := |pts| - 1;
      GroupSizeTotal(pts, labels, ks)
      == GroupSizeTotal(pts[..n], labels[..n], ks) + (if labels[n] in ks then 1 else 0)
  {
    var n := |pts| - 1;
    if ks != [] {
      assert NoDups(ks[1..]) by {
        forall i, j | 0 <= i < j < |ks| - 1 ensures ks[1..][i] != ks[1..][j] {
          assert ks[1..][i] == ks[i + 1] && ks[1..][j] == ks[j + 1];
        }
      }
      GroupSizeTotalStep(pts, labels, ks[1..]);
      if ks[0] == labels[n] {
        assert labels[n] !in ks[1..];
      }
      assert labels[n] in ks <==> ks[0] == labels[n] || labels[n] in ks[1..] by {
        assert ks == [ks[0]] + ks[1..];
      }
    }
  }

  /**
   * The groups partition the hull points: summed over the distinct labels (in any
   * enumeration without repeats that covers them), the group sizes add up to the
   * number of hull points.
   */
  lemma {:induction false} GroupSizesSum(pts: seq<HullPoint>, labels: seq<int>, ks: seq<int>)
    requires |labels| == |pts| && NoDups(ks) && Elems(labels) <= Elems(ks)
    ensures GroupSizeTotal(pts, labels, ks) == |pts|
  {
    if pts == [] {
      EmptyGroupsTotal(labels, ks);
    } else {
      var n := |pts| - 1;
      assert Elems(labels[..n]) <= Elems(labels);
      assert labels[n] in Elems(labels);
      GroupSizesSum(pts[..n], labels[..n], ks);
      GroupSizeTotalStep(pts, labels, ks);
    }
  }

  /** With no hull points every group is empty. */
  lemma {:induction false} EmptyGroupsTotal(labels: seq<int>, ks: seq<int>)
    requires labels == []
    ensures GroupSizeTotal([], labels, ks) == 0
  {
    if ks != [] {
      EmptyGroupsTotal(labels, ks[1..]);
    }
  }

  /** A group reduced to one point: its most central member (`getMostCentralPoint`). */
  function MostCentral(g: seq<HullPoint>): (r: HullPoint)
    requires |g| > 0
    ensures r in g
  {
    g[MostCentralIndex(Points(g))]
  }

  /**
   * The representative is nearest to the group's centroid: no member has a smaller
   * key, and every member other than the representative is either strictly farther
   * or placed after it in the group (ties go to the earliest member).
   */
  lemma MostCentralNearest(g: seq<HullPoint>)
    requires |g| > 0
    ensures var r, pts := MostCentral(g), Points(g);
      forall j :: 0 <= j < |g| ==>
        && CentralKey(pts, r.point) <= CentralKey(pts, g[j].point)
        && (g[j] == r || CentralKey(pts, r.point) < CentralKey(pts, g[j].point) || r in g[..j])
  {
    var pts := Points(g);
    var i := MostCentralIndex(pts);
    forall j | 0 <= j < |g|
      ensures CentralKey(pts, g[i].point) <= CentralKey(pts, g[j].point)
      ensures g[j] == g[i] || CentralKey(pts, g[i].point) < CentralKey(pts, g[j].point) || g[i] in g[..j]
    {
      assert pts[i] == g[i].point && pts[j] == g[j].point;
      if i < j {
        assert g[..j][i] == g[i];
      }
    }
  }

  /** The position of the first pair equal to `x`: the stream filter's first match. */
  function FirstMatch(pairs: seq<HullPoint>, x: HullPoint): (k: nat)
    requires x in pairs
    ensures k < |pairs| && pairs[k] == x
    ensures forall j :: 0 <= j < k ==> pairs[j] != x
  {
    if pairs[0] == x then 0 else 1 + FirstMatch(pairs[1..], x)
  }

  /** Every group named in `order` is non-empty and made of hull pairs. */
  predicate GroupsFromPairs(pairs: seq<HullPoint>, groups: map<int, seq<HullPoint>>, order: seq<int>)
  {
    forall k :: 0 <= k < |order| ==>
      order[k] in groups && |groups[order[k]]| > 0 && forall x :: x in groups[order[k]] ==> x in pairs
  }

  /** The groups built from the hull pairs are non-empty and made of hull pairs. */
  lemma GroupedFromPairs(pairs: seq<HullPoint>, labels: seq<int>, groups: map<int, seq<HullPoint>>, order: seq<int>)
    requires |labels| == |pairs|
    requires groups.Keys == Elems(labels)
    requires forall l :: l in groups ==> groups[l] == GroupOf(pairs, labels, l)
    requires forall l :: l in order ==> l in labels
    ensures GroupsFromPairs(pairs, groups, order)
  {
    forall k | 0 <= k < |order|
      ensures order[k] in groups && |groups[order[k]]| > 0 && forall x :: x in groups[order[k]] ==> x in pairs
    {
      var l := order[k];
      assert l in Elems(labels);
      forall x | x in groups[l] ensures x in pairs {
        GroupMembers(pairs, labels, l, x);
      }
    }
  }

  /**
   * The final stream stage of `getRoughHull`: for each group, in the map's iteration
   * order, its representative, looked up among the hull pairs. The lookup finds the
   * representative itself, so the entry is the group's most central member.
   */
  function RoughHullEntries(pairs: seq<HullPoint>, groups: map<int, seq<HullPoint>>, order: seq<int>): (rough: seq<HullPoint>)
    requires GroupsFromPairs(pairs, groups, order)
    ensures |rough| == |order|
    ensures forall k :: 0 <= k < |order| ==> rough[k] == MostCentral(groups[order[k]]) && rough[k] in pairs
  {
    seq(|order|, k requires 0 <= k < |order| => pairs[FirstMatch(pairs, MostCentral(groups[order[k]]))])
  }

  /** An enumeration of the distinct labels without repeats has one entry per distinct label. */
  lemma OneEntryPerLabel(order: seq<int>, labels: seq<int>)
    requires NoDups(order) && forall l :: l in order <==> l in labels
    ensures |order| == |Elems(labels)|
  {
    NoDupsCard(order);
    assert Elems(order) == Elems(labels);
  }

  /**
   * `getRoughHull` once the convex hull is known: `labels` is the cluster label of
   * each hull point and `order` the order in which the map of groups enumerates its
   * labels (each distinct label once). There is one entry per distinct label; entry k
   * is the most central member of the group labelled `order[k]`, and it is one of the
   * hull's (index, point) pairs.
   */
  method ReduceHull(contour: seq<Point>, hull: seq<int>, labels: seq<int>, order: seq<int>)
    returns (rough: seq<HullPoint>)
    requires ValidIndices(hull, |contour|) && |labels| == |hull|
    requires NoDups(order) && forall l :: l in order <==> l in labels
    ensures |rough| == |order| == |Elems(labels)|
    ensures forall k :: 0 <= k < |order| ==>
      && rough[k] == MostCentral(GroupOf(PairsOf(contour, hull), labels, order[k]))
      && rough[k] in PairsOf(contour, hull)
  {
    var pairs := HullPairs(contour, hull);
    var groups := GroupByLabel(pairs, labels);
    GroupedFromPairs(pairs, labels, groups, order);
    rough := RoughHullEntries(pairs, groups, order);
    OneEntryPerLabel(order, labels);
  }

  /**
   * `getRoughHull`. `hull` is the outcome of the convex-hull step: when it failed the
   * result is the empty list and nothing else is done.
   */
  method RoughHull(contour: seq<Point>, hull: Option<seq<int>>, labels: seq<int>, order: seq<int>)
    returns (rough: seq<HullPoint>)
    requires hull.Some? ==> ValidIndices(hull.value, |contour|) && |labels| == |hull.value|
    requires hull.Some? ==> NoDups(order) && forall l :: l in order <==> l in labels
    ensures hull.None? ==> rough == []
    ensures hull.Some? ==> |rough| == |order| == |Elems(labels)|
    ensures hull.Some? ==> forall k :: 0 <= k < |order| ==>
      && rough[k] == MostCentral(GroupOf(PairsOf(contour, hull.value), labels, order[k]))
      && rough[k] in PairsOf(contour, hull.value)
  {
    match hull {
      case None =>
        rough := [];
      case Some(h) =>
        rough := ReduceHull(contour, h, labels, order);
    }
  }

  /**
   * With distinct hull indices the rough hull has distinct entries: different groups
   * have different representatives.
   */
  lemma RepresentativesDistinct(pts: seq<HullPoint>, labels: seq<int>, l: int, m: int)
    requires |labels| == |pts| && NoDups(pts)
    requires l in labels && m in labels && l != m
    ensures MostCentral(GroupOf(pts, labels, l)) != MostCentral(GroupOf(pts, labels, m))
  {
    var x := MostCentral(GroupOf(pts, labels, l));
    GroupMembers(pts, labels, l, x);
    var i :| 0 <= i < |pts| && pts[i] == x && labels[i] == l;
    EachPointInItsOwnGroup(pts, labels, i, m);
  }

  /** Pairing distinct hull indices with their points gives distinct hull points. */
  lemma PairsDistinct(contour: seq<Point>, hull: seq<int>)
    requires ValidIndices(hull, |contour|) && NoDups(hull)
    ensures NoDups(PairsOf(contour, hull))
  {
  }

  /**
   * With distinct hull indices, the rough hull never lists a hull point twice: the
   * representatives of two different labels in `order` differ.
   */
  lemma RoughHullDistinct(contour: seq<Point>, hull: seq<int>, labels: seq<int>, order: seq<int>)
    requires ValidIndices(hull, |contour|) && |labels| == |hull| && NoDups(hull)
    requires NoDups(order) && forall l :: l in order <==> l in labels
    ensures var pairs := PairsOf(contour, hull);
      forall k, k' :: 0 <= k < k' < |order| ==>
        MostCentral(GroupOf(pairs, labels, order[k])) != MostCentral(GroupOf(pairs, labels, order[k']))
  {
    var pairs := PairsOf(contour, hull);
    PairsDistinct(contour, hull);
    forall k, k' | 0 <= k < k' < |order|
      ensures MostCentral(GroupOf(pairs, labels, order[k])) != MostCentral(GroupOf(pairs, labels, order[k']))
    {
      RepresentativesDistinct(pairs, labels, order[k], order[k']);
    }
  }
}
