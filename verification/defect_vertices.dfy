/**
 * Fingertip candidates from convexity defects (`getHullDefectVertices`).
 *
 * Each defect names two hull points (its start and end) and the contour point
 * deepest inside the concavity between them (its farthest point). Every hull index
 * collects, in defect order, the farthest point of each defect it starts and of each
 * defect it ends. A hull index with more than one such neighbour becomes a candidate
 * finger: its own point as the tip and its first two neighbours as the valleys.
 *
 * The defects are computed by library code outside this model and are an input.
 */
module DefectVertices {
  import opened Geometry
  import opened Seqs

  /** One row of the defect matrix: start and end hull indices, and the farthest contour index. */
  datatype Defect = Defect(start: int, end: int, farthest: int)

  /** A candidate finger (`Angle`): the tip and the two valley points beside it. */
  datatype Vertex = Vertex(tip: Point, valley1: Point, valley2: Point)

  /** A defect endpoint that is not a hull index: the map lookup finds no list. */
  datatype Error = NotAHullIndex(index: int)

  datatype Result<T> = Success(value: T) | Failure(error: Error)

  /** The defect has `h` as its start or its end. */
  predicate Touches(d: Defect, h: int)
  {
    d.start == h || d.end == h
  }

  /**
   * The neighbour list of hull index `h` after the given defects: for each defect in
   * order, its farthest index once if `h` is its start and once more if `h` is its end.
   */
  function Neighbours(defects: seq<Defect>, h: int): seq<int>
  {
    if defects == [] then []
    else
      var n := |defects| - 1;
      var d := defects[n];
      Neighbours(defects[..n], h)
        + (if d.start == h then [d.farthest] else [])
        + (if d.end == h then [d.farthest] else [])
  }

  /** The positions of the defects that start at `h`. */
  function StartsAt(defects: seq<Defect>, h: int): set<int>
  {
    set i | 0 <= i < |defects| && defects[i].start == h
  }

  /** The positions of the defects that end at `h`. */
  function EndsAt(defects: seq<Defect>, h: int): set<int>
  {
    set i | 0 <= i < |defects| && defects[i].end == h
  }

  /** Neighbour lists are built in defect order: processing two runs of defects concatenates their lists. */
  lemma {:induction false} NeighboursAppend(a: seq<Defect>, b: seq<Defect>, h: int)
    ensures Neighbours(a + b, h) == Neighbours(a, h) + Neighbours(b, h)
  {
    if b == [] {
      assert a + b == a;
    } else {
      var n := |b| - 1;
      assert (a + b)[..|a + b| - 1] == a + b[..n];
      NeighboursAppend(a, b[..n], h);
    }
  }

  /**
   * The list of `h` has one entry per defect starting at `h` plus one per defect
   * ending at `h`.
   */
  lemma {:induction false} NeighboursCount(defects: seq<Defect>, h: int)
    ensures |Neighbours(defects, h)| == |StartsAt(defects, h)| + |EndsAt(defects, h)|
  {
    if defects != [] {
      var n := |defects| - 1;
      NeighboursCount(defects[..n], h);
      StartsAtStep(defects, h);
      EndsAtStep(defects, h);
    }
  }

  /** One more defect adds one start position exactly when it starts at `h`. */
  lemma StartsAtStep(defects: seq<Defect>, h: int)
    requires defects != []
    ensures var n := |defects| - 1;
      |StartsAt(defects, h)| == |StartsAt(defects[..n], h)| + (if defects[n].start == h then 1 else 0)
  {
    var n := |defects| - 1;
    var init, d := defects[..n], defects[n];
    var before := StartsAt(init, h);
    assert n !in before;
    assert StartsAt(defects, h) == before + (if d.start == h then {n} else {}) by {
      forall i ensures i in StartsAt(defects, h) <==> i in before || (d.start == h && i == n) {
        if 0 <= i < n {
          assert init[i] == defects[i];
        }
      }
    }
  }

  /** One more defect adds one end position exactly when it ends at `h`. */
  lemma EndsAtStep(defects: seq<Defect>, h: int)
    requires defects != []
    ensures var n := |defects| - 1;
      |EndsAt(defects, h)| == |EndsAt(defects[..n], h)| + (if defects[n].end == h then 1 else 0)
  {
    var n := |defects| - 1;
    var init, d := defects[..n], defects[n];
    var before := EndsAt(init, h);
    assert n !in before;
    assert EndsAt(defects, h) == before + (if d.end == h then {n} else {}) by {
      forall i ensures i in EndsAt(defects, h) <==> i in before || (d.end == h && i == n) {
        if 0 <= i < n {
          assert init[i] == defects[i];
        }
      }
    }
  }

  /** A defect touching `h` contributes its farthest point to the list of `h`. */
  lemma {:induction false} TouchingGivesNeighbour(defects: seq<Defect>, h: int, i: int)
    requires 0 <= i < |defects| && Touches(defects[i], h)
    ensures defects[i].farthest in Neighbours(defects, h)
  {
    var n := |defects| - 1;
    var init := defects[..n];
    if i < n {
      assert init[i] == defects[i];
      TouchingGivesNeighbour(init, h, i);
    }
  }

  /** Every entry of the list of `h` is the farthest point of some defect touching `h`. */
  lemma {:induction false} NeighbourFromTouching(defects: seq<Defect>, h: int, x: int)
    requires x in Neighbours(defects, h)
    ensures exists i :: 0 <= i < |defects| && Touches(defects[i], h) && defects[i].farthest == x
  {
    var n := |defects| - 1;
    var init, d := defects[..n], defects[n];
    if x in Neighbours(init, h) {
      NeighbourFromTouching(init, h, x);
      var i :| 0 <= i < |init| && Touches(init[i], h) && init[i].farthest == x;
      assert defects[i] == init[i];
    } else {
      assert Touches(defects[n], h) && defects[n].farthest == x;
    }
  }

  /** The entries of the list of `h` are exactly the farthest points of the defects that touch `h`. */
  lemma {:induction false} NeighboursMembers(defects: seq<Defect>, h: int, x: int)
    ensures x in Neighbours(defects, h)
      <==> exists i :: 0 <= i < |defects| && Touches(defects[i], h) && defects[i].farthest == x
  {
    if x in Neighbours(defects, h) {
      NeighbourFromTouching(defects, h, x);
    }
    if exists i :: 0 <= i < |defects| && Touches(defects[i], h) && defects[i].farthest == x {
      var i :| 0 <= i < |defects| && Touches(defects[i], h) && defects[i].farthest == x;
      TouchingGivesNeighbour(defects, h, i);
    }
  }

  /** A hull index that no defect touches has an empty list, and only such an index does. */
  lemma {:induction false} NoNeighboursIffUntouched(defects: seq<Defect>, h: int)
    ensures Neighbours(defects, h) == [] <==> forall i :: 0 <= i < |defects| ==> !Touches(defects[i], h)
  {
    if Neighbours(defects, h) != [] {
      NeighboursMembers(defects, h, Neighbours(defects, h)[0]);
    }
    if exists i :: 0 <= i < |defects| && Touches(defects[i], h) {
      var i :| 0 <= i < |defects| && Touches(defects[i], h);
      NeighboursMembers(defects, h, defects[i].farthest);
    }
  }

  /**
   * The first entry of the list of `h` comes from the first defect touching `h`; if
   * that defect both starts and ends at `h` it supplies the second entry as well.
   */
  lemma FirstNeighbour(defects: seq<Defect>, h: int, i: int)
    requires 0 <= i < |defects| && Touches(defects[i], h)
    requires forall j :: 0 <= j < i ==> !Touches(defects[j], h)
    ensures |Neighbours(defects, h)| > 0 && Neighbours(defects, h)[0] == defects[i].farthest
    ensures defects[i].start == h == defects[i].end ==>
      |Neighbours(defects, h)| > 1 && Neighbours(defects, h)[1] == defects[i].farthest
  {
    var before, at, after := defects[..i], [defects[i]], defects[i + 1..];
    assert defects == before + at + after;
    NeighboursAppend(before + at, after, h);
    NeighboursAppend(before, at, h);
    NoNeighboursIffUntouched(before, h);
    assert at[..0] == [];
  }

  /** Every defect endpoint is one of the hull indices. */
  predicate EndpointsInHull(defects: seq<Defect>, hull: seq<int>)
  {
    forall i :: 0 <= i < |defects| ==> defects[i].start in hull && defects[i].end in hull
  }

  /** The neighbour map the source builds when no lookup fails: one list per hull index. */
  function NeighbourMap(hull: seq<int>, defects: seq<Defect>): (m: map<int, seq<int>>)
    ensures m.Keys == Elems(hull)
    ensures forall h :: h in m <==> h in hull
    ensures forall h :: h in m ==> m[h] == Neighbours(defects, h)
  {
    map h | h in Elems(hull) :: Neighbours(defects, h)
  }

  /** Every hull index starts with an empty neighbour list. */
  method EmptyNeighbourLists(hull: seq<int>) returns (m: map<int, seq<int>>)
    ensures m.Keys == Elems(hull)
    ensures forall h :: h in m ==> m[h] == []
  {
    m := map[];
    var i := 0;
    while i < |hull|
      invariant 0 <= i <= |hull|
      invariant m.Keys == Elems(hull[..i])
      invariant forall h :: h in m ==> m[h] == []
    {
      assert hull[..i + 1] == hull[..i] + [hull[i]];
      m := m[hull[i] := []];
      i := i + 1;
    }
    assert hull[..i] == hull;
  }

  /**
   * Appending the farthest index of defect `i` to the list of its start and then to
   * the list of its end turns the lists after `i` defects into the lists after `i + 1`,
   * and keeps the key set.
   */
  lemma AddDefectStep(m: map<int, seq<int>>, defects: seq<Defect>, i: int)
    requires 0 <= i < |defects|
    requires forall h :: h in m ==> m[h] == Neighbours(defects[..i], h)
    requires defects[i].start in m && defects[i].end in m
    ensures var d := defects[i];
      var m1 := m[d.start := m[d.start] + [d.farthest]];
      var m2 := m1[d.end := m1[d.end] + [d.farthest]];
      && m2.Keys == m.Keys
      && forall h :: h in m2 ==> m2[h] == Neighbours(defects[..i + 1], h)
  {
    assert defects[..i + 1][..i] == defects[..i];
    assert defects[..i + 1][i] == defects[i];
  }

  /**
   * Builds the map from hull index to neighbour list. Every hull index starts with an
   * empty list; each defect then appends its farthest index to the list of its start
   * and to the list of its end. A start or end with no list fails, reporting that
   * index, and this happens exactly when some defect endpoint is not a hull index.
   */
  method DefectNeighbours(hull: seq<int>, defects: seq<Defect>) returns (r: Result<map<int, seq<int>>>)
    ensures r.Success? <==> EndpointsInHull(defects, hull)
    ensures r.Success? ==> r.value == NeighbourMap(hull, defects)
    ensures r.Failure? ==>
      && r.error.index !in hull
      && exists i :: 0 <= i < |defects| && Touches(defects[i], r.error.index)
  {
    var m := EmptyNeighbourLists(hull);
    var i := 0;
    while i < |defects|
      invariant 0 <= i <= |defects|
      invariant m.Keys == Elems(hull)
      invariant forall h :: h in m ==> m[h] == Neighbours(defects[..i], h)
      invariant forall j :: 0 <= j < i ==> defects[j].start in hull && defects[j].end in hull
    {
      var d := defects[i];
      if d.start !in m {
        assert Touches(defects[i], d.start);
        return Failure(NotAHullIndex(d.start));
      }
      ghost var before := m;
      m := m[d.start := m[d.start] + [d.farthest]];
      if d.end !in m {
        assert Touches(defects[i], d.end);
        return Failure(NotAHullIndex(d.end));
      }
      AddDefectStep(before, defects, i);
      assert d.start in Elems(hull) && d.end in Elems(hull);
      m := m[d.end := m[d.end] + [d.farthest]];
      i := i + 1;
    }
    assert defects[..i] == defects;
    r := Success(m);
  }

  /** Every index that the candidate stage reads addresses a contour point. */
  predicate CandidateInputsValid(contour: seq<Point>, nbrs: map<int, seq<int>>, order: seq<int>)
  {
    forall h :: h in order ==>
      && h in nbrs
      && 0 <= h < |contour|
      && forall j :: 0 <= j < |nbrs[h]| ==> 0 <= nbrs[h][j] < |contour|
  }

  /**
   * The hull indices, in the map's iteration order `order`, whose list has more than
   * one entry: exactly those get a candidate, and each at most once.
   */
  function CandidateKeys(nbrs: map<int, seq<int>>, order: seq<int>): (ks: seq<int>)
    requires forall h :: h in order ==> h in nbrs
    ensures forall h :: h in ks <==> h in order && |nbrs[h]| > 1
    ensures forall k :: 0 <= k < |ks| ==> ks[k] in order && ks[k] in nbrs && |nbrs[ks[k]]| > 1
  {
    if order == [] then []
    else
      var h := order[0];
      assert h in order;
      assert forall x :: x in order[1..] ==> x in order;
      var rest := CandidateKeys(nbrs, order[1..]);
      if |nbrs[h]| > 1 then [h] + rest else rest
  }

  /** Filtering keeps keys distinct. */
  lemma {:induction false} CandidateKeysDistinct(nbrs: map<int, seq<int>>, order: seq<int>)
    requires forall h :: h in order ==> h in nbrs
    requires NoDups(order)
    ensures NoDups(CandidateKeys(nbrs, order))
  {
    if order != [] {
      var h, tail := order[0], order[1..];
      assert forall x :: x in tail ==> x in order;
      assert NoDups(tail) by {
        forall i, j | 0 <= i < j < |tail| ensures tail[i] != tail[j] {
          assert tail[i] == order[i + 1] && tail[j] == order[j + 1];
        }
      }
      CandidateKeysDistinct(nbrs, tail);
      assert h !in tail;
    }
  }

  /** The candidate for hull index `h`: its point and the points of its first two neighbours. */
  function VertexAt(contour: seq<Point>, nbrs: map<int, seq<int>>, h: int): Vertex
    requires h in nbrs && |nbrs[h]| > 1 && 0 <= h < |contour|
    requires 0 <= nbrs[h][0] < |contour| && 0 <= nbrs[h][1] < |contour|
  {
    Vertex(contour[h], contour[nbrs[h][0]], contour[nbrs[h][1]])
  }

  /**
   * The stream stage of `getHullDefectVertices`: over the map's keys in `order`, keep
   * those whose list has more than one entry and build a candidate from the first two.
   * Candidate k belongs to the k-th such key, and entries past the second are ignored.
   */
  function Candidates(contour: seq<Point>, nbrs: map<int, seq<int>>, order: seq<int>): (vs: seq<Vertex>)
    requires CandidateInputsValid(contour, nbrs, order)
    ensures |vs| == |CandidateKeys(nbrs, order)|
    ensures forall k :: 0 <= k < |vs| ==>
      var h := CandidateKeys(nbrs, order)[k];
      h in nbrs && |nbrs[h]| > 1 && 0 <= h < |contour| && vs[k] == VertexAt(contour, nbrs, h)
  {
    var ks := CandidateKeys(nbrs, order);
    seq(|ks|, k requires 0 <= k < |ks| => VertexAt(contour, nbrs, ks[k]))
  }

  /** Every farthest index is a contour index. */
  predicate FarthestValid(defects: seq<Defect>, n: int)
  {
    forall i :: 0 <= i < |defects| ==> 0 <= defects[i].farthest < n
  }

  /** The neighbour map only holds contour indices, given valid farthest indices. */
  lemma NeighbourMapValid(contour: seq<Point>, hull: seq<int>, defects: seq<Defect>, order: seq<int>)
    requires forall i :: 0 <= i < |hull| ==> 0 <= hull[i] < |contour|
    requires FarthestValid(defects, |contour|)
    requires forall h :: h in order ==> h in hull
    ensures CandidateInputsValid(contour, NeighbourMap(hull, defects), order)
  {
    var m := NeighbourMap(hull, defects);
    forall h | h in order
      ensures h in m && 0 <= h < |contour|
      ensures forall j :: 0 <= j < |m[h]| ==> 0 <= m[h][j] < |contour|
    {
      var i :| 0 <= i < |hull| && hull[i] == h;
      forall j | 0 <= j < |m[h]| ensures 0 <= m[h][j] < |contour| {
        NeighboursMembers(defects, h, m[h][j]);
      }
    }
  }

  /**
   * `getHullDefectVertices`, given the defects of the hull and the order `order` in
   * which the neighbour map enumerates its keys (each distinct hull index once). It
   * fails exactly when a defect endpoint is not a hull index. Otherwise candidate k
   * belongs to the k-th hull index in `order` whose neighbour list has more than one
   * entry; it is that point with the points of the first two list entries.
   */
  method HullDefectVertices(contour: seq<Point>, hull: seq<int>, defects: seq<Defect>, order: seq<int>)
    returns (r: Result<seq<Vertex>>)
    requires forall i :: 0 <= i < |hull| ==> 0 <= hull[i] < |contour|
    requires FarthestValid(defects, |contour|)
    requires NoDups(order) && forall h :: h in order <==> h in hull
    ensures r.Success? <==> EndpointsInHull(defects, hull)
    ensures r.Success? ==>
      var ks := CandidateKeys(NeighbourMap(hull, defects), order);
      && CandidateInputsValid(contour, NeighbourMap(hull, defects), order)
      && r.value == Candidates(contour, NeighbourMap(hull, defects), order)
      && |r.value| == |ks|
      && forall k :: 0 <= k < |ks| ==>
        && ks[k] in hull
        && |Neighbours(defects, ks[k])| > 1
        && r.value[k] == Vertex(contour[ks[k]], contour[Neighbours(defects, ks[k])[0]], contour[Neighbours(defects, ks[k])[1]])
  {
    var nbrs := DefectNeighbours(hull, defects);
    if nbrs.Failure? {
      return Failure(nbrs.error);
    }
    NeighbourMapValid(contour, hull, defects, order);
    r := Success(Candidates(contour, nbrs.value, order));
  }

  /**
   * Without repeated keys in `order`, there are as many candidates as keys with more
   * than one neighbour, here described by the set `many`.
   */
  lemma CandidateKeysCount(nbrs: map<int, seq<int>>, order: seq<int>, many: set<int>)
    requires NoDups(order) && forall h :: h in order <==> h in nbrs
    requires forall h :: h in many <==> h in nbrs && |nbrs[h]| > 1
    ensures |CandidateKeys(nbrs, order)| == |many|
  {
    var ks := CandidateKeys(nbrs, order);
    CandidateKeysDistinct(nbrs, order);
    forall h ensures h in Elems(ks) <==> h in many {
      assert h in Elems(ks) <==> h in ks;
      assert h in ks <==> h in order && |nbrs[h]| > 1;
    }
    assert Elems(ks) == many;
    NoDupsCard(ks);
  }

  /** The hull indices that receive more than one neighbour. */
  function ManyNeighbours(hull: seq<int>, defects: seq<Defect>): set<int>
  {
    set h | h in hull && |Neighbours(defects, h)| > 1
  }

  /**
   * One candidate is produced per hull index that received more than one neighbour,
   * whatever the order in which the map is enumerated.
   */
  lemma CandidateCount(hull: seq<int>, defects: seq<Defect>, order: seq<int>)
    requires NoDups(order) && forall h :: h in order <==> h in hull
    ensures |CandidateKeys(NeighbourMap(hull, defects), order)|
      == |ManyNeighbours(hull, defects)|
  {
    var m := NeighbourMap(hull, defects);
    var many := ManyNeighbours(hull, defects);
    forall h ensures h in many <==> h in m && |m[h]| > 1 {
      if h in hull {
        assert h in m && m[h] == Neighbours(defects, h);
      }
    }
    CandidateKeysCount(m, order, many);
  }
}
