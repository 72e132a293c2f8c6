# HandGesture finger-candidate core, in Dafny

HandGesture counts raised fingers in camera frames. For each frame it takes the
largest contour of the segmented hand and computes that contour's convex hull.
It then merges hull points that lie within 20 pixels of each other into one
representative each; the result is the *rough hull*. Finally it looks at the
convexity defects between hull points. A hull point that two defects border is
a candidate fingertip, with the two defects' deepest points as its valleys.

This project models that combinatorial middle of the pipeline, all of it in
`HandGesture.java`:

- `geometry.dfy` (module `Geometry`) covers three things: the cluster predicate
  `ptsBelongToSameCluster`; the centroid `getCentralPoint`; and the choice of the
  group member nearest to the centroid, `getMostCentralPoint`. All of it uses
  exact arithmetic on integer pixel coordinates. Distances are compared as
  squared distances. The centroid is a pair of exact reals. "Nearest" is decided
  by the integer key |n·p − Σ|², and a lemma proves it orders points exactly as
  their real distance to the centroid does.
- `hull_reduction.dfy` (module `HullReduction`) covers `getRoughHull`. It pairs
  each hull index with its contour point and groups the pairs by cluster label
  into a map of lists. Both of these are loops over mutable collections and are
  methods here. It then reduces every group to its most central member and looks
  that member up again among the pairs.
- `defect_vertices.dfy` (module `DefectVertices`) covers `getHullDefectVertices`.
  It builds the map from hull index to neighbour list with a loop, as a method.
  It then keeps the indices with more than one neighbour and turns each into a
  candidate (tip, valley, valley).
- `seqs.dfy` (module `Seqs`) defines the element set of a sequence (`Elems`) and
  duplicate-freedom (`NoDups`), and proves that a duplicate-free sequence has as
  many elements as entries (`NoDupsCard`).

Inputs that library code produces in the original are parameters here:

- the convex hull: a sequence of contour indices, or `None` when the hull step
  throws;
- the cluster label of each hull point: the partition step is not part of this
  model;
- the defect triples (start, end, farthest);
- the iteration order of each hash map. This is a duplicate-free enumeration of
  the map's keys, because the order of `keySet()`/`values()` is unspecified.

Java's reference comparison of `Point` objects, in the rough-hull lookup, is
modelled by carrying the contour index with each point. The contour's point list
holds one object per contour position, so two hull pairs hold the same object
exactly when they hold the same contour index.

Behaviour of the code worth knowing:

- `getHullDefectVertices` makes a hull point a candidate when its neighbour list
  has more than one entry (`size() > 1`, HandGesture.java:263). The entries need
  not differ: one defect that both starts and ends at the point gives two
  entries (`DefectVertices.FirstNeighbour`).
- `getRoughHull` returns its entries in the hash map's order of labels
  (HandGesture.java:233).
- When the convex hull throws, `getRoughHull` returns an empty list
  (HandGesture.java:214-215).
- When a defect endpoint is not a hull index, the map lookup at
  HandGesture.java:256-257 returns null and the method throws. The model returns
  `Failure(NotAHullIndex(i))` there.

## Model

| member | source | states |
|---|---|---|
| Geometry.SameCluster | src/main/java/fr/rant/opencv/handgesture/HandGesture.java:98 | `ptsBelongToSameCluster`: squared distance below 20²; specified by `SameClusterIffDistanceBelowRadius` (equivalent to the Euclidean distance being below 20), `SameClusterReflexiveSymmetric` and `ClusterBoundary` |
| Geometry.SqDist | src/main/java/fr/rant/opencv/handgesture/HandGesture.java:97 | the squared distance is non-negative and zero exactly for equal points |
| Geometry.SameClusterIffDistanceBelowRadius | src/main/java/fr/rant/opencv/handgesture/HandGesture.java:97-98 | for the true Euclidean distance d, the integer test holds if and only if d < 20, so it decides the source's `getDist(p, q) < 20` exactly |
| Geometry.SameClusterReflexiveSymmetric | src/main/java/fr/rant/opencv/handgesture/HandGesture.java:98 | every point is in its own cluster, and the relation is symmetric |
| Geometry.ClusterBoundary | src/main/java/fr/rant/opencv/handgesture/HandGesture.java:98 | a point 19 pixels away is clustered; points exactly 20 away (axis-aligned or (12, 16)) and 21 away are not |
| Geometry.Sum | src/main/java/fr/rant/opencv/handgesture/HandGesture.java:100 | the `reduce` from (0, 0); specified by `SumInBox` (the sum of n points from a box lies in the n-fold box) and by `Centroid` (n times the centroid is the sum) |
| Geometry.Mean | src/main/java/fr/rant/opencv/handgesture/HandGesture.java:101 | the quotient is the one real whose n-fold is the sum |
| Geometry.Centroid | src/main/java/fr/rant/opencv/handgesture/HandGesture.java:99-102 | n times the centroid is the coordinate sum, on each axis |
| Geometry.SumInBox | src/main/java/fr/rant/opencv/handgesture/HandGesture.java:100 | the sum of n points from a box lies in the n-fold box |
| Geometry.MeanInBounds | src/main/java/fr/rant/opencv/handgesture/HandGesture.java:101 | a sum of n values in [lo, hi], divided by n, lies in [lo, hi] |
| Geometry.CentroidInBox | src/main/java/fr/rant/opencv/handgesture/HandGesture.java:99-102 | the centroid lies in every axis-aligned box that holds all the points |
| Geometry.CentralKey | src/main/java/fr/rant/opencv/handgesture/HandGesture.java:281 | the sort key as the exact integer |n·p − Σ|²; specified by `CentralKeyScales` (n² times the squared distance to the centroid) and `CentralKeyOrder` (orders members as that distance does) |
| Geometry.CentralKeyScales | src/main/java/fr/rant/opencv/handgesture/HandGesture.java:279-281 | the integer key equals n² times the squared real distance to the centroid |
| Geometry.CentralKeyOrder | src/main/java/fr/rant/opencv/handgesture/HandGesture.java:279-281 | keys compare, both ≤ and <, exactly as the real distances to the centroid do |
| Geometry.FirstMinIndex | src/main/java/fr/rant/opencv/handgesture/HandGesture.java:281 | the result is a position with the least key, and every earlier key is strictly larger, which is what a stable sort puts first |
| Geometry.CentralKeys | src/main/java/fr/rant/opencv/handgesture/HandGesture.java:281 | one key per member, the key of that member |
| Geometry.MostCentralIndex | src/main/java/fr/rant/opencv/handgesture/HandGesture.java:279-282 | the chosen member has the least key in the group, and every earlier member has a strictly larger key |
| Geometry.MostCentralNearestToCentroid | src/main/java/fr/rant/opencv/handgesture/HandGesture.java:279-282 | no member is nearer to the real centroid than the chosen one, and every earlier member is strictly farther |
| Geometry.MostCentralTieBreak | src/main/java/fr/rant/opencv/handgesture/HandGesture.java:279-282 | of four points equally far from their centroid, the first is chosen |
| HullReduction.PairsOf | src/main/java/fr/rant/opencv/handgesture/HandGesture.java:219 | one (index, point) pair per hull index, in hull order; specified by `HullPairs` (the loop builds it), `PairFromHull` (each pair holds a hull index and its contour point) and `PairsDistinct` |
| HullReduction.PairFromHull | src/main/java/fr/rant/opencv/handgesture/HandGesture.java:217-219 | every hull pair holds a hull index and the contour point at that index |
| HullReduction.Points | src/main/java/fr/rant/opencv/handgesture/HandGesture.java:220 | the point list of the pairs, position by position |
| HullReduction.HullPairs | src/main/java/fr/rant/opencv/handgesture/HandGesture.java:217-219 | the loop builds one (index, point) pair per hull index, in hull order |
| HullReduction.GroupOf | src/main/java/fr/rant/opencv/handgesture/HandGesture.java:225-230 | a group is no longer than the hull, and the group of a label that occurs is non-empty |
| HullReduction.GroupByLabel | src/main/java/fr/rant/opencv/handgesture/HandGesture.java:225-230 | the map has one key per distinct label, and the list of each label is that label's group in hull order |
| HullReduction.GroupMembers | src/main/java/fr/rant/opencv/handgesture/HandGesture.java:227-230 | a pair is in the group of l if and only if it is a hull pair labelled l |
| HullReduction.EachPointInItsOwnGroup | src/main/java/fr/rant/opencv/handgesture/HandGesture.java:227-230 | with distinct pairs, a hull pair is in the group of l exactly when l is its own label, so it is in exactly one group |
| HullReduction.GroupSizeTotalStep | src/main/java/fr/rant/opencv/handgesture/HandGesture.java:227-230 | one more labelled point adds one to the total size of the listed groups exactly when its label is listed |
| HullReduction.GroupSizesSum | src/main/java/fr/rant/opencv/handgesture/HandGesture.java:225-230 | summed over any duplicate-free list of labels covering all labels, the group sizes add up to the number of hull points |
| HullReduction.EmptyGroupsTotal | src/main/java/fr/rant/opencv/handgesture/HandGesture.java:225 | with no hull points every group is empty |
| HullReduction.MostCentral | src/main/java/fr/rant/opencv/handgesture/HandGesture.java:233 | the representative is a member of its group |
| HullReduction.MostCentralNearest | src/main/java/fr/rant/opencv/handgesture/HandGesture.java:279-282 | no member has a smaller key than the representative, and each other member either has a strictly larger key or comes after it |
| HullReduction.FirstMatch | src/main/java/fr/rant/opencv/handgesture/HandGesture.java:236 | the result is the position of the first pair equal to the one searched for |
| HullReduction.GroupedFromPairs | src/main/java/fr/rant/opencv/handgesture/HandGesture.java:225-230 | every group built from the hull pairs is non-empty and consists of hull pairs |
| HullReduction.RoughHullEntries | src/main/java/fr/rant/opencv/handgesture/HandGesture.java:233-237 | one entry per label in map order; each entry is the group's representative, and it is one of the hull pairs |
| HullReduction.OneEntryPerLabel | src/main/java/fr/rant/opencv/handgesture/HandGesture.java:225-226 | a duplicate-free enumeration of the map's labels has one entry per distinct label |
| HullReduction.ReduceHull | src/main/java/fr/rant/opencv/handgesture/HandGesture.java:217-237 | the rough hull has one entry per distinct label; entry k is the most central member of the group of the k-th label, and it is a hull pair |
| HullReduction.RoughHull | src/main/java/fr/rant/opencv/handgesture/HandGesture.java:209-237 | a failed convex hull gives the empty list; otherwise the result is as in `ReduceHull` |
| HullReduction.RepresentativesDistinct | src/main/java/fr/rant/opencv/handgesture/HandGesture.java:233 | with distinct pairs, different labels have different representatives |
| HullReduction.PairsDistinct | src/main/java/fr/rant/opencv/handgesture/HandGesture.java:219 | distinct hull indices give distinct hull pairs |
| HullReduction.RoughHullDistinct | src/main/java/fr/rant/opencv/handgesture/HandGesture.java:233-237 | with distinct hull indices, no two rough-hull entries are equal |
| DefectVertices.Neighbours | src/main/java/fr/rant/opencv/handgesture/HandGesture.java:250-258 | the list of hull index h after the defects; specified by `NeighboursAppend` (built in defect order), `NeighboursCount` (length is #starts + #ends at h), `NeighboursMembers` (entries are the farthest indices of the defects touching h), `NoNeighboursIffUntouched` and `FirstNeighbour` |
| DefectVertices.NeighboursAppend | src/main/java/fr/rant/opencv/handgesture/HandGesture.java:250-258 | lists are built in defect order: the list after two runs of defects is the concatenation of the lists of each run |
| DefectVertices.NeighboursCount | src/main/java/fr/rant/opencv/handgesture/HandGesture.java:256-257 | the list length is the number of defects starting at h plus the number ending at h |
| DefectVertices.StartsAtStep | src/main/java/fr/rant/opencv/handgesture/HandGesture.java:256 | one more defect adds a start position exactly when it starts at h |
| DefectVertices.EndsAtStep | src/main/java/fr/rant/opencv/handgesture/HandGesture.java:257 | one more defect adds an end position exactly when it ends at h |
| DefectVertices.TouchingGivesNeighbour | src/main/java/fr/rant/opencv/handgesture/HandGesture.java:256-257 | a defect that starts or ends at h puts its farthest index in the list of h |
| DefectVertices.NeighbourFromTouching | src/main/java/fr/rant/opencv/handgesture/HandGesture.java:256-257 | every entry of the list of h is the farthest index of a defect starting or ending at h |
| DefectVertices.NeighboursMembers | src/main/java/fr/rant/opencv/handgesture/HandGesture.java:250-258 | x is in the list of h if and only if some defect touching h has farthest index x |
| DefectVertices.NoNeighboursIffUntouched | src/main/java/fr/rant/opencv/handgesture/HandGesture.java:248-258 | the list of h is empty if and only if no defect starts or ends at h |
| DefectVertices.FirstNeighbour | src/main/java/fr/rant/opencv/handgesture/HandGesture.java:256-257 | the first entry comes from the first defect touching h; if that defect both starts and ends at h, it is also the second entry |
| DefectVertices.NeighbourMap | src/main/java/fr/rant/opencv/handgesture/HandGesture.java:247-258 | the keys are exactly the hull indices, and each key maps to its neighbour list |
| DefectVertices.EmptyNeighbourLists | src/main/java/fr/rant/opencv/handgesture/HandGesture.java:247-248 | every hull index, and nothing else, is a key, and every list is empty |
| DefectVertices.AddDefectStep | src/main/java/fr/rant/opencv/handgesture/HandGesture.java:251-257 | appending one defect's farthest index for its start and then for its end extends the lists by that defect and keeps the keys |
| DefectVertices.DefectNeighbours | src/main/java/fr/rant/opencv/handgesture/HandGesture.java:247-258 | succeeds if and only if every defect endpoint is a hull index, and then yields the neighbour map; a failure names an endpoint that is not a hull index |
| DefectVertices.CandidateKeys | src/main/java/fr/rant/opencv/handgesture/HandGesture.java:261-263 | a key is kept if and only if it is enumerated and its list has more than one entry |
| DefectVertices.CandidateKeysDistinct | src/main/java/fr/rant/opencv/handgesture/HandGesture.java:261-263 | no hull index is kept twice |
| DefectVertices.VertexAt | src/main/java/fr/rant/opencv/handgesture/HandGesture.java:266 | the `Angle` of hull index h: its point and the points of its first two list entries; `HullDefectVertices` states each candidate is this value for the k-th kept key |
| DefectVertices.Candidates | src/main/java/fr/rant/opencv/handgesture/HandGesture.java:261-267 | one candidate per kept key, built from that key's point and its first two neighbours |
| DefectVertices.NeighbourMapValid | src/main/java/fr/rant/opencv/handgesture/HandGesture.java:265-266 | every index the candidate stage reads is a contour index |
| DefectVertices.HullDefectVertices | src/main/java/fr/rant/opencv/handgesture/HandGesture.java:240-267 | fails exactly when some defect endpoint is not a hull index; otherwise candidate k is (contour[h], contour[list[0]], contour[list[1]]) for the k-th enumerated hull index h whose list has more than one entry |
| DefectVertices.CandidateKeysCount | src/main/java/fr/rant/opencv/handgesture/HandGesture.java:261-263 | there are as many kept keys as keys with more than one neighbour |
| DefectVertices.CandidateCount | src/main/java/fr/rant/opencv/handgesture/HandGesture.java:261-267 | whatever the map order, the number of candidates is the number of hull indices with more than one neighbour |
| Seqs.NoDupsCard | src/main/java/fr/rant/opencv/handgesture/HandGesture.java:226 | a duplicate-free sequence has as many elements as entries |

## Left out

- The Swing window, its checkboxes, drawing and repainting, and the `process`
  hand-off that wires the stages together: user interface with nothing to verify.
- The `SwingWorker` capture loop and the camera: concurrency and I/O.
- Background subtraction, blur, threshold and `findContours` with the choice of
  the largest contour: image processing done by OpenCV.
- `Imgproc.convexHull` and `Imgproc.convexityDefects`: library calls. Their
  results are inputs. A hull failure is the input `None`.
- `Partition.partition`, which assigns the cluster labels, is not part of this
  model. The labels are an input of the same length as the hull.
  `Geometry.SameCluster` models the relation the partition is given.
- `filterVerticesByAngles`: it compares a floating-point cosine with
  `Math.cos(60·π/180)`, which is not exactly 0.5, so its boundary behaviour
  depends on rounding.
- The order of `HashMap.keySet()` and `values()`: an input enumeration of the
  keys. The properties hold for every such enumeration.
- `Util.java`: look-and-feel and native-library loading.
- Geometry.Centroid: computed in exact reals. The source divides doubles, so the
  model does not capture rounding in the centroid or in `Math.sqrt`/`Math.pow`.
- Geometry.MostCentralIndex: compares exact keys. With doubles, two members
  whose true distances differ by less than the rounding error could compare
  differently in the source.
- Defect indices (start, end, farthest) arrive as doubles cast to `int`
  (HandGesture.java:252-254). They are integers here.
- HullReduction.RoughHull: when the convex hull yields indices, it requires
  that they address contour points and that there is one label per hull point.
  The library calls guarantee both in the source.
- DefectVertices.HullDefectVertices: it requires that every hull index is a
  contour index. In the source an out-of-range hull index fails only when it
  becomes a candidate (HandGesture.java:266); the caller passes the rough hull's
  indices (HandGesture.java:146, 154), which `HullReduction.RoughHull` and
  `HullReduction.PairFromHull` show are contour indices.
- DefectVertices.HullDefectVertices: it requires that every farthest index is
  a contour index, which `convexityDefects` guarantees.
