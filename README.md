# polygon-schematization core, modelled in Dafny

This project models the discrete core of polygon-schematization. That program turns polygon
maps into C-oriented schematic maps: every edge ends up running along one of a fixed set C of
orientations.

The model covers:

- **The doubly connected edge list (DCEL).** This is the half-edge planar subdivision built from
  the input polygon rings. It covers vertex, half-edge and face bookkeeping, and its construction:
  twin pairing, linking the edges around each vertex, painting the faces of outer and inner
  rings, and the final unbounded face. It also covers the queries the later phases use and the
  bookkeeping steps of those phases.
- **The staircase of a half-edge.** This is the chain of steps along two orientations of C that
  replaces the edge, together with the region the staircase may occupy.
- **The contraction of a configuration.** This is the choice of contraction point, the area
  swept by the move, and the boundary edges that block it.
- **The point predicates.** Point-in-convex-polygon, point equality, distance, and point on
  segment.
- **The utilities.** The shoelace polygon area, the circular index `crawlArray`, `getOccurrence`
  and `groupBy`.
- **The sectors of the orientation restriction C.**

Modules:

| module | file | models |
|---|---|---|
| `Wrappers` | wrappers.dfy | `Option`, standing for `undefined`, and `Outcome`, a value or a throw |
| `Geometry` | geometry.dfy | src/lib/geometry/Point.ts, over exact reals |
| `Utilities` | utilities.dfy | src/lib/utilities.ts |
| `OrientationRestriction` | sector.dfy | assets/lib/orientation-restriction/Sector.mjs |
| `HalfEdgeClasses` | half_edge_class.dfy | the `OrientationClasses` enumeration (AB, UB, E, AD, UD) |
| `Staircase` | staircase.dfy | src/lib/c-oriented-schematization/Staircase.ts |
| `Contraction` | contraction.dfy | src/lib/c-oriented-schematization/Contraction.ts |
| `Dcel` | dcel.dfy | src/lib/DCEL/Dcel.ts: the arena class, factories, queries, phase steps |
| `DcelBuild` | dcel_build.dfy | src/lib/DCEL/Dcel.ts: `fromGeoJSON` over in-memory rings |

Design:

- **The DCEL is an arena.** A class `Dcel.Dcel` holds three sequence fields: `vertices`,
  `halfEdges` and `faces`. Every object reference of the source is an index into one of them.
  `twin`, `next`, `prev` and `face` of a half-edge are `Option<nat>` indices.
- **Each source Map is searched by key.** The source's `Map` from coordinate key to vertex
  becomes a search over `vertices` by coordinates, and `Dcel.Wf` states that keys are distinct.
  The same holds for half-edges keyed by (tail, head).
- **Methods that change the subdivision state their effect.** Their `modifies` clauses name the
  fields they change. Their `ensures` relate the new state to the old one.
- **Invariants are predicates over the arrays.** `Wf` covers well-formed references, unique keys
  and exact per-vertex edge lists. `Paired` says every twin runs the opposite way. `AllTwinned`
  says every edge has a twin. `Linked` says that around every vertex, cyclically consecutive
  outgoing edges e1 and e2 satisfy `e1.twin.next == e2` and `e2.prev == e1.twin`.
- **Other classes are parameters.** Computations of classes that are not part of this model
  enter as function parameters or as fields of an `Oracle` datatype. They arrive already
  evaluated, inside an `EdgeView` or `ConfigurationView` datatype. These classes include the
  `HalfEdge` methods, `Line.intersectsLine`, `LineSegment`, `Configuration` and the Graham scan.
- **Trigonometry and square roots are oracles.** `Math.sqrt` is a parameter `sqrt`. Lemmas that
  need its meaning require `Geometry.IsSqrt(sqrt)`.

## Model

| member | source | states |
|---|---|---|
| Geometry.Xy | src/lib/geometry/Point.ts:14-16 | the pair is exactly [x, y] |
| Geometry.DistanceIsMetricLike | src/lib/geometry/Point.ts:22-30 | distance is non-negative, symmetric, zero from a point to itself, and zero only between equal points |
| Geometry.EndPointsOnSegment | src/lib/geometry/Point.ts:39-43 | both end points of a segment lie on it (PA + PB equals the segment length) |
| Geometry.IsInPolygon | src/lib/geometry/Point.ts:53-78 | the A/B/C accumulation loop answers true iff the signed edge-line values of the point are all >= 0 or all <= 0 |
| Geometry.EmptyPolygonContainsAll | src/lib/geometry/Point.ts:72-77 | a polygon without points contains every point |
| Geometry.InPolygonReversed | src/lib/geometry/Point.ts:53-78 | the test gives the same answer for the reversed polygon |
| Geometry.ReversedPolygonEdge | src/lib/geometry/Point.ts:58-72 | edge i of the reversed polygon has the negated value of the mirrored original edge |
| Geometry.TriangleCornersInside | src/lib/geometry/Point.ts:53-78 | boundary points count as inside: every corner of a triangle is inside it |
| Geometry.EqualsIsEquality | src/lib/geometry/Point.ts:80-84 | equals holds iff the coordinates agree; so it is reflexive and symmetric |
| Geometry.DistanceToPoint | src/lib/geometry/Point.ts:22-30 | sqrt of the squared coordinate differences; DistanceIsMetricLike is its partner lemma |
| Geometry.IsOnLineSegment | src/lib/geometry/Point.ts:39-43 | PA + PB equals the segment length; EndPointsOnSegment is its partner lemma |
| Geometry.Equals | src/lib/geometry/Point.ts:80-84 | both coordinate differences are zero; EqualsIsEquality is its partner lemma |
| Utilities.JsRem | src/lib/utilities.ts:23 | JavaScript's `%` agrees with the Euclidean remainder for a non-negative dividend and lies in (-m, 0] for a negative one |
| Utilities.CrawlArray | src/lib/utilities.ts:22-24 | for a non-empty array the index lies in [0, len) and is congruent to index + n modulo len, also for negative n; undefined for the empty array |
| Utilities.JsRemFixesEuclid | src/lib/utilities.ts:23 | adding the length before the second `%` turns the truncated remainder into the Euclidean one |
| Utilities.CrawlArrayWraps | src/lib/utilities.ts:22-24 | one step forward from the last index gives 0, one step back from 0 gives len - 1 |
| Utilities.CrawlArrayRoundTrip | src/lib/utilities.ts:22-24 | stepping +n and then -n returns to the original in-range index |
| Utilities.Occurrence | src/lib/utilities.ts:26-28 | the count is at most the array length |
| Utilities.OccurrenceCountsPositions | src/lib/utilities.ts:26-28 | the count is the number of indices holding the value, i.e. its multiplicity |
| Utilities.WithKey | src/lib/utilities.ts:48-53 | the elements with a key are elements of the input with that key |
| Utilities.WithKeyAbsent | src/lib/utilities.ts:48-53 | no element with a key that no element has |
| Utilities.AddToGroup | src/lib/utilities.ts:50-51 | `(group \|\| []).concat(obj)`: appends the element to its key's group, opening the group last when new, and leaves every other group unchanged |
| Utilities.GroupBy | src/lib/utilities.ts:48-53 | the group keys are distinct |
| Utilities.TotalSizeAdd | src/lib/utilities.ts:50-51 | adding an element grows the total group size by one |
| Utilities.GroupByCoversKeys | src/lib/utilities.ts:48-53 | every element's key names a group |
| Utilities.GroupByGroupsByKey | src/lib/utilities.ts:48-53 | each group is exactly the input's elements with its key, in input order, and is non-empty |
| Utilities.GroupBySizes | src/lib/utilities.ts:48-53 | the group sizes sum to the input length |
| Utilities.GroupByPartitions | src/lib/utilities.ts:48-53 | every element is in exactly the group named by its key |
| Utilities.GetPolygonArea | src/lib/utilities.ts:74-88 | the loop's total is the shoelace signed area; the result is its absolute value and is non-negative |
| Utilities.DegenerateArea | src/lib/utilities.ts:74-88 | fewer than three points have area 0 |
| Utilities.AreaOfReversedRing | src/lib/utilities.ts:74-88 | reversing the point order negates the signed area and keeps the area |
| Utilities.AreaOfRotatedRing | src/lib/utilities.ts:74-88 | rotating the point order cyclically keeps the signed area |
| Utilities.TermsOfRotation | src/lib/utilities.ts:77-85 | rotating the points by one rotates the shoelace terms by one |
| Utilities.SumAppend | src/lib/utilities.ts:77-85 | the running total over a concatenation is the sum of the totals |
| Utilities.SumReverseNegated | src/lib/utilities.ts:77-85 | a reversed, negated sequence of terms has the negated total |
| OrientationRestriction.GetBounds | assets/lib/orientation-restriction/Sector.mjs:9-11 | the bounds are [lower, upper] as constructed |
| OrientationRestriction.GetIdx | assets/lib/orientation-restriction/Sector.mjs:13-15 | the index is the one constructed |
| OrientationRestriction.EnclosesBounds | assets/lib/orientation-restriction/Sector.mjs:25-28 | encloses holds only for lower <= angle <= upper, includes both bounds, and holds for no angle when lower > upper |
| OrientationRestriction.Encloses | assets/lib/orientation-restriction/Sector.mjs:25-28 | lower <= angle <= upper; EnclosesBounds is its partner lemma |
| OrientationRestriction.At | assets/lib/orientation-restriction/Sector.mjs:19-21 | array access: a sector exactly for an index inside the array |
| OrientationRestriction.GetNeighbors | assets/lib/orientation-restriction/Sector.mjs:17-23 | the neighbours are the sectors at (idx - 1) mod n and (idx + 1) mod n, so 0 wraps to n - 1; none for an empty restriction |
| OrientationRestriction.NeighborsAreInverse | assets/lib/orientation-restriction/Sector.mjs:17-23 | the previous neighbour of the next neighbour, and the next of the previous, is the sector itself |
| OrientationRestriction.SingleSectorIsOwnNeighbor | assets/lib/orientation-restriction/Sector.mjs:17-23 | with one sector, both neighbours are the sector itself |
| Staircase.DeltaE | src/lib/c-oriented-schematization/Staircase.ts:24-29 | deltaE is defined exactly for an AD edge with a length, and then is a tenth of the length |
| Staircase.StepCount | src/lib/c-oriented-schematization/Staircase.ts:195 | `se \|\| fallback`: se when set and non-zero, otherwise the fallback |
| Staircase.FindOther | src/lib/c-oriented-schematization/Staircase.ts:201 | `find((angle) => angle != d1)`: the first associated angle that differs from d1, every earlier one being d1; none exactly when all equal d1 |
| Staircase.SetUp | src/lib/c-oriented-schematization/Staircase.ts:198-203 | the step set-up fails exactly when d1, the associated angles or a second direction is missing |
| Staircase.BuildSteps | src/lib/c-oriented-schematization/Staircase.ts:205-217 | the step loop yields 1 + 2 * count points from the tail, step idx going over points 2idx, 2idx+1, 2idx+2 with the leg order the step order gives |
| Staircase.StaircaseIsChainOfSteps | src/lib/c-oriented-schematization/Staircase.ts:205-217 | every staircase point is reached from the one before by a step in one of the two directions |
| Staircase.OppositeIsHalfTurn | src/lib/c-oriented-schematization/Staircase.ts:146 | for an angle in [0, 2π) the opposite direction is a half turn away, stays in [0, 2π) and is an involution |
| Staircase.Opposite | src/lib/c-oriented-schematization/Staircase.ts:146 | `(d1 + PI) % (2 PI)` with JavaScript's remainder; OppositeIsHalfTurn is its partner lemma |
| Staircase.PointsAD | src/lib/c-oriented-schematization/Staircase.ts:138-163 | empty exactly when deltaE, d1, d2, the length or the head is missing; otherwise 7 points from tail to head built step by step with the legs the source gives |
| Staircase.SimpleRegion | src/lib/c-oriented-schematization/Staircase.ts:170-187 | throws exactly when the head exists and the sector array is empty (`[0]` of `[]`); otherwise empty or the 4 corners [A, B, C, D] with A the tail and C the head, 4 exactly when the head, a non-empty sector array and both intersections exist |
| Staircase.SpliceOutlier | src/lib/c-oriented-schematization/Staircase.ts:87-96 | the pentagon is returned as it is when P is inside it; otherwise P is inserted at index 2 (6 points); either way P is covered |
| Staircase.UdRegion | src/lib/c-oriented-schematization/Staircase.ts:58-96 | with a head and an assigned angle, throws exactly when the sector array is missing or empty, the associated angles are missing, or both angles are found but the third staircase point P is missing; otherwise empty or 5 or 6 points, starting at the tail, with the head second to last, covering P |
| Staircase.ThirdPoint | src/lib/c-oriented-schematization/Staircase.ts:81 | `this.points[2]`: the third staircase point, missing exactly when there are fewer than three |
| Staircase.NextDe | src/lib/c-oriented-schematization/Staircase.ts:323-326 | an unset or zero de is replaced; a set one is replaced only by a smaller distance |
| Staircase.Min | src/lib/c-oriented-schematization/Staircase.ts:323-326 | the minimum is at most every distance and is one of them |
| Staircase.EdgeDistanceIsMinimum | src/lib/c-oriented-schematization/Staircase.ts:323-326 | after a sequence of positive distances, de is the least of them and the earlier de |
| Staircase.ZeroDistanceIsReplaced | src/lib/c-oriented-schematization/Staircase.ts:324 | a zero de counts as unset and is replaced |
| Staircase.Staircase.constructor | src/lib/c-oriented-schematization/Staircase.ts:16-22 | the edge, deltaE from setDeltaE, no de, se or interfering edges, the points getRegion computes for UD and AD edges, and the region getRegion gives, a throw included |
| Staircase.Staircase.GetRegion | src/lib/c-oriented-schematization/Staircase.ts:37-105 | works on the edge, or on its twin when the edge's significant vertex is its head; empty without that edge, its head or its assigned angle; AB the degenerate 4-gon, UB and E the simple region, UD the region around the third staircase point, each throwing where those do, AD the hull of the staircase points; the points are recomputed exactly for UD and AD |
| Staircase.Staircase.GetStaircasePoints | src/lib/c-oriented-schematization/Staircase.ts:119-132 | dispatch by class to the UB, E, AD and UD constructions; empty for AB and every other class |
| Staircase.Staircase.GetStaircasePointsUB | src/lib/c-oriented-schematization/Staircase.ts:194-220 | 1 + 2se points from the tail, se defaulting to 2; even steps go assigned direction first, odd steps the other one first |
| Staircase.Staircase.GetStaircasePointsE | src/lib/c-oriented-schematization/Staircase.ts:227-253 | 1 + 2se points from the tail, se defaulting to 4; steps before se/2 go assigned first, the rest associated first |
| Staircase.Staircase.GetStaircasePointsUD | src/lib/c-oriented-schematization/Staircase.ts:286-316 | 3 + 2(se - 1) points (9 for the default se = 4), the tail at 0 and the two appended-area points at 1 and 2; without them the points are an E-like staircase of se - 1 steps |
| Staircase.PointsUB | src/lib/c-oriented-schematization/Staircase.ts:194-220 | the UB staircase: none when the set-up fails, otherwise `se || 2` alternating steps from the tail; GetStaircasePointsUB ensures it |
| Staircase.PointsE | src/lib/c-oriented-schematization/Staircase.ts:227-253 | the E staircase: none when the set-up fails, otherwise `se || 4` steps, the first half assigned direction first; GetStaircasePointsE ensures it |
| Staircase.PointsUD | src/lib/c-oriented-schematization/Staircase.ts:286-316 | the UD staircase: the tail, the two appended-area points, then se - 1 steps along the closest associated angle; GetStaircasePointsUD ensures it |
| Staircase.Staircase.SetEdgeDistance | src/lib/c-oriented-schematization/Staircase.ts:323-326 | returns its argument and updates de by the running-minimum rule |
| Contraction.Candidates | src/lib/c-oriented-schematization/Contraction.ts:59-92 | at most three candidates; each is A, D or, for a bend, the track intersection T, which comes first when present |
| Contraction.SelectPositive | src/lib/c-oriented-schematization/Contraction.ts:95-97 | after the stable ascending sort, the first candidate with dist >= 0: the smallest non-negative distance, earliest on ties; none iff every distance is negative |
| Contraction.SelectNegative | src/lib/c-oriented-schematization/Contraction.ts:95-98 | after the stable ascending sort, the last candidate with dist <= 0: the largest non-positive distance, latest on ties; none iff every distance is positive |
| Contraction.GetPoint | src/lib/c-oriented-schematization/Contraction.ts:53-99 | no point when the normal, A, D or a track is missing; otherwise the point is A, D or, for a bend, the track intersection |
| Contraction.TrackIntersectionOnlyForBends | src/lib/c-oriented-schematization/Contraction.ts:70-79 | for an inner edge that is not a bend, the point is A or D |
| Contraction.GetAreaPoints | src/lib/c-oriented-schematization/Contraction.ts:101-131 | empty or 3 or 4 points; the first is the contraction point, followed by the inner edge in one of its two directions |
| Contraction.AreaSegments | src/lib/c-oriented-schematization/Contraction.ts:142-144 | one segment per area point, from it to the next one, wrapping around |
| Contraction.AreaSegmentsAreClosed | src/lib/c-oriented-schematization/Contraction.ts:142-144 | the segments form a closed chain |
| Contraction.AreaSegmentsAsWritten | src/lib/c-oriented-schematization/Contraction.ts:142-144 | as written, each segment's second end is the number crawlArray returns, not a point |
| Contraction.AreaSegmentsAsWrittenEndAtIndices | src/lib/c-oriented-schematization/Contraction.ts:142-144 | for a triangle, the first segment as written ends at the number 1, whereas the corrected one ends at the second corner |
| Contraction.Crossings | src/lib/c-oriented-schematization/Contraction.ts:153-158 | one entry of the edge per area segment it crosses at a point other than the area points, and an entry iff some segment is crossed |
| Contraction.ConcatMembers | src/lib/c-oriented-schematization/Contraction.ts:146-159 | an id is in the concatenated list iff some element of X' contributes it |
| Contraction.BlocksMeans | src/lib/c-oriented-schematization/Contraction.ts:146-159 | an edge blocks iff it lies inside the area or crosses one of its segments |
| Contraction.ContributionMembers | src/lib/c-oriented-schematization/Contraction.ts:146-159 | an edge contributes only its own id, and does so iff it blocks |
| Contraction.BlockingListMembers | src/lib/c-oriented-schematization/Contraction.ts:137-162 | an id is listed iff an edge of X' with that id blocks: the list draws only from X' |
| Contraction.BlockingListEmpty | src/lib/c-oriented-schematization/Contraction.ts:137-162 | the list is empty iff no edge of X' blocks |
| Contraction.EndpointsInArea | src/lib/c-oriented-schematization/Contraction.ts:148 | the `every` test (corrected) answers whether every endpoint lies in the area |
| Contraction.CrossingEntries | src/lib/c-oriented-schematization/Contraction.ts:153-158 | the inner loop pushes exactly the crossing entries |
| Contraction.EdgeEntries | src/lib/c-oriented-schematization/Contraction.ts:146-159 | one boundary edge adds itself when inside, then itself once per crossing |
| Contraction.GetBlockingEdges | src/lib/c-oriented-schematization/Contraction.ts:137-162 | the nested loops build exactly the blocking list of X' over the area segments |
| Contraction.IsInPolygonOfArrayAsWritten | src/lib/c-oriented-schematization/Contraction.ts:148 | as written, `isInPolygon` reads `points` of an array of points, which is undefined, and throws |
| Contraction.InsideAreaAsWritten | src/lib/c-oriented-schematization/Contraction.ts:148 | as written, the `every` test throws for any edge with an endpoint |
| Contraction.InsideAreaAsWrittenThrows | src/lib/c-oriented-schematization/Contraction.ts:148 | for an edge strictly inside a triangle, the test as written throws while the corrected test reports it inside |
| Contraction.NewContraction | src/lib/c-oriented-schematization/Contraction.ts:22-29 | the constructor keeps type and point, and sets the area points, their area and the blocking edges |
| Contraction.Initialize | src/lib/c-oriented-schematization/Contraction.ts:31-37 | a contraction iff getPoint yields a point; it carries that type and point and the blocking edges of X' |
| Contraction.FeasibleIffUnblocked | src/lib/c-oriented-schematization/Contraction.ts:39-42 | a constructed contraction is feasible iff no edge of X' blocks its area |
| Contraction.ComplementaryIsOpposite | src/lib/c-oriented-schematization/Contraction.ts:44-46 | complementarity is irreflexive and symmetric, and holds iff the types are P and N |
| Contraction.IsFeasible | src/lib/c-oriented-schematization/Contraction.ts:39-42 | no blocking edges; FeasibleIffUnblocked is its partner lemma |
| Contraction.IsComplementary | src/lib/c-oriented-schematization/Contraction.ts:44-46 | the two types differ; ComplementaryIsOpposite is its partner lemma |
| Dcel.TwinInvolution | src/lib/DCEL/Dcel.ts:212-218 | twin(twin(e)) == e |
| Dcel.EdgeKeyDetermines | src/lib/DCEL/Dcel.ts:73-76 | two half-edges with the same (tail, head) key are the same |
| Dcel.TwinInjective | src/lib/DCEL/Dcel.ts:212-218 | distinct half-edges have distinct twins |
| Dcel.Succ | src/lib/DCEL/Dcel.ts:230 | the next position of a cyclic list stays in range |
| Dcel.SuccIsModulo | src/lib/DCEL/Dcel.ts:230 | the next position is (idx + 1) % length |
| Dcel.NextThenPrev | src/lib/DCEL/Dcel.ts:228-234 | in a linked subdivision every half-edge has a next, and the next's prev is the edge |
| Dcel.PrevThenNext | src/lib/DCEL/Dcel.ts:228-234 | in a linked subdivision every half-edge has a prev, and the prev's next is the edge |
| Dcel.SameButFacesKeepsLinks | src/lib/DCEL/Dcel.ts:273-301 | painting faces keeps unique keys, twins, per-vertex edge lists and links |
| Dcel.FindVertexIn | src/lib/DCEL/Dcel.ts:152-154 | the vertex with these coordinates, none exactly when there is none |
| Dcel.FindVertexUnique | src/lib/DCEL/Dcel.ts:57-65 | with unique keys, looking up a vertex's coordinates finds that vertex |
| Dcel.FindHalfEdgeIn | src/lib/DCEL/Dcel.ts:74-75 | the half-edge with this (tail, head) key, none exactly when there is none |
| Dcel.FindHalfEdgeAppended | src/lib/DCEL/Dcel.ts:78-79 | a new half-edge appended under a fresh key is found under that key |
| Dcel.FacesWithEdge | src/lib/DCEL/Dcel.ts:107-109 | exactly the faces with a representative edge, in order |
| Dcel.FirstFaceWithoutEdge | src/lib/DCEL/Dcel.ts:115-117 | the first face without a representative edge, none exactly when every face has one |
| Dcel.Simple | src/lib/DCEL/Dcel.ts:133-142 | the kept edges come from the input and have twins |
| Dcel.SimpleIsSubsequence | src/lib/DCEL/Dcel.ts:133-142 | the simple edges are a subsequence of the input |
| Dcel.SimpleHasNoLaterTwin | src/lib/DCEL/Dcel.ts:136-140 | no kept edge is the twin of an edge kept before it |
| Dcel.SimpleIsTwinFree | src/lib/DCEL/Dcel.ts:133-142 | with keyed twins, no kept edge appears together with its twin |
| Dcel.SimpleCoversPairs | src/lib/DCEL/Dcel.ts:133-142 | every input edge with a twin is kept itself or through its twin |
| Dcel.BboxUnique | src/lib/DCEL/Dcel.ts:313-331 | the bounding box is determined by the vertices |
| Dcel.SquareBbox | src/lib/DCEL/Dcel.ts:313-331 | the 200 × 200 square has the bounding box [0, 0, 200, 200] |
| Dcel.DoublySignificant | src/lib/DCEL/Dcel.ts:384-390 | exactly the edges whose tail and head are both significant |
| Dcel.FilterDoublySignificant | src/lib/DCEL/Dcel.ts:384-390 | the loop selects exactly the doubly significant edges |
| Dcel.AfterSubdivision | src/lib/DCEL/Dcel.ts:384-390 | after the split every edge has at most one significant endpoint, and there is one more edge per split edge |
| Dcel.InnerStepPoints | src/lib/DCEL/Dcel.ts:604 | `slice(1, -1)`: the staircase points without the first and the last |
| Dcel.SubdivideAlong | src/lib/DCEL/Dcel.ts:604-610 | subdividing at each step point in turn leaves a chain from the tail through every step point to the head |
| Dcel.Dcel.constructor | src/lib/DCEL/Dcel.ts:42-49 | an empty, valid subdivision |
| Dcel.Dcel.FindVertex | src/lib/DCEL/Dcel.ts:152-154 | the vertex with these coordinates, none exactly when there is none |
| Dcel.Dcel.FindHalfEdge | src/lib/DCEL/Dcel.ts:74-75 | the half-edge with this key, none exactly when there is none |
| Dcel.Dcel.MakeVertex | src/lib/DCEL/Dcel.ts:57-65 | an existing vertex with these coordinates is returned and nothing changes; otherwise exactly one vertex is appended; afterwards the coordinates find the result |
| Dcel.Dcel.MakeHalfEdge | src/lib/DCEL/Dcel.ts:73-83 | an existing (tail, head) edge is returned and nothing changes; otherwise exactly one edge is appended and listed at its tail, other vertices' lists unchanged; keys stay unique and twins stay paired |
| Dcel.Dcel.MakeFace | src/lib/DCEL/Dcel.ts:89-93 | one new face, last, earlier faces unchanged |
| Dcel.Dcel.GetBoundedFaces | src/lib/DCEL/Dcel.ts:107-109 | exactly the faces with a representative edge, in order |
| Dcel.Dcel.GetUnboundedFace | src/lib/DCEL/Dcel.ts:115-117 | the first face without a representative edge, which is not bounded; none iff every face is bounded |
| Dcel.Dcel.EdgeIds | src/lib/DCEL/Dcel.ts:127 | all half-edges in insertion order |
| Dcel.Dcel.GetSimpleEdges | src/lib/DCEL/Dcel.ts:133-142 | the accumulation loop returns the simple edges |
| Dcel.Dcel.GetBbox | src/lib/DCEL/Dcel.ts:313-331 | [minX, minY, maxX, maxY]: every vertex is within the bounds and each bound is attained (all infinite for no vertices) |
| Dcel.Dcel.ClassifyVertices | src/lib/DCEL/Dcel.ts:379-391 | every vertex gets its significance, nothing else changes, and the edges to split are the simple edges with two significant endpoints |
| Dcel.Dcel.MarkSignificance | src/lib/DCEL/Dcel.ts:380-382 | every vertex gets its significance and nothing else changes |
| Dcel.Dcel.DoublySignificantSimpleEdges | src/lib/DCEL/Dcel.ts:384-390 | exactly the simple edges with two significant endpoints |
| Dcel.Dcel.CreateConfigurations | src/lib/DCEL/Dcel.ts:843-848 | an edge gets a configuration exactly when both endpoints have at most three outgoing edges; nothing else changes |
| Dcel.ConfigurationGate | src/lib/DCEL/Dcel.ts:845 | `every(vertex => vertex.edges.length <= 3)` over both endpoints; CreateConfigurations' ensures uses it |
| Dcel.Dcel.AssignClassAB | src/lib/DCEL/Dcel.ts:614 | every half-edge gets class AB and nothing else changes |
| DcelBuild.Oriented | src/lib/DCEL/Dcel.ts:209 | inner rings are walked reversed; the length is kept |
| DcelBuild.Open | src/lib/DCEL/Dcel.ts:210 | `slice(0, -1)`: the ring without its closing point |
| DcelBuild.MapsToKept | src/lib/DCEL/Dcel.ts:182-205 | vertex ids keep standing for their ring points while vertices are appended |
| DcelBuild.MappedPointsHaveVertices | src/lib/DCEL/Dcel.ts:182-205 | every ring point has a vertex with its coordinates |
| DcelBuild.RingVertices | src/lib/DCEL/Dcel.ts:196-200 | one vertex id per ring point with its coordinates, found or made; earlier vertices unchanged |
| DcelBuild.PolygonVertices | src/lib/DCEL/Dcel.ts:195-201 | vertex ids for every ring of a polygon |
| DcelBuild.AddVertices | src/lib/DCEL/Dcel.ts:182-205 | vertex ids for every point of every polygon feature |
| DcelBuild.SetTwins | src/lib/DCEL/Dcel.ts:216-217 | the two edges become each other's twin and nothing else changes |
| DcelBuild.SetTwinsPaired | src/lib/DCEL/Dcel.ts:214-217 | twinning two opposite edges keeps every twin running the opposite way |
| DcelBuild.SetTwinsKeptBut | src/lib/DCEL/Dcel.ts:216-217 | twinning the two edges changes no other half-edge |
| DcelBuild.MakePair | src/lib/DCEL/Dcel.ts:214-215 | makeHalfEdge both ways: the two edges run tail to head and head to tail, and nothing else changes |
| DcelBuild.PairEdge | src/lib/DCEL/Dcel.ts:213-217 | the ring edge and its opposite exist under their keys and are each other's twins; every other half-edge is unchanged and every earlier key kept; every edge still has a twin |
| DcelBuild.PairRing | src/lib/DCEL/Dcel.ts:210-218 | afterwards findHalfEdge finds every ring edge (points[k], points[(k + 1) % n]); every half-edge added is a ring edge or its twin; earlier keys are kept, keys stay unique and twins paired |
| DcelBuild.PairStep | src/lib/DCEL/Dcel.ts:212-217 | one pairing step keeps the keys and the ring edges found so far, adds the edge at idx, and adds only ring edges and their twins |
| DcelBuild.HasEdgeKept | src/lib/DCEL/Dcel.ts:74-75 | a half-edge found stays found while the keys are kept |
| DcelBuild.HasEdgeIsMade | src/lib/DCEL/Dcel.ts:212-217 | with unique keys, paired twins and every edge twinned, the half-edge found from tail to head is twinned with the one found from head to tail |
| DcelBuild.AddRings | src/lib/DCEL/Dcel.ts:207-220 | pairing more rings keeps the edges of the rings paired before and adds those of the new rings; every half-edge stays an edge of one of the rings or its twin |
| DcelBuild.PairPolygon | src/lib/DCEL/Dcel.ts:208-219 | findHalfEdge finds every edge of every oriented, opened ring of the polygon, and every half-edge added is an edge of one of those rings or its twin |
| DcelBuild.PolygonStep | src/lib/DCEL/Dcel.ts:208-219 | one ring more: the rings before it and the ring itself are paired |
| DcelBuild.PairAllRings | src/lib/DCEL/Dcel.ts:207-220 | findHalfEdge finds every edge of every ring of every polygon, in the loops' order, and every half-edge added is such a ring edge or its twin; earlier keys are kept and vertex coordinates unchanged |
| DcelBuild.PolygonsStep | src/lib/DCEL/Dcel.ts:207-220 | one polygon more: the polygons before it and the polygon itself are paired |
| DcelBuild.Relinked | src/lib/DCEL/Dcel.ts:232-233 | e1.twin.next = e2 and e2.prev = e1.twin, nothing else changes |
| DcelBuild.LinkStepped | src/lib/DCEL/Dcel.ts:229-234 | one step of the linking loop: nothing when e1 has no twin, otherwise Relinked at e1.twin and e2; LinkStepChanges, LinkKept and LinkOwn state its effect |
| DcelBuild.LinkStepChanges | src/lib/DCEL/Dcel.ts:229-234 | one linking step sets exactly the next of e1's twin and the prev of e2 |
| DcelBuild.LinkKept | src/lib/DCEL/Dcel.ts:229-234 | a linking step keeps every link set before |
| DcelBuild.LinkOwn | src/lib/DCEL/Dcel.ts:229-234 | a linking step sets its own link |
| DcelBuild.LinkStep | src/lib/DCEL/Dcel.ts:229-234 | after idx + 1 steps at a vertex, its first idx + 1 links and those of earlier vertices hold |
| DcelBuild.ReorderKeepsLinks | src/lib/DCEL/Dcel.ts:226 | reordering the edge list of a vertex not yet linked keeps the links already made |
| DcelBuild.LinkVertex | src/lib/DCEL/Dcel.ts:223-235 | `sortEdges` reorders the vertex's list, then every cyclically consecutive pair of its edges is linked; only next and prev links change, so keys, twins and faces stay |
| DcelBuild.LinkEdges | src/lib/DCEL/Dcel.ts:229-234 | the linking loop over one vertex's edges links all of them, keeping earlier links; only next and prev links change |
| DcelBuild.LinkStepLinksOnly | src/lib/DCEL/Dcel.ts:232-233 | a linking step changes only next and prev links |
| DcelBuild.LinkAll | src/lib/DCEL/Dcel.ts:223-235 | after the vertex loop, for every vertex and every cyclically consecutive pair (e1, e2) of its sorted outgoing edges, e1.twin.next == e2 and e2.prev == e1.twin; each vertex differs from before only in its sorted edge list, so coordinates and the significant flag stay; only next and prev links change, so keys, twins and faces stay |
| DcelBuild.Walk | src/lib/DCEL/Dcel.ts:273 | a walk along the next links that starts at the edge |
| DcelBuild.Cycle | src/lib/DCEL/Dcel.ts:273 | `getCycle()`: edges starting with e, each followed by its next |
| DcelBuild.PaintCycle | src/lib/DCEL/Dcel.ts:273 | `forEach((e) => (e.face = f))`: exactly the cycle's edges get the face, nothing else changes |
| DcelBuild.WalkKept | src/lib/DCEL/Dcel.ts:273 | walking `next` meets the same edges in two arenas that differ only in faces |
| DcelBuild.CycleKept | src/lib/DCEL/Dcel.ts:280-286 | painting faces leaves every cycle unchanged, so the twin's cycle of a hole is the one before the hole face was painted |
| DcelBuild.FindRingEdge | src/lib/DCEL/Dcel.ts:255-262 | `find`: the first half-edge from the first ring point whose twin starts at the second, every earlier one failing that test; none iff there is none |
| DcelBuild.StartsRing | src/lib/DCEL/Dcel.ts:255-262 | the find test: the half-edge starts at the first point and its twin starts at the second; StartsRingKept and FirstEdgeFound state its properties |
| DcelBuild.RingLookupThrows | src/lib/DCEL/Dcel.ts:253-262 | the destructured first or second point is missing and is read: an empty ring once any half-edge is looked at, a one-point ring once a half-edge starts at its point; PaintRing's ensures uses it both ways |
| DcelBuild.OrphanInnerRing | src/lib/DCEL/Dcel.ts:276-282 | an inner ring whose first edge is found with no face while the feature has no outer ring face, so `outerRingFace.innerEdges` reads undefined; PaintRingAt's and PaintRing's ensures use it both ways |
| DcelBuild.FaceOfEdge | src/lib/DCEL/Dcel.ts:265 | `find`: the first face whose representative edge is e, every earlier face having another; none iff there is none |
| DcelBuild.PaintCycleLinked | src/lib/DCEL/Dcel.ts:273 | painting a cycle keeps the links and changes exactly the cycle's faces |
| DcelBuild.OpenFace | src/lib/DCEL/Dcel.ts:271-274 | a new face last, with the feature id, the outer ring and e as its edge, painted on the cycle of e; only faces of half-edges change |
| DcelBuild.PaintRing | src/lib/DCEL/Dcel.ts:251-288 | the ring succeeds iff its lookup does not throw and it is not an inner ring needing a face whose feature has no outer ring face; RingPainted gives the whole new state: a ring of fewer than two points and a ring whose first edge is not found change nothing, and otherwise PaintedAt holds; only faces of half-edges change |
| DcelBuild.PaintFoundRing | src/lib/DCEL/Dcel.ts:253-288 | a ring whose first edge is not found is skipped: half-edges, faces and the outer ring face unchanged; otherwise PaintedAt at the found edge, and it fails iff it is an orphan inner ring |
| DcelBuild.PaintRingAt | src/lib/DCEL/Dcel.ts:265-288 | PaintedAt: the face g whose edge is e gets the feature id appended, nothing else changing; else an outer ring appends Face(e, [fid], [], none), returned as the outer ring face, and the cycle of e gets it; else an inner ring with an outer ring face o appends Face(e, [fid], [], o), lists e as an inner edge of o, paints the cycle of e with the new face and then the twin's cycle with o; else it fails and changes nothing |
| DcelBuild.PaintNewFace | src/lib/DCEL/Dcel.ts:268-287 | for an edge no face starts at, PaintedAt's no-face cases: an outer ring opens a face (and returns it), an inner ring with an outer ring face opens a hole in it, an inner ring without one fails with nothing changed |
| DcelBuild.PaintOuterFace | src/lib/DCEL/Dcel.ts:269-274 | an outer ring whose first edge has no face appends Face(e, [fid], [], none), returns it as the outer ring face and gives it to the cycle of e: PaintedAt with `ok` |
| DcelBuild.PaintHoleFace | src/lib/DCEL/Dcel.ts:275-286 | an inner ring whose first edge has no face, with outer ring face o: the hole face Face(e, [fid], [], o) is appended, e is listed as an inner edge of o, the cycle of e gets the hole face and then the twin's cycle gets o: PaintedAt with `ok`, the outer ring face unchanged |
| DcelBuild.OpenHole | src/lib/DCEL/Dcel.ts:276-286 | the faces are the old ones plus Face(e, [fid], [], o), with e appended to the inner edges of o; the twin's cycle gets o, the rest of the cycle of e the new face, every other half-edge keeps its face |
| DcelBuild.AddFeatureId | src/lib/DCEL/Dcel.ts:267 | the face gets the feature id appended, nothing else changes |
| DcelBuild.HoleInOuterFace | src/lib/DCEL/Dcel.ts:282-286 | the outer face lists e as an inner edge and exactly the cycle of e's twin gets the outer face; only faces of half-edges change |
| DcelBuild.AddInnerEdge | src/lib/DCEL/Dcel.ts:284 | the outer face gets e appended to its inner edges, nothing else changes |
| DcelBuild.PaintedAtFaces | src/lib/DCEL/Dcel.ts:265-288 | a ring painted at e keeps the edge of every earlier face, any new face has edge e, an outer ring face once set stays set, and an outer ring at an edge with no face sets it |
| DcelBuild.FirstEdge | src/lib/DCEL/Dcel.ts:252-253 | `[firstPoint, secondPoint]` of the ring, the last two points in reverse for an inner ring |
| DcelBuild.SquareWithHolePaintable | spec/DCELsquare-holeSpec.ts:5-29 | a square with one square hole, the shape of that test, is paintable, so FromGeoJSON gives `ok` and a complete subdivision for it |
| DcelBuild.StartsRingKept | src/lib/DCEL/Dcel.ts:255-262 | painting faces keeps which points a half-edge and its twin start at |
| DcelBuild.FacesFromRingsKept | src/lib/DCEL/Dcel.ts:241-290 | "every face's edge starts an earlier ring" survives painting and holds for more features |
| DcelBuild.PolygonOfFeature | src/lib/DCEL/Dcel.ts:182-205 | every polygon of a polygon feature is among the collected polygons |
| DcelBuild.AllPolygons | src/lib/DCEL/Dcel.ts:182-205 | the polygons of all polygon features in feature order, a Polygon as one polygon; PolygonOfFeature is its partner lemma |
| DcelBuild.RingOfPolygons | src/lib/DCEL/Dcel.ts:207-210 | every ring of every polygon, oriented and opened, is among the rings the pairing loop walks |
| DcelBuild.FirstEdgeFound | src/lib/DCEL/Dcel.ts:255-262 | once the rings are built, the face loop finds the first edge of an outer ring of three points or more, even after faces changed |
| DcelBuild.RingPaintable | src/lib/DCEL/Dcel.ts:251-288 | in a paintable input no ring throws, and the first ring of a feature with holes finds its edge with no face yet |
| DcelBuild.FacesAfterRing | src/lib/DCEL/Dcel.ts:251-288 | after a ring, every face's edge still starts a ring of a feature so far, and the outer ring face is set once the first ring opened it |
| DcelBuild.PaintFeatures | src/lib/DCEL/Dcel.ts:238-291 | the feature loop keeps the subdivision valid and linked with bounded faces only, changes only faces of half-edges, and, once the rings are built and before any face exists, never fails on a paintable input |
| DcelBuild.PaintFeature | src/lib/DCEL/Dcel.ts:238-290 | a feature of another geometry is skipped; a polygon feature that is ready (rings built, every face from an earlier feature) never fails and leaves the next feature ready |
| DcelBuild.PaintPolygons | src/lib/DCEL/Dcel.ts:242-289 | the polygons of a polygon feature in order, sharing one outer ring face that starts unset; a ready feature never fails and leaves the next feature ready |
| DcelBuild.FeatureToPolygons | src/lib/DCEL/Dcel.ts:249-250 | a ready feature starts its polygons ready, with no outer ring face |
| DcelBuild.PolygonsToFeature | src/lib/DCEL/Dcel.ts:249-289 | after its polygons a feature leaves the next feature ready |
| DcelBuild.PaintPolygon | src/lib/DCEL/Dcel.ts:251-288 | the rings of one polygon in order; a ready polygon never fails and leaves the next polygon ready, with the outer ring face set once the feature has opened it |
| DcelBuild.FirstFaceless | src/lib/DCEL/Dcel.ts:295-296 | `find`: the first half-edge without a face, every earlier one having a face; none iff every edge has one |
| DcelBuild.PaintUnbounded | src/lib/DCEL/Dcel.ts:293-302 | one new face; afterwards every edge has a face, every edge that had none has the new one, other edges keep theirs or get the new one; only faces of half-edges change |
| DcelBuild.PaintFaceless | src/lib/DCEL/Dcel.ts:295-302 | the while loop ends with every edge painted, each either with its old face or the new one |
| DcelBuild.PaintUnboundedCycle | src/lib/DCEL/Dcel.ts:296-301 | one round paints the cycle of a faceless edge and leaves strictly fewer faceless edges |
| DcelBuild.PaintedFewer | src/lib/DCEL/Dcel.ts:296-301 | painting the cycle of a faceless edge changes faces only to the new one and leaves fewer faceless edges |
| DcelBuild.FewerFaceless | src/lib/DCEL/Dcel.ts:295-302 | the number of faceless edges strictly decreases, so the loop ends |
| DcelBuild.CompleteFaces | src/lib/DCEL/Dcel.ts:107-117 | in a complete subdivision the unbounded face is the last face, the only one without an edge, and every other face is bounded |
| DcelBuild.MapsToOpenOriented | src/lib/DCEL/Dcel.ts:209-210 | orienting and opening a ring of vertex ids and its ring of points keeps the ids standing for the points |
| DcelBuild.RingsOfMapped | src/lib/DCEL/Dcel.ts:207-210 | the rings the pairing walks, over vertex ids, stand ring by ring for the oriented, opened rings of points |
| DcelBuild.IdRingsBuilt | src/lib/DCEL/Dcel.ts:212-217 | ring edges over ids that are all found are, over points, twinned half-edges between the vertices at the two points |
| DcelBuild.IdEdgesFromRings | src/lib/DCEL/Dcel.ts:212-217 | half-edges that are ring edges over ids, or their twins, run between the two points of a ring edge |
| DcelBuild.RingFactsKept | src/lib/DCEL/Dcel.ts:223-302 | changing only links or faces keeps every ring edge found and every half-edge a ring edge or its twin |
| DcelBuild.BuiltFromRings | src/lib/DCEL/Dcel.ts:207-302 | what the pairing phase made survives linking and painting, stated over points |
| DcelBuild.FromGeoJSON | src/lib/DCEL/Dcel.ts:175-306 | every ring point has a vertex; every edge of every oriented, opened ring is a half-edge between the vertices at its two points, twinned with the one back; every half-edge runs between the two points of a ring edge, one way or the other; a paintable input gives `ok` (every ring has two points or more, and in a feature with holes the first ring has three points or more and starts with two points no ring of an earlier feature starts with); with `ok` the result is complete: keys unique, twins paired, every vertex linked, every edge with a face, and one unbounded face, the last |

## Left out

- GeoJSON parsing and output are not modelled. Features enter as in-memory polygon rings
  (`DcelBuild.Feature`), and feature properties are not kept. `createSnapshot`, the
  `...ToGeoJSON` methods and `toConsole` (src/lib/DCEL/Dcel.ts:442-456, 636-838) only format output.
- Network and file I/O are not modelled: `getJSON`, `getShp` and `loadData` (src/lib/utilities.ts:5-20).
- `createGeoJSON` and `copyInstance` are not modelled. They are trivial object wrappers.
- Floating point is not modelled: the model compares exact reals. It drops the `toFixed(10)`
  rounding in `isInPolygon`, `isOnLineSegment` and `equals`.
- Trigonometry enters through oracle functions:
  - `getNewPoint`, `getUnitVector`, `getStepArea` and `getStepLengths`;
  - `getAppendedAreaPoints`, which abstracts the two points it returns; when it fails the
    source destructures an empty array, and that case is not modelled;
  - line and segment intersection;
  - `Math.sqrt`.
- `getSe` (src/lib/DCEL/Dcel.ts:553-599) is not modelled. Its step-count formula uses `tan`.
- `getEdgeDistances` (src/lib/DCEL/Dcel.ts:458-551) is modelled only through the update it
  makes, `Staircase.Staircase.SetEdgeDistance`. Its geometry is in classes not part of this model.
- `setEpsilon` and `getDiameter` (src/lib/DCEL/Dcel.ts:304, 337-350) are not modelled. They need
  the square root of the bounding-box diagonal and write the global configuration.
- The Graham scan hull (src/lib/c-oriented-schematization/Staircase.ts:99-101) is an external
  library and enters as an oracle function.
- The `HalfEdge`, `Face`, `Vertex`, `Line`, `LineSegment`, `Vector2D`, `Configuration` and
  `FaceFaceBoundaryList` classes are not part of this model. What the core reads from them
  enters as fields of `EdgeView` and `ConfigurationView`, or as parameters:
  - `Vertex.sortEdges` is a reordering parameter;
  - `isSignificant` is a parameter;
  - `getX_` is the `xPrime` field.
- `HalfEdge.subdivide` is not modelled on the arena. `Dcel.SubdivideAlong` (replaceEdgesWithStaircases)
  and `Dcel.AfterSubdivision` (classifyVertices) model its effect on values, namely segments and
  endpoint significance.
- `Dcel.Dcel.ClassifyVertices` returns the edges to split and does not split them.
- `Dcel.Dcel.CreateConfigurations` records that an edge has a configuration; the `Configuration`
  object itself is not modelled.
- `tail.edges.sort()` in `makeHalfEdge` sorts objects by their string form, which is a no-op
  order for objects. It is modelled as appending.
- The in-place `ring.reverse()` of the face phase (src/lib/DCEL/Dcel.ts:252) is not modelled.
  It reverses the caller's coordinate arrays, a side effect on the input. The model walks each
  inner ring reversed in the pairing phase and in the face phase, as one call of fromGeoJSON does.
- Utilities.GroupBy: keeps the groups in the order their keys first occur. A JavaScript object
  lists integer-like keys first, in ascending numeric order, so the source's order can differ.
- Utilities.GroupBy: compares keys as values. The source turns each key into a property name, so
  keys with the same string form, such as `1` and `"1"`, share one group there and not here.
- Utilities.GroupBy: opens an ordinary group for every key. In the source a key that names an
  `Object.prototype` member, such as `"toString"`, `"constructor"` or `"__proto__"`, reads the
  inherited value, which has no `concat`, and the call throws.
- Staircase.UdRegion: treats a missing third staircase point as a throw. The source then builds
  `new Line(undefined, …)`, and `Line` is not part of this model.
- `doEdgeMove` (src/lib/c-oriented-schematization/Contraction.ts:164-167) only logs and is not modelled.
- The UI code (src/UI/mapGrid.ts, assets/main.js) and the legacy assets/lib/dcel/Vertex.mjs are not modelled.
- `getHalfEdges` with a class filter, `getVertices`, `removeVertex` and `removeHalfEdge` are not
  modelled. No modelled operation uses them; `Dcel.Dcel.EdgeIds` stands for the unfiltered `getHalfEdges()`.
- `splitEdges`, `preProcess`, `classify`, `addStaircases`, `calculateStaircases`,
  `constrainAngles`, `simplify` and `schematize` are not modelled. They only sequence the
  modelled phases and calls into classes not part of this model.
- The model does not fully describe every face after the whole face loop:
  - DcelBuild.PaintFeatures: states the effect of each ring exactly (PaintRing), but not which face
    each ring of the input received after the whole loop.
  - DcelBuild.PaintFeatures: promises success only for paintable inputs. When a feature with holes
    has an outer ring whose first edge repeats an earlier feature's, or that ring is too short to
    have an edge, the loop may still succeed, and which it does is not stated.
  - DcelBuild.FromGeoJSON: states completeness only when `ok`. When a ring throws (`ok` false) it
    states the vertices and half-edges, and nothing about the faces.
- DcelBuild.PaintRingAt: an inner ring without an outer ring face fails before touching the state.
  The source first opens and paints the hole face and then throws, so the difference is invisible
  to a caller.
- Dcel.SubdivideAlong: models neither early exit of replaceEdgesWithStaircases. It does not model
  the `if (!dividedEdge) return;` taken when `subdivide` fails (src/lib/DCEL/Dcel.ts:608), nor the
  `if (dividedEdge.next)` guard on the next step (src/lib/DCEL/Dcel.ts:609). Each subdivision is
  assumed to succeed, because `subdivide` is not part of this model.
- `DcelBuild.Walk` follows `next` for at most as many steps as there are half-edges. A `next` chain
  that never returns to its start is therefore cut off rather than looping.

## Findings

| source | as written | input that shows it | evidently intended | confidence | as-written member | corrected member |
|---|---|---|---|---|---|---|
| src/lib/c-oriented-schematization/Contraction.ts:142-144 | `new LineSegment(point, crawlArray(areaPoints, idx, +1))` passes the index returned by `crawlArray` as the second end point | the area [(0,0), (4,0), (0,4)]: the first segment ends at the number 1 instead of at (4,0) | each segment runs from an area point to the next area point, `areaPoints[crawlArray(...)]` | not executed | Contraction.AreaSegmentsAsWritten | Contraction.AreaSegments |
| src/lib/c-oriented-schematization/Contraction.ts:148 | `point.isInPolygon(areaPoints)` passes an array of points; `isInPolygon` (src/lib/geometry/Point.ts:53-58) reads `polygon.points`, which is undefined for an array, so `forEach` throws | the area [(0,0), (4,0), (0,4)] and a boundary edge from (1,1) to (2,1): the test throws instead of reporting the edge inside | `point.isInPolygon(new Polygon(areaPoints))`, as Staircase.ts:92 does | not executed | Contraction.InsideAreaAsWritten | Contraction.InsideArea |

The rest of the model uses the corrected members:

- `Contraction.AreaSegmentsAsWrittenEndAtIndices` exhibits the first finding.
- `Contraction.InsideAreaAsWrittenThrows` exhibits the second.
- `Contraction.GetBlockingEdges` is built on `AreaSegments` and `InsideArea`.
