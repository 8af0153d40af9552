# mtvg — a verified model of the visibility and time-window core

mtvg plans routes for an agent that must see moving targets among polygon
obstacles. This project models its core in Dafny and proves what that core
promises:

- **Line of sight** (`Geometry`, mtvg/geometry.py). `_near`, the second
  `segment_intersects_obstacles` and `visible` become a case analysis over the
  shape that the geometry engine reports for "segment ∩ obstacle union". The
  shape is one of `Empty`, `Pt`, `Multi` or `Other`. `extract_convex_vertices`
  is a method with nested loops, proved equal to a specification function. It
  keeps exactly the ring vertices whose cross product is positive.
- **Visibility graph and shortest path** (`VisibilityGraph` and
  `ShortestPath`, mtvg/visibility_graph.py).
  - `Graph` is a class whose `nodes` and `adj` fields are updated in place.
  - `_unique_points` and `build_visibility_graph` are loops proved against
    specification functions.
  - `dijkstra` is a loop over `dist` and `prev` sequences and a heap. The heap
    is a sequence with least-entry extraction. The loop uses lazy deletion and
    stops early at the destination. It is proved to return a real walk whose
    weight is the distance, and that no walk is lighter.
- **Time windows** (`Intervals`, mtvg/intervals.py).
  - `visible_intervals` samples the window evenly.
  - It scans the visibility flags for maximal runs of visible samples and
    refines each open edge of a run by bisection (`_binary_refine_visibility`).
  - It can then clip every candidate to the times at which the agent can be
    there. That clip is a second bisection on
    `f(t) = t - dist(t)/v_max - earliest_departure`.
  - Each loop is a method proved equal to a recursive specification function.
  - The properties (one candidate per maximal run, strict order, inside the
    window, visible right ends, reachable ends after the clip) are lemmas
    about those functions.
- **Targets and scenes** (`Models`, mtvg/models.py). `Target.domain`,
  `Scene.as_points` and the clamped linear trajectory of `make_linear_xy`.

Numbers are Dafny `real`s. `math.inf` is a separate constructor of the
distance type. The geometry engine enters as a `Region` value that answers
three questions: is the union empty, does a segment meet it, and what shape is
their common part. The Euclidean distance is a function parameter.
`visible_intervals` reads visibility and distance along the trajectory through
`VisibleAlong` and `DistanceAlong`. The interval lemmas take these as plain
oracles `real -> bool` and `real -> real`.

The left edge of a run is refined with the hidden sample `times[i-1]` as the
lower end and "want visible" as the goal (mtvg/intervals.py:102-103). The
bisection moves its lower end only to visible midpoints, and returns that lower
end. So the left edge is either the hidden sample itself or a visible midpoint.
The model does the same. It never claims the left edge is visible, and
`LeftEdgeStaysOnHiddenSample` exhibits a case where it is the hidden sample.
Only the right end of each interval is proved visible.

The docstring of `visible_intervals` promises intervals with `a < b`. The code
can return `a == b`, for example for a single visible first sample whose right
bisection finds no visible midpoint. The model follows the code and proves
`a <= b`.

## Model

| member | source | states |
|---|---|---|
| Geometry.NearSymmetric | mtvg/geometry.py:54-55 | `_near(a, b)` holds exactly when `_near(b, a)` does |
| Geometry.NearReflexive | mtvg/geometry.py:54-55 | with a non-negative tolerance every point is near itself |
| Geometry.PointsOf | mtvg/geometry.py:76-83 | a one-point result yields exactly that point; only a line or area result has no finite point list |
| Geometry.SegmentIntersectsObstacles | mtvg/geometry.py:57-86 | blocked exactly when the segment meets the union somewhere other than near its endpoints; never blocked for an empty union or a missed segment; always blocked for a line or area result |
| Geometry.Visible | mtvg/geometry.py:30-32 | visible exactly when every common point with the union is within 1e-9 of an endpoint; an empty union blocks nothing |
| Geometry.ToleranceMonotone | mtvg/geometry.py:57-86 | a larger endpoint tolerance never blocks a segment that a smaller one lets through |
| Geometry.Ring | mtvg/geometry.py:37-38 | the exterior ring is a prefix of the vertex list (the closing repeat dropped) |
| Geometry.ExtractConvexVertices | mtvg/geometry.py:34-52 | the nested loops return the convex vertices obstacle by obstacle, in ring order |
| Geometry.RingConvexVertices | mtvg/geometry.py:39-51 | the inner loop returns the ring's vertices with positive cross product, in order |
| Geometry.ConvexScanMembers | mtvg/geometry.py:40-51 | the scan below m keeps exactly the vertices below m with cross product > 0, at most m of them |
| Geometry.ConvexOfMembers | mtvg/geometry.py:40-51 | a ring's kept points are exactly its vertices with cross product > 0 (collinear ones excluded) |
| Geometry.ConvexVerticesCount | mtvg/geometry.py:34-52 | no more points are returned than vertices are walked |
| Geometry.ConvexVerticesSound | mtvg/geometry.py:34-52 | every returned point is a vertex of some obstacle with positive cross product |
| Geometry.ConvexVerticesComplete | mtvg/geometry.py:34-52 | every vertex with positive cross product is returned |
| Geometry.DegenerateRingNoVertices | mtvg/geometry.py:38-51 | a ring of at most two vertices has zero cross product everywhere and yields no convex vertex |
| Models.MinStart | mtvg/models.py:32 | the least window start: no start is below it and some window starts there |
| Models.MaxEnd | mtvg/models.py:32 | the greatest window end: no end is above it and some window ends there |
| Models.Target.Domain | mtvg/models.py:28-32 | `(0.0, 0.0)` without windows; otherwise the least start and greatest end, enclosing every window |
| Models.Scene.AsPoints | mtvg/models.py:46-48 | exactly the depot's coordinate |
| Models.Duration | mtvg/models.py:58 | the divisor `max(tf - t0, 1e-12)` is positive and at least `tf - t0` |
| Models.LinearAt | mtvg/models.py:60-64 | `p0` up to `t0`; `p1` from `tf` on after `t0`; in between `p0 + (t - t0)/T · (p1 - p0)` |
| Models.MakeLinearXY | mtvg/models.py:51-66 | the returned closure is the clamped linear trajectory at every time |
| Models.LinearStaysOnSegment | mtvg/models.py:51-66 | at every time each coordinate lies between those of `p0` and `p1` |
| Models.LinearMidpointExample | mtvg/models.py:51-66 | from (0,0) to (10,0) over [0, 10] the position at time 5 is (5, 0) |
| VisibilityGraph.Graph.Empty | mtvg/visibility_graph.py:15-17 | no nodes and no adjacency lists |
| VisibilityGraph.Graph.AddNode | mtvg/visibility_graph.py:19-23 | returns the old node count, appends the point, gives the new id an empty list, changes nothing else |
| VisibilityGraph.Graph.AddUndirectedEdge | mtvg/visibility_graph.py:25-27 | appends `(v, w)` to `adj[u]` and `(u, w)` to `adj[v]`; no other list and no node changes |
| VisibilityGraph.UniquePoints | mtvg/visibility_graph.py:33-44 | the loop keeps each point that is not near an already kept one |
| VisibilityGraph.UniqueIsSubsequence | mtvg/visibility_graph.py:33-44 | the kept points are a subsequence of the input, in input order |
| VisibilityGraph.UniqueSeparated | mtvg/visibility_graph.py:33-44 | no two kept points are within the tolerance in both coordinates |
| VisibilityGraph.UniqueCovers | mtvg/visibility_graph.py:33-44 | every input point is near some kept point |
| VisibilityGraph.UniquePrefix | mtvg/visibility_graph.py:33-44 | deduplicating `a + b` starts with the deduplication of `a` |
| VisibilityGraph.SeesSymmetric | mtvg/visibility_graph.py:61-65 | the line-of-sight test of a pair does not depend on the order in which the ids are given |
| VisibilityGraph.BuildVisibilityGraph | mtvg/visibility_graph.py:46-67 | the nodes are the deduplicated caller points followed by convex vertices; each list is the adjacency of its node |
| VisibilityGraph.AddNodes | mtvg/visibility_graph.py:54-56 | every point becomes a node, in order, with an empty list |
| VisibilityGraph.ConnectRow | mtvg/visibility_graph.py:61-66 | after row i every list holds the arcs of all pairs (a, b) with a <= i |
| VisibilityGraph.ArcsBelowCount | mtvg/visibility_graph.py:60-66 | node k gets exactly one arc to each earlier node that sees it |
| VisibilityGraph.ArcsAboveCount | mtvg/visibility_graph.py:60-66 | node k gets exactly one arc to each later node it sees |
| VisibilityGraph.AdjacencyFacts | mtvg/visibility_graph.py:60-66 | each arc goes to another node that is seen, weighted by the pair's distance; exactly one arc to each other visible node; no self-loops |
| VisibilityGraph.AdjacencySymmetric | mtvg/visibility_graph.py:60-66 | j lists k with weight w exactly when k lists j with weight w |
| VisibilityGraph.CompleteWithoutObstacles | mtvg/visibility_graph.py:60-66 | without obstacles every node has n - 1 arcs |
| VisibilityGraph.CallerPointsFirst | mtvg/visibility_graph.py:51-52 | the caller's deduplicated points are the first nodes; the first caller point is node 0 |
| ShortestPath.PopMin | mtvg/visibility_graph.py:77 | removes one entry that is least in `(distance, node)` order, keeping the others |
| ShortestPath.PoppedIsShortest | mtvg/visibility_graph.py:76-79 | a fresh pop of an unsettled node is no heavier than any walk to it |
| ShortestPath.EmptyHeapUnreachable | mtvg/visibility_graph.py:76 | when the heap runs empty every unsettled node is unreached and unreachable |
| ShortestPath.Search | mtvg/visibility_graph.py:69-85 | the main loop ends with an infinite distance only for an unreachable destination, and with a finite one only if it is optimal and backed by predecessor links |
| ShortestPath.RelaxAll | mtvg/visibility_graph.py:80-85 | relaxing the arcs of the settled node keeps the distance tree and the heap invariant, with every settled node relaxed |
| ShortestPath.Reverse | mtvg/visibility_graph.py:92 | the same nodes, last first |
| ShortestPath.PathTo | mtvg/visibility_graph.py:86-93 | following `prev` from the destination terminates and yields a walk from the source whose weight is the distance |
| ShortestPath.Dijkstra | mtvg/visibility_graph.py:69-93 | `(inf, [])` exactly when the destination is unreachable; otherwise a walk from source to destination whose weight is the returned distance, and no walk is lighter |
| ShortestPath.BuiltGraphWellFormed | mtvg/visibility_graph.py:60-66 | with non-negative distances, the built graph has arcs only to nodes and non-negative weights |
| Intervals.SampleTimes | mtvg/intervals.py:12-15 | `[t0, tf]` when n <= 1; otherwise n values; always first `t0` and last `tf` |
| Intervals.SampleTimesIncreasing | mtvg/intervals.py:12-15 | for `t0 < tf` the samples strictly increase and stay in `[t0, tf]`; for `t0 == tf` every sample is `t0` |
| Intervals.Flags | mtvg/intervals.py:88 | one flag per sample, the visibility at that time |
| Intervals.StepFacts | mtvg/intervals.py:36-42 | one bisection step keeps `a <= b` inside the bracket, halves it, and moves `a` only to midpoints of the wanted visibility |
| Intervals.RefineBracket | mtvg/intervals.py:32-44 | the bracket stays inside `[t_lo, t_hi]`, ordered, and proper when it started proper |
| Intervals.RefineSteps | mtvg/intervals.py:35-44 | at most `max_iter` steps run, and at least one when `max_iter > 0` |
| Intervals.RefineHalves | mtvg/intervals.py:35-44 | after k steps the width is the initial width halved k times |
| Intervals.RefineKeepsEnds | mtvg/intervals.py:35-44 | `a` keeps the wanted visibility if `t_lo` has it; `b` keeps the other if `t_hi` has it |
| Intervals.RefineStuck | mtvg/intervals.py:35-44 | if no time of the bracket has the wanted visibility, `a` never moves |
| Intervals.Bisect | mtvg/intervals.py:32-44 | the loop computes the specified bracket, stopping once narrower than `tol` |
| Intervals.BinaryRefineVisibility | mtvg/intervals.py:17-46 | returns `a` when visibility is wanted and `b` otherwise; inside `[t_lo, t_hi]`; visible when the end it starts from is |
| Intervals.LeftEdgeStaysOnHiddenSample | mtvg/intervals.py:101-103 | a left-edge refinement can return the hidden sample itself, which is not visible |
| Intervals.RunEnd | mtvg/intervals.py:95-97 | the block end is at or after its start, and the next sample is hidden or absent |
| Intervals.RunEndVisible | mtvg/intervals.py:95-97 | every sample from the block start to its end is visible |
| Intervals.RunsMaximal | mtvg/intervals.py:91-110 | each block found is a maximal block of visible samples |
| Intervals.RunsSeparated | mtvg/intervals.py:91-110 | consecutive blocks have a hidden sample between them |
| Intervals.RunsCover | mtvg/intervals.py:91-110 | every visible sample lies in a block |
| Intervals.CandidatesAreSpans | mtvg/intervals.py:91-110 | the scan yields one interval per block, in order, each the refined span of its block |
| Intervals.CandidatesMatchRuns | mtvg/intervals.py:91-110 | the candidates match the maximal blocks one for one: maximal, separated, covering, each its block's span |
| Intervals.RefineEdgeGood | mtvg/intervals.py:17-46 | the edge refinement of a proper bracket stays in `[lo, hi)` and is visible when `lo` is |
| Intervals.SpanFacts | mtvg/intervals.py:98-106 | a block's interval encloses its samples, stays between the neighbouring hidden samples, keeps `t0`/`tf` unrefined at the ends, and ends at a visible time |
| Intervals.SpansOrdered | mtvg/intervals.py:91-110 | for any refinement of that kind the candidates are proper, strictly ordered, inside the sampled range, with visible right ends |
| Intervals.CandidatesOrdered | mtvg/intervals.py:91-110 | the candidates are proper, strictly ordered, inside the window, with visible right ends |
| Intervals.SamplesCovered | mtvg/intervals.py:91-110 | every visible sample lies in some candidate |
| Intervals.AllVisibleWindow | mtvg/intervals.py:91-110 | when every sample is visible the single candidate is the whole sampled window |
| Intervals.RunEndOf | mtvg/intervals.py:94-97 | the inner `while` finds the block end |
| Intervals.ScanBlock | mtvg/intervals.py:93-108 | one block of the scan yields the next candidate and resumes after the block |
| Intervals.RefineBlock | mtvg/intervals.py:98-107 | the block's interval is its refined span |
| Intervals.RefineLeft | mtvg/intervals.py:102-103 | the left edge: the sample itself, or the refinement from the hidden sample before it |
| Intervals.RefineRight | mtvg/intervals.py:105-106 | the right edge: the sample itself, or the refinement towards the hidden sample after it |
| Intervals.ScanRuns | mtvg/intervals.py:90-110 | the outer `while` returns the candidates |
| Intervals.ClipFacts | mtvg/intervals.py:133-142 | the clip bracket stays inside `[a, b]` and proper, `hi` stays reachable, and an unreachable `lo` stays unreachable |
| Intervals.ClipRoot | mtvg/intervals.py:132-142 | the 50-step loop computes the specified clip, stopping once narrower than `refine_tol` |
| Intervals.KinOneFacts | mtvg/intervals.py:125-143 | a candidate is dropped exactly when `f(b) < 0`, kept whole when `f(a) >= 0`, and otherwise becomes `(hi, b)` with `a < hi <= b` and `f(hi) >= 0` |
| Intervals.KinFilterKept | mtvg/intervals.py:116-144 | every kept interval is a reachable tail of some candidate |
| Intervals.KinFilterOrdered | mtvg/intervals.py:116-144 | the filter keeps strictly ordered candidates strictly ordered |
| Intervals.KinematicFilter | mtvg/intervals.py:116-145 | the `for` loop over candidates computes the filter |
| Intervals.KinFilteredProperties | mtvg/intervals.py:113-145 | filtered intervals stay ordered, inside the window, visible at the right end, and reachable at both ends |
| Intervals.IntervalsOfProperties | mtvg/intervals.py:48-146 | empty window gives `[]`; the missing-departure error exactly when it is raised; division by zero only with `v_max == 0`; results ordered, inside the window, with visible right ends; reachable ends under the filter; without it the departure and speed are ignored and no visible sample is lost |
| Intervals.VisibleIntervals | mtvg/intervals.py:48-146 | the method computes the specified outcome; an empty window gives `[]`; results are ordered, inside the window, and visible from q at each right end |

## Left out

- Floating point: all arithmetic is on exact reals. Rounding and `math.isfinite` are not modelled, and `math.inf` is the `Inf` constructor of the distance type.
- The geometry engine: `Polygon`, `unary_union`, `LineString.intersects`, `intersection` and `buffer` are not modelled. A `Region` value answers the three queries the code makes, and `make_obstacles_union` is not part of this model. Callers pass the union.
- The first `segment_intersects_obstacles` (mtvg/geometry.py:23-28) is shadowed by the second definition and never runs.
- `math.hypot` and `euclid` have no square root in Dafny. They are function parameters.
- `heapq` keeps its heap as a list. Here the heap is a sequence, and extraction takes a least entry in `(distance, node)` order, which is what `heappop` returns.
- ShortestPath.Dijkstra: requires `src` and `dst` to be node ids `0 <= id < n`, every adjacency target to be a node, and all weights to be non-negative. In the source an id of `n` or more raises IndexError. A negative id wraps around as a Python list index: `dst = -1` reads the distance of node `n - 1` and returns it with an empty path, `src = -1` with another `dst` raises KeyError at the adjacency lookup, and `src == dst == -1` returns `(0.0, [])`. None of these are modelled. With negative weights it promises nothing.
- Geometry.Ring / Geometry.ExtractConvexVertices: an obstacle of one or two vertices, or a three-entry closed list such as `[A, B, A]`, gives a closed ring of fewer than four coordinates, and the geometry engine raises ValueError when the polygon is built (mtvg/geometry.py:37), so `extract_convex_vertices` and `build_visibility_graph` fail on it. The model accepts such an obstacle and returns no convex vertices for it, as `DegenerateRingNoVertices` shows.
- Intervals.VisibleIntervals: the keyword defaults `n_samples=300`, `refine_tol=1e-5`, `earliest_departure=None` and `require_kinematic=False` (mtvg/intervals.py:54-57) are not modelled as defaults. Every one is a required parameter. `_binary_refine_visibility`'s `max_iter=40` is the constant `RefineIterations`, the only value its caller uses.
- VisibilityGraph.Graph.AddUndirectedEdge: requires both ids to have lists. The source raises KeyError otherwise.
- Sampling fidelity: the model says nothing about how closely the sampled intervals match the true visible set. Visibility changes between samples can be missed, and both bisections assume a single crossing.
- `mtvg/viz.py`, the scripts and the print-only debug tests are plotting and printing drivers, and are not modelled.
