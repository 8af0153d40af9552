/**
 * The visibility graph (mtvg/visibility_graph.py): the mutable `Graph`, the
 * tolerance-based point deduplication, and the pairwise builder. Shortest
 * paths over the graph are in module ShortestPath.
 *
 * `euclid` is `math.hypot` of the coordinate differences; there is no square
 * root here, so the builder takes the distance as a function parameter.
 */
module VisibilityGraph {
  import opened Geometry

  /** An entry `(neighbour id, weight)` of an adjacency list. */
  datatype Arc = Arc(to: nat, w: real)

  /** Node list plus adjacency map, both updated in place. */
  class Graph {
    var nodes: seq<Coord>
    var adj: map<nat, seq<Arc>>

    /** Every node id, and nothing else, has an adjacency list. */
    ghost predicate Valid()
      reads this
    {
      forall k: nat :: k in adj <==> k < |nodes|
    }

    /** `Graph.empty()`. */
    constructor Empty()
      ensures nodes == [] && adj == map[] && Valid()
    {
      nodes := [];
      adj := map[];
    }

    /** `add_node`: the new node gets the next id and an empty adjacency list. */
    method AddNode(coord: Coord) returns (nid: nat)
      modifies this
      ensures nid == old(|nodes|)
      ensures nodes == old(nodes) + [coord]
      ensures adj == old(adj)[nid := []]
      ensures old(Valid()) ==> Valid()
    {
      nid := |nodes|;
      nodes := nodes + [coord];
      adj := adj[nid := []];
    }

    /** `add_undirected_edge`: one arc each way; both ids must already have lists. */
    method AddUndirectedEdge(u: nat, v: nat, w: real)
      requires u in adj && v in adj
      modifies this
      ensures nodes == old(nodes) && adj.Keys == old(adj).Keys
      ensures u != v ==> adj == old(adj)[u := old(adj)[u] + [Arc(v, w)]][v := old(adj)[v] + [Arc(u, w)]]
      ensures u == v ==> adj == old(adj)[u := old(adj)[u] + [Arc(v, w), Arc(u, w)]]
    {
      adj := adj[u := adj[u] + [Arc(v, w)]];
      adj := adj[v := adj[v] + [Arc(u, w)]];
      if u == v {
        assert old(adj)[u] + [Arc(v, w)] + [Arc(u, w)] == old(adj)[u] + [Arc(v, w), Arc(u, w)];
      }
    }
  }

  // ---------------------------------------------------------------------
  // Deduplication
  // ---------------------------------------------------------------------

  /** The default deduplication tolerance, 1e-9. */
  const DedupTol: real := 0.000000001

  /** p lies within `tol`, in both coordinates, of some point of `out`. */
  predicate NearAny(p: Coord, out: seq<Coord>, tol: real)
  {
    exists k :: 0 <= k < |out| && Near(p, out[k], tol)
  }

  /** The points `_unique_points` keeps: each point that is not near an already kept one. */
  function Unique(pts: seq<Coord>, tol: real): seq<Coord>
  {
    if pts == [] then []
    else
      var kept := Unique(pts[..|pts| - 1], tol);
      if NearAny(pts[|pts| - 1], kept, tol) then kept else kept + [pts[|pts| - 1]]
  }

  /** `_unique_points`: for each point, a scan of the kept points that stops at the first near one. */
  method UniquePoints(pts: seq<Coord>, tol: real) returns (out: seq<Coord>)
    ensures out == Unique(pts, tol)
  {
    out := [];
    for i := 0 to |pts|
      invariant out == Unique(pts[..i], tol)
    {
      var p := pts[i];
      var isDup := false;
      for k := 0 to |out|
        invariant !isDup && forall m :: 0 <= m < k ==> !Near(p, out[m], tol)
      {
        if Near(p, out[k], tol) {
          isDup := true;
          break;
        }
      }
      assert isDup == NearAny(p, out, tol);
      if !isDup {
        out := out + [p];
      }
      assert pts[..i + 1][..i] == pts[..i];
    }
    assert pts[..|pts|] == pts;
  }

  /** a is b with some elements left out (order kept). */
  ghost predicate IsSubsequence(a: seq<Coord>, b: seq<Coord>)
    decreases |b|
  {
    if a == [] then true
    else if b == [] then false
    else (a[|a| - 1] == b[|b| - 1] && IsSubsequence(a[..|a| - 1], b[..|b| - 1]))
         || IsSubsequence(a, b[..|b| - 1])
  }

  /** The kept points are a subsequence of the input: first occurrences, in input order. */
  lemma {:induction false} UniqueIsSubsequence(pts: seq<Coord>, tol: real)
    ensures IsSubsequence(Unique(pts, tol), pts)
  {
    if pts != [] {
      var init := pts[..|pts| - 1];
      UniqueIsSubsequence(init, tol);
      var kept := Unique(init, tol);
      if Unique(pts, tol) == kept + [pts[|pts| - 1]] {
        assert (kept + [pts[|pts| - 1]])[..|kept|] == kept;
      }
    }
  }

  /** No two points of out are within tol of each other in both coordinates. */
  predicate Separated(out: seq<Coord>, tol: real)
  {
    forall i, j :: 0 <= i < j < |out| ==> !Near(out[i], out[j], tol) && !Near(out[j], out[i], tol)
  }

  /** The kept points are pairwise separated. */
  lemma {:induction false} UniqueSeparated(pts: seq<Coord>, tol: real)
    ensures Separated(Unique(pts, tol), tol)
  {
    if pts != [] {
      var p := pts[|pts| - 1];
      UniqueSeparated(pts[..|pts| - 1], tol);
      var kept := Unique(pts[..|pts| - 1], tol);
      if !NearAny(p, kept, tol) {
        var out := kept + [p];
        assert out == Unique(pts, tol);
        forall i, j | 0 <= i < j < |out| ensures !Near(out[i], out[j], tol) && !Near(out[j], out[i], tol) {
          if j == |kept| {
            assert out[j] == p && out[i] == kept[i];
            assert !Near(p, kept[i], tol);
            NearSymmetric(p, kept[i], tol);
          } else {
            assert out[i] == kept[i] && out[j] == kept[j];
          }
        }
      }
    }
  }

  /** With a non-negative tolerance every input point is near some kept point. */
  lemma {:induction false} UniqueCovers(pts: seq<Coord>, tol: real)
    requires tol >= 0.0
    ensures forall i :: 0 <= i < |pts| ==> NearAny(pts[i], Unique(pts, tol), tol)
  {
    if pts != [] {
      var init, p := pts[..|pts| - 1], pts[|pts| - 1];
      UniqueCovers(init, tol);
      var kept, out := Unique(init, tol), Unique(pts, tol);
      assert kept == out[..|kept|];
      forall i | 0 <= i < |pts| ensures NearAny(pts[i], out, tol) {
        if i < |init| {
          assert pts[i] == init[i];
          var k :| 0 <= k < |kept| && Near(pts[i], kept[k], tol);
          assert out[k] == kept[k];
        } else if !NearAny(p, kept, tol) {
          NearReflexive(p, tol);
          assert out[|kept|] == p;
        } else {
          var k :| 0 <= k < |kept| && Near(p, kept[k], tol);
          assert out[k] == kept[k];
        }
      }
    }
  }

  /** Deduplicating a + b keeps the deduplication of a as a prefix: earlier points win. */
  lemma {:induction false} UniquePrefix(a: seq<Coord>, b: seq<Coord>, tol: real)
    ensures var ua := Unique(a, tol);
      |ua| <= |Unique(a + b, tol)| && Unique(a + b, tol)[..|ua|] == ua
  {
    if b == [] {
      assert a + b == a;
    } else {
      var b' := b[..|b| - 1];
      UniquePrefix(a, b', tol);
      assert (a + b)[..|a + b| - 1] == a + b';
    }
  }

  // ---------------------------------------------------------------------
  // The adjacency the builder produces
  // ---------------------------------------------------------------------

  /** The pair {a, b} of node ids passes the line-of-sight test, smaller id first. */
  predicate Sees(nodes: seq<Coord>, u: Region, a: nat, b: nat)
    requires a < |nodes| && b < |nodes|
  {
    if a < b then Visible(nodes[a], nodes[b], u) else Visible(nodes[b], nodes[a], u)
  }

  lemma SeesSymmetric(nodes: seq<Coord>, u: Region, a: nat, b: nat)
    requires a < |nodes| && b < |nodes|
    ensures Sees(nodes, u, a, b) == Sees(nodes, u, b, a)
  {
  }

  /** The weight of the pair {a, b}: the distance from the smaller id's point to the larger's. */
  function Weight(nodes: seq<Coord>, euclid: (Coord, Coord) -> real, a: nat, b: nat): real
    requires a < |nodes| && b < |nodes|
  {
    if a < b then euclid(nodes[a], nodes[b]) else euclid(nodes[b], nodes[a])
  }

  /** The arc to `to` that the visible pair (lo, hi), lo < hi, adds to the list of its other end. */
  function PairArc(nodes: seq<Coord>, u: Region, euclid: (Coord, Coord) -> real, lo: nat, hi: nat, to: nat): seq<Arc>
    requires lo < hi < |nodes|
  {
    if Visible(nodes[lo], nodes[hi], u) then [Arc(to, euclid(nodes[lo], nodes[hi]))] else []
  }

  /** The arcs of node k to the nodes a < m (m <= k), in order of a. */
  function ArcsBelow(nodes: seq<Coord>, u: Region, euclid: (Coord, Coord) -> real, k: nat, m: nat): seq<Arc>
    requires k < |nodes| && m <= k
  {
    if m == 0 then [] else ArcsBelow(nodes, u, euclid, k, m - 1) + PairArc(nodes, u, euclid, m - 1, k, m - 1)
  }

  /** The arcs of node k to the nodes b with k < b < m, in order of b. */
  function ArcsAbove(nodes: seq<Coord>, u: Region, euclid: (Coord, Coord) -> real, k: nat, m: nat): seq<Arc>
    requires k < |nodes| && m <= |nodes|
  {
    if m <= k + 1 then [] else ArcsAbove(nodes, u, euclid, k, m - 1) + PairArc(nodes, u, euclid, k, m - 1, m - 1)
  }

  /** The adjacency list of node k once every pair i < j has been tested, in the builder's order. */
  function Adjacency(nodes: seq<Coord>, u: Region, euclid: (Coord, Coord) -> real, k: nat): seq<Arc>
    requires k < |nodes|
  {
    ArcsBelow(nodes, u, euclid, k, k) + ArcsAbove(nodes, u, euclid, k, |nodes|)
  }

  /** The list of node k after the pairs (a, b) with a < i have been tested. */
  function AdjBeforeRow(nodes: seq<Coord>, u: Region, euclid: (Coord, Coord) -> real, k: nat, i: nat): seq<Arc>
    requires k < |nodes| && i <= |nodes|
  {
    ArcsBelow(nodes, u, euclid, k, if k <= i then k else i) +
    ArcsAbove(nodes, u, euclid, k, if k < i then |nodes| else k + 1)
  }

  /** The list of node k after, in addition, the pairs (i, b) with b < j have been tested. */
  function AdjInRow(nodes: seq<Coord>, u: Region, euclid: (Coord, Coord) -> real, k: nat, i: nat, j: nat): seq<Arc>
    requires k < |nodes| && i < j <= |nodes|
  {
    ArcsBelow(nodes, u, euclid, k, if k <= i then k else if k < j then i + 1 else i) +
    ArcsAbove(nodes, u, euclid, k, if k < i then |nodes| else if k == i then j else k + 1)
  }

  /** Every list of adj is as it stands once the pairs (a, b) with a < i have been tested. */
  ghost predicate RowsBefore(adj: map<nat, seq<Arc>>, nodes: seq<Coord>, u: Region, euclid: (Coord, Coord) -> real, i: nat)
    requires i <= |nodes|
  {
    forall k :: 0 <= k < |nodes| ==> k in adj && adj[k] == AdjBeforeRow(nodes, u, euclid, k, i)
  }

  /** Every list of adj is as it stands once, in addition, the pairs (i, b) with b < j have been tested. */
  ghost predicate RowsWithin(adj: map<nat, seq<Arc>>, nodes: seq<Coord>, u: Region, euclid: (Coord, Coord) -> real, i: nat, j: nat)
    requires i < j <= |nodes|
  {
    forall k :: 0 <= k < |nodes| ==> k in adj && adj[k] == AdjInRow(nodes, u, euclid, k, i, j)
  }

  lemma RowStart(adj: map<nat, seq<Arc>>, nodes: seq<Coord>, u: Region, euclid: (Coord, Coord) -> real, i: nat)
    requires i < |nodes| && RowsBefore(adj, nodes, u, euclid, i)
    ensures RowsWithin(adj, nodes, u, euclid, i, i + 1)
  {
  }

  lemma RowEnd(adj: map<nat, seq<Arc>>, nodes: seq<Coord>, u: Region, euclid: (Coord, Coord) -> real, i: nat)
    requires i < |nodes| && RowsWithin(adj, nodes, u, euclid, i, |nodes|)
    ensures RowsBefore(adj, nodes, u, euclid, i + 1)
  {
  }

  /** Testing the pair (i, j) extends the lists of i and j only. */
  lemma PairStep(nodes: seq<Coord>, u: Region, euclid: (Coord, Coord) -> real, k: nat, i: nat, j: nat)
    requires k < |nodes| && i < j < |nodes|
    ensures AdjInRow(nodes, u, euclid, k, i, j + 1) ==
            AdjInRow(nodes, u, euclid, k, i, j) +
            (if k == i then PairArc(nodes, u, euclid, i, j, j)
             else if k == j then PairArc(nodes, u, euclid, i, j, i)
             else [])
  {
  }

  /** The builder's update for the pair (i, j) moves every list one pair forward. */
  lemma EdgeStep(before: map<nat, seq<Arc>>, after: map<nat, seq<Arc>>, nodes: seq<Coord>, u: Region,
                 euclid: (Coord, Coord) -> real, i: nat, j: nat)
    requires i < j < |nodes| && RowsWithin(before, nodes, u, euclid, i, j)
    requires var w := euclid(nodes[i], nodes[j]);
      after == if Visible(nodes[i], nodes[j], u)
               then before[i := before[i] + [Arc(j, w)]][j := before[j] + [Arc(i, w)]]
               else before
    ensures RowsWithin(after, nodes, u, euclid, i, j + 1)
  {
    forall k | 0 <= k < |nodes| ensures k in after && after[k] == AdjInRow(nodes, u, euclid, k, i, j + 1) {
      PairStep(nodes, u, euclid, k, i, j);
    }
  }

  /** Before the first row every list is empty. */
  lemma NoRowsYet(adj: map<nat, seq<Arc>>, nodes: seq<Coord>, u: Region, euclid: (Coord, Coord) -> real)
    requires forall k :: 0 <= k < |nodes| ==> k in adj && adj[k] == []
    ensures RowsBefore(adj, nodes, u, euclid, 0)
  {
  }

  /** After the last row every list is the full adjacency. */
  lemma RowsComplete(adj: map<nat, seq<Arc>>, nodes: seq<Coord>, u: Region, euclid: (Coord, Coord) -> real)
    requires RowsBefore(adj, nodes, u, euclid, |nodes|)
    ensures forall k :: 0 <= k < |nodes| ==> k in adj && adj[k] == Adjacency(nodes, u, euclid, k)
  {
  }

  /** `build_visibility_graph` */
  method BuildVisibilityGraph(obstacles: seq<Obstacle>, points: seq<Coord>, union: Region,
                              euclid: (Coord, Coord) -> real)
    returns (g: Graph)
    ensures g.Valid()
    ensures g.nodes == Unique(points + ConvexVertices(obstacles), DedupTol)
    ensures forall k :: 0 <= k < |g.nodes| ==> g.adj[k] == Adjacency(g.nodes, union, euclid, k)
  {
    var convex := ExtractConvexVertices(obstacles);
    var allPoints := UniquePoints(points + convex, DedupTol);

    g := new Graph.Empty();
    AddNodes(g, allPoints);
    NoRowsYet(g.adj, allPoints, union, euclid);

    var n := |allPoints|;
    for i := 0 to n
      invariant g.Valid() && g.nodes == allPoints
      invariant RowsBefore(g.adj, allPoints, union, euclid, i)
    {
      ConnectRow(g, i, union, euclid);
    }
    RowsComplete(g.adj, allPoints, union, euclid);
  }

  /** The builder's first loop: every point becomes a node, in order, with no arcs yet. */
  method AddNodes(g: Graph, pts: seq<Coord>)
    requires g.nodes == [] && g.adj == map[]
    modifies g
    ensures g.Valid() && g.nodes == pts
    ensures forall k :: 0 <= k < |pts| ==> g.adj[k] == []
  {
    for idx := 0 to |pts|
      invariant g.Valid() && g.nodes == pts[..idx]
      invariant forall k :: 0 <= k < idx ==> g.adj[k] == []
    {
      var _ := g.AddNode(pts[idx]);
      assert pts[..idx + 1] == pts[..idx] + [pts[idx]];
    }
    assert pts[..|pts|] == pts;
  }

  /** One pass of the builder's inner loop: node i is tested against every later node j. */
  method ConnectRow(g: Graph, i: nat, union: Region, euclid: (Coord, Coord) -> real)
    requires g.Valid() && i < |g.nodes| && RowsBefore(g.adj, g.nodes, union, euclid, i)
    modifies g
    ensures g.Valid() && g.nodes == old(g.nodes)
    ensures RowsBefore(g.adj, g.nodes, union, euclid, i + 1)
  {
    var n := |g.nodes|;
    var pi := g.nodes[i];
    RowStart(g.adj, g.nodes, union, euclid, i);
    for j := i + 1 to n
      invariant g.Valid() && g.nodes == old(g.nodes)
      invariant RowsWithin(g.adj, g.nodes, union, euclid, i, j)
    {
      var pj := g.nodes[j];
      ghost var before := g.adj;
      if Visible(pi, pj, union) {
        g.AddUndirectedEdge(i, j, euclid(pi, pj));
      }
      EdgeStep(before, g.adj, g.nodes, union, euclid, i, j);
    }
    RowEnd(g.adj, g.nodes, union, euclid, i);
  }

  // ---------------------------------------------------------------------
  // Properties of the built adjacency
  // ---------------------------------------------------------------------

  /** The number of arcs of s that point to j. */
  function CountTo(s: seq<Arc>, j: nat): nat
  {
    if s == [] then 0 else CountTo(s[..|s| - 1], j) + (if s[|s| - 1].to == j then 1 else 0)
  }

  lemma {:induction false} CountToAppend(a: seq<Arc>, b: seq<Arc>, j: nat)
    ensures CountTo(a + b, j) == CountTo(a, j) + CountTo(b, j)
  {
    if b == [] {
      assert a + b == a;
    } else {
      CountToAppend(a, b[..|b| - 1], j);
      assert (a + b)[..|a + b| - 1] == a + b[..|b| - 1];
    }
  }

  lemma CountToSingle(a: Arc, j: nat)
    ensures CountTo([a], j) == if a.to == j then 1 else 0
  {
    assert [a][..0] == [];
  }

  /** Every arc of ArcsBelow points to some a < m that sees k and carries the pair's distance. */
  lemma {:induction false} ArcsBelowMembers(nodes: seq<Coord>, u: Region, euclid: (Coord, Coord) -> real, k: nat, m: nat)
    requires k < |nodes| && m <= k
    ensures forall x :: x in ArcsBelow(nodes, u, euclid, k, m) ==>
              x.to < m && Sees(nodes, u, x.to, k) && x.w == Weight(nodes, euclid, x.to, k)
  {
    if m > 0 {
      ArcsBelowMembers(nodes, u, euclid, k, m - 1);
    }
  }

  /** ArcsBelow holds exactly one arc to each a < m that sees k, and none to any other node. */
  lemma {:induction false} ArcsBelowCount(nodes: seq<Coord>, u: Region, euclid: (Coord, Coord) -> real, k: nat, m: nat, j: nat)
    requires k < |nodes| && m <= k
    ensures CountTo(ArcsBelow(nodes, u, euclid, k, m), j) == if j < m && Sees(nodes, u, j, k) then 1 else 0
  {
    if m > 0 {
      var init, last := ArcsBelow(nodes, u, euclid, k, m - 1), PairArc(nodes, u, euclid, m - 1, k, m - 1);
      ArcsBelowCount(nodes, u, euclid, k, m - 1, j);
      assert ArcsBelow(nodes, u, euclid, k, m) == init + last;
      CountToAppend(init, last, j);
      assert CountTo(last, j) == if j == m - 1 && Sees(nodes, u, j, k) then 1 else 0 by {
        if Visible(nodes[m - 1], nodes[k], u) {
          CountToSingle(last[0], j);
        }
      }
    }
  }

  /** Without obstacles ArcsBelow has m arcs. */
  lemma {:induction false} ArcsBelowLength(nodes: seq<Coord>, u: Region, euclid: (Coord, Coord) -> real, k: nat, m: nat)
    requires k < |nodes| && m <= k && u.isEmpty
    ensures |ArcsBelow(nodes, u, euclid, k, m)| == m
  {
    if m > 0 {
      ArcsBelowLength(nodes, u, euclid, k, m - 1);
    }
  }

  /** Every arc of ArcsAbove points to some b, k < b < m, that k sees, and carries the pair's distance. */
  lemma {:induction false} ArcsAboveMembers(nodes: seq<Coord>, u: Region, euclid: (Coord, Coord) -> real, k: nat, m: nat)
    requires k < |nodes| && m <= |nodes|
    ensures forall x :: x in ArcsAbove(nodes, u, euclid, k, m) ==>
              k < x.to < m && Sees(nodes, u, k, x.to) && x.w == Weight(nodes, euclid, k, x.to)
  {
    if m > k + 1 {
      ArcsAboveMembers(nodes, u, euclid, k, m - 1);
    }
  }

  /** ArcsAbove holds exactly one arc to each b, k < b < m, that k sees, and none to any other node. */
  lemma {:induction false} ArcsAboveCount(nodes: seq<Coord>, u: Region, euclid: (Coord, Coord) -> real, k: nat, m: nat, j: nat)
    requires k < |nodes| && m <= |nodes|
    ensures CountTo(ArcsAbove(nodes, u, euclid, k, m), j) == if k < j < m && Sees(nodes, u, k, j) then 1 else 0
  {
    if m > k + 1 {
      var init, last := ArcsAbove(nodes, u, euclid, k, m - 1), PairArc(nodes, u, euclid, k, m - 1, m - 1);
      ArcsAboveCount(nodes, u, euclid, k, m - 1, j);
      assert ArcsAbove(nodes, u, euclid, k, m) == init + last;
      CountToAppend(init, last, j);
      assert CountTo(last, j) == if j == m - 1 && Sees(nodes, u, k, j) then 1 else 0 by {
        if Visible(nodes[k], nodes[m - 1], u) {
          CountToSingle(last[0], j);
        }
      }
    }
  }

  /** Without obstacles ArcsAbove has one arc to each b with k < b < m. */
  lemma {:induction false} ArcsAboveLength(nodes: seq<Coord>, u: Region, euclid: (Coord, Coord) -> real, k: nat, m: nat)
    requires k < |nodes| && m <= |nodes| && u.isEmpty
    ensures |ArcsAbove(nodes, u, euclid, k, m)| == if m <= k + 1 then 0 else m - k - 1
  {
    if m > k + 1 {
      ArcsAboveLength(nodes, u, euclid, k, m - 1);
    }
  }

  /**
   * The built adjacency: no self-loops, arcs only to real nodes, and for
   * every other node j exactly one arc to j when the pair passes the
   * line-of-sight test and none otherwise, weighted by the pair's distance.
   */
  lemma AdjacencyFacts(nodes: seq<Coord>, u: Region, euclid: (Coord, Coord) -> real, k: nat)
    requires k < |nodes|
    ensures forall x :: x in Adjacency(nodes, u, euclid, k) ==>
              x.to < |nodes| && x.to != k && Sees(nodes, u, k, x.to) && x.w == Weight(nodes, euclid, k, x.to)
    ensures forall j: nat :: j < |nodes| ==>
              CountTo(Adjacency(nodes, u, euclid, k), j) == if j != k && Sees(nodes, u, k, j) then 1 else 0
  {
    var below, above := ArcsBelow(nodes, u, euclid, k, k), ArcsAbove(nodes, u, euclid, k, |nodes|);
    ArcsBelowMembers(nodes, u, euclid, k, k);
    ArcsAboveMembers(nodes, u, euclid, k, |nodes|);
    forall j: nat | j < |nodes|
      ensures CountTo(Adjacency(nodes, u, euclid, k), j) == if j != k && Sees(nodes, u, k, j) then 1 else 0
    {
      ArcsBelowCount(nodes, u, euclid, k, k, j);
      ArcsAboveCount(nodes, u, euclid, k, |nodes|, j);
      CountToAppend(below, above, j);
      SeesSymmetric(nodes, u, j, k);
    }
  }

  /** Adjacency is symmetric: j lists k with weight w exactly when k lists j with weight w. */
  lemma AdjacencySymmetric(nodes: seq<Coord>, u: Region, euclid: (Coord, Coord) -> real, k: nat, j: nat, w: real)
    requires k < |nodes| && j < |nodes|
    ensures Arc(j, w) in Adjacency(nodes, u, euclid, k) <==> Arc(k, w) in Adjacency(nodes, u, euclid, j)
  {
    AdjacencyFacts(nodes, u, euclid, k);
    AdjacencyFacts(nodes, u, euclid, j);
    if Arc(j, w) in Adjacency(nodes, u, euclid, k) {
      CountPositiveHasArc(Adjacency(nodes, u, euclid, j), k);
      var x :| x in Adjacency(nodes, u, euclid, j) && x.to == k;
      assert x == Arc(k, w);
    }
    if Arc(k, w) in Adjacency(nodes, u, euclid, j) {
      CountPositiveHasArc(Adjacency(nodes, u, euclid, k), j);
      var x :| x in Adjacency(nodes, u, euclid, k) && x.to == j;
      assert x == Arc(j, w);
    }
  }

  lemma {:induction false} CountPositiveHasArc(s: seq<Arc>, j: nat)
    requires CountTo(s, j) > 0
    ensures exists x :: x in s && x.to == j
  {
    if s[|s| - 1].to != j {
      CountPositiveHasArc(s[..|s| - 1], j);
      var x :| x in s[..|s| - 1] && x.to == j;
      assert x in s;
    }
  }

  /** Without obstacles every node is joined to every other: each list has n - 1 arcs. */
  lemma CompleteWithoutObstacles(nodes: seq<Coord>, u: Region, euclid: (Coord, Coord) -> real, k: nat)
    requires k < |nodes| && u.isEmpty
    ensures |Adjacency(nodes, u, euclid, k)| == |nodes| - 1
  {
    ArcsBelowLength(nodes, u, euclid, k, k);
    ArcsAboveLength(nodes, u, euclid, k, |nodes|);
  }

  /** The caller's points come first among the nodes; in particular a scene's depot is node 0. */
  lemma CallerPointsFirst(points: seq<Coord>, obstacles: seq<Obstacle>)
    ensures var nodes := Unique(points + ConvexVertices(obstacles), DedupTol);
      var up := Unique(points, DedupTol);
      |up| <= |nodes| && nodes[..|up|] == up &&
      (points != [] ==> nodes != [] && nodes[0] == points[0])
  {
    UniquePrefix(points, ConvexVertices(obstacles), DedupTol);
    if points != [] {
      UniquePrefix([points[0]], points[1..], DedupTol);
      assert [points[0]] + points[1..] == points;
      assert Unique([points[0]], DedupTol) == [points[0]] by {
        assert [points[0]][..0] == [];
      }
    }
  }
}
