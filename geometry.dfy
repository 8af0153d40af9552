/**
 * Line-of-sight test and convex-vertex extraction (mtvg/geometry.py).
 *
 * The polygon Boolean engine is not modelled: an obstacle union is seen only
 * through the three queries the line-of-sight test makes of it, bundled in
 * `Region`.
 */
module Geometry {
  import opened Wrappers

  /** A point of the plane. */
  datatype Coord = Coord(x: real, y: real)

  /** A polygon obstacle: its vertex list, meant to be simple and counter-clockwise (never checked). */
  datatype Obstacle = Obstacle(vertices: seq<Coord>)

  /** The shape of "segment ∩ obstacle union" as the geometry engine reports it. */
  datatype Shape =
    | Empty                   // no common point
    | Pt(c: Coord)            // a single point
    | Multi(pts: seq<Coord>)  // finitely many points
    | Other                   // a sub-segment, an area or a mixture

  /**
   * An obstacle union, seen through the queries the source makes of it:
   * whether it is empty, whether a segment meets it, and the shape of the
   * common part of a segment and the union.
   */
  datatype Region = Region(
    isEmpty: bool,
    intersects: (Coord, Coord) -> bool,
    intersection: (Coord, Coord) -> Shape)

  /** The default endpoint tolerance, 1e-9. */
  const DefaultEps: real := 0.000000001

  function Abs(r: real): (a: real)
    ensures a >= 0.0 && (a == r || a == -r)
  {
    if r < 0.0 then -r else r
  }

  /** `_near`: both coordinates differ by at most `tol`. */
  predicate Near(a: Coord, b: Coord, tol: real)
  {
    Abs(a.x - b.x) <= tol && Abs(a.y - b.y) <= tol
  }

  lemma NearSymmetric(a: Coord, b: Coord, tol: real)
    ensures Near(a, b, tol) <==> Near(b, a, tol)
  {
  }

  lemma NearReflexive(a: Coord, tol: real)
    requires tol >= 0.0
    ensures Near(a, a, tol)
  {
  }

  predicate TouchesEndpoint(pt: Coord, p0: Coord, p1: Coord, eps: real)
  {
    Near(pt, p0, eps) || Near(pt, p1, eps)
  }

  /** The finitely many points of a shape; `None` for a shape with infinitely many. */
  function PointsOf(s: Shape): (r: Option<seq<Coord>>)
    ensures r.None? <==> s.Other?
    ensures s.Pt? ==> r == Some([s.c])
  {
    match s
    case Empty => Some([])
    case Pt(c) => Some([c])
    case Multi(ps) => Some(ps)
    case Other => None
  }

  /**
   * Not blocked: the segment p0-p1 meets the union in finitely many points,
   * each within `eps` of an endpoint.
   */
  ghost predicate TouchesOnlyAtEndpoints(p0: Coord, p1: Coord, u: Region, eps: real)
  {
    u.isEmpty || !u.intersects(p0, p1) ||
    match PointsOf(u.intersection(p0, p1))
    case None => false
    case Some(ps) => forall p :: p in ps ==> TouchesEndpoint(p, p0, p1, eps)
  }

  /** The second `segment_intersects_obstacles` (the first one is shadowed by it). */
  predicate SegmentIntersectsObstacles(p0: Coord, p1: Coord, u: Region, eps: real)
    ensures SegmentIntersectsObstacles(p0, p1, u, eps) <==> !TouchesOnlyAtEndpoints(p0, p1, u, eps)
    ensures u.isEmpty || !u.intersects(p0, p1) ==> !SegmentIntersectsObstacles(p0, p1, u, eps)
    ensures !u.isEmpty && u.intersects(p0, p1) && u.intersection(p0, p1).Other? ==>
              SegmentIntersectsObstacles(p0, p1, u, eps)
  {
    if u.isEmpty then false
    else if !u.intersects(p0, p1) then false
    else
      match u.intersection(p0, p1)
      case Empty => false
      case Pt(c) => !TouchesEndpoint(c, p0, p1, eps)
      case Multi(pts) => !(forall p :: p in pts ==> TouchesEndpoint(p, p0, p1, eps))
      case Other => true
  }

  /** `visible`: the segment p0-p1 is not blocked, with the default tolerance. */
  predicate Visible(p0: Coord, p1: Coord, u: Region)
    ensures Visible(p0, p1, u) <==> TouchesOnlyAtEndpoints(p0, p1, u, DefaultEps)
    ensures u.isEmpty ==> Visible(p0, p1, u)
  {
    !SegmentIntersectsObstacles(p0, p1, u, DefaultEps)
  }

  /** A larger tolerance never blocks a segment that a smaller one lets through. */
  lemma ToleranceMonotone(p0: Coord, p1: Coord, u: Region, eps: real, eps': real)
    requires eps <= eps'
    ensures SegmentIntersectsObstacles(p0, p1, u, eps') ==> SegmentIntersectsObstacles(p0, p1, u, eps)
  {
    if !u.isEmpty && u.intersects(p0, p1) {
      match u.intersection(p0, p1)
      case Multi(pts) =>
        if forall p :: p in pts ==> TouchesEndpoint(p, p0, p1, eps) {
          assert forall p :: p in pts ==> TouchesEndpoint(p, p0, p1, eps');
        }
      case _ =>
    }
  }

  // ---------------------------------------------------------------------
  // Convex vertices
  // ---------------------------------------------------------------------

  /**
   * The vertices the source walks: the polygon's exterior ring without its
   * closing vertex. The geometry engine closes an open ring by repeating the
   * first vertex and keeps an already closed one, so dropping the last ring
   * vertex removes the repetition in both cases.
   */
  function Ring(o: Obstacle): (c: seq<Coord>)
    ensures |c| <= |o.vertices| && c == o.vertices[..|c|]
  {
    var vs := o.vertices;
    if |vs| >= 2 && vs[0] == vs[|vs| - 1] then vs[..|vs| - 1] else vs
  }

  /** The vector from a to b. */
  function Minus(b: Coord, a: Coord): Coord
  {
    Coord(b.x - a.x, b.y - a.y)
  }

  /** The 2-D cross product of two vectors. */
  function CrossProduct(v1: Coord, v2: Coord): real
  {
    v1.x * v2.y - v1.y * v2.x
  }

  /** Cross product of (cur - prev) and (next - cur) at vertex i, neighbours taken cyclically. */
  function Cross(c: seq<Coord>, i: nat): real
    requires i < |c|
  {
    var n := |c|;
    var prev, cur, next := c[(i - 1) % n], c[i], c[(i + 1) % n];
    CrossProduct(Minus(cur, prev), Minus(next, cur))
  }

  /** The vertices of ring c below index m with positive cross product, in ring order. */
  function ConvexScan(c: seq<Coord>, m: nat): seq<Coord>
    requires m <= |c|
  {
    if m == 0 then [] else ConvexScan(c, m - 1) + (if Cross(c, m - 1) > 0.0 then [c[m - 1]] else [])
  }

  /** The convex vertices of one ring. */
  function ConvexOf(c: seq<Coord>): seq<Coord>
  {
    ConvexScan(c, |c|)
  }

  /** All convex vertices: obstacle by obstacle, each in ring order. */
  function ConvexVertices(obs: seq<Obstacle>): seq<Coord>
  {
    if obs == [] then [] else ConvexVertices(obs[..|obs| - 1]) + ConvexOf(Ring(obs[|obs| - 1]))
  }

  /** `extract_convex_vertices`: nested loops over obstacles and their ring vertices. */
  method ExtractConvexVertices(obstacles: seq<Obstacle>) returns (convex: seq<Coord>)
    ensures convex == ConvexVertices(obstacles)
  {
    convex := [];
    for o := 0 to |obstacles|
      invariant convex == ConvexVertices(obstacles[..o])
    {
      var coords := Ring(obstacles[o]);
      var ringConvex := RingConvexVertices(coords);
      convex := convex + ringConvex;
      assert obstacles[..o + 1][..o] == obstacles[..o];
    }
    assert obstacles[..|obstacles|] == obstacles;
  }

  /** The inner loop of `extract_convex_vertices`: one ring, vertex by vertex. */
  method RingConvexVertices(coords: seq<Coord>) returns (convex: seq<Coord>)
    ensures convex == ConvexOf(coords)
  {
    convex := [];
    var n := |coords|;
    for i := 0 to n
      invariant convex == ConvexScan(coords, i)
    {
      var pPrev, pCur, pNext := coords[(i - 1) % n], coords[i], coords[(i + 1) % n];
      var v1 := Minus(pCur, pPrev);
      var v2 := Minus(pNext, pCur);
      var cross := CrossProduct(v1, v2);
      assert cross == Cross(coords, i);
      if cross > 0.0 {
        convex := convex + [pCur];
      }
    }
  }

  /** A ring of at most two vertices has a zero cross product everywhere, so
      it yields no convex vertex. */
  lemma DegenerateRingNoVertices(c: seq<Coord>)
    requires |c| <= 2
    ensures ConvexOf(c) == []
  {
    forall i | 0 <= i < |c|
      ensures Cross(c, i) == 0.0
    {
      var n := |c|;
      var v := Minus(c[i], c[(i - 1) % n]);
      assert c[(i + 1) % n] == c[(i - 1) % n];
      assert Minus(c[(i + 1) % n], c[i]) == Coord(-v.x, -v.y);
    }
    if |c| >= 1 {
      assert ConvexScan(c, 0) == [];
      assert ConvexScan(c, 1) == [];
    }
    if |c| == 2 {
      assert ConvexScan(c, 2) == [];
    }
  }

  /** Vertex i of obstacle k is convex: a positive cross product there. */
  ghost predicate IsConvexVertex(obs: seq<Obstacle>, k: int, i: int)
  {
    0 <= k < |obs| && 0 <= i < |Ring(obs[k])| && Cross(Ring(obs[k]), i) > 0.0
  }

  /** The vertices walked, summed over the obstacles. */
  function VertexCount(obs: seq<Obstacle>): nat
  {
    if obs == [] then 0 else VertexCount(obs[..|obs| - 1]) + |Ring(obs[|obs| - 1])|
  }

  /** The scan below m keeps exactly the vertices below m with a positive cross product. */
  lemma {:induction false} ConvexScanMembers(c: seq<Coord>, m: nat)
    requires m <= |c|
    ensures |ConvexScan(c, m)| <= m
    ensures forall p :: p in ConvexScan(c, m) <==> exists i :: 0 <= i < m && c[i] == p && Cross(c, i) > 0.0
  {
    if m > 0 {
      ConvexScanMembers(c, m - 1);
      var prev := ConvexScan(c, m - 1);
      var step := if Cross(c, m - 1) > 0.0 then [c[m - 1]] else [];
      assert ConvexScan(c, m) == prev + step;
      forall p | p in prev + step ensures exists i :: 0 <= i < m && c[i] == p && Cross(c, i) > 0.0 {
        if p !in prev {
          assert c[m - 1] == p && Cross(c, m - 1) > 0.0;
        }
      }
      forall p | exists i :: 0 <= i < m && c[i] == p && Cross(c, i) > 0.0 ensures p in prev + step {
        var i :| 0 <= i < m && c[i] == p && Cross(c, i) > 0.0;
        if i < m - 1 {
          assert p in prev;
        } else {
          assert p in step;
        }
      }
    }
  }

  /** A ring's convex vertices are exactly its vertices with positive cross product. */
  lemma ConvexOfMembers(c: seq<Coord>)
    ensures |ConvexOf(c)| <= |c|
    ensures forall p :: p in ConvexOf(c) <==> exists i :: 0 <= i < |c| && c[i] == p && Cross(c, i) > 0.0
  {
    ConvexScanMembers(c, |c|);
  }

  /** There are at most as many extracted points as vertices walked. */
  lemma {:induction false} ConvexVerticesCount(obs: seq<Obstacle>)
    ensures |ConvexVertices(obs)| <= VertexCount(obs)
  {
    if obs != [] {
      ConvexVerticesCount(obs[..|obs| - 1]);
      ConvexOfMembers(Ring(obs[|obs| - 1]));
    }
  }

  /** Every extracted point is a convex vertex of some obstacle. */
  lemma {:induction false} ConvexVerticesSound(obs: seq<Obstacle>, p: Coord)
    requires p in ConvexVertices(obs)
    ensures exists k, i :: IsConvexVertex(obs, k, i) && Ring(obs[k])[i] == p
  {
    var init, last := obs[..|obs| - 1], obs[|obs| - 1];
    if p in ConvexVertices(init) {
      ConvexVerticesSound(init, p);
      var k, i :| IsConvexVertex(init, k, i) && Ring(init[k])[i] == p;
      assert IsConvexVertex(obs, k, i) && Ring(obs[k])[i] == p;
    } else {
      ConvexOfMembers(Ring(last));
      var i :| 0 <= i < |Ring(last)| && Ring(last)[i] == p && Cross(Ring(last), i) > 0.0;
      assert IsConvexVertex(obs, |obs| - 1, i) && Ring(obs[|obs| - 1])[i] == p;
    }
  }

  /** Every convex vertex of every obstacle is extracted. */
  lemma {:induction false} ConvexVerticesComplete(obs: seq<Obstacle>, k: nat, i: nat)
    requires IsConvexVertex(obs, k, i)
    ensures Ring(obs[k])[i] in ConvexVertices(obs)
  {
    var init, last := obs[..|obs| - 1], obs[|obs| - 1];
    if k < |obs| - 1 {
      assert IsConvexVertex(init, k, i);
      ConvexVerticesComplete(init, k, i);
    } else {
      ConvexOfMembers(Ring(last));
    }
  }
}
