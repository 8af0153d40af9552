/**
 * Shortest paths over a visibility graph (`dijkstra` in
 * mtvg/visibility_graph.py): a binary-heap Dijkstra with lazy deletion of
 * stale queue entries, an early exit when the destination is popped, and
 * path reconstruction through predecessor links.
 *
 * The heap is a sequence from which the least (distance, node) pair is
 * removed, which is what `heapq.heappop` returns. The proof keeps, as ghost
 * state, the order in which nodes were settled (`rank`).
 */
module ShortestPath {
  import opened Geometry
  import opened VisibilityGraph

  /** A tentative distance: `math.inf` or a finite value. */
  datatype Dist = Inf | Fin(r: real)

  /** A heap entry `(distance, node)`. */
  datatype Entry = Entry(d: real, node: nat)

  type Adj = map<nat, seq<Arc>>

  /** nd < dist, with `math.inf` above every finite value. */
  predicate Shorter(nd: real, x: Dist)
  {
    x.Inf? || nd < x.r
  }

  /** d > dist, with nothing above `math.inf`. */
  predicate Exceeds(d: real, x: Dist)
  {
    x.Fin? && d > x.r
  }

  /** The tuple order heapq uses on entries. */
  predicate EntryLe(a: Entry, b: Entry)
  {
    a.d < b.d || (a.d == b.d && a.node <= b.node)
  }

  /** `heapq.heappop`: remove and return a least entry. */
  method PopMin(pq: seq<Entry>) returns (e: Entry, rest: seq<Entry>)
    requires pq != []
    ensures exists k :: 0 <= k < |pq| && e == pq[k] && rest == pq[..k] + pq[k + 1..]
    ensures forall x :: x in pq ==> EntryLe(e, x)
  {
    var k := 0;
    for i := 1 to |pq|
      invariant 0 <= k < i
      invariant forall j :: 0 <= j < i ==> EntryLe(pq[k], pq[j])
    {
      if !EntryLe(pq[k], pq[i]) {
        k := i;
      }
    }
    e, rest := pq[k], pq[..k] + pq[k + 1..];
  }

  // ---------------------------------------------------------------------
  // Walks
  // ---------------------------------------------------------------------

  /** The adjacency Dijkstra can run on: lists exactly for nodes 0..n-1, arcs to nodes, non-negative weights. */
  ghost predicate WellFormed(A: Adj, n: nat)
  {
    (forall k: nat :: k in A <==> k < n) &&
    (forall k, a :: k in A && a in A[k] ==> a.to < n && a.w >= 0.0)
  }

  /** p is a walk along arcs of A whose i-th arc has weight ws[i]. */
  ghost predicate IsWalk(A: Adj, p: seq<nat>, ws: seq<real>)
  {
    |p| == |ws| + 1 &&
    forall i :: 0 <= i < |ws| ==> p[i] in A && Arc(p[i + 1], ws[i]) in A[p[i]]
  }

  ghost predicate WalkFrom(A: Adj, p: seq<nat>, ws: seq<real>, src: nat, dst: nat)
  {
    IsWalk(A, p, ws) && p[0] == src && p[|p| - 1] == dst
  }

  ghost predicate Reachable(A: Adj, src: nat, dst: nat)
  {
    exists p, ws :: WalkFrom(A, p, ws, src, dst)
  }

  /** The weight of a walk. */
  function Sum(ws: seq<real>): real
  {
    if ws == [] then 0.0 else Sum(ws[..|ws| - 1]) + ws[|ws| - 1]
  }

  lemma {:induction false} SumCons(w: real, ws: seq<real>)
    ensures Sum([w] + ws) == w + Sum(ws)
  {
    if ws != [] {
      SumCons(w, ws[..|ws| - 1]);
      assert ([w] + ws)[..|[w] + ws| - 1] == [w] + ws[..|ws| - 1];
    }
  }

  /** With non-negative weights a prefix of a walk weighs no more than the walk. */
  lemma {:induction false} SumPrefix(ws: seq<real>, k: nat)
    requires k <= |ws| && forall i :: 0 <= i < |ws| ==> ws[i] >= 0.0
    ensures Sum(ws[..k]) <= Sum(ws)
  {
    if k < |ws| {
      SumPrefix(ws[..|ws| - 1], k);
      assert ws[..|ws| - 1][..k] == ws[..k];
    } else {
      assert ws[..k] == ws;
    }
  }

  lemma WalkWeightsNonnegative(A: Adj, n: nat, p: seq<nat>, ws: seq<real>)
    requires WellFormed(A, n) && IsWalk(A, p, ws)
    ensures forall i :: 0 <= i < |ws| ==> ws[i] >= 0.0
  {
    forall i | 0 <= i < |ws| ensures ws[i] >= 0.0 {
      assert Arc(p[i + 1], ws[i]) in A[p[i]];
    }
  }

  // ---------------------------------------------------------------------
  // The loop invariant
  // ---------------------------------------------------------------------

  /** v hangs off its predecessor by an arc whose weight closes the gap between their distances. */
  ghost predicate Tight(A: Adj, dist: seq<Dist>, prev: seq<int>, v: nat)
    requires v < |dist| && v < |prev|
  {
    0 <= prev[v] < |dist| && prev[v] in A && dist[prev[v]].Fin? && dist[v].Fin? &&
    exists w :: Arc(v, w) in A[prev[v] as nat] && dist[prev[v]].r + w == dist[v].r
  }

  /** The arrays have one slot per node; the source is at 0 with no predecessor; distances are non-negative. */
  ghost predicate Base(n: nat, src: nat, dist: seq<Dist>, prev: seq<int>)
  {
    |dist| == n && |prev| == n && src < n &&
    dist[src] == Fin(0.0) && prev[src] == -1 &&
    forall v :: 0 <= v < n && dist[v].Fin? ==> dist[v].r >= 0.0
  }

  /** `rank` maps each settled node, reached, to the step at which it was settled, all below t. */
  ghost predicate Settled(n: nat, dist: seq<Dist>, rank: map<nat, nat>, t: nat)
    requires |dist| == n
  {
    forall s :: s in rank ==> s < n && dist[s].Fin? && rank[s] < t
  }

  /** v is tight against a predecessor in `rank`. */
  ghost predicate Hangs(A: Adj, dist: seq<Dist>, prev: seq<int>, rank: map<nat, nat>, v: nat)
    requires v < |dist| && v < |prev|
  {
    Tight(A, dist, prev, v) && prev[v] in rank
  }

  /** Every reached node but the source hangs off a settled predecessor. */
  ghost predicate Linked(A: Adj, n: nat, src: nat, dist: seq<Dist>, prev: seq<int>, rank: map<nat, nat>)
    requires |dist| == n && |prev| == n
  {
    forall v {:trigger Hangs(A, dist, prev, rank, v)} ::
      0 <= v < n && v != src && dist[v].Fin? ==> Hangs(A, dist, prev, rank, v)
  }

  /** s came after its predecessor in `rank`. */
  ghost predicate After(prev: seq<int>, rank: map<nat, nat>, s: nat)
  {
    s < |prev| && s in rank && 0 <= prev[s] && prev[s] in rank && rank[prev[s] as nat] < rank[s]
  }

  /** Every settled node but the source was settled after its predecessor. */
  ghost predicate Ordered(src: nat, prev: seq<int>, rank: map<nat, nat>)
  {
    forall s {:trigger After(prev, rank, s)} :: s in rank && s != src ==> After(prev, rank, s)
  }

  /** The distances and predecessor links found so far. */
  ghost predicate Tree(A: Adj, n: nat, src: nat, dist: seq<Dist>, prev: seq<int>, rank: map<nat, nat>, t: nat)
  {
    Base(n, src, dist, prev) && Settled(n, dist, rank, t) &&
    Linked(A, n, src, dist, prev, rank) && Ordered(src, prev, rank)
  }

  /** Entries i and j of pq, if for the same node, carry different distances. */
  ghost predicate Apart(pq: seq<Entry>, i: nat, j: nat)
    requires i < |pq| && j < |pq|
  {
    pq[i].node == pq[j].node ==> pq[i].d != pq[j].d
  }

  /** No two entries of pq for the same node carry the same distance. */
  ghost predicate Distinct(pq: seq<Entry>)
  {
    forall i, j {:trigger Apart(pq, i, j)} :: 0 <= i < j < |pq| ==> Apart(pq, i, j)
  }

  /** v has an entry on the heap at exactly its distance. */
  ghost predicate Queued(dist: seq<Dist>, pq: seq<Entry>, v: nat)
    requires v < |dist|
  {
    dist[v].Fin? && Entry(dist[v].r, v) in pq
  }

  /**
   * The heap, with `floor` the distance of the last node settled: every
   * entry is at or above its node's distance and the floor; every reached
   * but unsettled node has an entry at exactly its distance; settled
   * distances are at most the floor, and entries of settled nodes are stale.
   */
  ghost predicate Queue(n: nat, dist: seq<Dist>, pq: seq<Entry>, rank: map<nat, nat>, floor: real)
    requires |dist| == n
  {
    Distinct(pq) &&
    (forall e :: e in pq ==> e.node < n && dist[e.node].Fin? && e.d >= dist[e.node].r && e.d >= floor) &&
    (forall v {:trigger Queued(dist, pq, v)} :: 0 <= v < n && v !in rank && dist[v].Fin? ==> Queued(dist, pq, v)) &&
    (forall s :: s in rank ==> s < n && dist[s].Fin? && dist[s].r <= floor) &&
    (forall e :: e in pq && e.node in rank ==> e.d > dist[e.node].r)
  }

  /** Every arc in `arcs`, leaving s, is relaxed: its head is at most dist[s] plus its weight. */
  ghost predicate RelaxedArcs(n: nat, dist: seq<Dist>, s: nat, arcs: seq<Arc>)
    requires |dist| == n && s < n
  {
    forall a :: a in arcs ==> a.to < n && dist[s].Fin? && dist[a.to].Fin? && dist[a.to].r <= dist[s].r + a.w
  }

  /** Every arc out of s is relaxed. */
  ghost predicate RelaxedAt(A: Adj, n: nat, dist: seq<Dist>, s: nat)
    requires |dist| == n
  {
    s < n && s in A && RelaxedArcs(n, dist, s, A[s])
  }

  /** Every arc out of every settled node other than `skip` is relaxed. */
  ghost predicate Relaxed(A: Adj, n: nat, dist: seq<Dist>, rank: map<nat, nat>, skip: int)
    requires |dist| == n
  {
    forall s {:trigger RelaxedAt(A, n, dist, s)} :: s in rank && s != skip ==> RelaxedAt(A, n, dist, s)
  }

  // ---------------------------------------------------------------------
  // Popping
  // ---------------------------------------------------------------------

  lemma RemoveAt(pq: seq<Entry>, k: nat, rest: seq<Entry>)
    requires k < |pq| && rest == pq[..k] + pq[k + 1..] && Distinct(pq)
    ensures forall x :: x in rest ==> x in pq
    ensures forall x :: x in pq && x != pq[k] ==> x in rest
    ensures forall x :: x in rest && x.node == pq[k].node ==> x.d != pq[k].d
    ensures Distinct(rest)
  {
    assert forall i :: 0 <= i < |rest| ==> rest[i] == pq[if i < k then i else i + 1];
    forall x | x in pq && x != pq[k] ensures x in rest {
      var i :| 0 <= i < |pq| && pq[i] == x;
      assert rest[if i < k then i else i - 1] == x;
    }
    forall x | x in rest && x.node == pq[k].node ensures x.d != pq[k].d {
      var i :| 0 <= i < |rest| && rest[i] == x;
      var j := if i < k then i else i + 1;
      if j < k { assert Apart(pq, j, k); } else { assert Apart(pq, k, j); }
    }
    forall i, j | 0 <= i < j < |rest| ensures Apart(rest, i, j) {
      assert Apart(pq, if i < k then i else i + 1, if j < k then j else j + 1);
    }
  }

  /** Popping a stale entry leaves the heap invariant intact. */
  lemma StalePop(n: nat, dist: seq<Dist>, pq: seq<Entry>, rank: map<nat, nat>, floor: real, k: nat, rest: seq<Entry>)
    requires |dist| == n && Queue(n, dist, pq, rank, floor)
    requires k < |pq| && rest == pq[..k] + pq[k + 1..] && Exceeds(pq[k].d, dist[pq[k].node])
    ensures Queue(n, dist, rest, rank, floor)
  {
    RemoveAt(pq, k, rest);
    forall v | 0 <= v < n && v !in rank && dist[v].Fin? ensures Queued(dist, rest, v) {
      assert Queued(dist, pq, v);
    }
  }

  /** The settled set grows by a reached node that is not settled yet. */
  lemma TreeExtend(A: Adj, n: nat, src: nat, dist: seq<Dist>, prev: seq<int>, rank: map<nat, nat>, t: nat, u: nat)
    requires Tree(A, n, src, dist, prev, rank, t) && u < n && u !in rank && dist[u].Fin?
    ensures Tree(A, n, src, dist, prev, rank[u := t], t + 1)
  {
    var rank' := rank[u := t];
    forall v | 0 <= v < n && v != src && dist[v].Fin? ensures Hangs(A, dist, prev, rank', v) {
      assert Hangs(A, dist, prev, rank, v);
    }
    forall s | s in rank' && s != src ensures After(prev, rank', s) {
      if s == u {
        assert Hangs(A, dist, prev, rank, u);
      } else {
        assert After(prev, rank, s);
      }
    }
  }

  /** A fresh pop is of an unsettled node, at exactly its distance. */
  lemma FreshNode(n: nat, dist: seq<Dist>, pq: seq<Entry>, rank: map<nat, nat>, floor: real, k: nat)
    requires |dist| == n && Queue(n, dist, pq, rank, floor)
    requires k < |pq| && !Exceeds(pq[k].d, dist[pq[k].node])
    ensures pq[k].node !in rank && dist[pq[k].node] == Fin(pq[k].d)
  {
    assert pq[k] in pq;
  }

  /** After a fresh pop of u, the heap invariant holds with u settled. */
  lemma FreshQueue(n: nat, dist: seq<Dist>, pq: seq<Entry>, rank: map<nat, nat>, floor: real, t: nat, k: nat, rest: seq<Entry>)
    requires |dist| == n && Queue(n, dist, pq, rank, floor)
    requires k < |pq| && rest == pq[..k] + pq[k + 1..] && dist[pq[k].node] == Fin(pq[k].d)
    requires forall x :: x in pq ==> EntryLe(pq[k], x)
    ensures Queue(n, dist, rest, rank[pq[k].node := t], pq[k].d)
  {
    RemoveAt(pq, k, rest);
    assert pq[k] in pq;
    forall v | 0 <= v < n && v !in rank[pq[k].node := t] && dist[v].Fin? ensures Queued(dist, rest, v) {
      assert Queued(dist, pq, v);
    }
  }

  // ---------------------------------------------------------------------
  // Relaxing
  // ---------------------------------------------------------------------

  /** The inner-loop invariant, after the first i arcs of the settled node u have been relaxed. */
  ghost predicate Inner(A: Adj, n: nat, src: nat, dist: seq<Dist>, prev: seq<int>, pq: seq<Entry>,
                        rank: map<nat, nat>, t: nat, u: nat, du: real, i: nat)
  {
    Tree(A, n, src, dist, prev, rank, t) && Queue(n, dist, pq, rank, du) &&
    Relaxed(A, n, dist, rank, u) &&
    u in rank && u in A && i <= |A[u]| && dist[u] == Fin(du) &&
    RelaxedArcs(n, dist, u, A[u][..i])
  }

  lemma RelaxTree(A: Adj, n: nat, src: nat, dist: seq<Dist>, prev: seq<int>, rank: map<nat, nat>, t: nat,
                  u: nat, du: real, v: nat, w: real)
    requires Tree(A, n, src, dist, prev, rank, t) && u in rank && u in A && dist[u] == Fin(du)
    requires Arc(v, w) in A[u] && v < n && v !in rank && v != src && du + w >= 0.0
    ensures Tree(A, n, src, dist[v := Fin(du + w)], prev[v := u], rank, t)
  {
    RelaxLinked(A, n, src, dist, prev, rank, u, du, v, w);
    RelaxOrdered(src, prev, rank, u, v);
  }

  lemma RelaxOrdered(src: nat, prev: seq<int>, rank: map<nat, nat>, u: nat, v: nat)
    requires Ordered(src, prev, rank) && v < |prev| && v !in rank
    ensures Ordered(src, prev[v := u], rank)
  {
    forall s | s in rank && s != src ensures After(prev[v := u], rank, s) {
      assert After(prev, rank, s);
    }
  }

  lemma RelaxLinked(A: Adj, n: nat, src: nat, dist: seq<Dist>, prev: seq<int>, rank: map<nat, nat>,
                    u: nat, du: real, v: nat, w: real)
    requires |dist| == n && |prev| == n && Linked(A, n, src, dist, prev, rank)
    requires u in rank && u < n && u in A && dist[u] == Fin(du)
    requires Arc(v, w) in A[u] && v < n && v !in rank
    ensures Linked(A, n, src, dist[v := Fin(du + w)], prev[v := u], rank)
  {
    var dist', prev' := dist[v := Fin(du + w)], prev[v := u];
    forall x | 0 <= x < n && x != src && dist'[x].Fin? ensures Hangs(A, dist', prev', rank, x) {
      if x == v {
        assert Arc(x, w) in A[prev'[x] as nat] && dist'[prev'[x]].r + w == dist'[x].r;
      } else {
        assert Hangs(A, dist, prev, rank, x);
        TightKept(A, dist, prev, x, v, du + w, u);
      }
    }
  }

  /** Tightness of x survives an update of another node that is not its predecessor. */
  lemma TightKept(A: Adj, dist: seq<Dist>, prev: seq<int>, x: nat, v: nat, d: real, u: int)
    requires x < |dist| && x < |prev| && v < |dist| && v < |prev| && x != v
    requires Tight(A, dist, prev, x) && prev[x] != v
    ensures Tight(A, dist[v := Fin(d)], prev[v := u], x)
  {
    var w :| Arc(x, w) in A[prev[x] as nat] && dist[prev[x]].r + w == dist[x].r;
    assert Arc(x, w) in A[prev[v := u][x] as nat] && dist[v := Fin(d)][prev[x]].r + w == dist[v := Fin(d)][x].r;
  }

  lemma RelaxQueue(n: nat, dist: seq<Dist>, pq: seq<Entry>, rank: map<nat, nat>, du: real, v: nat, nd: real)
    requires |dist| == n && (forall s :: s in rank ==> s < n && dist[s].Fin? && dist[s].r <= du)
    requires Queue(n, dist, pq, rank, du)
    requires v < n && v !in rank && nd >= du && Shorter(nd, dist[v])
    ensures Queue(n, dist[v := Fin(nd)], pq + [Entry(nd, v)], rank, du)
  {
    var dist', pq' := dist[v := Fin(nd)], pq + [Entry(nd, v)];
    forall i, j | 0 <= i < j < |pq'| ensures Apart(pq', i, j) {
      if j == |pq| {
        assert pq'[i] == pq[i] && pq[i] in pq;
      } else {
        assert pq'[i] == pq[i] && pq'[j] == pq[j] && Apart(pq, i, j);
      }
    }
    forall e | e in pq' ensures e.node < n && dist'[e.node].Fin? && e.d >= dist'[e.node].r {
      if e != Entry(nd, v) {
        assert e in pq;
      }
    }
    forall x | 0 <= x < n && x !in rank && dist'[x].Fin? ensures Queued(dist', pq', x) {
      if x != v {
        assert Queued(dist, pq, x);
      }
    }
  }

  lemma RelaxedKept(A: Adj, n: nat, dist: seq<Dist>, rank: map<nat, nat>, u: nat, v: nat, nd: real)
    requires |dist| == n && (forall s :: s in rank ==> s < n) && v < n && v !in rank && Shorter(nd, dist[v])
    requires Relaxed(A, n, dist, rank, u)
    ensures Relaxed(A, n, dist[v := Fin(nd)], rank, u)
  {
    forall s | s in rank && s != u ensures s in A && RelaxedArcs(n, dist[v := Fin(nd)], s, A[s]) {
      assert RelaxedAt(A, n, dist, s);
      RelaxedArcsKept(n, dist, s, A[s], v, nd);
    }
  }

  lemma RelaxedArcsKept(n: nat, dist: seq<Dist>, s: nat, arcs: seq<Arc>, v: nat, nd: real)
    requires |dist| == n && s < n && s != v && v < n && RelaxedArcs(n, dist, s, arcs) && Shorter(nd, dist[v])
    ensures RelaxedArcs(n, dist[v := Fin(nd)], s, arcs)
  {
  }

  lemma RelaxedArcsSnoc(n: nat, dist: seq<Dist>, s: nat, arcs: seq<Arc>, a: Arc)
    requires |dist| == n && s < n && RelaxedArcs(n, dist, s, arcs)
    requires a.to < n && dist[s].Fin? && dist[a.to].Fin? && dist[a.to].r <= dist[s].r + a.w
    ensures RelaxedArcs(n, dist, s, arcs + [a])
  {
  }

  /** An arc out of u improves only heads that are neither settled nor the source. */
  lemma ImprovedUnsettled(A: Adj, n: nat, src: nat, dist: seq<Dist>, prev: seq<int>, pq: seq<Entry>,
                          rank: map<nat, nat>, t: nat, u: nat, du: real, i: nat)
    requires WellFormed(A, n) && Inner(A, n, src, dist, prev, pq, rank, t, u, du, i) && i < |A[u]|
    requires A[u][i].to < n && Shorter(du + A[u][i].w, dist[A[u][i].to])
    ensures A[u][i].to !in rank && A[u][i].to != src && du + A[u][i].w >= du >= 0.0
  {
    assert A[u][i] in A[u];
  }

  /** A pass of the inner loop whose arc improves its head keeps the inner invariant. */
  lemma RelaxImproves(A: Adj, n: nat, src: nat, dist: seq<Dist>, prev: seq<int>, pq: seq<Entry>,
                      rank: map<nat, nat>, t: nat, u: nat, du: real, i: nat, v: nat, w: real,
                      dist': seq<Dist>, prev': seq<int>, pq': seq<Entry>)
    requires WellFormed(A, n) && Inner(A, n, src, dist, prev, pq, rank, t, u, du, i) && i < |A[u]|
    requires A[u][i] == Arc(v, w) && v < n && Shorter(du + w, dist[v])
    requires dist' == dist[v := Fin(du + w)] && prev' == prev[v := u] && pq' == pq + [Entry(du + w, v)]
    ensures Inner(A, n, src, dist', prev', pq', rank, t, u, du, i + 1)
  {
    var a := A[u][i];
    var nd := du + w;
    assert a in A[u];
    ImprovedUnsettled(A, n, src, dist, prev, pq, rank, t, u, du, i);
    assert Tree(A, n, src, dist', prev', rank, t) by {
      RelaxTree(A, n, src, dist, prev, rank, t, u, du, v, w);
    }
    assert Queue(n, dist', pq', rank, du) by {
      RelaxQueue(n, dist, pq, rank, du, v, nd);
    }
    assert Relaxed(A, n, dist', rank, u) by {
      RelaxedKept(A, n, dist, rank, u, v, nd);
    }
    assert RelaxedArcs(n, dist', u, A[u][..i + 1]) by {
      assert A[u][..i + 1] == A[u][..i] + [a];
      RelaxedArcsKept(n, dist, u, A[u][..i], v, nd);
      RelaxedArcsSnoc(n, dist', u, A[u][..i], a);
    }
  }

  /** A pass of the inner loop whose arc improves nothing keeps the inner invariant. */
  lemma RelaxKeeps(A: Adj, n: nat, src: nat, dist: seq<Dist>, prev: seq<int>, pq: seq<Entry>,
                   rank: map<nat, nat>, t: nat, u: nat, du: real, i: nat)
    requires WellFormed(A, n) && Inner(A, n, src, dist, prev, pq, rank, t, u, du, i) && i < |A[u]|
    requires A[u][i].to < n && !Shorter(du + A[u][i].w, dist[A[u][i].to])
    ensures Inner(A, n, src, dist, prev, pq, rank, t, u, du, i + 1)
  {
    var a := A[u][i];
    assert A[u][..i + 1] == A[u][..i] + [a];
    RelaxedArcsSnoc(n, dist, u, A[u][..i], a);
  }

  /** After the last arc of u every settled node is relaxed again. */
  lemma InnerDone(A: Adj, n: nat, src: nat, dist: seq<Dist>, prev: seq<int>, pq: seq<Entry>,
                  rank: map<nat, nat>, t: nat, u: nat, du: real)
    requires u in A && Inner(A, n, src, dist, prev, pq, rank, t, u, du, |A[u]|)
    ensures Tree(A, n, src, dist, prev, rank, t) && Queue(n, dist, pq, rank, du) && Relaxed(A, n, dist, rank, -1)
  {
    assert A[u][..|A[u]|] == A[u];
  }

  // ---------------------------------------------------------------------
  // What the invariant gives
  // ---------------------------------------------------------------------

  lemma WalkPrefix(A: Adj, p: seq<nat>, ws: seq<real>, k: nat)
    requires IsWalk(A, p, ws) && k <= |ws|
    ensures IsWalk(A, p[..k + 1], ws[..k])
  {
    var p', ws' := p[..k + 1], ws[..k];
    forall i | 0 <= i < |ws'| ensures p'[i] in A && Arc(p'[i + 1], ws'[i]) in A[p'[i]] {
      assert p'[i] == p[i] && p'[i + 1] == p[i + 1] && ws'[i] == ws[i];
    }
  }

  /** A walk from the source whose every node but the last is settled ends at a reached node, within the walk's weight. */
  lemma {:induction false} WalkThroughSettled(A: Adj, n: nat, src: nat, dist: seq<Dist>, rank: map<nat, nat>,
                                              p: seq<nat>, ws: seq<real>)
    requires |dist| == n && src < n && dist[src] == Fin(0.0) && (forall s :: s in rank ==> s < n)
    requires Relaxed(A, n, dist, rank, -1)
    requires IsWalk(A, p, ws) && p[0] == src && forall i :: 0 <= i < |p| - 1 ==> p[i] in rank
    ensures p[|p| - 1] < n && dist[p[|p| - 1]].Fin? && dist[p[|p| - 1]].r <= Sum(ws)
  {
    if ws != [] {
      var p', ws' := p[..|p| - 1], ws[..|ws| - 1];
      WalkPrefix(A, p, ws, |ws| - 1);
      WalkThroughSettled(A, n, src, dist, rank, p', ws');
      var x, y, w := p[|p| - 2], p[|p| - 1], ws[|ws| - 1];
      assert p'[|p'| - 1] == x;
      assert x in rank && Arc(y, w) in A[x];
      assert RelaxedAt(A, n, dist, x);
    }
  }

  /** The first unsettled node of a walk. */
  lemma {:induction false} FirstUnsettled(rank: map<nat, nat>, p: seq<nat>, m: nat) returns (y: nat)
    requires m < |p| && p[m] !in rank
    ensures y <= m && p[y] !in rank && forall i :: 0 <= i < y ==> p[i] in rank
  {
    if exists i :: 0 <= i < m && p[i] !in rank {
      var i :| 0 <= i < m && p[i] !in rank;
      y := FirstUnsettled(rank, p, i);
    } else {
      y := m;
    }
  }

  /**
   * Every walk from the source to an unsettled node weighs at least the
   * distance of some heap entry: the entry of the walk's first unsettled node.
   */
  lemma CrossingEntry(A: Adj, n: nat, src: nat, dist: seq<Dist>, pq: seq<Entry>, rank: map<nat, nat>, floor: real,
                      p: seq<nat>, ws: seq<real>, x: nat)
    requires WellFormed(A, n) && |dist| == n && src < n && dist[src] == Fin(0.0)
    requires Queue(n, dist, pq, rank, floor) && Relaxed(A, n, dist, rank, -1)
    requires WalkFrom(A, p, ws, src, x) && x !in rank
    ensures exists e :: e in pq && e.d <= Sum(ws)
  {
    var y := FirstUnsettled(rank, p, |p| - 1);
    WalkPrefix(A, p, ws, y);
    WalkThroughSettled(A, n, src, dist, rank, p[..y + 1], ws[..y]);
    WalkWeightsNonnegative(A, n, p, ws);
    SumPrefix(ws, y);
    assert p[..y + 1][y] == p[y];
    assert Queued(dist, pq, p[y]);
  }

  /** When an unsettled node is popped as a least entry, no walk to it is lighter than the entry. */
  lemma PoppedIsShortest(A: Adj, n: nat, src: nat, dist: seq<Dist>, pq: seq<Entry>, rank: map<nat, nat>, floor: real, e: Entry)
    requires WellFormed(A, n) && |dist| == n && src < n && dist[src] == Fin(0.0)
    requires Queue(n, dist, pq, rank, floor) && Relaxed(A, n, dist, rank, -1)
    requires (forall x :: x in pq ==> EntryLe(e, x)) && e.node !in rank
    ensures forall p, ws :: WalkFrom(A, p, ws, src, e.node) ==> e.d <= Sum(ws)
  {
    forall p, ws | WalkFrom(A, p, ws, src, e.node) ensures e.d <= Sum(ws) {
      CrossingEntry(A, n, src, dist, pq, rank, floor, p, ws, e.node);
    }
  }

  /** When the heap runs empty, every node still unsettled is unreached and unreachable. */
  lemma EmptyHeapUnreachable(A: Adj, n: nat, src: nat, dist: seq<Dist>, rank: map<nat, nat>, floor: real, x: nat)
    requires WellFormed(A, n) && |dist| == n && src < n && dist[src] == Fin(0.0)
    requires Queue(n, dist, [], rank, floor) && Relaxed(A, n, dist, rank, -1)
    requires x < n && x !in rank
    ensures dist[x].Inf? && !Reachable(A, src, x)
  {
    assert dist[x].Fin? ==> Queued(dist, [], x);
    if Reachable(A, src, x) {
      var p, ws :| WalkFrom(A, p, ws, src, x);
      CrossingEntry(A, n, src, dist, [], rank, floor, p, ws, x);
    }
  }

  /** The natural numbers below n. */
  function Below(n: nat): (r: set<nat>)
    ensures forall k: nat :: k in r <==> k < n
    ensures |r| == n
  {
    if n == 0 then {} else Below(n - 1) + {n - 1}
  }

  lemma {:induction false} SubsetSize(a: set<nat>, b: set<nat>)
    requires a <= b
    ensures |a| <= |b|
  {
    if a != {} {
      var x :| x in a;
      SubsetSize(a - {x}, b - {x});
    }
  }

  // ---------------------------------------------------------------------
  // The algorithm
  // ---------------------------------------------------------------------

  /** `reversed`: the same items, last first. */
  function Reverse(s: seq<nat>): (r: seq<nat>)
    ensures |r| == |s| && forall i :: 0 <= i < |s| ==> r[i] == s[|s| - 1 - i]
  {
    seq(|s|, i requires 0 <= i < |s| => s[|s| - 1 - i])
  }

  /** The settled nodes and the destination, by settling step, with their predecessor links. */
  ghost predicate PathTree(A: Adj, n: nat, src: nat, dist: seq<Dist>, prev: seq<int>, tree: map<nat, nat>)
  {
    Base(n, src, dist, prev) &&
    (forall v :: v in tree ==> v < n && dist[v].Fin?) &&
    (forall v {:trigger Hangs(A, dist, prev, tree, v)} :: v in tree && v != src ==> Hangs(A, dist, prev, tree, v)) &&
    Ordered(src, prev, tree)
  }

  lemma TreeToPathTree(A: Adj, n: nat, src: nat, dist: seq<Dist>, prev: seq<int>, rank: map<nat, nat>, t: nat, dst: nat)
    requires Tree(A, n, src, dist, prev, rank, t) && dst < n && dst !in rank && dist[dst].Fin?
    ensures PathTree(A, n, src, dist, prev, rank[dst := t])
  {
    var tree := rank[dst := t];
    forall v | v in tree && v != src ensures Hangs(A, dist, prev, tree, v) && After(prev, tree, v) {
      assert Hangs(A, dist, prev, rank, v);
      if v != dst {
        assert After(prev, rank, v);
      }
    }
  }

  /** The invariant of the main loop, with dst not yet settled. */
  ghost predicate Inv(A: Adj, n: nat, src: nat, dst: nat, dist: seq<Dist>, prev: seq<int>, pq: seq<Entry>,
                      rank: map<nat, nat>, t: nat, floor: real)
  {
    Tree(A, n, src, dist, prev, rank, t) && dst !in rank && Queue(n, dist, pq, rank, floor) && Relaxed(A, n, dist, rank, -1)
  }

  /** Before the first pop: only the source is reached, with its entry on the heap. */
  lemma Start(A: Adj, n: nat, src: nat, dst: nat)
    requires src < n
    ensures Inv(A, n, src, dst, seq(n, _ => Inf)[src := Fin(0.0)], seq(n, _ => -1), [Entry(0.0, src)], map[], 0, 0.0)
  {
    var dist: seq<Dist> := seq(n, _ => Inf)[src := Fin(0.0)];
    assert forall v :: 0 <= v < n && v != src ==> dist[v].Inf?;
  }

  /** A fresh pop of a node other than dst settles it, ready for its arcs to be relaxed. */
  lemma Settle(A: Adj, n: nat, src: nat, dst: nat, dist: seq<Dist>, prev: seq<int>, pq: seq<Entry>,
               rank: map<nat, nat>, t: nat, floor: real, k: nat, rest: seq<Entry>)
    requires Inv(A, n, src, dst, dist, prev, pq, rank, t, floor)
    requires k < |pq| && rest == pq[..k] + pq[k + 1..] && !Exceeds(pq[k].d, dist[pq[k].node]) && pq[k].node != dst
    requires forall x :: x in pq ==> EntryLe(pq[k], x)
    ensures var u := pq[k].node;
      u in A ==> Inner(A, n, src, dist, prev, rest, rank[u := t], t + 1, u, pq[k].d, 0)
    ensures pq[k].node !in rank && |rank[pq[k].node := t]| <= n
  {
    var u := pq[k].node;
    FreshNode(n, dist, pq, rank, floor, k);
    FreshQueue(n, dist, pq, rank, floor, t, k, rest);
    TreeExtend(A, n, src, dist, prev, rank, t, u);
    RankBound(rank[u := t], n);
    RelaxedSettle(A, n, dist, rank, t, u);
    if u in A {
      assert A[u][..0] == [];
    }
  }

  lemma RelaxedSettle(A: Adj, n: nat, dist: seq<Dist>, rank: map<nat, nat>, t: nat, u: nat)
    requires |dist| == n && Relaxed(A, n, dist, rank, -1)
    ensures Relaxed(A, n, dist, rank[u := t], u)
  {
  }

  /** At most n nodes can be settled. */
  lemma RankBound(rank: map<nat, nat>, n: nat)
    requires forall s :: s in rank ==> s < n
    ensures |rank| <= n
  {
    SubsetSize(rank.Keys, Below(n));
  }

  /** Popping dst fresh ends the search with its distance optimal. */
  lemma Arrive(A: Adj, n: nat, src: nat, dst: nat, dist: seq<Dist>, prev: seq<int>, pq: seq<Entry>,
               rank: map<nat, nat>, t: nat, floor: real, k: nat)
    requires WellFormed(A, n) && Inv(A, n, src, dst, dist, prev, pq, rank, t, floor)
    requires k < |pq| && !Exceeds(pq[k].d, dist[pq[k].node]) && pq[k].node == dst
    requires forall x :: x in pq ==> EntryLe(pq[k], x)
    ensures dist[dst].Fin?
    ensures forall p, ws :: WalkFrom(A, p, ws, src, dst) ==> dist[dst].r <= Sum(ws)
    ensures PathTree(A, n, src, dist, prev, rank[dst := t])
  {
    FreshNode(n, dist, pq, rank, floor, k);
    assert pq[k] in pq;
    PoppedIsShortest(A, n, src, dist, pq, rank, floor, pq[k]);
    TreeToPathTree(A, n, src, dist, prev, rank, t, dst);
  }

  /**
   * The main loop of `dijkstra`: settle nodes in order of distance until the
   * destination is popped or the heap runs empty.
   */
  method Search(A: Adj, n: nat, src: nat, dst: nat) returns (dist: seq<Dist>, prev: seq<int>, ghost tree: map<nat, nat>)
    requires src < n && dst < n && WellFormed(A, n)
    ensures |dist| == n && |prev| == n
    ensures dist[dst].Inf? ==> !Reachable(A, src, dst)
    ensures dist[dst].Fin? ==> forall p, ws :: WalkFrom(A, p, ws, src, dst) ==> dist[dst].r <= Sum(ws)
    ensures dist[dst].Fin? ==> dst in tree && PathTree(A, n, src, dist, prev, tree)
  {
    dist := seq(n, _ => Inf)[src := Fin(0.0)];
    prev := seq(n, _ => -1);
    var pq := [Entry(0.0, src)];
    ghost var rank: map<nat, nat> := map[];
    ghost var t: nat := 0;
    ghost var floor := 0.0;
    tree := map[];
    Start(A, n, src, dst);
    while pq != []
      invariant Inv(A, n, src, dst, dist, prev, pq, rank, t, floor)
      decreases n - |rank|, |pq|
    {
      var e, rest := PopMin(pq);
      ghost var k :| 0 <= k < |pq| && e == pq[k] && rest == pq[..k] + pq[k + 1..];
      ghost var pq0 := pq;
      pq := rest;
      var du, u := e.d, e.node;
      if Exceeds(du, dist[u]) {
        StalePop(n, dist, pq0, rank, floor, k, rest);
        continue;
      }
      if u == dst {
        Arrive(A, n, src, dst, dist, prev, pq0, rank, t, floor, k);
        tree := rank[dst := t];
        return;
      }
      Settle(A, n, src, dst, dist, prev, pq0, rank, t, floor, k, rest);
      rank := rank[u := t];
      t := t + 1;
      floor := du;
      dist, prev, pq := RelaxAll(A, n, src, u, du, dist, prev, pq, rank, t);
    }
    EmptyHeapUnreachable(A, n, src, dist, rank, floor, dst);
  }

  /** The inner loop of `dijkstra`: relax every arc out of the node u just settled at distance du. */
  method RelaxAll(A: Adj, n: nat, src: nat, u: nat, du: real, dist0: seq<Dist>, prev0: seq<int>, pq0: seq<Entry>,
                  ghost rank: map<nat, nat>, ghost t: nat)
    returns (dist: seq<Dist>, prev: seq<int>, pq: seq<Entry>)
    requires WellFormed(A, n) && u in A && Inner(A, n, src, dist0, prev0, pq0, rank, t, u, du, 0)
    ensures Tree(A, n, src, dist, prev, rank, t) && Queue(n, dist, pq, rank, du) && Relaxed(A, n, dist, rank, -1)
  {
    dist, prev, pq := dist0, prev0, pq0;
    var arcs := A[u];
    for i := 0 to |arcs|
      invariant Inner(A, n, src, dist, prev, pq, rank, t, u, du, i)
    {
      var v, w := arcs[i].to, arcs[i].w;
      assert arcs[i] in A[u];
      var nd := du + w;
      if Shorter(nd, dist[v]) {
        ghost var dist1, prev1, pq1 := dist, prev, pq;
        dist := dist[v := Fin(nd)];
        prev := prev[v := u];
        pq := pq + [Entry(nd, v)];
        RelaxImproves(A, n, src, dist1, prev1, pq1, rank, t, u, du, i, v, w, dist, prev, pq);
      } else {
        RelaxKeeps(A, n, src, dist, prev, pq, rank, t, u, du, i);
      }
    }
    InnerDone(A, n, src, dist, prev, pq, rank, t, u, du);
  }

  /** The path reconstruction of `dijkstra`: follow predecessor links back from dst, then reverse. */
  method PathTo(A: Adj, n: nat, src: nat, dst: nat, dist: seq<Dist>, prev: seq<int>, ghost tree: map<nat, nat>)
    returns (path: seq<nat>)
    requires PathTree(A, n, src, dist, prev, tree) && dst in tree
    ensures exists ws :: WalkFrom(A, path, ws, src, dst) && Sum(ws) == dist[dst].r
  {
    path := [];
    var cur: int := dst;
    ghost var walk: seq<nat> := [];
    ghost var ws: seq<real> := [];
    while cur != -1
      invariant cur == -1 || (0 <= cur < n && cur in tree)
      invariant walk == Reverse(path)
      invariant path == [] ==> cur == dst && ws == []
      invariant path != [] ==>
                  IsWalk(A, walk, ws) && walk[|walk| - 1] == dst && walk[0] in tree &&
                  dist[walk[0]].r + Sum(ws) == dist[dst].r && cur == prev[walk[0]] &&
                  (cur == -1 ==> walk[0] == src)
      decreases if cur < 0 then 0 else tree[cur as nat] + 1
    {
      ReverseSnoc(path, cur);
      if path != [] {
        var x := walk[0];
        assert x != src && Hangs(A, dist, prev, tree, x);
        ghost var w :| Arc(x, w) in A[cur as nat] && dist[cur].r + w == dist[x].r;
        SumCons(w, ws);
        WalkCons(A, cur, w, walk, ws);
        ws := [w] + ws;
      }
      walk := [cur] + walk;
      if cur != src {
        assert Hangs(A, dist, prev, tree, cur) && After(prev, tree, cur);
      }
      path := path + [cur];
      cur := prev[cur];
    }
    path := Reverse(path);
  }

  lemma ReverseSnoc(s: seq<nat>, x: nat)
    ensures Reverse(s + [x]) == [x] + Reverse(s)
  {
    assert forall i :: 1 <= i <= |s| ==> Reverse(s + [x])[i] == Reverse(s)[i - 1];
  }

  lemma WalkCons(A: Adj, x: nat, w: real, p: seq<nat>, ws: seq<real>)
    requires IsWalk(A, p, ws) && x in A && Arc(p[0], w) in A[x]
    ensures IsWalk(A, [x] + p, [w] + ws)
  {
    var p', ws' := [x] + p, [w] + ws;
    forall i | 0 <= i < |ws'| ensures p'[i] in A && Arc(p'[i + 1], ws'[i]) in A[p'[i]] {
      if i > 0 {
        assert p'[i] == p[i - 1] && p'[i + 1] == p[i] && ws'[i] == ws[i - 1];
      }
    }
  }

  /**
   * `dijkstra`: the distance from src to dst and a path realising it, or
   * `math.inf` and no path when dst cannot be reached.
   */
  method Dijkstra(g: Graph, src: nat, dst: nat) returns (d: Dist, path: seq<nat>)
    requires src < |g.nodes| && dst < |g.nodes| && WellFormed(g.adj, |g.nodes|)
    ensures d.Inf? <==> !Reachable(g.adj, src, dst)
    ensures d.Inf? ==> path == []
    ensures d.Fin? ==> exists ws :: WalkFrom(g.adj, path, ws, src, dst) && Sum(ws) == d.r
    ensures d.Fin? ==> forall p, ws :: WalkFrom(g.adj, p, ws, src, dst) ==> d.r <= Sum(ws)
  {
    var dist, prev, tree := Search(g.adj, |g.nodes|, src, dst);
    if !dist[dst].Fin? {
      return Inf, [];
    }
    path := PathTo(g.adj, |g.nodes|, src, dst, dist, prev, tree);
    d := dist[dst];
  }

  /** The graph `build_visibility_graph` returns is one Dijkstra can run on, as long as distances are non-negative. */
  lemma BuiltGraphWellFormed(nodes: seq<Coord>, u: Region, euclid: (Coord, Coord) -> real, adj: Adj)
    requires forall a, b :: euclid(a, b) >= 0.0
    requires forall k: nat :: k in adj <==> k < |nodes|
    requires forall k :: 0 <= k < |nodes| ==> adj[k] == Adjacency(nodes, u, euclid, k)
    ensures WellFormed(adj, |nodes|)
  {
    forall k, a | k in adj && a in adj[k] ensures a.to < |nodes| && a.w >= 0.0 {
      AdjacencyFacts(nodes, u, euclid, k);
    }
  }
}
