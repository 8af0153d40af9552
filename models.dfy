/**
 * Scene and target records (mtvg/models.py): the overall time span of a
 * target's windows, the scene's graph points, and clamped straight-line
 * trajectories.
 */
module Models {
  import opened Geometry

  /** A time window (t0, tf). */
  datatype Window = Window(t0: real, tf: real)

  datatype Depot = Depot(xy: Coord)

  /** The smallest window start. */
  function MinStart(ws: seq<Window>): (r: real)
    requires ws != []
    ensures forall k :: 0 <= k < |ws| ==> r <= ws[k].t0
    ensures exists k :: 0 <= k < |ws| && ws[k].t0 == r
  {
    if |ws| == 1 then ws[0].t0
    else
      var rest := MinStart(ws[1..]);
      assert forall k :: 1 <= k < |ws| ==> ws[k] == ws[1..][k - 1];
      if ws[0].t0 <= rest then ws[0].t0 else rest
  }

  /** The largest window end. */
  function MaxEnd(ws: seq<Window>): (r: real)
    requires ws != []
    ensures forall k :: 0 <= k < |ws| ==> ws[k].tf <= r
    ensures exists k :: 0 <= k < |ws| && ws[k].tf == r
  {
    if |ws| == 1 then ws[0].tf
    else
      var rest := MaxEnd(ws[1..]);
      assert forall k :: 1 <= k < |ws| ==> ws[k] == ws[1..][k - 1];
      if ws[0].tf >= rest then ws[0].tf else rest
  }

  /** A moving target: its trajectory and the windows in which it may be served. */
  datatype Target = Target(id: int, xy: real -> Coord, windows: seq<Window>, name: string)
  {
    /** `domain`: the overall time span covered by the windows. */
    function Domain(): (r: Window)
      ensures windows == [] ==> r == Window(0.0, 0.0)
      ensures forall k :: 0 <= k < |windows| ==> r.t0 <= windows[k].t0 && windows[k].tf <= r.tf
      ensures windows != [] ==>
                (exists k :: 0 <= k < |windows| && windows[k].t0 == r.t0) &&
                (exists k :: 0 <= k < |windows| && windows[k].tf == r.tf)
    {
      if windows == [] then Window(0.0, 0.0) else Window(MinStart(windows), MaxEnd(windows))
    }
  }

  /** A planning scene: obstacles, the agent's top speed and its depot. */
  datatype Scene = Scene(obstacles: seq<Obstacle>, vMax: real, depot: Depot)
  {
    /** `as_points`: the points every visibility graph of the scene must hold — the depot only. */
    function AsPoints(): (r: seq<Coord>)
      ensures |r| == 1 && r[0] == depot.xy
    {
      [depot.xy]
    }
  }

  /** The smallest duration a straight-line trajectory divides by, 1e-12. */
  const MinDuration: real := 0.000000000001

  function Duration(t0: real, tf: real): (d: real)
    ensures d > 0.0 && d >= tf - t0
  {
    if tf - t0 >= MinDuration then tf - t0 else MinDuration
  }

  /** The position at time t of the trajectory `make_linear_xy(p0, p1, t0, tf)`. */
  function LinearAt(p0: Coord, p1: Coord, t0: real, tf: real, t: real): (p: Coord)
    ensures t <= t0 ==> p == p0
    ensures t0 < t && tf <= t ==> p == p1
    ensures t0 < t < tf ==>
              var alpha := (t - t0) / Duration(t0, tf);
              0.0 < alpha < 1.0 &&
              p == Coord(p0.x + alpha * (p1.x - p0.x), p0.y + alpha * (p1.y - p0.y))
  {
    var dx, dy := p1.x - p0.x, p1.y - p0.y;
    if t <= t0 then p0
    else if t >= tf then p1
    else
      var alpha := (t - t0) / Duration(t0, tf);
      Coord(p0.x + alpha * dx, p0.y + alpha * dy)
  }

  /** `make_linear_xy`: the trajectory as a function of time. */
  function MakeLinearXY(p0: Coord, p1: Coord, t0: real, tf: real): (xy: real -> Coord)
    ensures forall t :: xy(t) == LinearAt(p0, p1, t0, tf, t)
  {
    t => LinearAt(p0, p1, t0, tf, t)
  }

  lemma MulNonnegative(a: real, b: real)
    requires a >= 0.0 && b >= 0.0
    ensures a * b >= 0.0
  {
  }

  /** A fraction alpha in [0, 1] of a displacement d lies between 0 and d. */
  lemma ScaledBetween(alpha: real, d: real, s: real)
    requires 0.0 <= alpha <= 1.0 && s == alpha * d
    ensures (0.0 <= s <= d) || (d <= s <= 0.0)
  {
    if d >= 0.0 {
      MulNonnegative(1.0 - alpha, d);
      MulNonnegative(alpha, d);
    } else {
      MulNonnegative(1.0 - alpha, -d);
      MulNonnegative(alpha, -d);
    }
  }

  /** At every time the target lies on the segment p0-p1, coordinate by coordinate. */
  lemma LinearStaysOnSegment(p0: Coord, p1: Coord, t0: real, tf: real, t: real)
    ensures var p := LinearAt(p0, p1, t0, tf, t);
      (p0.x <= p.x <= p1.x || p1.x <= p.x <= p0.x) &&
      (p0.y <= p.y <= p1.y || p1.y <= p.y <= p0.y)
  {
    if t0 < t < tf {
      var alpha := (t - t0) / Duration(t0, tf);
      var p := LinearAt(p0, p1, t0, tf, t);
      assert 0.0 < alpha < 1.0;
      ScaledBetween(alpha, p1.x - p0.x, p.x - p0.x);
      ScaledBetween(alpha, p1.y - p0.y, p.y - p0.y);
    }
  }

  /** The midpoint example: from (0,0) to (10,0) over [0, 10], the position at time 5 is (5, 0). */
  lemma LinearMidpointExample()
    ensures LinearAt(Coord(0.0, 0.0), Coord(10.0, 0.0), 0.0, 10.0, 5.0) == Coord(5.0, 0.0)
  {
  }
}
