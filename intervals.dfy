/**
 * Visibility windows of a moving target seen from a fixed point
 * (mtvg/intervals.py).
 *
 * The time window is sampled uniformly; every maximal run of visible samples
 * becomes a candidate interval whose open edges are refined by bisection;
 * optionally each candidate is then clipped to the times at which an agent
 * leaving the fixed point no earlier than a given departure time can arrive.
 *
 * The geometric test `visible(q, tau(t), union)` is taken as an oracle
 * `vis: real -> bool` over time, and the distance `hypot(q - tau(t))` as an
 * oracle `dist: real -> real`; both are parameters.
 */
module Intervals {
  import opened Wrappers
  import opened Geometry
  import opened Models

  /** A time interval (lo, hi). */
  datatype Interval = Interval(lo: real, hi: real)

  /** The two ways `visible_intervals` fails. */
  datatype Error =
    | MissingEarliestDeparture   // ValueError: kinematic filter without a departure time
    | DivisionByZero             // ZeroDivisionError: `d / v_max` with `v_max == 0`

  /** Iteration budgets and the default tolerance of the source. */
  const RefineIterations: int := 40
  const ClipIterations: nat := 50
  const DefaultRefineTol: real := 0.00001

  /** Strictly increasing sequence of reals. */
  ghost predicate Increasing(s: seq<real>)
  {
    forall i, j :: 0 <= i < j < |s| ==> s[i] < s[j]
  }

  // ---------------------------------------------------------------------
  // Sampling
  // ---------------------------------------------------------------------

  /** The k-th of n > 1 evenly spaced samples of [t0, tf]. */
  function Sample(t0: real, tf: real, n: int, k: int): real
    requires n > 1
  {
    t0 + (tf - t0) * (k as real) / ((n - 1) as real)
  }

  /** `_sample_times`: two samples when n <= 1, otherwise n evenly spaced ones. */
  function SampleTimes(t0: real, tf: real, n: int): (r: seq<real>)
    ensures n <= 1 ==> r == [t0, tf]
    ensures n > 1 ==> |r| == n
    ensures |r| >= 2 && r[0] == t0 && r[|r| - 1] == tf
  {
    if n <= 1 then [t0, tf]
    else seq(n, k => Sample(t0, tf, n, k))
  }

  lemma MulLess(d: real, x: real, y: real)
    requires d > 0.0 && x < y
    ensures d * x < d * y
  {
    assert d * y - d * x == d * (y - x);
  }

  lemma DivideMonotone(a: real, b: real, m: real)
    requires m > 0.0 && a <= b
    ensures a / m <= b / m
    ensures a < b ==> a / m < b / m
  {
    assert b / m - a / m == (b - a) / m;
  }

  /** Later samples of a proper window are strictly later. */
  lemma SampleLess(t0: real, tf: real, n: int, i: int, j: int)
    requires t0 < tf && n > 1 && i < j
    ensures Sample(t0, tf, n, i) < Sample(t0, tf, n, j)
  {
    var d, m := tf - t0, (n - 1) as real;
    MulLess(d, i as real, j as real);
    DivideMonotone(d * (i as real), d * (j as real), m);
  }

  /** Every sample of a proper window lies in it. */
  lemma SampleWithin(t0: real, tf: real, n: int, k: int)
    requires t0 < tf && n > 1 && 0 <= k < n
    ensures t0 <= Sample(t0, tf, n, k) <= tf
  {
    var d, m, x := tf - t0, (n - 1) as real, k as real;
    if k > 0 {
      MulLess(d, 0.0, x);
    }
    DivideMonotone(0.0, d * x, m);
    if k < n - 1 {
      MulLess(d, x, m);
    }
    DivideMonotone(d * x, d * m, m);
    assert d * m / m == d;
  }

  /** The samples of a proper window increase strictly from t0 to tf; those
      of an empty window all equal t0. */
  lemma SampleTimesIncreasing(t0: real, tf: real, n: int)
    requires t0 <= tf
    ensures t0 < tf ==> Increasing(SampleTimes(t0, tf, n))
    ensures forall k :: 0 <= k < |SampleTimes(t0, tf, n)| ==> t0 <= SampleTimes(t0, tf, n)[k] <= tf
    ensures t0 == tf ==> forall k :: 0 <= k < |SampleTimes(t0, tf, n)| ==> SampleTimes(t0, tf, n)[k] == t0
  {
    var r := SampleTimes(t0, tf, n);
    if t0 == tf {
      if n > 1 {
        forall k | 0 <= k < |r|
          ensures r[k] == t0
        {
          assert (tf - t0) * (k as real) == 0.0;
        }
      }
    } else if n > 1 {
      forall i, j | 0 <= i < j < |r|
        ensures r[i] < r[j]
      {
        SampleLess(t0, tf, n, i, j);
      }
      forall k | 0 <= k < |r|
        ensures t0 <= r[k] <= tf
      {
        SampleWithin(t0, tf, n, k);
      }
    }
  }

  /** The visibility of every sample. */
  function Flags(vis: real -> bool, times: seq<real>): (r: seq<bool>)
    ensures |r| == |times|
    ensures forall k :: 0 <= k < |times| ==> r[k] == vis(times[k])
  {
    seq(|times|, k requires 0 <= k < |times| => vis(times[k]))
  }

  // ---------------------------------------------------------------------
  // Bisection of a visibility edge
  // ---------------------------------------------------------------------

  /** One bisection step: the half that keeps `want` at its left end. */
  function Step(vis: real -> bool, a: real, b: real, want: bool): (real, real)
  {
    var m := 0.5 * (a + b);
    if vis(m) == want then (m, b) else (a, m)
  }

  /** A step keeps the half that is still bracketed: half as wide, inside the
      old bracket, and each moved end lands on the side it stands for. */
  lemma StepFacts(vis: real -> bool, a: real, b: real, want: bool)
    ensures var r := Step(vis, a, b, want);
      && (a <= b ==> a <= r.0 <= r.1 <= b)
      && (a < b ==> r.0 < r.1)
      && r.1 - r.0 == (b - a) / 2.0
      && (vis(r.0) == want || r.0 == a)
      && (vis(r.1) != want || r.1 == b)
  {
  }

  /** The bracket after at most `fuel` steps, stopping once narrower than `tol`. */
  function Refine(vis: real -> bool, a: real, b: real, want: bool, tol: real, fuel: nat): (real, real)
    decreases fuel
  {
    if fuel == 0 then (a, b)
    else
      var s := Step(vis, a, b, want);
      if Abs(s.1 - s.0) < tol then s else Refine(vis, s.0, s.1, want, tol, fuel - 1)
  }

  /** What `_binary_refine_visibility` returns: the end of the final bracket that
      holds `want` when it started out that way. */
  function RefineResult(vis: real -> bool, tLo: real, tHi: real, want: bool, tol: real, maxIter: int): real
  {
    var r := Refine(vis, tLo, tHi, want, tol, if maxIter < 0 then 0 else maxIter);
    if want then r.0 else r.1
  }

  /** `(b - a) / 2^k`. */
  function Halved(w: real, k: nat): real
  {
    if k == 0 then w else Halved(w, k - 1) / 2.0
  }

  /** The final bracket lies inside the first and stays proper. */
  lemma {:induction false} RefineBracket(vis: real -> bool, a: real, b: real, want: bool, tol: real, fuel: nat)
    requires a <= b
    ensures a <= Refine(vis, a, b, want, tol, fuel).0 <= Refine(vis, a, b, want, tol, fuel).1 <= b
    ensures a < b ==> Refine(vis, a, b, want, tol, fuel).0 < Refine(vis, a, b, want, tol, fuel).1
    decreases fuel
  {
    if fuel > 0 {
      var s := Step(vis, a, b, want);
      StepFacts(vis, a, b, want);
      if Abs(s.1 - s.0) >= tol {
        RefineBracket(vis, s.0, s.1, want, tol, fuel - 1);
      }
    }
  }

  /** How many steps `Refine` takes. */
  function RefineSteps(vis: real -> bool, a: real, b: real, want: bool, tol: real, fuel: nat): (k: nat)
    ensures k <= fuel && (fuel > 0 ==> k >= 1)
    decreases fuel
  {
    if fuel == 0 then 0
    else
      var s := Step(vis, a, b, want);
      if Abs(s.1 - s.0) < tol then 1 else 1 + RefineSteps(vis, s.0, s.1, want, tol, fuel - 1)
  }

  /** Each step halves the bracket: after its k steps the width is (b - a) / 2^k. */
  lemma {:induction false} RefineHalves(vis: real -> bool, a: real, b: real, want: bool, tol: real, fuel: nat)
    ensures Refine(vis, a, b, want, tol, fuel).1 - Refine(vis, a, b, want, tol, fuel).0
      == Halved(b - a, RefineSteps(vis, a, b, want, tol, fuel))
    decreases fuel
  {
    if fuel > 0 {
      var s := Step(vis, a, b, want);
      var w := s.1 - s.0;
      assert w == (b - a) / 2.0;
      if Abs(w) >= tol {
        var k := RefineSteps(vis, s.0, s.1, want, tol, fuel - 1);
        RefineHalves(vis, s.0, s.1, want, tol, fuel - 1);
        HalvedShift(b - a, k);
      }
    }
  }

  lemma {:induction false} HalvedShift(w: real, k: nat)
    ensures Halved(w / 2.0, k) == Halved(w, k + 1)
    decreases k
  {
    if k > 0 {
      HalvedShift(w, k - 1);
    }
  }

  /** The left end of the bracket keeps `want` if it had it at the start; the
      right end keeps `!want` if it had it at the start. */
  lemma {:induction false} RefineKeepsEnds(vis: real -> bool, a: real, b: real, want: bool, tol: real, fuel: nat)
    ensures vis(a) == want ==> vis(Refine(vis, a, b, want, tol, fuel).0) == want
    ensures vis(b) != want ==> vis(Refine(vis, a, b, want, tol, fuel).1) != want
    decreases fuel
  {
    if fuel > 0 {
      var s := Step(vis, a, b, want);
      StepFacts(vis, a, b, want);
      if Abs(s.1 - s.0) >= tol {
        RefineKeepsEnds(vis, s.0, s.1, want, tol, fuel - 1);
      }
    }
  }

  /** When no time of the bracket holds `want`, the left end never moves. */
  lemma {:induction false} RefineStuck(vis: real -> bool, a: real, b: real, want: bool, tol: real, fuel: nat)
    requires a <= b
    requires forall t :: a <= t <= b ==> vis(t) != want
    ensures Refine(vis, a, b, want, tol, fuel).0 == a
    decreases fuel
  {
    if fuel > 0 {
      var s := Step(vis, a, b, want);
      StepFacts(vis, a, b, want);
      if Abs(s.1 - s.0) >= tol {
        RefineStuck(vis, s.0, s.1, want, tol, fuel - 1);
      }
    }
  }

  lemma RefineUnfold(vis: real -> bool, a: real, b: real, want: bool, tol: real, fuel: nat)
    requires fuel > 0
    ensures var s := Step(vis, a, b, want);
      Refine(vis, a, b, want, tol, fuel)
      == if Abs(s.1 - s.0) < tol then s else Refine(vis, s.0, s.1, want, tol, fuel - 1)
  {
  }

  /** The loop of `_binary_refine_visibility`. */
  method Bisect(vis: real -> bool, tLo: real, tHi: real, want: bool, tol: real, iters: nat)
    returns (a: real, b: real)
    ensures (a, b) == Refine(vis, tLo, tHi, want, tol, iters)
  {
    ghost var goal := Refine(vis, tLo, tHi, want, tol, iters);
    a, b := tLo, tHi;
    var fa := vis(a);
    var k := 0;
    while k < iters
      invariant 0 <= k <= iters
      invariant Refine(vis, a, b, want, tol, iters - k) == goal
    {
      RefineUnfold(vis, a, b, want, tol, iters - k);
      ghost var s := Step(vis, a, b, want);
      var m := 0.5 * (a + b);
      var fm := vis(m);
      if fm == want {
        a := m;
        fa := fm;
      } else {
        b := m;
      }
      assert (a, b) == s;
      if Abs(b - a) < tol {
        return;
      }
      k := k + 1;
    }
  }

  /** `_binary_refine_visibility`: bisection of [tLo, tHi] for at most `maxIter`
      steps, stopping once the bracket is narrower than `tol`. */
  method BinaryRefineVisibility(vis: real -> bool, tLo: real, tHi: real, want: bool, tol: real, maxIter: int)
    returns (t: real)
    ensures t == RefineResult(vis, tLo, tHi, want, tol, maxIter)
    ensures tLo <= tHi ==> tLo <= t <= tHi
    ensures want && vis(tLo) ==> vis(t)
    ensures !want && vis(tHi) ==> vis(t)
  {
    var iters: nat := if maxIter < 0 then 0 else maxIter;
    var a, b := Bisect(vis, tLo, tHi, want, tol, iters);
    if tLo <= tHi {
      RefineBracket(vis, tLo, tHi, want, tol, iters);
    }
    RefineKeepsEnds(vis, tLo, tHi, want, tol, iters);
    t := if want then a else b;
  }

  /** The left-edge call refines towards the last time that is NOT visible, yet
      it asks for `want = true` from a non-visible start: when the target becomes
      visible at 0.6 between samples 0.0 and 1.0 the first step lands at 0.5,
      nothing in [0, 0.5] is visible, and the reported left edge is the
      non-visible sample 0.0 itself. */
  lemma LeftEdgeStaysOnHiddenSample()
    ensures var vis := (t: real) => t >= 0.6;
      RefineResult(vis, 0.0, 1.0, true, DefaultRefineTol, RefineIterations) == 0.0 && !vis(0.0)
  {
    var vis := (t: real) => t >= 0.6;
    var s := Step(vis, 0.0, 1.0, true);
    assert s == (0.0, 0.5);
    RefineStuck(vis, 0.0, 0.5, true, DefaultRefineTol, 39);
    assert Refine(vis, 0.0, 1.0, true, DefaultRefineTol, 40) == Refine(vis, 0.0, 0.5, true, DefaultRefineTol, 39);
  }

  // ---------------------------------------------------------------------
  // Runs of visible samples
  // ---------------------------------------------------------------------

  /** A block of sample indices start..end (both included). */
  datatype Run = Run(start: nat, end: nat)

  /** A maximal block of visible samples. */
  ghost predicate IsRun(flags: seq<bool>, r: Run)
  {
    r.start <= r.end < |flags|
    && (forall t :: r.start <= t <= r.end ==> flags[t])
    && (r.start == 0 || !flags[r.start - 1])
    && (r.end + 1 == |flags| || !flags[r.end + 1])
  }

  /** The last index of the visible block that continues from `i`. */
  function RunEnd(flags: seq<bool>, i: nat): (j: nat)
    requires i < |flags| && flags[i]
    ensures i <= j < |flags|
    ensures j + 1 == |flags| || !flags[j + 1]
    decreases |flags| - i
  {
    if i + 1 < |flags| && flags[i + 1] then RunEnd(flags, i + 1) else i
  }

  /** Every sample of the block from `i` to its end is visible. */
  lemma {:induction false} RunEndVisible(flags: seq<bool>, i: nat)
    requires i < |flags| && flags[i]
    ensures forall t :: i <= t <= RunEnd(flags, i) ==> flags[t]
    decreases |flags| - i
  {
    if i + 1 < |flags| && flags[i + 1] {
      RunEndVisible(flags, i + 1);
    }
  }

  /** The visible blocks from index `i` on, in order. */
  function RunsFrom(flags: seq<bool>, i: nat): (r: seq<Run>)
    requires i <= |flags|
    ensures forall k :: 0 <= k < |r| ==> i <= r[k].start <= r[k].end < |flags|
    decreases |flags| - i
  {
    if i == |flags| then []
    else if flags[i] then
      var j := RunEnd(flags, i);
      [Run(i, j)] + RunsFrom(flags, j + 1)
    else RunsFrom(flags, i + 1)
  }

  /** A block boundary: the first index, the end, an index after a hidden
      sample, or a hidden sample. */
  ghost predicate Boundary(flags: seq<bool>, i: nat)
  {
    i == 0 || i >= |flags| || !flags[i - 1] || !flags[i]
  }

  /** Every block found from a boundary `i` is maximal and starts at or after `i`. */
  lemma {:induction false} RunsMaximal(flags: seq<bool>, i: nat)
    requires i <= |flags| && Boundary(flags, i)
    ensures forall k :: 0 <= k < |RunsFrom(flags, i)| ==>
      IsRun(flags, RunsFrom(flags, i)[k]) && i <= RunsFrom(flags, i)[k].start
    decreases |flags| - i
  {
    if i < |flags| {
      if flags[i] {
        var j := RunEnd(flags, i);
        RunEndVisible(flags, i);
        RunsMaximal(flags, j + 1);
        assert RunsFrom(flags, i) == [Run(i, j)] + RunsFrom(flags, j + 1);
      } else {
        RunsMaximal(flags, i + 1);
      }
    }
  }

  /** Consecutive blocks are separated by at least one hidden sample. */
  lemma {:induction false} RunsSeparated(flags: seq<bool>, i: nat)
    requires i <= |flags|
    ensures forall k :: 0 <= k < |RunsFrom(flags, i)| - 1 ==>
      RunsFrom(flags, i)[k].end + 1 < RunsFrom(flags, i)[k + 1].start
    decreases |flags| - i
  {
    if i < |flags| {
      if flags[i] {
        var j := RunEnd(flags, i);
        var rest := RunsFrom(flags, j + 1);
        RunsSeparated(flags, j + 1);
        assert RunsFrom(flags, i) == [Run(i, j)] + rest;
        if rest != [] {
          assert j + 1 < |flags| && !flags[j + 1];
          assert rest[0].start != j + 1;
        }
      } else {
        RunsSeparated(flags, i + 1);
      }
    }
  }

  /** Sample `t` lies in one of the blocks. */
  ghost predicate Covered(runs: seq<Run>, t: nat)
  {
    exists k :: 0 <= k < |runs| && runs[k].start <= t <= runs[k].end
  }

  /** The blocks cover every visible sample from `i` on. */
  lemma {:induction false} RunsCover(flags: seq<bool>, i: nat)
    requires i <= |flags|
    ensures forall t :: i <= t < |flags| && flags[t] ==> Covered(RunsFrom(flags, i), t)
    decreases |flags| - i
  {
    var runs := RunsFrom(flags, i);
    if i < |flags| {
      if flags[i] {
        var j := RunEnd(flags, i);
        var rest := RunsFrom(flags, j + 1);
        RunsCover(flags, j + 1);
        assert runs == [Run(i, j)] + rest;
        forall t | i <= t < |flags| && flags[t]
          ensures Covered(runs, t)
        {
          if t <= j {
            assert runs[0].start <= t <= runs[0].end;
          } else {
            assert Covered(rest, t);
            var k :| 0 <= k < |rest| && rest[k].start <= t <= rest[k].end;
            assert runs[k + 1] == rest[k];
          }
        }
      } else {
        RunsCover(flags, i + 1);
        assert runs == RunsFrom(flags, i + 1);
      }
    }
  }

  // ---------------------------------------------------------------------
  // Candidate intervals
  // ---------------------------------------------------------------------

  /** The refinement of an edge between a hidden and a visible sample (in
      either order): `_binary_refine_visibility` towards visibility with the
      default budget. */
  function RefineEdge(vis: real -> bool, tol: real): (real, real) -> real
  {
    (a: real, b: real) => RefineResult(vis, a, b, true, tol, RefineIterations)
  }

  /** A run with its open edges refined by `edge`: an edge next to a hidden
      sample is refined, an edge at the first or last sample is kept. */
  function Span(times: seq<real>, flags: seq<bool>, edge: (real, real) -> real, r: Run): Interval
    requires |flags| == |times|
    requires r.start <= r.end < |times|
  {
    Interval(LeftEdge(times, flags, edge, r.start), RightEdge(times, flags, edge, r.end))
  }

  /** The left edge of a block starting at sample `i`. */
  function LeftEdge(times: seq<real>, flags: seq<bool>, edge: (real, real) -> real, i: nat): real
    requires |flags| == |times| && i < |times|
  {
    if i > 0 && !flags[i - 1] then edge(times[i - 1], times[i]) else times[i]
  }

  /** The right edge of a block ending at sample `j`. */
  function RightEdge(times: seq<real>, flags: seq<bool>, edge: (real, real) -> real, j: nat): real
    requires |flags| == |times| && j < |times|
  {
    if j + 1 < |times| && !flags[j + 1] then edge(times[j], times[j + 1]) else times[j]
  }

  /** The candidate intervals of the run scan from index `i` on. */
  function CandidatesFrom(times: seq<real>, flags: seq<bool>, edge: (real, real) -> real, i: nat): seq<Interval>
    requires |flags| == |times| && i <= |times|
    decreases |times| - i
  {
    if i == |times| then []
    else if flags[i] then
      var j := RunEnd(flags, i);
      [Span(times, flags, edge, Run(i, j))] + CandidatesFrom(times, flags, edge, j + 1)
    else CandidatesFrom(times, flags, edge, i + 1)
  }

  /** The candidate intervals of the run scan. */
  function Candidates(times: seq<real>, flags: seq<bool>, vis: real -> bool, tol: real): seq<Interval>
    requires |flags| == |times|
  {
    CandidatesFrom(times, flags, RefineEdge(vis, tol), 0)
  }

  /** The candidates are the spans of the visible blocks, one for one and in order. */
  lemma CandidatesAreSpans(times: seq<real>, flags: seq<bool>, edge: (real, real) -> real, i: nat)
    requires |flags| == |times| && i <= |times|
    ensures |CandidatesFrom(times, flags, edge, i)| == |RunsFrom(flags, i)|
    ensures forall k :: 0 <= k < |RunsFrom(flags, i)| ==>
      CandidatesFrom(times, flags, edge, i)[k] == Span(times, flags, edge, RunsFrom(flags, i)[k])
  {
    CandidatesFromSpans(times, flags, edge, i);
    SpansOfAt(times, flags, edge, RunsFrom(flags, i));
  }

  /** The spans of a list of blocks, in order. */
  function SpansOf(times: seq<real>, flags: seq<bool>, edge: (real, real) -> real, rs: seq<Run>): seq<Interval>
    requires |flags| == |times|
    requires forall k :: 0 <= k < |rs| ==> rs[k].start <= rs[k].end < |times|
  {
    if rs == [] then [] else [Span(times, flags, edge, rs[0])] + SpansOf(times, flags, edge, rs[1..])
  }

  /** The run scan from `i` yields the spans of the blocks found from `i`. */
  lemma {:induction false} CandidatesFromSpans(times: seq<real>, flags: seq<bool>, edge: (real, real) -> real, i: nat)
    requires |flags| == |times| && i <= |times|
    ensures CandidatesFrom(times, flags, edge, i) == SpansOf(times, flags, edge, RunsFrom(flags, i))
    decreases |times| - i
  {
    if i < |times| {
      if flags[i] {
        var j := RunEnd(flags, i);
        var rs := RunsFrom(flags, j + 1);
        CandidatesFromSpans(times, flags, edge, j + 1);
        assert RunsFrom(flags, i) == [Run(i, j)] + rs;
        SpansOfCons(times, flags, edge, Run(i, j), rs);
      } else {
        CandidatesFromSpans(times, flags, edge, i + 1);
      }
    }
  }

  /** The spans of a block followed by more blocks. */
  lemma SpansOfCons(times: seq<real>, flags: seq<bool>, edge: (real, real) -> real, r: Run, rs: seq<Run>)
    requires |flags| == |times| && r.start <= r.end < |times|
    requires forall k :: 0 <= k < |rs| ==> rs[k].start <= rs[k].end < |times|
    ensures SpansOf(times, flags, edge, [r] + rs) == [Span(times, flags, edge, r)] + SpansOf(times, flags, edge, rs)
  {
    assert ([r] + rs)[1..] == rs;
  }

  /** Element k of the spans is the span of block k. */
  lemma {:induction false} SpansOfAt(times: seq<real>, flags: seq<bool>, edge: (real, real) -> real, rs: seq<Run>)
    requires |flags| == |times|
    requires forall k :: 0 <= k < |rs| ==> rs[k].start <= rs[k].end < |times|
    ensures |SpansOf(times, flags, edge, rs)| == |rs|
    ensures forall k :: 0 <= k < |rs| ==> SpansOf(times, flags, edge, rs)[k] == Span(times, flags, edge, rs[k])
  {
    if rs != [] {
      SpansOfAt(times, flags, edge, rs[1..]);
    }
  }

  /** Intervals that are proper and strictly ordered: each ends before the
      next begins. */
  ghost predicate StrictlyOrdered(ivs: seq<Interval>)
  {
    (forall k :: 0 <= k < |ivs| ==> ivs[k].lo <= ivs[k].hi)
    && (forall k :: 0 <= k < |ivs| - 1 ==> ivs[k].hi < ivs[k + 1].lo)
  }

  /** Intervals inside [t0, tf]. */
  ghost predicate Within(ivs: seq<Interval>, t0: real, tf: real)
  {
    forall k :: 0 <= k < |ivs| ==> t0 <= ivs[k].lo && ivs[k].hi <= tf
  }

  /** An edge refinement that stays in [a, b) and keeps a visible start visible. */
  ghost predicate GoodEdge(vis: real -> bool, edge: (real, real) -> real)
  {
    forall a, b :: a < b ==> a <= edge(a, b) < b && (vis(a) ==> vis(edge(a, b)))
  }

  /** Bisection towards visibility is such a refinement. */
  lemma RefineEdgeGood(vis: real -> bool, tol: real)
    ensures GoodEdge(vis, RefineEdge(vis, tol))
  {
    forall a, b | a < b
      ensures a <= RefineEdge(vis, tol)(a, b) < b
      ensures vis(a) ==> vis(RefineEdge(vis, tol)(a, b))
    {
      RefineBracket(vis, a, b, true, tol, RefineIterations);
      RefineKeepsEnds(vis, a, b, true, tol, RefineIterations);
    }
  }

  /** The span of a maximal block: its left edge lies between the hidden sample
      before the block and the block's first sample (and is the first sample of
      the window when the block starts there); its right edge is a visible time
      between the block's last sample and the hidden sample after it (and is the
      last sample of the window when the block ends there). */
  lemma SpanFacts(times: seq<real>, flags: seq<bool>, vis: real -> bool, edge: (real, real) -> real, r: Run)
    requires Increasing(times) && flags == Flags(vis, times) && GoodEdge(vis, edge)
    requires IsRun(flags, r)
    ensures var sp := Span(times, flags, edge, r);
      && sp.lo <= times[r.start] <= times[r.end] <= sp.hi
      && (r.start > 0 ==> times[r.start - 1] <= sp.lo)
      && (r.start == 0 ==> sp.lo == times[0])
      && (r.end + 1 < |times| ==> sp.hi < times[r.end + 1])
      && (r.end + 1 == |times| ==> sp.hi == times[|times| - 1])
      && vis(sp.hi)
  {
    if r.start > 0 {
      assert times[r.start - 1] < times[r.start];
    }
    if r.start < r.end {
      assert times[r.start] < times[r.end];
    }
    assert flags[r.end];
    if r.end + 1 < |times| {
      assert times[r.end] < times[r.end + 1];
    }
  }

  /** The candidates match the maximal blocks of visible samples one for one
      and in order: block k is maximal, blocks are separated by hidden
      samples, every visible sample is in a block, and candidate k is the
      refined span of block k. */
  lemma CandidatesMatchRuns(times: seq<real>, flags: seq<bool>, vis: real -> bool, tol: real)
    requires |flags| == |times|
    ensures var cs, rs := Candidates(times, flags, vis, tol), RunsFrom(flags, 0);
      && |cs| == |rs|
      && (forall k :: 0 <= k < |rs| ==> IsRun(flags, rs[k]) && cs[k] == Span(times, flags, RefineEdge(vis, tol), rs[k]))
      && (forall k :: 0 <= k < |rs| - 1 ==> rs[k].end + 1 < rs[k + 1].start)
      && (forall t :: 0 <= t < |flags| && flags[t] ==> Covered(rs, t))
  {
    CandidatesAreSpans(times, flags, RefineEdge(vis, tol), 0);
    RunsMaximal(flags, 0);
    RunsSeparated(flags, 0);
    RunsCover(flags, 0);
  }

  /** With any good edge refinement, the spans of the maximal blocks of
      increasing samples are proper, strictly ordered, inside the sampled
      window, and end at visible times. */
  lemma SpansOrdered(times: seq<real>, vis: real -> bool, edge: (real, real) -> real)
    requires Increasing(times) && |times| >= 1 && GoodEdge(vis, edge)
    ensures var cs := CandidatesFrom(times, Flags(vis, times), edge, 0);
      && StrictlyOrdered(cs)
      && Within(cs, times[0], times[|times| - 1])
      && (forall k :: 0 <= k < |cs| ==> vis(cs[k].hi))
  {
    var flags := Flags(vis, times);
    var cs, rs := CandidatesFrom(times, flags, edge, 0), RunsFrom(flags, 0);
    CandidatesAreSpans(times, flags, edge, 0);
    RunsMaximal(flags, 0);
    RunsSeparated(flags, 0);
    forall k | 0 <= k < |cs|
      ensures cs[k].lo <= cs[k].hi && vis(cs[k].hi)
      ensures times[0] <= cs[k].lo && cs[k].hi <= times[|times| - 1]
    {
      SpanInWindow(times, flags, vis, edge, rs[k]);
    }
    forall k | 0 <= k < |cs| - 1
      ensures cs[k].hi < cs[k + 1].lo
    {
      SpanBefore(times, flags, vis, edge, rs[k], rs[k + 1]);
    }
  }

  lemma SpanInWindow(times: seq<real>, flags: seq<bool>, vis: real -> bool, edge: (real, real) -> real, r: Run)
    requires Increasing(times) && flags == Flags(vis, times) && GoodEdge(vis, edge)
    requires IsRun(flags, r)
    ensures var sp := Span(times, flags, edge, r);
      sp.lo <= sp.hi && vis(sp.hi) && times[0] <= sp.lo && sp.hi <= times[|times| - 1]
  {
    SpanFacts(times, flags, vis, edge, r);
    if r.start > 1 {
      assert times[0] < times[r.start - 1];
    }
    if r.end + 1 < |times| - 1 {
      assert times[r.end + 1] < times[|times| - 1];
    }
  }

  lemma SpanBefore(times: seq<real>, flags: seq<bool>, vis: real -> bool, edge: (real, real) -> real, r: Run, r': Run)
    requires Increasing(times) && flags == Flags(vis, times) && GoodEdge(vis, edge)
    requires IsRun(flags, r) && IsRun(flags, r') && r.end + 1 < r'.start
    ensures Span(times, flags, edge, r).hi < Span(times, flags, edge, r').lo
  {
    SpanFacts(times, flags, vis, edge, r);
    SpanFacts(times, flags, vis, edge, r');
    if r.end + 1 < r'.start - 1 {
      assert times[r.end + 1] < times[r'.start - 1];
    }
  }

  /** The candidates of increasing samples are proper, strictly ordered,
      inside the sampled window, and end at visible times. */
  lemma CandidatesOrdered(times: seq<real>, vis: real -> bool, tol: real)
    requires Increasing(times) && |times| >= 1
    ensures var cs := Candidates(times, Flags(vis, times), vis, tol);
      && StrictlyOrdered(cs)
      && Within(cs, times[0], times[|times| - 1])
      && (forall k :: 0 <= k < |cs| ==> vis(cs[k].hi))
  {
    RefineEdgeGood(vis, tol);
    SpansOrdered(times, vis, RefineEdge(vis, tol));
  }

  /** `x` lies in one of the intervals. */
  ghost predicate InSome(ivs: seq<Interval>, x: real)
  {
    exists k :: 0 <= k < |ivs| && ivs[k].lo <= x <= ivs[k].hi
  }

  /** Every visible sample lies in one of the intervals. */
  ghost predicate SamplesIn(times: seq<real>, vis: real -> bool, ivs: seq<Interval>)
  {
    forall t :: 0 <= t < |times| && vis(times[t]) ==> InSome(ivs, times[t])
  }

  /** No visible sample is lost: each lies in some candidate. */
  lemma SamplesCovered(times: seq<real>, vis: real -> bool, tol: real)
    requires Increasing(times)
    ensures SamplesIn(times, vis, Candidates(times, Flags(vis, times), vis, tol))
  {
    RefineEdgeGood(vis, tol);
    SpansCoverSamples(times, vis, RefineEdge(vis, tol));
  }

  /** With any good edge refinement, each visible sample lies in the span of
      its block. */
  lemma SpansCoverSamples(times: seq<real>, vis: real -> bool, edge: (real, real) -> real)
    requires Increasing(times) && GoodEdge(vis, edge)
    ensures SamplesIn(times, vis, CandidatesFrom(times, Flags(vis, times), edge, 0))
  {
    var flags := Flags(vis, times);
    var cs, rs := CandidatesFrom(times, flags, edge, 0), RunsFrom(flags, 0);
    CandidatesAreSpans(times, flags, edge, 0);
    RunsMaximal(flags, 0);
    RunsCover(flags, 0);
    forall t | 0 <= t < |times| && vis(times[t])
      ensures InSome(cs, times[t])
    {
      assert flags[t] && Covered(rs, t);
      var k :| 0 <= k < |rs| && rs[k].start <= t <= rs[k].end;
      SpanHoldsSample(times, flags, vis, edge, rs[k], t);
      assert cs[k] == Span(times, flags, edge, rs[k]);
      assert 0 <= k < |cs| && cs[k].lo <= times[t] <= cs[k].hi;
    }
  }

  /** A sample of a block lies in the block's span. */
  lemma SpanHoldsSample(times: seq<real>, flags: seq<bool>, vis: real -> bool, edge: (real, real) -> real, r: Run, t: nat)
    requires Increasing(times) && flags == Flags(vis, times) && GoodEdge(vis, edge)
    requires IsRun(flags, r) && r.start <= t <= r.end
    ensures Span(times, flags, edge, r).lo <= times[t] <= Span(times, flags, edge, r).hi
  {
    SpanFacts(times, flags, vis, edge, r);
    if r.start < t {
      assert times[r.start] < times[t];
    }
    if t < r.end {
      assert times[t] < times[r.end];
    }
  }

  /** When every sample is visible the window yields the single candidate
      [t0, tf], unrefined. */
  lemma AllVisibleWindow(times: seq<real>, flags: seq<bool>, vis: real -> bool, tol: real)
    requires |flags| == |times| >= 1
    requires forall k :: 0 <= k < |flags| ==> flags[k]
    ensures Candidates(times, flags, vis, tol) == [Interval(times[0], times[|times| - 1])]
  {
    var n := |times|;
    assert RunEnd(flags, 0) == n - 1;
    assert CandidatesFrom(times, flags, RefineEdge(vis, tol), n) == [];
  }

  /** The inner scan for the end of the block that starts at `i`. */
  method RunEndOf(flags: seq<bool>, i: nat) returns (j: nat)
    requires i < |flags| && flags[i]
    ensures j == RunEnd(flags, i)
  {
    j := i;
    while j + 1 < |flags| && flags[j + 1]
      invariant i <= j < |flags| && flags[j]
      invariant RunEnd(flags, j) == RunEnd(flags, i)
      decreases |flags| - j
    {
      j := j + 1;
    }
  }

  /** One block of the scan: its last sample, and its refined span in front
      of the spans of the blocks after it. */
  method ScanBlock(times: seq<real>, flags: seq<bool>, vis: real -> bool, tol: real, i: nat)
    returns (j: nat, iv: Interval)
    requires |flags| == |times|
    requires i < |times| && flags[i]
    ensures i <= j < |times|
    ensures CandidatesFrom(times, flags, RefineEdge(vis, tol), i)
      == [iv] + CandidatesFrom(times, flags, RefineEdge(vis, tol), j + 1)
  {
    j := RunEndOf(flags, i);
    iv := RefineBlock(times, flags, vis, tol, i, j);
  }

  /** The refined edges of the block from `i` to `j`. */
  method RefineBlock(times: seq<real>, flags: seq<bool>, vis: real -> bool, tol: real, i: nat, j: nat)
    returns (iv: Interval)
    requires |flags| == |times|
    requires i <= j < |times|
    ensures iv == Span(times, flags, RefineEdge(vis, tol), Run(i, j))
  {
    var left := RefineLeft(times, flags, vis, tol, i);
    var right := RefineRight(times, flags, vis, tol, j);
    iv := Interval(left, right);
  }

  method RefineLeft(times: seq<real>, flags: seq<bool>, vis: real -> bool, tol: real, i: nat)
    returns (left: real)
    requires |flags| == |times| && i < |times|
    ensures left == LeftEdge(times, flags, RefineEdge(vis, tol), i)
  {
    left := times[i];
    if i > 0 && !flags[i - 1] {
      left := BinaryRefineVisibility(vis, times[i - 1], times[i], true, tol, RefineIterations);
    }
  }

  method RefineRight(times: seq<real>, flags: seq<bool>, vis: real -> bool, tol: real, j: nat)
    returns (right: real)
    requires |flags| == |times| && j < |times|
    ensures right == RightEdge(times, flags, RefineEdge(vis, tol), j)
  {
    right := times[j];
    if j + 1 < |times| && !flags[j + 1] {
      right := BinaryRefineVisibility(vis, times[j], times[j + 1], true, tol, RefineIterations);
    }
  }

  /** The scan of step 2 of `visible_intervals`: one candidate per block of
      visible samples, left to right. */
  method ScanRuns(times: seq<real>, flags: seq<bool>, vis: real -> bool, tol: real)
    returns (intervals: seq<Interval>)
    requires |flags| == |times|
    ensures intervals == Candidates(times, flags, vis, tol)
  {
    ghost var goal := Candidates(times, flags, vis, tol);
    intervals := [];
    var i: nat := 0;
    while i < |times|
      invariant i <= |times|
      invariant intervals + CandidatesFrom(times, flags, RefineEdge(vis, tol), i) == goal
      decreases |times| - i
    {
      if flags[i] {
        var j, iv := ScanBlock(times, flags, vis, tol, i);
        ghost var rest := CandidatesFrom(times, flags, RefineEdge(vis, tol), j + 1);
        assert intervals + ([iv] + rest) == (intervals + [iv]) + rest;
        intervals := intervals + [iv];
        i := j + 1;
      } else {
        i := i + 1;
      }
    }
  }

  // ---------------------------------------------------------------------
  // Kinematic filter
  // ---------------------------------------------------------------------

  /** The slack `t - dist(t) / vMax - ed` of an agent that leaves at `ed` and
      must reach the target by time t; reachable when non-negative. */
  function Slack(dist: real -> real, vMax: real, ed: real, t: real): real
    requires vMax != 0.0
  {
    t - dist(t) / vMax - ed
  }

  /** One step of the clip bisection: keep the half whose upper end is reachable. */
  function ClipStep(dist: real -> real, vMax: real, ed: real, lo: real, hi: real): (real, real)
    requires vMax != 0.0
  {
    var mid := 0.5 * (lo + hi);
    if Slack(dist, vMax, ed, mid) >= 0.0 then (lo, mid) else (mid, hi)
  }

  /** The bracket after at most `fuel` clip steps, stopping once narrower than `tol`. */
  function Clip(dist: real -> real, vMax: real, ed: real, lo: real, hi: real, tol: real, fuel: nat): (real, real)
    requires vMax != 0.0
    decreases fuel
  {
    if fuel == 0 then (lo, hi)
    else
      var s := ClipStep(dist, vMax, ed, lo, hi);
      if s.1 - s.0 < tol then s else Clip(dist, vMax, ed, s.0, s.1, tol, fuel - 1)
  }

  /** The clip keeps a reachable upper end strictly above the lower end, and an
      unreachable lower end unreachable. */
  lemma {:induction false} ClipFacts(dist: real -> real, vMax: real, ed: real, lo: real, hi: real, tol: real, fuel: nat)
    requires vMax != 0.0 && lo < hi && Slack(dist, vMax, ed, hi) >= 0.0
    ensures lo <= Clip(dist, vMax, ed, lo, hi, tol, fuel).0 < Clip(dist, vMax, ed, lo, hi, tol, fuel).1 <= hi
    ensures Slack(dist, vMax, ed, Clip(dist, vMax, ed, lo, hi, tol, fuel).1) >= 0.0
    ensures Slack(dist, vMax, ed, lo) < 0.0 ==> Slack(dist, vMax, ed, Clip(dist, vMax, ed, lo, hi, tol, fuel).0) < 0.0
    decreases fuel
  {
    if fuel > 0 {
      var s := ClipStep(dist, vMax, ed, lo, hi);
      if s.1 - s.0 >= tol {
        ClipFacts(dist, vMax, ed, s.0, s.1, tol, fuel - 1);
      }
    }
  }

  /** What the filter keeps of one candidate [a, b]: nothing when b is not
      reachable, all of it when a is, otherwise [t, b] from the clipped time t. */
  function KinOne(dist: real -> real, vMax: real, ed: real, tol: real, iv: Interval): seq<Interval>
    requires vMax != 0.0
  {
    if Slack(dist, vMax, ed, iv.hi) < 0.0 then []
    else if Slack(dist, vMax, ed, iv.lo) >= 0.0 then [iv]
    else [Interval(Clip(dist, vMax, ed, iv.lo, iv.hi, tol, ClipIterations).1, iv.hi)]
  }

  /** The filter over a list of candidates, in order. */
  function KinFilter(dist: real -> real, vMax: real, ed: real, tol: real, ivs: seq<Interval>): seq<Interval>
    requires vMax != 0.0
  {
    if ivs == [] then []
    else KinFilter(dist, vMax, ed, tol, ivs[..|ivs| - 1]) + KinOne(dist, vMax, ed, tol, ivs[|ivs| - 1])
  }

  /** The three outcomes for one proper candidate: dropped exactly when its end
      is unreachable; kept whole when its start is reachable; otherwise cut to
      [t, b] with a < t <= b and t reachable. */
  lemma KinOneFacts(dist: real -> real, vMax: real, ed: real, tol: real, iv: Interval)
    requires vMax != 0.0 && iv.lo <= iv.hi
    ensures KinOne(dist, vMax, ed, tol, iv) == [] <==> Slack(dist, vMax, ed, iv.hi) < 0.0
    ensures Slack(dist, vMax, ed, iv.hi) >= 0.0 && Slack(dist, vMax, ed, iv.lo) >= 0.0 ==>
      KinOne(dist, vMax, ed, tol, iv) == [iv]
    ensures Slack(dist, vMax, ed, iv.hi) >= 0.0 && Slack(dist, vMax, ed, iv.lo) < 0.0 ==>
      var out := KinOne(dist, vMax, ed, tol, iv);
      |out| == 1 && iv.lo < out[0].lo <= out[0].hi == iv.hi && Slack(dist, vMax, ed, out[0].lo) >= 0.0
  {
    if Slack(dist, vMax, ed, iv.hi) >= 0.0 && Slack(dist, vMax, ed, iv.lo) < 0.0 {
      ClipFacts(dist, vMax, ed, iv.lo, iv.hi, tol, ClipIterations);
    }
  }

  /** In a strictly ordered list every earlier interval ends before every later
      one begins. */
  lemma {:induction false} OrderedBefore(ivs: seq<Interval>, k: nat, m: nat)
    requires StrictlyOrdered(ivs) && k < m < |ivs|
    ensures ivs[k].hi < ivs[m].lo
    decreases m - k
  {
    if k + 1 < m {
      OrderedBefore(ivs, k + 1, m);
    }
  }

  /** A kept interval: it ends where candidate k ends, starts no earlier, and
      both its ends are reachable. */
  ghost predicate KeptFrom(dist: real -> real, vMax: real, ed: real, ivs: seq<Interval>, x: Interval, k: int)
    requires vMax != 0.0
  {
    0 <= k < |ivs| && ivs[k].lo <= x.lo <= x.hi == ivs[k].hi
    && Slack(dist, vMax, ed, x.lo) >= 0.0 && Slack(dist, vMax, ed, x.hi) >= 0.0
  }

  /** Every interval of `out` is kept from some interval of `ivs`. */
  ghost predicate AllKept(dist: real -> real, vMax: real, ed: real, ivs: seq<Interval>, out: seq<Interval>)
    requires vMax != 0.0
  {
    forall i :: 0 <= i < |out| ==> KeptSome(dist, vMax, ed, ivs, out[i])
  }

  /** `x` is kept from some interval of `ivs`. */
  ghost predicate KeptSome(dist: real -> real, vMax: real, ed: real, ivs: seq<Interval>, x: Interval)
    requires vMax != 0.0
  {
    exists k :: KeptFrom(dist, vMax, ed, ivs, x, k)
  }

  /** Each interval the filter keeps is a reachable tail of a candidate. */
  lemma {:induction false} KinFilterKept(dist: real -> real, vMax: real, ed: real, tol: real, ivs: seq<Interval>)
    requires vMax != 0.0 && forall k :: 0 <= k < |ivs| ==> ivs[k].lo <= ivs[k].hi
    ensures AllKept(dist, vMax, ed, ivs, KinFilter(dist, vMax, ed, tol, ivs))
  {
    if ivs != [] {
      var n := |ivs|;
      var init := ivs[..n - 1];
      var prev := KinFilter(dist, vMax, ed, tol, init);
      var last := KinOne(dist, vMax, ed, tol, ivs[n - 1]);
      var out := KinFilter(dist, vMax, ed, tol, ivs);
      assert out == prev + last;
      KinFilterKept(dist, vMax, ed, tol, init);
      KinOneFacts(dist, vMax, ed, tol, ivs[n - 1]);
      forall i | 0 <= i < |out|
        ensures KeptSome(dist, vMax, ed, ivs, out[i])
      {
        if i < |prev| {
          assert out[i] == prev[i];
          var j :| KeptFrom(dist, vMax, ed, init, prev[i], j);
          assert KeptFrom(dist, vMax, ed, ivs, out[i], j);
        } else {
          assert out[i] == last[0];
          assert KeptFrom(dist, vMax, ed, ivs, out[i], n - 1);
        }
      }
      assert AllKept(dist, vMax, ed, ivs, out);
    } else {
      assert KinFilter(dist, vMax, ed, tol, ivs) == [];
    }
  }

  /** Appending an interval that starts after the last one ends keeps a list
      ordered. */
  lemma OrderedSnoc(ivs: seq<Interval>, x: Interval)
    requires StrictlyOrdered(ivs) && x.lo <= x.hi
    requires ivs != [] ==> ivs[|ivs| - 1].hi < x.lo
    ensures StrictlyOrdered(ivs + [x])
  {
    var out := ivs + [x];
    forall k | 0 <= k < |out| - 1
      ensures out[k].hi < out[k + 1].lo
    {
      if k + 1 < |ivs| {
        assert out[k] == ivs[k] && out[k + 1] == ivs[k + 1];
      }
    }
  }

  /** The filter keeps strictly ordered candidates strictly ordered. */
  lemma {:induction false} KinFilterOrdered(dist: real -> real, vMax: real, ed: real, tol: real, ivs: seq<Interval>)
    requires vMax != 0.0 && StrictlyOrdered(ivs)
    ensures StrictlyOrdered(KinFilter(dist, vMax, ed, tol, ivs))
  {
    if ivs != [] {
      var n := |ivs|;
      var init := ivs[..n - 1];
      var prev := KinFilter(dist, vMax, ed, tol, init);
      var last := KinOne(dist, vMax, ed, tol, ivs[n - 1]);
      var out := KinFilter(dist, vMax, ed, tol, ivs);
      assert out == prev + last;
      assert StrictlyOrdered(init);
      KinFilterOrdered(dist, vMax, ed, tol, init);
      KinOneFacts(dist, vMax, ed, tol, ivs[n - 1]);
      if last != [] {
        if prev != [] {
          KinFilterKept(dist, vMax, ed, tol, init);
          var k :| KeptFrom(dist, vMax, ed, init, prev[|prev| - 1], k);
          OrderedBefore(ivs, k, n - 1);
        }
        assert last == [last[0]];
        OrderedSnoc(prev, last[0]);
      }
    }
  }

  /** The kinematic loop of `visible_intervals`. */
  method KinematicFilter(intervals: seq<Interval>, dist: real -> real, vMax: real, ed: real, tol: real)
    returns (kin: seq<Interval>)
    requires vMax != 0.0
    ensures kin == KinFilter(dist, vMax, ed, tol, intervals)
  {
    kin := [];
    for k := 0 to |intervals|
      invariant kin == KinFilter(dist, vMax, ed, tol, intervals[..k])
    {
      assert intervals[..k + 1][..k] == intervals[..k];
      var a, b := intervals[k].lo, intervals[k].hi;
      if Slack(dist, vMax, ed, b) < 0.0 {
        continue;
      }
      if Slack(dist, vMax, ed, a) >= 0.0 {
        kin := kin + [Interval(a, b)];
        continue;
      }
      var hi := ClipRoot(dist, vMax, ed, a, b, tol);
      kin := kin + [Interval(hi, b)];
    }
    assert intervals[..|intervals|] == intervals;
  }

  lemma ClipUnfold(dist: real -> real, vMax: real, ed: real, lo: real, hi: real, tol: real, fuel: nat)
    requires vMax != 0.0 && fuel > 0
    ensures var s := ClipStep(dist, vMax, ed, lo, hi);
      Clip(dist, vMax, ed, lo, hi, tol, fuel)
      == if s.1 - s.0 < tol then s else Clip(dist, vMax, ed, s.0, s.1, tol, fuel - 1)
  {
  }

  /** The clip bisection: the first reachable time of [a, b] to within `tol`. */
  method ClipRoot(dist: real -> real, vMax: real, ed: real, a: real, b: real, tol: real) returns (hi: real)
    requires vMax != 0.0
    ensures hi == Clip(dist, vMax, ed, a, b, tol, ClipIterations).1
  {
    ghost var goal := Clip(dist, vMax, ed, a, b, tol, ClipIterations);
    var lo := a;
    hi := b;
    var k := 0;
    while k < ClipIterations
      invariant 0 <= k <= ClipIterations
      invariant Clip(dist, vMax, ed, lo, hi, tol, ClipIterations - k) == goal
    {
      ClipUnfold(dist, vMax, ed, lo, hi, tol, ClipIterations - k);
      ghost var s := ClipStep(dist, vMax, ed, lo, hi);
      var mid := 0.5 * (lo + hi);
      if Slack(dist, vMax, ed, mid) >= 0.0 {
        hi := mid;
      } else {
        lo := mid;
      }
      assert (lo, hi) == s;
      if hi - lo < tol {
        return;
      }
      k := k + 1;
    }
  }

  // ---------------------------------------------------------------------
  // visible_intervals
  // ---------------------------------------------------------------------

  /** The outcome of `visible_intervals` for visibility oracle `vis` and
      distance oracle `dist` along the target's trajectory. */
  function IntervalsOf(window: Window, vis: real -> bool, dist: real -> real, vMax: real, nSamples: int,
                       tol: real, ed: Option<real>, requireKinematic: bool): Result<seq<Interval>, Error>
  {
    if window.tf <= window.t0 then Ok([])
    else
      var times := SampleTimes(window.t0, window.tf, nSamples);
      var cs := Candidates(times, Flags(vis, times), vis, tol);
      if !requireKinematic then Ok(cs)
      else if ed.None? then Err(MissingEarliestDeparture)
      else if cs == [] then Ok([])
      else if vMax == 0.0 then Err(DivisionByZero)
      else Ok(KinFilter(dist, vMax, ed.value, tol, cs))
  }

  /** ReachableAt at time t: the slack is non-negative. */
  ghost predicate ReachableAt(dist: real -> real, vMax: real, ed: real, t: real)
  {
    vMax != 0.0 && Slack(dist, vMax, ed, t) >= 0.0
  }

  /** What `visible_intervals` promises: an empty result for an empty window;
      the two errors exactly when they are raised; otherwise proper, strictly
      ordered intervals inside the window, each ending at a visible time; with
      the kinematic filter both ends of every interval are reachable; without
      it the departure time and the speed are ignored and every visible sample
      lies in some interval. */
  lemma IntervalsOfProperties(window: Window, vis: real -> bool, dist: real -> real, vMax: real, nSamples: int,
                              tol: real, ed: Option<real>, requireKinematic: bool)
    ensures var r := IntervalsOf(window, vis, dist, vMax, nSamples, tol, ed, requireKinematic);
      && (window.tf <= window.t0 ==> r == Ok([]))
      && (r == Err(MissingEarliestDeparture) <==> window.t0 < window.tf && requireKinematic && ed.None?)
      && (r == Err(DivisionByZero) ==> window.t0 < window.tf && requireKinematic && ed.Some? && vMax == 0.0)
      && (r.Ok? ==> StrictlyOrdered(r.value) && Within(r.value, window.t0, window.tf)
                    && (forall k :: 0 <= k < |r.value| ==> vis(r.value[k].hi)))
      && (r.Ok? && requireKinematic ==> forall k :: 0 <= k < |r.value| ==>
            ReachableAt(dist, vMax, ed.value, r.value[k].lo) && ReachableAt(dist, vMax, ed.value, r.value[k].hi))
      && (!requireKinematic ==> r == IntervalsOf(window, vis, dist, 0.0, nSamples, tol, None, false))
      && (window.t0 < window.tf && !requireKinematic ==>
            r.Ok? && SamplesIn(SampleTimes(window.t0, window.tf, nSamples), vis, r.value))
  {
    var r := IntervalsOf(window, vis, dist, vMax, nSamples, tol, ed, requireKinematic);
    if window.t0 < window.tf {
      var times := SampleTimes(window.t0, window.tf, nSamples);
      var cs := Candidates(times, Flags(vis, times), vis, tol);
      SampleTimesIncreasing(window.t0, window.tf, nSamples);
      CandidatesOrdered(times, vis, tol);
      if !requireKinematic {
        SamplesCovered(times, vis, tol);
      } else if ed.Some? && cs != [] && vMax != 0.0 {
        KinFilteredProperties(dist, vMax, ed.value, tol, cs, vis, window.t0, window.tf);
      }
    }
  }

  /** The filter keeps order, the window and visible ends, and makes both
      ends reachable. */
  lemma KinFilteredProperties(dist: real -> real, vMax: real, ed: real, tol: real, cs: seq<Interval>,
                              vis: real -> bool, t0: real, tf: real)
    requires vMax != 0.0 && StrictlyOrdered(cs) && Within(cs, t0, tf)
    requires forall k :: 0 <= k < |cs| ==> vis(cs[k].hi)
    ensures var out := KinFilter(dist, vMax, ed, tol, cs);
      && StrictlyOrdered(out) && Within(out, t0, tf)
      && (forall k :: 0 <= k < |out| ==> vis(out[k].hi))
      && (forall k :: 0 <= k < |out| ==> ReachableAt(dist, vMax, ed, out[k].lo) && ReachableAt(dist, vMax, ed, out[k].hi))
  {
    var out := KinFilter(dist, vMax, ed, tol, cs);
    KinFilterOrdered(dist, vMax, ed, tol, cs);
    KinFilterKept(dist, vMax, ed, tol, cs);
    forall i | 0 <= i < |out|
      ensures t0 <= out[i].lo && out[i].hi <= tf && vis(out[i].hi)
      ensures ReachableAt(dist, vMax, ed, out[i].lo) && ReachableAt(dist, vMax, ed, out[i].hi)
    {
      assert KeptSome(dist, vMax, ed, cs, out[i]);
      var k :| KeptFrom(dist, vMax, ed, cs, out[i], k);
    }
  }

  /** The visibility oracle along the trajectory: `visible(q, tau(t), union)`. */
  function VisibleAlong(q: Coord, target: Target, union: Region): real -> bool
  {
    t => Visible(q, target.xy(t), union)
  }

  /** The distance oracle along the trajectory: `hypot(q - tau(t))`. */
  function DistanceAlong(q: Coord, target: Target, hypot: (Coord, Coord) -> real): real -> real
  {
    t => hypot(q, target.xy(t))
  }

  /** `visible_intervals`: sample, scan the runs of visible samples, and
      optionally apply the kinematic filter. `union` is the obstacle union of
      the scene and `hypot` the Euclidean distance. */
  method VisibleIntervals(q: Coord, target: Target, window: Window, scene: Scene, union: Region,
                          hypot: (Coord, Coord) -> real, nSamples: int, refineTol: real,
                          earliestDeparture: Option<real>, requireKinematic: bool)
    returns (r: Result<seq<Interval>, Error>)
    ensures r == IntervalsOf(window, VisibleAlong(q, target, union), DistanceAlong(q, target, hypot),
                             scene.vMax, nSamples, refineTol, earliestDeparture, requireKinematic)
    ensures window.tf <= window.t0 ==> r == Ok([])
    ensures r.Ok? ==> StrictlyOrdered(r.value) && Within(r.value, window.t0, window.tf)
    ensures r.Ok? ==> forall k :: 0 <= k < |r.value| ==> Visible(q, target.xy(r.value[k].hi), union)
  {
    var vis := VisibleAlong(q, target, union);
    IntervalsOfProperties(window, vis, DistanceAlong(q, target, hypot), scene.vMax, nSamples,
                          refineTol, earliestDeparture, requireKinematic);
    if window.tf <= window.t0 {
      return Ok([]);
    }
    var times := SampleTimes(window.t0, window.tf, nSamples);
    var flags := Flags(vis, times);
    var intervals := ScanRuns(times, flags, vis, refineTol);
    if requireKinematic {
      if earliestDeparture.None? {
        return Err(MissingEarliestDeparture);
      }
      if intervals != [] && scene.vMax == 0.0 {
        return Err(DivisionByZero);
      }
      if intervals != [] {
        intervals := KinematicFilter(intervals, DistanceAlong(q, target, hypot), scene.vMax,
                                     earliestDeparture.value, refineTol);
      }
    }
    return Ok(intervals);
  }
}
