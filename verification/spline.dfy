/**
 The closed Catmull-Rom curve through the irregular boundary's control points,
 sampled at a fixed number of parameter values (`interpolateBoundary`).
 */
module Spline {
  import opened Geometry

  /** Number of points sampled along the closed curve. */
  const NumSamples: nat := 512

  /**
   One coordinate of the uniform Catmull-Rom cubic through `p1` and `p2`, with
   `p0` and `p3` as the outer neighbours, at local parameter `t`. The segment
   starts at `p1` and ends at `p2`.
   */
  function CatmullRom(p0: real, p1: real, p2: real, p3: real, t: real): (r: real)
    ensures t == 0.0 ==> r == p1
    ensures t == 1.0 ==> r == p2
  {
    var t2 := t * t;
    var t3 := t2 * t;
    0.5 * ((2.0 * p1)
           + (-p0 + p2) * t
           + (2.0 * p0 - 5.0 * p1 + 4.0 * p2 - p3) * t2
           + (-p0 + 3.0 * p1 - 3.0 * p2 + p3) * t3)
  }

  /** The derivative of `CatmullRom` with respect to `t`. */
  function CatmullRomSlope(p0: real, p1: real, p2: real, p3: real, t: real): real {
    0.5 * ((-p0 + p2)
           + 2.0 * (2.0 * p0 - 5.0 * p1 + 4.0 * p2 - p3) * t
           + 3.0 * (-p0 + 3.0 * p1 - 3.0 * p2 + p3) * (t * t))
  }

  /**
   Consecutive segments meet: the end of the segment through `p1, p2` is the
   start of the segment through `p2, p3`, and the two tangents agree there, so
   the sampled curve has no corners at control points.
   */
  lemma SegmentsJoinSmoothly(p0: real, p1: real, p2: real, p3: real, p4: real)
    ensures CatmullRom(p0, p1, p2, p3, 1.0) == CatmullRom(p1, p2, p3, p4, 0.0)
    ensures CatmullRomSlope(p0, p1, p2, p3, 1.0) == CatmullRomSlope(p1, p2, p3, p4, 0.0) == 0.5 * (p3 - p1)
  {
  }

  /** Moving all four points by `c` moves the curve by `c`. */
  lemma CatmullRomTranslates(p0: real, p1: real, p2: real, p3: real, t: real, c: real)
    ensures CatmullRom(p0 + c, p1 + c, p2 + c, p3 + c, t) == CatmullRom(p0, p1, p2, p3, t) + c
  {
  }

  /** Which curve segment sample `i` falls in, and where inside it. */
  datatype Segment = Segment(index: int, localT: real)

  /**
   Sample `i` of `NumSamples` sits at parameter `(i / NumSamples) * n` over `n`
   control points; the integer part picks the segment and the fraction is the
   local parameter.
   */
  function SegmentOf(i: nat, n: nat): (s: Segment)
    requires i < NumSamples
    ensures 0 <= s.index
    ensures n > 0 ==> s.index < n
    ensures 0.0 <= s.localT < 1.0
    ensures s.index as real + s.localT == (i as real / NumSamples as real) * n as real
  {
    var t := i as real / NumSamples as real;
    SampleParameterBounds(t, n);
    var segment := t * n as real;
    var index := segment.Floor;
    Segment(index, segment - index as real)
  }

  /** A parameter in `[0, 1)` scaled by `n` lies in `[0, n)`. */
  lemma SampleParameterBounds(t: real, n: nat)
    requires 0.0 <= t < 1.0
    ensures 0.0 <= t * n as real
    ensures n > 0 ==> t * n as real < n as real
  {
    MulNonNegative(t, n as real);
    if n > 0 {
      MulLessRight(t, 1.0, n as real);
    }
  }

  /** The four control-point indices around segment `index`, taken cyclically. */
  datatype Window = Window(before: int, at: int, after: int, afterNext: int)

  /**
   The neighbours `index - 1 .. index + 2` modulo `n`: all four are valid
   indices into `n` control points, and they are consecutive around the cycle.
   */
  function NeighbourIndices(index: int, n: int): (w: Window)
    requires 1 <= n && 0 <= index
    ensures 0 <= w.before < n && 0 <= w.at < n && 0 <= w.after < n && 0 <= w.afterNext < n
    ensures (w.before + 1) % n == w.at
    ensures (w.at + 1) % n == w.after
    ensures (w.after + 1) % n == w.afterNext
    ensures index < n ==> w.at == index
  {
    CyclicNeighbours(index, n);
    Window((index - 1 + n) % n, index % n, (index + 1) % n, (index + 2) % n)
  }

  lemma CyclicNeighbours(index: int, n: int)
    requires 1 <= n && 0 <= index
    ensures ((index - 1 + n) % n + 1) % n == index % n
    ensures (index % n + 1) % n == (index + 1) % n
    ensures ((index + 1) % n + 1) % n == (index + 2) % n
    ensures index < n ==> index % n == index
  {
    ModSucc(index - 1 + n, n);
    ModAddPeriod(index, n);
    ModSucc(index, n);
    ModSucc(index + 1, n);
    if index < n {
      ModUnique(index, n, 0, index);
    }
  }

  /** `r` is the remainder of `a` by `n` whenever `a == q * n + r` with `0 <= r < n`. */
  lemma ModUnique(a: int, n: int, q: int, r: int)
    requires 1 <= n && 0 <= r < n && a == q * n + r
    ensures a % n == r && a / n == q
  {
    var q', r' := a / n, a % n;
    assert a == q' * n + r' && 0 <= r' < n;
    assert (q - q') * n == r' - r;
    if q > q' {
      MulAtLeast(q - q', n);
    } else if q < q' {
      MulAtLeast(q' - q, n);
    }
  }

  lemma MulAtLeast(k: int, n: int)
    requires 1 <= k && 1 <= n
    ensures n <= k * n
  {
    assert k * n == (k - 1) * n + n;
    if k > 1 {
      MulAtLeast(k - 1, n);
    }
  }

  lemma ModSucc(a: int, n: int)
    requires 1 <= n && 0 <= a
    ensures (a % n + 1) % n == (a + 1) % n
  {
    var q, r := a / n, a % n;
    if r + 1 < n {
      ModUnique(a + 1, n, q, r + 1);
      ModUnique(r + 1, n, 0, r + 1);
    } else {
      ModUnique(a + 1, n, q + 1, 0);
      ModUnique(r + 1, n, 1, 0);
    }
  }

  lemma ModAddPeriod(a: int, n: int)
    requires 1 <= n && 0 <= a
    ensures (a + n) % n == a % n
  {
    ModUnique(a + n, n, a / n + 1, a % n);
  }

  /** Sampled boundary: the `x` and `y` coordinates of the points, kept apart as the program keeps them. */
  datatype Sampled = Sampled(xs: seq<real>, ys: seq<real>)

  /** Sample `i` of the closed curve through `cps`. */
  function SampleAt(cps: seq<Point>, i: nat): Point
    requires 1 <= |cps| && i < NumSamples
  {
    var n := |cps|;
    var s := SegmentOf(i, n);
    var w := NeighbourIndices(s.index, n);
    var p0, p1, p2, p3 := cps[w.before], cps[w.at], cps[w.after], cps[w.afterNext];
    Point(CatmullRom(p0.x, p1.x, p2.x, p3.x, s.localT), CatmullRom(p0.y, p1.y, p2.y, p3.y, s.localT))
  }

  /** `interpolateBoundary`: exactly `NumSamples` x values and `NumSamples` y values. */
  function InterpolateBoundary(cps: seq<Point>): (b: Sampled)
    requires 1 <= |cps|
    ensures |b.xs| == NumSamples && |b.ys| == NumSamples
    ensures forall i :: 0 <= i < NumSamples ==> b.xs[i] == SampleAt(cps, i).x && b.ys[i] == SampleAt(cps, i).y
  {
    Sampled(seq(NumSamples, i requires 0 <= i < NumSamples => SampleAt(cps, i).x),
            seq(NumSamples, i requires 0 <= i < NumSamples => SampleAt(cps, i).y))
  }

  /**
   The curve passes exactly through the control points: when `i * n` is a
   multiple of `NumSamples`, sample `i` is control point `i * n / NumSamples`.
   */
  lemma PassesThroughControlPoints(cps: seq<Point>, i: nat)
    requires 1 <= |cps| && i < NumSamples
    requires (i * |cps|) % NumSamples == 0
    ensures (i * |cps|) / NumSamples < |cps|
    ensures InterpolateBoundary(cps).xs[i] == cps[(i * |cps|) / NumSamples].x
    ensures InterpolateBoundary(cps).ys[i] == cps[(i * |cps|) / NumSamples].y
  {
    var n := |cps|;
    var k := (i * n) / NumSamples;
    assert i * n == k * NumSamples;
    var t := i as real / NumSamples as real;
    assert t * n as real == k as real by {
      assert (i * n) as real == i as real * n as real;
      assert (k * NumSamples) as real == k as real * NumSamples as real;
      calc {
        t * n as real;
        (i as real * n as real) / NumSamples as real;
        (k as real * NumSamples as real) / NumSamples as real;
        k as real;
      }
    }
    var s := SegmentOf(i, n);
    assert s.index == k && s.localT == 0.0;
    var w := NeighbourIndices(s.index, n);
    assert w.at == k;
  }

  /**
   When the number of control points divides `NumSamples`, every control point
   appears among the samples: control point `k` is sample `k * (NumSamples / n)`.
   */
  lemma EveryControlPointIsSampled(cps: seq<Point>, k: nat)
    requires 1 <= |cps| && NumSamples % |cps| == 0 && k < |cps|
    ensures k * (NumSamples / |cps|) < NumSamples
    ensures InterpolateBoundary(cps).xs[k * (NumSamples / |cps|)] == cps[k].x
    ensures InterpolateBoundary(cps).ys[k * (NumSamples / |cps|)] == cps[k].y
  {
    var n := |cps|;
    var step := NumSamples / n;
    assert step * n == NumSamples;
    var i := k * step;
    assert i * n == k * NumSamples by {
      assert i * n == k * (step * n);
    }
    assert i < NumSamples by {
      assert (k + 1) * step <= n * step by {
        MulMonotoneInt(k + 1, n, step);
      }
    }
    ModUnique(i * n, NumSamples, k, 0);
    PassesThroughControlPoints(cps, i);
  }

  lemma MulMonotoneInt(a: int, b: int, c: int)
    requires a <= b && 0 <= c
    ensures a * c <= b * c
  {
    if a < b && c > 0 {
      MulAtLeast(b - a, c);
      assert (b - a) * c == b * c - a * c;
    }
  }

  /** The sampled curve starts at the first control point. */
  lemma StartsAtFirstControlPoint(cps: seq<Point>)
    requires 1 <= |cps|
    ensures InterpolateBoundary(cps).xs[0] == cps[0].x && InterpolateBoundary(cps).ys[0] == cps[0].y
  {
    PassesThroughControlPoints(cps, 0);
  }
}
