/**
 The seeded linear congruential generator behind the irregular boundary, and
 the control-point generation (`generateIrregularEllipse`) that draws from it.
 */
module Rng {
  import opened Geometry
  import opened Spline

  const Modulus: nat := 4294967296
  const Multiplier: nat := 1664525
  const Increment: nat := 1013904223

  /** 2^53: every integer below it is exactly representable as a double. */
  const ExactIntegerLimit: nat := 9007199254740992

  /**
   For every seed the generator can hold, `seed * Multiplier + Increment` is an
   integer below 2^53, so the double arithmetic of the program computes it
   exactly and the integer model below is faithful.
   */
  lemma StepIsExact(seed: nat)
    requires seed < Modulus
    ensures seed * Multiplier + Increment < ExactIntegerLimit
  {
  }

  /** The generator state after one draw. */
  function Next(seed: nat): (s: nat)
    requires seed < Modulus
    ensures s < Modulus
  {
    (seed * Multiplier + Increment) % Modulus
  }

  /** One `random()` call: the new seed and the value it returns. */
  datatype Draw = Draw(seed: nat, value: real)

  function Random(seed: nat): (d: Draw)
    requires seed < Modulus
    ensures d.seed < Modulus
    ensures 0.0 <= d.value < 1.0
    ensures d.value * Modulus as real == d.seed as real
  {
    var s := Next(seed);
    Draw(s, s as real / Modulus as real)
  }

  /** The seed after `k` draws. */
  function SeedAfter(seed: nat, k: nat): (s: nat)
    requires seed < Modulus
    ensures s < Modulus
  {
    if k == 0 then seed else Next(SeedAfter(seed, k - 1))
  }

  /** The value returned by draw number `k` (counting from 0). */
  function ValueOfDraw(seed: nat, k: nat): real
    requires seed < Modulus
  {
    Random(SeedAfter(seed, k)).value
  }

  /** The radius perturbation `(value - 0.5) * 2 * irregularity` of one control point. */
  function Perturbation(value: real, irregularity: real): real {
    (value - 0.5) * 2.0 * irregularity
  }

  /**
   A draw in `[0, 1)` perturbs the radius by a fraction in
   `[-irregularity, irregularity)`, and not at all when `irregularity` is zero.
   */
  lemma PerturbationBounds(value: real, irregularity: real)
    requires 0.0 <= value < 1.0
    ensures var p := Perturbation(value, irregularity);
            && (0.0 <= irregularity ==> -irregularity <= p <= irregularity)
            && (0.0 < irregularity ==> p < irregularity)
            && (irregularity == 0.0 ==> p == 0.0)
  {
    var u := (value - 0.5) * 2.0;
    assert Perturbation(value, irregularity) == u * irregularity;
    ScaledUnitBounds(u, irregularity);
  }

  /** `u * c` for `u` in `[-1, 1)` lies in `[-c, c)` when `c` is positive, and is 0 when `c` is. */
  lemma ScaledUnitBounds(u: real, c: real)
    requires -1.0 <= u < 1.0
    ensures 0.0 <= c ==> -c <= u * c <= c
    ensures 0.0 < c ==> u * c < c
    ensures c == 0.0 ==> u * c == 0.0
  {
    if 0.0 <= c {
      MulMonotone(-1.0, u, c);
      MulMonotone(u, 1.0, c);
    }
    if 0.0 < c {
      MulLessRight(u, 1.0, c);
    }
  }

  /** The angle of control point `i` of `n`: `(i / n) * PI * 2`. */
  function ControlAngle(i: nat, n: nat): real
    requires i < n
  {
    (i as real / n as real) * PI * 2.0
  }

  /**
   The unperturbed radius in direction `angle`: `sqrt((rx cos angle)^2 + (ry sin angle)^2)`.
   This is the distance of the ellipse point at parametric angle `angle`, so
   a point placed at this radius in polar direction `angle` lies on the ellipse
   with semi-axes `rx`, `ry` only on its axes (or when `rx == ry`), and outside
   it elsewhere.
   */
  function BaseRadius(rx: real, ry: real, angle: real, h: Host): real {
    var cx := rx * h.cos(angle);
    var sy := ry * h.sin(angle);
    h.sqrt(cx * cx + sy * sy)
  }

  /** The perturbed radius of control point `i`, which uses draw number `i`. */
  function ControlRadius(i: nat, n: nat, rx: real, ry: real, irregularity: real, seed: nat, h: Host): real
    requires i < n && seed < Modulus
  {
    BaseRadius(rx, ry, ControlAngle(i, n), h) * (1.0 + Perturbation(ValueOfDraw(seed, i), irregularity))
  }

  /** Control point `i`, placed around the canvas centre `(width / 2, height / 2)`. */
  function ControlPoint(i: nat, n: nat, rx: real, ry: real, irregularity: real, seed: nat, width: real, height: real, h: Host): Point
    requires i < n && seed < Modulus
  {
    var angle := ControlAngle(i, n);
    var radius := ControlRadius(i, n, rx, ry, irregularity, seed, h);
    Point(h.cos(angle) * radius + width / 2.0, h.sin(angle) * radius + height / 2.0)
  }

  /**
   The control points of `generateIrregularEllipse`: one per evenly spaced
   angle, none when the requested count is not positive.
   */
  function GenerateControlPoints(rx: real, ry: real, irregularity: real, count: int, seed: nat, width: real, height: real, h: Host): (cps: seq<Point>)
    requires seed < Modulus
    ensures |cps| == if count > 0 then count else 0
    ensures forall i :: 0 <= i < |cps| ==> cps[i] == ControlPoint(i, count, rx, ry, irregularity, seed, width, height, h)
  {
    if count <= 0 then []
    else seq(count, i requires 0 <= i < count => ControlPoint(i, count, rx, ry, irregularity, seed, width, height, h))
  }

  /** The irregular boundary: control points and the curve sampled through them. */
  datatype Curve = Curve(controlPoints: seq<Point>, boundary: Sampled)

  /**
   `generateIrregularEllipse`. The sampled boundary is the one interpolated
   through the generated control points.
   */
  function GenerateIrregular(rx: real, ry: real, irregularity: real, count: int, seed: nat, width: real, height: real, h: Host): (c: Curve)
    requires seed < Modulus && 1 <= count
    ensures |c.controlPoints| == count
    ensures c.boundary == InterpolateBoundary(c.controlPoints)
  {
    var cps := GenerateControlPoints(rx, ry, irregularity, count, seed, width, height, h);
    Curve(cps, InterpolateBoundary(cps))
  }

  /**
   Each control point lies at its perturbed radius from the canvas centre, in
   the direction of its angle.
   */
  lemma ControlPointDistance(i: nat, n: nat, rx: real, ry: real, irregularity: real, seed: nat, width: real, height: real, h: Host)
    requires h.Valid() && i < n && seed < Modulus
    ensures var p := ControlPoint(i, n, rx, ry, irregularity, seed, width, height, h);
            var r := ControlRadius(i, n, rx, ry, irregularity, seed, h);
            NormSq(Sub(p, Point(width / 2.0, height / 2.0))) == r * r
  {
    var angle := ControlAngle(i, n);
    var r := ControlRadius(i, n, rx, ry, irregularity, seed, h);
    var c, s := h.cos(angle), h.sin(angle);
    assert c * c + s * s == 1.0;
    calc {
      (c * r) * (c * r) + (s * r) * (s * r);
      (c * c + s * s) * (r * r);
      r * r;
    }
  }

  /**
   The perturbed radius stays within `irregularity` of the base radius, as a
   fraction of it, and equals it when `irregularity` is zero.
   */
  lemma ControlRadiusBounds(i: nat, n: nat, rx: real, ry: real, irregularity: real, seed: nat, h: Host)
    requires h.Valid() && i < n && seed < Modulus && 0.0 <= irregularity
    ensures var base := BaseRadius(rx, ry, ControlAngle(i, n), h);
            var r := ControlRadius(i, n, rx, ry, irregularity, seed, h);
            && base * (1.0 - irregularity) <= r <= base * (1.0 + irregularity)
            && (irregularity == 0.0 ==> r == base)
  {
    var angle := ControlAngle(i, n);
    var cx := rx * h.cos(angle);
    var sy := ry * h.sin(angle);
    assert 0.0 <= cx * cx + sy * sy;
    var base := BaseRadius(rx, ry, angle, h);
    assert 0.0 <= base;
    var p := Perturbation(ValueOfDraw(seed, i), irregularity);
    PerturbationBounds(ValueOfDraw(seed, i), irregularity);
    MulMonotone(1.0 - irregularity, 1.0 + p, base);
    MulMonotone(1.0 + p, 1.0 + irregularity, base);
    assert base * (1.0 - irregularity) == (1.0 - irregularity) * base;
    assert base * (1.0 + irregularity) == (1.0 + irregularity) * base;
    assert base * (1.0 + p) == (1.0 + p) * base;
  }

  /**
   With zero irregularity no draw matters: each generated control point is
   exactly its unperturbed radius `BaseRadius` away from the canvas centre,
   whatever the seed.
   */
  lemma ZeroIrregularityGivesBaseRadius(rx: real, ry: real, count: int, seed: nat, width: real, height: real, h: Host, i: nat)
    requires h.Valid() && seed < Modulus && i < count
    ensures var cps := GenerateControlPoints(rx, ry, 0.0, count, seed, width, height, h);
            var base := BaseRadius(rx, ry, ControlAngle(i, count), h);
            NormSq(Sub(cps[i], Point(width / 2.0, height / 2.0))) == base * base
  {
    ControlPointDistance(i, count, rx, ry, 0.0, seed, width, height, h);
    ControlRadiusBounds(i, count, rx, ry, 0.0, seed, h);
  }
}
