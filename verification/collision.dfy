/**
 One frame of particle motion (`updateParticles`): every particle moves by its
 velocity, the wall of the current table shape answers a contact with a
 specular reflection and a position correction, and the new position is
 appended to the particle's trail.
 */
module Collision {
  import opened Geometry
  import opened Spline

  /** A particle: position, velocity per frame, radius, colour and the positions it has visited. */
  datatype Particle = Particle(pos: Point, vel: Point, radius: real, color: string, path: seq<Point>)

  /** The table the particles bounce in. */
  datatype Shape =
    | Rectangle(width: real, height: real)
    | Circle(center: Point, radius: real)
    | Ellipse(center: Point, radiusX: real, radiusY: real)
    | Irregular(center: Point, boundary: Sampled)

  /** Position and velocity after the wall has answered. */
  datatype Motion = Motion(pos: Point, vel: Point)

  // ---------------------------------------------------------------------------
  // Rectangle

  /** Whether a disc of radius `r` centred at `pos` touches either wall of `[0, extent]`. */
  predicate TouchesWalls(pos: real, r: real, extent: real) {
    pos - r <= 0.0 || pos + r >= extent
  }

  /**
   One axis of the rectangle wall: on contact the velocity component is
   reversed and the position is clamped into `[r, extent - r]`.
   The result pairs the new position with the new velocity.
   */
  function BounceAxis(pos: real, vel: real, r: real, extent: real): (a: (real, real))
    ensures TouchesWalls(pos, r, extent) ==> a.1 == -vel
    ensures !TouchesWalls(pos, r, extent) ==> a == (pos, vel)
    ensures r <= extent - r ==> r <= a.0 <= extent - r
    ensures r <= extent - r && pos <= r ==> a.0 == r
    ensures r <= extent - r && extent - r <= pos ==> a.0 == extent - r
    ensures r <= pos <= extent - r ==> a.0 == pos
  {
    if TouchesWalls(pos, r, extent) then
      (Max(r, Min(extent - r, pos)), -vel)
    else
      (pos, vel)
  }

  /** The rectangle wall `[0, width] x [0, height]`, one axis after the other. */
  function RectangleResponse(pos: Point, vel: Point, r: real, width: real, height: real): (m: Motion)
    ensures !TouchesWalls(pos.x, r, width) && !TouchesWalls(pos.y, r, height) ==> m == Motion(pos, vel)
    ensures m.vel.x == (if TouchesWalls(pos.x, r, width) then -vel.x else vel.x)
    ensures m.vel.y == (if TouchesWalls(pos.y, r, height) then -vel.y else vel.y)
    ensures !TouchesWalls(pos.x, r, width) ==> m.pos.x == pos.x
    ensures !TouchesWalls(pos.y, r, height) ==> m.pos.y == pos.y
    ensures r <= width - r ==> r <= m.pos.x <= width - r
    ensures r <= height - r ==> r <= m.pos.y <= height - r
  {
    var ax := BounceAxis(pos.x, vel.x, r, width);
    var ay := BounceAxis(pos.y, vel.y, r, height);
    Motion(Point(ax.0, ay.0), Point(ax.1, ay.1))
  }

  // ---------------------------------------------------------------------------
  // Circle

  /** The disc touches or crosses the circular wall: `distance + r >= R`. */
  predicate CircleHit(pos: Point, r: real, center: Point, wallRadius: real, h: Host) {
    Length(Sub(pos, center), h) + r >= wallRadius
  }

  /**
   The circle response divides by the distance to the centre; a contact at
   the centre itself (a particle at least as large as the table) has no normal.
   */
  predicate CircleDefined(pos: Point, r: real, center: Point, wallRadius: real, h: Host) {
    CircleHit(pos, r, center, wallRadius, h) ==> Length(Sub(pos, center), h) != 0.0
  }

  /** The unit vector from `center` towards `pos`. */
  function RadialNormal(pos: Point, center: Point, h: Host): Point
    requires Length(Sub(pos, center), h) != 0.0
  {
    Divide(Sub(pos, center), Length(Sub(pos, center), h))
  }

  /**
   The circular wall: on contact reflect the velocity across the radial
   normal and pull the particle back along it by the overlap
   `distance + r - R`.
   */
  function CircleResponse(pos: Point, vel: Point, r: real, center: Point, wallRadius: real, h: Host): (m: Motion)
    requires CircleDefined(pos, r, center, wallRadius, h)
    ensures !CircleHit(pos, r, center, wallRadius, h) ==> m == Motion(pos, vel)
    ensures CircleHit(pos, r, center, wallRadius, h) ==> m.vel == Reflect(vel, RadialNormal(pos, center, h))
  {
    if CircleHit(pos, r, center, wallRadius, h) then
      var n := RadialNormal(pos, center, h);
      var overlap := Length(Sub(pos, center), h) + r - wallRadius;
      Motion(Sub(pos, Scale(n, overlap)), Reflect(vel, n))
    else
      Motion(pos, vel)
  }

  /**
   After a contact with the circular wall the speed is unchanged, the motion
   along the radius is reversed, and the particle sits exactly `R - r` from the
   centre: touching the wall from inside.
   */
  lemma CircleBounce(pos: Point, vel: Point, r: real, center: Point, wallRadius: real, h: Host)
    requires h.Valid()
    requires CircleDefined(pos, r, center, wallRadius, h) && CircleHit(pos, r, center, wallRadius, h)
    ensures var m := CircleResponse(pos, vel, r, center, wallRadius, h);
            var n := RadialNormal(pos, center, h);
            && NormSq(n) == 1.0
            && NormSq(m.vel) == NormSq(vel)
            && Dot(m.vel, n) == -Dot(vel, n)
            && NormSq(Sub(m.pos, center)) == (wallRadius - r) * (wallRadius - r)
            && (r <= wallRadius ==> Length(Sub(m.pos, center), h) == wallRadius - r)
  {
    var d := Sub(pos, center);
    var dist := Length(d, h);
    LengthPositive(d, h);
    var n := Divide(d, dist);
    DivideByLengthIsUnit(d, dist);
    ReflectPreservesSpeed(vel, n);
    var c := wallRadius - r;
    var k := c / dist;
    var q := Sub(Sub(pos, Scale(n, dist - c)), center);
    PullBack(d.x, dist, c);
    PullBack(d.y, dist, c);
    assert q == Scale(d, k);
    ScaleNormSq(d, k);
    SquareOfQuotient(k, dist, c, NormSq(d));
    if r <= wallRadius {
      SqrtUnique(h, NormSq(q), c);
    }
  }

  /** Pulling `x` back by the fraction `(dist - c) / dist` of itself leaves `x * (c / dist)`. */
  lemma PullBack(x: real, dist: real, c: real)
    requires dist != 0.0
    ensures x - (x / dist) * (dist - c) == x * (c / dist)
  {
    assert (x / dist) * dist == x;
    assert (x / dist) * (dist - c) == x - (x / dist) * c;
    assert (x / dist) * c == x * (c / dist);
  }

  /** With `n == dist^2`, the square of `c / dist` times `n` is `c^2`. */
  lemma SquareOfQuotient(k: real, dist: real, c: real, n: real)
    requires dist != 0.0 && k == c / dist && dist * dist == n
    ensures k * k * n == c * c
  {
    assert k * dist == c;
    assert k * k * n == (k * dist) * (k * dist);
  }

  // ---------------------------------------------------------------------------
  // Ellipse

  /** How far inside the surface the ellipse correction puts the particle, as a fraction of the way from the centre. */
  const Inset: real := 0.99

  /** The offset `d` in the ellipse's own units: `(dx / a, dy / b)`. */
  function EllipseCoordinates(d: Point, radiusX: real, radiusY: real): Point
    requires radiusX != 0.0 && radiusY != 0.0
  {
    Point(d.x / radiusX, d.y / radiusY)
  }

  /**
   `(dx^2 / a^2) + (dy^2 / b^2)` for the offset `d` from the centre, written as
   the squared length in the ellipse's own units: 1 on the ellipse, below 1 inside.
   */
  function EllipseValue(d: Point, radiusX: real, radiusY: real): real
    requires radiusX != 0.0 && radiusY != 0.0
  {
    NormSq(EllipseCoordinates(d, radiusX, radiusY))
  }

  /** The gradient `(dx / a^2, dy / b^2)` of the ellipse equation: an outward normal. */
  function EllipseGradient(d: Point, radiusX: real, radiusY: real): Point
    requires radiusX != 0.0 && radiusY != 0.0
  {
    Point(d.x / (radiusX * radiusX), d.y / (radiusY * radiusY))
  }

  /** The particle's centre is on or outside the ellipse. */
  predicate EllipseHit(pos: Point, center: Point, radiusX: real, radiusY: real)
    requires radiusX != 0.0 && radiusY != 0.0
  {
    EllipseValue(Sub(pos, center), radiusX, radiusY) >= 1.0
  }

  /** The ellipse response divides by the gradient's length and by the square root of the ellipse value. */
  predicate EllipseDefined(pos: Point, center: Point, radiusX: real, radiusY: real, h: Host)
    requires radiusX != 0.0 && radiusY != 0.0
  {
    var d := Sub(pos, center);
    EllipseHit(pos, center, radiusX, radiusY) ==>
      && Length(EllipseGradient(d, radiusX, radiusY), h) != 0.0
      && h.sqrt(EllipseValue(d, radiusX, radiusY)) != 0.0
  }

  /** The unit outward normal of the ellipse through the offset `d`. */
  function EllipseNormal(d: Point, radiusX: real, radiusY: real, h: Host): Point
    requires radiusX != 0.0 && radiusY != 0.0
    requires Length(EllipseGradient(d, radiusX, radiusY), h) != 0.0
  {
    var g := EllipseGradient(d, radiusX, radiusY);
    Divide(g, Length(g, h))
  }

  /**
   The elliptical wall: on contact reflect across the normalised gradient and
   move the particle onto the ray from the centre, at `Inset` of the way to the
   surface.
   */
  function EllipseResponse(pos: Point, vel: Point, center: Point, radiusX: real, radiusY: real, h: Host): (m: Motion)
    requires radiusX != 0.0 && radiusY != 0.0
    requires EllipseDefined(pos, center, radiusX, radiusY, h)
    ensures !EllipseHit(pos, center, radiusX, radiusY) ==> m == Motion(pos, vel)
    ensures EllipseHit(pos, center, radiusX, radiusY) ==> m.vel == Reflect(vel, EllipseNormal(Sub(pos, center), radiusX, radiusY, h))
  {
    var d := Sub(pos, center);
    if EllipseHit(pos, center, radiusX, radiusY) then
      var n := EllipseNormal(d, radiusX, radiusY, h);
      var scale := h.sqrt(EllipseValue(d, radiusX, radiusY));
      Motion(Add(center, Scale(Divide(d, scale), Inset)), Reflect(vel, n))
    else
      Motion(pos, vel)
  }

  /** Scaling the offset by `k` scales the ellipse value by `k * k`. */
  lemma EllipseValueScales(d: Point, k: real, radiusX: real, radiusY: real)
    requires radiusX != 0.0 && radiusY != 0.0
    ensures EllipseValue(Scale(d, k), radiusX, radiusY) == k * k * EllipseValue(d, radiusX, radiusY)
  {
    var u := EllipseCoordinates(d, radiusX, radiusY);
    DivideCommutesWithScale(d.x, k, radiusX);
    DivideCommutesWithScale(d.y, k, radiusY);
    assert EllipseCoordinates(Scale(d, k), radiusX, radiusY) == Scale(u, k);
    ScaleNormSq(u, k);
  }

  lemma DivideCommutesWithScale(x: real, k: real, c: real)
    requires c != 0.0
    ensures (x * k) / c == (x / c) * k
  {
    assert (x / c) * c == x;
  }

  /**
   After a contact with the elliptical wall the speed is unchanged, the motion
   along the normal is reversed, and the particle lies strictly inside the
   ellipse, on the level curve `Inset^2`.
   */
  lemma EllipseBounce(pos: Point, vel: Point, center: Point, radiusX: real, radiusY: real, h: Host)
    requires h.Valid()
    requires radiusX != 0.0 && radiusY != 0.0
    requires EllipseDefined(pos, center, radiusX, radiusY, h) && EllipseHit(pos, center, radiusX, radiusY)
    ensures var m := EllipseResponse(pos, vel, center, radiusX, radiusY, h);
            var n := EllipseNormal(Sub(pos, center), radiusX, radiusY, h);
            && NormSq(n) == 1.0
            && NormSq(m.vel) == NormSq(vel)
            && Dot(m.vel, n) == -Dot(vel, n)
            && EllipseValue(Sub(m.pos, center), radiusX, radiusY) == Inset * Inset
            && EllipseValue(Sub(m.pos, center), radiusX, radiusY) < 1.0
  {
    var d := Sub(pos, center);
    var g := EllipseGradient(d, radiusX, radiusY);
    LengthPositive(g, h);
    DivideByLengthIsUnit(g, Length(g, h));
    var n := EllipseNormal(d, radiusX, radiusY, h);
    ReflectPreservesSpeed(vel, n);
    var f := EllipseValue(d, radiusX, radiusY);
    var scale := h.sqrt(f);
    assert scale * scale == f;
    var k := Inset / scale;
    var q := Sub(Add(center, Scale(Divide(d, scale), Inset)), center);
    assert q == Scale(d, k);
    EllipseValueScales(d, k, radiusX, radiusY);
    assert k * k * f == Inset * Inset by {
      assert k * scale == Inset;
      assert (k * scale) * (k * scale) == k * k * f;
    }
  }

  // ---------------------------------------------------------------------------
  // Irregular boundary

  /** How many samples on either side of the nearest one span the local tangent. */
  const NeighbourRange: nat := 5

  /**
   A boundary the program can hold: matching coordinate lists that are either
   empty (nothing generated yet) or long enough for the tangent window.
   */
  predicate BoundaryShaped(b: Sampled) {
    |b.xs| == |b.ys| && (|b.xs| == 0 || NeighbourRange <= |b.xs|)
  }

  /** Sample `i` of the boundary. */
  function BoundaryPoint(b: Sampled, i: int): Point
    requires 0 <= i < |b.xs| && i < |b.ys|
  {
    Point(b.xs[i], b.ys[i])
  }

  /**
   The angle between two directions given by angles in `[-PI, PI]`: the
   absolute difference, folded back into `[0, PI]` when it exceeds `PI`.
   */
  function AngleDiff(a: real, b: real): (r: real)
    ensures -PI <= a <= PI && -PI <= b <= PI ==> 0.0 <= r <= PI
  {
    var d := Abs(a - b);
    if d > PI then 2.0 * PI - d else d
  }

  /** The angular distance does not depend on the order of its arguments. */
  lemma AngleDiffSymmetric(a: real, b: real)
    ensures AngleDiff(a, b) == AngleDiff(b, a)
  {
  }

  /**
   Two angles in `[-PI, PI]` are at angular distance zero exactly when they
   name the same direction: equal, or `-PI` and `PI`.
   */
  lemma AngleDiffZeroIff(a: real, b: real)
    requires -PI <= a <= PI && -PI <= b <= PI
    ensures AngleDiff(a, b) == 0.0 <==> a == b || Abs(a - b) == 2.0 * PI
  {
  }

  /**
   The index the scan with a strict `<` settles on: a smallest element, and
   the first of several equal ones.
   */
  function FirstMinimum(ds: seq<real>): (k: nat)
    requires |ds| > 0
    ensures k < |ds|
    ensures forall j :: 0 <= j < |ds| ==> ds[k] <= ds[j]
    ensures forall j :: 0 <= j < k ==> ds[k] < ds[j]
  {
    if |ds| == 1 then 0
    else
      var k := FirstMinimum(ds[..|ds| - 1]);
      if ds[|ds| - 1] < ds[k] then |ds| - 1 else k
  }

  /** Only one index is a smallest element with every earlier element strictly larger. */
  lemma FirstMinimumUnique(ds: seq<real>, k: nat)
    requires k < |ds|
    requires forall j :: 0 <= j < |ds| ==> ds[k] <= ds[j]
    requires forall j :: 0 <= j < k ==> ds[k] < ds[j]
    ensures k == FirstMinimum(ds)
  {
  }

  /** The direction, as an angle, of `p` seen from `c`. */
  function Bearing(p: Point, c: Point, h: Host): real {
    h.atan2(p.y - c.y, p.x - c.x)
  }

  /** The angular distance from `target` to the direction of every boundary sample, seen from `c`. */
  function AngleDiffs(b: Sampled, c: Point, target: real, h: Host): (ds: seq<real>)
    requires |b.xs| == |b.ys|
    ensures |ds| == |b.xs|
    ensures forall i :: 0 <= i < |ds| ==> ds[i] == AngleDiff(target, Bearing(BoundaryPoint(b, i), c, h))
    ensures h.Valid() && -PI <= target <= PI ==> forall i :: 0 <= i < |ds| ==> 0.0 <= ds[i] <= PI
  {
    seq(|b.xs|, i requires 0 <= i < |b.xs| => AngleDiff(target, Bearing(BoundaryPoint(b, i), c, h)))
  }

  /**
   `NearestSample(b, c, pos, h)` is the boundary sample whose direction from
   `c` is angularly closest to that of `pos`, the first one on a tie.
   */
  function NearestSample(b: Sampled, c: Point, pos: Point, h: Host): (k: nat)
    requires BoundaryShaped(b) && 0 < |b.xs|
    ensures k < |b.xs|
  {
    FirstMinimum(AngleDiffs(b, c, Bearing(pos, c, h), h))
  }

  /** No sample is angularly closer to `pos` than the nearest one, and every earlier sample is strictly farther. */
  lemma NearestSampleIsClosest(b: Sampled, c: Point, pos: Point, h: Host, j: int)
    requires BoundaryShaped(b) && 0 <= j < |b.xs|
    ensures var k := NearestSample(b, c, pos, h);
            var target := Bearing(pos, c, h);
            && AngleDiff(target, Bearing(BoundaryPoint(b, k), c, h)) <= AngleDiff(target, Bearing(BoundaryPoint(b, j), c, h))
            && (j < k ==> AngleDiff(target, Bearing(BoundaryPoint(b, k), c, h)) < AngleDiff(target, Bearing(BoundaryPoint(b, j), c, h)))
  {
    var ds := AngleDiffs(b, c, Bearing(pos, c, h), h);
    var k := FirstMinimum(ds);
    assert ds[k] <= ds[j];
  }

  /** The samples `NeighbourRange` before and after sample `k`, wrapping around the closed curve. */
  function TangentWindow(k: int, n: int): (w: (int, int))
    requires NeighbourRange <= n && 0 <= k < n
    ensures 0 <= w.0 < n && 0 <= w.1 < n
    ensures (w.0 + NeighbourRange) % n == k
    ensures (w.0 + 2 * NeighbourRange) % n == w.1
    ensures NeighbourRange <= k < n - NeighbourRange ==> w == (k - NeighbourRange, k + NeighbourRange)
  {
    WindowArithmetic(k, n);
    ((k - NeighbourRange + n) % n, (k + NeighbourRange) % n)
  }

  lemma WindowArithmetic(k: int, n: int)
    requires NeighbourRange <= n && 0 <= k < n
    ensures ((k - NeighbourRange + n) % n + NeighbourRange) % n == k
    ensures ((k - NeighbourRange + n) % n + 2 * NeighbourRange) % n == (k + NeighbourRange) % n
    ensures NeighbourRange <= k < n - NeighbourRange ==>
              (k - NeighbourRange + n) % n == k - NeighbourRange && (k + NeighbourRange) % n == k + NeighbourRange
  {
    WindowBack(k, n);
    WindowAcross(k, n);
    if NeighbourRange <= k < n - NeighbourRange {
      ModUnique(k - NeighbourRange + n, n, 1, k - NeighbourRange);
      ModUnique(k + NeighbourRange, n, 0, k + NeighbourRange);
    }
  }

  lemma WindowBack(k: int, n: int)
    requires NeighbourRange <= n && 0 <= k < n
    ensures ((k - NeighbourRange + n) % n + NeighbourRange) % n == k
  {
    var a := k - NeighbourRange + n;
    ModAdd(a, NeighbourRange, n);
    assert a + NeighbourRange == k + n;
    ModUnique(k + n, n, 1, k);
  }

  lemma WindowAcross(k: int, n: int)
    requires NeighbourRange <= n && 0 <= k < n
    ensures ((k - NeighbourRange + n) % n + 2 * NeighbourRange) % n == (k + NeighbourRange) % n
  {
    var a := k - NeighbourRange + n;
    ModAdd(a, 2 * NeighbourRange, n);
    assert a + 2 * NeighbourRange == (k + NeighbourRange) + n;
    ModAddPeriod(k + NeighbourRange, n);
  }

  /** Reducing the left operand first does not change a remainder. */
  lemma ModAdd(a: int, c: int, n: int)
    requires 0 <= a && 0 <= c && 1 <= n
    ensures (a % n + c) % n == (a + c) % n
  {
    var q2, r2 := (a % n + c) / n, (a % n + c) % n;
    assert a + c == (a / n) * n + q2 * n + r2;
    assert (a / n) * n + q2 * n == (a / n + q2) * n;
    ModUnique(a + c, n, a / n + q2, r2);
  }

  /** The chord from the sample `NeighbourRange` before `k` to the one `NeighbourRange` after. */
  function Tangent(b: Sampled, k: int): Point
    requires BoundaryShaped(b) && 0 <= k < |b.xs|
  {
    var w := TangentWindow(k, |b.xs|);
    Sub(BoundaryPoint(b, w.1), BoundaryPoint(b, w.0))
  }

  /**
   The unit normal of a chord `t`, turned to face `toCenter`: perpendicular to
   the chord and making a non-negative dot product with `toCenter`.
   */
  function InwardNormal(t: Point, toCenter: Point, h: Host): (n: Point)
    requires Length(Perp(t), h) != 0.0
    ensures Dot(n, toCenter) >= 0.0
    ensures Dot(n, t) == 0.0
    ensures h.Valid() ==> NormSq(n) == 1.0
  {
    var unit := Divide(Perp(t), Length(Perp(t), h));
    UnitNormalFacts(t, h);
    if Dot(unit, toCenter) < 0.0 then Neg(unit) else unit
  }

  /** The inward normal of the boundary at sample `k`, for the centre `c`. */
  function BoundaryNormal(b: Sampled, k: int, c: Point, h: Host): Point
    requires BoundaryShaped(b) && 0 <= k < |b.xs|
    requires Length(Perp(Tangent(b, k)), h) != 0.0
  {
    InwardNormal(Tangent(b, k), Sub(c, BoundaryPoint(b, k)), h)
  }

  /**
   The perpendicular of `t` divided by its length is orthogonal to `t`, and of
   unit length, as is its opposite.
   */
  lemma UnitNormalFacts(t: Point, h: Host)
    requires Length(Perp(t), h) != 0.0
    ensures var u := Divide(Perp(t), Length(Perp(t), h));
            && Dot(u, t) == 0.0 && Dot(Neg(u), t) == 0.0
            && (h.Valid() ==> NormSq(u) == 1.0 && NormSq(Neg(u)) == 1.0)
  {
    var raw := Perp(t);
    var len := Length(raw, h);
    var u := Divide(raw, len);
    assert Dot(u, t) * len == Dot(raw, t);
    assert NormSq(Neg(u)) == NormSq(u);
    if h.Valid() {
      LengthPositive(raw, h);
      DivideByLengthIsUnit(raw, len);
    }
  }

  /**
   The particle is at or beyond the boundary sample nearest to it in
   direction, less its radius. An empty boundary is never hit: the program
   reads a missing sample there, its distance is not a number, and no
   comparison with it holds.
   */
  predicate IrregularHit(pos: Point, r: real, c: Point, b: Sampled, h: Host)
    requires BoundaryShaped(b)
  {
    && 0 < |b.xs|
    && var k := NearestSample(b, c, pos, h);
       Length(Sub(pos, c), h) >= Length(Sub(BoundaryPoint(b, k), c), h) - r
  }

  /** The irregular response divides by the length of the chord's normal and by the particle's distance from the centre. */
  predicate IrregularDefined(pos: Point, r: real, c: Point, b: Sampled, h: Host)
    requires BoundaryShaped(b)
  {
    IrregularHit(pos, r, c, b, h) ==>
      && Length(Perp(Tangent(b, NearestSample(b, c, pos, h))), h) != 0.0
      && Length(Sub(pos, c), h) != 0.0
  }

  /** How far from the centre the irregular correction puts the particle: the boundary distance less twice the radius. */
  function TargetDistance(pos: Point, r: real, c: Point, b: Sampled, h: Host): real
    requires BoundaryShaped(b) && 0 < |b.xs|
  {
    Length(Sub(BoundaryPoint(b, NearestSample(b, c, pos, h)), c), h) - r * 2.0
  }

  /**
   The irregular wall: on contact reflect across the inward normal of the
   chord at the nearest sample, then move the particle along its ray from the
   centre to `TargetDistance`.
   */
  function IrregularResponse(pos: Point, vel: Point, r: real, c: Point, b: Sampled, h: Host): (m: Motion)
    requires BoundaryShaped(b) && IrregularDefined(pos, r, c, b, h)
    ensures !IrregularHit(pos, r, c, b, h) ==> m == Motion(pos, vel)
    ensures IrregularHit(pos, r, c, b, h) ==> m.vel == Reflect(vel, BoundaryNormal(b, NearestSample(b, c, pos, h), c, h))
  {
    if IrregularHit(pos, r, c, b, h) then
      var k := NearestSample(b, c, pos, h);
      var n := BoundaryNormal(b, k, c, h);
      Motion(MoveToDistance(pos, c, TargetDistance(pos, r, c, b, h), h), Reflect(vel, n))
    else
      Motion(pos, vel)
  }

  /**
   After a contact with the irregular wall the speed is unchanged, and the
   motion along the inward normal is reversed while the motion along the chord
   is kept.
   */
  lemma IrregularBounceVelocity(pos: Point, vel: Point, r: real, c: Point, b: Sampled, h: Host)
    requires h.Valid()
    requires BoundaryShaped(b) && IrregularDefined(pos, r, c, b, h) && IrregularHit(pos, r, c, b, h)
    ensures var m := IrregularResponse(pos, vel, r, c, b, h);
            var k := NearestSample(b, c, pos, h);
            var n := BoundaryNormal(b, k, c, h);
            && NormSq(m.vel) == NormSq(vel)
            && Dot(m.vel, n) == -Dot(vel, n)
            && Dot(m.vel, Tangent(b, k)) == Dot(vel, Tangent(b, k))
  {
    var k := NearestSample(b, c, pos, h);
    var n := BoundaryNormal(b, k, c, h);
    ReflectPreservesSpeed(vel, n);
    ReflectKeepsTangent(vel, n, Tangent(b, k));
  }

  /**
   After a contact with the irregular wall the particle lies at
   `TargetDistance` from the centre when that is not negative, which for a
   particle of positive radius is strictly nearer the centre than before.
   */
  lemma IrregularBouncePosition(pos: Point, vel: Point, r: real, c: Point, b: Sampled, h: Host)
    requires h.Valid()
    requires BoundaryShaped(b) && IrregularDefined(pos, r, c, b, h) && IrregularHit(pos, r, c, b, h)
    ensures 0.0 <= TargetDistance(pos, r, c, b, h) ==>
              Length(Sub(IrregularResponse(pos, vel, r, c, b, h).pos, c), h) == TargetDistance(pos, r, c, b, h)
    ensures 0.0 < r && 0.0 <= TargetDistance(pos, r, c, b, h) ==>
              Length(Sub(IrregularResponse(pos, vel, r, c, b, h).pos, c), h) < Length(Sub(pos, c), h)
  {
    var target := TargetDistance(pos, r, c, b, h);
    assert IrregularResponse(pos, vel, r, c, b, h).pos == MoveToDistance(pos, c, target, h);
    RescaleToDistance(pos, c, target, h);
  }

  /** `pos` moved along its ray from `c` by the factor `target / distance`. */
  function MoveToDistance(pos: Point, c: Point, target: real, h: Host): Point
    requires Length(Sub(pos, c), h) != 0.0
  {
    Add(c, Scale(Sub(pos, c), target / Length(Sub(pos, c), h)))
  }

  /**
   `MoveToDistance` puts `pos` at squared distance `target^2` from `c`, and at
   distance `target` when that is not negative.
   */
  lemma RescaleToDistance(pos: Point, c: Point, target: real, h: Host)
    requires h.Valid() && Length(Sub(pos, c), h) != 0.0
    ensures NormSq(Sub(MoveToDistance(pos, c, target, h), c)) == target * target
    ensures 0.0 <= target ==> Length(Sub(MoveToDistance(pos, c, target, h), c), h) == target
  {
    var d := Sub(pos, c);
    var dist := Length(d, h);
    LengthPositive(d, h);
    var scale := target / dist;
    var q := Sub(Add(c, Scale(d, scale)), c);
    assert q == Scale(d, scale);
    ScaleNormSq(d, scale);
    SquareOfQuotient(scale, dist, target, NormSq(d));
    if 0.0 <= target {
      SqrtUnique(h, NormSq(q), target);
    }
  }

  // ---------------------------------------------------------------------------
  // One frame

  /** Parameters every shape needs before the frame can be computed at all. */
  predicate WellFormed(shape: Shape) {
    match shape
    case Rectangle(_, _) => true
    case Circle(_, _) => true
    case Ellipse(_, radiusX, radiusY) => radiusX != 0.0 && radiusY != 0.0
    case Irregular(_, boundary) => BoundaryShaped(boundary)
  }

  /** The divisions of the wall response at `pos` have non-zero divisors. */
  predicate Defined(shape: Shape, pos: Point, r: real, h: Host)
    requires WellFormed(shape)
  {
    match shape
    case Rectangle(_, _) => true
    case Circle(center, radius) => CircleDefined(pos, r, center, radius, h)
    case Ellipse(center, radiusX, radiusY) => EllipseDefined(pos, center, radiusX, radiusY, h)
    case Irregular(center, boundary) => IrregularDefined(pos, r, center, boundary, h)
  }

  /** Whether the wall of `shape` answers a disc of radius `r` at `pos`. */
  predicate Hits(shape: Shape, pos: Point, r: real, h: Host)
    requires WellFormed(shape)
  {
    match shape
    case Rectangle(width, height) => TouchesWalls(pos.x, r, width) || TouchesWalls(pos.y, r, height)
    case Circle(center, radius) => CircleHit(pos, r, center, radius, h)
    case Ellipse(center, radiusX, radiusY) => EllipseHit(pos, center, radiusX, radiusY)
    case Irregular(center, boundary) => IrregularHit(pos, r, center, boundary, h)
  }

  /** The wall response of the current shape. */
  function Respond(shape: Shape, pos: Point, vel: Point, r: real, h: Host): (m: Motion)
    requires WellFormed(shape) && Defined(shape, pos, r, h)
    ensures !Hits(shape, pos, r, h) ==> m == Motion(pos, vel)
    ensures h.Valid() ==> NormSq(m.vel) == NormSq(vel)
  {
    match shape
    case Rectangle(width, height) =>
      RectangleResponse(pos, vel, r, width, height)
    case Circle(center, radius) =>
      assert h.Valid() && CircleHit(pos, r, center, radius, h) ==> NormSq(Reflect(vel, RadialNormal(pos, center, h))) == NormSq(vel) by {
        if h.Valid() && CircleHit(pos, r, center, radius, h) {
          CircleBounce(pos, vel, r, center, radius, h);
        }
      }
      CircleResponse(pos, vel, r, center, radius, h)
    case Ellipse(center, radiusX, radiusY) =>
      assert h.Valid() && EllipseHit(pos, center, radiusX, radiusY) ==>
             NormSq(Reflect(vel, EllipseNormal(Sub(pos, center), radiusX, radiusY, h))) == NormSq(vel) by {
        if h.Valid() && EllipseHit(pos, center, radiusX, radiusY) {
          EllipseBounce(pos, vel, center, radiusX, radiusY, h);
        }
      }
      EllipseResponse(pos, vel, center, radiusX, radiusY, h)
    case Irregular(center, boundary) =>
      assert h.Valid() && IrregularHit(pos, r, center, boundary, h) ==>
             NormSq(Reflect(vel, BoundaryNormal(boundary, NearestSample(boundary, center, pos, h), center, h))) == NormSq(vel) by {
        if h.Valid() && IrregularHit(pos, r, center, boundary, h) {
          IrregularBounceVelocity(pos, vel, r, center, boundary, h);
        }
      }
      IrregularResponse(pos, vel, r, center, boundary, h)
  }

  /**
   One frame for one particle: move by the velocity, let the wall answer, and
   append the resulting position to the trail. Radius and colour never change,
   and the speed is kept whatever the wall does.
   */
  function Step(p: Particle, shape: Shape, h: Host): (q: Particle)
    requires WellFormed(shape) && Defined(shape, Add(p.pos, p.vel), p.radius, h)
    ensures q.radius == p.radius && q.color == p.color
    ensures q.path == p.path + [q.pos]
    ensures !Hits(shape, Add(p.pos, p.vel), p.radius, h) ==> q.pos == Add(p.pos, p.vel) && q.vel == p.vel
    ensures h.Valid() ==> NormSq(q.vel) == NormSq(p.vel)
  {
    var m := Respond(shape, Add(p.pos, p.vel), p.vel, p.radius, h);
    p.(pos := m.pos, vel := m.vel, path := p.path + [m.pos])
  }
}
