/**
 The particle group as a whole: laying it out at the launch point
 (`initParticle`), advancing it one frame (`updateParticles`), and changing its
 speed from the slider.
 */
module Simulation {
  import opened Geometry
  import opened Spline
  import opened Collision

  // ---------------------------------------------------------------------------
  // One frame

  /**
   The scan of `updateParticles` over the angular distances: keep the first
   entry strictly below every one seen so far. Before the first entry nothing
   has been seen (the program starts from an infinite minimum), so entry 0 is
   always taken first.
   */
  method ScanMinimum(ds: seq<real>) returns (k: nat)
    requires 0 < |ds|
    ensures k < |ds|
    ensures forall j :: 0 <= j < |ds| ==> ds[k] <= ds[j]
    ensures forall j :: 0 <= j < k ==> ds[k] < ds[j]
    ensures k == FirstMinimum(ds)
  {
    var seen := false;
    var minDiff := 0.0;
    k := 0;
    var i := 0;
    while i < |ds|
      invariant 0 <= i <= |ds|
      invariant seen <==> 0 < i
      invariant seen ==> k < i && k == FirstMinimum(ds[..i]) && minDiff == ds[k]
    {
      assert ds[..i + 1][..i] == ds[..i];
      if !seen || ds[i] < minDiff {
        minDiff := ds[i];
        k := i;
      }
      seen := true;
      i := i + 1;
    }
    assert ds[..|ds|] == ds;
  }

  /**
   The boundary sample nearest in angle to `pos`, found by the scan: no sample
   is angularly closer, and every earlier sample is strictly farther.
   */
  method ScanNearest(b: Sampled, c: Point, pos: Point, h: Host) returns (k: nat)
    requires BoundaryShaped(b) && 0 < |b.xs|
    ensures k < |b.xs|
    ensures forall j :: 0 <= j < |b.xs| ==>
              AngleDiff(Bearing(pos, c, h), Bearing(BoundaryPoint(b, k), c, h)) <= AngleDiff(Bearing(pos, c, h), Bearing(BoundaryPoint(b, j), c, h))
    ensures forall j :: 0 <= j < k ==>
              AngleDiff(Bearing(pos, c, h), Bearing(BoundaryPoint(b, k), c, h)) < AngleDiff(Bearing(pos, c, h), Bearing(BoundaryPoint(b, j), c, h))
    ensures k == NearestSample(b, c, pos, h)
  {
    var ds := AngleDiffs(b, c, Bearing(pos, c, h), h);
    k := ScanMinimum(ds);
    forall j | 0 <= j < |b.xs| {
      NearestSampleIsClosest(b, c, pos, h, j);
    }
  }

  /**
   The irregular wall's answer, computed the way the program does it, with the
   scan above: a particle clear of the wall is left alone, and a bounce keeps
   its speed.
   */
  method RespondIrregular(pos: Point, vel: Point, r: real, c: Point, b: Sampled, h: Host) returns (m: Motion)
    requires BoundaryShaped(b) && IrregularDefined(pos, r, c, b, h)
    ensures !IrregularHit(pos, r, c, b, h) ==> m == Motion(pos, vel)
    ensures h.Valid() ==> NormSq(m.vel) == NormSq(vel)
    ensures m == IrregularResponse(pos, vel, r, c, b, h)
  {
    if h.Valid() && IrregularHit(pos, r, c, b, h) {
      IrregularBounceVelocity(pos, vel, r, c, b, h);
    }
    if |b.xs| == 0 {
      return Motion(pos, vel);
    }
    var k := ScanNearest(b, c, pos, h);
    var boundaryDist := Length(Sub(BoundaryPoint(b, k), c), h);
    var particleDist := Length(Sub(pos, c), h);
    if particleDist >= boundaryDist - r {
      var n := BoundaryNormal(b, k, c, h);
      m := Motion(MoveToDistance(pos, c, boundaryDist - r * 2.0, h), Reflect(vel, n));
    } else {
      m := Motion(pos, vel);
    }
  }

  /**
   One particle's frame, computed the way the program does it: the trail grows
   by the new position, a particle that meets no wall moves by its velocity,
   and the speed is kept.
   */
  method StepParticle(p: Particle, shape: Shape, h: Host) returns (q: Particle)
    requires WellFormed(shape) && Defined(shape, Add(p.pos, p.vel), p.radius, h)
    ensures q.radius == p.radius && q.color == p.color
    ensures q.path == p.path + [q.pos]
    ensures !Hits(shape, Add(p.pos, p.vel), p.radius, h) ==> q.pos == Add(p.pos, p.vel) && q.vel == p.vel
    ensures h.Valid() ==> NormSq(q.vel) == NormSq(p.vel)
    ensures q == Step(p, shape, h)
  {
    var pos := Add(p.pos, p.vel);
    var m: Motion;
    if shape.Irregular? {
      m := RespondIrregular(pos, p.vel, p.radius, shape.center, shape.boundary, h);
    } else {
      m := Respond(shape, pos, p.vel, p.radius, h);
    }
    q := p.(pos := m.pos, vel := m.vel, path := p.path + [m.pos]);
  }

  /**
   `updateParticles`: every particle takes one step against the same wall.
   The group keeps its size, every trail grows by exactly the new position, and
   every speed is kept.
   */
  method UpdateParticles(ps: seq<Particle>, shape: Shape, h: Host) returns (next: seq<Particle>)
    requires WellFormed(shape)
    requires forall i :: 0 <= i < |ps| ==> Defined(shape, Add(ps[i].pos, ps[i].vel), ps[i].radius, h)
    ensures |next| == |ps|
    ensures forall i :: 0 <= i < |ps| ==> next[i] == Step(ps[i], shape, h)
    ensures forall i :: 0 <= i < |ps| ==> next[i].path == ps[i].path + [next[i].pos]
    ensures forall i :: 0 <= i < |ps| ==> next[i].radius == ps[i].radius && next[i].color == ps[i].color
    ensures h.Valid() ==> forall i :: 0 <= i < |ps| ==> NormSq(next[i].vel) == NormSq(ps[i].vel)
  {
    next := [];
    var i := 0;
    while i < |ps|
      invariant 0 <= i <= |ps|
      invariant |next| == i
      invariant forall j :: 0 <= j < i ==> next[j] == Step(ps[j], shape, h)
    {
      var q := StepParticle(ps[i], shape, h);
      next := next + [q];
      i := i + 1;
    }
  }

  // ---------------------------------------------------------------------------
  // Laying out a new group

  /** Distance between neighbouring particles of a new group. */
  const Spacing: real := 2.0

  /** Radius of every particle. */
  const ParticleRadius: real := 6.0

  /** The colours handed out in turn. */
  const Palette: seq<string> := [
    "#e94560", "#ff6b6b", "#ee5a6f", "#ff4757", "#ff6348",
    "#ff7979", "#eb4d4b", "#f368e0", "#ff9ff3", "#feca57"
  ]

  /** A particle-count field as `parseInt` reads it: a number or not a number. */
  datatype Parsed = NotANumber | Number(value: int)

  /**
   `parseInt(...) || fallback`: a field that is not a number, or is 0, gives
   the fallback; any other number, negative ones included, is kept.
   */
  function CountOrDefault(field: Parsed, fallback: int): (n: int)
    ensures field.Number? && field.value != 0 ==> n == field.value
    ensures field == NotANumber || field == Number(0) ==> n == fallback
    ensures fallback != 0 ==> n != 0
  {
    match field
    case NotANumber => fallback
    case Number(v) => if v == 0 then fallback else v
  }

  /**
   Where the group starts and where it heads, as `getRandomEdgePosition`
   chose them; the random choice itself is made outside the model.
   */
  datatype Launch = Launch(pos: Point, angle: real)

  /** The offset of particle `i` of `n` from the launch point: `i * Spacing - (n - 1) * Spacing / 2`. */
  function Offset(i: int, n: int): real {
    i as real * Spacing - ((n - 1) as real * Spacing) / 2.0
  }

  /** The shared initial velocity: `speed` in the direction `angle`. */
  function LaunchVelocity(angle: real, speed: real, h: Host): (v: Point)
    ensures h.Valid() ==> NormSq(v) == speed * speed
  {
    var c, s := h.cos(angle), h.sin(angle);
    assert (c * speed) * (c * speed) + (s * speed) * (s * speed) == (c * c + s * s) * (speed * speed);
    Point(c * speed, s * speed)
  }

  /** Particle `i` of a new group: standard radius, the `i`-th colour in turn, and a trail holding its start. */
  function NewParticle(i: nat, pos: Point, vel: Point): (p: Particle)
    ensures p.pos == pos && p.vel == vel && p.path == [pos]
    ensures p.radius == ParticleRadius && p.color == Palette[i % |Palette|]
  {
    Particle(pos, vel, ParticleRadius, Palette[i % |Palette|], [pos])
  }

  /** A new group: one particle per start position, all with the same velocity. */
  function NewGroup(positions: seq<Point>, vel: Point): (ps: seq<Particle>)
    ensures |ps| == |positions|
    ensures forall i :: 0 <= i < |ps| ==> ps[i].pos == positions[i] && ps[i].vel == vel && ps[i].path == [positions[i]]
    ensures forall i :: 0 <= i < |ps| ==> ps[i].radius == ParticleRadius && ps[i].color == Palette[i % |Palette|]
  {
    seq(|positions|, i requires 0 <= i < |positions| => NewParticle(i, positions[i], vel))
  }

  /** The number of particles a requested count yields: none when it is not positive. */
  function GroupSize(n: int): nat {
    if n > 0 then n else 0
  }

  /** Start positions on a line through `start`, offset along x when `horizontal`, along y otherwise. */
  function LinePositions(start: Point, horizontal: bool, n: int): (ps: seq<Point>)
    ensures |ps| == GroupSize(n)
  {
    seq(GroupSize(n), i requires 0 <= i < GroupSize(n) =>
      if horizontal then Point(start.x + Offset(i, n), start.y) else Point(start.x, start.y + Offset(i, n)))
  }

  /** Neighbours on a line are exactly `Spacing` apart, along the line's axis only. */
  lemma LineSpacing(start: Point, horizontal: bool, n: int, i: int)
    requires 0 <= i && i + 1 < n
    ensures var ps := LinePositions(start, horizontal, n);
            Sub(ps[i + 1], ps[i]) == (if horizontal then Point(Spacing, 0.0) else Point(0.0, Spacing))
  {
    assert Offset(i + 1, n) - Offset(i, n) == Spacing;
  }

  /** A line is centred on its start: positions `i` and `n - 1 - i` sit symmetrically about it. */
  lemma LineCentred(start: Point, horizontal: bool, n: int, i: int)
    requires 0 <= i < n
    ensures var ps := LinePositions(start, horizontal, n);
            Add(ps[i], ps[n - 1 - i]) == Point(2.0 * start.x, 2.0 * start.y)
  {
    assert Offset(i, n) + Offset(n - 1 - i, n) == 0.0;
  }

  /** The angle of particle `i` of `n` on an arc: `base + i * step - (n - 1) * step / 2`. */
  function ArcAngle(base: real, step: real, i: int, n: int): real {
    base + i as real * step - (n - 1) as real * step / 2.0
  }

  /** Start positions on the ellipse with centre `c` and semi-axes `rx`, `ry` (a circle when they agree). */
  function ArcPositions(c: Point, rx: real, ry: real, base: real, step: real, n: int, h: Host): (ps: seq<Point>)
    ensures |ps| == GroupSize(n)
  {
    seq(GroupSize(n), i requires 0 <= i < GroupSize(n) =>
      var a := ArcAngle(base, step, i, n);
      Point(c.x + h.cos(a) * rx, c.y + h.sin(a) * ry))
  }

  /** Neighbours on an arc are `step` apart in angle, and the arc is centred on `base`. */
  lemma ArcAngles(base: real, step: real, n: int, i: int)
    requires 0 <= i < n
    ensures i + 1 < n ==> ArcAngle(base, step, i + 1, n) - ArcAngle(base, step, i, n) == step
    ensures ArcAngle(base, step, i, n) + ArcAngle(base, step, n - 1 - i, n) == 2.0 * base
  {
  }

  /** Every start position on an arc lies on its ellipse. */
  lemma ArcOnEllipse(c: Point, rx: real, ry: real, base: real, step: real, n: int, h: Host, i: int)
    requires h.Valid() && rx != 0.0 && ry != 0.0 && 0 <= i < n
    ensures EllipseValue(Sub(ArcPositions(c, rx, ry, base, step, n, h)[i], c), rx, ry) == 1.0
  {
    var a := ArcAngle(base, step, i, n);
    var co, si := h.cos(a), h.sin(a);
    assert Sub(ArcPositions(c, rx, ry, base, step, n, h)[i], c) == Point(co * rx, si * ry);
    UnitOnEllipse(co, si, rx, ry);
  }

  /** `(cos a * rx, sin a * ry)` is on the ellipse with semi-axes `rx`, `ry`. */
  lemma UnitOnEllipse(co: real, si: real, rx: real, ry: real)
    requires rx != 0.0 && ry != 0.0 && co * co + si * si == 1.0
    ensures EllipseValue(Point(co * rx, si * ry), rx, ry) == 1.0
  {
    MultiplyThenDivide(co, rx);
    MultiplyThenDivide(si, ry);
    assert EllipseCoordinates(Point(co * rx, si * ry), rx, ry) == Point(co, si);
  }

  lemma MultiplyThenDivide(x: real, k: real)
    requires k != 0.0
    ensures (x * k) / k == x
  {
  }

  /** On a circular arc every start position is `radius` from the centre. */
  lemma ArcOnCircle(c: Point, radius: real, base: real, step: real, n: int, h: Host, i: int)
    requires h.Valid() && 0 <= i < n
    ensures NormSq(Sub(ArcPositions(c, radius, radius, base, step, n, h)[i], c)) == radius * radius
  {
    var a := ArcAngle(base, step, i, n);
    var co, si := h.cos(a), h.sin(a);
    assert Sub(ArcPositions(c, radius, radius, base, step, n, h)[i], c) == Point(co * radius, si * radius);
    UnitOnCircle(co, si, radius);
  }

  /** `(cos a * radius, sin a * radius)` is `radius` from the origin. */
  lemma UnitOnCircle(co: real, si: real, radius: real)
    requires co * co + si * si == 1.0
    ensures NormSq(Point(co * radius, si * radius)) == radius * radius
  {
    ScaleUnit(Point(co, si), radius);
  }

  /** Where the program places the new group, for each shape. */
  function StartPositions(shape: Shape, launch: Launch, n: int, h: Host): (ps: seq<Point>)
    requires shape.Circle? ==> shape.radius != 0.0
    requires shape.Ellipse? ==> shape.radiusX != 0.0 && shape.radiusY != 0.0 && shape.radiusX + shape.radiusY != 0.0
    ensures |ps| == GroupSize(n)
  {
    match shape
    case Rectangle(_, height) =>
      LinePositions(launch.pos, launch.pos.y == 0.0 || launch.pos.y == height, n)
    case Circle(c, radius) =>
      ArcPositions(c, radius, radius, Bearing(launch.pos, c, h), Spacing / radius, n, h)
    case Ellipse(c, rx, ry) =>
      var d := Sub(launch.pos, c);
      ArcPositions(c, rx, ry, h.atan2(d.y / ry, d.x / rx), Spacing / ((rx + ry) / 2.0), n, h)
    case Irregular(_, _) =>
      LinePositions(launch.pos, true, n)
  }

  /**
   `initParticle`: `n` particles at the start positions, all moving at
   `speed` in the launch direction, each with a trail holding only its start.
   */
  function Spawn(shape: Shape, launch: Launch, n: int, speed: real, h: Host): (ps: seq<Particle>)
    requires shape.Circle? ==> shape.radius != 0.0
    requires shape.Ellipse? ==> shape.radiusX != 0.0 && shape.radiusY != 0.0 && shape.radiusX + shape.radiusY != 0.0
    ensures |ps| == GroupSize(n)
    ensures h.Valid() ==> forall i :: 0 <= i < |ps| ==> NormSq(ps[i].vel) == speed * speed
    ensures forall i :: 0 <= i < |ps| ==> ps[i].path == [ps[i].pos] && ps[i].radius == ParticleRadius
    ensures forall i :: 0 <= i < |ps| ==>
              ps[i].vel == LaunchVelocity(launch.angle, speed, h) && ps[i].pos == StartPositions(shape, launch, n, h)[i]
    ensures forall i :: 0 <= i < |ps| ==> ps[i].color == Palette[i % |Palette|]
  {
    NewGroup(StartPositions(shape, launch, n, h), LaunchVelocity(launch.angle, speed, h))
  }

  /**
   The rectangle's group lies along the edge the launch point is on, centred
   on the launch point: on the top or bottom edge every particle keeps the
   launch `y` and is offset along `x`; on a side edge it keeps the launch `x`
   and is offset along `y`.
   */
  lemma RectangleGroupFollowsEdge(width: real, height: real, launch: Launch, n: int, speed: real, h: Host, i: int)
    requires 0 <= i < n
    ensures var p := Spawn(Rectangle(width, height), launch, n, speed, h)[i].pos;
            if launch.pos.y == 0.0 || launch.pos.y == height then p == Point(launch.pos.x + Offset(i, n), launch.pos.y)
            else p == Point(launch.pos.x, launch.pos.y + Offset(i, n))
  {
  }

  /** The irregular shape's group is always a horizontal line through the launch point. */
  lemma IrregularGroupIsHorizontal(c: Point, b: Sampled, launch: Launch, n: int, speed: real, h: Host, i: int)
    requires 0 <= i < n
    ensures Spawn(Irregular(c, b), launch, n, speed, h)[i].pos == Point(launch.pos.x + Offset(i, n), launch.pos.y)
  {
  }

  /** The circle's group starts on the circle. */
  lemma CircleGroupOnWall(c: Point, radius: real, launch: Launch, n: int, speed: real, h: Host, i: int)
    requires h.Valid() && radius != 0.0 && 0 <= i < n
    ensures NormSq(Sub(Spawn(Circle(c, radius), launch, n, speed, h)[i].pos, c)) == radius * radius
  {
    ArcOnCircle(c, radius, Bearing(launch.pos, c, h), Spacing / radius, n, h, i);
  }

  /** The ellipse's group starts on the ellipse. */
  lemma EllipseGroupOnWall(c: Point, rx: real, ry: real, launch: Launch, n: int, speed: real, h: Host, i: int)
    requires h.Valid() && rx != 0.0 && ry != 0.0 && rx + ry != 0.0 && 0 <= i < n
    ensures EllipseValue(Sub(Spawn(Ellipse(c, rx, ry), launch, n, speed, h)[i].pos, c), rx, ry) == 1.0
  {
    var d := Sub(launch.pos, c);
    ArcOnEllipse(c, rx, ry, h.atan2(d.y / ry, d.x / rx), Spacing / ((rx + ry) / 2.0), n, h, i);
  }

  /** Particle colours cycle through the palette: particles ten apart share a colour. */
  lemma ColoursCycle(shape: Shape, launch: Launch, n: int, speed: real, h: Host, i: int)
    requires shape.Circle? ==> shape.radius != 0.0
    requires shape.Ellipse? ==> shape.radiusX != 0.0 && shape.radiusY != 0.0 && shape.radiusX + shape.radiusY != 0.0
    requires 0 <= i && i + |Palette| < n
    ensures var ps := Spawn(shape, launch, n, speed, h);
            ps[i].color == ps[i + |Palette|].color == Palette[i % |Palette|]
  {
    ModAddPeriod(i, |Palette|);
  }

  // ---------------------------------------------------------------------------
  // Speed slider

  /**
   The slider's rescaling of one velocity: a moving particle keeps its
   direction and takes the new speed; a particle at rest stays at rest.
   */
  function Renormalise(v: Point, newSpeed: real, h: Host): (w: Point)
    ensures !(Length(v, h) > 0.0) ==> w == v
  {
    var current := Length(v, h);
    if current > 0.0 then Scale(Divide(v, current), newSpeed) else v
  }

  /**
   A moving particle ends up with speed `newSpeed` and, for a positive
   `newSpeed`, in its old direction: the new velocity is a positive multiple
   of the old one.
   */
  lemma RenormaliseSetsSpeed(v: Point, newSpeed: real, h: Host)
    requires h.Valid() && Length(v, h) > 0.0
    ensures NormSq(Renormalise(v, newSpeed, h)) == newSpeed * newSpeed
    ensures Dot(Renormalise(v, newSpeed, h), v) == newSpeed * Length(v, h)
    ensures Renormalise(v, newSpeed, h) == Scale(v, newSpeed / Length(v, h))
  {
    var current := Length(v, h);
    LengthPositive(v, h);
    var u := Divide(v, current);
    DivideByLengthIsUnit(v, current);
    ScaleNormSq(u, newSpeed);
    assert Dot(Scale(u, newSpeed), v) == newSpeed * Dot(u, v);
    DivideThenScale(v.x, current, newSpeed);
    DivideThenScale(v.y, current, newSpeed);
  }

  lemma DivideThenScale(x: real, len: real, k: real)
    requires len != 0.0
    ensures (x / len) * k == x * (k / len)
  {
    assert (x / len) * len == x;
    assert (k / len) * len == k;
  }

  /**
   Moving the slider twice is moving it once to the last value: for a
   positive intermediate speed, the first rescaling is forgotten.
   */
  lemma RenormaliseTwice(v: Point, s1: real, s2: real, h: Host)
    requires h.Valid() && Length(v, h) > 0.0 && 0.0 < s1
    ensures Renormalise(Renormalise(v, s1, h), s2, h) == Renormalise(v, s2, h)
  {
    var current := Length(v, h);
    var w := Renormalise(v, s1, h);
    RenormaliseSetsSpeed(v, s1, h);
    SqrtUnique(h, NormSq(w), s1);
    assert Length(w, h) == s1;
    var k := s1 / current;
    assert w == Scale(v, k);
    RenormaliseSetsSpeed(w, s2, h);
    assert Renormalise(w, s2, h) == Scale(w, s2 / s1);
    RescaleCombines(v.x, k, s1, s2, current);
    RescaleCombines(v.y, k, s1, s2, current);
    RenormaliseSetsSpeed(v, s2, h);
  }

  lemma RescaleCombines(x: real, k: real, s1: real, s2: real, len: real)
    requires len != 0.0 && s1 != 0.0 && k == s1 / len
    ensures (x * k) * (s2 / s1) == x * (s2 / len)
  {
    assert k * len == s1;
    assert (s2 / s1) * s1 == s2;
    assert (s2 / len) * len == s2;
    assert k * (s2 / s1) * len == s2;
  }

  /**
   The slider applied to the whole group: positions, trails, radii and
   colours stay, every moving particle takes the new speed, and particles at
   rest stay at rest.
   */
  function SetSpeed(ps: seq<Particle>, newSpeed: real, h: Host): (qs: seq<Particle>)
    ensures |qs| == |ps|
    ensures forall i :: 0 <= i < |ps| ==>
              qs[i].pos == ps[i].pos && qs[i].path == ps[i].path && qs[i].radius == ps[i].radius && qs[i].color == ps[i].color
    ensures forall i :: 0 <= i < |ps| && !(Length(ps[i].vel, h) > 0.0) ==> qs[i].vel == ps[i].vel
    ensures h.Valid() ==> forall i :: 0 <= i < |ps| && Length(ps[i].vel, h) > 0.0 ==> NormSq(qs[i].vel) == newSpeed * newSpeed
  {
    var qs := seq(|ps|, i requires 0 <= i < |ps| => ps[i].(vel := Renormalise(ps[i].vel, newSpeed, h)));
    assert h.Valid() ==> forall i :: 0 <= i < |ps| && Length(ps[i].vel, h) > 0.0 ==> NormSq(qs[i].vel) == newSpeed * newSpeed by {
      if h.Valid() {
        forall i | 0 <= i < |ps| && Length(ps[i].vel, h) > 0.0 {
          RenormaliseSetsSpeed(ps[i].vel, newSpeed, h);
        }
      }
    }
    qs
  }
}
