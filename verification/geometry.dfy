/**
 Plane geometry over `real` shared by the boundary construction, the collision
 step and the control-point editor: points, dot products, specular reflection,
 and the host's `Math` functions, which the model takes as a parameter.
 */
module Geometry {

  /** A position or a displacement in canvas coordinates. */
  datatype Point = Point(x: real, y: real)

  function Add(p: Point, q: Point): Point {
    Point(p.x + q.x, p.y + q.y)
  }

  function Sub(p: Point, q: Point): Point {
    Point(p.x - q.x, p.y - q.y)
  }

  function Neg(v: Point): Point {
    Point(-v.x, -v.y)
  }

  function Dot(u: Point, v: Point): real {
    u.x * v.x + u.y * v.y
  }

  function NormSq(v: Point): real {
    Dot(v, v)
  }

  /** The vector `v` turned a quarter turn: `(-v.y, v.x)`. */
  function Perp(v: Point): Point {
    Point(-v.y, v.x)
  }

  function Abs(a: real): real {
    if a < 0.0 then -a else a
  }

  function Max(a: real, b: real): real {
    if a < b then b else a
  }

  function Min(a: real, b: real): real {
    if a < b then a else b
  }

  /** The value of `Math.PI`. */
  const PI: real := 3.141592653589793115997963468544185161590576171875

  /**
   The browser's `Math.sqrt`, `Math.atan2`, `Math.cos` and `Math.sin`. The model
   never computes them; it only relies on the facts `Valid` states about them.
   */
  datatype Host = Host(sqrt: real -> real, atan2: (real, real) -> real, cos: real -> real, sin: real -> real)
  {
    ghost predicate Valid() {
      && (forall v :: 0.0 <= v ==> 0.0 <= sqrt(v) && sqrt(v) * sqrt(v) == v)
      && (forall y, x :: -PI <= atan2(y, x) <= PI)
      && (forall a :: cos(a) * cos(a) + sin(a) * sin(a) == 1.0)
    }
  }

  /** Euclidean length as the host computes it. */
  function Length(v: Point, h: Host): real {
    h.sqrt(NormSq(v))
  }

  lemma MulPositive(a: real, b: real)
    requires 0.0 < a && 0.0 < b
    ensures 0.0 < a * b
  {
  }

  lemma SquarePositive(a: real)
    requires a != 0.0
    ensures 0.0 < a * a
  {
    if a > 0.0 {
      MulPositive(a, a);
    } else {
      MulPositive(-a, -a);
    }
  }

  lemma MulStrict(a: real, b: real, c: real, d: real)
    requires 0.0 <= a < b && 0.0 <= c < d
    ensures a * c < b * d
  {
    MulPositive(b - a, d);
    assert (b - a) * d == b * d - a * d;
    if a > 0.0 {
      MulPositive(a, d - c);
      assert a * (d - c) == a * d - a * c;
    }
  }

  lemma MulNonNegative(a: real, b: real)
    requires 0.0 <= a && 0.0 <= b
    ensures 0.0 <= a * b
  {
    if 0.0 < a && 0.0 < b {
      MulPositive(a, b);
    }
  }

  lemma MulLessRight(a: real, b: real, c: real)
    requires a < b && 0.0 < c
    ensures a * c < b * c
  {
    MulPositive(b - a, c);
    assert (b - a) * c == b * c - a * c;
  }

  lemma MulMonotone(a: real, b: real, c: real)
    requires a <= b && 0.0 <= c
    ensures a * c <= b * c
  {
    if a < b && 0.0 < c {
      MulLessRight(a, b, c);
    }
  }

  /** Two non-negative numbers with equal squares are equal. */
  lemma SquareInjective(t: real, s: real)
    requires 0.0 <= t && 0.0 <= s && t * t == s * s
    ensures t == s
  {
    if t < s {
      MulStrict(t, s, t, s);
    } else if s < t {
      MulStrict(s, t, s, t);
    }
  }

  /**
   A length the host reports as non-zero is positive and squares back to
   `NormSq`; this is what every division by a length below relies on.
   */
  lemma LengthPositive(v: Point, h: Host)
    requires h.Valid()
    requires Length(v, h) != 0.0
    ensures 0.0 < Length(v, h)
    ensures Length(v, h) * Length(v, h) == NormSq(v)
  {
    assert 0.0 <= NormSq(v);
  }

  /** The square root of a positive number is positive. */
  lemma SqrtPositive(h: Host, v: real)
    requires h.Valid()
    requires 0.0 < v
    ensures 0.0 < h.sqrt(v)
  {
    if h.sqrt(v) == 0.0 {
      assert false;
    }
  }

  /** The host's square root is the only non-negative root. */
  lemma SqrtUnique(h: Host, v: real, s: real)
    requires h.Valid()
    requires 0.0 <= s && s * s == v
    ensures h.sqrt(v) == s
  {
    SquareInjective(h.sqrt(v), s);
  }

  /** Comparing a square root with a non-negative bound is comparing squares. */
  lemma SqrtLessIff(h: Host, v: real, k: real)
    requires h.Valid()
    requires 0.0 <= v && 0.0 <= k
    ensures h.sqrt(v) < k <==> v < k * k
  {
    var s := h.sqrt(v);
    assert 0.0 <= s && s * s == v;
    if s < k {
      MulStrict(s, k, s, k);
    } else if k < s {
      MulStrict(k, s, k, s);
    }
  }

  /** `v` multiplied component-wise by `k`. */
  function Scale(v: Point, k: real): Point {
    Point(v.x * k, v.y * k)
  }

  /** Scaling a vector by `k` scales its squared length by `k * k`. */
  lemma ScaleNormSq(v: Point, k: real)
    ensures NormSq(Scale(v, k)) == k * k * NormSq(v)
  {
    calc {
      NormSq(Scale(v, k));
      (v.x * k) * (v.x * k) + (v.y * k) * (v.y * k);
      k * k * (v.x * v.x + v.y * v.y);
    }
  }

  /** Scaling a unit vector by `k` gives squared length `k * k`. */
  lemma ScaleUnit(u: Point, k: real)
    requires NormSq(u) == 1.0
    ensures NormSq(Scale(u, k)) == k * k
  {
    ScaleNormSq(u, k);
  }

  /** `v` divided component-wise by `len`. */
  function Divide(v: Point, len: real): Point
    requires len != 0.0
  {
    Point(v.x / len, v.y / len)
  }

  /** Dividing a vector by its length gives a unit vector pointing the same way. */
  lemma DivideByLengthIsUnit(v: Point, len: real)
    requires 0.0 < len && len * len == NormSq(v)
    ensures NormSq(Divide(v, len)) == 1.0
    ensures Dot(Divide(v, len), v) == len
  {
    var u := Divide(v, len);
    assert u.x * len == v.x && u.y * len == v.y;
    calc {
      NormSq(u) * (len * len);
      (u.x * len) * (u.x * len) + (u.y * len) * (u.y * len);
      NormSq(v);
      1.0 * (len * len);
    }
    calc {
      Dot(u, v) * len;
      (u.x * v.x + u.y * v.y) * len;
      v.x * v.x + v.y * v.y;
      len * len;
    }
  }

  /**
   Specular reflection `v - 2 (v . n) n` of a velocity `v` across the line whose
   normal is `n`; for a unit normal it reverses the normal component.
   */
  function Reflect(v: Point, n: Point): (r: Point)
    ensures NormSq(n) == 1.0 ==> Dot(r, n) == -Dot(v, n)
  {
    var d := Dot(v, n);
    SubtractMultiple(v, n, 2.0 * d, n);
    Point(v.x - 2.0 * d * n.x, v.y - 2.0 * d * n.y)
  }

  /** Removing `k` times `n` from `v` removes `k` times `n . t` from `v . t`. */
  lemma SubtractMultiple(v: Point, n: Point, k: real, t: Point)
    ensures Dot(Point(v.x - k * n.x, v.y - k * n.y), t) == Dot(v, t) - k * Dot(n, t)
  {
    calc {
      Dot(Point(v.x - k * n.x, v.y - k * n.y), t);
      (v.x - k * n.x) * t.x + (v.y - k * n.y) * t.y;
      (v.x * t.x + v.y * t.y) - k * (n.x * t.x + n.y * t.y);
    }
  }

  /** Reflection across a unit normal preserves the speed `|v|^2`. */
  lemma ReflectPreservesSpeed(v: Point, n: Point)
    requires NormSq(n) == 1.0
    ensures NormSq(Reflect(v, n)) == NormSq(v)
  {
    var d := Dot(v, n);
    var r := Reflect(v, n);
    calc {
      NormSq(r);
      (v.x - 2.0 * d * n.x) * (v.x - 2.0 * d * n.x) + (v.y - 2.0 * d * n.y) * (v.y - 2.0 * d * n.y);
      NormSq(v) - 4.0 * d * d + 4.0 * d * d * NormSq(n);
      NormSq(v);
    }
  }

  /** Reflection leaves the component along any direction orthogonal to `n` alone. */
  lemma ReflectKeepsTangent(v: Point, n: Point, t: Point)
    requires Dot(n, t) == 0.0
    ensures Dot(Reflect(v, n), t) == Dot(v, t)
  {
    SubtractMultiple(v, n, 2.0 * Dot(v, n), t);
  }

  /** Reflecting twice across the same unit normal gives the velocity back. */
  lemma ReflectInvolutive(v: Point, n: Point)
    requires NormSq(n) == 1.0
    ensures Reflect(Reflect(v, n), n) == v
  {
    var r := Reflect(v, n);
    assert Dot(r, n) == -Dot(v, n);
  }

  /** A velocity along the normal is sent straight back. */
  lemma ReflectReversesNormalMotion(n: Point, k: real)
    requires NormSq(n) == 1.0
    ensures Reflect(Point(k * n.x, k * n.y), n) == Neg(Point(k * n.x, k * n.y))
  {
    var v := Point(k * n.x, k * n.y);
    assert Dot(v, n) == k * NormSq(n);
  }
}
