/** Per-sample geometry of the spinning torus, in exact real arithmetic.
    An angle is given by its cosine and sine rather than by a value in
    radians, so no trigonometric function is evaluated here. */
module Geometry {

  /** Centre radius R of the torus (donut-rs calls it the thickness). */
  const DonutThickness: real := 0.5
  /** Tube radius r of the torus. */
  const DonutRadius: real := 0.25
  /** Distance added to every rotated depth before the perspective divide. */
  const ViewerDistance: real := 3.0

  datatype Vec3 = Vec3(x: real, y: real, z: real)

  /** An angle as its (cosine, sine) pair. */
  datatype Angle = Angle(c: real, s: real)

  predicate IsUnit(a: Angle) {
    a.c * a.c + a.s * a.s == 1.0
  }

  function LengthSq(v: Vec3): real {
    v.x * v.x + v.y * v.y + v.z * v.z
  }

  function Dot(u: Vec3, v: Vec3): real {
    u.x * v.x + u.y * v.y + u.z * v.z
  }

  /** The light direction (0, 1, -1), not normalised. */
  const LightSource: Vec3 := Vec3(0.0, 1.0, -1.0)

  /** The light direction's length, the square root of 2. */
  predicate IsLightDistance(ld: real) {
    ld > 0.0 && ld * ld == LengthSq(LightSource)
  }

  /** The point of the torus at tube angle theta and axis angle phi. It lies
      within R + r of the torus centre. */
  function TorusPoint(theta: Angle, phi: Angle): (r: Vec3)
    ensures IsUnit(theta) && IsUnit(phi) ==>
      LengthSq(r) <= (DonutThickness + DonutRadius) * (DonutThickness + DonutRadius)
  {
    var ring := DonutThickness + DonutRadius * theta.c;
    var p := Vec3(ring * phi.c, ring * phi.s, DonutRadius * theta.s);
    assert IsUnit(theta) && IsUnit(phi) ==> LengthSq(p) <= 0.5625 by {
      if IsUnit(theta) && IsUnit(phi) {
        var pc, ps, tc, ts := phi.c, phi.s, theta.c, theta.s;
        calc {
          LengthSq(p);
          (ring * pc) * (ring * pc) + (ring * ps) * (ring * ps) + (DonutRadius * ts) * (DonutRadius * ts);
          ring * ring * (pc * pc + ps * ps) + DonutRadius * DonutRadius * ts * ts;
          { assert pc * pc + ps * ps == 1.0; }
          ring * ring + DonutRadius * DonutRadius * ts * ts;
          0.25 + 0.25 * tc + 0.0625 * (tc * tc + ts * ts);
          { assert tc * tc + ts * ts == 1.0; }
          0.3125 + 0.25 * tc;
        }
        CosineBounded(theta);
      }
    }
    p
  }

  /** The outward normal at TorusPoint(theta, phi); it has unit length. */
  function SurfaceNormal(theta: Angle, phi: Angle): (r: Vec3)
    ensures IsUnit(theta) && IsUnit(phi) ==> LengthSq(r) == 1.0
  {
    var n := Vec3(theta.c * phi.c, theta.c * phi.s, theta.s);
    assert IsUnit(theta) && IsUnit(phi) ==> LengthSq(n) == 1.0 by {
      if IsUnit(theta) && IsUnit(phi) {
        var tc, ts, pc, ps := theta.c, theta.s, phi.c, phi.s;
        calc {
          LengthSq(n);
          (tc * pc) * (tc * pc) + (tc * ps) * (tc * ps) + ts * ts;
          tc * tc * (pc * pc + ps * ps) + ts * ts;
          { assert pc * pc + ps * ps == 1.0; }
          tc * tc + ts * ts;
        }
      }
    }
    n
  }

  /** Rotation about the x axis: y and z change, squared length does not. */
  function RotateX(v: Vec3, a: Angle): (r: Vec3)
    ensures IsUnit(a) ==> LengthSq(r) == LengthSq(v)
  {
    var y, z, c, s := v.y, v.z, a.c, a.s;
    var w := Vec3(v.x, y * c - z * s, y * s + z * c);
    assert IsUnit(a) ==> LengthSq(w) == LengthSq(v) by {
      if IsUnit(a) {
        calc {
          (y * c - z * s) * (y * c - z * s) + (y * s + z * c) * (y * s + z * c);
          y * y * (c * c + s * s) + z * z * (c * c + s * s);
          { assert c * c + s * s == 1.0; }
          y * y + z * z;
        }
      }
    }
    w
  }

  /** Rotation about the y axis: x and z change, y and squared length do
      not. */
  function RotateY(v: Vec3, b: Angle): (r: Vec3)
    ensures r.y == v.y
    ensures IsUnit(b) ==> LengthSq(r) == LengthSq(v)
  {
    var x, z, c, s := v.x, v.z, b.c, b.s;
    var w := Vec3(x * c + z * s, v.y, -x * s + z * c);
    assert IsUnit(b) ==> LengthSq(w) == LengthSq(v) by {
      if IsUnit(b) {
        calc {
          (x * c + z * s) * (x * c + z * s) + (-x * s + z * c) * (-x * s + z * c);
          x * x * (c * c + s * s) + z * z * (c * c + s * s);
          { assert c * c + s * s == 1.0; }
          x * x + z * z;
        }
      }
    }
    w
  }

  /** First about x by a, then about y by b, as applied to both the point
      and the normal. The two rotations together preserve squared length,
      and the y component is the one the x rotation alone produces. */
  function Rotate(v: Vec3, a: Angle, b: Angle): (r: Vec3)
    ensures IsUnit(a) && IsUnit(b) ==> LengthSq(r) == LengthSq(v)
    ensures r.y == RotateX(v, a).y
  {
    RotateY(RotateX(v, a), b)
  }

  /** Squaring is strictly increasing on the non-negative reals. */
  lemma SquareMonotone(t: real, m: real)
    ensures 0.0 <= m < t ==> m * m < t * t
  {
    if 0.0 <= m < t {
      calc {
        m * m;
      <= m * t;
      <  { assert (t - m) * t > 0.0; } t * t;
      }
    }
  }

  /** A real whose square is at most m*m (m >= 0) lies in [-m, m]. */
  lemma SquareBounded(t: real, m: real)
    requires m >= 0.0 && t * t <= m * m
    ensures -m <= t <= m
  {
    SquareMonotone(t, m);
    SquareMonotone(-t, m);
  }

  /** Every component of a vector is bounded by its length. */
  lemma ComponentsBounded(v: Vec3, m: real)
    requires m >= 0.0 && LengthSq(v) <= m * m
    ensures -m <= v.x <= m && -m <= v.y <= m && -m <= v.z <= m
  {
    var x, y, z := v.x, v.y, v.z;
    assert x * x >= 0.0 && y * y >= 0.0 && z * z >= 0.0;
    SquareBounded(x, m);
    SquareBounded(y, m);
    SquareBounded(z, m);
  }

  /** A unit angle's cosine lies in [-1, 1]. */
  lemma CosineBounded(a: Angle)
    requires IsUnit(a)
    ensures -1.0 <= a.c <= 1.0
  {
    var s := a.s;
    assert s * s >= 0.0;
    SquareBounded(a.c, 1.0);
  }

  /** The depth of a rotated torus point plus the viewer distance is at
      least ViewerDistance - (R + r) = 2.25, so the perspective divide
      never sees zero or a negative value. */
  lemma DepthPositive(theta: Angle, phi: Angle, a: Angle, b: Angle)
    requires IsUnit(theta) && IsUnit(phi) && IsUnit(a) && IsUnit(b)
    ensures -0.75 <= Rotate(TorusPoint(theta, phi), a, b).x <= 0.75
    ensures -0.75 <= Rotate(TorusPoint(theta, phi), a, b).y <= 0.75
    ensures Rotate(TorusPoint(theta, phi), a, b).z + ViewerDistance >= 2.25
  {
    var p := TorusPoint(theta, phi);
    ComponentsBounded(Rotate(p, a, b), 0.75);
  }

  /** The luminance of the sample: the rotated normal against the light,
      divided by the light's length. donut-rs takes the y component from
      the x rotation alone, which is the same since the y rotation keeps y.
      A unit normal against a light divided by its own length gives a
      luminance in [-1, 1]. */
  function Luminance(theta: Angle, phi: Angle, a: Angle, b: Angle, ld: real): (r: real)
    requires IsLightDistance(ld)
    ensures IsUnit(theta) && IsUnit(phi) && IsUnit(a) && IsUnit(b) ==> -1.0 <= r <= 1.0
  {
    var n := Rotate(SurfaceNormal(theta, phi), a, b);
    var d := Dot(n, LightSource);
    var l := d / ld;
    assert IsUnit(theta) && IsUnit(phi) && IsUnit(a) && IsUnit(b) ==> -1.0 <= l <= 1.0 by {
      if IsUnit(theta) && IsUnit(phi) && IsUnit(a) && IsUnit(b) {
        assert LengthSq(n) == 1.0;
        assert d == n.y - n.z;
        var u := n.y + n.z;
        assert u * u >= 0.0;
        assert d * d <= 2.0 * (n.y * n.y + n.z * n.z);
        assert n.x * n.x >= 0.0;
        assert d * d <= 2.0;
        assert l * ld == d;
        assert l * l * 2.0 == d * d by {
          calc {
            l * l * 2.0;
            l * l * (ld * ld);
            (l * ld) * (l * ld);
            d * d;
          }
        }
        SquareBounded(l, 1.0);
      }
    }
    l
  }
}
