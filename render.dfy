/** One frame of the spinning torus: every (theta, phi) pair of the sweep
    becomes a projected, lit sample, and the samples are composited into
    the z-buffer in sweep order. Then the outer animation loop, which
    renders a frame per orientation and advances the two angles. */
module Render {
  import opened Casts
  import opened Geometry
  import opened Buffer

  /** PROJECTION_CONSTANT, computed from the other constants (it is 120). */
  const ProjectionConstant: real :=
    (ScreenWidth as real) * ViewerDistance * 3.0 / (8.0 * (DonutThickness + DonutRadius))

  /** What a frame depends on: the two rotation angles, as (cos, sin)
      pairs, and the light's length. */
  datatype View = View(a: Angle, b: Angle, ld: real) {
    predicate Valid() {
      IsUnit(a) && IsUnit(b) && IsLightDistance(ld)
    }
  }

  predicate AllUnit(angles: seq<Angle>) {
    forall k :: 0 <= k < |angles| ==> IsUnit(angles[k])
  }

  /** A coordinate within R + r of the centre, at a depth of at least
      ViewerDistance - (R + r): where every torus point projects from. */
  predicate InView(zDistance: real, coord: real) {
    && zDistance >= ViewerDistance - (DonutThickness + DonutRadius)
    && -(DonutThickness + DonutRadius) <= coord <= DonutThickness + DonutRadius
  }

  /** `(K * (1 / z_distance) * coord) as i32`: a screen offset. For a point
      within R + r of the centre at depth at least ViewerDistance - (R + r),
      the offset stays within 40 cells, so the cast never saturates. */
  function ScreenOffset(zDistance: real, coord: real): (r: int)
    requires zDistance != 0.0
    ensures I32Min <= r <= I32Max
    ensures InView(zDistance, coord) ==> -40 <= r <= 40
  {
    var w := 1.0 / zDistance;
    var e := ProjectionConstant * w * coord;
    assert InView(zDistance, coord) ==> -40.0 <= e <= 40.0 by {
      if InView(zDistance, coord) {
        assert w * zDistance == 1.0;
        assert w <= 4.0 / 9.0 by {
          assert w * 2.25 <= w * zDistance;
        }
        ProductBounded(w, 4.0 / 9.0, coord, 0.75);
        assert e == 120.0 * (w * coord);
      }
    }
    ToI32(e)
  }

  /** `((size / 2) + offset as f32) as usize`: the offset moved to the
      centre of the screen. Only the upper edge is checked later; a value
      below zero is not rejected but clamped to 0. */
  function PixelIndex(size: nat, offset: int): (r: nat)
    ensures offset as real <= -(size as real / 2.0) ==> r == 0
    ensures size % 2 == 0 && 0 <= size / 2 + offset <= UsizeMax ==> r == size / 2 + offset
  {
    var p := size as real / 2.0 + offset as real;
    assert size % 2 == 0 && 0 <= size / 2 + offset <= UsizeMax ==> ToUsize(p) == size / 2 + offset by {
      if size % 2 == 0 && 0 <= size / 2 + offset <= UsizeMax {
        assert p == (size / 2 + offset) as real;
        ToUsizeOfInteger(size / 2 + offset);
      }
    }
    ToUsize(p)
  }

  /** The product of a value in [0, a] and a value in [-b, b] lies in [-a*b, a*b]. */
  lemma ProductBounded(u: real, a: real, v: real, b: real)
    requires 0.0 <= u <= a && -b <= v <= b
    ensures -(a * b) <= u * v <= a * b
  {
    if v >= 0.0 {
      calc { u * v; <= a * v; <= a * b; }
      assert u * v >= 0.0;
      assert a * b >= 0.0;
    } else {
      calc { u * v; >= a * v; >= -(a * b); }
      assert u * v <= 0.0;
      assert a * b >= 0.0;
    }
  }

  /** The sample donut-rs computes for one (theta, phi) pair. */
  function SampleAt(v: View, theta: Angle, phi: Angle): (r: Sample)
    requires v.Valid() && IsUnit(theta) && IsUnit(phi)
    ensures r.depth >= ViewerDistance - (DonutThickness + DonutRadius)
    ensures -1.0 <= r.lum <= 1.0
    ensures Indexable(r)
    ensures r.x <= ScreenWidth && r.y <= ScreenHeight / 2 + 40
  {
    var q := Rotate(TorusPoint(theta, phi), v.a, v.b);
    DepthPositive(theta, phi, v.a, v.b);
    var zDistance := q.z + ViewerDistance;
    var screenX := ScreenOffset(zDistance, q.x);
    var screenY := ScreenOffset(zDistance, q.y);
    var lum := Luminance(theta, phi, v.a, v.b, v.ld);
    Sample(PixelIndex(ScreenWidth, screenX), PixelIndex(ScreenHeight, screenY), zDistance, lum)
  }

  /** The samples of one pass of the inner loop, in phi order. */
  function RowSamples(v: View, theta: Angle, phis: seq<Angle>): (r: seq<Sample>)
    requires v.Valid() && IsUnit(theta) && AllUnit(phis)
    ensures |r| == |phis| && AllIndexable(r)
  {
    seq(|phis|, k requires 0 <= k < |phis| => SampleAt(v, theta, phis[k]))
  }

  /** The samples of a whole sweep, theta-major as the nested loops run. */
  function FrameSamples(v: View, thetas: seq<Angle>, phis: seq<Angle>): (r: seq<Sample>)
    requires v.Valid() && AllUnit(thetas) && AllUnit(phis)
    ensures |r| == |thetas| * |phis| && AllIndexable(r)
    decreases |thetas|
  {
    if thetas == [] then []
    else
      var n := |thetas| - 1;
      FrameSamples(v, thetas[..n], phis) + RowSamples(v, thetas[n], phis)
  }

  /** 40 rows of 80 characters, each a blank or a ramp character. */
  predicate IsScreenText(rows: seq<seq<char>>) {
    && |rows| == ScreenHeight
    && (forall y :: 0 <= y < ScreenHeight ==> |rows[y]| == ScreenWidth)
    && (forall y, x :: 0 <= y < ScreenHeight && 0 <= x < ScreenWidth ==> rows[y][x] == ' ' || rows[y][x] in Ramp)
  }

  /** Position i * m + j of a sweep of n rows of m lies before row n. */
  lemma RowMajorBound(i: nat, j: nat, n: nat, m: nat)
    requires i < n && j < m
    ensures i * m + j < n * m
  {
    calc {
      i * m + j;
    <  i * m + m;
    == (i + 1) * m;
    <= { assert i + 1 <= n; } n * m;
    }
  }

  /** The sweep is theta-major: sample j of pass i of the outer loop sits at
      position i * |phis| + j, so an earlier theta comes first, and within
      one theta an earlier phi does. */
  lemma {:induction false} FrameSamplesAt(v: View, thetas: seq<Angle>, phis: seq<Angle>, i: nat, j: nat)
    requires v.Valid() && AllUnit(thetas) && AllUnit(phis)
    requires i < |thetas| && j < |phis|
    ensures i * |phis| + j < |FrameSamples(v, thetas, phis)|
    ensures FrameSamples(v, thetas, phis)[i * |phis| + j] == SampleAt(v, thetas[i], phis[j])
  {
    var n, m := |thetas| - 1, |phis|;
    var prefix := FrameSamples(v, thetas[..n], phis);
    var row := RowSamples(v, thetas[n], phis);
    var k := i * m + j;
    assert FrameSamples(v, thetas, phis) == prefix + row;
    RowMajorBound(i, j, |thetas|, m);
    if i < n {
      assert (prefix + row)[k] == SampleAt(v, thetas[i], phis[j]) by {
        RowMajorBound(i, j, n, m);
        FrameSamplesAt(v, thetas[..n], phis, i, j);
        assert thetas[..n][i] == thetas[i];
      }
    } else {
      assert (prefix + row)[k] == SampleAt(v, thetas[i], phis[j]) by {
        assert k == |prefix| + j;
      }
    }
  }

  /** The frame's text as the rows donut-rs prints: 40 rows of 80
      characters, each a blank or a ramp character. */
  function FrameImage(v: View, thetas: seq<Angle>, phis: seq<Angle>): (r: seq<seq<char>>)
    requires v.Valid() && AllUnit(thetas) && AllUnit(phis)
    ensures IsScreenText(r)
  {
    var s := FrameSamples(v, thetas, phis);
    seq(ScreenHeight, y => seq(ScreenWidth, x => CellAt(s, y, x).glyph))
  }

  /** Renders one frame: fresh grids, then the nested theta/phi sweep, each
      sample composited as it is computed. */
  method RenderFrame(v: View, thetas: seq<Angle>, phis: seq<Angle>) returns (pixels: array2<char>, depths: array2<real>)
    requires v.Valid() && AllUnit(thetas) && AllUnit(phis)
    ensures fresh(pixels) && fresh(depths)
    ensures Sized(pixels, depths)
    ensures forall y, x :: 0 <= y < ScreenHeight && 0 <= x < ScreenWidth ==>
      Cell(pixels[y, x], depths[y, x]) == CellAt(FrameSamples(v, thetas, phis), y, x)
  {
    pixels, depths := NewBuffers();
    ghost var done: seq<Sample> := [];
    var i := 0;
    while i < |thetas|
      invariant 0 <= i <= |thetas|
      invariant Sized(pixels, depths) && fresh(pixels) && fresh(depths)
      invariant done == FrameSamples(v, thetas[..i], phis)
      invariant Holds(pixels, depths, done)
    {
      var j := 0;
      while j < |phis|
        invariant 0 <= j <= |phis|
        invariant Sized(pixels, depths) && fresh(pixels) && fresh(depths)
        invariant done == FrameSamples(v, thetas[..i], phis) + RowSamples(v, thetas[i], phis[..j])
        invariant Holds(pixels, depths, done)
      {
        var t := SampleAt(v, thetas[i], phis[j]);
        PlotNext(pixels, depths, t, done);
        assert RowSamples(v, thetas[i], phis[..j + 1]) == RowSamples(v, thetas[i], phis[..j]) + [t];
        done := done + [t];
        j := j + 1;
      }
      assert phis[..j] == phis;
      assert thetas[..i + 1][..i] == thetas[..i];
      i := i + 1;
    }
    assert thetas[..i] == thetas;
  }

  /** The two rotation angles, in radians. */
  datatype Orientation = Orientation(a: real, b: real)

  const AngleStepA: real := 0.07
  const AngleStepB: real := 0.03

  /** The orientation for the next frame. */
  function Advance(o: Orientation): (r: Orientation)
    ensures r.a > o.a && r.b > o.b
  {
    Orientation(o.a + AngleStepA, o.b + AngleStepB)
  }

  /** The orientation of frame n, counting from 0: both angles start at 0
      and every frame advances them. After n frames each angle is n times
      its step. */
  function OrientationAt(n: nat): (r: Orientation)
    ensures r == Orientation(n as real * AngleStepA, n as real * AngleStepB)
  {
    if n == 0 then Orientation(0.0, 0.0) else Advance(OrientationAt(n - 1))
  }

  /** The view of a frame, with the angles' (cos, sin) pairs given by trig. */
  function ViewOf(o: Orientation, trig: real -> Angle, ld: real): View {
    View(trig(o.a), trig(o.b), ld)
  }

  /** The printed rows of a character grid. */
  function Rows(pixels: array2<char>): seq<seq<char>>
    reads pixels
  {
    seq(pixels.Length0, y requires 0 <= y < pixels.Length0 reads pixels =>
      seq(pixels.Length1, x requires 0 <= x < pixels.Length1 reads pixels => pixels[y, x]))
  }

  /** Grids holding the composited frame print as that frame's image. */
  lemma RenderedRowsAreImage(pixels: array2<char>, depths: array2<real>, v: View, thetas: seq<Angle>, phis: seq<Angle>)
    requires v.Valid() && AllUnit(thetas) && AllUnit(phis)
    requires Sized(pixels, depths)
    requires forall y, x :: 0 <= y < ScreenHeight && 0 <= x < ScreenWidth ==>
      Cell(pixels[y, x], depths[y, x]) == CellAt(FrameSamples(v, thetas, phis), y, x)
    ensures Rows(pixels) == FrameImage(v, thetas, phis)
  {
    var image, expected := Rows(pixels), FrameImage(v, thetas, phis);
    forall y | 0 <= y < ScreenHeight
      ensures image[y] == expected[y]
    {
      forall x | 0 <= x < ScreenWidth
        ensures image[y][x] == expected[y][x]
      {
        assert image[y][x] == pixels[y, x];
      }
    }
  }

  /** Appending the image of frame n to the images of frames 0 .. n-1. */
  lemma FramesExtend(shown: seq<seq<seq<char>>>, image: seq<seq<char>>, n: nat, trig: real -> Angle, ld: real,
                     thetas: seq<Angle>, phis: seq<Angle>)
    requires forall t :: IsUnit(trig(t))
    requires IsLightDistance(ld) && AllUnit(thetas) && AllUnit(phis)
    requires |shown| == n
    requires forall k :: 0 <= k < n ==> shown[k] == FrameImage(ViewOf(OrientationAt(k), trig, ld), thetas, phis)
    requires image == FrameImage(ViewOf(OrientationAt(n), trig, ld), thetas, phis)
    ensures forall k :: 0 <= k < n + 1 ==> (shown + [image])[k] == FrameImage(ViewOf(OrientationAt(k), trig, ld), thetas, phis)
  {
  }

  /** The first `frames` passes of the animation loop: render a frame at the
      current orientation, emit its rows, advance both angles. */
  method Animate(frames: nat, trig: real -> Angle, ld: real, thetas: seq<Angle>, phis: seq<Angle>)
    returns (shown: seq<seq<seq<char>>>, o: Orientation)
    requires forall t :: IsUnit(trig(t))
    requires IsLightDistance(ld) && AllUnit(thetas) && AllUnit(phis)
    ensures o == OrientationAt(frames)
    ensures |shown| == frames
    ensures forall k :: 0 <= k < frames ==> shown[k] == FrameImage(ViewOf(OrientationAt(k), trig, ld), thetas, phis)
  {
    o := Orientation(0.0, 0.0);
    shown := [];
    var n := 0;
    while n < frames
      invariant 0 <= n <= frames
      invariant o == OrientationAt(n)
      invariant |shown| == n
      invariant forall k :: 0 <= k < n ==> shown[k] == FrameImage(ViewOf(OrientationAt(k), trig, ld), thetas, phis)
    {
      var v := ViewOf(o, trig, ld);
      var pixels, depths := RenderFrame(v, thetas, phis);
      var image := Rows(pixels);
      RenderedRowsAreImage(pixels, depths, v, thetas, phis);
      FramesExtend(shown, image, n, trig, ld, thetas, phis);
      shown := shown + [image];
      o := Advance(o);
      n := n + 1;
    }
  }

  /** Trunc of -240/11, the projected row offset of the example below. */
  lemma RowOffsetOfExample()
    ensures ScreenOffset(2.75, -0.5) == -21
  {
    assert ProjectionConstant == 120.0;
    assert ProjectionConstant * (1.0 / 2.75) * -0.5 == -240.0 / 11.0;
    assert Trunc(-240.0 / 11.0) == -21;
  }

  /** The saturating cast in action: with both rotation angles zero, the
      sample at theta = phi = 3*pi/2 projects one row above the top edge
      (screen offset -21 against a half-height of 20), faces the light, and
      is nonetheless drawn into row 0 instead of being skipped. */
  lemma OffTopSampleDrawnInRowZero(ld: real)
    requires IsLightDistance(ld)
    ensures var t := SampleAt(View(Angle(1.0, 0.0), Angle(1.0, 0.0), ld), Angle(0.0, -1.0), Angle(0.0, -1.0));
            && t.depth == 2.75
            && (ScreenHeight / 2) as int + ScreenOffset(t.depth, -0.5) < 0
            && t.y == 0 && t.x == ScreenWidth / 2 && Drawn(t)
  {
    var v := View(Angle(1.0, 0.0), Angle(1.0, 0.0), ld);
    var theta, phi := Angle(0.0, -1.0), Angle(0.0, -1.0);
    var t := SampleAt(v, theta, phi);
    var q := Rotate(TorusPoint(theta, phi), v.a, v.b);
    assert q == Vec3(0.0, -0.5, -0.25) by {
      assert TorusPoint(theta, phi) == Vec3(0.0, -0.5, -0.25);
    }
    var lum := Luminance(theta, phi, v.a, v.b, v.ld);
    assert lum == 1.0 / ld by {
      assert SurfaceNormal(theta, phi) == Vec3(0.0, 0.0, -1.0);
      assert Rotate(SurfaceNormal(theta, phi), v.a, v.b) == Vec3(0.0, 0.0, -1.0);
    }
    assert t == Sample(PixelIndex(ScreenWidth, ScreenOffset(2.75, 0.0)), PixelIndex(ScreenHeight, ScreenOffset(2.75, -0.5)),
                       2.75, lum);
    assert t.y == 0 by {
      RowOffsetOfExample();
      assert PixelIndex(ScreenHeight, -21) == 0;
    }
    assert t.x == ScreenWidth / 2 by {
      assert ScreenOffset(2.75, 0.0) == 0;
      assert PixelIndex(ScreenWidth, 0) == ScreenWidth / 2;
    }
    RowOffsetOfExample();
  }
}
