# donut-rs render pass, modelled in Dafny

donut-rs draws a spinning torus as ASCII art in a terminal. Each frame does
the following:

- It clears a 40×80 grid of characters and a matching grid of depths (each
  depth set to `f32::MAX`).
- It sweeps the torus surface over a tube angle θ and an axis angle φ.
- It rotates every point and its normal, first about x by `angle_a`, then
  about y by `angle_b`.
- It projects the point with a perspective divide by `z + VIEWER_DISTANCE`
  and casts the result to a pixel index.
- It lights the sample with a normalised light from direction (0, 1, -1).
- It keeps a cell's sample only if the sample is in bounds, faces the light
  and is strictly nearer than what the cell already holds.

After the frame it advances both angles.

This project models that render pass in Dafny. The model has four modules:

- `Casts` (`casts.dfy`): Rust's `as i32` and `as usize` for finite values
  (truncate toward zero, saturate at the type's bounds), and `f32::round`
  (ties go away from zero).
- `Geometry` (`geometry.dfy`): the torus point, its normal, the two
  rotations and the luminance, in exact real arithmetic. Each angle is a
  (cos, sin) pair with c² + s² = 1.
- `Buffer` (`buffer.dfy`): the z-buffer. `Plot` and `PlotNext` write one
  sample into two `array2` grids. `CellAt` says what a cell holds after a
  sequence of samples. `Nearest` describes the same cell without reference
  to the sequence of writes; sample order enters only to break depth ties.
  Lemmas prove the two agree.
- `Render` (`render.dfy`): the per-sample projection `SampleAt`, the nested
  θ/φ loops of one frame (`RenderFrame`) and the animation loop
  (`Animate`).

The main results are:

- Every cell ends up holding the first of the nearest accepted samples that
  hit it, or a blank if none did. The depth it holds does not depend on the
  order of the samples.
- Only blanks and ramp characters ever appear in a frame.
- The perspective denominator is always at least 2.25.
- The luminance lies in [-1, 1], so the ramp index at line 66 stays in
  bounds.
- Projected offsets stay within 40 cells of the centre, so the `as i32` cast
  never saturates.

The cast at src/main.rs:48-49 is modelled as written. A negative pixel
coordinate saturates to 0, and only the upper edge is tested at line 51. So
a sample above the top edge of the screen is drawn into row 0 instead of
being skipped. `OffTopSampleDrawnInRowZero` exhibits one such sample, with
both angles zero and θ = φ = 3π/2.

Line 66 indexes the ramp without clamping the index. The model does not clamp
either: `Plot` requires the index to be in range. `SampleAt` proves that it
always is.

## Model

| member | source | states |
|---|---|---|
| `Casts.Trunc` | src/main.rs:45-46 | The result is the integer part toward zero: floor for non-negative inputs, ceiling for negative ones |
| `Casts.ToI32` | src/main.rs:45-46 | `as i32` truncates toward zero inside the i32 range and saturates to i32::MIN / i32::MAX outside it |
| `Casts.ToUsize` | src/main.rs:48-49 | `as usize` gives 0 for any value ≤ 0, truncates inside the range and saturates to usize::MAX above it |
| `Casts.Round` | src/main.rs:62 | `round` gives the nearest integer, with half-way cases rounded away from zero |
| `Casts.ToUsizeOfInteger` | src/main.rs:48-49 | An integer-valued offset cast to usize is clamped to 0 when it is ≤ 0 and is unchanged otherwise |
| `Geometry.TorusPoint` | src/main.rs:34-36 | The torus point at (θ, φ) lies within DONUT_THICKNESS + DONUT_RADIUS = 0.75 of the centre (constants from lines 6-7) |
| `Geometry.SurfaceNormal` | src/main.rs:52 | The normal (cosθ cosφ, cosθ sinφ, sinθ) has unit length |
| `Geometry.RotateX` | src/main.rs:38-39 | The rotation about x by `angle_a` preserves squared length when cos² + sin² = 1 (the same rotation is applied to the normal at lines 54-55) |
| `Geometry.RotateY` | src/main.rs:40-41 | The rotation about y by `angle_b` leaves y unchanged and preserves squared length when cos² + sin² = 1 (applied to the normal at lines 56-57) |
| `Geometry.Rotate` | src/main.rs:38-41 | The two successive rotations preserve squared length, and their y component is the x rotation's alone, which is the one line 59 uses for the normal |
| `Geometry.DepthPositive` | src/main.rs:34-44 | Every rotated torus point has x and y in [-0.75, 0.75] and z + VIEWER_DISTANCE ≥ 2.25, so the divide at line 44 is safe |
| `Geometry.Luminance` | src/main.rs:52-59 | The rotated unit normal dotted with the light and divided by the light's length √2 lies in [-1, 1] |
| `Buffer.RampIndex` | src/main.rs:62 | For 0 < luminance ≤ 1, `round(luminance * 11) as usize` is a valid index into the 12-character ramp |
| `Buffer.Glyph` | src/main.rs:66 | The character written for a sample is one of the ramp characters and never the blank |
| `Buffer.Update` | src/main.rs:51-67 | One sample leaves a cell unchanged unless the sample is in bounds, faces the light (luminance > 0), targets that cell and is strictly nearer; a depth never increases; a change writes the sample's depth and ramp character |
| `Buffer.CellAt` | src/main.rs:24-25 | After any sequence of samples a cell holds a blank or a ramp character; its depth is at most f32::MAX; it is blank exactly when it still holds the initial blank/f32::MAX pair (writes at lines 64-67) |
| `Buffer.CellAtSnoc` | src/main.rs:64-67 | Feeding one more sample to a frame updates each cell by exactly one depth-tested step |
| `Buffer.SampleChangesOnlyItsCell` | src/main.rs:51-67 | A sample rejected by the bounds or backface test changes no cell, and an accepted one changes no cell but its own |
| `Buffer.CellAtIsNearest` | src/main.rs:64-67 | After any prefix of samples a cell holds one of two things. If an accepted sample hit it with depth below f32::MAX, it holds the depth and ramp character of the first sample of smallest depth, since the strict `<` keeps the earlier sample on ties. Otherwise it holds the initial blank and f32::MAX |
| `Buffer.NearestUnique` | src/main.rs:64-67 | The description of a cell's content that does not follow the sequence of writes (sample order only breaks depth ties) determines that content uniquely |
| `Buffer.CellAtCharacterised` | src/main.rs:64-67 | A cell content is what the depth-tested writes produce if and only if it satisfies the "first of the nearest, else blank" description, which does not follow the sequence of writes; sample order enters it only to break depth ties |
| `Buffer.DepthAtMostEvery` | src/main.rs:64-65 | Adding samples can only make a cell's final depth nearer: the depth for a super-multiset of samples is at most the depth for the subset |
| `Buffer.DepthOrderIndependent` | src/main.rs:64-65 | The depth each cell ends with is the same for any ordering of the same samples |
| `Buffer.NewBuffers` | src/main.rs:24-25 | The fresh grids are 40×80 and every cell holds the blank and f32::MAX, the state for the empty sample sequence |
| `Buffer.Plot` | src/main.rs:51-67 | Writing one sample changes every cell exactly as `Update` says, so it changes only the sample's own cell and only when all three tests pass |
| `Buffer.PlotNext` | src/main.rs:64-67 | If the grids hold the cells for samples s, after one write they hold the cells for s followed by the new sample |
| `Render.ScreenOffset` | src/main.rs:43-46 | The offset is an i32. For a coordinate within 0.75 of the centre at depth ≥ 2.25 it lies in [-40, 40], so the cast never saturates (PROJECTION_CONSTANT = 120, from line 11) |
| `Render.PixelIndex` | src/main.rs:48-49 | An offset at or past the low edge is clamped to 0 rather than rejected; otherwise the pixel is half the screen size plus the offset |
| `Render.SampleAt` | src/main.rs:34-62 | A sample's depth is ≥ 2.25, its luminance lies in [-1, 1], and its ramp index is in range when it is drawn. Its column is at most 80 and its row at most 60 |
| `Render.RowSamples` | src/main.rs:31-71 | One pass of the inner φ loop yields one sample per φ, each of which indexes the ramp safely |
| `Render.FrameSamples` | src/main.rs:27-73 | The nested sweep yields |θs|·|φs| samples, each of which indexes the ramp safely. The θ-major order is fixed by the definition and tied to the nested loops by `RenderFrame`'s loop invariants |
| `Render.FrameSamplesAt` | src/main.rs:27-73 | The sweep is θ-major: the sample for the i-th θ and the j-th φ is at position i × (number of φs) + j, so it follows every sample of an earlier θ and of an earlier φ in the same θ. This is the order that decides which sample wins a depth tie |
| `Render.FrameImage` | src/main.rs:74-77 | The printed frame is 40 rows of 80 characters, each a blank or one of the ramp characters (ramp from line 16) |
| `Render.RenderFrame` | src/main.rs:24-73 | After the nested θ/φ loops each cell of both grids holds `CellAt` of the frame's samples in sweep order (the first of the nearest, by `CellAtIsNearest`) |
| `Render.Advance` | src/main.rs:80-81 | Each frame strictly increases both angles (the amounts, 0.07 and 0.03, are stated by `OrientationAt`'s closed form) |
| `Render.OrientationAt` | src/main.rs:14-15 | Starting from 0 and adding the steps of lines 80-81 once per frame, frame n has angles 0.07n and 0.03n |
| `Render.RenderedRowsAreImage` | src/main.rs:74-77 | Grids that hold the composited frame print, row by row, as that frame's image |
| `Render.Animate` | src/main.rs:14-22 | After n passes of the loop the angles are those of frame n (0.07n and 0.03n, advanced at lines 80-81), and the k-th frame emitted is the image rendered at frame k's orientation |
| `Render.OffTopSampleDrawnInRowZero` | src/main.rs:45-51 | With both angles zero, the sample at θ = φ = 3π/2 projects to row offset -21 against a half-height of 20, faces the light and lands in row 0, column 40 |

## Left out

- Terminal output (src/main.rs:74-77): the clear/home escape sequence and the printing are I/O. `Animate` returns the rows that would be printed instead.
- Frame pacing and the unbounded loop (src/main.rs:20, 78): `thread::sleep` is timing. `Animate` runs a given finite number of frames.
- `cos`, `sin`, `sqrt` and `powi` (src/main.rs:18, 21-22, 29, 32): no trigonometry is evaluated. Every angle is a (cos, sin) pair with c² + s² = 1. The light's length is a parameter `ld` with `ld > 0` and `ld * ld == 2`. `Animate` takes the angle-to-pair function `trig` as a parameter.
- f32 arithmetic: every float is an exact real and `f32::MAX` is its exact real value. Rounding error, NaN and infinities are not modelled. The cast of the i32 screen offset back to f32 (lines 48-49) is exact in the model; this agrees with f32 because `ScreenOffset` keeps the offset within ±40.
- The sweep counters (src/main.rs:27-31, 70-72): `theta += 0.07` and `phi += 0.02` accumulate in f32, so the exact number of samples depends on rounding. The sweep is instead given as two arbitrary finite sequences of (cos, sin) pairs, one for θ and one for φ, and the nested loops run over them.
- `Render.OrientationAt`: the angles accumulate in exact reals (n × 0.07, n × 0.03) rather than in f32, whose repeated additions drift from those values.
- `Render.Animate`: inherits the exact-real angles of `OrientationAt`.
- usize is taken to be 64 bits wide.

