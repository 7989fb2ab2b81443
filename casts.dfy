/** The numeric conversions the renderer relies on, with Rust's semantics
    for finite values: `as i32` and `as usize` truncate toward zero and
    saturate at the bounds of the target type, and `f32::round` rounds
    half-way cases away from zero. Floats are modelled as reals. */
module Casts {

  const I32Min: int := -0x8000_0000
  const I32Max: int := 0x7FFF_FFFF
  /** usize on a 64-bit target. */
  const UsizeMax: int := 0xFFFF_FFFF_FFFF_FFFF

  /** Truncation toward zero (Dafny's `Floor` rounds toward minus infinity). */
  function Trunc(x: real): (r: int)
    ensures 0.0 <= x ==> r as real <= x < r as real + 1.0
    ensures x < 0.0 ==> r as real - 1.0 < x <= r as real
  {
    if x >= 0.0 then x.Floor else -((-x).Floor)
  }

  /** `x as i32`: truncation toward zero, saturating at the i32 range. */
  function ToI32(x: real): (r: int)
    ensures I32Min <= r <= I32Max
    ensures I32Min as real <= x < I32Max as real + 1.0 ==> r == Trunc(x)
    ensures x <= I32Min as real ==> r == I32Min
    ensures x >= I32Max as real ==> r == I32Max
  {
    var t := Trunc(x);
    if t < I32Min then I32Min else if t > I32Max then I32Max else t
  }

  /** `x as usize`: a negative value becomes 0, a value past the range
      becomes usize::MAX, anything else is truncated. */
  function ToUsize(x: real): (r: nat)
    ensures r <= UsizeMax
    ensures x <= 0.0 ==> r == 0
    ensures 0.0 <= x < UsizeMax as real + 1.0 ==> r as real <= x < r as real + 1.0
    ensures x >= UsizeMax as real ==> r == UsizeMax
  {
    if x <= 0.0 then 0 else if x.Floor > UsizeMax then UsizeMax else x.Floor
  }

  /** `f32::round`: to the nearest integer, half-way cases away from zero. */
  function Round(x: real): (r: int)
    ensures 0.0 <= x ==> r as real - 0.5 <= x < r as real + 0.5
    ensures x < 0.0 ==> r as real - 0.5 < x <= r as real + 0.5
  {
    if x >= 0.0 then (x + 0.5).Floor else -((-x + 0.5).Floor)
  }

  /** An integer-valued offset cast to usize: values at or below zero are
      clamped to 0 rather than rejected. */
  lemma {:induction false} ToUsizeOfInteger(n: int)
    requires n <= UsizeMax
    ensures ToUsize(n as real) == if n <= 0 then 0 else n
  {
    if n > 0 {
      assert (n as real).Floor == n;
    }
  }
}
