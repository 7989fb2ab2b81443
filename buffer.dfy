/** The per-frame z-buffer: a grid of characters and a grid of depths,
    each ScreenHeight rows of ScreenWidth cells, written sample by sample
    with a bounds test, a backface test and a strict depth test. */
module Buffer {
  import opened Casts

  const ScreenWidth: nat := 80
  const ScreenHeight: nat := 40

  /** `f32::MAX`, the depth every cell starts with. */
  const DepthMax: real := 340282346638528859811704183484516925440.0

  /** The luminance ramp, dimmest first. */
  const Ramp: string := ".,-~:;=!*#$@"

  /** One surface sample after projection: its pixel position (already
      cast to usize), its depth and its luminance. */
  datatype Sample = Sample(x: nat, y: nat, depth: real, lum: real)

  /** The content of one cell of the two grids. */
  datatype Cell = Cell(glyph: char, depth: real)

  const Blank: Cell := Cell(' ', DepthMax)

  /** The sample passes the bounds test and the backface test. */
  predicate Drawn(t: Sample) {
    t.x < ScreenWidth && t.y < ScreenHeight && t.lum > 0.0
  }

  /** The sample passes both tests and targets cell (y, x). */
  predicate Hits(t: Sample, y: int, x: int) {
    Drawn(t) && t.y == y && t.x == x
  }

  /** `(lum * (len - 1)).round() as usize`. A luminance in (0, 1] rounds to
      a valid position in the ramp. */
  function RampIndex(lum: real): (r: nat)
    ensures 0.0 < lum <= 1.0 ==> r < |Ramp|
  {
    var k := Round(lum * (|Ramp| - 1) as real);
    assert 0.0 < lum <= 1.0 ==> 0 <= k <= 11 && ToUsize(k as real) == k by {
      if 0.0 < lum <= 1.0 {
        assert 0 <= k <= 11;
        ToUsizeOfInteger(k);
      }
    }
    ToUsize(k as real)
  }

  /** Indexing the ramp for this sample does not go out of bounds; the
      Rust program would panic otherwise. */
  predicate Indexable(t: Sample) {
    Drawn(t) ==> RampIndex(t.lum) < |Ramp|
  }

  predicate AllIndexable(s: seq<Sample>) {
    forall k :: 0 <= k < |s| ==> Indexable(s[k])
  }

  /** The character drawn for a sample that passes both tests. */
  function Glyph(t: Sample): (r: char)
    requires Drawn(t) && Indexable(t)
    ensures r in Ramp && r != ' '
  {
    Ramp[RampIndex(t.lum)]
  }

  /** Cell (y, x) after sample t: written only when t passes the bounds
      and backface tests, targets this cell and is strictly nearer. */
  function Update(c: Cell, t: Sample, y: int, x: int): (r: Cell)
    requires Indexable(t)
    ensures !Hits(t, y, x) ==> r == c
    ensures r.depth <= c.depth
    ensures r != c ==> t.depth < c.depth && r == Cell(Glyph(t), t.depth)
    ensures Hits(t, y, x) && t.depth < c.depth ==> r.depth == t.depth
  {
    if Hits(t, y, x) && t.depth < c.depth then Cell(Glyph(t), t.depth) else c
  }

  /** Cell (y, x) after a fresh frame has received samples s in order. */
  function CellAt(s: seq<Sample>, y: int, x: int): (r: Cell)
    requires AllIndexable(s)
    ensures r.glyph == ' ' || r.glyph in Ramp
    ensures r.depth <= DepthMax
    ensures r.glyph == ' ' <==> r == Blank
    decreases |s|
  {
    if s == [] then Blank
    else Update(CellAt(s[..|s| - 1], y, x), s[|s| - 1], y, x)
  }

  lemma CellAtSnoc(s: seq<Sample>, t: Sample, y: int, x: int)
    requires AllIndexable(s) && Indexable(t)
    ensures AllIndexable(s + [t])
    ensures CellAt(s + [t], y, x) == Update(CellAt(s, y, x), t, y, x)
  {
    assert (s + [t])[..|s|] == s;
  }

  /** A sample that fails the bounds or backface test changes no cell, and
      one that passes changes at most its own cell. */
  lemma SampleChangesOnlyItsCell(s: seq<Sample>, t: Sample, y: int, x: int)
    requires AllIndexable(s) && Indexable(t)
    requires !Drawn(t) || y != t.y || x != t.x
    ensures AllIndexable(s + [t])
    ensures CellAt(s + [t], y, x) == CellAt(s, y, x)
  {
    CellAtSnoc(s, t, y, x);
  }

  /** Sample k of s hits (y, x), is below the sentinel, is no deeper than any
      other sample hitting (y, x), and is strictly nearer than every earlier
      one: the first of the nearest. */
  predicate FirstNearest(s: seq<Sample>, y: int, x: int, k: int)
    requires 0 <= k < |s|
  {
    && Hits(s[k], y, x)
    && s[k].depth < DepthMax
    && (forall j :: 0 <= j < |s| && Hits(s[j], y, x) ==> s[k].depth <= s[j].depth)
    && (forall j :: 0 <= j < k && Hits(s[j], y, x) ==> s[k].depth < s[j].depth)
  }

  /** What cell (y, x) should show after samples s, stated without
      reference to the sequence of writes (sample order enters only to
      break depth ties): blank when no accepted sample is below the
      sentinel, else the first of the nearest. */
  predicate Nearest(s: seq<Sample>, y: int, x: int, c: Cell)
    requires AllIndexable(s)
  {
    || (c == Blank && forall j :: 0 <= j < |s| && Hits(s[j], y, x) ==> DepthMax <= s[j].depth)
    || (exists k :: 0 <= k < |s| && FirstNearest(s, y, x, k) && c == Cell(Glyph(s[k]), s[k].depth))
  }

  /** The depth-tested writes leave in every cell the nearest accepted
      sample, the first of them on equal depth, or blank if there is none. */
  lemma {:induction false} CellAtIsNearest(s: seq<Sample>, y: int, x: int)
    requires AllIndexable(s)
    ensures Nearest(s, y, x, CellAt(s, y, x))
  {
    if s != [] {
      var n := |s| - 1;
      var p, t := s[..n], s[n];
      assert s == p + [t];
      CellAtIsNearest(p, y, x);
      var before := CellAt(p, y, x);
      if Hits(t, y, x) && t.depth < before.depth {
        if before != Blank {
          var k :| 0 <= k < |p| && FirstNearest(p, y, x, k) && before == Cell(Glyph(p[k]), p[k].depth);
        }
        assert FirstNearest(s, y, x, n);
      } else if before != Blank {
        var k :| 0 <= k < |p| && FirstNearest(p, y, x, k) && before == Cell(Glyph(p[k]), p[k].depth);
        assert FirstNearest(s, y, x, k);
      }
    }
  }

  /** At most one cell content satisfies Nearest. */
  lemma NearestUnique(s: seq<Sample>, y: int, x: int, c1: Cell, c2: Cell)
    requires AllIndexable(s)
    requires Nearest(s, y, x, c1) && Nearest(s, y, x, c2)
    ensures c1 == c2
  {
    if c1 != Blank && c2 != Blank {
      var k1 :| 0 <= k1 < |s| && FirstNearest(s, y, x, k1) && c1 == Cell(Glyph(s[k1]), s[k1].depth);
      var k2 :| 0 <= k2 < |s| && FirstNearest(s, y, x, k2) && c2 == Cell(Glyph(s[k2]), s[k2].depth);
      assert k1 == k2;
    }
  }

  /** CellAt is exactly the description Nearest, which does not follow the
      sequence of writes. */
  lemma CellAtCharacterised(s: seq<Sample>, y: int, x: int, c: Cell)
    requires AllIndexable(s)
    ensures Nearest(s, y, x, c) <==> c == CellAt(s, y, x)
  {
    CellAtIsNearest(s, y, x);
    if Nearest(s, y, x, c) {
      NearestUnique(s, y, x, c, CellAt(s, y, x));
    }
  }

  /** The depth a cell ends with is at most that of every sample of s2
      hitting it, when every sample of s2 is also in s1. */
  lemma DepthAtMostEvery(s1: seq<Sample>, s2: seq<Sample>, y: int, x: int)
    requires AllIndexable(s1) && AllIndexable(s2)
    requires multiset(s2) <= multiset(s1)
    ensures CellAt(s1, y, x).depth <= CellAt(s2, y, x).depth
  {
    CellAtIsNearest(s2, y, x);
    var c2 := CellAt(s2, y, x);
    if c2 != Blank {
      var k :| 0 <= k < |s2| && FirstNearest(s2, y, x, k) && c2 == Cell(Glyph(s2[k]), s2[k].depth);
      assert s2[k] in multiset(s2);
      assert s2[k] in s1;
      var j :| 0 <= j < |s1| && s1[j] == s2[k];
      CellAtIsNearest(s1, y, x);
      var c1 := CellAt(s1, y, x);
      if c1 != Blank {
        var i :| 0 <= i < |s1| && FirstNearest(s1, y, x, i) && c1 == Cell(Glyph(s1[i]), s1[i].depth);
        assert c1.depth <= s1[j].depth;
      }
    }
  }

  /** The depth each cell ends with does not depend on the order in which
      the samples arrive (only the glyph of a tie does). */
  lemma DepthOrderIndependent(s1: seq<Sample>, s2: seq<Sample>, y: int, x: int)
    requires AllIndexable(s1) && AllIndexable(s2)
    requires multiset(s1) == multiset(s2)
    ensures CellAt(s1, y, x).depth == CellAt(s2, y, x).depth
  {
    DepthAtMostEvery(s1, s2, y, x);
    DepthAtMostEvery(s2, s1, y, x);
  }

  /** Both grids have the screen's dimensions. */
  predicate Sized(pixels: array2<char>, depths: array2<real>) {
    && pixels.Length0 == ScreenHeight && pixels.Length1 == ScreenWidth
    && depths.Length0 == ScreenHeight && depths.Length1 == ScreenWidth
  }

  /** The grids hold, cell by cell, what CellAt gives for samples s. */
  ghost predicate Holds(pixels: array2<char>, depths: array2<real>, s: seq<Sample>)
    reads pixels, depths
    requires Sized(pixels, depths) && AllIndexable(s)
  {
    forall y, x :: 0 <= y < ScreenHeight && 0 <= x < ScreenWidth ==>
      Cell(pixels[y, x], depths[y, x]) == CellAt(s, y, x)
  }

  /** A fresh pair of grids: every character blank, every depth f32::MAX. */
  method NewBuffers() returns (pixels: array2<char>, depths: array2<real>)
    ensures Sized(pixels, depths)
    ensures Holds(pixels, depths, [])
    ensures fresh(pixels) && fresh(depths)
  {
    pixels := new char[ScreenHeight, ScreenWidth]((_, _) => ' ');
    depths := new real[ScreenHeight, ScreenWidth]((_, _) => DepthMax);
  }

  /** Composites one sample: the bounds test, the backface test, the ramp
      lookup and the strict depth test, then one write to each grid. */
  method Plot(pixels: array2<char>, depths: array2<real>, t: Sample)
    requires Sized(pixels, depths) && Indexable(t)
    modifies pixels, depths
    ensures forall y, x :: 0 <= y < ScreenHeight && 0 <= x < ScreenWidth ==>
      Cell(pixels[y, x], depths[y, x]) == Update(Cell(old(pixels[y, x]), old(depths[y, x])), t, y, x)
  {
    if t.x < ScreenWidth && t.y < ScreenHeight {
      if t.lum > 0.0 {
        var i := RampIndex(t.lum);
        if t.depth < depths[t.y, t.x] {
          depths[t.y, t.x] := t.depth;
          pixels[t.y, t.x] := Ramp[i];
        }
      }
    }
  }

  /** Plot keeps the grids equal to CellAt of the samples seen so far. */
  method PlotNext(pixels: array2<char>, depths: array2<real>, t: Sample, ghost s: seq<Sample>)
    requires Sized(pixels, depths) && AllIndexable(s) && Indexable(t)
    requires Holds(pixels, depths, s)
    modifies pixels, depths
    ensures AllIndexable(s + [t])
    ensures Holds(pixels, depths, s + [t])
  {
    Plot(pixels, depths, t);
    forall y, x | 0 <= y < ScreenHeight && 0 <= x < ScreenWidth
      ensures Cell(pixels[y, x], depths[y, x]) == CellAt(s + [t], y, x)
    {
      CellAtSnoc(s, t, y, x);
    }
  }
}
