/** The grid sampler of updateHalftoneData: a row-major RGBA buffer of
    width x height pixels is sampled every `step` pixels, y outer and x
    inner, and each sample becomes one circle whose radius is given by its
    luminance. */
module Sampler {
  import opened Tone

  /** One dot of the halftone overlay: its centre in frame pixels and its
      radius. */
  datatype Circle = Circle(x: int, y: int, r: real)

  /** Multiplying by a non-negative factor preserves order. */
  lemma MulMono(a: int, b: int, c: nat)
    ensures a <= b ==> a * c <= b * c
  {
    if a <= b {
      assert b * c - a * c == (b - a) * c;
    }
  }

  /** Number of grid positions 0, step, 2 * step, ... below n: how many
      times a loop `for (i = 0; i < n; i += step)` runs. */
  function CeilDiv(n: nat, step: nat): (c: nat)
    requires 1 <= step
    ensures c == 0 <==> n == 0
    decreases n
  {
    if n == 0 then 0
    else if n <= step then 1
    else 1 + CeilDiv(n - step, step)
  }

  /** The count is the ceiling of n / step: c steps reach n, and c - 1 steps
      stay below it. */
  lemma {:induction false} CeilDivIsCeiling(n: nat, step: nat)
    requires 1 <= step
    ensures n <= CeilDiv(n, step) * step
    ensures CeilDiv(n, step) == 0 || (CeilDiv(n, step) - 1) * step < n
    decreases n
  {
    if step < n {
      var d := CeilDiv(n - step, step);
      CeilDivIsCeiling(n - step, step);
      assert (d + 1) * step == d * step + step;
      assert (d - 1) * step == d * step - step;
    }
  }

  /** The next grid position after a multiple of the step is one too. */
  lemma NextOnGrid(x: nat, step: nat)
    requires 1 <= step && x % step == 0
    ensures (x + step) % step == 0
  {
    var q := x / step;
    assert q * step + x % step == x;
    Unflatten(step, 0, q + 1);
  }

  /** Two distinct multiples of the step are at least a step apart. */
  lemma GridGap(x0: nat, x: nat, step: nat)
    requires 1 <= step && x0 % step == 0 && x % step == 0 && x0 < x
    ensures x0 + step <= x
  {
    var a, b := x0 / step, x / step;
    assert a * step + x0 % step == x0;
    assert b * step + x % step == x;
    MulMono(b, a, step);
    MulMono(a + 1, b, step);
  }

  /** Row-major flattening of (column, row) over a cols x rows grid stays
      below cols * rows. */
  lemma FlatIndexBound(cols: nat, rows: nat, col: nat, row: nat)
    requires col < cols && row < rows
    ensures row * cols + col < rows * cols
  {
    MulMono(row + 1, rows, cols);
  }

  /** Row-major flattening can be undone by division and remainder. */
  lemma Unflatten(cols: nat, col: nat, row: nat)
    requires col < cols
    ensures (row * cols + col) / cols == row
    ensures (row * cols + col) % cols == col
  {
    var k := row * cols + col;
    var q := k / cols;
    assert q * cols + k % cols == k;
    MulMono(q + 1, row, cols);
    MulMono(row + 1, q, cols);
  }

  /** Byte offset of pixel (x, y) in a row-major RGBA buffer of width w. */
  function PixelIndex(w: nat, x: nat, y: nat): (i: nat)
  {
    (y * w + x) * 4
  }

  /** Every byte of an in-frame pixel, alpha included, lies inside a buffer
      of 4 * w * h bytes. */
  lemma PixelInBounds(w: nat, h: nat, x: nat, y: nat)
    requires x < w && y < h
    ensures PixelIndex(w, x, y) + 3 < 4 * w * h
  {
    FlatIndexBound(w, h, x, y);
  }

  /** The circle sampled at in-frame pixel (x, y): red, green and blue are
      read at the pixel's offset and the next two bytes. */
  function Sample(data: seq<Byte>, w: nat, h: nat, x: nat, y: nat, dotSize: real): (c: Circle)
    requires |data| == 4 * w * h && x < w && y < h
  {
    PixelInBounds(w, h, x, y);
    var i := PixelIndex(w, x, y);
    Circle(x, y, Radius(Luminance(data[i], data[i + 1], data[i + 2]), dotSize))
  }

  /** The circles of pixel row y from column x rightwards, one every `step`
      pixels: what the inner loop still appends from column x on. */
  function Row(data: seq<Byte>, w: nat, h: nat, step: nat, dotSize: real, x: nat, y: nat): (s: seq<Circle>)
    requires 1 <= step && |data| == 4 * w * h && y < h
    decreases w - x
  {
    if x < w then [Sample(data, w, h, x, y, dotSize)] + Row(data, w, h, step, dotSize, x + step, y)
    else []
  }

  /** The circles of pixel rows y, y + step, ... down to the bottom of the
      frame: what the outer loop still appends from row y on. */
  function Rows(data: seq<Byte>, w: nat, h: nat, step: nat, dotSize: real, y: nat): (s: seq<Circle>)
    requires 1 <= step && |data| == 4 * w * h
    decreases h - y
  {
    if y < h then Row(data, w, h, step, dotSize, 0, y) + Rows(data, w, h, step, dotSize, y + step)
    else []
  }

  /** The halftone of a frame: the circles the two sampling loops produce,
      ceil(w / step) per row and ceil(h / step) rows. It is empty exactly
      when the frame has no pixels. */
  function Halftone(data: seq<Byte>, w: nat, h: nat, step: nat, dotSize: real): (s: seq<Circle>)
    requires 1 <= step && |data| == 4 * w * h
    ensures |s| == CeilDiv(w, step) * CeilDiv(h, step)
    ensures |s| == 0 <==> w == 0 || h == 0
  {
    RowsLength(data, w, h, step, dotSize, 0);
    Rows(data, w, h, step, dotSize, 0)
  }

  /** The sampling loops of updateHalftoneData over the buffer returned by
      getImageData: y advances by `step` down the frame and, for each y, x
      advances by `step` across it; every sampled pixel's circle is pushed
      onto the list, which ends up being the frame's halftone. */
  method SampleFrame(data: array<Byte>, w: nat, h: nat, step: nat, dotSize: real)
    returns (circles: seq<Circle>)
    requires 1 <= step && data.Length == 4 * w * h
    ensures circles == Halftone(data[..], w, h, step, dotSize)
  {
    ghost var pixels := data[..];
    circles := [];
    var y := 0;
    while y < h
      invariant circles + Rows(pixels, w, h, step, dotSize, y) == Rows(pixels, w, h, step, dotSize, 0)
    {
      ghost var above := circles;
      var x := 0;
      while x < w
        invariant circles + Row(pixels, w, h, step, dotSize, x, y)
          == above + Row(pixels, w, h, step, dotSize, 0, y)
      {
        PixelInBounds(w, h, x, y);
        var index := (y * w + x) * 4;
        var lum := Luminance(data[index], data[index + 1], data[index + 2]);
        var radius := Radius(lum, dotSize);
        assert Circle(x, y, radius) == Sample(pixels, w, h, x, y, dotSize);
        assert circles + Row(pixels, w, h, step, dotSize, x, y)
          == (circles + [Circle(x, y, radius)]) + Row(pixels, w, h, step, dotSize, x + step, y);
        circles := circles + [Circle(x, y, radius)];
        x := x + step;
      }
      assert circles == above + Row(pixels, w, h, step, dotSize, 0, y);
      assert Rows(pixels, w, h, step, dotSize, y)
        == Row(pixels, w, h, step, dotSize, 0, y) + Rows(pixels, w, h, step, dotSize, y + step);
      assert above + Rows(pixels, w, h, step, dotSize, y)
        == circles + Rows(pixels, w, h, step, dotSize, y + step);
      y := y + step;
    }
  }

  /** Circle a is listed before circle b in row-major order: on an earlier
      row, or on the same row further left. */
  predicate RowMajorBefore(a: Circle, b: Circle)
  {
    a.y < b.y || (a.y == b.y && a.x < b.x)
  }

  /** Every circle of a row lies on pixel row y, on a grid column from x to
      the right edge, and is the sample of the pixel under its centre. */
  lemma {:induction false} RowOnGrid(data: seq<Byte>, w: nat, h: nat, step: nat, dotSize: real, x: nat, y: nat)
    requires 1 <= step && |data| == 4 * w * h && y < h && x % step == 0
    ensures forall c :: c in Row(data, w, h, step, dotSize, x, y) ==>
      c.y == y && x <= c.x < w && c.x % step == 0 && c == Sample(data, w, h, c.x, c.y, dotSize)
    decreases w - x
  {
    if x < w {
      NextOnGrid(x, step);
      RowOnGrid(data, w, h, step, dotSize, x + step, y);
    }
  }

  /** Along a row the circles move strictly to the right. */
  lemma {:induction false} RowSorted(data: seq<Byte>, w: nat, h: nat, step: nat, dotSize: real, x: nat, y: nat)
    requires 1 <= step && |data| == 4 * w * h && y < h && x % step == 0
    ensures forall i, j :: 0 <= i < j < |Row(data, w, h, step, dotSize, x, y)| ==>
      Row(data, w, h, step, dotSize, x, y)[i].x < Row(data, w, h, step, dotSize, x, y)[j].x
    decreases w - x
  {
    if x < w {
      var s, rest := Row(data, w, h, step, dotSize, x, y), Row(data, w, h, step, dotSize, x + step, y);
      NextOnGrid(x, step);
      RowSorted(data, w, h, step, dotSize, x + step, y);
      RowOnGrid(data, w, h, step, dotSize, x + step, y);
      forall i, j | 0 <= i < j < |s|
        ensures s[i].x < s[j].x
      {
        assert s[j] == rest[j - 1] && rest[j - 1] in rest;
        if 0 < i {
          assert s[i] == rest[i - 1];
        }
      }
    }
  }

  /** A row from x on holds ceil((w - x) / step) circles. */
  lemma {:induction false} RowLength(data: seq<Byte>, w: nat, h: nat, step: nat, dotSize: real, x: nat, y: nat)
    requires 1 <= step && |data| == 4 * w * h && y < h
    ensures |Row(data, w, h, step, dotSize, x, y)| == if x < w then CeilDiv(w - x, step) else 0
    decreases w - x
  {
    if x < w {
      RowLength(data, w, h, step, dotSize, x + step, y);
      assert w - x - step == w - (x + step);
    }
  }

  /** A row from grid column x0 on holds the sample of every grid column x
      at or right of x0 inside the frame. */
  lemma {:induction false} RowCovers(data: seq<Byte>, w: nat, h: nat, step: nat, dotSize: real, x0: nat, x: nat, y: nat)
    requires 1 <= step && |data| == 4 * w * h && y < h
    requires x0 % step == 0 && x % step == 0 && x0 <= x < w
    ensures Sample(data, w, h, x, y, dotSize) in Row(data, w, h, step, dotSize, x0, y)
    decreases x - x0
  {
    if x0 < x {
      GridGap(x0, x, step);
      NextOnGrid(x0, step);
      RowCovers(data, w, h, step, dotSize, x0 + step, x, y);
    }
  }

  /** Every circle of the rows from y on lies inside the frame, at or below
      y, on multiples of the step, and is the sample of its own pixel. */
  lemma {:induction false} RowsOnGrid(data: seq<Byte>, w: nat, h: nat, step: nat, dotSize: real, y: nat)
    requires 1 <= step && |data| == 4 * w * h && y % step == 0
    ensures forall c :: c in Rows(data, w, h, step, dotSize, y) ==>
      y <= c.y < h && 0 <= c.x < w && c.x % step == 0 && c.y % step == 0
      && c == Sample(data, w, h, c.x, c.y, dotSize)
    decreases h - y
  {
    if y < h {
      RowOnGrid(data, w, h, step, dotSize, 0, y);
      NextOnGrid(y, step);
      RowsOnGrid(data, w, h, step, dotSize, y + step);
    }
  }

  /** The rows from y on are listed in strict row-major order. */
  lemma {:induction false} RowsSorted(data: seq<Byte>, w: nat, h: nat, step: nat, dotSize: real, y: nat)
    requires 1 <= step && |data| == 4 * w * h && y % step == 0
    ensures forall i, j :: 0 <= i < j < |Rows(data, w, h, step, dotSize, y)| ==>
      RowMajorBefore(Rows(data, w, h, step, dotSize, y)[i], Rows(data, w, h, step, dotSize, y)[j])
    decreases h - y
  {
    if y < h {
      var s := Rows(data, w, h, step, dotSize, y);
      var row, below := Row(data, w, h, step, dotSize, 0, y), Rows(data, w, h, step, dotSize, y + step);
      RowOnGrid(data, w, h, step, dotSize, 0, y);
      RowSorted(data, w, h, step, dotSize, 0, y);
      NextOnGrid(y, step);
      RowsOnGrid(data, w, h, step, dotSize, y + step);
      RowsSorted(data, w, h, step, dotSize, y + step);
      forall i, j | 0 <= i < j < |s|
        ensures RowMajorBefore(s[i], s[j])
      {
        if j < |row| {
          assert s[i] == row[i] && s[j] == row[j] && row[i] in row && row[j] in row;
        } else if i < |row| {
          assert s[i] == row[i] && row[i] in row;
          assert s[j] == below[j - |row|] && below[j - |row|] in below;
        } else {
          assert s[i] == below[i - |row|] && s[j] == below[j - |row|];
        }
      }
    }
  }

  /** The rows from y on hold ceil((h - y) / step) rows of ceil(w / step)
      circles. */
  lemma {:induction false} RowsLength(data: seq<Byte>, w: nat, h: nat, step: nat, dotSize: real, y: nat)
    requires 1 <= step && |data| == 4 * w * h
    ensures |Rows(data, w, h, step, dotSize, y)|
      == (if y < h then CeilDiv(h - y, step) else 0) * CeilDiv(w, step)
    decreases h - y
  {
    if y < h {
      var cols, rest := CeilDiv(w, step), if y + step < h then CeilDiv(h - (y + step), step) else 0;
      RowLength(data, w, h, step, dotSize, 0, y);
      assert |Row(data, w, h, step, dotSize, 0, y)| == cols;
      RowsLength(data, w, h, step, dotSize, y + step);
      assert |Rows(data, w, h, step, dotSize, y + step)| == rest * cols;
      assert CeilDiv(h - y, step) == 1 + rest by {
        assert h - y - step == h - (y + step);
      }
      MulSucc(rest, cols);
    }
  }

  /** One more row of b circles adds b to the count. */
  lemma MulSucc(a: int, b: int)
    ensures (1 + a) * b == b + a * b
  {
  }

  /** The rows from grid row y0 on hold the sample of every grid point at or
      below y0 inside the frame. */
  lemma {:induction false} RowsCover(data: seq<Byte>, w: nat, h: nat, step: nat, dotSize: real, y0: nat, x: nat, y: nat)
    requires 1 <= step && |data| == 4 * w * h
    requires y0 % step == 0 && y % step == 0 && y0 <= y < h
    requires x % step == 0 && x < w
    ensures Sample(data, w, h, x, y, dotSize) in Rows(data, w, h, step, dotSize, y0)
    decreases y - y0
  {
    if y0 == y {
      RowCovers(data, w, h, step, dotSize, 0, x, y);
    } else {
      GridGap(y0, y, step);
      NextOnGrid(y0, step);
      RowsCover(data, w, h, step, dotSize, y0 + step, x, y);
    }
  }

  /** Every circle of a halftone sits inside the frame on a multiple of the
      step in both directions, and is the sample of the pixel under its own
      centre. */
  lemma HalftoneOnGrid(data: seq<Byte>, w: nat, h: nat, step: nat, dotSize: real)
    requires 1 <= step && |data| == 4 * w * h
    ensures forall c :: c in Halftone(data, w, h, step, dotSize) ==>
      0 <= c.x < w && 0 <= c.y < h && c.x % step == 0 && c.y % step == 0
      && c == Sample(data, w, h, c.x, c.y, dotSize)
  {
    RowsOnGrid(data, w, h, step, dotSize, 0);
  }

  /** The circles of a halftone are strictly ordered row-major: by y, then
      by x. In particular no grid point is emitted twice. */
  lemma HalftoneRowMajor(data: seq<Byte>, w: nat, h: nat, step: nat, dotSize: real)
    requires 1 <= step && |data| == 4 * w * h
    ensures forall i, j :: 0 <= i < j < |Halftone(data, w, h, step, dotSize)| ==>
      RowMajorBefore(Halftone(data, w, h, step, dotSize)[i], Halftone(data, w, h, step, dotSize)[j])
  {
    RowsSorted(data, w, h, step, dotSize, 0);
  }

  /** Conversely, every in-frame pixel whose coordinates are multiples of
      the step is sampled: the halftone holds that pixel's circle. */
  lemma HalftoneCoversGrid(data: seq<Byte>, w: nat, h: nat, step: nat, dotSize: real, x: nat, y: nat)
    requires 1 <= step && |data| == 4 * w * h
    requires x < w && y < h && x % step == 0 && y % step == 0
    ensures Sample(data, w, h, x, y, dotSize) in Halftone(data, w, h, step, dotSize)
  {
    RowsCover(data, w, h, step, dotSize, 0, x, y);
  }

  /** Offsets of the red, green and blue bytes of a pixel are 0, 1 and 2
      modulo 4, so none of them is an alpha byte. */
  lemma ColourChannels(w: nat, x: nat, y: nat)
    ensures PixelIndex(w, x, y) % 4 == 0
    ensures (PixelIndex(w, x, y) + 1) % 4 == 1
    ensures (PixelIndex(w, x, y) + 2) % 4 == 2
  {
    var p := y * w + x;
    Unflatten(4, 0, p);
    Unflatten(4, 1, p);
    Unflatten(4, 2, p);
  }

  /** A sample reads no alpha byte. */
  lemma SampleIgnoresAlpha(d1: seq<Byte>, d2: seq<Byte>, w: nat, h: nat, x: nat, y: nat, dotSize: real)
    requires |d1| == 4 * w * h && |d2| == |d1| && x < w && y < h
    requires forall i :: 0 <= i < |d1| && i % 4 != 3 ==> d1[i] == d2[i]
    ensures Sample(d1, w, h, x, y, dotSize) == Sample(d2, w, h, x, y, dotSize)
  {
    PixelInBounds(w, h, x, y);
    ColourChannels(w, x, y);
  }

  lemma {:induction false} RowIgnoresAlpha(d1: seq<Byte>, d2: seq<Byte>, w: nat, h: nat, step: nat, dotSize: real, x: nat, y: nat)
    requires 1 <= step && |d1| == 4 * w * h && |d2| == |d1| && y < h
    requires forall i :: 0 <= i < |d1| && i % 4 != 3 ==> d1[i] == d2[i]
    ensures Row(d1, w, h, step, dotSize, x, y) == Row(d2, w, h, step, dotSize, x, y)
    decreases w - x
  {
    if x < w {
      var here := Sample(d1, w, h, x, y, dotSize);
      assert here == Sample(d2, w, h, x, y, dotSize) by {
        SampleIgnoresAlpha(d1, d2, w, h, x, y, dotSize);
      }
      RowIgnoresAlpha(d1, d2, w, h, step, dotSize, x + step, y);
      assert Row(d1, w, h, step, dotSize, x, y) == [here] + Row(d1, w, h, step, dotSize, x + step, y);
    }
  }

  lemma {:induction false} RowsIgnoreAlpha(d1: seq<Byte>, d2: seq<Byte>, w: nat, h: nat, step: nat, dotSize: real, y: nat)
    requires 1 <= step && |d1| == 4 * w * h && |d2| == |d1|
    requires forall i :: 0 <= i < |d1| && i % 4 != 3 ==> d1[i] == d2[i]
    ensures Rows(d1, w, h, step, dotSize, y) == Rows(d2, w, h, step, dotSize, y)
    decreases h - y
  {
    if y < h {
      RowIgnoresAlpha(d1, d2, w, h, step, dotSize, 0, y);
      RowsIgnoreAlpha(d1, d2, w, h, step, dotSize, y + step);
    }
  }

  /** The alpha byte of a pixel is never read: two buffers that differ only
      in alpha bytes have the same halftone. */
  lemma HalftoneIgnoresAlpha(d1: seq<Byte>, d2: seq<Byte>, w: nat, h: nat, step: nat, dotSize: real)
    requires 1 <= step && |d1| == 4 * w * h && |d2| == |d1|
    requires forall i :: 0 <= i < |d1| && i % 4 != 3 ==> d1[i] == d2[i]
    ensures Halftone(d1, w, h, step, dotSize) == Halftone(d2, w, h, step, dotSize)
  {
    RowsIgnoreAlpha(d1, d2, w, h, step, dotSize, 0);
  }

  /** An all-black frame gives full-size dots everywhere. */
  lemma HalftoneBlackFrame(data: seq<Byte>, w: nat, h: nat, step: nat, dotSize: real)
    requires 1 <= step && |data| == 4 * w * h
    requires forall i :: 0 <= i < |data| && i % 4 != 3 ==> data[i] == 0
    ensures forall c :: c in Halftone(data, w, h, step, dotSize) ==> c.r == dotSize
  {
    HalftoneOnGrid(data, w, h, step, dotSize);
    forall c | c in Halftone(data, w, h, step, dotSize)
      ensures c.r == dotSize
    {
      PixelInBounds(w, h, c.x, c.y);
      ColourChannels(w, c.x, c.y);
    }
  }

  /** An all-white frame gives no visible dots: every radius is 0. */
  lemma HalftoneWhiteFrame(data: seq<Byte>, w: nat, h: nat, step: nat, dotSize: real)
    requires 1 <= step && |data| == 4 * w * h
    requires forall i :: 0 <= i < |data| && i % 4 != 3 ==> data[i] == 255
    ensures forall c :: c in Halftone(data, w, h, step, dotSize) ==> c.r == 0.0
  {
    HalftoneOnGrid(data, w, h, step, dotSize);
    forall c | c in Halftone(data, w, h, step, dotSize)
      ensures c.r == 0.0
    {
      PixelInBounds(w, h, c.x, c.y);
      ColourChannels(w, c.x, c.y);
    }
  }

  /** With a non-negative dot size every radius lies between 0 and the
      maximum dot radius. */
  lemma HalftoneRadii(data: seq<Byte>, w: nat, h: nat, step: nat, dotSize: real)
    requires 1 <= step && |data| == 4 * w * h && 0.0 <= dotSize
    ensures forall c :: c in Halftone(data, w, h, step, dotSize) ==> 0.0 <= c.r <= dotSize
  {
    HalftoneOnGrid(data, w, h, step, dotSize);
    forall c | c in Halftone(data, w, h, step, dotSize)
      ensures 0.0 <= c.r <= dotSize
    {
      PixelInBounds(w, h, c.x, c.y);
      var i := PixelIndex(w, c.x, c.y);
      RadiusBounds(Luminance(data[i], data[i + 1], data[i + 2]), dotSize);
    }
  }
}
