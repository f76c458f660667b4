/** The ripple height field as values: the grid is a flat sequence of
    `width * height` cells, cell (i, j) at index `j * width + i`. The functions
    here say what one impulse, one propagation step and one shading pass
    produce; the classes in module WaterCanvas are proved against them. */
module RippleField {
  import opened Int16Arith

  /** Half side of the square an impulse covers: columns and rows
      `[c - RADIUS, c + RADIUS)` around the cell `c` under the pointer. */
  const RADIUS: int := 3

  /** Base colour of still water, and the extra bias the green and blue
      channels receive on top of it. */
  const BASE_R: int := 5
  const BASE_G: int := 25
  const BASE_B: int := 60
  const BIAS_G: int := 5
  const BIAS_B: int := 20

  function Abs(x: int): int {
    if x < 0 then -x else x
  }

  predicate AllInt16(s: seq<int>) {
    forall k :: 0 <= k < |s| ==> IsInt16(s[k])
  }

  //////////////////////////////////////////////////////////////////////
  // Row-major coordinates

  lemma MulLeft(a: int, b: int, w: int)
    requires a <= b && w >= 0
    ensures a * w <= b * w
  {
    MulNonNegative(b - a, w);
    assert (b - a) * w == b * w - a * w;
  }

  /** The flat index of cell (i, j) lies inside the grid, and the column and
      row are recovered from it by `%` and `/`. */
  lemma CellIndex(w: int, h: int, i: int, j: int)
    requires 0 <= i < w && 0 <= j < h
    ensures 0 <= j * w + i < w * h
    ensures (j * w + i) % w == i && (j * w + i) / w == j
  {
    MulNonNegative(j, w);
    MulLeft(j + 1, h, w);
    assert (j + 1) * w == j * w + w;
    assert w * h == h * w;
    var k := j * w + i;
    var q, m := k / w, k % w;
    assert k == q * w + m && 0 <= m < w;
    assert (j - q) * w == m - i;
    if j - q >= 1 {
      MulLeft(1, j - q, w);
    } else if j - q <= -1 {
      MulLeft(j - q, -1, w);
    }
  }

  /** Every index of the grid is the flat index of one cell. */
  lemma CellOf(w: int, h: int, k: int)
    requires 0 <= w && 0 <= h && 0 <= k < w * h
    ensures w > 0
    ensures 0 <= k % w < w && 0 <= k / w < h
    ensures k == (k / w) * w + k % w
  {
    var q, m := k / w, k % w;
    assert k == q * w + m && 0 <= m < w;
    FloorDiv(k, w);
    if q >= h {
      MulLeft(h, q, w);
    }
  }

  //////////////////////////////////////////////////////////////////////
  // Impulse injection

  /** Cell (i, j) is written by an impulse centred on (ix, iy): it lies in the
      half-open square around the centre and passes the guard
      `i > 0 && i < width && j > 0 && j < height`, which also keeps row 0 and
      column 0 out of reach. */
  predicate InPatch(i: int, j: int, w: int, h: int, ix: int, iy: int) {
    ix - RADIUS <= i < ix + RADIUS && iy - RADIUS <= j < iy + RADIUS &&
    0 < i < w && 0 < j < h
  }

  /** The field after an impulse of `strength` at (ix, iy): each covered cell
      gets `strength` added once and stored back with 16-bit wrap-around;
      every other cell keeps its value. */
  function Rippled(b: seq<int>, w: nat, h: nat, ix: int, iy: int, strength: int): (r: seq<int>)
    requires |b| == w * h
    ensures |r| == |b|
    ensures AllInt16(b) ==> AllInt16(r)
  {
    seq(|b|, k requires 0 <= k < |b| =>
      if InPatch(k % w, k / w, w, h, ix, iy) then Wrap16(b[k] + strength) else b[k])
  }

  /** Rippled read cell by cell, in the coordinates the injection loops use. */
  lemma RippledAt(b: seq<int>, w: nat, h: nat, ix: int, iy: int, strength: int, i: int, j: int)
    requires |b| == w * h && 0 <= i < w && 0 <= j < h
    ensures 0 <= j * w + i < |b|
    ensures Rippled(b, w, h, ix, iy, strength)[j * w + i] ==
      if InPatch(i, j, w, h, ix, iy) then Wrap16(b[j * w + i] + strength) else b[j * w + i]
  {
    CellIndex(w, h, i, j);
  }

  /** No impulse ever changes row 0 or column 0 of the field. */
  lemma RippleSparesBorder(b: seq<int>, w: nat, h: nat, ix: int, iy: int, strength: int)
    requires |b| == w * h
    ensures forall k :: 0 <= k < |b| && (k < w || k % w == 0) ==>
      Rippled(b, w, h, ix, iy, strength)[k] == b[k]
  {
    forall k | 0 <= k < |b| && (k < w || k % w == 0)
      ensures Rippled(b, w, h, ix, iy, strength)[k] == b[k]
    {
      CellOf(w, h, k);
      if k < w {
        assert k / w == 0;
      }
    }
  }

  /** An impulse whose square misses the writable part of the grid (columns
      and rows 1 and up, below width and height) changes nothing. */
  lemma RippleOffField(b: seq<int>, w: nat, h: nat, ix: int, iy: int, strength: int)
    requires |b| == w * h
    requires ix + RADIUS <= 1 || w <= ix - RADIUS || iy + RADIUS <= 1 || h <= iy - RADIUS
    ensures Rippled(b, w, h, ix, iy, strength) == b
  {
    var r := Rippled(b, w, h, ix, iy, strength);
    forall k | 0 <= k < |b|
      ensures r[k] == b[k]
    {
      CellOf(w, h, k);
    }
  }

  /** The injection loops visit rows `iy - RADIUS ..` and, within a row,
      columns `ix - RADIUS ..` in increasing order. Cell k has been written
      before the loops reach column i of row j when it is covered and lies on
      an earlier row, or on row j left of column i. */
  predicate DoneBefore(k: int, w: nat, h: nat, ix: int, iy: int, j: int, i: int)
    requires 0 <= k < w * h
  {
    CellOf(w, h, k);
    var c, r := k % w, k / w;
    InPatch(c, r, w, h, ix, iy) && (r < j || (r == j && c < i))
  }

  /** The field as the injection loops leave it when they reach column i of
      row j. */
  function PartialRipple(b: seq<int>, w: nat, h: nat, ix: int, iy: int, strength: int, j: int, i: int): (r: seq<int>)
    requires |b| == w * h
    ensures |r| == |b|
  {
    seq(|b|, k requires 0 <= k < |b| =>
      if DoneBefore(k, w, h, ix, iy, j, i) then Wrap16(b[k] + strength) else b[k])
  }

  /** Before the first row nothing has been written. */
  lemma PartialRippleStart(b: seq<int>, w: nat, h: nat, ix: int, iy: int, strength: int)
    requires |b| == w * h
    ensures PartialRipple(b, w, h, ix, iy, strength, iy - RADIUS, ix - RADIUS) == b
  {
    var r := PartialRipple(b, w, h, ix, iy, strength, iy - RADIUS, ix - RADIUS);
    forall k | 0 <= k < |b|
      ensures r[k] == b[k]
    {
      CellOf(w, h, k);
    }
  }

  /** Visiting column i of row j writes cell (i, j) when it passes the
      bounds guard, and only that cell, which had not been written before. */
  lemma PartialRippleNext(b: seq<int>, w: nat, h: nat, ix: int, iy: int, strength: int, j: int, i: int)
    requires |b| == w * h
    requires iy - RADIUS <= j < iy + RADIUS && ix - RADIUS <= i < ix + RADIUS
    ensures 0 < i < w && 0 < j < h ==>
      0 <= j * w + i < |b| &&
      PartialRipple(b, w, h, ix, iy, strength, j, i)[j * w + i] == b[j * w + i] &&
      PartialRipple(b, w, h, ix, iy, strength, j, i + 1) ==
        PartialRipple(b, w, h, ix, iy, strength, j, i)[j * w + i := Wrap16(b[j * w + i] + strength)]
    ensures !(0 < i < w && 0 < j < h) ==>
      PartialRipple(b, w, h, ix, iy, strength, j, i + 1) == PartialRipple(b, w, h, ix, iy, strength, j, i)
  {
    var r0 := PartialRipple(b, w, h, ix, iy, strength, j, i);
    var r1 := PartialRipple(b, w, h, ix, iy, strength, j, i + 1);
    var inside := 0 < i < w && 0 < j < h;
    if inside {
      CellIndex(w, h, i, j);
    }
    forall k | 0 <= k < |b|
      ensures r1[k] == if inside && k == j * w + i then Wrap16(b[k] + strength) else r0[k]
    {
      CellOf(w, h, k);
      if inside && k == j * w + i {
        CellIndex(w, h, i, j);
      }
    }
  }

  /** Finishing row j is the same as starting row j + 1. */
  lemma PartialRippleRow(b: seq<int>, w: nat, h: nat, ix: int, iy: int, strength: int, j: int)
    requires |b| == w * h
    ensures PartialRipple(b, w, h, ix, iy, strength, j + 1, ix - RADIUS) ==
      PartialRipple(b, w, h, ix, iy, strength, j, ix + RADIUS)
  {
    var r0 := PartialRipple(b, w, h, ix, iy, strength, j, ix + RADIUS);
    var r1 := PartialRipple(b, w, h, ix, iy, strength, j + 1, ix - RADIUS);
    forall k | 0 <= k < |b|
      ensures r1[k] == r0[k]
    {
      CellOf(w, h, k);
    }
  }

  /** After the last row the whole square has been written: Rippled. */
  lemma PartialRippleEnd(b: seq<int>, w: nat, h: nat, ix: int, iy: int, strength: int)
    requires |b| == w * h
    ensures PartialRipple(b, w, h, ix, iy, strength, iy + RADIUS, ix - RADIUS) ==
      Rippled(b, w, h, ix, iy, strength)
  {
    var r0 := PartialRipple(b, w, h, ix, iy, strength, iy + RADIUS, ix - RADIUS);
    var r1 := Rippled(b, w, h, ix, iy, strength);
    forall k | 0 <= k < |b|
      ensures r1[k] == r0[k]
    {
      CellOf(w, h, k);
    }
  }

  //////////////////////////////////////////////////////////////////////
  // Propagation step

  /** The value the first store of the step leaves in `b2[i]`: half the sum
      of the four flat neighbours of i in the active buffer, minus the old
      value of the other buffer, wrapped to 16 bits. */
  function PreDecay(b1: seq<int>, b2: seq<int>, w: nat, i: int): (v: int)
    requires |b1| == |b2| && AllInt16(b1)
    requires 0 < w <= i < |b1| - w
    ensures IsInt16(v)
    ensures (Shr(b1[i - 1] + b1[i + 1] + b1[i - w] + b1[i + w], 1) - b2[i] - v) % 0x1_0000 == 0
  {
    Wrap16(Shr(b1[i - 1] + b1[i + 1] + b1[i - w] + b1[i + w], 1) - b2[i])
  }

  /** The new height of interior index i: PreDecay decayed by `v - (v >> d)`.
      It is again a 16-bit value and lies between 0 and PreDecay. */
  function StepCell(b1: seq<int>, b2: seq<int>, w: nat, i: int, d: nat): (r: int)
    requires |b1| == |b2| && AllInt16(b1) && d < 32
    requires 0 < w <= i < |b1| - w
    ensures IsInt16(r)
    ensures 0 <= PreDecay(b1, b2, w, i) ==> 0 <= r <= PreDecay(b1, b2, w, i)
    ensures PreDecay(b1, b2, w, i) < 0 ==> PreDecay(b1, b2, w, i) < r <= 0
  {
    var v := PreDecay(b1, b2, w, i);
    DecayNonExpansive(v, d);
    Decay(v, d)
  }

  /** The other buffer after one step: indices `[w, |b2| - w)` get StepCell,
      the first and the last row keep their values. Every neighbour read
      lies in `[0, |b1|)`. */
  function Stepped(b1: seq<int>, b2: seq<int>, w: nat, d: nat): (r: seq<int>)
    requires |b1| == |b2| && AllInt16(b1) && d < 32
    requires 0 < w || b1 == []
    ensures |r| == |b2|
    ensures forall k :: 0 <= k < |b2| && !(w <= k < |b2| - w) ==> r[k] == b2[k]
  {
    seq(|b2|, k requires 0 <= k < |b2| =>
      if w <= k < |b2| - w then StepCell(b1, b2, w, k, d) else b2[k])
  }

  /** A step keeps every cell a 16-bit value, and each stepped cell is no
      further from zero than the 16-bit height it was decayed from. */
  lemma SteppedInt16(b1: seq<int>, b2: seq<int>, w: nat, d: nat)
    requires |b1| == |b2| && AllInt16(b1) && AllInt16(b2) && d < 32
    requires 0 < w || b1 == []
    ensures AllInt16(Stepped(b1, b2, w, d))
    ensures forall k :: w <= k < |b2| - w ==>
      Abs(Stepped(b1, b2, w, d)[k]) <= Abs(PreDecay(b1, b2, w, k))
  {
    var r := Stepped(b1, b2, w, d);
    forall k | 0 <= k < |r|
      ensures IsInt16(r[k])
      ensures w <= k < |b2| - w ==> Abs(r[k]) <= Abs(PreDecay(b1, b2, w, k))
    {
      if w <= k < |b2| - w {
        assert r[k] == StepCell(b1, b2, w, k, d);
      }
    }
  }

  /** The other buffer as the step loop leaves it when it reaches index i:
      indices `[w, i)` already hold their new value. */
  function PartialStep(b1: seq<int>, b2: seq<int>, w: nat, d: nat, i: int): (r: seq<int>)
    requires |b1| == |b2| && AllInt16(b1) && d < 32
    requires 0 < w || b1 == []
    ensures |r| == |b2|
  {
    seq(|b2|, k requires 0 <= k < |b2| =>
      if w <= k < i && k < |b2| - w then StepCell(b1, b2, w, k, d) else b2[k])
  }

  /** Visiting index i gives it its new value and changes nothing else. */
  lemma PartialStepNext(b1: seq<int>, b2: seq<int>, w: nat, d: nat, i: int)
    requires |b1| == |b2| && AllInt16(b1) && d < 32
    requires 0 < w <= i < |b2| - w
    ensures PartialStep(b1, b2, w, d, i)[i] == b2[i]
    ensures PartialStep(b1, b2, w, d, i + 1) ==
      PartialStep(b1, b2, w, d, i)[i := StepCell(b1, b2, w, i, d)]
  {
  }

  /** The second store of the step, `v - (v >> d)` written back into a
      16-bit cell holding v = PreDecay, leaves StepCell there. */
  lemma StepCellStore(b1: seq<int>, b2: seq<int>, w: nat, d: nat, i: int)
    requires |b1| == |b2| && AllInt16(b1) && d < 32
    requires 0 < w <= i < |b2| - w
    ensures Wrap16(PreDecay(b1, b2, w, i) - Shr(PreDecay(b1, b2, w, i), d)) == StepCell(b1, b2, w, i, d)
  {
  }

  /** Before the loop nothing is written; once it has passed the last
      interior index the buffer is Stepped. */
  lemma PartialStepEnds(b1: seq<int>, b2: seq<int>, w: nat, d: nat, i: int)
    requires |b1| == |b2| && AllInt16(b1) && d < 32
    requires 0 < w || b1 == []
    ensures PartialStep(b1, b2, w, d, w) == b2
    ensures |b2| - w <= i ==> PartialStep(b1, b2, w, d, i) == Stepped(b1, b2, w, d)
  {
  }

  /** A still field stays still: stepping two all-zero buffers gives zeros. */
  lemma SteppedStill(b1: seq<int>, b2: seq<int>, w: nat, d: nat)
    requires |b1| == |b2| && d < 32 && (0 < w || b1 == [])
    requires forall k :: 0 <= k < |b1| ==> b1[k] == 0 && b2[k] == 0
    ensures AllInt16(b1)
    ensures forall k :: 0 <= k < |b2| ==> Stepped(b1, b2, w, d)[k] == 0
  {
  }

  /** A stepped cell depends only on its four neighbours in the active buffer
      and on its own previous value, never on cells already written by the
      step: the outcome does not depend on the order the loop visits cells. */
  lemma StepCellLocal(b1: seq<int>, b2: seq<int>, c1: seq<int>, c2: seq<int>, w: nat, i: int, d: nat)
    requires |b1| == |b2| == |c1| == |c2| && AllInt16(b1) && AllInt16(c1) && d < 32
    requires 0 < w <= i < |b1| - w
    requires b1[i - 1] == c1[i - 1] && b1[i + 1] == c1[i + 1]
    requires b1[i - w] == c1[i - w] && b1[i + w] == c1[i + w] && b2[i] == c2[i]
    ensures StepCell(b1, b2, w, i, d) == StepCell(c1, c2, w, i, d)
  {
  }

  //////////////////////////////////////////////////////////////////////
  // Shading

  /** Height at flat index k, with indices outside the grid read as 0. */
  function At(b: seq<int>, k: int): int {
    if 0 <= k < |b| then b[k] else 0
  }

  /** Gradient shade of index i: horizontal difference of the flat neighbours
      `i - 1` and `i + 1` (which wrap to the neighbouring row at the edges of
      a row) plus the vertical difference of `i - w` and `i + w`. */
  function Shade(b: seq<int>, w: nat, i: int): (r: int)
    ensures At(b, i - 1) == At(b, i + 1) && At(b, i - w) == At(b, i + w) ==> r == 0
    ensures AllInt16(b) ==> -2 * 0xFFFF <= r <= 2 * 0xFFFF
  {
    (At(b, i - 1) - At(b, i + 1)) + (At(b, i - w) - At(b, i + w))
  }

  /** Channel c (0 red, 1 green, 2 blue, 3 alpha) of pixel i. */
  function Channel(b: seq<int>, w: nat, i: int, c: int): (r: int)
    requires 0 <= c < 4
    ensures 0 <= r <= 255
    ensures c == 3 ==> r == 255
  {
    var shade := Shade(b, w, i);
    if c == 0 then Clamp(BASE_R + shade)
    else if c == 1 then Clamp(BASE_G + shade + BIAS_G)
    else if c == 2 then Clamp(BASE_B + shade + BIAS_B)
    else 255
  }

  /** The RGBA image of the field: four bytes per cell, pixel i at `4 * i`. */
  function Pixels(b: seq<int>, w: nat): (px: seq<int>)
    ensures |px| == 4 * |b|
  {
    seq(4 * |b|, n requires 0 <= n < 4 * |b| => Channel(b, w, n / 4, n % 4))
  }

  /** Byte c of pixel p of the image. */
  lemma PixelAt(b: seq<int>, w: nat, p: int, c: int)
    requires 0 <= p < |b| && 0 <= c < 4
    ensures 0 <= 4 * p + c < |Pixels(b, w)|
    ensures Pixels(b, w)[4 * p + c] == Channel(b, w, p, c)
  {
    assert (4 * p + c) / 4 == p && (4 * p + c) % 4 == c;
  }

  /** Every byte of the image is in [0, 255], every alpha is 255, and since
      the clamp is monotone and the channel offsets grow (5, 30, 80), red never
      exceeds green and green never exceeds blue. */
  lemma PixelsValid(b: seq<int>, w: nat)
    ensures forall n :: 0 <= n < |Pixels(b, w)| ==> 0 <= Pixels(b, w)[n] <= 255
    ensures forall p :: 0 <= p < |b| ==>
      Pixels(b, w)[4 * p + 3] == 255 &&
      Pixels(b, w)[4 * p] <= Pixels(b, w)[4 * p + 1] <= Pixels(b, w)[4 * p + 2]
  {
    var px := Pixels(b, w);
    forall p | 0 <= p < |b|
      ensures px[4 * p + 3] == 255 && px[4 * p] <= px[4 * p + 1] <= px[4 * p + 2]
    {
      var shade := Shade(b, w, p);
      assert px[4 * p] == Channel(b, w, p, 0);
      assert px[4 * p + 1] == Channel(b, w, p, 1);
      assert px[4 * p + 2] == Channel(b, w, p, 2);
      assert px[4 * p + 3] == Channel(b, w, p, 3);
      ClampMonotone(BASE_R + shade, BASE_G + shade + BIAS_G);
      ClampMonotone(BASE_G + shade + BIAS_G, BASE_B + shade + BIAS_B);
    }
  }

  /** Where the field is flat, the image shows the still-water colour
      (5, 30, 80) at full opacity. */
  lemma PixelsStill(b: seq<int>, w: nat, p: int)
    requires 0 <= p < |b|
    requires At(b, p - 1) == At(b, p + 1) && At(b, p - w) == At(b, p + w)
    ensures Pixels(b, w)[4 * p .. 4 * p + 4] == [BASE_R, BASE_G + BIAS_G, BASE_B + BIAS_B, 255]
  {
    var px := Pixels(b, w);
    assert px[4 * p] == Channel(b, w, p, 0);
    assert px[4 * p + 1] == Channel(b, w, p, 1);
    assert px[4 * p + 2] == Channel(b, w, p, 2);
    assert px[4 * p + 3] == Channel(b, w, p, 3);
  }
}
