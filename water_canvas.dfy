/** The ripple simulation of the water canvas component: the state object
    holding the two `Int16Array` buffers, and the component that allocates it,
    injects impulses into it and renders one frame from it. */
module WaterCanvas {
  import opened Int16Arith
  import opened RippleField

  /** Attenuation shift the component uses. */
  const DECAY: nat := 5

  /** With the component's shift, positive heights below 32 are fixed
      points of the decay: they never die out on their own. */
  lemma SmallHeightsPersist(v: int)
    requires 0 <= v < 32
    ensures Decay(v, DECAY) == v
  {
    DecayFixedPoint(v, DECAY);
    assert Pow2(5) == 32;
  }

  /** The simulation state: grid size and the two height buffers. `buffer1`
      is the active field; `buffer2` holds the previous one and receives the
      next step. */
  class Ripple {
    const width: nat
    const height: nat
    const size: nat
    var buffer1: array<int>
    var buffer2: array<int>

    ghost predicate Valid()
      reads this, buffer1, buffer2
    {
      size == width * height &&
      buffer1.Length == size && buffer2.Length == size && buffer1 != buffer2 &&
      AllInt16(buffer1[..]) && AllInt16(buffer2[..])
    }

    /** Both buffers allocated with `width * height` cells, all zero. */
    constructor (w: nat, h: nat)
      ensures Valid() && width == w && height == h && size == w * h
      ensures fresh(buffer1) && fresh(buffer2)
      ensures forall k :: 0 <= k < size ==> buffer1[k] == 0 && buffer2[k] == 0
    {
      width, height, size := w, h, w * h;
      buffer1 := new int[w * h](_ => 0);
      buffer2 := new int[w * h](_ => 0);
    }

    /** Adds `strength` to every cell of the square around (ix, iy) that
      passes the bounds guard; nothing else in either buffer changes. */
    method AddRipple(ix: int, iy: int, strength: int)
      requires Valid()
      modifies buffer1
      ensures Valid()
      ensures buffer1[..] == Rippled(old(buffer1[..]), width, height, ix, iy, strength)
      ensures unchanged(buffer2)
    {
      ghost var b := buffer1[..];
      PartialRippleStart(b, width, height, ix, iy, strength);
      var j := iy - RADIUS;
      while j < iy + RADIUS
        invariant iy - RADIUS <= j <= iy + RADIUS
        invariant buffer1[..] == PartialRipple(b, width, height, ix, iy, strength, j, ix - RADIUS)
      {
        var i := ix - RADIUS;
        while i < ix + RADIUS
          invariant ix - RADIUS <= i <= ix + RADIUS
          invariant buffer1[..] == PartialRipple(b, width, height, ix, iy, strength, j, i)
        {
          PartialRippleNext(b, width, height, ix, iy, strength, j, i);
          if i > 0 && i < width && j > 0 && j < height {
            buffer1[j * width + i] := Wrap16(buffer1[j * width + i] + strength);
          }
          i := i + 1;
        }
        PartialRippleRow(b, width, height, ix, iy, strength, j);
        j := j + 1;
      }
      PartialRippleEnd(b, width, height, ix, iy, strength);
    }

    /** One propagation step into `buffer2`, reading only `buffer1`. */
    method Step(decay: nat)
      requires Valid() && decay < 32
      modifies buffer2
      ensures Valid()
      ensures buffer2[..] == Stepped(buffer1[..], old(buffer2[..]), width, decay)
      ensures unchanged(buffer1)
    {
      ghost var b1, b2 := buffer1[..], buffer2[..];
      if width == 0 {
        assert size == 0;
      }
      PartialStepEnds(b1, b2, width, decay, width);
      var i := width;
      while i < size - width
        invariant width <= i && (i <= size - width || i == width)
        invariant buffer1[..] == b1
        invariant buffer2[..] == PartialStep(b1, b2, width, decay, i)
      {
        PartialStepNext(b1, b2, width, decay, i);
        StepCellStore(b1, b2, width, decay, i);
        assert buffer2[i] == b2[i];
        buffer2[i] := Wrap16(Shr(buffer1[i - 1] + buffer1[i + 1] + buffer1[i - width] + buffer1[i + width], 1) - buffer2[i]);
        assert buffer2[i] == PreDecay(b1, b2, width, i);
        buffer2[i] := Wrap16(buffer2[i] - Shr(buffer2[i], decay));
        assert buffer2[i] == StepCell(b1, b2, width, i, decay);
        i := i + 1;
      }
      PartialStepEnds(b1, b2, width, decay, i);
      SteppedInt16(b1, b2, width, decay);
    }

    /** Exchanges the roles of the two buffers; no cell is copied. */
    method Swap()
      requires Valid()
      modifies this
      ensures Valid()
      ensures buffer1 == old(buffer2) && buffer2 == old(buffer1)
    {
      buffer1, buffer2 := buffer2, buffer1;
    }
  }

  /** The shading pass: a fresh RGBA byte image of `field`, four bytes per
      cell, following Pixels. */
  method ShadePass(field: array<int>, width: nat) returns (data: array<int>)
    ensures fresh(data)
    ensures data[..] == Pixels(field[..], width)
  {
    ghost var b := field[..];
    var size := field.Length;
    data := new int[4 * size](_ => 0);
    var i := 0;
    while i < size
      invariant 0 <= i <= size && data.Length == 4 * size
      invariant field[..] == b
      invariant forall p, c :: 0 <= p < i && 0 <= c < 4 ==> data[4 * p + c] == Channel(b, width, p, c)
    {
      var left := if 0 <= i - 1 < size then field[i - 1] else 0;
      var right := if i + 1 < size then field[i + 1] else 0;
      var up := if 0 <= i - width < size then field[i - width] else 0;
      var down := if i + width < size then field[i + width] else 0;
      assert left == At(b, i - 1) && right == At(b, i + 1);
      assert up == At(b, i - width) && down == At(b, i + width);
      var dx := left - right;
      var dy := up - down;
      var shade := dx + dy;
      assert shade == Shade(b, width, i);
      var pIdx := i * 4;
      data[pIdx] := Clamp(BASE_R + shade);
      data[pIdx + 1] := Clamp(BASE_G + shade + BIAS_G);
      data[pIdx + 2] := Clamp(BASE_B + shade + BIAS_B);
      data[pIdx + 3] := 255;
      i := i + 1;
    }
    forall n | 0 <= n < 4 * size
      ensures data[n] == Pixels(b, width)[n]
    {
      PixelAt(b, width, n / 4, n % 4);
    }
  }

  /** The component: `ripple` is null until a simulation has been
      initialised. */
  class Canvas {
    var ripple: Ripple?

    ghost predicate Valid()
      reads this, ripple, if ripple != null then {ripple.buffer1, ripple.buffer2} else {}
    {
      ripple != null ==> ripple.Valid()
    }

    constructor ()
      ensures Valid() && ripple == null
    {
      ripple := null;
    }

    /** Allocates a fresh zero-filled simulation of the given size, or does
      nothing when no drawing surface is mounted. */
    method InitSimulation(hasCanvas: bool, simWidth: nat, simHeight: nat)
      requires Valid()
      modifies this
      ensures Valid()
      ensures !hasCanvas ==> ripple == old(ripple)
      ensures hasCanvas ==> ripple != null && fresh(ripple) && fresh(ripple.buffer1) && fresh(ripple.buffer2)
      ensures hasCanvas ==> ripple.width == simWidth && ripple.height == simHeight && ripple.size == simWidth * simHeight
      ensures hasCanvas ==> forall k :: 0 <= k < ripple.size ==> ripple.buffer1[k] == 0 && ripple.buffer2[k] == 0
    {
      if !hasCanvas {
        return;
      }
      ripple := new Ripple(simWidth, simHeight);
    }

    /** Injects an impulse at grid cell (ix, iy); a no-op while no
      simulation exists. */
    method AddRipple(ix: int, iy: int, strength: int)
      requires Valid()
      modifies if ripple != null then {ripple.buffer1} else {}
      ensures Valid()
      ensures ripple != null ==>
        ripple.buffer1[..] == Rippled(old(ripple.buffer1[..]), ripple.width, ripple.height, ix, iy, strength)
      ensures ripple != null ==> unchanged(ripple.buffer2)
    {
      if ripple == null {
        return;
      }
      ripple.AddRipple(ix, iy, strength);
    }

    /** One animation frame: step the field, swap the buffers, and shade. The
      image is computed from the buffer that was active when the frame
      began, which after the swap is `buffer2`. Without a simulation nothing
      happens and no image is produced. */
    method Render(decay: nat) returns (image: array?<int>)
      requires Valid() && decay < 32
      modifies if ripple != null then {ripple, ripple.buffer2} else {}
      ensures Valid()
      ensures ripple == null ==> image == null
      ensures ripple != null ==>
        ripple.buffer1 == old(ripple.buffer2) && ripple.buffer2 == old(ripple.buffer1) &&
        ripple.buffer1[..] == Stepped(old(ripple.buffer1[..]), old(ripple.buffer2[..]), ripple.width, decay) &&
        unchanged(ripple.buffer2)
      ensures ripple != null ==>
        image != null && fresh(image) && image[..] == Pixels(old(ripple.buffer1[..]), ripple.width)
    {
      if ripple == null {
        return null;
      }
      var r := ripple;
      var buffer1 := r.buffer1;
      r.Step(decay);
      r.Swap();
      image := ShadePass(buffer1, r.width);
    }
  }
}
