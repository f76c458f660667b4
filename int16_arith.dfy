/** Integer semantics the ripple simulation relies on: stores into an
    `Int16Array`, the JavaScript arithmetic shift `>>` on 32-bit integers, and
    the clamp of a colour channel into a byte. */
module Int16Arith {

  const INT16_MIN: int := -0x8000
  const INT16_MAX: int := 0x7FFF

  predicate IsInt16(x: int) {
    INT16_MIN <= x <= INT16_MAX
  }

  predicate IsInt32(x: int) {
    -0x8000_0000 <= x < 0x8000_0000
  }

  /** The value an `Int16Array` cell holds after `x` is stored into it:
      two's-complement wrap-around modulo 2^16. */
  function Wrap16(x: int): (r: int)
    ensures IsInt16(r)
    ensures (x - r) % 0x1_0000 == 0
    ensures IsInt16(x) ==> r == x
  {
    (x + 0x8000) % 0x1_0000 - 0x8000
  }

  /** The two properties of Wrap16's contract pin its value down: any 16-bit
      value congruent to `x` modulo 2^16 is Wrap16(x). */
  lemma Wrap16Unique(x: int, r: int)
    requires IsInt16(r) && (x - r) % 0x1_0000 == 0
    ensures r == Wrap16(x)
  {
    var w := Wrap16(x);
    var q1 := (x - r) / 0x1_0000;
    var q2 := (x - w) / 0x1_0000;
    assert x - r == q1 * 0x1_0000;
    assert x - w == q2 * 0x1_0000;
    assert w - r == (q1 - q2) * 0x1_0000;
  }

  function Pow2(k: nat): (p: nat)
    ensures p >= 1
  {
    if k == 0 then 1 else 2 * Pow2(k - 1)
  }

  /** JavaScript `x >> k` for a 32-bit operand and a shift count below 32:
      an arithmetic shift, i.e. division by 2^k rounded towards minus infinity. */
  function Shr(x: int, k: nat): (r: int)
    requires IsInt32(x) && k < 32
    ensures r * Pow2(k) <= x < (r + 1) * Pow2(k)
    ensures 0 <= x ==> 0 <= r <= x
    ensures x < 0 ==> x <= r < 0
  {
    FloorDiv(x, Pow2(k));
    x / Pow2(k)
  }

  lemma MulNonNegative(a: int, b: int)
    requires a >= 0 && b >= 0
    ensures a * b >= 0
  {
  }

  /** Dafny's `/` with a positive divisor rounds towards minus infinity. */
  lemma FloorDiv(x: int, p: int)
    requires p >= 1
    ensures (x / p) * p <= x < (x / p + 1) * p
    ensures 0 <= x ==> 0 <= x / p <= x
    ensures x < 0 ==> x <= x / p < 0
  {
    FloorDivBounds(x, p);
    if 0 <= x {
      FloorDivNonNegative(x, p);
    } else {
      FloorDivNegative(x, p);
    }
  }

  lemma FloorDivBounds(x: int, p: int)
    requires p >= 1
    ensures (x / p) * p <= x < (x / p + 1) * p
  {
    var q, m := x / p, x % p;
    assert x == q * p + m && 0 <= m < p;
    assert (q + 1) * p == q * p + p;
  }

  lemma FloorDivNonNegative(x: int, p: int)
    requires p >= 1 && 0 <= x
    ensures 0 <= x / p <= x
  {
    var q := x / p;
    FloorDivBounds(x, p);
    MulNonNegative(q, p - 1);
    assert q * p == q * (p - 1) + q;
  }

  lemma FloorDivNegative(x: int, p: int)
    requires p >= 1 && x < 0
    ensures x <= x / p < 0
  {
    var q := x / p;
    FloorDivBounds(x, p);
    if q >= 0 {
      MulNonNegative(q, p);
    }
    MulNonNegative(-q, p - 1);
    assert q * p == q * (p - 1) + q;
  }

  /** The attenuation applied to a freshly computed height: `v - (v >> d)`.
      It never moves a value across zero or away from it. */
  function Decay(v: int, d: nat): (r: int)
    requires IsInt32(v) && d < 32
    ensures 0 <= v ==> 0 <= r <= v
    ensures v < 0 ==> v < r <= 0
  {
    v - Shr(v, d)
  }

  /** Decay's own bound specialised to 16-bit inputs: the result never
      moves away from zero and never crosses it, so it is again a 16-bit
      value, and a negative value always strictly shrinks. */
  lemma DecayNonExpansive(v: int, d: nat)
    requires IsInt16(v) && d < 32
    ensures 0 <= v ==> 0 <= Decay(v, d) <= v
    ensures v < 0 ==> v < Decay(v, d) <= 0
    ensures IsInt16(Decay(v, d))
  {
    var s := Shr(v, d);
    assert 0 <= v ==> 0 <= s <= v;
    assert v < 0 ==> v <= s < 0;
  }

  /** Decay leaves a value as it is exactly when it is a non-negative number
      below 2^d: such small positive heights never die out. */
  lemma DecayFixedPoint(v: int, d: nat)
    requires IsInt32(v) && d < 32
    ensures Decay(v, d) == v <==> 0 <= v < Pow2(d)
  {
    ShrZero(v, d);
  }

  /** The shift gives 0 exactly for the non-negative operands below 2^k. */
  lemma ShrZero(x: int, k: nat)
    requires IsInt32(x) && k < 32
    ensures Shr(x, k) == 0 <==> 0 <= x < Pow2(k)
  {
    var p, s := Pow2(k), Shr(x, k);
    if 0 <= x < p {
      ShrSmall(x, p, s);
    }
  }

  lemma ShrSmall(x: int, p: int, s: int)
    requires 0 <= x < p && 0 <= s && s * p <= x
    ensures s == 0
  {
    if s != 0 {
      MulNonNegative(s - 1, p);
    }
  }

  function Min(a: int, b: int): int {
    if a <= b then a else b
  }

  function Max(a: int, b: int): int {
    if a >= b then a else b
  }

  /** `Math.min(255, Math.max(0, x))`: the byte a colour channel is set to. */
  function Clamp(x: int): (r: int)
    ensures 0 <= r <= 255
    ensures 0 <= x <= 255 ==> r == x
    ensures x < 0 ==> r == 0
    ensures 255 < x ==> r == 255
  {
    Min(255, Max(0, x))
  }

  lemma ClampMonotone(x: int, y: int)
    requires x <= y
    ensures Clamp(x) <= Clamp(y)
  {
  }
}
