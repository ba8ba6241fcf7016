/**
 * Numeric helpers of src/lib.rs: the `min!`, `max!`, `clamp!`, `lerp!` and
 * `swap!` macros, the fixed-point constants, and the integer types the rest
 * of the model is written in.
 */
module Lib {

  /** An unsigned 8-bit channel value (Rust `u8`). */
  type Byte = x: int | 0 <= x < 0x100

  /** An unsigned 32-bit value (Rust `u32`). */
  type U32 = x: int | 0 <= x < 0x1_0000_0000

  /** 2^32, the modulus of `u32` wrapping arithmetic. */
  const Word32: int := 0x1_0000_0000

  /** Number of fractional bits of the 12-bit fixed-point format (`FX_BITS`). */
  const FxBits: nat := 12
  /** `FX_UNIT = 1 << FX_BITS`. */
  const FxUnit: nat := 4096
  /** `FX_MASK = FX_UNIT - 1`. */
  const FxMask: nat := 4095

  function Pow2(n: nat): (r: nat)
    ensures r >= 1
  {
    if n == 0 then 1 else 2 * Pow2(n - 1)
  }

  /** The two powers of two the rasteriser shifts by: 8 (channels) and 12 (`FX_BITS`). */
  lemma Pow2EightTwelve()
    ensures Pow2(8) == 0x100 && Pow2(12) == 0x1000
  {
    assert Pow2(2) == 4;
    assert Pow2(4) == 16;
    assert Pow2(6) == 64;
    assert Pow2(8) == 0x100;
    assert Pow2(10) == 0x400;
  }

  /** The fixed-point constants agree with their definitions in terms of FX_BITS. */
  lemma FxConstants()
    ensures FxUnit == Pow2(FxBits)
    ensures FxMask == FxUnit - 1
  {
    Pow2EightTwelve();
  }

  /**
   * `v >> FX_BITS` on an `i32`: Rust's `>>` on signed integers is an
   * arithmetic shift, i.e. division by 4096 rounded toward minus infinity.
   */
  function FxFloor(v: int): (r: int)
    ensures r * FxUnit <= v < r * FxUnit + FxUnit
  {
    v / FxUnit
  }

  /** A non-negative value below `n` units has a whole part in `[0, n)`. */
  lemma FxFloorBelow(v: int, n: int)
    requires 0 <= v < n * FxUnit
    ensures 0 <= FxFloor(v) < n
  {
    var r := FxFloor(v);
    if r >= n {
      MulLe(FxUnit, n, r);
      assert false;
    }
    if r < 0 {
      MulLe(FxUnit, r, -1);
      assert false;
    }
  }

  /** Adding a whole number of units adds that number to the whole part. */
  lemma FxFloorShift(a: int, v: int)
    ensures FxFloor(a * FxUnit + v) == a + FxFloor(v)
  {
    var r := FxFloor(v);
    var q := FxFloor(a * FxUnit + v);
    assert q * 0x1000 <= a * 0x1000 + v < q * 0x1000 + 0x1000;
    assert r * 0x1000 <= v < r * 0x1000 + 0x1000;
  }

  /** Flooring `-s - 1` gives `-floor(s) - 1`. */
  lemma FxFloorNegate(s: int)
    ensures FxFloor(-s - 1) == -FxFloor(s) - 1
  {
    var q := FxFloor(s);
    FxFloorShift(-q - 1, FxUnit - 1 - (s - q * FxUnit));
    assert -s - 1 == (-q - 1) * FxUnit + (FxUnit - 1 - (s - q * FxUnit));
  }

  /** `min!(a, b)`: yields `b` only when `b < a`. */
  function Min(a: int, b: int): (r: int)
    ensures r <= a && r <= b
    ensures r == a || r == b
  {
    if b < a then b else a
  }

  /** `max!(a, b)`: yields `b` only when `b > a`. */
  function Max(a: int, b: int): (r: int)
    ensures r >= a && r >= b
    ensures r == a || r == b
  {
    if b > a then b else a
  }

  /** `clamp!(x, a, b)` is `max!(a, min!(x, b))`. */
  function Clamp(x: int, a: int, b: int): (r: int)
    ensures a <= b ==> a <= r <= b
    ensures a <= x <= b ==> r == x
    ensures b < a ==> r == a
    ensures x < a ==> r == a
    ensures a <= b < x ==> r == b
  {
    Max(a, Min(x, b))
  }

  /**
   * The plain `lerp!(bits, a, b, p)` of src/lib.rs over signed integers:
   * `a + (((b - a) * p) >> bits)`, the shift rounding toward minus infinity.
   */
  function Lerp(bits: nat, a: int, b: int, p: int): int
  {
    a + ((b - a) * p) / Pow2(bits)
  }

  lemma DivMonotone(u: int, v: int, d: int)
    requires d > 0 && u <= v
    ensures u / d <= v / d
  {
    var qu, qv := u / d, v / d;
    if qu > qv {
      MulLe(d, qv + 1, qu);
      assert false;
    }
  }

  lemma MulLe(d: int, a: int, b: int)
    requires d > 0 && a <= b
    ensures d * a <= d * b
  {
    assert d * b - d * a == d * (b - a);
  }

  lemma MulDivCancel(x: int, q: int)
    requires q > 0
    ensures (x * q) / q == x
  {
    var k := (x * q) / q;
    if k > x {
      MulLe(q, x + 1, k);
      assert false;
    } else if k < x {
      MulLe(q, k + 1, x);
      assert false;
    }
  }

  lemma MulMonotone(k: int, n: int, c: int)
    requires 0 <= k <= n
    ensures c >= 0 ==> 0 <= k * c <= n * c
    ensures c < 0 ==> n * c <= k * c <= 0
  {
  }

  /** The plain `lerp!` yields `a` at `p = 0` and `b` at `p = 2^bits`. */
  lemma LerpEnds(bits: nat, a: int, b: int)
    ensures Lerp(bits, a, b, 0) == a
    ensures Lerp(bits, a, b, Pow2(bits)) == b
  {
    assert (b - a) * 0 == 0;
    MulDivCancel(b - a, Pow2(bits));
  }

  /** A quotient is bracketed by any bounds that bracket the dividend in multiples of the divisor. */
  lemma DivBetween(m: int, lo: int, hi: int, q: int)
    requires q > 0 && lo * q <= m <= hi * q
    ensures lo <= m / q <= hi
  {
    var k := m / q;
    if k < lo {
      MulLe(q, k + 1, lo);
      assert false;
    }
    if k > hi {
      MulLe(q, hi + 1, k);
      assert false;
    }
  }

  /** For a weight `p` in `[0, 2^bits]` the plain `lerp!` stays between `a` and `b`. */
  lemma LerpBetween(bits: nat, a: int, b: int, p: int)
    requires 0 <= p <= Pow2(bits)
    ensures Min(a, b) <= Lerp(bits, a, b, p) <= Max(a, b)
  {
    var q := Pow2(bits);
    var d := b - a;
    MulMonotone(p, q, d);
    if d >= 0 {
      DivBetween(d * p, 0, d, q);
    } else {
      DivBetween(d * p, d, 0, q);
    }
  }

  /** `swap!(a, b)` on two places of one array: they trade values, nothing else moves. */
  method Swap<T>(a: array<T>, i: int, j: int)
    requires 0 <= i < a.Length && 0 <= j < a.Length
    modifies a
    ensures a[i] == old(a[j]) && a[j] == old(a[i])
    ensures forall k | 0 <= k < a.Length && k != i && k != j :: a[k] == old(a[k])
  {
    var tmp := a[i];
    a[i] := a[j];
    a[j] := tmp;
  }
}
