/**
 * The arithmetic macros of src/macros.rs: the wrapping `lerp!` that
 * `blend_pixel` uses for its opaque-destination write-back, and `tu32!`,
 * which is the inclusion of `Byte` in `U32` (a subset-type conversion
 * Dafny checks, so it needs no member of its own).
 */
module Macros {
  import opened Lib

  /**
   * `lerp!(bits, a, b, p)`: `a + (((b - a) * p) >> bits)` where the
   * subtraction, multiplication, shift and addition are the `u32`
   * `wrapping_*` operations (the shift amount is taken modulo 32).
   */
  function WrappingLerp(bits: nat, a: U32, b: U32, p: U32): U32
  {
    var diff := (b - a) % Word32;
    var prod := (diff * p) % Word32;
    (a + prod / Pow2(bits % 32)) % Word32
  }

  /** With weight 0 the wrapping `lerp!` returns `a`. */
  lemma WrappingLerpAtZero(bits: nat, a: U32, b: U32)
    ensures WrappingLerp(bits, a, b, 0) == a
  {
    var diff := (b - a) % Word32;
    var prod := (diff * 0) % Word32;
    assert prod == 0;
    assert prod / Pow2(bits % 32) == 0;
  }

  /**
   * When `b >= a` and `(b - a) * p` fits in 32 bits, no intermediate step
   * wraps and the macro is the plain `a + floor((b - a) * p / 2^bits)`
   * (reduced modulo 2^32, as the final `wrapping_add` is).
   */
  lemma WrappingLerpNoWrap(bits: nat, a: U32, b: U32, p: U32)
    requires a <= b && (b - a) * p < Word32
    ensures WrappingLerp(bits, a, b, p) == (a + (b - a) * p / Pow2(bits % 32)) % Word32
  {
    assert (b - a) % Word32 == b - a;
    MulMonotone(0, p, b - a);
    assert ((b - a) * p) % Word32 == (b - a) * p;
  }

  /** `Word32 * m + r` reduces to `r` modulo 2^32 for `r` in range. */
  lemma ModWord(m: int, r: int)
    requires 0 <= r < Word32
    ensures (Word32 * m + r) % Word32 == r
  {
  }

  /** With 8 fractional bits the shift of `lerp!` is a division by 256. */
  lemma WrappingLerpEight(a: U32, b: U32, p: U32)
    ensures WrappingLerp(8, a, b, p) == (a + ((((b - a) % Word32) * p) % Word32) / 0x100) % Word32
  {
    assert 8 % 32 == 8;
    Pow2EightTwelve();
  }

  /** The final wrapping add of a rising `lerp!` keeps `a + e` in the low byte. */
  lemma LowByteOfRisingSum(a: int, m: int, e: int)
    requires 0 <= m < Word32 && e == m / 0x100
    requires 0 <= a && 0 <= e && a + e < 0x100
    ensures ((a + (m % Word32) / 0x100) % Word32) % 0x100 == a + e
  {
  }

  lemma LowByteRising(a: Byte, b: Byte, p: Byte)
    requires a <= b
    ensures WrappingLerp(8, a, b, p) % 0x100 == a + ((b - a) * p) / 0x100
  {
    var d := b - a;
    var m := d * p;
    MulMonotone(p, 0x100, d);
    DivBetween(m, 0, d, 0x100);
    assert (b - a) % Word32 == d;
    WrappingLerpEight(a, b, p);
    LowByteOfRisingSum(a, m, m / 0x100);
  }

  /** The wrapped product of `(b - a) mod 2^32` and `p` when `b < a`. */
  lemma WrappedProduct(a: Byte, b: Byte, p: Byte)
    requires b < a && p > 0
    ensures 0 < (a - b) * p < Word32
    ensures (((b - a) % Word32) * p) % Word32 == Word32 - (a - b) * p
  {
    var delta := a - b;
    assert (b - a) % Word32 == Word32 - delta;
    MulMonotone(p, 0x100, delta);
    MulLe(delta, 1, p);
    var dp := delta * p;
    assert (Word32 - delta) * p == Word32 * (p - 1) + (Word32 - dp);
    ModWord(p - 1, Word32 - dp);
  }

  lemma LowByteOfWrappedSum(a: int, e: int, dp: int)
    requires 0 < dp < Word32 && e == (-dp) / 0x100
    requires 0 <= a < 0x100 && 0 <= a + e < 0x100
    ensures ((a + (Word32 - dp) / 0x100) % Word32) % 0x100 == a + e
  {
    assert Word32 - dp == 0x100 * 0x100_0000 + (-dp);
    assert (Word32 - dp) / 0x100 == 0x100_0000 + e;
    var sum := 0x100_0000 + a + e;
    assert sum % Word32 == sum;
    assert sum == 0x100 * 0x1_0000 + (a + e);
  }

  lemma LowByteFalling(a: Byte, b: Byte, p: Byte)
    requires b < a
    ensures WrappingLerp(8, a, b, p) % 0x100 == a + ((b - a) * p) / 0x100
  {
    if p == 0 {
      WrappingLerpAtZero(8, a, b);
      assert (b - a) * p == 0;
    } else {
      var dp := (a - b) * p;
      WrappedProduct(a, b, p);
      WrappingLerpEight(a, b, p);
      assert (b - a) * p == -dp;
      LowByteFallingRange(a, b, p);
      LowByteOfWrappedSum(a, ((b - a) * p) / 0x100, dp);
    }
  }

  lemma LowByteFallingRange(a: Byte, b: Byte, p: Byte)
    requires b < a
    ensures b - a <= ((b - a) * p) / 0x100 <= 0
  {
    var d := b - a;
    MulMonotone(p, 0x100, d);
    DivBetween(d * p, d, 0, 0x100);
  }

  /**
   * For 8 fractional bits and byte-valued `a`, `b`, `p` the low byte of the
   * wrapping `lerp!` (what `as u8` keeps) is exactly the mathematical
   * `a + floor((b - a) * p / 256)`, even when `b < a` makes the
   * difference wrap around.
   */
  lemma WrappingLerpLowByte(a: Byte, b: Byte, p: Byte)
    ensures WrappingLerp(8, a, b, p) % 0x100 == a + ((b - a) * p) / 0x100
  {
    if b >= a {
      LowByteRising(a, b, p);
    } else {
      LowByteFalling(a, b, p);
    }
  }

  /** The byte `blend_pixel` keeps from `lerp!(8, a, b, p)` lies between `a` and `b`. */
  lemma WrappingLerpLowByteBetween(a: Byte, b: Byte, p: Byte)
    ensures Min(a, b) <= WrappingLerp(8, a, b, p) % 0x100 <= Max(a, b)
  {
    WrappingLerpLowByte(a, b, p);
    Pow2EightTwelve();
    LerpBetween(8, a, b, p);
  }
}
