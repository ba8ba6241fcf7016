/**
 * `blend_pixel` of src/util.rs: the effective alpha, the tint multiply,
 * the nine blend-mode formulas and the three write-back regimes (opaque
 * overwrite, lerp onto an opaque destination, alpha composite through
 * `DIV8_TABLE`). The function returns the new destination pixel; the
 * callers store it where the source writes through `&mut Pixel`.
 *
 * Byte arithmetic that overflows in the source (`u8 + u8 + u8` in the
 * LIGHTEN and DARKEN comparisons, `u8 * u8` in the composite) is modelled
 * with the wrapping semantics of a release build.
 */
module Blend {
  import opened Lib
  import opened Sera
  import opened Macros

  /**
   * `DIV8_TABLE[row][column]`: a 256 by 256 table of bytes that this model
   * treats as an arbitrary function of its two indices.
   */
  type Div8Table = (Byte, Byte) -> Byte

  /** `((tu32!(u) * tu32!(v)) >> 8) as u8`: a byte product scaled back by 256. */
  function MulByte(u: Byte, v: Byte): (r: Byte)
    ensures r <= u && r <= v && r <= 254
  {
    MulByteBounds(u, v);
    (u * v) / 0x100
  }

  lemma MulByteBounds(u: Byte, v: Byte)
    ensures 0 <= (u * v) / 0x100 <= u && (u * v) / 0x100 <= v && (u * v) / 0x100 <= 254
  {
    MulMonotone(v, 0x100, u);
    DivBetween(u * v, 0, u, 0x100);
    MulMonotone(u, 0x100, v);
    DivBetween(u * v, 0, v, 0x100);
    MulMonotone(u, 0xff, v);
    assert u * v <= 0xff * 0xff;
  }

  /**
   * The effective alpha `(s.a * m.alpha) >> 8`: never above 254, and 254
   * exactly when both the source alpha and the draw alpha are 255.
   */
  function EffectiveAlpha(sa: Byte, ma: Byte): (r: Byte)
    ensures r <= 254
    ensures r >= 254 <==> sa == 0xff && ma == 0xff
  {
    EffectiveAlphaTop(sa, ma);
    MulByte(sa, ma)
  }

  lemma EffectiveAlphaTop(sa: Byte, ma: Byte)
    ensures MulByte(sa, ma) >= 254 <==> sa == 0xff && ma == 0xff
  {
    if sa < 0xff {
      MulMonotone(ma, 0xff, sa);
      assert sa * ma <= 254 * 0xff;
    } else if ma < 0xff {
      MulMonotone(sa, 0xff, ma);
      assert sa * ma <= 0xff * 254;
    }
  }

  /**
   * The tint multiply: unless the draw colour is exactly `RGB_MASK`, each
   * source colour channel is multiplied by the draw colour's channel;
   * the source alpha is kept.
   */
  function Tint(color: Pixel, s: Pixel): (t: Pixel)
    ensures t.a == s.a
    ensures t.r <= s.r && t.g <= s.g && t.b <= s.b
    ensures color == Pixel(0xff, 0xff, 0xff, 0) ==> t == s
  {
    RgbMaskIsWhiteWithoutAlpha(Order, color);
    if Pack(Order, color) != RgbMask(Order) then
      s.(r := MulByte(s.r, color.r), g := MulByte(s.g, color.g), b := MulByte(s.b, color.b))
    else
      s
  }

  /**
   * The only colour that leaves a source unchanged is white with a zero
   * alpha byte: white with any other alpha still tints, and darkens every
   * non-zero channel by exactly one.
   */
  lemma TintOpaqueWhiteDarkens(s: Pixel, a: Byte)
    requires a != 0
    ensures var t := Tint(Pixel(0xff, 0xff, 0xff, a), s);
      (s.r > 0 ==> t.r == s.r - 1) && (s.g > 0 ==> t.g == s.g - 1) && (s.b > 0 ==> t.b == s.b - 1)
  {
    RgbMaskIsWhiteWithoutAlpha(Order, Pixel(0xff, 0xff, 0xff, a));
    WhiteChannel(s.r);
    WhiteChannel(s.g);
    WhiteChannel(s.b);
  }

  lemma WhiteChannel(c: Byte)
    ensures c > 0 ==> MulByte(c, 0xff) == c - 1
  {
    assert c * 0xff == (c - 1) * 0x100 + (0x100 - c);
  }

  /** ADD: `min(255, d + s)`, saturating at 255. */
  function AddChannel(d: Byte, s: Byte): (r: Byte)
    ensures r >= d && r >= s
    ensures d + s <= 0xff ==> r == d + s
    ensures d + s > 0xff ==> r == 0xff
  {
    Min(0xff, d + s)
  }

  /**
   * SUBTRACT as written: `min(0, d - s)` cast to `u8`, i.e. 0 whenever
   * `d >= s` and `d - s + 256` (the low byte of the negative difference)
   * whenever `d < s`.
   */
  function SubtractChannel(d: Byte, s: Byte): (r: Byte)
    ensures d >= s ==> r == 0
    ensures d < s ==> r == d - s + 0x100
  {
    Min(0, d - s) % 0x100
  }

  /** SUBTRACT as evidently intended: the difference clamped at 0. */
  function SubtractClamped(d: Byte, s: Byte): (r: Byte)
    ensures r <= d
    ensures d >= s ==> r + s == d
    ensures d < s ==> r == 0
  {
    Max(0, d - s)
  }

  /** The two SUBTRACT formulas agree only when `d == s`. */
  lemma SubtractAsWrittenDiffers(d: Byte, s: Byte)
    ensures SubtractChannel(d, s) == SubtractClamped(d, s) <==> d == s
  {
  }

  /** A concrete input that shows it: 200 minus 100 gives 0 instead of 100. */
  lemma SubtractCounterexample()
    ensures SubtractChannel(200, 100) == 0 && SubtractClamped(200, 100) == 100
  {
  }

  /** MULTIPLY: `(s * d) >> 8`, never brighter than either operand. */
  function MultiplyChannel(d: Byte, s: Byte): (r: Byte)
    ensures r <= d && r <= s
  {
    MulByte(s, d)
  }

  /** SCREEN: `255 - (((255 - d) * (255 - s)) >> 8)`, never darker than either operand. */
  function ScreenChannel(d: Byte, s: Byte): (r: Byte)
    ensures r >= d && r >= s
  {
    0xff - MulByte(0xff - d, 0xff - s)
  }

  /** DIFFERENCE: `|s - d|`, the distance between the two channels. */
  function DifferenceChannel(d: Byte, s: Byte): (r: Byte)
    ensures Min(d, s) + r == Max(d, s)
  {
    if s >= d then s - d else d - s
  }

  /** `p.r + p.g + p.b` as the source computes it: a `u8` sum that wraps modulo 256. */
  function WrappedSum(p: Pixel): (v: Byte)
    ensures v == (p.r + p.g + p.b) % 0x100
  {
    var t: int := p.r as int + p.g;
    assert t % 0x100 == if t >= 0x100 then t - 0x100 else t;
    assert (t + p.b) % 0x100 == if t + p.b >= 0x200 then t + p.b - 0x200 else if t + p.b >= 0x100 then t + p.b - 0x100 else t + p.b;
    (t % 0x100 + p.b) % 0x100
  }

  /** The brightness sum as evidently intended: without wrapping. */
  function Brightness(p: Pixel): (v: nat)
    ensures v <= 3 * 0xff
  {
    p.r + p.g + p.b
  }

  /** LIGHTEN as written: the source wins only when its wrapped sum is larger. */
  function LightenPick(d: Pixel, s: Pixel): (r: Pixel)
    ensures r == s <==> WrappedSum(s) > WrappedSum(d) || s == d
    ensures r == s || r == d
  {
    if WrappedSum(s) > WrappedSum(d) then s else d
  }

  /** DARKEN as written: the source wins only when its wrapped sum is smaller. */
  function DarkenPick(d: Pixel, s: Pixel): (r: Pixel)
    ensures r == s <==> WrappedSum(s) < WrappedSum(d) || s == d
    ensures r == s || r == d
  {
    if WrappedSum(s) < WrappedSum(d) then s else d
  }

  /** LIGHTEN as evidently intended: the brighter of the two by the true sum, ties to `d`. */
  function LightenIntended(d: Pixel, s: Pixel): (r: Pixel)
    ensures Brightness(r) == Max(Brightness(d), Brightness(s))
    ensures r == s || r == d
  {
    if Brightness(s) > Brightness(d) then s else d
  }

  /** DARKEN as evidently intended: the darker of the two by the true sum, ties to `d`. */
  function DarkenIntended(d: Pixel, s: Pixel): (r: Pixel)
    ensures Brightness(r) == Min(Brightness(d), Brightness(s))
    ensures r == s || r == d
  {
    if Brightness(s) < Brightness(d) then s else d
  }

  /** The wrapped and the true comparisons agree whenever neither sum reaches 256. */
  lemma LightenDarkenAgreeWithoutWrap(d: Pixel, s: Pixel)
    requires Brightness(d) < 0x100 && Brightness(s) < 0x100
    ensures LightenPick(d, s) == LightenIntended(d, s)
    ensures DarkenPick(d, s) == DarkenIntended(d, s)
  {
    assert WrappedSum(d) == Brightness(d) && WrappedSum(s) == Brightness(s);
  }

  /**
   * A concrete input that shows the wrap: the source (200, 100, 0) sums to
   * 300, which wraps to 44, so LIGHTEN keeps the darker grey (50, 50, 50)
   * and DARKEN picks the brighter source.
   */
  lemma LightenCounterexample()
    ensures var s, d := Pixel(200, 100, 0, 0xff), Pixel(50, 50, 50, 0xff);
      LightenPick(d, s) == d && LightenIntended(d, s) == s &&
      DarkenPick(d, s) == s && DarkenIntended(d, s) == d
  {
  }

  /**
   * The blend-mode formula applied to the tinted source `s` over the
   * destination `d`. The channel-wise modes keep the source alpha; COLOR
   * replaces the whole pixel with the draw colour; LIGHTEN and DARKEN pick
   * one of the two pixels whole.
   */
  function ApplyMode(blend: BlendMode, color: Pixel, d: Pixel, s: Pixel): (r: Pixel)
    ensures blend == Alpha ==> r == s
    ensures blend == Color ==> r == color
    ensures blend == Lighten || blend == Darken ==> r == s || r == d
    ensures blend != Color && blend != Lighten && blend != Darken ==> r.a == s.a
  {
    match blend
    case Alpha => s
    case Color => color
    case Add => Pixel(AddChannel(d.r, s.r), AddChannel(d.g, s.g), AddChannel(d.b, s.b), s.a)
    case Subtract => Pixel(SubtractChannel(d.r, s.r), SubtractChannel(d.g, s.g), SubtractChannel(d.b, s.b), s.a)
    case Multiply => Pixel(MultiplyChannel(d.r, s.r), MultiplyChannel(d.g, s.g), MultiplyChannel(d.b, s.b), s.a)
    case Lighten => LightenPick(d, s)
    case Darken => DarkenPick(d, s)
    case Screen => Pixel(ScreenChannel(d.r, s.r), ScreenChannel(d.g, s.g), ScreenChannel(d.b, s.b), s.a)
    case Difference => Pixel(DifferenceChannel(d.r, s.r), DifferenceChannel(d.g, s.g), DifferenceChannel(d.b, s.b), s.a)
  }

  /**
   * `lerp!(8u32, d, s, alpha) as u8`: the wrapping `lerp!` truncated to a
   * byte is the plain `lerp!` of src/lib.rs, and lies between `d` and `s`.
   */
  function LerpChannel(d: Byte, s: Byte, alpha: Byte): (r: Byte)
    ensures r == Lerp(8, d, s, alpha)
    ensures Min(d, s) <= r <= Max(d, s)
  {
    WrappingLerpLowByte(d, s, alpha);
    WrappingLerpLowByteBetween(d, s, alpha);
    Pow2EightTwelve();
    WrappingLerp(8, d, s, alpha) % 0x100
  }

  /**
   * The composite alpha `255 - (((255 - d.a) * (255 - alpha)) >> 8)` is the
   * SCREEN formula applied to the two alphas, so it is at least both.
   */
  function CompositeAlpha(da: Byte, alpha: Byte): (a: Byte)
    ensures a >= da && a >= alpha
  {
    ScreenChannel(da, alpha)
  }

  /**
   * The destination weight `_z` as written: `d.a * (255 - alpha)` is a `u8`
   * product, so it wraps to its low byte before `tu32!` widens it, and the
   * shift by 8 of a value below 256 is always 0.
   */
  function WeightAsWritten(da: Byte, alpha: Byte): (z: Byte)
    ensures z == 0
  {
    ((da * (0xff - alpha)) % 0x100) / 0x100
  }

  /** The destination weight as evidently intended: the product taken in 32 bits. */
  function WeightIntended(da: Byte, alpha: Byte): (z: Byte)
    ensures z <= da && z + alpha <= 0xff
  {
    MulByte(da, 0xff - alpha)
  }

  /** A concrete input that shows it: `d.a = 128`, `alpha = 2` gives 0 instead of 126. */
  lemma WeightCounterexample()
    ensures WeightAsWritten(128, 2) == 0 && WeightIntended(128, 2) == 126
  {
  }

  /**
   * The `DIV8_TABLE` row `((dc * z) >> 8) + ((sc * alpha) >> 8)`: whenever
   * the two weights sum to at most 255, the row stays inside the table.
   */
  function TableRow(dc: Byte, z: Byte, sc: Byte, alpha: Byte): (row: Byte)
    requires z + alpha <= 0xff
    ensures row <= 254
  {
    TableRowBound(dc, z, sc, alpha);
    MulByte(dc, z) + MulByte(sc, alpha)
  }

  lemma TableRowBound(dc: Byte, z: Byte, sc: Byte, alpha: Byte)
    requires z + alpha <= 0xff
    ensures MulByte(dc, z) + MulByte(sc, alpha) <= 254
  {
    var p, q := dc * z, sc * alpha;
    MulMonotone(dc, 0xff, z);
    MulMonotone(sc, 0xff, alpha);
    assert 0 <= p && 0 <= q && p + q <= 0xff * 0xff;
  }

  /**
   * The alpha-composite regime: the new alpha is `CompositeAlpha` and each
   * colour channel is the table entry at (row, new alpha), the row mixing
   * the destination channel by `z` and the source channel by `alpha`.
   */
  function Composite(d: Pixel, s: Pixel, alpha: Byte, z: Byte, div8: Div8Table): (r: Pixel)
    requires z + alpha <= 0xff
    ensures r.a == CompositeAlpha(d.a, alpha) && r.a >= d.a
    ensures r.r == div8(TableRow(d.r, z, s.r, alpha), r.a)
    ensures r.g == div8(TableRow(d.g, z, s.g, alpha), r.a)
    ensures r.b == div8(TableRow(d.b, z, s.b, alpha), r.a)
  {
    var a := CompositeAlpha(d.a, alpha);
    Pixel(div8(TableRow(d.r, z, s.r, alpha), a),
          div8(TableRow(d.g, z, s.g, alpha), a),
          div8(TableRow(d.b, z, s.b, alpha), a),
          a)
  }

  /**
   * With the weight as written the composite never reads the destination's
   * colour channels: two destinations with the same alpha give the same result.
   */
  lemma CompositeAsWrittenIgnoresDest(d: Pixel, d': Pixel, s: Pixel, alpha: Byte, div8: Div8Table)
    requires d.a == d'.a
    ensures Composite(d, s, alpha, WeightAsWritten(d.a, alpha), div8) ==
            Composite(d', s, alpha, WeightAsWritten(d'.a, alpha), div8)
  {
  }

  /**
   * With the intended weight the destination's colour does reach the table
   * row: a white and a black destination at half alpha give different rows.
   */
  lemma CompositeIntendedReadsDest()
    ensures TableRow(0xff, WeightIntended(128, 2), 0, 2) == 125
    ensures TableRow(0, WeightIntended(128, 2), 0, 2) == 0
  {
  }

  /**
   * `blend_pixel(m, d, s)`: the new value of `*d`.
   * - an effective alpha of at most 1 leaves `d` bit-for-bit unchanged;
   * - an effective alpha of 254 (both alphas 255) replaces `d` with the
   *   blended, tinted source;
   * - an opaque destination (`d.a >= 254`) keeps its alpha and each colour
   *   channel moves from `d` toward the blended source by the plain `lerp!`;
   * - otherwise the alpha-composite regime, with the destination weight
   *   as written.
   */
  function BlendPixel(m: DrawMode, d: Pixel, s: Pixel, div8: Div8Table): (r: Pixel)
    ensures var alpha := EffectiveAlpha(s.a, m.alpha);
      && (alpha <= 1 ==> r == d)
      && (alpha >= 254 <==> s.a == 0xff && m.alpha == 0xff)
      && (alpha >= 254 ==> r == ApplyMode(m.blend, m.color, d, Tint(m.color, s)))
    ensures var alpha := EffectiveAlpha(s.a, m.alpha);
      var t := ApplyMode(m.blend, m.color, d, Tint(m.color, s));
      1 < alpha < 254 && d.a >= 254 ==>
        && r.a == d.a
        && r.r == Lerp(8, d.r, t.r, alpha) && Min(d.r, t.r) <= r.r <= Max(d.r, t.r)
        && r.g == Lerp(8, d.g, t.g, alpha) && Min(d.g, t.g) <= r.g <= Max(d.g, t.g)
        && r.b == Lerp(8, d.b, t.b, alpha) && Min(d.b, t.b) <= r.b <= Max(d.b, t.b)
    ensures var alpha := EffectiveAlpha(s.a, m.alpha);
      var t := ApplyMode(m.blend, m.color, d, Tint(m.color, s));
      1 < alpha < 254 && d.a < 254 ==>
        r == Composite(d, t, alpha, 0, div8) && r.a >= d.a && r.a >= alpha
  {
    var alpha := EffectiveAlpha(s.a, m.alpha);
    if alpha <= 1 then d
    else
      var t := ApplyMode(m.blend, m.color, d, Tint(m.color, s));
      if alpha >= 254 then t
      else if d.a >= 254 then
        Pixel(LerpChannel(d.r, t.r, alpha), LerpChannel(d.g, t.g, alpha), LerpChannel(d.b, t.b, alpha), d.a)
      else
        Composite(d, t, alpha, WeightAsWritten(d.a, alpha), div8)
  }

  /**
   * The blend-mode formulas with the three mode findings corrected:
   * SUBTRACT clamps at 0 and LIGHTEN/DARKEN compare true brightness sums.
   * Every other mode is the formula as written.
   */
  function ApplyModeIntended(blend: BlendMode, color: Pixel, d: Pixel, s: Pixel): (r: Pixel)
    ensures blend == Subtract ==>
      r == Pixel(SubtractClamped(d.r, s.r), SubtractClamped(d.g, s.g), SubtractClamped(d.b, s.b), s.a)
    ensures blend == Lighten ==> Brightness(r) == Max(Brightness(d), Brightness(s)) && (r == s || r == d)
    ensures blend == Darken ==> Brightness(r) == Min(Brightness(d), Brightness(s)) && (r == s || r == d)
    ensures blend !in {Subtract, Lighten, Darken} ==> r == ApplyMode(blend, color, d, s)
  {
    match blend
    case Subtract => Pixel(SubtractClamped(d.r, s.r), SubtractClamped(d.g, s.g), SubtractClamped(d.b, s.b), s.a)
    case Lighten => LightenIntended(d, s)
    case Darken => DarkenIntended(d, s)
    case _ => ApplyMode(blend, color, d, s)
  }

  /**
   * `blend_pixel` with every finding corrected: the intended mode formulas
   * and, in the composite regime, the destination weight taken in 32 bits,
   * so that the destination's colour channels reach the table row.
   */
  function BlendPixelIntended(m: DrawMode, d: Pixel, s: Pixel, div8: Div8Table): (r: Pixel)
    ensures var alpha := EffectiveAlpha(s.a, m.alpha);
      var t := ApplyModeIntended(m.blend, m.color, d, Tint(m.color, s));
      && (alpha <= 1 ==> r == d)
      && (alpha >= 254 ==> r == t)
      && (1 < alpha < 254 && d.a >= 254 ==>
            r == Pixel(LerpChannel(d.r, t.r, alpha), LerpChannel(d.g, t.g, alpha), LerpChannel(d.b, t.b, alpha), d.a))
      && (1 < alpha < 254 && d.a < 254 ==>
            r == Composite(d, t, alpha, WeightIntended(d.a, alpha), div8))
  {
    var alpha := EffectiveAlpha(s.a, m.alpha);
    if alpha <= 1 then d
    else
      var t := ApplyModeIntended(m.blend, m.color, d, Tint(m.color, s));
      if alpha >= 254 then t
      else if d.a >= 254 then
        Pixel(LerpChannel(d.r, t.r, alpha), LerpChannel(d.g, t.g, alpha), LerpChannel(d.b, t.b, alpha), d.a)
      else
        Composite(d, t, alpha, WeightIntended(d.a, alpha), div8)
  }

  /**
   * The corrected and the as-written `blend_pixel` agree everywhere the
   * findings do not reach: a mode other than SUBTRACT, LIGHTEN and DARKEN,
   * outside the composite regime.
   */
  lemma BlendPixelIntendedAgrees(m: DrawMode, d: Pixel, s: Pixel, div8: Div8Table)
    requires m.blend !in {Subtract, Lighten, Darken}
    requires EffectiveAlpha(s.a, m.alpha) <= 1 || EffectiveAlpha(s.a, m.alpha) >= 254 || d.a >= 254
    ensures BlendPixelIntended(m, d, s, div8) == BlendPixel(m, d, s, div8)
  {
  }

  /** Drawing a fully transparent source, or with draw alpha 0, changes nothing. */
  lemma TransparentSourceIsNoOp(m: DrawMode, d: Pixel, s: Pixel, div8: Div8Table)
    requires s.a == 0 || m.alpha == 0
    ensures BlendPixel(m, d, s, div8) == d
  {
    assert s.a * m.alpha == 0;
  }

  /**
   * The default draw state (alpha 255, ALPHA mode, colour `RGB_MASK`) with
   * an opaque source copies the source exactly.
   */
  lemma OpaqueAlphaDrawCopies(d: Pixel, s: Pixel, div8: Div8Table)
    requires s.a == 0xff
    ensures BlendPixel(DrawMode(Pixel(0xff, 0xff, 0xff, 0), 0xff, Alpha), d, s, div8) == s
  {
  }
}
