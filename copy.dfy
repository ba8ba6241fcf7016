/**
 * The raw pixel copies of src/copy.rs: `basic`, a clipped row-by-row
 * copy, and `scaled`, a nearest-neighbour copy stepping through the source
 * in 12-bit fixed point. Neither blends: destination pixels are replaced.
 */
module Copy {
  import opened Lib
  import opened Sera
  import opened Util

  /**
   * `copy::basic(b, src, x, y, sub)`: after `clip_rect_offset` against the
   * clip rectangle, every destination pixel of the clipped footprint takes
   * the source pixel at the same offset inside `sub`; nothing else changes.
   * The footprint is exactly the part of `[x, x + sub.w) x [y, y + sub.h)`
   * inside the clip rectangle, so an empty clipped `sub` writes nothing.
   */
  method Basic(b: Buffer, src: Buffer, x: int, y: int, sub: Rect)
    requires b.Valid() && src.Valid() && b.pixels != src.pixels
    requires SubInside(sub, src.w, src.h)
    modifies b.pixels
    ensures forall px, py | 0 <= px < b.w && 0 <= py < b.h ::
      b.At(px, py) ==
        if Contains(Rect(x, y, sub.w, sub.h), px, py) && Contains(b.clip, px, py)
        then src.At(sub.x + (px - x), sub.y + (py - y))
        else old(b.At(px, py))
  {
    var r, cx, cy := ClipRectOffset(sub, x, y, b.clip);
    OffsetClipFootprint(sub, x, y, b.clip);
    OffsetClipWithinSub(sub, x, y, b.clip);
    if r.w <= 0 || r.h <= 0 {
      return;
    }
    var i := 0;
    while i < r.h
      invariant 0 <= i <= r.h
      invariant forall px, py | 0 <= px < b.w && 0 <= py < b.h ::
        b.At(px, py) ==
          if cx <= px < cx + r.w && cy <= py < cy + i
          then src.At(r.x + (px - cx), r.y + (py - cy))
          else old(b.At(px, py))
    {
      CopyRow(b, src, cx, cy + i, r.x, r.y + i, r.w);
      i := i + 1;
    }
  }

  /**
   * The inner loop of `copy::basic`: `n` pixels of source row `sy` from
   * column `sx` on are stored into destination row `dy` from column `dx` on.
   */
  method CopyRow(b: Buffer, src: Buffer, dx: int, dy: int, sx: int, sy: int, n: int)
    requires b.Valid() && src.Valid() && b.pixels != src.pixels
    requires 0 <= n && 0 <= dx && dx + n <= b.w && 0 <= dy < b.h
    requires 0 <= sx && sx + n <= src.w && 0 <= sy < src.h
    modifies b.pixels
    ensures forall px, py | 0 <= px < b.w && 0 <= py < b.h ::
      b.At(px, py) ==
        if py == dy && dx <= px < dx + n then src.At(sx + (px - dx), sy) else old(b.At(px, py))
  {
    var j := 0;
    while j < n
      invariant 0 <= j <= n
      invariant forall px, py | 0 <= px < b.w && 0 <= py < b.h ::
        b.At(px, py) ==
          if py == dy && dx <= px < dx + j then src.At(sx + (px - dx), sy) else old(b.At(px, py))
    {
      b.Set(dx + j, dy, src.At(sx + j, sy));
      j := j + 1;
    }
  }

  /**
   * The placement `copy::scaled` draws after clipping: destination origin,
   * source origin and destination size. `width` and `height` are the
   * scaled sizes; `shiftX` and `shiftY` stand for the float-derived
   * source shifts `(_d / scale) as i32` the left and top clips apply.
   */
  datatype ScaledClip = ScaledClip(x: int, y: int, subX: int, subY: int, width: int, height: int)

  /**
   * The four clip steps of `copy::scaled` in closed form: a left (top)
   * clip moves `x` (`y`) exactly to the clip edge, shrinks `width`
   * (`height`) by the same amount and shifts the source origin by
   * `shiftX` (`shiftY`); the right (bottom) clip only shrinks the size.
   */
  function ScaledClipOf(x: int, y: int, sub: Rect, width: int, height: int,
                        shiftX: int, shiftY: int, clip: Rect): (c: ScaledClip)
    ensures c.x == Max(x, clip.x) && c.y == Max(y, clip.y)
    ensures c.x + c.width == Min(x + width, clip.x + clip.w)
    ensures c.y + c.height == Min(y + height, clip.y + clip.h)
    ensures c.subX == (if x < clip.x then sub.x + shiftX else sub.x)
    ensures c.subY == (if y < clip.y then sub.y + shiftY else sub.y)
  {
    var p := OffsetClip(Rect(sub.x, sub.y, width, height), x, y, clip);
    ScaledClip(p.x, p.y,
               if x < clip.x then sub.x + shiftX else sub.x,
               if y < clip.y then sub.y + shiftY else sub.y,
               p.sub.w, p.sub.h)
  }

  /**
   * The destination pixels `copy::scaled` writes are exactly those of the
   * scaled footprint `[x, x + width) x [y, y + height)` inside the clip rectangle.
   */
  lemma ScaledClipFootprint(x: int, y: int, sub: Rect, width: int, height: int,
                            shiftX: int, shiftY: int, clip: Rect)
    ensures var c := ScaledClipOf(x, y, sub, width, height, shiftX, shiftY, clip);
      forall px, py :: Contains(Rect(c.x, c.y, c.width, c.height), px, py) <==>
        Contains(Rect(x, y, width, height), px, py) && Contains(clip, px, py)
  {
    OffsetClipFootprint(Rect(sub.x, sub.y, width, height), x, y, clip);
  }

  /**
   * The source column `copy::scaled` reads for destination column `k`, as
   * written: `(sub.x >> 12) + (sx >> 12)` with `sx = k * inx`. `sub.x` is a
   * whole pixel coordinate here, not a 12-bit fixed-point value.
   */
  function ScaledColumn(subX: int, inx: int, k: int): int
  {
    FxFloor(subX) + FxFloor(k * inx)
  }

  /**
   * The source row `copy::scaled` reads for destination row `r`:
   * `sy >> 12` with `sy = (sub.y << 12) + r * iny`.
   */
  function ScaledSourceRow(subY: int, iny: int, r: int): int
  {
    FxFloor(subY * FxUnit + r * iny)
  }

  /** The flat source index `copy::scaled` reads for column `k` of row `r` of placement `c`. */
  function ScaledSourceIndex(c: ScaledClip, srcW: int, inx: int, iny: int, r: int, k: int): int
  {
    ScaledColumn(c.subX, inx, k) + srcW * ScaledSourceRow(c.subY, iny, r)
  }

  /**
   * Rows are sampled inside the sub-rectangle: while the row position
   * `r * iny` stays within the `sh` rows of `sub` (in 12-bit units), the
   * row read lies in `[sub.y, sub.y + sh)`.
   */
  lemma ScaledSourceRowInSub(subY: int, sh: int, iny: int, r: int)
    requires 0 <= r * iny < sh * FxUnit
    ensures subY <= ScaledSourceRow(subY, iny, r) < subY + sh
  {
    FxFloorShift(subY, r * iny);
    FxFloorBelow(r * iny, sh);
  }

  /**
   * Columns are not: for any `sub.x` below 4096, `sub.x >> 12` is 0 and
   * the column read does not depend on `sub.x` at all.
   */
  lemma ScaledColumnIgnoresSubX(subX: int, inx: int, k: int)
    requires 0 <= subX < FxUnit
    ensures ScaledColumn(subX, inx, k) == FxFloor(k * inx)
  {
    FxFloorBelow(subX, 1);
  }

  /**
   * Drawing `sub = (5, 0, 1, 1)` at scale 1 (`inx = 4096`) reads source
   * column 0 for destination column 0, a column outside `sub`.
   */
  lemma ScaledColumnCounterexample()
    ensures ScaledColumn(5, 0x1000, 0) == 0 && !(5 <= ScaledColumn(5, 0x1000, 0) < 5 + 1)
  {
    FxFloorBelow(5, 1);
    FxFloorBelow(0, 1);
  }

  /**
   * The evidently intended column: `sub.x` shifted into 12-bit fixed point
   * like `sub.y` is, i.e. `((sub.x << 12) + sx) >> 12`.
   */
  function ScaledColumnIntended(subX: int, inx: int, k: int): int
  {
    FxFloor(subX * FxUnit + k * inx)
  }

  /** The intended column lies in `[sub.x, sub.x + sw)` while `k * inx` stays within the `sw` columns of `sub`. */
  lemma ScaledColumnIntendedInSub(subX: int, sw: int, inx: int, k: int)
    requires 0 <= k * inx < sw * FxUnit
    ensures subX <= ScaledColumnIntended(subX, inx, k) < subX + sw
  {
    FxFloorShift(subX, k * inx);
    FxFloorBelow(k * inx, sw);
  }

  /** For a non-negative `sub.x` the code as written reads the intended column exactly when `sub.x` is 0. */
  lemma ScaledColumnAgreesOnlyAtZero(subX: int, inx: int, k: int)
    requires 0 <= subX
    ensures ScaledColumn(subX, inx, k) == ScaledColumnIntended(subX, inx, k) <==> subX == 0
  {
    FxFloorShift(subX, k * inx);
    if subX > 0 {
      var q := FxFloor(subX);
      if q >= subX {
        MulLe(subX, 1, FxUnit);
        MulLe(FxUnit, subX, q);
        assert false;
      }
    } else {
      FxFloorBelow(0, 1);
    }
  }

  /** Every index `copy::scaled` reads for row `r` of placement `c` is inside a source of `len` pixels. */
  predicate RowFits(c: ScaledClip, srcW: int, len: int, inx: int, iny: int, r: int)
  {
    forall k | 0 <= k < c.width :: 0 <= ScaledSourceIndex(c, srcW, inx, iny, r, k) < len
  }

  /** Every row of placement `c` fits the source. */
  predicate SourceFits(c: ScaledClip, srcW: int, len: int, inx: int, iny: int)
  {
    forall r | 0 <= r < c.height :: RowFits(c, srcW, len, inx, iny, r)
  }

  /** The source pixel `copy::scaled` stores at column `k` of row `r` of placement `c`. */
  function ScaledSample(src: Buffer, c: ScaledClip, inx: int, iny: int, r: int, k: int): Pixel
    reads src, src.pixels
    requires RowFits(c, src.w, src.pixels.Length, inx, iny, r) && 0 <= k < c.width
  {
    src.pixels[ScaledSourceIndex(c, src.w, inx, iny, r, k)]
  }

  /**
   * `copy::scaled(b, src, x, y, sub, scalex, scaley)` with its float-derived
   * quantities as inputs: `width`, `height` (the scaled size), `inx`, `iny`
   * (the 12-bit source step per destination pixel) and the left/top source
   * shifts. Every pixel of the clipped footprint (the part of the scaled
   * footprint inside the clip rectangle) takes the source pixel at
   * `ScaledSourceIndex`; nothing else changes. The source demands that each
   * such index lies inside `src.pixels`.
   */
  method Scaled(b: Buffer, src: Buffer, x: int, y: int, sub: Rect, width: int, height: int,
                inx: int, iny: int, shiftX: int, shiftY: int)
    requires b.Valid() && src.Valid() && b.pixels != src.pixels
    requires SourceFits(ScaledClipOf(x, y, sub, width, height, shiftX, shiftY, b.clip),
                        src.w, src.pixels.Length, inx, iny)
    modifies b.pixels
    ensures var c := ScaledClipOf(x, y, sub, width, height, shiftX, shiftY, b.clip);
      forall px, py | 0 <= px < b.w && 0 <= py < b.h ::
        b.At(px, py) ==
          if Contains(Rect(c.x, c.y, c.width, c.height), px, py)
          then ScaledSample(src, c, inx, iny, py - c.y, px - c.x)
          else old(b.At(px, py))
  {
    var c := ClipScaled(x, y, sub, width, height, shiftX, shiftY, b.clip);
    assert SourceFits(c, src.w, src.pixels.Length, inx, iny);
    if c.width == 0 || c.height == 0 {
      return;
    }
    /* Draw */
    var sy := c.subY * FxUnit;
    var dy := c.y;
    while dy < c.y + c.height
      invariant c.y <= dy <= c.y + Max(c.height, 0)
      invariant sy == c.subY * FxUnit + (dy - c.y) * iny
      invariant SourceFits(c, src.w, src.pixels.Length, inx, iny)
      invariant forall px, py | 0 <= px < b.w && 0 <= py < b.h ::
        b.At(px, py) ==
          if c.x <= px < c.x + c.width && c.y <= py < dy
          then ScaledSample(src, c, inx, iny, py - c.y, px - c.x)
          else old(b.At(px, py))
    {
      var r := dy - c.y;
      assert RowFits(c, src.w, src.pixels.Length, inx, iny, r);
      ScaledRow(b, src, c, inx, iny, r, sy);
      assert (r + 1) * iny == r * iny + iny;
      sy := sy + iny;
      dy := dy + 1;
    }
    assert c == ScaledClipOf(x, y, sub, width, height, shiftX, shiftY, b.clip);
  }

  /** The four clip steps of `copy::scaled`, one `if` per edge. */
  method ClipScaled(x: int, y: int, sub: Rect, width: int, height: int,
                    shiftX: int, shiftY: int, clip: Rect) returns (c: ScaledClip)
    ensures c == ScaledClipOf(x, y, sub, width, height, shiftX, shiftY, clip)
  {
    var x, y, sub, width, height := x, y, sub, width, height;
    var d := clip.x - x;
    if d > 0 {
      x := x + d;
      sub := sub.(x := sub.x + shiftX);
      width := width - d;
    }
    d := clip.y - y;
    if d > 0 {
      y := y + d;
      sub := sub.(y := sub.y + shiftY);
      height := height - d;
    }
    d := (x + width) - (clip.x + clip.w);
    if d > 0 {
      width := width - d;
    }
    d := (y + height) - (clip.y + clip.h);
    if d > 0 {
      height := height - d;
    }
    c := ScaledClip(x, y, sub.x, sub.y, width, height);
  }

  /**
   * One destination row `dy = c.y + r` of `copy::scaled`: `sx` starts at 0
   * and advances by `inx` per pixel while `dx` runs over the row's flat
   * indices from `c.x + b.w * dy` to `c.x + b.w * dy + c.width`.
   */
  method ScaledRow(b: Buffer, src: Buffer, c: ScaledClip, inx: int, iny: int, r: int, sy: int)
    requires b.Valid() && src.Valid() && b.pixels != src.pixels
    requires 0 <= c.x && c.x + c.width <= b.w && 0 <= r < c.height && 0 <= c.y + r < b.h
    requires sy == c.subY * FxUnit + r * iny
    requires RowFits(c, src.w, src.pixels.Length, inx, iny, r)
    modifies b.pixels
    ensures forall px, py | 0 <= px < b.w && 0 <= py < b.h ::
      b.At(px, py) ==
        if py == c.y + r && c.x <= px < c.x + c.width
        then ScaledSample(src, c, inx, iny, r, px - c.x)
        else old(b.At(px, py))
  {
    var dy := c.y + r;
    var base := b.w * dy;
    var sx := 0;
    var dx := c.x + base;
    var edx := dx + c.width;
    while dx < edx
      invariant c.x + base <= dx <= c.x + base + Max(c.width, 0)
      invariant sx == (dx - base - c.x) * inx
      invariant forall px, py | 0 <= px < b.w && 0 <= py < b.h ::
        b.At(px, py) ==
          if py == dy && c.x <= px < dx - base
          then ScaledSample(src, c, inx, iny, r, px - c.x)
          else old(b.At(px, py))
    {
      var k := dx - base - c.x;
      var i := FxFloor(c.subX) + src.w * FxFloor(sy) + FxFloor(sx);
      assert i == ScaledSourceIndex(c, src.w, inx, iny, r, k);
      b.Set(c.x + k, dy, src.pixels[i]);
      assert (k + 1) * inx == k * inx + inx;
      sx := sx + inx;
      dx := dx + 1;
    }
  }
}
