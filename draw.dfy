/**
 * The blended draws of src/draw.rs: `basic`, a clipped blit through
 * `blend_pixel`; `scan_line`, the integer scanline rasteriser that draws
 * one destination row from a linearly stepped source position; and the
 * integer skeleton of `rotate_scaled`, which labels the rotated corners,
 * picks the source start, mirrors for negative scales and steps the edges
 * row by row, handing every row to `scan_line`.
 */
module Draw {
  import opened Lib
  import opened Sera
  import opened Util
  import opened Blend

  /**
   * The per-pixel write of every draw: `blend_pixel(&b.mode, &mut d, s)`
   * as a function from the destination and source pixels to the new
   * destination pixel. The draws below are stated for any such `blend`;
   * src/draw.rs always passes `BlendWith(b.mode, div8)`.
   */
  function BlendWith(m: DrawMode, div8: Div8Table): (Pixel, Pixel) -> Pixel
  {
    (d: Pixel, s: Pixel) => BlendPixel(m, d, s, div8)
  }

  /**
   * `draw::basic(b, src, x, y, sub)`: after `clip_rect_offset` against the
   * clip rectangle, every destination pixel of the clipped footprint
   * becomes `blend` of its old value and the source pixel at the same
   * offset inside `sub`; nothing else changes. An empty clipped `sub`
   * writes nothing.
   */
  method Basic(b: Buffer, src: Buffer, x: int, y: int, sub: Rect, blend: (Pixel, Pixel) -> Pixel)
    requires b.Valid() && src.Valid() && b.pixels != src.pixels
    requires SubInside(sub, src.w, src.h)
    modifies b.pixels
    ensures forall px, py | 0 <= px < b.w && 0 <= py < b.h &&
                            Contains(Rect(x, y, sub.w, sub.h), px, py) && Contains(b.clip, px, py) ::
      b.At(px, py) == blend(old(b.At(px, py)), src.At(px + (sub.x - x), py + (sub.y - y)))
    ensures forall px, py | 0 <= px < b.w && 0 <= py < b.h &&
                            !(Contains(Rect(x, y, sub.w, sub.h), px, py) && Contains(b.clip, px, py)) ::
      b.At(px, py) == old(b.At(px, py))
  {
    var r, cx, cy := ClipRectOffset(sub, x, y, b.clip);
    OffsetClipFootprint(sub, x, y, b.clip);
    OffsetClipWithinSub(sub, x, y, b.clip);
    if r.w <= 0 || r.h <= 0 {
      return;
    }
    BlendRect(b, src, cx, cy, sub.x - x, sub.y - y, r.w, r.h, blend);
  }

  /**
   * The two loops of `draw::basic`: the `w` by `h` destination rectangle
   * at `(dx, dy)` is blended, row by row, with the source pixels at offset
   * `(ox, oy)` from it.
   */
  method BlendRect(b: Buffer, src: Buffer, dx: int, dy: int, ox: int, oy: int, w: int, h: int,
                   blend: (Pixel, Pixel) -> Pixel)
    requires b.Valid() && src.Valid() && b.pixels != src.pixels
    requires 0 <= w && 0 <= h && 0 <= dx && dx + w <= b.w && 0 <= dy && dy + h <= b.h
    requires 0 <= dx + ox && dx + ox + w <= src.w && 0 <= dy + oy && dy + oy + h <= src.h
    modifies b.pixels
    ensures forall px, py | 0 <= px < b.w && 0 <= py < b.h ::
      b.At(px, py) ==
        if dx <= px < dx + w && dy <= py < dy + h
        then blend(old(b.At(px, py)), src.At(px + ox, py + oy))
        else old(b.At(px, py))
  {
    var iy := 0;
    while iy < h
      invariant 0 <= iy <= h
      invariant forall px, py | 0 <= px < b.w && 0 <= py < b.h ::
        b.At(px, py) ==
          if dx <= px < dx + w && dy <= py < dy + iy
          then blend(old(b.At(px, py)), src.At(px + ox, py + oy))
          else old(b.At(px, py))
    {
      BlendRow(b, src, dx, dy + iy, ox, oy, w, blend);
      iy := iy + 1;
    }
  }

  /**
   * The inner loop of `draw::basic`: `n` pixels of destination row `dy`
   * from column `dx` on are blended, in place, with the source pixels at
   * offset `(ox, oy)` from them (`d_off` and `s_off` advance together).
   */
  method BlendRow(b: Buffer, src: Buffer, dx: int, dy: int, ox: int, oy: int, n: int,
                  blend: (Pixel, Pixel) -> Pixel)
    requires b.Valid() && src.Valid() && b.pixels != src.pixels
    requires 0 <= n && 0 <= dx && dx + n <= b.w && 0 <= dy < b.h
    requires 0 <= dx + ox && dx + ox + n <= src.w && 0 <= dy + oy < src.h
    modifies b.pixels
    ensures forall px, py | 0 <= px < b.w && 0 <= py < b.h ::
      b.At(px, py) ==
        if py == dy && dx <= px < dx + n
        then blend(old(b.At(px, py)), src.At(px + ox, py + oy))
        else old(b.At(px, py))
  {
    var off := 0;
    while off < n
      invariant 0 <= off <= n
      invariant forall px, py | 0 <= px < b.w && 0 <= py < b.h ::
        b.At(px, py) ==
          if py == dy && dx <= px < dx + off
          then blend(old(b.At(px, py)), src.At(px + ox, py + oy))
          else old(b.At(px, py))
    {
      b.Set(dx + off, dy, blend(b.At(dx + off, dy), src.At(dx + off + ox, dy + oy)));
      off := off + 1;
    }
  }

  /**
   * The integers a `scan_line` call receives: the first destination column
   * `left` and the 12-bit source position `(sx, sy)` sampled there, with
   * the per-column source steps.
   */
  datatype Scan = Scan(left: int, sx: int, sy: int, sxIncr: int, syIncr: int)

  /** The source column sampled at destination column `c`: `(sx + (c - left) * sx_incr) >> 12`. */
  function SampleU(s: Scan, c: int): int
  {
    FxFloor(s.sx + (c - s.left) * s.sxIncr)
  }

  /** The source row sampled at destination column `c`: `(sy + (c - left) * sy_incr) >> 12`. */
  function SampleV(s: Scan, c: int): int
  {
    FxFloor(s.sy + (c - s.left) * s.syIncr)
  }

  /** The source sample of destination column `c` lies inside `sub`. */
  predicate SampleInSub(sub: Rect, s: Scan, c: int)
  {
    Contains(sub, SampleU(s, c), SampleV(s, c))
  }

  /** The source pixel `scan_line` reads for destination column `c`. */
  function SamplePixel(src: Buffer, sub: Rect, s: Scan, c: int): Pixel
    reads src, src.pixels
    requires src.Valid() && SubInside(sub, src.w, src.h) && SampleInSub(sub, s, c)
  {
    src.At(SampleU(s, c), SampleV(s, c))
  }

  /** Flooring a linear function of the column is monotone: non-decreasing for `incr >= 0`, else non-increasing. */
  lemma FloorStepMonotone(base: int, incr: int, k: int, k': int)
    requires k <= k'
    ensures incr >= 0 ==> FxFloor(base + k * incr) <= FxFloor(base + k' * incr)
    ensures incr < 0 ==> FxFloor(base + k' * incr) <= FxFloor(base + k * incr)
  {
    assert k' * incr - k * incr == (k' - k) * incr;
    if incr >= 0 {
      MulMonotone(0, k' - k, incr);
      DivMonotone(base + k * incr, base + k' * incr, FxUnit);
    } else {
      MulMonotone(0, k' - k, incr);
      DivMonotone(base + k' * incr, base + k * incr, FxUnit);
    }
  }

  /** A floored linear position between two in-range ends is in range: `lo <= . < hi` at `k1` and `k2` gives it at every `k` between. */
  lemma FloorBetween(base: int, incr: int, k1: int, k: int, k2: int, lo: int, hi: int)
    requires k1 <= k <= k2
    requires lo <= FxFloor(base + k1 * incr) < hi && lo <= FxFloor(base + k2 * incr) < hi
    ensures lo <= FxFloor(base + k * incr) < hi
  {
    FloorStepMonotone(base, incr, k1, k);
    FloorStepMonotone(base, incr, k, k2);
  }

  /**
   * Because the stepping is linear, a column between two columns whose
   * samples lie inside `sub` samples inside `sub` too: checking both ends
   * of a span is enough.
   */
  lemma SampleInSubBetween(sub: Rect, s: Scan, c1: int, c: int, c2: int)
    requires c1 <= c <= c2
    requires SampleInSub(sub, s, c1) && SampleInSub(sub, s, c2)
    ensures SampleInSub(sub, s, c)
  {
    FloorBetween(s.sx, s.sxIncr, c1 - s.left, c - s.left, c2 - s.left, sub.x, sub.x + sub.w);
    FloorBetween(s.sy, s.syIncr, c1 - s.left, c - s.left, c2 - s.left, sub.y, sub.y + sub.h);
  }

  /** One more column adds one more step: the position at column `c + 1`. */
  lemma StepColumn(base: int, incr: int, k: int)
    ensures base + (k + 1) * incr == base + k * incr + incr
  {
  }

  /**
   * `'checkSourceLeft` of `scan_line`: starting at column `l` with the
   * source position `(x, y)` of that column, step right while the sample
   * lies outside `sub`, giving up once `l >= r`. `found` says the walk
   * stopped on a sample inside `sub`; otherwise `scan_line` returns.
   */
  method WalkLeft(sub: Rect, s: Scan, l: int, r: int, x: int, y: int)
    returns (l': int, x': int, y': int, found: bool)
    requires x == s.sx + (l - s.left) * s.sxIncr && y == s.sy + (l - s.left) * s.syIncr
    ensures l <= l'
    ensures x' == s.sx + (l' - s.left) * s.sxIncr && y' == s.sy + (l' - s.left) * s.syIncr
    ensures forall c | l <= c < l' :: !SampleInSub(sub, s, c)
    ensures found ==> SampleInSub(sub, s, l')
    ensures found ==> l' == l || l' < r
    ensures !found ==> l' >= r
  {
    l', x', y' := l, x, y;
    while true
      invariant l <= l'
      invariant x' == s.sx + (l' - s.left) * s.sxIncr && y' == s.sy + (l' - s.left) * s.syIncr
      invariant forall c | l <= c < l' :: !SampleInSub(sub, s, c)
      invariant l' == l || l' < r
      decreases r - l'
    {
      var u := FxFloor(x');
      var v := FxFloor(y');
      if u < sub.x || v < sub.y || u >= sub.x + sub.w || v >= sub.y + sub.h {
        StepColumn(s.sx, s.sxIncr, l' - s.left);
        StepColumn(s.sy, s.syIncr, l' - s.left);
        l' := l' + 1;
        x' := x' + s.sxIncr;
        y' := y' + s.syIncr;
        if l' >= r {
          found := false;
          return;
        }
      } else {
        found := true;
        return;
      }
    }
  }

  /**
   * `'checkSourceRight` of `scan_line`: with `(x, y)` the source position
   * of column `l`, test the sample `r - l` steps further (column `r`, one
   * past the last column drawn) and step `r` left while it lies outside
   * `sub`, giving up once `l >= r`.
   */
  method WalkRight(sub: Rect, s: Scan, l: int, r: int, x: int, y: int)
    returns (r': int, found: bool)
    requires x == s.sx + (l - s.left) * s.sxIncr && y == s.sy + (l - s.left) * s.syIncr
    ensures r' <= r
    ensures forall c | r' < c <= r :: !SampleInSub(sub, s, c)
    ensures found ==> SampleInSub(sub, s, r')
    ensures found ==> r' == r || l < r'
    ensures !found ==> r' <= l
  {
    r' := r;
    while true
      invariant r' <= r
      invariant forall c | r' < c <= r :: !SampleInSub(sub, s, c)
      invariant r' == r || l < r'
      decreases r' - l
    {
      assert x + s.sxIncr * (r' - l) == s.sx + (r' - s.left) * s.sxIncr by {
        assert (r' - s.left) * s.sxIncr == (l - s.left) * s.sxIncr + (r' - l) * s.sxIncr;
      }
      assert y + s.syIncr * (r' - l) == s.sy + (r' - s.left) * s.syIncr by {
        assert (r' - s.left) * s.syIncr == (l - s.left) * s.syIncr + (r' - l) * s.syIncr;
      }
      var u := FxFloor(x + s.sxIncr * (r' - l));
      var v := FxFloor(y + s.syIncr * (r' - l));
      if u < sub.x || v < sub.y || u >= sub.x + sub.w || v >= sub.y + sub.h {
        r' := r' - 1;
        if l >= r' {
          found := false;
          return;
        }
      } else {
        found := true;
        return;
      }
    }
  }

  /**
   * The draw loop of `scan_line`: columns `[l, r)` of row `dy` are blended
   * with their source samples. Both end samples (columns `l` and `r`) lie
   * inside `sub`, hence so does every sample drawn.
   */
  method DrawSpan(b: Buffer, src: Buffer, sub: Rect, s: Scan, dy: int, l: int, r: int,
                  x: int, y: int, blend: (Pixel, Pixel) -> Pixel)
    requires b.Valid() && src.Valid() && b.pixels != src.pixels && SubInside(sub, src.w, src.h)
    requires 0 <= l && r <= b.w && 0 <= dy < b.h
    requires l < r ==> SampleInSub(sub, s, l) && SampleInSub(sub, s, r)
    requires x == s.sx + (l - s.left) * s.sxIncr && y == s.sy + (l - s.left) * s.syIncr
    modifies b.pixels
    ensures forall c | l <= c < r :: SampleInSub(sub, s, c)
    ensures forall px, py | 0 <= px < b.w && 0 <= py < b.h ::
      b.At(px, py) ==
        if py == dy && l <= px < r
        then blend(old(b.At(px, py)), SamplePixel(src, sub, s, px))
        else old(b.At(px, py))
  {
    forall c | l <= c < r
      ensures SampleInSub(sub, s, c)
    {
      SampleInSubBetween(sub, s, l, c, r);
    }
    if r <= l {
      return;
    }
    var dx, sx, sy := l, x, y;
    while dx < r
      invariant l <= dx <= r
      invariant sx == s.sx + (dx - s.left) * s.sxIncr && sy == s.sy + (dx - s.left) * s.syIncr
      invariant forall px, py | 0 <= px < b.w && 0 <= py < b.h ::
        b.At(px, py) ==
          if py == dy && l <= px < dx
          then blend(old(b.At(px, py)), SamplePixel(src, sub, s, px))
          else old(b.At(px, py))
    {
      assert SampleInSub(sub, s, dx);
      var u, v := FxFloor(sx), FxFloor(sy);
      assert u == SampleU(s, dx) && v == SampleV(s, dx);
      b.Set(dx, dy, blend(b.At(dx, dy), src.At(u, v)));
      StepColumn(s.sx, s.sxIncr, dx - s.left);
      StepColumn(s.sy, s.syIncr, dx - s.left);
      sx := sx + s.sxIncr;
      sy := sy + s.syIncr;
      dx := dx + 1;
    }
  }

  /** Row `dy` lies between the clip rectangle's top and bottom edges. */
  predicate InClipRows(clip: Rect, dy: int)
  {
    clip.y <= dy < clip.y + clip.h
  }

  /**
   * `scan_line(b, src, sub, dy, t, sx_incr, sy_incr)`, whose transform
   * carries only the integers `left` (`t.ox`), `right` (`t.oy`), `sx`
   * (`t.sx`) and `sy` (`t.sy`). Column `c` of row `dy` samples the source
   * at `Scan(left, sx, sy, sxIncr, syIncr)`. The ghost results `[lo, hi)`
   * are the columns drawn: they lie in row `dy` inside the clip
   * rectangle and inside `[left, right)`, and every sample in them lies
   * inside `sub`. Within the clipped columns `[l, r]`, `lo` is the first
   * column sampling inside `sub` and, when anything is drawn, `hi` is the
   * last one: the right walk tests column `r`, one past the span, so the
   * column `hi` samples inside `sub` but is not drawn. Every column the two
   * walks skipped samples outside `sub`. A row outside the clip rows, or a
   * walk that makes `left >= right`, writes nothing.
   */
  method ScanLine(b: Buffer, src: Buffer, sub: Rect, dy: int, left: int, right: int,
                  sx: int, sy: int, sxIncr: int, syIncr: int, blend: (Pixel, Pixel) -> Pixel)
    returns (ghost lo: int, ghost hi: int)
    requires b.Valid() && src.Valid() && b.pixels != src.pixels && SubInside(sub, src.w, src.h)
    modifies b.pixels
    ensures forall c | lo <= c < hi :: SampleInSub(sub, Scan(left, sx, sy, sxIncr, syIncr), c)
    ensures lo < hi ==> InClipRows(b.clip, dy) && Max(left, b.clip.x) <= lo && hi <= Min(right, b.clip.x + b.clip.w)
    ensures InClipRows(b.clip, dy) ==>
      Max(left, b.clip.x) <= lo &&
      forall c | Max(left, b.clip.x) <= c < lo :: !SampleInSub(sub, Scan(left, sx, sy, sxIncr, syIncr), c)
    ensures lo < hi ==> SampleInSub(sub, Scan(left, sx, sy, sxIncr, syIncr), hi)
    ensures InClipRows(b.clip, dy) ==>
      forall c | Max(lo, hi) < c <= Min(right, b.clip.x + b.clip.w) :: !SampleInSub(sub, Scan(left, sx, sy, sxIncr, syIncr), c)
    ensures forall px, py | 0 <= px < b.w && 0 <= py < b.h ::
      b.At(px, py) ==
        if py == dy && lo <= px < hi
        then blend(old(b.At(px, py)), SamplePixel(src, sub, Scan(left, sx, sy, sxIncr, syIncr), px))
        else old(b.At(px, py))
  {
    var s := Scan(left, sx, sy, sxIncr, syIncr);
    if dy < b.clip.y || dy >= b.clip.y + b.clip.h {
      lo, hi := left, left;
      return;
    }
    var l, r, x, y := ClipScan(left, right, sx, sy, sxIncr, syIncr, b.clip);
    lo, hi := ScanClipped(b, src, sub, s, dy, l, r, x, y, blend);
  }

  /**
   * The horizontal clip steps of `scan_line`: a left overhang `_d` moves
   * `left` to the clip edge and advances the source position by
   * `_d * sx_incr` (`_d * sy_incr`), so that it stays the sample of the
   * new left column; a right overhang pulls `right` in to the clip edge.
   */
  method ClipScan(left: int, right: int, sx: int, sy: int, sxIncr: int, syIncr: int, clip: Rect)
    returns (l: int, r: int, x: int, y: int)
    ensures l == Max(left, clip.x) && r == Min(right, clip.x + clip.w)
    ensures x == sx + (l - left) * sxIncr && y == sy + (l - left) * syIncr
  {
    l, r, x, y := left, right, sx, sy;
    var d := clip.x - l;
    if d > 0 {
      l := l + d;
      x := x + d * sxIncr;
      y := y + d * syIncr;
    }
    d := r - (clip.x + clip.w);
    if d > 0 {
      r := r - d;
    }
  }

  /**
   * The part of `scan_line` after clipping, on row `dy` between the
   * clipped columns `l` and `r`, with `(x, y)` the source position of
   * column `l`: the two boundary walks, then the draw loop over the
   * columns `[lo, hi)` they leave. `lo` is the first column of `[l, r]`
   * sampling inside `sub`; a non-empty span ends at the last such column
   * `hi`, which is tested but not drawn; every other column of `[l, r]`
   * outside `[lo, hi]` samples outside `sub`.
   */
  method ScanClipped(b: Buffer, src: Buffer, sub: Rect, s: Scan, dy: int, l: int, r: int,
                     x: int, y: int, blend: (Pixel, Pixel) -> Pixel)
    returns (ghost lo: int, ghost hi: int)
    requires b.Valid() && src.Valid() && b.pixels != src.pixels && SubInside(sub, src.w, src.h)
    requires 0 <= l && r <= b.w && 0 <= dy < b.h
    requires x == s.sx + (l - s.left) * s.sxIncr && y == s.sy + (l - s.left) * s.syIncr
    modifies b.pixels
    ensures forall c | lo <= c < hi :: SampleInSub(sub, s, c)
    ensures l <= lo && forall c | l <= c < lo :: !SampleInSub(sub, s, c)
    ensures lo < hi ==> hi <= r && SampleInSub(sub, s, hi)
    ensures forall c | Max(lo, hi) < c <= r :: !SampleInSub(sub, s, c)
    ensures forall px, py | 0 <= px < b.w && 0 <= py < b.h ::
      b.At(px, py) ==
        if py == dy && lo <= px < hi
        then blend(old(b.At(px, py)), SamplePixel(src, sub, s, px))
        else old(b.At(px, py))
  {
    var l', x', y', found := WalkLeft(sub, s, l, r, x, y);
    if !found {
      lo, hi := l', l';
      return;
    }
    var r';
    r', found := WalkRight(sub, s, l', r, x', y');
    if !found {
      lo, hi := l', l';
      return;
    }
    DrawSpan(b, src, sub, s, dy, l', r', x', y', blend);
    lo, hi := l', r';
  }

  /**
   * The loop bounds of `draw::scaled` after its four clip steps: the
   * destination offsets `odx`, `ody` the loops start from, the shifted
   * source origin and the offsets `width`, `height` the loops run to.
   */
  datatype ScaledRegion = ScaledRegion(odx: int, ody: int, subX: int, subY: int, width: int, height: int)

  /**
   * The clip steps of `draw::scaled` in closed form: a left (top) overhang
   * becomes the starting offset and shifts the source origin by `shiftX`
   * (`shiftY`, the float-derived `_d / t.sx`), a right (bottom) overhang
   * shortens the loop.
   */
  function ScaledRegionOf(x: int, y: int, sub: Rect, width: int, height: int,
                          shiftX: int, shiftY: int, clip: Rect): ScaledRegion
  {
    ScaledRegion(Max(0, clip.x - x), Max(0, clip.y - y),
                 if clip.x - x > 0 then sub.x + shiftX else sub.x,
                 if clip.y - y > 0 then sub.y + shiftY else sub.y,
                 Min(width, clip.x + clip.w - x), Min(height, clip.y + clip.h - y))
  }

  /**
   * The pixels the loops of `draw::scaled` visit, `x + [odx, width)` by
   * `y + [ody, height)`, are exactly those of the scaled footprint
   * `[x, x + width) x [y, y + height)` inside the clip rectangle; and the
   * early return for a footprint wholly left or right of the clip
   * rectangle only skips loops that would visit nothing.
   */
  lemma ScaledRegionFootprint(x: int, y: int, sub: Rect, width: int, height: int,
                              shiftX: int, shiftY: int, clip: Rect)
    ensures var c := ScaledRegionOf(x, y, sub, width, height, shiftX, shiftY, clip);
      forall px, py ::
        (x + c.odx <= px < x + c.width && y + c.ody <= py < y + c.height) <==>
        Contains(Rect(x, y, width, height), px, py) && Contains(clip, px, py)
    ensures x + width < clip.x || x > clip.x + clip.w ==>
      ScaledRegionOf(x, y, sub, width, height, shiftX, shiftY, clip).width <=
      ScaledRegionOf(x, y, sub, width, height, shiftX, shiftY, clip).odx
  {
  }

  /** The four clip steps of `draw::scaled`, one `if` per edge. */
  method ClipScaledRegion(x: int, y: int, sub: Rect, width: int, height: int,
                          shiftX: int, shiftY: int, clip: Rect) returns (c: ScaledRegion)
    ensures c == ScaledRegionOf(x, y, sub, width, height, shiftX, shiftY, clip)
  {
    var dy, odx := 0, 0;
    var sub, width, height := sub, width, height;
    var d := clip.y - y;
    if d > 0 {
      dy := d;
      sub := sub.(y := sub.y + shiftY);
    }
    d := clip.x - x;
    if d > 0 {
      odx := d;
      sub := sub.(x := sub.x + shiftX);
    }
    d := (y + height) - (clip.y + clip.h);
    if d > 0 {
      height := height - d;
    }
    d := (x + width) - (clip.x + clip.w);
    if d > 0 {
      width := width - d;
    }
    c := ScaledRegion(odx, dy, sub.x, sub.y, width, height);
  }

  /**
   * The flat source index `draw::scaled` reads at loop offsets `(dx, dy)`:
   * `(sub.x + (sx >> 12)) + (sub.y + (sy >> 12)) * src.w`, the 12-bit
   * positions having stepped from `(osx, osy)` by `ix` per column and
   * `iy` per row since the first offsets.
   */
  function ScaledIndex(c: ScaledRegion, srcW: int, osx: int, osy: int, ix: int, iy: int, dx: int, dy: int): int
  {
    (c.subX + FxFloor(osx + (dx - c.odx) * ix)) + (c.subY + FxFloor(osy + (dy - c.ody) * iy)) * srcW
  }

  /** The 12-bit start of one axis: the far edge of `n` source pixels when the scale is negative, else 0. */
  function ScaledOrigin(negative: bool, n: int): int
  {
    if negative then n * FxUnit - 1 else 0
  }

  /**
   * A negative scale starts sampling at the last of the `n` source pixels
   * and a positive one at the first; stepping by `incr` then walks back
   * or forth from there.
   */
  lemma ScaledOriginSample(negative: bool, n: int)
    requires n >= 1
    ensures FxFloor(ScaledOrigin(negative, n)) == if negative then n - 1 else 0
  {
    FxFloorShift(n, -1);
    FxFloorShift(0, 0);
  }

  /** Every index row `dy` of the loops reads is inside a source of `len` pixels. */
  predicate ScaledRowFits(c: ScaledRegion, srcW: int, len: int, osx: int, osy: int, ix: int, iy: int, dy: int)
  {
    forall dx | c.odx <= dx < c.width :: 0 <= ScaledIndex(c, srcW, osx, osy, ix, iy, dx, dy) < len
  }

  /** Every row of the loops fits the source. */
  predicate ScaledFits(c: ScaledRegion, srcW: int, len: int, osx: int, osy: int, ix: int, iy: int)
  {
    forall dy | c.ody <= dy < c.height :: ScaledRowFits(c, srcW, len, osx, osy, ix, iy, dy)
  }

  /** The source pixel `draw::scaled` blends in at loop offsets `(dx, dy)`. */
  function ScaledSample(src: Buffer, c: ScaledRegion, osx: int, osy: int, ix: int, iy: int, dx: int, dy: int): Pixel
    reads src, src.pixels
    requires ScaledRowFits(c, src.w, src.pixels.Length, osx, osy, ix, iy, dy) && c.odx <= dx < c.width
  {
    src.pixels[ScaledIndex(c, src.w, osx, osy, ix, iy, dx, dy)]
  }

  /**
   * `draw::scaled(b, src, x, y, sub, t)` from line 52 on, with the
   * float-derived quantities as inputs: the origin-adjusted `x`, `y`, the
   * scaled `width`, `height`, the steps `ix`, `iy`, the signs of the two
   * scales and the left/top source shifts. Every pixel the clipped loops
   * visit (by `ScaledRegionFootprint`, the scaled footprint inside the
   * clip rectangle) is blended with the source pixel at `ScaledIndex`;
   * nothing else changes. The source demands that each
   * such index lies inside `src.pixels`.
   */
  method Scaled(b: Buffer, src: Buffer, x: int, y: int, sub: Rect, width: int, height: int,
                negX: bool, negY: bool, ix: int, iy: int, shiftX: int, shiftY: int,
                blend: (Pixel, Pixel) -> Pixel)
    requires b.Valid() && src.Valid() && b.pixels != src.pixels
    requires ScaledFits(ScaledRegionOf(x, y, sub, width, height, shiftX, shiftY, b.clip), src.w, src.pixels.Length,
                        ScaledOrigin(negX, sub.w), ScaledOrigin(negY, sub.h), ix, iy)
    modifies b.pixels
    ensures var c := ScaledRegionOf(x, y, sub, width, height, shiftX, shiftY, b.clip);
      var osx, osy := ScaledOrigin(negX, sub.w), ScaledOrigin(negY, sub.h);
      forall px, py | 0 <= px < b.w && 0 <= py < b.h ::
        b.At(px, py) ==
          if x + c.odx <= px < x + c.width && y + c.ody <= py < y + c.height
          then blend(old(b.At(px, py)), ScaledSample(src, c, osx, osy, ix, iy, px - x, py - y))
          else old(b.At(px, py))
  {
    var osx := if negX then sub.w * FxUnit - 1 else 0;
    var osy := if negY then sub.h * FxUnit - 1 else 0;
    var c := ClipScaledRegion(x, y, sub, width, height, shiftX, shiftY, b.clip);
    if x + width < b.clip.x || x > b.clip.x + b.clip.w {
      return;
    }
    var sy := osy;
    var dy := c.ody;
    while dy < c.height
      invariant c.ody <= dy <= Max(c.height, c.ody)
      invariant sy == osy + (dy - c.ody) * iy
      invariant forall px, py | 0 <= px < b.w && 0 <= py < b.h ::
        b.At(px, py) ==
          if x + c.odx <= px < x + c.width && y + c.ody <= py < y + dy
          then blend(old(b.At(px, py)), ScaledSample(src, c, osx, osy, ix, iy, px - x, py - y))
          else old(b.At(px, py))
    {
      assert ScaledRowFits(c, src.w, src.pixels.Length, osx, osy, ix, iy, dy);
      ScaledBlendRow(b, src, x, y, c, osx, osy, ix, iy, dy, sy, blend);
      assert (dy + 1 - c.ody) * iy == (dy - c.ody) * iy + iy;
      sy := sy + iy;
      dy := dy + 1;
    }
  }

  /**
   * The inner loop of `draw::scaled` for loop row `dy`: the columns
   * `x + [odx, width)` of destination row `y + dy` are blended with the
   * source pixels at `ScaledIndex`, `sx` stepping by `ix` from `osx`.
   */
  method ScaledBlendRow(b: Buffer, src: Buffer, x: int, y: int, c: ScaledRegion,
                        osx: int, osy: int, ix: int, iy: int, dy: int, sy: int,
                        blend: (Pixel, Pixel) -> Pixel)
    requires b.Valid() && src.Valid() && b.pixels != src.pixels
    requires 0 <= x + c.odx && x + c.width <= b.w && 0 <= y + dy < b.h && c.ody <= dy < c.height
    requires sy == osy + (dy - c.ody) * iy
    requires ScaledRowFits(c, src.w, src.pixels.Length, osx, osy, ix, iy, dy)
    modifies b.pixels
    ensures forall px, py | 0 <= px < b.w && 0 <= py < b.h ::
      b.At(px, py) ==
        if py == y + dy && x + c.odx <= px < x + c.width
        then blend(old(b.At(px, py)), ScaledSample(src, c, osx, osy, ix, iy, px - x, dy))
        else old(b.At(px, py))
  {
    var dx := c.odx;
    var sx := osx;
    while dx < c.width
      invariant c.odx <= dx <= Max(c.width, c.odx)
      invariant sx == osx + (dx - c.odx) * ix
      invariant forall px, py | 0 <= px < b.w && 0 <= py < b.h ::
        b.At(px, py) ==
          if py == y + dy && x + c.odx <= px < x + dx
          then blend(old(b.At(px, py)), ScaledSample(src, c, osx, osy, ix, iy, px - x, dy))
          else old(b.At(px, py))
    {
      var i := (c.subX + FxFloor(sx)) + (c.subY + FxFloor(sy)) * src.w;
      assert i == ScaledIndex(c, src.w, osx, osy, ix, iy, dx, dy);
      b.Set(x + dx, y + dy, blend(b.At(x + dx, y + dy), src.pixels[i]));
      assert (dx + 1 - c.odx) * ix == (dx - c.odx) * ix + ix;
      sx := sx + ix;
      dx := dx + 1;
    }
  }
}
