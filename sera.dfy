/**
 * The data model of the `sera` module of src/lib.rs and of src/sera.h:
 * pixels (four byte channels that double as one packed 32-bit word),
 * blend modes, draw modes, rectangles and pixel buffers.
 */
module Sera {
  import opened Lib

  /**
   * The four channel orders of src/sera.h. The name lists the channels
   * from the lowest-addressed byte up; on the little-endian targets the
   * masks of src/sera.h are written for, that byte is the least
   * significant byte of the packed word.
   */
  datatype ChannelOrder = BGRA | RGBA | ARGB | ABGR

  /** The build configuration: no `SR_MODE_*` macro selects BGRA. */
  const Order: ChannelOrder := BGRA

  /** A pixel seen through its channel view (the `rgba` member of the union). */
  datatype Pixel = Pixel(r: Byte, g: Byte, b: Byte, a: Byte)

  /** The channels of `p` from the lowest-addressed byte to the highest. */
  function Bytes(o: ChannelOrder, p: Pixel): seq<Byte>
  {
    match o
    case BGRA => [p.b, p.g, p.r, p.a]
    case RGBA => [p.r, p.g, p.b, p.a]
    case ARGB => [p.a, p.r, p.g, p.b]
    case ABGR => [p.a, p.b, p.g, p.r]
  }

  /** The `word` member of the union: the four bytes read as a little-endian `u32`. */
  function Pack(o: ChannelOrder, p: Pixel): (w: U32)
  {
    var s := Bytes(o, p);
    var b0, b1, b2, b3: int := s[0], s[1], s[2], s[3];
    b0 + 0x100 * b1 + 0x1_0000 * b2 + 0x100_0000 * b3
  }

  /** Byte `k` (0 = least significant) of a word. */
  function ByteOf(w: U32, k: nat): Byte
    requires k < 4
  {
    if k == 0 then w % 0x100
    else if k == 1 then w / 0x100 % 0x100
    else if k == 2 then w / 0x1_0000 % 0x100
    else w / 0x100_0000
  }

  /** The channel view of a packed word. */
  function Unpack(o: ChannelOrder, w: U32): Pixel
  {
    var b0, b1, b2, b3 := ByteOf(w, 0), ByteOf(w, 1), ByteOf(w, 2), ByteOf(w, 3);
    match o
    case BGRA => Pixel(b2, b1, b0, b3)
    case RGBA => Pixel(b0, b1, b2, b3)
    case ARGB => Pixel(b1, b2, b3, b0)
    case ABGR => Pixel(b3, b2, b1, b0)
  }

  lemma SplitLowByte(lo: int, hi: int)
    requires 0 <= lo < 0x100
    ensures (lo + 0x100 * hi) % 0x100 == lo && (lo + 0x100 * hi) / 0x100 == hi
  {
  }

  lemma BytesOfWord(b0: Byte, b1: Byte, b2: Byte, b3: Byte)
    ensures var w := b0 as int + 0x100 * b1 + 0x1_0000 * b2 + 0x100_0000 * b3;
      0 <= w < Word32 &&
      ByteOf(w, 0) == b0 && ByteOf(w, 1) == b1 && ByteOf(w, 2) == b2 && ByteOf(w, 3) == b3
  {
    var hi2: int := b2 as int + 0x100 * b3;
    var hi1: int := b1 as int + 0x100 * hi2;
    var w: int := b0 as int + 0x100 * hi1;
    SplitLowByte(b0, hi1);
    SplitLowByte(b1, hi2);
    SplitLowByte(b2, b3);
    assert w / 0x1_0000 == hi1 / 0x100;
    assert w / 0x100_0000 == hi2 / 0x100;
  }

  /** Reading the channels back out of the packed word gives the channels stored. */
  lemma UnpackPack(o: ChannelOrder, p: Pixel)
    ensures Unpack(o, Pack(o, p)) == p
  {
    var s := Bytes(o, p);
    BytesOfWord(s[0], s[1], s[2], s[3]);
  }

  /** Every word is the packing of its channel view: the two views of the union agree. */
  lemma PackUnpack(o: ChannelOrder, w: U32)
    ensures Pack(o, Unpack(o, w)) == w
  {
    var b0, b1, b2, b3: int := ByteOf(w, 0), ByteOf(w, 1), ByteOf(w, 2), ByteOf(w, 3);
    assert w == b0 + 0x100 * (w / 0x100);
    assert w / 0x100 == b1 + 0x100 * (w / 0x1_0000);
    assert w / 0x1_0000 == b2 + 0x100 * b3;
  }

  /** Pixel equality is byte-exact word equality. */
  lemma PackInjective(o: ChannelOrder, p: Pixel, q: Pixel)
    ensures Pack(o, p) == Pack(o, q) <==> p == q
  {
    if Pack(o, p) == Pack(o, q) {
      UnpackPack(o, p);
      UnpackPack(o, q);
    }
  }

  /** `SR_RGB_MASK` of src/sera.h for each channel order. */
  function RgbMask(o: ChannelOrder): U32
  {
    match o
    case BGRA => 0xff_ffff
    case RGBA => 0xff_ffff
    case ARGB => 0xffff_ff00
    case ABGR => 0xffff_ff00
  }

  /** The word with its alpha byte cleared: `w & SR_RGB_MASK`. */
  function MaskRgb(o: ChannelOrder, w: U32): U32
  {
    match o
    case BGRA => w % 0x100_0000
    case RGBA => w % 0x100_0000
    case ARGB => w - w % 0x100
    case ABGR => w - w % 0x100
  }

  /**
   * The RGB mask is exactly the word of white with a zero alpha byte, so
   * `color == RGB_MASK` holds for that one pixel and no other.
   */
  lemma RgbMaskIsWhiteWithoutAlpha(o: ChannelOrder, c: Pixel)
    ensures Pack(o, c) == RgbMask(o) <==> c == Pixel(0xff, 0xff, 0xff, 0)
  {
    assert RgbMask(o) == Pack(o, Pixel(0xff, 0xff, 0xff, 0));
    PackInjective(o, c, Pixel(0xff, 0xff, 0xff, 0));
  }

  /**
   * `Pixel::pixel(r, g, b, a)`: the four channels as given, which in the
   * default BGRA order is the word with `b` in its lowest byte and `a` in
   * its highest.
   */
  function PixelOf(r: Byte, g: Byte, b: Byte, a: Byte): (p: Pixel)
    ensures p.r == r && p.g == g && p.b == b && p.a == a
    ensures Pack(Order, p) == b as int + 0x100 * g + 0x1_0000 * r + 0x100_0000 * a
    ensures Unpack(Order, Pack(Order, p)) == p
  {
    UnpackPack(Order, Pixel(r, g, b, a));
    Pixel(r, g, b, a)
  }

  /**
   * `Pixel::color(r, g, b)`: the alpha byte is set to 0 (not 255), so the
   * word is that of any `Pixel::pixel(r, g, b, a)` masked with RGB_MASK.
   */
  function ColorOf(r: Byte, g: Byte, b: Byte): (p: Pixel)
    ensures p.a == 0
    ensures forall a: Byte :: Pack(Order, p) == MaskRgb(Order, Pack(Order, PixelOf(r, g, b, a)))
  {
    Pixel(r, g, b, 0)
  }

  /** The blend modes of the `BlendMode` enum, in declaration order. */
  datatype BlendMode = Alpha | Color | Add | Subtract | Multiply | Lighten | Darken | Screen | Difference

  /** A buffer's draw state: tint colour, global alpha and blend mode. */
  datatype DrawMode = DrawMode(color: Pixel, alpha: Byte, blend: BlendMode)

  /** An integer rectangle; `w` and `h` may be zero or negative (empty). */
  datatype Rect = Rect(x: int, y: int, w: int, h: int)

  /** The point `(px, py)` lies in `[r.x, r.x + r.w) x [r.y, r.y + r.h)`. */
  predicate Contains(r: Rect, px: int, py: int)
  {
    r.x <= px < r.x + r.w && r.y <= py < r.y + r.h
  }

  /** Index of pixel `(x, y)` in a row-major pixel array with rows of `w` pixels. */
  function Idx(w: int, x: int, y: int): int
  {
    x + y * w
  }

  lemma IdxInBounds(w: int, h: int, x: int, y: int)
    requires 0 <= x < w && 0 <= y < h
    ensures 0 <= Idx(w, x, y) < w * h
  {
    MulLe(w, y, h - 1);
    assert w * (h - 1) == w * h - w;
  }

  /** Distinct in-row coordinates have distinct indices. */
  lemma IdxInjective(w: int, x: int, y: int, x2: int, y2: int)
    requires 0 <= x < w && 0 <= x2 < w
    requires Idx(w, x, y) == Idx(w, x2, y2)
    ensures x == x2 && y == y2
  {
    if y < y2 {
      MulLe(w, y + 1, y2);
      assert false;
    } else if y2 < y {
      MulLe(w, y2 + 1, y);
      assert false;
    }
  }

  lemma IdxDistinct(w: int, x: int, y: int, x2: int, y2: int)
    requires 0 <= x < w && 0 <= x2 < w && (x != x2 || y != y2)
    ensures Idx(w, x, y) != Idx(w, x2, y2)
  {
    if Idx(w, x, y) == Idx(w, x2, y2) {
      IdxInjective(w, x, y, x2, y2);
    }
  }

  /** `sub` lies inside a `w` by `h` buffer (a sub-rectangle with `w <= 0` or `h <= 0` selects nothing). */
  predicate SubInside(sub: Rect, w: int, h: int)
  {
    0 <= sub.x && 0 <= sub.y && sub.x + sub.w <= w && sub.y + sub.h <= h
  }

  /**
   * A pixel buffer: `w * h` pixels in row-major order, a clip rectangle
   * inside the buffer, and the draw mode used by blended draws.
   */
  class Buffer {
    var mode: DrawMode
    var clip: Rect
    var pixels: array<Pixel>
    var w: int
    var h: int

    ghost predicate Valid()
      reads this
    {
      && w >= 1 && h >= 1
      && pixels.Length == w * h
      && 0 <= clip.x && 0 <= clip.y && 0 <= clip.w && 0 <= clip.h
      && clip.x + clip.w <= w && clip.y + clip.h <= h
    }

    /** A `w` by `h` buffer of zero pixels whose clip rectangle is the whole buffer. */
    constructor (w: int, h: int, mode: DrawMode)
      requires w >= 1 && h >= 1
      ensures Valid() && fresh(pixels)
      ensures this.w == w && this.h == h && this.mode == mode
      ensures clip == Rect(0, 0, w, h)
      ensures forall k | 0 <= k < pixels.Length :: pixels[k] == Pixel(0, 0, 0, 0)
    {
      this.w := w;
      this.h := h;
      this.mode := mode;
      clip := Rect(0, 0, w, h);
      pixels := new Pixel[w * h](_ => Pixel(0, 0, 0, 0));
    }

    /** The pixel at column `u`, row `v`: `pixels[u + v * w]`. */
    function At(u: int, v: int): (p: Pixel)
      reads this, pixels
      requires Valid() && 0 <= u < w && 0 <= v < h
    {
      IdxInBounds(w, h, u, v);
      pixels[Idx(w, u, v)]
    }

    /** The store `pixels[u + v * w] = p`: pixel `(u, v)` becomes `p` and no other pixel changes. */
    method Set(u: int, v: int, p: Pixel)
      requires Valid() && 0 <= u < w && 0 <= v < h
      modifies pixels
      ensures At(u, v) == p
      ensures forall px, py | 0 <= px < w && 0 <= py < h && (px != u || py != v) :: At(px, py) == old(At(px, py))
    {
      IdxInBounds(w, h, u, v);
      pixels[Idx(w, u, v)] := p;
      forall px, py | 0 <= px < w && 0 <= py < h && (px != u || py != v)
        ensures At(px, py) == old(At(px, py))
      {
        IdxDistinct(w, px, py, u, v);
      }
    }
  }
}
