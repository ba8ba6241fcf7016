/**
 * The geometry and state helpers of src/util.rs: safe division, rectangle
 * clipping, the dual clip-and-offset every blit starts with, and the
 * xorshift128 generator `RandState`.
 */
module Util {
  import opened Lib
  import opened Sera

  function Abs(v: int): (r: nat)
    ensures r == v || r == -v
  {
    if v < 0 then -v else v
  }

  /** Rust's `/` on integers: the quotient truncated toward zero. */
  function TruncDiv(n: int, x: int): int
    requires x != 0
  {
    if (n >= 0) == (x > 0) then Abs(n) / Abs(x) else -(Abs(n) / Abs(x))
  }

  lemma RestBounds(a: int, b: int)
    requires a >= 0 && b > 0
    ensures 0 <= a - (a / b) * b < b
  {
  }

  /** The truncated quotient leaves the remainder of |n| by |x|, with the sign of n. */
  lemma TruncDivRest(n: int, x: int)
    requires x != 0
    ensures n >= 0 ==> n - TruncDiv(n, x) * x == Abs(n) - (Abs(n) / Abs(x)) * Abs(x)
    ensures n < 0 ==> n - TruncDiv(n, x) * x == -(Abs(n) - (Abs(n) / Abs(x)) * Abs(x))
  {
    var a: int, b: int := Abs(n), Abs(x);
    var q: int := a / b;
    if x > 0 {
      assert b == x;
      assert TruncDiv(n, x) * x == (if n >= 0 then q * b else -(q * b));
    } else {
      assert b == -x;
      assert TruncDiv(n, x) * x == (if n >= 0 then q * b else -(q * b));
    }
  }

  lemma TruncDivRemainder(n: int, x: int)
    requires x != 0
    ensures Abs(n - TruncDiv(n, x) * x) < Abs(x)
    ensures n >= 0 ==> n - TruncDiv(n, x) * x >= 0
    ensures n <= 0 ==> n - TruncDiv(n, x) * x <= 0
  {
    RestBounds(Abs(n), Abs(x));
    TruncDivRest(n, x);
  }

  /**
   * `xdiv_i32(n, x)`: `n` itself when `x` is 0, otherwise `n / x`
   * truncated toward zero, i.e. the quotient whose remainder is smaller
   * than `|x|` and has the sign of `n`.
   */
  function XDivI32(n: int, x: int): (r: int)
    ensures x == 0 ==> r == n
    ensures x != 0 ==> Abs(n - r * x) < Abs(x)
    ensures x != 0 && n >= 0 ==> n - r * x >= 0
    ensures x != 0 && n <= 0 ==> n - r * x <= 0
  {
    if x == 0 then n
    else
      TruncDivRemainder(n, x);
      TruncDiv(n, x)
  }

  /**
   * `clip_rect(r, to)`: `r` becomes its intersection with `to`, with the
   * left and top edges at the larger of the two and the size never negative.
   */
  function ClipRect(r: Rect, to: Rect): (c: Rect)
    ensures c.x == Max(r.x, to.x) && c.y == Max(r.y, to.y)
    ensures c.w >= 0 && c.h >= 0
    ensures forall px, py :: Contains(c, px, py) <==> Contains(r, px, py) && Contains(to, px, py)
  {
    var x1 := Max(r.x, to.x);
    var y1 := Max(r.y, to.y);
    var x2 := Min(r.x + r.w, to.x + to.w);
    var y2 := Min(r.y + r.h, to.y + to.h);
    Rect(x1, y1, Max(x2 - x1, 0), Max(y2 - y1, 0))
  }

  /** Clipping a second time against the same rectangle changes nothing. */
  lemma ClipRectIdempotent(r: Rect, to: Rect)
    ensures ClipRect(ClipRect(r, to), to) == ClipRect(r, to)
  {
  }

  /** A sub-rectangle of a source together with the destination point it is drawn at. */
  datatype Placement = Placement(sub: Rect, x: int, y: int)

  /** The destination footprint of a placement: `[x, x + sub.w) x [y, y + sub.h)`. */
  function Footprint(p: Placement): Rect
  {
    Rect(p.x, p.y, p.sub.w, p.sub.h)
  }

  /**
   * The outcome of `clip_rect_offset` in closed form: the destination
   * origin moves to the clip edge, the sub-rectangle's origin moves by the
   * same amount, and the width and height end where the clip rectangle or
   * the original footprint ends (possibly negative: there is no clamp).
   */
  function OffsetClip(sub: Rect, x: int, y: int, to: Rect): (p: Placement)
    ensures p.x == Max(x, to.x) && p.y == Max(y, to.y)
    ensures p.sub.x - sub.x == p.x - x && p.sub.y - sub.y == p.y - y
    ensures p.x + p.sub.w == Min(x + sub.w, to.x + to.w)
    ensures p.y + p.sub.h == Min(y + sub.h, to.y + to.h)
  {
    var nx := Max(x, to.x);
    var ny := Max(y, to.y);
    Placement(Rect(sub.x + (nx - x), sub.y + (ny - y),
                   Min(x + sub.w, to.x + to.w) - nx, Min(y + sub.h, to.y + to.h) - ny),
              nx, ny)
  }

  /**
   * The footprint left by clip_rect_offset is exactly the part of the
   * original footprint inside `to`, and the sub-rectangle keeps pointing
   * at the same source pixels: source = destination - (x, y) + (sub.x, sub.y).
   */
  lemma OffsetClipFootprint(sub: Rect, x: int, y: int, to: Rect)
    ensures var p := OffsetClip(sub, x, y, to);
      forall px, py :: Contains(Footprint(p), px, py) <==>
        Contains(Rect(x, y, sub.w, sub.h), px, py) && Contains(to, px, py)
  {
  }

  /** A non-empty clipped sub-rectangle lies inside the original sub-rectangle. */
  lemma OffsetClipWithinSub(sub: Rect, x: int, y: int, to: Rect)
    ensures var p := OffsetClip(sub, x, y, to);
      p.sub.w > 0 && p.sub.h > 0 ==>
        sub.x <= p.sub.x && p.sub.x + p.sub.w <= sub.x + sub.w &&
        sub.y <= p.sub.y && p.sub.y + p.sub.h <= sub.y + sub.h
  {
  }

  /** A placement whose footprint already lies inside `to` is left unchanged. */
  lemma OffsetClipInside(sub: Rect, x: int, y: int, to: Rect)
    requires to.x <= x && to.y <= y && x + sub.w <= to.x + to.w && y + sub.h <= to.y + to.h
    ensures OffsetClip(sub, x, y, to) == Placement(sub, x, y)
  {
  }

  /**
   * `clip_rect_offset(r, x, y, to)`: four independent edge checks, each
   * computing an overflow `d` and, when positive, shifting the destination
   * origin and the sub-rectangle origin together (left, top) or shrinking
   * the sub-rectangle (right, bottom).
   */
  method ClipRectOffset(r: Rect, x: int, y: int, to: Rect) returns (r': Rect, x': int, y': int)
    ensures Placement(r', x', y') == OffsetClip(r, x, y, to)
    ensures x' >= to.x && y' >= to.y
    ensures x' + r'.w <= to.x + to.w && y' + r'.h <= to.y + to.h
    ensures r'.x - r.x == x' - x && r.w - r'.w >= x' - x
    ensures r'.y - r.y == y' - y && r.h - r'.h >= y' - y
  {
    r', x', y' := r, x, y;
    var d := to.x - x';
    if d > 0 {
      x' := x' + d;
      r' := r'.(w := r'.w - d, x := r'.x + d);
    }
    d := to.y - y';
    if d > 0 {
      y' := y' + d;
      r' := r'.(h := r'.h - d, y := r'.y + d);
    }
    d := (x' + r'.w) - (to.x + to.w);
    if d > 0 {
      r' := r'.(w := r'.w - d);
    }
    d := (y' + r'.h) - (to.y + to.h);
    if d > 0 {
      r' := r'.(h := r'.h - d);
    }
  }

  /** An integer point (`Point::new(x, y)`), used for the rotated corners of `rotate_scaled`. */
  datatype Point = Point(x: int, y: int)

  /** The four words of xorshift128 state. */
  datatype XorState = XorState(x: bv32, y: bv32, z: bv32, w: bv32)

  /** The state `RandState::new(seed)` builds. */
  function Seeded(seed: bv32): XorState
  {
    XorState((seed & 0xff00_0000) | 1, seed & 0xff_0000, seed & 0xff00, seed & 0xff)
  }

  /** One xorshift128 step: the words move down and a new `w` is mixed in. */
  function Next(s: XorState): XorState
  {
    var t := s.x ^ (s.x << 11);
    XorState(s.y, s.z, s.w, s.w ^ (s.w >> 19) ^ t ^ (t >> 8))
  }

  /** `t ^ (t >> 8)` is zero only for `t == 0`. */
  lemma RightMixZero(t: bv32)
    ensures t ^ (t >> 8) == 0 ==> t == 0
  {
  }

  /** `x ^ (x << 11)` is zero only for `x == 0`. */
  lemma LeftMixZero(x: bv32)
    ensures x ^ (x << 11) == 0 ==> x == 0
  {
  }

  predicate NonZero(s: XorState)
  {
    s != XorState(0, 0, 0, 0)
  }

  /** A seeded state is never all zero and the seed can be read back from it. */
  lemma SeededState(seed: bv32)
    ensures Seeded(seed).x & 1 == 1 && NonZero(Seeded(seed))
    ensures var s := Seeded(seed); (s.x & 0xff00_0000) | s.y | s.z | s.w == seed
  {
  }

  /**
   * A step never reaches the all-zero state (a fixed point of `Next`)
   * from a non-zero one, so a seeded generator never gets stuck at zero.
   */
  lemma NextNonZero(s: XorState)
    requires NonZero(s)
    ensures NonZero(Next(s))
  {
  }

  /** `RandState`: the xorshift128 generator; its four words are updated in place. */
  class RandState {
    var x: bv32
    var y: bv32
    var z: bv32
    var w: bv32

    function State(): XorState
      reads this
    {
      XorState(x, y, z, w)
    }

    ghost predicate Valid()
      reads this
    {
      NonZero(State())
    }

    /** `RandState::new(seed)`: one seed byte per word and the low bit of `x` set. */
    constructor (seed: bv32)
      ensures State() == Seeded(seed)
      ensures Valid()
    {
      x := (seed & 0xff00_0000) | 1;
      y := seed & 0xff_0000;
      z := seed & 0xff00;
      w := seed & 0xff;
      SeededState(seed);
    }

    /** `rand`: `x <- y`, `y <- z`, `z <- w`, a new `w` mixed from the old `x` and `w`, which is returned. */
    method Rand() returns (r: bv32)
      requires Valid()
      modifies this
      ensures Valid()
      ensures State() == Next(old(State()))
      ensures x == old(y) && y == old(z) && z == old(w) && r == w
    {
      var s := State();
      NextNonZero(s);
      var mixed := Next(s).w;
      x, y, z, w := y, z, w, mixed;
      r := w;
    }
  }
}
