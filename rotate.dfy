/**
 * The integer skeleton of `rotate_scaled` in src/draw.rs. The rotated
 * corner points and the source increments come out of floating-point
 * trigonometry and are inputs here (a `Rotation`); what is modelled is what
 * the function does with them in integers: it labels the corners by the
 * quarter turn `q`, picks the source start, mirrors the source position
 * for negative scales, steps both destination edges and the source
 * position row by row (switching slopes at the left and right corners),
 * and hands each row to `scan_line`.
 */
module Rotate {
  import opened Lib
  import opened Sera
  import opened Util
  import opened Draw

  /**
   * The index of the corner that gets label `k` (0 top, 1 right, 2 bottom,
   * 3 left) at quarter turn `q`: `(-q + k) & 3`, which on two's-complement
   * integers is the remainder modulo 4 that is never negative.
   */
  function CornerIndex(q: int, k: int): int
  {
    (k - q) % 4
  }

  /**
   * The four labels pick four distinct corners, going round them in order:
   * label `k` is `k` places on from the top corner.
   */
  lemma CornerLabels(q: int)
    ensures {CornerIndex(q, 0), CornerIndex(q, 1), CornerIndex(q, 2), CornerIndex(q, 3)} == {0, 1, 2, 3}
    ensures forall k | 0 <= k < 4 :: CornerIndex(q, k) == (CornerIndex(q, 0) + k) % 4
  {
    var t := CornerIndex(q, 0);
    assert 0 <= t < 4;
    forall k | 0 <= k < 4
      ensures CornerIndex(q, k) == (t + k) % 4
    {
      assert k - q == (0 - q) + k;
    }
    if t == 0 {
      assert CornerIndex(q, 1) == 1 && CornerIndex(q, 2) == 2 && CornerIndex(q, 3) == 3;
    } else if t == 1 {
      assert CornerIndex(q, 1) == 2 && CornerIndex(q, 2) == 3 && CornerIndex(q, 3) == 0;
    } else if t == 2 {
      assert CornerIndex(q, 1) == 3 && CornerIndex(q, 2) == 0 && CornerIndex(q, 3) == 1;
    } else {
      assert CornerIndex(q, 1) == 0 && CornerIndex(q, 2) == 1 && CornerIndex(q, 3) == 2;
    }
  }

  /** The corner of `sub` whose image is `points[i]`: 0 is the origin corner, then round by the width and height. */
  datatype Corner = TopLeft | TopRight | BottomRight | BottomLeft

  function CornerOf(i: int): Corner
    requires 0 <= i < 4
  {
    if i == 0 then TopLeft else if i == 1 then TopRight else if i == 2 then BottomRight else BottomLeft
  }

  /**
   * The 12-bit source position of the first pixel inside corner `c` of
   * `sub`: a left or top edge starts at the edge, a right or bottom edge
   * one fixed-point unit inside it.
   */
  function CornerStart(c: Corner, sub: Rect): (int, int)
  {
    var left, right := sub.x * FxUnit, (sub.x + sub.w) * FxUnit - 1;
    var top, bottom := sub.y * FxUnit, (sub.y + sub.h) * FxUnit - 1;
    match c
    case TopLeft => (left, top)
    case TopRight => (right, top)
    case BottomRight => (right, bottom)
    case BottomLeft => (left, bottom)
  }

  /** Every corner start of a non-empty `sub` samples a pixel of `sub`, in the corner's own row and column. */
  lemma CornerStartInSub(c: Corner, sub: Rect)
    requires sub.w >= 1 && sub.h >= 1
    ensures var st := CornerStart(c, sub);
      FxFloor(st.0) == (if c == TopRight || c == BottomRight then sub.x + sub.w - 1 else sub.x) &&
      FxFloor(st.1) == (if c == BottomRight || c == BottomLeft then sub.y + sub.h - 1 else sub.y) &&
      Contains(sub, FxFloor(st.0), FxFloor(st.1))
  {
    FxFloorShift(sub.x, 0);
    FxFloorShift(sub.y, 0);
    FxFloorShift(sub.x + sub.w, -1);
    FxFloorShift(sub.y + sub.h, -1);
  }

  /**
   * The source start `(sx, sy)` of `rotate_scaled`, as written: a match
   * on the raw quarter turn `q`, with every `q` other than 1, 2 and 3
   * (negative ones and those from 4 up included) starting at the origin
   * corner.
   */
  function SourceStart(q: int, sub: Rect): (int, int)
  {
    match q
    case 1 => CornerStart(BottomLeft, sub)
    case 2 => CornerStart(BottomRight, sub)
    case 3 => CornerStart(TopRight, sub)
    case _ => CornerStart(TopLeft, sub)
  }

  /** For `0 <= q < 4` the start is the corner of `sub` whose image is the top point, where drawing begins. */
  lemma SourceStartAtTop(q: int, sub: Rect)
    requires 0 <= q < 4
    ensures SourceStart(q, sub) == CornerStart(CornerOf(CornerIndex(q, 0)), sub)
  {
    assert CornerIndex(q, 0) == (4 - q) % 4;
  }

  /**
   * For `q = 5` (an angle past 450 degrees, a quarter turn on from a full
   * turn) the labels make the image of the bottom-left corner the top
   * point, as for `q = 1`, but drawing starts at the top-left corner.
   */
  lemma SourceStartCounterexample(sub: Rect)
    requires sub.h >= 1
    ensures CornerOf(CornerIndex(5, 0)) == BottomLeft
    ensures SourceStart(5, sub) != CornerStart(CornerOf(CornerIndex(5, 0)), sub)
  {
    assert CornerIndex(5, 0) == 3;
    assert (sub.y + sub.h) * FxUnit - 1 - sub.y * FxUnit == sub.h * FxUnit - 1;
  }

  /** The source start taken on `q` modulo 4, as the corner labels are. */
  function SourceStartIntended(q: int, sub: Rect): (int, int)
  {
    SourceStart(q % 4, sub)
  }

  /**
   * For every quarter turn the corrected start is the corner of `sub` that
   * the labels make the top point. (For a negative angle, `q` truncated
   * toward zero leaves the labels themselves a quarter turn off.)
   */
  lemma SourceStartIntendedAtTop(q: int, sub: Rect)
    ensures SourceStartIntended(q, sub) == CornerStart(CornerOf(CornerIndex(q, 0)), sub)
  {
    SourceStartAtTop(q % 4, sub);
    assert CornerIndex(q, 0) == CornerIndex(q % 4, 0);
  }

  /**
   * The mirror of a 12-bit source position inside the `n` pixels from
   * `lo`: `((2 * lo + n) << 12) - s - 1`. Its integer part is the mirror
   * image of the integer part of `s` about the middle of `[lo, lo + n)`,
   * so a position inside that range stays inside it.
   */
  function Reflect(lo: int, n: int, s: int): (r: int)
    ensures FxFloor(r) == 2 * lo + n - 1 - FxFloor(s)
    ensures lo <= FxFloor(s) < lo + n ==> lo <= FxFloor(r) < lo + n
  {
    FxFloorShift(2 * lo + n, -s - 1);
    FxFloorNegate(s);
    (2 * lo + n) * FxUnit - s - 1
  }

  /** Mirroring twice gives the position back. */
  lemma ReflectInvolution(lo: int, n: int, s: int)
    ensures Reflect(lo, n, Reflect(lo, n, s)) == s
  {
  }

  /**
   * Stepping the mirrored start by the negated increment samples the
   * mirror image of what stepping the unmirrored start samples: a
   * negatively scaled row is the mirror image of the positive one.
   */
  lemma MirroredStep(lo: int, n: int, s: int, incr: int, k: int)
    ensures FxFloor(Reflect(lo, n, s) + k * -incr) == 2 * lo + n - 1 - FxFloor(s + k * incr)
  {
    assert Reflect(lo, n, s) + k * -incr == Reflect(lo, n, s + k * incr);
  }

  /**
   * The 12-bit slope of the edge from `a` down to `b`:
   * `xdiv_i32((b.x - a.x) << 12, b.y - a.y)`. A flat edge (`b.y == a.y`)
   * gets the whole width as one step; otherwise `b.y - a.y` steps fall
   * short of the edge's width by less than one step's rounding per row.
   */
  function EdgeSlope(a: Point, b: Point): (r: int)
    ensures b.y == a.y ==> a.x * FxUnit + r == b.x * FxUnit
    ensures b.y != a.y ==> Abs((b.x - a.x) * FxUnit - (b.y - a.y) * r) < Abs(b.y - a.y)
  {
    XDivI32((b.x - a.x) * FxUnit, b.y - a.y)
  }

  /**
   * An edge of at most 4096 rows that goes down from `a` to `b` ends, after
   * its `b.y - a.y` steps from `a`, in the column of `b` or the one before.
   */
  lemma EdgeArrives(a: Point, b: Point)
    requires a.y < b.y <= a.y + FxUnit
    ensures var n := b.y - a.y;
      b.x - 1 <= FxFloor(a.x * FxUnit + n * EdgeSlope(a, b)) <= b.x
  {
    var n := b.y - a.y;
    var e := (b.x - a.x) * FxUnit - n * EdgeSlope(a, b);
    assert a.x * FxUnit + n * EdgeSlope(a, b) == b.x * FxUnit + -e;
    FxFloorShift(b.x, -e);
    assert -0x1000 < -e < 0x1000;
  }

  /**
   * The integers `rotate_scaled` computes in floating point: the four
   * rotated corners (`points[0]` the image of the origin corner of `sub`,
   * then round by the width and height), the quarter turn `q`, the signs
   * of the two scales, the per-column source steps `sxi`, `syi`, and the
   * per-row source steps before (`sxoi`, `syoi`) and after
   * (`sxoiLeft`, `syoiLeft`) the left corner.
   */
  datatype Rotation = Rotation(points: seq<Point>, q: int, invX: bool, invY: bool,
                               sxi: int, syi: int, sxoi: int, syoi: int, sxoiLeft: int, syoiLeft: int)

  /** The corner labelled `k`: `points[(-q + k) & 3]`. */
  function Labelled(rot: Rotation, k: int): Point
    requires |rot.points| == 4 && 0 <= k < 4
  {
    rot.points[CornerIndex(rot.q, k)]
  }

  function Top(rot: Rotation): Point requires |rot.points| == 4 { Labelled(rot, 0) }
  function Right(rot: Rotation): Point requires |rot.points| == 4 { Labelled(rot, 1) }
  function Bottom(rot: Rotation): Point requires |rot.points| == 4 { Labelled(rot, 2) }
  function Left(rot: Rotation): Point requires |rot.points| == 4 { Labelled(rot, 3) }

  /** The first row stepped: one above the top corner when an edge from it is flat (a right-angled rotation). */
  function StartRow(rot: Rotation): int
    requires |rot.points| == 4
  {
    if Left(rot).y == Top(rot).y || Right(rot).y == Top(rot).y then Top(rot).y - 1 else Top(rot).y
  }

  /** The whole drawing lies off the clip rectangle: `rotate_scaled` returns before drawing. */
  predicate OffClip(rot: Rotation, clip: Rect)
    requires |rot.points| == 4
  {
    Bottom(rot).y < clip.y || Top(rot).y >= clip.y + clip.h ||
    Right(rot).x < clip.x || Left(rot).x >= clip.x + clip.w
  }

  /**
   * The loop state of `rotate_scaled` at the start of a row: the 12-bit
   * left and right edge columns, their slopes, the source position and its
   * per-row steps.
   */
  datatype Edges = Edges(xl: int, xr: int, il: int, ir: int, sx: int, sy: int, sxoi: int, syoi: int)

  /** The state before the first row: both edges at the top corner, sloping towards the left and right corners. */
  function InitialEdges(rot: Rotation, sub: Rect): Edges
    requires |rot.points| == 4
  {
    var top := Top(rot);
    var st := SourceStart(rot.q, sub);
    Edges(top.x * FxUnit, top.x * FxUnit, EdgeSlope(top, Left(rot)), EdgeSlope(top, Right(rot)),
          st.0, st.1, rot.sxoi, rot.syoi)
  }

  /**
   * One row's step: every position moves by its step, and on reaching
   * row `dy` of the left (right) corner the left (right) edge turns
   * towards the bottom corner; at the left corner the source row steps
   * change too.
   */
  function Advance(rot: Rotation, e: Edges, dy: int): Edges
    requires |rot.points| == 4
  {
    var e1 := e.(xl := e.xl + e.il, xr := e.xr + e.ir, sx := e.sx + e.sxoi, sy := e.sy + e.syoi);
    var e2 := if dy == Left(rot).y
              then e1.(il := EdgeSlope(Left(rot), Bottom(rot)), sxoi := rot.sxoiLeft, syoi := rot.syoiLeft)
              else e1;
    if dy == Right(rot).y then e2.(ir := EdgeSlope(Right(rot), Bottom(rot))) else e2
  }

  /** The loop state at row `StartRow(rot) + n`. */
  function EdgesAt(rot: Rotation, sub: Rect, n: nat): Edges
    requires |rot.points| == 4
  {
    if n == 0 then InitialEdges(rot, sub) else Advance(rot, EdgesAt(rot, sub, n - 1), StartRow(rot) + n)
  }

  /**
   * What a row hands to `scan_line`: the left column `xl >> 12` and the
   * source position and steps, mirrored inside `sub` along an axis whose
   * scale is negative.
   */
  function RowScan(rot: Rotation, sub: Rect, e: Edges): Scan
  {
    Scan(FxFloor(e.xl),
         if rot.invX then Reflect(sub.x, sub.w, e.sx) else e.sx,
         if rot.invY then Reflect(sub.y, sub.h, e.sy) else e.sy,
         if rot.invX then -rot.sxi else rot.sxi,
         if rot.invY then -rot.syi else rot.syi)
  }

  /**
   * With a negative horizontal scale every column of a row samples the
   * mirror image, inside `sub`, of the column the unmirrored row samples.
   */
  lemma MirroredRow(rot: Rotation, sub: Rect, e: Edges, c: int)
    requires rot.invX
    ensures SampleU(RowScan(rot, sub, e), c) ==
            2 * sub.x + sub.w - 1 - SampleU(Scan(FxFloor(e.xl), e.sx, e.sy, rot.sxi, rot.syi), c)
  {
    MirroredStep(sub.x, sub.w, e.sx, rot.sxi, c - FxFloor(e.xl));
  }

  /**
   * The right-angle rule: when the edge from the top to the left (right)
   * corner is flat, stepping starts one row early, so that the row of the
   * top corner already spans to the left (right) corner exactly.
   */
  lemma RightAngleStart(rot: Rotation, sub: Rect)
    requires |rot.points| == 4
    ensures StartRow(rot) + 1 == Top(rot).y ==> Left(rot).y == Top(rot).y || Right(rot).y == Top(rot).y
    ensures Left(rot).y == Top(rot).y ==> EdgesAt(rot, sub, 1).xl == Left(rot).x * FxUnit
    ensures Right(rot).y == Top(rot).y ==> EdgesAt(rot, sub, 1).xr == Right(rot).x * FxUnit
  {
    assert EdgesAt(rot, sub, 1) == Advance(rot, InitialEdges(rot, sub), StartRow(rot) + 1);
  }

  /**
   * Down to the left corner the left edge and the source position move by
   * their initial steps each row; on the left corner's row the left edge
   * and the source steps turn.
   */
  lemma {:induction false} LeftEdgeSteps(rot: Rotation, sub: Rect, k: nat)
    requires |rot.points| == 4 && StartRow(rot) + k <= Left(rot).y
    ensures var e := EdgesAt(rot, sub, k);
      var st := SourceStart(rot.q, sub);
      e.xl == Top(rot).x * FxUnit + k * EdgeSlope(Top(rot), Left(rot)) &&
      e.sx == st.0 + k * rot.sxoi && e.sy == st.1 + k * rot.syoi
    ensures StartRow(rot) + k < Left(rot).y ==>
      EdgesAt(rot, sub, k).il == EdgeSlope(Top(rot), Left(rot)) &&
      EdgesAt(rot, sub, k).sxoi == rot.sxoi && EdgesAt(rot, sub, k).syoi == rot.syoi
    ensures 0 < k && StartRow(rot) + k == Left(rot).y ==>
      EdgesAt(rot, sub, k).il == EdgeSlope(Left(rot), Bottom(rot)) &&
      EdgesAt(rot, sub, k).sxoi == rot.sxoiLeft && EdgesAt(rot, sub, k).syoi == rot.syoiLeft
  {
    if k > 0 {
      LeftEdgeSteps(rot, sub, k - 1);
      var st := SourceStart(rot.q, sub);
      var slope := EdgeSlope(Top(rot), Left(rot));
      assert Top(rot).x * FxUnit + (k - 1) * slope + slope == Top(rot).x * FxUnit + k * slope;
      assert st.0 + (k - 1) * rot.sxoi + rot.sxoi == st.0 + k * rot.sxoi;
      assert st.1 + (k - 1) * rot.syoi + rot.syoi == st.1 + k * rot.syoi;
    }
  }

  /** Down to the right corner the right edge moves by its initial slope each row; there it turns. */
  lemma {:induction false} RightEdgeSteps(rot: Rotation, sub: Rect, k: nat)
    requires |rot.points| == 4 && StartRow(rot) + k <= Right(rot).y
    ensures EdgesAt(rot, sub, k).xr == Top(rot).x * FxUnit + k * EdgeSlope(Top(rot), Right(rot))
    ensures StartRow(rot) + k < Right(rot).y ==> EdgesAt(rot, sub, k).ir == EdgeSlope(Top(rot), Right(rot))
    ensures 0 < k && StartRow(rot) + k == Right(rot).y ==> EdgesAt(rot, sub, k).ir == EdgeSlope(Right(rot), Bottom(rot))
  {
    if k > 0 {
      RightEdgeSteps(rot, sub, k - 1);
      var slope := EdgeSlope(Top(rot), Right(rot));
      assert Top(rot).x * FxUnit + (k - 1) * slope + slope == Top(rot).x * FxUnit + k * slope;
    }
  }

  /**
   * Without a flat top edge, a left corner at most 4096 rows below the top
   * is reached in its own column or the one before.
   */
  lemma LeftCornerReached(rot: Rotation, sub: Rect)
    requires |rot.points| == 4 && StartRow(rot) == Top(rot).y
    requires Top(rot).y < Left(rot).y <= Top(rot).y + FxUnit
    ensures Left(rot).x - 1 <= FxFloor(EdgesAt(rot, sub, Left(rot).y - Top(rot).y).xl) <= Left(rot).x
  {
    LeftEdgeSteps(rot, sub, Left(rot).y - Top(rot).y);
    EdgeArrives(Top(rot), Left(rot));
  }

  /** The same for the right corner. */
  lemma RightCornerReached(rot: Rotation, sub: Rect)
    requires |rot.points| == 4 && StartRow(rot) == Top(rot).y
    requires Top(rot).y < Right(rot).y <= Top(rot).y + FxUnit
    ensures Right(rot).x - 1 <= FxFloor(EdgesAt(rot, sub, Right(rot).y - Top(rot).y).xr) <= Right(rot).x
  {
    RightEdgeSteps(rot, sub, Right(rot).y - Top(rot).y);
    EdgeArrives(Top(rot), Right(rot));
  }

  /**
   * Pixel `(px, py)` is one `rotate_scaled` draws, and `after` is the
   * blend of `before` with its source sample: the row is one the loop
   * steps through, the pixel lies in the clip rectangle and between the
   * row's left and right edges, and its sample lies inside `sub`.
   */
  ghost predicate Drawn(src: Buffer, sub: Rect, rot: Rotation, clip: Rect, px: int, py: int,
                        before: Pixel, after: Pixel, blend: (Pixel, Pixel) -> Pixel)
    reads src, src.pixels
    requires src.Valid() && SubInside(sub, src.w, src.h) && |rot.points| == 4
  {
    && Contains(clip, px, py)
    && StartRow(rot) <= py <= Bottom(rot).y
    && var e := EdgesAt(rot, sub, py - StartRow(rot));
       var sc := RowScan(rot, sub, e);
       && FxFloor(e.xl) <= px < FxFloor(e.xr)
       && SampleInSub(sub, sc, px)
       && after == blend(before, SamplePixel(src, sub, sc, px))
  }

  /**
   * `rotate_scaled(b, src, x, y, sub, t)` with the floating-point results
   * given as `rot`. A drawing wholly off the clip rectangle changes
   * nothing; otherwise every pixel either keeps its value or is `Drawn`:
   * blended with the source sample of its row's scan, at a source
   * position inside `sub`, in a row between the start row and the bottom
   * corner and between that row's edges.
   */
  method RotateScaled(b: Buffer, src: Buffer, sub: Rect, rot: Rotation, blend: (Pixel, Pixel) -> Pixel)
    requires b.Valid() && src.Valid() && b.pixels != src.pixels && SubInside(sub, src.w, src.h)
    requires |rot.points| == 4
    modifies b.pixels
    ensures OffClip(rot, b.clip) ==> forall px, py | 0 <= px < b.w && 0 <= py < b.h :: b.At(px, py) == old(b.At(px, py))
    ensures forall px, py | 0 <= px < b.w && 0 <= py < b.h ::
      b.At(px, py) == old(b.At(px, py)) ||
      Drawn(src, sub, rot, b.clip, px, py, old(b.At(px, py)), b.At(px, py), blend)
  {
    var top, right, bottom, left := Top(rot), Right(rot), Bottom(rot), Left(rot);
    if bottom.y < b.clip.y || top.y >= b.clip.y + b.clip.h {
      return;
    }
    if right.x < b.clip.x || left.x >= b.clip.x + b.clip.w {
      return;
    }
    var xr := top.x * FxUnit;
    var xl := xr;
    var il := EdgeSlope(top, left);
    var ir := EdgeSlope(top, right);
    var start := SourceStart(rot.q, sub);
    var e := Edges(xl, xr, il, ir, start.0, start.1, rot.sxoi, rot.syoi);
    var dy := if left.y == top.y || right.y == top.y then top.y - 1 else top.y;
    while dy <= bottom.y
      invariant StartRow(rot) <= dy
      invariant e == EdgesAt(rot, sub, dy - StartRow(rot))
      invariant forall px, py | 0 <= px < b.w && 0 <= py < b.h ::
        if py < dy
        then b.At(px, py) == old(b.At(px, py)) ||
             Drawn(src, sub, rot, b.clip, px, py, old(b.At(px, py)), b.At(px, py), blend)
        else b.At(px, py) == old(b.At(px, py))
      decreases bottom.y - dy
    {
      e := RotateRow(b, src, sub, rot, dy, e, blend);
      dy := dy + 1;
    }
  }

  /**
   * One pass of the `rotate_scaled` loop on row `dy` with loop state `e`:
   * mirror the source position and steps along each negatively scaled
   * axis, draw the row with `scan_line`, then step every position and
   * turn the edges at the corners. The new state is the next row's.
   */
  method RotateRow(b: Buffer, src: Buffer, sub: Rect, rot: Rotation, dy: int, e: Edges,
                   blend: (Pixel, Pixel) -> Pixel)
    returns (e': Edges)
    requires b.Valid() && src.Valid() && b.pixels != src.pixels && SubInside(sub, src.w, src.h)
    requires |rot.points| == 4 && StartRow(rot) <= dy <= Bottom(rot).y
    requires e == EdgesAt(rot, sub, dy - StartRow(rot))
    modifies b.pixels
    ensures e' == EdgesAt(rot, sub, dy + 1 - StartRow(rot))
    ensures forall px, py | 0 <= px < b.w && 0 <= py < b.h && py != dy :: b.At(px, py) == old(b.At(px, py))
    ensures forall px | 0 <= px < b.w && 0 <= dy < b.h ::
      b.At(px, dy) == old(b.At(px, dy)) ||
      Drawn(src, sub, rot, b.clip, px, dy, old(b.At(px, dy)), b.At(px, dy), blend)
  {
    var xl, xr, il, ir, sx, sy, sxoi, syoi := e.xl, e.xr, e.il, e.ir, e.sx, e.sy, e.sxoi, e.syoi;
    var tsx := if rot.invX then Reflect(sub.x, sub.w, sx) else sx;
    var tsxi := if rot.invX then -rot.sxi else rot.sxi;
    var tsy := if rot.invY then Reflect(sub.y, sub.h, sy) else sy;
    var tsyi := if rot.invY then -rot.syi else rot.syi;
    DrawRow(b, src, sub, rot, dy, e, tsx, tsy, tsxi, tsyi, blend);
    sx := sx + sxoi;
    sy := sy + syoi;
    xl := xl + il;
    xr := xr + ir;
    var dy' := dy + 1;
    if dy' == Left(rot).y {
      il := EdgeSlope(Left(rot), Bottom(rot));
      sxoi := rot.sxoiLeft;
      syoi := rot.syoiLeft;
    }
    if dy' == Right(rot).y {
      ir := EdgeSlope(Right(rot), Bottom(rot));
    }
    e' := Edges(xl, xr, il, ir, sx, sy, sxoi, syoi);
  }

  /**
   * One iteration's `scan_line` call, on row `dy` whose loop state is `e`
   * and whose (possibly mirrored) source position and steps are `tsx`,
   * `tsy`, `tsxi`, `tsyi`: the rows above keep what the loop drew, row
   * `dy` gets its `Drawn` pixels, and the rows below stay untouched.
   */
  method DrawRow(b: Buffer, src: Buffer, sub: Rect, rot: Rotation, dy: int, e: Edges,
                 tsx: int, tsy: int, tsxi: int, tsyi: int, blend: (Pixel, Pixel) -> Pixel)
    requires b.Valid() && src.Valid() && b.pixels != src.pixels && SubInside(sub, src.w, src.h)
    requires |rot.points| == 4 && StartRow(rot) <= dy <= Bottom(rot).y
    requires e == EdgesAt(rot, sub, dy - StartRow(rot))
    requires Scan(FxFloor(e.xl), tsx, tsy, tsxi, tsyi) == RowScan(rot, sub, e)
    modifies b.pixels
    ensures forall px, py | 0 <= px < b.w && 0 <= py < b.h && py != dy :: b.At(px, py) == old(b.At(px, py))
    ensures forall px | 0 <= px < b.w && 0 <= dy < b.h ::
      b.At(px, dy) == old(b.At(px, dy)) ||
      Drawn(src, sub, rot, b.clip, px, dy, old(b.At(px, dy)), b.At(px, dy), blend)
  {
    var lo, hi := ScanLine(b, src, sub, dy, FxFloor(e.xl), FxFloor(e.xr), tsx, tsy, tsxi, tsyi, blend);
  }
}
