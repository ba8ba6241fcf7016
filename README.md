# sera-rs integer compositing core in Dafny

sera-rs is a small software rasteriser. A `Buffer` holds a width, a
height, a row-major array of 32-bit `Pixel`s, a clip rectangle and a
`DrawMode`. The draw mode is a tint colour, a global alpha and one of
nine blend modes.

This project models the integer part of the library:

- the pixel layout of src/sera.h;
- the helper macros of src/lib.rs and src/macros.rs;
- rectangle clipping and the xorshift generator of src/util.rs;
- `blend_pixel`, the per-pixel compositor, in src/util.rs;
- the raw copies `copy::basic` and `copy::scaled`;
- the blended draws `draw::basic`, `draw::scaled` and `draw::scan_line`;
- the integer skeleton of `draw::rotate_scaled`.

Modules, one per file:

| file | module | contents |
|---|---|---|
| lib.dfy | `Lib` | byte and word types, the 12-bit fixed-point constants and floor, `min!`, `max!`, `clamp!`, `lerp!` and `swap!` |
| sera.dfy | `Sera` | `Pixel` and its packed word in all four channel orders, `Rect`, `BlendMode`, `DrawMode`, and the `Buffer` class over a flat `array<Pixel>` |
| macros.dfy | `Macros` | the wrapping `lerp!` of src/macros.rs |
| util.dfy | `Util` | `xdiv_i32`, `clip_rect`, `clip_rect_offset`, `Point`, and `RandState` as a class |
| blend.dfy | `Blend` | `blend_pixel` and each of its blend-mode formulas |
| copy.dfy | `Copy` | `copy::basic` and `copy::scaled` as methods over buffers |
| draw.dfy | `Draw` | `draw::basic`, `draw::scaled` and `draw::scan_line` as methods over buffers |
| rotate.dfy | `Rotate` | the corner labelling, source start, mirroring and edge stepping of `rotate_scaled`, and its row loop |

The source's arithmetic is written out explicitly:

- Rust's truncating `/` is modelled as written.
- The arithmetic shift `>> 12` is `FxFloor`, floor division by 4096.
- `(-q + k) & 3` is the non-negative remainder modulo 4.
- `u8` overflow wraps, as in a release build.

`DIV8_TABLE` is a parameter of type `(Byte, Byte) -> Byte`. The draw
methods take the per-pixel compositor as a parameter `blend`; src/draw.rs
always passes `Draw.BlendWith(b.mode, div8)`, which is `blend_pixel`.

The engine methods follow the code as written, including the defects
listed under "## Findings". Each finding also has a corrected definition,
with the intended property proved about it. `Blend.BlendPixelIntended`
gathers the corrected mode formulas and the corrected destination weight
into one compositor. Any draw method can be given that compositor in place
of `BlendWith`.

In places the code departs from what its mode names and formulas
evidently intend, and the model follows the code each time:

- SUBTRACT does not clamp `d - s` at 0.
- LIGHTEN and DARKEN compare wrapped `u8` sums.
- `Pixel::color` sets alpha to 0, not 255.

## Model

| member | source | states |
|---|---|---|
| Lib.FxConstants | src/lib.rs:47-49 | `FX_UNIT` is `1 << FX_BITS` = 4096 and `FX_MASK` is `FX_UNIT - 1` |
| Lib.FxFloor | src/draw.rs:128-129 | `v >> 12` on a signed integer is the floor of `v / 4096`: `r * 4096 <= v < r * 4096 + 4096` |
| Lib.FxFloorBelow | src/copy.rs:65-66 | a fixed-point position in `[0, n * 4096)` has its integer part in `[0, n)` |
| Lib.Min | src/lib.rs:2-6 | `min!` is at most both operands and is one of them |
| Lib.Max | src/lib.rs:9-13 | `max!` is at least both operands and is one of them |
| Lib.Clamp | src/lib.rs:16-20 | `clamp!(x, a, b)` lies in `[a, b]` when `a <= b`, is `x` when `x` is already inside, `a` when `x < a`, `b` when `a <= b < x`, and `a` when `b < a` |
| Lib.LerpEnds | src/lib.rs:23-27 | `lerp!` gives `a` at weight 0 and `b` at weight `1 << bits` |
| Lib.LerpBetween | src/lib.rs:23-27 | for weights in `[0, 1 << bits]` the result of `lerp!` lies between `a` and `b` |
| Lib.Swap | src/lib.rs:30-38 | `swap!` exchanges the two elements and leaves every other element unchanged |
| Sera.UnpackPack | src/sera.h:25-28 | reading the channels back out of the packed word gives the channels stored, in every channel order |
| Sera.PackUnpack | src/sera.h:25-28 | every 32-bit word is the packing of its channel view: the two views of the union agree |
| Sera.PackInjective | src/sera.h:11-28 | two pixels have equal words if and only if they have equal channels |
| Sera.RgbMaskIsWhiteWithoutAlpha | src/sera.h:11-23 | a pixel's word equals `SR_RGB_MASK` if and only if the pixel is white with alpha 0 |
| Sera.PixelOf | src/lib.rs:108-110 | `Pixel::pixel` stores the four channels as given; in the default BGRA order its word has `b` in the lowest byte, then `g`, `r` and `a`; the channels round-trip through the word |
| Sera.ColorOf | src/lib.rs:112-114 | `Pixel::color` has alpha 0, and its word is the word of `Pixel::pixel(r, g, b, a)` masked with the RGB mask, for every `a` |
| Sera.IdxInBounds | src/draw.rs:158 | the flat index `x + y * w` of an in-bounds pixel lies in `[0, w * h)` |
| Sera.IdxInjective | src/draw.rs:158 | two in-row coordinate pairs with the same flat index are the same pair |
| Sera.Buffer.constructor | src/lib.rs:91-97 | a `w` by `h` buffer of `w * h` zero pixels whose clip rectangle is the whole buffer |
| Sera.Buffer.Set | src/copy.rs:14-15 | storing one pixel changes that pixel and no other |
| Macros.WrappingLerpAtZero | src/macros.rs:1-5 | the wrapping `lerp!` at weight 0 returns `a` |
| Macros.WrappingLerpNoWrap | src/macros.rs:1-5 | when `a <= b` and the product does not overflow 32 bits, the wrapping `lerp!` is the plain `lerp!` reduced modulo 2^32 |
| Macros.WrappingLerpLowByte | src/macros.rs:1-5 | on byte operands, the low byte of the wrapping `lerp!` is the plain `lerp!`, whichever of `a` and `b` is larger |
| Macros.WrappingLerpLowByteBetween | src/macros.rs:1-5 | that low byte lies between `a` and `b` |
| Util.TruncDivRemainder | src/util.rs:4-9 | Rust's `/` on `i32` truncates: the remainder is smaller than the divisor in magnitude and has the sign of the dividend |
| Util.XDivI32 | src/util.rs:4-9 | `xdiv_i32(n, 0)` is `n`; otherwise the result is the truncated quotient, characterised by its remainder |
| Util.ClipRect | src/util.rs:21-30 | the clipped rectangle starts at the larger origins, has non-negative size, and contains a point exactly when both rectangles do |
| Util.ClipRectIdempotent | src/util.rs:21-30 | clipping an already clipped rectangle to the same target changes nothing |
| Util.OffsetClip | src/util.rs:33-67 | the left and top overhangs move the destination to the clip edge and shift the sub-rectangle origin by the same amount; the right and bottom edges end at the smaller of the two far edges |
| Util.OffsetClipFootprint | src/util.rs:33-67 | the clipped destination footprint contains exactly the points of the original footprint that lie inside the target |
| Util.OffsetClipWithinSub | src/util.rs:33-67 | every source pixel the clipped placement reads lies inside the original sub-rectangle |
| Util.OffsetClipInside | src/util.rs:33-67 | a placement already inside the target is left unchanged |
| Util.ClipRectOffset | src/util.rs:33-67 | the four in-place edge adjustments compute `OffsetClip`; the result lies inside the target, and the sub-rectangle and destination origin shift together |
| Util.SeededState | src/util.rs:200-207 | `RandState::new` sets the low bit of `x`, so the state is never all zero, and the state keeps the seed's four bytes |
| Util.NextNonZero | src/util.rs:209-216 | one xorshift step maps a non-zero state to a non-zero state |
| Util.RandState.constructor | src/util.rs:200-207 | the new generator's state is `Seeded(seed)` and is valid |
| Util.RandState.Rand | src/util.rs:209-216 | `rand` shifts `y`, `z` and `w` down into `x`, `y` and `z`, returns the new `w`, keeps the state non-zero, and advances the state by one `Next` step |
| Blend.MulByte | src/util.rs:77-79 | `(u * v) >> 8` on bytes is at most each operand and at most 254 |
| Blend.EffectiveAlpha | src/util.rs:71-74 | the effective alpha is at most 254, and reaches 254 if and only if both the source alpha and the draw alpha are 255 |
| Blend.Tint | src/util.rs:76-80 | tinting keeps the source alpha and never brightens a channel; the colour `RGB_MASK` leaves the source unchanged |
| Blend.TintOpaqueWhiteDarkens | src/util.rs:76-80 | white with a non-zero alpha is not `RGB_MASK` and so darkens every non-zero channel by one |
| Blend.AddChannel | src/util.rs:85-89 | ADD is the byte sum, saturating at 255, and is at least both operands |
| Blend.SubtractChannel | src/util.rs:90-94 | SUBTRACT as written is 0 when `d >= s` and `d - s + 256` when `d < s` |
| Blend.SubtractClamped | src/util.rs:90-94 | SUBTRACT as intended is `d - s` when `d >= s` and 0 otherwise, never above `d` |
| Blend.SubtractAsWrittenDiffers | src/util.rs:90-94 | the written and the intended SUBTRACT agree if and only if `d == s` |
| Blend.SubtractCounterexample | src/util.rs:90-94 | `d = 200`, `s = 100` gives 0 as written and 100 as intended |
| Blend.MultiplyChannel | src/util.rs:95-99 | MULTIPLY is never brighter than either operand |
| Blend.ScreenChannel | src/util.rs:114-118 | SCREEN is never darker than either operand |
| Blend.DifferenceChannel | src/util.rs:119-123 | DIFFERENCE is the distance between the two channels |
| Blend.WrappedSum | src/util.rs:101 | the `u8` sum `r + g + b` is the true sum modulo 256 |
| Blend.LightenPick | src/util.rs:100-106 | LIGHTEN as written returns the source exactly when its wrapped sum is larger, and otherwise the destination |
| Blend.DarkenPick | src/util.rs:107-113 | DARKEN as written returns the source exactly when its wrapped sum is smaller, and otherwise the destination |
| Blend.LightenIntended | src/util.rs:100-106 | LIGHTEN as intended returns the brighter pixel by true sum, one of the two inputs |
| Blend.DarkenIntended | src/util.rs:107-113 | DARKEN as intended returns the darker pixel by true sum, one of the two inputs |
| Blend.LightenDarkenAgreeWithoutWrap | src/util.rs:100-113 | when neither sum reaches 256, the written and the intended LIGHTEN and DARKEN agree |
| Blend.LightenCounterexample | src/util.rs:100-113 | for source (200, 100, 0) over destination (50, 50, 50), LIGHTEN keeps the darker destination and DARKEN picks the brighter source |
| Blend.ApplyMode | src/util.rs:82-124 | ALPHA passes the tinted source through and COLOR gives the draw colour; LIGHTEN and DARKEN return one of the two pixels; the channel-wise modes keep the source alpha |
| Blend.ApplyModeIntended | src/util.rs:82-124 | the mode formulas with SUBTRACT, LIGHTEN and DARKEN corrected; every other mode equals `ApplyMode` |
| Blend.LerpChannel | src/util.rs:128-131 | `lerp!(8u32, d, s, alpha) as u8` is the plain `lerp!` and lies between `d` and `s` |
| Blend.CompositeAlpha | src/util.rs:133 | the composite alpha is SCREEN applied to the two alphas, so it is at least both the destination alpha and the effective alpha |
| Blend.WeightAsWritten | src/util.rs:134 | the destination weight `_z` as written is always 0 |
| Blend.WeightIntended | src/util.rs:134 | the intended destination weight is at most `d.a`, and with the effective alpha it sums to at most 255 |
| Blend.WeightCounterexample | src/util.rs:134 | `d.a = 128`, `alpha = 2` gives weight 0 as written and 126 as intended |
| Blend.TableRow | src/util.rs:135-143 | the `DIV8_TABLE` row index stays at most 254 whenever the two weights sum to at most 255 |
| Blend.Composite | src/util.rs:132-144 | the composite alpha is at least the destination alpha, and each colour channel is the table entry at (row, new alpha) |
| Blend.CompositeAsWrittenIgnoresDest | src/util.rs:132-144 | with the weight as written, the composite ignores the destination's colour channels |
| Blend.CompositeIntendedReadsDest | src/util.rs:132-144 | with the intended weight, a white and a black destination give different table rows |
| Blend.BlendPixel | src/util.rs:69-148 | effective alpha at most 1 leaves `*d` unchanged; alpha 254 writes the blended source; an opaque destination keeps its alpha and takes the per-channel `lerp!`; otherwise the composite with `_z` as written |
| Blend.BlendPixelIntended | src/util.rs:69-148 | the same regimes with the corrected mode formulas and the corrected destination weight in the composite |
| Blend.BlendPixelIntendedAgrees | src/util.rs:69-148 | outside SUBTRACT, LIGHTEN, DARKEN and the composite regime, the corrected and the written `blend_pixel` agree |
| Blend.TransparentSourceIsNoOp | src/util.rs:71-74 | a source alpha of 0 or a draw alpha of 0 leaves the destination unchanged |
| Blend.OpaqueAlphaDrawCopies | src/util.rs:126-127 | the default draw mode with an opaque source copies the source exactly |
| Copy.Basic | src/copy.rs:4-18 | every destination pixel in the clipped footprint takes the source pixel at the same offset inside `sub`; every other pixel is unchanged |
| Copy.CopyRow | src/copy.rs:12-17 | one row of the copy: `n` source pixels are stored in order, and nothing else changes |
| Copy.ScaledClipOf | src/copy.rs:34-53 | the left and top clips move the origin to the clip edge and shift the source; all four clips bound the size by the clip rectangle |
| Copy.ScaledClipFootprint | src/copy.rs:34-57 | the pixels `copy::scaled` writes are exactly the scaled footprint inside the clip rectangle |
| Copy.ScaledSourceRowInSub | src/copy.rs:59-68 | while the row position stays within the height of `sub`, the source row read lies inside `sub` |
| Copy.ScaledColumnIgnoresSubX | src/copy.rs:65 | for `sub.x` below 4096, the column read does not depend on `sub.x` |
| Copy.ScaledColumnCounterexample | src/copy.rs:65 | `sub = (5, 0, 1, 1)` at scale 1 reads column 0, which lies outside `sub` |
| Copy.ScaledColumnIntendedInSub | src/copy.rs:65 | the intended column lies inside `sub` while the column position stays within its width |
| Copy.ScaledColumnAgreesOnlyAtZero | src/copy.rs:65 | for non-negative `sub.x`, the written column equals the intended one if and only if `sub.x == 0` |
| Copy.Scaled | src/copy.rs:20-73 | every pixel of the clipped scaled footprint takes the source pixel at `ScaledSourceIndex`; every other pixel is unchanged |
| Copy.ClipScaled | src/copy.rs:34-53 | the four in-place clip steps compute `ScaledClipOf` |
| Copy.ScaledRow | src/copy.rs:59-71 | one destination row takes its stepped source samples, and nothing else changes |
| Draw.Basic | src/draw.rs:4-24 | every destination pixel in the clipped footprint becomes `blend(old, source at the same offset in sub)`; every other pixel is unchanged |
| Draw.BlendRect | src/draw.rs:12-23 | the two loops blend exactly the given rectangle |
| Draw.BlendRow | src/draw.rs:13-22 | the inner loop blends exactly the `n` pixels of one row in place |
| Draw.FloorStepMonotone | src/draw.rs:127-164 | the integer part of a linearly stepped fixed-point position is monotone in the column |
| Draw.SampleInSubBetween | src/draw.rs:127-164 | if the samples at two columns lie inside `sub`, so does every sample between them, so checking both span ends is enough |
| Draw.WalkLeft | src/draw.rs:127-140 | the left walk skips only columns that sample outside `sub`, keeps the source position of the new left column, and stops on an inside sample or at `right` |
| Draw.WalkRight | src/draw.rs:141-152 | the right walk skips only columns that sample outside `sub`, and stops on an inside sample or at `left` |
| Draw.DrawSpan | src/draw.rs:154-164 | given inside samples at both ends, every column of the span samples inside `sub`, is blended with its sample, and nothing else changes |
| Draw.ClipScan | src/draw.rs:110-123 | horizontal clipping moves `left` and `right` to the clip edges and advances the source position so it is still the sample of the new left column |
| Draw.ScanClipped | src/draw.rs:124-164 | after clipping to `[l, r]`, the drawn columns `[lo, hi)` sample inside `sub`; `lo` is the first column sampling inside `sub`; a non-empty span ends at the last such column `hi`, which samples inside `sub` but is not drawn; every other column of `[l, r]` samples outside `sub`; only row `dy` changes |
| Draw.ScanLine | src/draw.rs:97-165 | the drawn columns lie in row `dy`, inside the clip rectangle and inside `[left, right)`, and each samples inside `sub`; within the clipped columns, the span starts at the first column sampling inside `sub`, and a non-empty span ends at the last such column (tested, not drawn); every clipped column outside `[lo, hi]` samples outside `sub`; each drawn pixel is blended with its sample and nothing else changes |
| Draw.ScaledRegionFootprint | src/draw.rs:52-76 | the loops of `draw::scaled` visit exactly the scaled footprint inside the clip rectangle, and the early return skips only loops that would visit nothing |
| Draw.ClipScaledRegion | src/draw.rs:57-76 | the four in-place clip steps compute `ScaledRegionOf` |
| Draw.ScaledOriginSample | src/draw.rs:33-42 | a negative scale starts sampling at the last source pixel and a positive one at the first |
| Draw.Scaled | src/draw.rs:52-94 | every visited pixel becomes `blend(old, ScaledSample)`; every other pixel is unchanged |
| Draw.ScaledBlendRow | src/draw.rs:78-94 | one row of `draw::scaled` blends its visited pixels, and nothing else changes |
| Rotate.CornerLabels | src/draw.rs:207-210 | `(-q + k) & 3` labels four distinct corners, going round them in order from the top corner |
| Rotate.CornerStartInSub | src/draw.rs:228-236 | each corner's start position samples a pixel of a non-empty `sub`, in that corner's row and column |
| Rotate.SourceStartAtTop | src/draw.rs:228-236 | for `0 <= q < 4`, the source start is the corner of `sub` whose image is the top point, where drawing begins |
| Rotate.SourceStartCounterexample | src/draw.rs:228-236 | for `q = 5` the labels make the image of the bottom-left corner the top point, as for `q = 1`, but sampling starts at the top-left corner |
| Rotate.SourceStartIntendedAtTop | src/draw.rs:228-236 | taking `q` modulo 4, as the corner labels do, starts at the corner the labels make the top point, for every quarter turn |
| Rotate.Reflect | src/draw.rs:246-255 | the mirrored position's integer part is the mirror image about the middle of `sub`, and positions inside `sub` stay inside |
| Rotate.ReflectInvolution | src/draw.rs:246-255 | mirroring twice gives the position back |
| Rotate.MirroredStep | src/draw.rs:246-255 | stepping the mirrored start by the negated increment samples the mirror image of the unmirrored step |
| Rotate.MirroredRow | src/draw.rs:246-271 | with a negative horizontal scale, every column of a row samples the mirror image of what the unmirrored row samples |
| Rotate.EdgeSlope | src/draw.rs:219-222 | a flat edge gets its whole width as one step; otherwise the total error over the edge's rows is less than one step's rounding per row |
| Rotate.EdgeArrives | src/draw.rs:272-282 | an edge of at most 4096 rows ends in the column of its lower corner or the one before |
| Rotate.RightAngleStart | src/draw.rs:238-243 | stepping starts a row early only for a flat top edge, and that edge then spans to its corner exactly |
| Rotate.LeftEdgeSteps | src/draw.rs:272-282 | above the left corner, the left edge and the source position move by their initial steps each row; on the corner's row they turn |
| Rotate.RightEdgeSteps | src/draw.rs:272-285 | above the right corner, the right edge moves by its initial slope each row; on the corner's row it turns towards the bottom |
| Rotate.LeftCornerReached | src/draw.rs:219-282 | without a flat top edge, the left edge reaches the left corner's column or the one before |
| Rotate.RightCornerReached | src/draw.rs:219-285 | the same for the right edge and the right corner |
| Rotate.RotateScaled | src/draw.rs:167-287 | a drawing wholly off the clip rectangle changes nothing; otherwise every pixel keeps its value or is `Drawn`: a pixel in a stepped row, inside the clip, between its row's edges, blended with a sample inside `sub` |
| Rotate.RotateRow | src/draw.rs:244-286 | one loop iteration draws its row through `scan_line` and leaves the edge state `EdgesAt` the next row |
| Rotate.DrawRow | src/draw.rs:257-271 | the row's `scan_line` call with the mirrored transform: only `Drawn` pixels of that row change |

## Left out

- Floating-point set-up is left out. The code computes the scaled sizes, the 12-bit steps (`inx`, `iny`, `ix`, `iy`, `sxi`, `syi`, `sxoi`, `syoi`), the clip shifts `_d / scale`, the rotated corner points and `q` with `f32` arithmetic and trigonometry. All of these are integer inputs here, and `xdiv_f32` is not modelled.
- `scan_line` receives its integers through a `Transform` of `f32` fields. Precision lost above 2^24 in that round trip is not modelled. src/lib.rs declares `Transform` with no `new`. Its five arguments are read in the field order `ox`, `oy`, `r`, `sx`, `sy`, so `left` is `ox`, `right` is `oy`, and the source position is `sx`, `sy`.
- The contents of `DIV8_TABLE` and its lazy initialisation are not modelled. The table is an arbitrary function of its two indices, so the composite is stated up to the table.
- Integer widths are not modelled. Coordinates and fixed-point positions are unbounded integers, so `i32` overflow of `<< 12` and of the stepping is not captured, and neither are debug-build overflow panics. `u8` wrap-around is modelled wherever the code relies on it.
- `tu32!` is the `Byte` to `U32` subtype inclusion and needs no member.
- The xorshift step is shown to keep the state non-zero. Its being a bijection, and its period, are not proved.
- `Util.RandState.Rand` states the returned word and the new state, not statistical properties.
- The `Buffer` API of src/lib.rs is not modelled, because the code gives it no behaviour. `Buffer::new` has a body that is only a comment, and the rest of the API exists only as commented-out C prototypes. The `impl_add!`, `impl_sub!`, `impl_mul!`, `impl_div!` and `impl_neg!` macros, the `flags` field, `BUFFER_SHARED` and `PixelFormat` are also left out: nothing in the modelled code uses them.
- `Draw.Basic`, `Draw.Scaled`, `Draw.ScanLine` and `Rotate.RotateScaled` are stated for any per-pixel compositor `blend`. They do not re-derive the properties of `blend_pixel` per pixel; those live in module `Blend`.
- Aliasing between the source and destination buffers is excluded by a precondition. The code takes a `&mut` and a `&` buffer, which cannot alias.
- Copy.Scaled and Draw.Scaled require every source index they read to lie inside `src.pixels`. Where the code's index leaves the pixel array, Rust panics, and the model does not describe that panic.
- Negative rotation angles are not related to the geometry. `(t.r * 4 / PI2) as i32` truncates toward zero, so for a negative angle the labels `(-q + k) & 3` are a quarter turn off. The model follows the labelling as written, and the corrected source start agrees with the labels, not with the rotated corners.
- Rotate.RotateScaled: the guarantee is per pixel "unchanged or `Drawn`". Which columns the boundary walks keep in each row is stated by `Draw.ScanLine`, not restated for the whole rotation.
- Rotate.LeftCornerReached: proved for a left corner at most 4096 rows below the top. Beyond that the rounding error of the slope can exceed one column.
- Rotate.RightCornerReached: likewise proved only for a right corner at most 4096 rows below the top.
- The SDL demo in tests/ is not part of this model.

## Findings

| source | as written | input that shows it | evidently intended | confidence | as-written member | corrected member |
|---|---|---|---|---|---|---|
| src/util.rs:90-94 | SUBTRACT stores `min(0, d - s) as u8`: 0 when `d >= s`, and the wrapped negative difference when `d < s` | `d = 200`, `s = 100` gives 0 | `max(0, d - s)` = 100 | high; not executed | Blend.SubtractCounterexample | Blend.SubtractClamped |
| src/util.rs:100-113 | LIGHTEN and DARKEN compare `u8` sums `r + g + b` that wrap modulo 256 | source (200, 100, 0) sums to 300, which wraps to 44, against destination (50, 50, 50): LIGHTEN keeps the darker destination | compare the true sums | high; not executed | Blend.LightenCounterexample | Blend.LightenIntended |
| src/util.rs:134 | `_z = tu32!(d.a * (255 - alpha)) >> 8` multiplies in `u8`, wraps below 256, and shifts to 0 | `d.a = 128`, `alpha = 2` gives 0 | the product in 32 bits, giving 126 | high; not executed | Blend.WeightCounterexample | Blend.WeightIntended |
| src/copy.rs:65 | the source column is `(sub.x >> 12) + (sx >> 12)`, shifting a whole-pixel `sub.x` as if it were fixed point | `sub = (5, 0, 1, 1)` at scale 1 reads column 0, outside `sub` | `((sub.x << 12) + sx) >> 12`, as for rows | high; not executed | Copy.ScaledColumnCounterexample | Copy.ScaledColumnIntendedInSub |
| src/draw.rs:228-236 | the source start matches on the raw quarter turn `q`, which reaches 4 and above for angles past a full turn, while the corner labels use `q & 3` | when `rotate_scaled` is called directly with an angle past a full turn, e.g. past 450 degrees, `q = 5` labels the bottom-left corner as top but sampling starts at the top-left one | for non-negative angles, match on `q` modulo 4 | medium; not executed | Rotate.SourceStartCounterexample | Rotate.SourceStartIntendedAtTop |
