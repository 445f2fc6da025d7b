# zoomimage subsampling core, modelled in Dafny

This project models the integer core of zoomimage's subsampling and zoom support:

- how `initializeTileMap` splits an image into tile grids, one grid per power-of-two
  sample size;
- how `findSampleSize` picks the sample size for a zoom scale;
- the `TileDecoder` pool of decode helpers, and what happens when it is closed;
- the `SubsamplingEngine` state machine. It owns the decoder and the tile manager,
  and it publishes `ready`, the tile lists, the sample size, the load rect and the
  tile grid size map;
- the quarter-turn rotations of points, sizes and rects in `IntOffsetCompat`,
  `IntSizeCompat` and both `ViewZoomUtils` files;
- `ReadMode.accept`;
- the scale-type conversions.

Each Kotlin source file is one Dafny module:

| module | file |
|---|---|
| `KotlinInt` | `kotlin_int.dfy`: Kotlin's truncating `/` and `%`, ceiling division on integers, powers of two |
| `Wrappers`, `Geometry`, `ScaleTypes` | shared `Option`/`Result`, sizes, offsets, rects, `ImageView.ScaleType` |
| `IntSizes`, `IntOffsets` | `IntSizeCompat.kt`, `IntOffsetCompat.kt` |
| `ViewZoomUtils`, `InternalZoomUtils`, `ViewConvertUtils` | the view zoom utilities |
| `ReadModes` | `ReadMode.kt` |
| `TileUtils` | `TileUtils.kt` |
| `TileDecoders` | `TileDecoder.kt` |
| `SubsamplingEngine` | `SubsamplingEngine.kt` |

A Kotlin `require`, `check` or arithmetic exception becomes `Result.Failure` carrying the exception's message, with string templates filled in through a model of `Int.toString()`.

Mutable Kotlin objects become immutable datatypes, and each operation returns the new state. `TileDecoder.decode` is split into a begin event and an end event, so that a `close` between them can be stated. The engine's asynchronous decoder creation is split the same way: `ResetTileDecoder` launches the job and `DecoderCreated` completes it.

## Model

| member | source | states |
|---|---|---|
| KotlinInt.CeilDiv | zoomimage-view/src/main/java/com/github/panpf/zoomimage/internal/TileUtils.kt:36-37 | `ceil(a / b)` is the least `c` with `c * b >= a`: `(c - 1) * b < a` for positive `a`, and it is at least 1 for positive `a` |
| KotlinInt.ReverseQuarterTurn | zoomimage-core/src/main/java/com/github/panpf/zoomimage/util/IntOffsetCompat.kt:180 | `360 - rotation % 360` undoes a non-negative multiple of 90: a quarter turn by three quarters, a half turn by a half turn, no turn by a full turn |
| KotlinInt.ReverseTurnMultiple | zoomimage-core/src/main/java/com/github/panpf/zoomimage/util/IntOffsetCompat.kt:180 | the reverse rotation is a multiple of 90 exactly when the rotation is, for every sign |
| KotlinInt.NatToString | zoomimage-core/src/main/java/com/github/panpf/zoomimage/util/IntOffsetCompat.kt:169 | `Int.toString()` of a non-negative number: one or more decimal digits, with no leading zero |
| KotlinInt.IntToString | zoomimage-view/src/main/java/com/github/panpf/zoomimage/internal/TileUtils.kt:84 | a leading minus sign exactly for a negative number |
| KotlinInt.NatToStringRoundTrip | zoomimage-core/src/main/java/com/github/panpf/zoomimage/util/IntOffsetCompat.kt:169 | reading the digits back gives the number |
| KotlinInt.IntToStringInjective | zoomimage-view/src/main/java/com/github/panpf/zoomimage/internal/TileUtils.kt:84 | different numbers print differently |
| IntSizes.IsEmpty | zoomimage-core/src/main/java/com/github/panpf/zoomimage/util/IntSizeCompat.kt:88-90 | `isEmpty` is exactly the negation of `isNotEmpty` |
| IntSizes.Times | zoomimage-core/src/main/java/com/github/panpf/zoomimage/util/IntSizeCompat.kt:43-44 | scaling by 1 keeps the size and scaling by 0 empties it |
| IntSizes.DivBy | zoomimage-core/src/main/java/com/github/panpf/zoomimage/util/IntSizeCompat.kt:49-50 | fails with "/ by zero" exactly for a zero divisor; otherwise each side is divided with truncation toward zero: the remainder is smaller than the divisor and has the dividend's sign |
| IntSizes.IntTimes | zoomimage-core/src/main/java/com/github/panpf/zoomimage/util/IntSizeCompat.kt:66 | `n * size` multiplies each side by `n` |
| IntSizes.TimesThenDivRoundTrip | zoomimage-core/src/main/java/com/github/panpf/zoomimage/util/IntSizeCompat.kt:43-50 | `n * size == size * n`, and dividing by the same non-zero `n` gives the size back |
| IntSizes.Center | zoomimage-core/src/main/java/com/github/panpf/zoomimage/util/IntSizeCompat.kt:79-80 | the center is half of each side, within one pixel, never beyond the side, and non-negative for a non-negative size |
| IntSizes.Copy | zoomimage-core/src/main/java/com/github/panpf/zoomimage/util/IntSizeCompat.kt:159-160 | a given argument replaces its side and an absent one keeps it |
| IntSizes.CopyDefaultsIsIdentity | zoomimage-core/src/main/java/com/github/panpf/zoomimage/util/IntSizeCompat.kt:159-160 | `copy()` and `copy(component1(), component2())` give the same size |
| IntSizes.ToIntOffset | zoomimage-core/src/main/java/com/github/panpf/zoomimage/util/IntSizeCompat.kt:120 | the width becomes `x` and the height becomes `y` |
| IntSizes.Rotate | zoomimage-core/src/main/java/com/github/panpf/zoomimage/util/IntSizeCompat.kt:122-124 | the sides swap exactly when `rotation % 180 != 0`, and emptiness is kept |
| IntSizes.RotateTwiceIsIdentity | zoomimage-core/src/main/java/com/github/panpf/zoomimage/util/IntSizeCompat.kt:122-124 | rotating twice by the same angle gives the size back |
| IntSizes.ZeroIsEmpty | zoomimage-core/src/main/java/com/github/panpf/zoomimage/util/IntSizeCompat.kt:58 | `Zero` is empty and not non-empty |
| IntOffsets.OffsetArithmeticInverses | zoomimage-core/src/main/java/com/github/panpf/zoomimage/util/IntOffsetCompat.kt:48-60 | `minus` undoes `plus` and the other way round; negation is an involution, and `a - b == a + (-b)` |
| IntOffsets.RemBy | zoomimage-core/src/main/java/com/github/panpf/zoomimage/util/IntOffsetCompat.kt:93 | fails with "/ by zero" exactly for a zero divisor; otherwise each coordinate's remainder is smaller than the divisor, has the coordinate's sign, and completes a truncating division |
| IntOffsets.RemKeepsDividendSign | zoomimage-core/src/main/java/com/github/panpf/zoomimage/util/IntOffsetCompat.kt:93 | `(-7, 7) % 4 == (-3, 3)`: the remainder is Kotlin's, not the Euclidean one |
| IntOffsets.Copy | zoomimage-core/src/main/java/com/github/panpf/zoomimage/util/IntOffsetCompat.kt:43 | a given argument replaces its coordinate and an absent one keeps it |
| IntOffsets.ToIntSize | zoomimage-core/src/main/java/com/github/panpf/zoomimage/util/IntOffsetCompat.kt:166 | `toIntSize` is inverted by `toIntOffset` |
| IntOffsets.CopyAndConversionRoundTrip | zoomimage-core/src/main/java/com/github/panpf/zoomimage/util/IntOffsetCompat.kt:166 | `toIntSize` and `toIntOffset` are mutually inverse, and `copy()` keeps the offset |
| IntOffsets.RotationMessageNamesAngle | zoomimage-core/src/main/java/com/github/panpf/zoomimage/util/IntOffsetCompat.kt:169 | the `require` message tells different rotations apart |
| IntOffsets.RotateInSpace | zoomimage-core/src/main/java/com/github/panpf/zoomimage/util/IntOffsetCompat.kt:168-176 | fails exactly when the rotation is not a multiple of 90, with a message naming the rotation; for a non-negative rotation, a point inside the space lands inside the rotated space |
| IntOffsets.RotateInSpaceCases | zoomimage-core/src/main/java/com/github/panpf/zoomimage/util/IntOffsetCompat.kt:170-175 | the mapping for each remainder 90, 180 and 270; a negative rotation such as -90 leaves the point where it is |
| IntOffsets.ReverseRotateInSpace | zoomimage-core/src/main/java/com/github/panpf/zoomimage/util/IntOffsetCompat.kt:178-182 | fails exactly when the rotation is not a multiple of 90; the message names the reverse angle `360 - rotation % 360` it passed to `rotateInSpace` |
| IntOffsets.ReverseRotateUndoesRotate | zoomimage-core/src/main/java/com/github/panpf/zoomimage/util/IntOffsetCompat.kt:168-182 | for a non-negative multiple of 90, rotating then reverse-rotating gives the point back |
| IntOffsets.ReverseRotateUndoesTurn | zoomimage-core/src/main/java/com/github/panpf/zoomimage/util/IntOffsetCompat.kt:168-182 | the same round trip for each of the four turns |
| IntOffsets.HalfTurnTwiceIsIdentity | zoomimage-core/src/main/java/com/github/panpf/zoomimage/util/IntOffsetCompat.kt:172 | two half turns in the same space give the point back |
| ViewZoomUtils.ReverseRotated | zoomimage-view/src/main/java/com/github/panpf/zoomimage/view/zoom/internal/ViewZoomUtils.kt:44-77 | a well-formed rect stays well-formed; quarter turns swap width and height, and other angles keep both |
| ViewZoomUtils.ReverseRotateRect | zoomimage-view/src/main/java/com/github/panpf/zoomimage/view/zoom/internal/ViewZoomUtils.kt:40-78 | replaying the in-place edge assignments fails exactly for non-multiples of 90 and otherwise yields the edge-by-edge rect |
| ViewZoomUtils.HalfTurnTwiceRestoresRect | zoomimage-view/src/main/java/com/github/panpf/zoomimage/view/zoom/internal/ViewZoomUtils.kt:55-66 | undoing a half turn twice gives the rect back |
| ViewZoomUtils.QuarterTurnsUndoEachOther | zoomimage-view/src/main/java/com/github/panpf/zoomimage/view/zoom/internal/ViewZoomUtils.kt:45-76 | the 90 and 270 cases undo each other when the second drawable is the first one turned a quarter |
| ViewZoomUtils.OtherMultiplesLeaveRect | zoomimage-view/src/main/java/com/github/panpf/zoomimage/view/zoom/internal/ViewZoomUtils.kt:44-77 | angles other than 90, 180 and 270 (0, 360, -90, ...) leave the rect unchanged |
| ViewZoomUtils.RotateInContainer | zoomimage-view/src/main/java/com/github/panpf/zoomimage/view/zoom/internal/ViewZoomUtils.kt:80-109 | fails exactly for non-multiples of 90; any angle other than 90, 180 and 270 keeps the point |
| ViewZoomUtils.RotateInContainerMatchesRotateInSpace | zoomimage-view/src/main/java/com/github/panpf/zoomimage/view/zoom/internal/ViewZoomUtils.kt:85-108 | within one turn it agrees with `rotateInSpace`; at 450 it keeps the point, while `rotateInSpace` turns it |
| ViewZoomUtils.ToScaleMode | zoomimage-view/src/main/java/com/github/panpf/zoomimage/view/zoom/internal/ViewZoomUtils.kt:190-200 | which scale types give each scale mode, in both directions |
| ViewZoomUtils.SupportReadMode | zoomimage-view/src/main/java/com/github/panpf/zoomimage/view/zoom/internal/ViewZoomUtils.kt:175 | read mode is supported exactly when the scale mode is not `FILL_BOUNDS` |
| ViewZoomUtils.ScaleModeAgreesWithContentScale | zoomimage-view/src/main/java/com/github/panpf/zoomimage/view/zoom/internal/ViewZoomUtils.kt:190-200 | `toScaleMode` and `toContentScale` classify every scale type alike; read mode is supported exactly when the content scale is not `FillBounds` |
| ViewConvertUtils.ToContentScale | zoomimage-view/src/main/java/com/github/panpf/zoomimage/view/internal/ViewConvertUtils.kt:7-18 | which scale types give each content scale, in both directions |
| ViewConvertUtils.ToAlignment | zoomimage-view/src/main/java/com/github/panpf/zoomimage/view/internal/ViewConvertUtils.kt:20-31 | which scale types give each alignment, in both directions |
| ViewConvertUtils.ScaleTypeOf | zoomimage-view/src/main/java/com/github/panpf/zoomimage/view/internal/ViewConvertUtils.kt:7-31 | a pair it maps back from is the pair both conversions give |
| ViewConvertUtils.ConversionIsInjective | zoomimage-view/src/main/java/com/github/panpf/zoomimage/view/internal/ViewConvertUtils.kt:7-31 | the pair (content scale, alignment) identifies the scale type |
| InternalZoomUtils.ReverseRotateRect | zoomimage-view/src/main/java/com/github/panpf/zoomimage/internal/ViewZoomUtils.kt:82-120 | the older copy fails exactly for non-multiples of 90 and otherwise gives the same rect as the view/zoom copy |
| InternalZoomUtils.RotatedAsWritten | zoomimage-view/src/main/java/com/github/panpf/zoomimage/internal/ViewZoomUtils.kt:126-141 | as written, 90 leaves `x == y` and 270 leaves `x + y == W`; 180 mirrors both coordinates, and other angles keep the point |
| InternalZoomUtils.RotatePoint | zoomimage-view/src/main/java/com/github/panpf/zoomimage/internal/ViewZoomUtils.kt:122-142 | fails exactly for non-multiples of 90; otherwise the in-place assignments give the as-written point |
| InternalZoomUtils.RotatePointCollapsesPoints | zoomimage-view/src/main/java/com/github/panpf/zoomimage/internal/ViewZoomUtils.kt:127-140 | (0, 1) and (5, 1) land on the same point at 90 and at 270, and 90 then 270 does not restore (0, 1) |
| InternalZoomUtils.RotatePointIntended | zoomimage-view/src/main/java/com/github/panpf/zoomimage/internal/ViewZoomUtils.kt:122-142 | with the old coordinates saved, the same failure and the intended quarter turns |
| InternalZoomUtils.IntendedRotationIsInvertible | zoomimage-view/src/main/java/com/github/panpf/zoomimage/internal/ViewZoomUtils.kt:126-141 | the intended 90 and 270 turns undo each other in the quarter-turned drawable, and a half turn twice gives the point back |
| InternalZoomUtils.IntendedRotationMatchesContainerRotation | zoomimage-view/src/main/java/com/github/panpf/zoomimage/internal/ViewZoomUtils.kt:126-141 | on integer points the intended turns equal `rotateInContainer` |
| InternalZoomUtils.ComputeSupportScales | zoomimage-view/src/main/java/com/github/panpf/zoomimage/internal/ViewZoomUtils.kt:268-270 | for `FIT_XY` the constant scales start at 1 and satisfy the ordering rule that the other scale types follow (line 347), although the early return never reaches that line |
| InternalZoomUtils.FitXYScalesIgnoreSizes | zoomimage-view/src/main/java/com/github/panpf/zoomimage/internal/ViewZoomUtils.kt:268-270 | for `FIT_XY` the scales are `[1, 4, 8]`, whatever the sizes |
| ReadModes.Accept | zoomimage-core/src/main/java/com/github/panpf/zoomimage/ReadMode.kt:29-37 | for each size type: accepted exactly when the orientation matches and the decider agrees |
| ReadModes.DeciderOnlyConsultedOnMatch | zoomimage-core/src/main/java/com/github/panpf/zoomimage/ReadMode.kt:30-36 | square content is rejected by the one-orientation types; on a mismatch every decider gives the same answer; acceptance implies a match |
| ReadModes.DefaultDefersToLongImageDecider | zoomimage-core/src/main/java/com/github/panpf/zoomimage/ReadMode.kt:39-59 | the default read mode leaves the decision to `LongImageDecider(2.5, 5.0)` |
| ReadModes.LongImageDeciderEqualityIsValueEquality | zoomimage-core/src/main/java/com/github/panpf/zoomimage/ReadMode.kt:80-87 | `equals` holds exactly for the same multiples; it is reflexive and symmetric, and never equal to another decider class |
| TileUtils.CrossWithMeansCommonPixel | zoomimage-view/src/main/java/com/github/panpf/zoomimage/internal/TileUtils.kt:95-100 | `crossWith` is symmetric; rects sharing only an edge do not cross; non-empty rects cross exactly when they share a pixel |
| TileUtils.BuildTiles | zoomimage-view/src/main/java/com/github/panpf/zoomimage/internal/TileUtils.kt:49-64 | the row loop emits `columns * rows` tiles in row-major order, each clamped to the image |
| TileUtils.GridIsTiling | zoomimage-view/src/main/java/com/github/panpf/zoomimage/internal/TileUtils.kt:49-64 | the grid partitions the image: non-empty tiles inside it, none crossing, row-major, every pixel covered, last one at the corner |
| TileUtils.GridFitsTileMaxSize | zoomimage-view/src/main/java/com/github/panpf/zoomimage/internal/TileUtils.kt:34-47 | every tile, decoded at the sample size, fits the maximum tile size |
| TileUtils.SplitExtent | zoomimage-view/src/main/java/com/github/panpf/zoomimage/internal/TileUtils.kt:31-47 | the do-while picks the fewest tiles whose sampled extent fits the maximum, with the matching source extent; its count equals the reference `LeastFit`, the first fitting count searched upwards from 1 |
| TileUtils.LeastFitIsUnique | zoomimage-view/src/main/java/com/github/panpf/zoomimage/internal/TileUtils.kt:34-47 | the least fitting count exists and is unique, so every loop that finds a least fitting count finds `LeastFit` |
| TileUtils.OneTileIffFits | zoomimage-view/src/main/java/com/github/panpf/zoomimage/internal/TileUtils.kt:34-56 | the least count yields a single column (row) exactly when the whole extent, sampled, fits the maximum |
| TileUtils.LargeSampleSizeGivesOneTile | zoomimage-view/src/main/java/com/github/panpf/zoomimage/internal/TileUtils.kt:31-55 | once the sample size reaches both image sides the level is one tile |
| TileUtils.BuildLevel | zoomimage-view/src/main/java/com/github/panpf/zoomimage/internal/TileUtils.kt:31-64 | one outer pass yields exactly the row-major grid of the least fitting column and row counts (`SourceGrid`), which tiles the image and fits the maximum; it is one tile exactly when the whole image, sampled, fits the maximum, and so once the sample size covers the image |
| TileUtils.AddLevel | zoomimage-view/src/main/java/com/github/panpf/zoomimage/internal/TileUtils.kt:65-71 | storing a level adds exactly its power-of-two key and keeps the levels below |
| TileUtils.InitializeTileMap | zoomimage-view/src/main/java/com/github/panpf/zoomimage/internal/TileUtils.kt:23-74 | the map's keys are exactly `1, 2, ..., 2^n` for the returned `n`; each level is the source's least-count grid at its sample size, tiling the image and fitting the maximum; only the last has one tile, and `n` is the least exponent at which the whole image, sampled, fits the maximum |
| TileUtils.FindSampleSize | zoomimage-view/src/main/java/com/github/panpf/zoomimage/internal/TileUtils.kt:76-93 | fails exactly when subsampling is not allowed, with the message naming both sizes; otherwise the largest power of two at most the ratio, or 1 |
| TileUtils.SampleSizeMonotone | zoomimage-view/src/main/java/com/github/panpf/zoomimage/internal/TileUtils.kt:87-92 | a larger ratio never gives a smaller sample size |
| TileUtils.SampleSizeNonIncreasingInScale | zoomimage-view/src/main/java/com/github/panpf/zoomimage/internal/TileUtils.kt:87-92 | zooming in never raises the sample size, and equal scales give equal sample sizes |
| TileDecoders.New | zoomimage-core/src/commonMain/kotlin/com/github/panpf/zoomimage/subsampling/internal/TileDecoder.kt:45-51 | a new decoder is open, pools only its root, and reports the root's image info and source |
| TileDecoders.PoolSize | zoomimage-core/src/commonMain/kotlin/com/github/panpf/zoomimage/subsampling/internal/TileDecoder.kt:42-43 | the pool size is 0 exactly when the pool is empty |
| TileDecoders.CopyOf | zoomimage-core/src/commonMain/kotlin/com/github/panpf/zoomimage/subsampling/internal/TileDecoder.kt:67-69 | a copy of the root decodes the same source and image |
| TileDecoders.BeginDecode | zoomimage-core/src/commonMain/kotlin/com/github/panpf/zoomimage/subsampling/internal/TileDecoder.kt:54-69 | fails with "TileDecoder is closed" exactly when closed; otherwise takes the first pooled helper, or a copy of the root |
| TileDecoders.EndDecode | zoomimage-core/src/commonMain/kotlin/com/github/panpf/zoomimage/subsampling/internal/TileDecoder.kt:73-79 | an open decoder pools the helper again, and a closed one closes it |
| TileDecoders.Decode | zoomimage-core/src/commonMain/kotlin/com/github/panpf/zoomimage/subsampling/internal/TileDecoder.kt:54-82 | a closed decoder fails and changes nothing; a throwing copy fails before any helper is taken; a returning decode grows the pool only when it was empty; no decode closes a helper |
| TileDecoders.Close | zoomimage-core/src/commonMain/kotlin/com/github/panpf/zoomimage/subsampling/internal/TileDecoder.kt:85-95 | the first close closes every pooled helper in order and empties the pool; a second changes nothing |
| TileDecoders.SequentialDecodeRotatesPool | zoomimage-core/src/commonMain/kotlin/com/github/panpf/zoomimage/subsampling/internal/TileDecoder.kt:57-81 | a decode returns or throws exactly what the helper's `decodeRegion` did; when it returns, the front helper moves to the back of the pool |
| TileDecoders.ThrowingDecodeLeaksHelper | zoomimage-core/src/commonMain/kotlin/com/github/panpf/zoomimage/subsampling/internal/TileDecoder.kt:64-79 | when `decodeRegion` throws, its helper is neither pooled nor closed: the decoder loses exactly that helper, and the invariant still holds |
| TileDecoders.CloseMidDecodeClosesHelper | zoomimage-core/src/commonMain/kotlin/com/github/panpf/zoomimage/subsampling/internal/TileDecoder.kt:73-93 | a close during a decode closes the lent helper when the decode ends, after the pooled ones, and does not pool it |
| TileDecoders.CloseIsIdempotent | zoomimage-core/src/commonMain/kotlin/com/github/panpf/zoomimage/subsampling/internal/TileDecoder.kt:86-88 | closing twice equals closing once |
| TileDecoders.BeginDecodePreservesInv | zoomimage-core/src/commonMain/kotlin/com/github/panpf/zoomimage/subsampling/internal/TileDecoder.kt:64-69 | taking a helper keeps every helper in exactly one place: pooled, lent or closed |
| TileDecoders.EndDecodePreservesInv | zoomimage-core/src/commonMain/kotlin/com/github/panpf/zoomimage/subsampling/internal/TileDecoder.kt:73-79 | returning a lent helper keeps that invariant |
| TileDecoders.ClosePreservesInv | zoomimage-core/src/commonMain/kotlin/com/github/panpf/zoomimage/subsampling/internal/TileDecoder.kt:85-95 | closing keeps it |
| TileDecoders.HelpersClosedAtMostOnce | zoomimage-core/src/commonMain/kotlin/com/github/panpf/zoomimage/subsampling/internal/TileDecoder.kt:77-91 | under the invariant no helper is ever closed twice |
| SubsamplingEngine.GridSizeMapKeys | zoomimage-view/src/main/kotlin/com/github/panpf/zoomimage/view/subsampling/SubsamplingEngine.kt:474-477 | the grid size map has a key for exactly the sample sizes of the grids |
| SubsamplingEngine.GridSizeMapLastEntryWins | zoomimage-view/src/main/kotlin/com/github/panpf/zoomimage/view/subsampling/SubsamplingEngine.kt:474-477 | each key holds the last tile's coordinate plus one, from the last grid with that sample size |
| SubsamplingEngine.GridSizeMapOfDistinctSampleSizes | zoomimage-view/src/main/kotlin/com/github/panpf/zoomimage/view/subsampling/SubsamplingEngine.kt:474-477 | with distinct sample sizes, every grid appears with its own size |
| SubsamplingEngine.RefreshReadyState | zoomimage-view/src/main/kotlin/com/github/panpf/zoomimage/view/subsampling/SubsamplingEngine.kt:510-517 | `ready` becomes "image info, manager and decoder all present", and nothing else changes |
| SubsamplingEngine.CleanTileManager | zoomimage-view/src/main/kotlin/com/github/panpf/zoomimage/view/subsampling/SubsamplingEngine.kt:538-551 | an existing manager is cleaned and dropped, the published state cleared and `ready` lowered; without one nothing changes |
| SubsamplingEngine.CleanTileDecoder | zoomimage-view/src/main/kotlin/com/github/panpf/zoomimage/view/subsampling/SubsamplingEngine.kt:519-536 | the job is cancelled; an existing decoder is closed and dropped, lowering `ready`; the image info is always cleared |
| SubsamplingEngine.Clean | zoomimage-view/src/main/kotlin/com/github/panpf/zoomimage/view/subsampling/SubsamplingEngine.kt:553-556 | afterwards there is no decoder, manager, image info or job, and under the invariant nothing stays published and `ready` is false |
| SubsamplingEngine.ResetTileDecoder | zoomimage-view/src/main/kotlin/com/github/panpf/zoomimage/view/subsampling/SubsamplingEngine.kt:372-388 | cleans both, then launches a job exactly when attached, with a factory and a non-empty content size |
| SubsamplingEngine.DecoderCreated | zoomimage-view/src/main/kotlin/com/github/panpf/zoomimage/view/subsampling/SubsamplingEngine.kt:397-421 | a cancelled job does nothing; success installs the decoder and its image info and then resets the tile manager, so a new manager (with the next id and the computed grids) exists exactly when the preferred tile size and the content size are both non-empty, and under the invariant the engine is ready exactly then; failure publishes the exception's image info only |
| SubsamplingEngine.ResetTileManager | zoomimage-view/src/main/kotlin/com/github/panpf/zoomimage/view/subsampling/SubsamplingEngine.kt:425-487 | a manager with a fresh identity is installed exactly when decoder, image info, tile size and content size are all there; it brings its grid size map and `ready` |
| SubsamplingEngine.SetImageSource | zoomimage-view/src/main/kotlin/com/github/panpf/zoomimage/view/subsampling/SubsamplingEngine.kt:216-226 | the same factory returns false and changes nothing; another is stored with its key after a clean, and a job starts exactly when it can |
| SubsamplingEngine.RefreshTiles | zoomimage-view/src/main/kotlin/com/github/panpf/zoomimage/view/subsampling/SubsamplingEngine.kt:489-508 | the request reaches the current manager unchanged, except when there is none or the engine is stopped |
| SubsamplingEngine.OnTileChanged | zoomimage-view/src/main/kotlin/com/github/panpf/zoomimage/view/subsampling/SubsamplingEngine.kt:451-456 | only the current manager's tile lists are published |
| SubsamplingEngine.OnSampleSizeChanged | zoomimage-view/src/main/kotlin/com/github/panpf/zoomimage/view/subsampling/SubsamplingEngine.kt:457-461 | only the current manager's sample size is published |
| SubsamplingEngine.OnImageLoadRectChanged | zoomimage-view/src/main/kotlin/com/github/panpf/zoomimage/view/subsampling/SubsamplingEngine.kt:462-466 | only the current manager's load rect is published |
| SubsamplingEngine.ContentSizeChanged | zoomimage-view/src/main/kotlin/com/github/panpf/zoomimage/view/subsampling/SubsamplingEngine.kt:247-251 | the new content size is stored; an unchanged one triggers nothing; a changed one on an attached engine resets the decoder: decoder, manager and image info are cleared and a creation job is launched exactly when an image source is set and the new size is non-empty; on a detached engine, a case of the model only, the size is just stored |
| SubsamplingEngine.PreferredTileSizeChanged | zoomimage-view/src/main/kotlin/com/github/panpf/zoomimage/view/subsampling/SubsamplingEngine.kt:242-246 | the new preferred tile size is stored; an unchanged one triggers nothing; a changed one on an attached engine resets the tile manager, keeping the decoder and image info, so a new ready manager exists exactly when a decoder and image info exist and both sizes are non-empty; on a detached engine, a case of the model only, the size is just stored |
| SubsamplingEngine.SetStopped | zoomimage-view/src/main/kotlin/com/github/panpf/zoomimage/view/subsampling/SubsamplingEngine.kt:77-80 | only the stopped flag changes |
| SubsamplingEngine.Initial | zoomimage-view/src/main/kotlin/com/github/panpf/zoomimage/view/subsampling/SubsamplingEngine.kt:75-76 | a fresh engine satisfies the engine invariant |
| SubsamplingEngine.SimpleOperationsPreserveInv | zoomimage-view/src/main/kotlin/com/github/panpf/zoomimage/view/subsampling/SubsamplingEngine.kt:451-466 | the ready refresh, the stopped flag and the callbacks keep the engine invariant |
| SubsamplingEngine.SizeChangesPreserveInv | zoomimage-view/src/main/kotlin/com/github/panpf/zoomimage/view/subsampling/SubsamplingEngine.kt:244-253 | content-size and tile-size changes keep the invariant |
| SubsamplingEngine.CleanPreservesInv | zoomimage-view/src/main/kotlin/com/github/panpf/zoomimage/view/subsampling/SubsamplingEngine.kt:519-556 | the cleans keep the invariant |
| SubsamplingEngine.ResetTileDecoderPreservesInv | zoomimage-view/src/main/kotlin/com/github/panpf/zoomimage/view/subsampling/SubsamplingEngine.kt:372-388 | launching a decoder reset keeps the invariant |
| SubsamplingEngine.ResetTileManagerPreservesInv | zoomimage-view/src/main/kotlin/com/github/panpf/zoomimage/view/subsampling/SubsamplingEngine.kt:425-487 | installing a manager, or failing to, keeps the invariant |
| SubsamplingEngine.DecoderCreatedPreservesInv | zoomimage-view/src/main/kotlin/com/github/panpf/zoomimage/view/subsampling/SubsamplingEngine.kt:397-421 | every end of the creation job keeps the invariant |
| SubsamplingEngine.SetImageSourcePreservesInv | zoomimage-view/src/main/kotlin/com/github/panpf/zoomimage/view/subsampling/SubsamplingEngine.kt:216-226 | setting an image source keeps the invariant |
| SubsamplingEngine.StaleManagerCannotPublish | zoomimage-view/src/main/kotlin/com/github/panpf/zoomimage/view/subsampling/SubsamplingEngine.kt:451-466 | after a manager is replaced or cleaned away, its callbacks change nothing |
| SubsamplingEngine.SetImageSourceSameFactoryIsNoOp | zoomimage-view/src/main/kotlin/com/github/panpf/zoomimage/view/subsampling/SubsamplingEngine.kt:216-217 | setting the current factory is refused; switching away and back is accepted both times |

The engine invariant (`SubsamplingEngine.Inv`) says:

- `ready` holds exactly when image info, tile manager and tile decoder are all present;
- a manager exists only with a decoder and image info. Its identity is below the next identity handed out, and its grid size map is the published one;
- while there is a decoder, the image info is the decoder's;
- a pending decoder job means there is no decoder and no manager;
- without a manager, the published tile state is the cleared one.

## Left out

- KotlinInt.CeilDiv: the source computes `ceil(a / b.toFloat())` in single precision (TileUtils.kt:36-37 and 45-46); the model uses the exact integer ceiling, which agrees with the float result for dividends below 2^24, where the rounded quotient cannot cross an integer. Larger dimensions are not modelled with float rounding.
- Floating point: `Float` is modelled as `real`, with no rounding, NaN or infinity. This covers `PointF`, the scale ratio in `findSampleSize` and the `LongImageDecider` multiples. `format(1)`/`format(2)` rounding is not modelled.
- Kotlin `Int` is unbounded here; 32-bit overflow (for example `sampleSize * 2` or `width * n`) is not modelled.
- KotlinInt.Div / KotlinInt.Rem require a non-zero divisor. They are the primitive operators behind the constant divisors (2, 90, 180, 360) of the model. The one divisor a caller chooses, in `IntSizeCompat.div` and `IntOffsetCompat.rem`, is modelled with its `ArithmeticException` in IntSizes.DivBy and IntOffsets.RemBy.
- ReadModes.Accept: `LongImageDecider.should` is floating-point arithmetic, so it is a function parameter. Its equality ignores NaN, for which Kotlin `!=` on floats differs from value equality.
- TileUtils.FindSampleSize: `canUseSubsampling` is float arithmetic, so its result is a parameter. The ratio `imageWidth / (drawableWidth * scale)` is a real parameter. A zero `drawableWidth * scale` gives an infinite Kotlin ratio, and the loop then overflows; that case is not modelled.
- SubsamplingEngine.ContentSizeChanged and SubsamplingEngine.PreferredTileSizeChanged accept a detached engine, where they only store the size. The source cannot produce that event: both states are written only by collectors launched in the attached scope (SubsamplingEngine.kt:282-305).
- TileUtils.InitializeTileMap requires positive image and tile sizes. With a non-positive maximum tile size the source's do-while never ends, and callers only pass non-empty sizes. It also returns `levels`, the exponent `n` of the largest sample size; the source returns only the map.
- InternalZoomUtils.ComputeSupportScales: only the `FIT_XY` branch is integer-valued. The other scale types compute their scales in floating point with a read-mode decider, and that result is a parameter.
- The float geometry of `ViewZoomUtils` (`computeTransform`, offsets, user offset bounds, `computeReadModeTransform`) and the float `times`/`div`/`lerp` operators of `IntSizeCompat`/`IntOffsetCompat` are not part of this model.
- IntOffsets.ReverseRotateUndoesRotate is stated for non-negative rotations only. For a negative multiple of 90, `rotateInSpace` leaves the point where it is while `reverseRotateInSpace` turns it, so the round trip does not hold.
- `TileDecoder`: the lock, logging, threads and `DecodeHelper` internals (region decoding, EXIF, the real `close`) are not modelled. A helper is an opaque value, and `decodeRegion` is a function parameter. Which exceptions `decodeRegion` or `copy()` throw is not modelled; they are `Failure` outcomes given as parameters.
- `SubsamplingEngine`:
  - `TileManager` is opaque: an identity plus its sorted tile grids. The grids of a new manager are a parameter, so its tile loading, cache and animation settings are not modelled.
  - Its `clean("stopped")` on a lifecycle stop is internal to the manager, and the stop does not change the engine's state beyond the flag.
  - Coroutines, flows and `refreshTilesFlow` emissions are not modelled. Neither are the attach/detach plumbing, including the collectors' first emission on attach, nor the bitmap-cache and animation settings.
  - The view's attachment is a state field. The `GlobalScope` close of a dropped decoder is recorded as a log of decoders handed to close.
  - A job that already completed is treated like a cancelled one.
- `ImageSource.Factory` equality is modelled as value equality on its key.

## Findings

| source | as written | input that shows it | evidently intended | confidence | as-written member | corrected member |
|---|---|---|---|---|---|---|
| zoomimage-view/src/main/java/com/github/panpf/zoomimage/internal/ViewZoomUtils.kt:127-140 | `rotatePoint` overwrites `point.x` and then reads it to compute `point.y`, at 90 and at 270, so the old `x` is lost | points (0, 1) and (5, 1) in a 10x10 drawable: both map to (9, 9) at 90 and to (1, 9) at 270; 90 then 270 sends (0, 1) to (9, 1) | the quarter turns of `rotateInContainer`: 90 gives `(H - y, x)` and 270 gives `(y, W - x)` | not executed | InternalZoomUtils.RotatePointCollapsesPoints | InternalZoomUtils.IntendedRotationIsInvertible |
