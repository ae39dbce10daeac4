# imagetk core, modelled in Dafny

`imagetk` is a small Go toolkit for 2-D and 3-D medical-style images. An `Image` holds:
- a size per axis, a spacing, an origin and a 3x3 direction matrix;
- a pixel type, one of ten codes (`uint8` to `float64`);
- the pixels as one little-endian byte buffer, with axis 0 fastest.

This project models the core of the toolkit:
- **image.go**: creation, geometry setters, reading and writing one pixel, whole-buffer replacement, resizing, linear-to-index conversion, and `AsType`. `AsType` converts the buffer to another pixel type, and reuses the source buffer, without copying, for `uint16` to `int16`, `uint32` to `int32` and `uint64` to `int64`; every other conversion, `uint8` to `int8` and every signed to unsigned one included, copies.
- **point.go**: `GetPixelFromPoint`. It maps a physical point to continuous index coordinates by solving `direction * diag(spacing) * x = point - origin` by Gaussian elimination (`solveLinearSystem`). The 2x2 and 3x3 inverses of point.go (`invert2x2`, `invert3x3`) are called only from its tests; the `Matrix.Invert*` members model those test-side helpers. It then blends the 4 or 8 surrounding pixels linearly, with a zero or nearest fill outside the image.
- **interpolate.go**: `Resample`. It builds a new image on a new grid and fills every pixel from `GetPixelFromPoint`.
- **morph.go**: binary dilation and erosion with a cubic kernel, in 2-D and 3-D, and the opening and closing built from them.
- **stats.go**: `Min`, `Max`, `Sum`, `ExactMean` and `Mean`, each with the accumulator width and overflow behaviour of its pixel type.
- **io.go**: the raw and MetaImage (`.mhd`) readers and writers, modelled over a file system given as a map from paths to bytes.
- **utils.go**: the recursive flattening of nested slices.

Files and modules:
- `results.dfy` (`Results`): `Result`, `Outcome` and `Option`.
- `arith.dfy` (`Arith`): small facts about division.
- `pixels.dfy` (`Pixels`): the pixel types, their widths and ranges, and the little-endian codec.
- `layout.dfy` (`Layout`): the index arithmetic of the buffer and the parallel chunks.
- `image.dfy` (`Images`): the class `Image`, whose byte buffer is an `array<byte>`.
- `convert.dfy` (`Convert`): per-pixel conversion.
- `matrix.dfy` (`Matrix`): inversion and elimination.
- `sampling.dfy` (`Sampling`): `GetPixelFromPoint`.
- `resample.dfy` (`Resample`).
- `morph.dfy` (`Morph`).
- `stats.dfy` (`Stats`).
- `text.dfy` (`Text`) and `paths.dfy` (`FilePaths`): the string and path functions the header reader and writer use.
- `mhd.dfy` (`MetaIO`).
- `flatten.dfy` (`Flatten`).

How each part is written:
- Operations that loop or update state are methods with loop invariants, proved against specification functions. Examples:
  - the pixel setters and `AsType` on the `Image` class;
  - the resampling loop;
  - the morphology loops over 2-D and 3-D arrays;
  - the elimination loops;
  - the header writer.
- Pure computations are functions, with lemmas about them. Examples: pixel decoding, the corner weights, the statistics' specifications, and the header parser.

Real numbers stand in for `float64` throughout.

Parts the model cannot see are function parameters. A `Writer`/`Reader` pair carries:
- number formatting and scanning;
- text encoding;
- the cube root used by the raw reader.

Float bit decoding and float casts are parameters too, and so is the `toInt8` reading that morphology uses.

## Model

| member | source | states |
|---|---|---|
| Pixels.FromCode | image.go:13-36 | a code names a pixel type exactly when it is 1..10, and the type's code is that code |
| Pixels.FromCodeOfCode | image.go:13-36 | decoding the code of any pixel type gives that type back |
| Pixels.BytesPerPixel | image.go:95-106 | 1 byte for the 8-bit types, 2 for 16-bit, 4 for 32-bit and float32, 8 otherwise (both directions) |
| Pixels.UnsignedOfLittleEndian | image.go:570-603 | encoding `v` in `n` little-endian bytes and reading it back gives `v mod 256^n` |
| Pixels.LittleEndianOfUnsigned | image.go:570-603 | re-encoding the unsigned value of a byte string gives the same bytes |
| Pixels.UnsignedOfPrefix | image.go:895-926 | the first `k` bytes of a little-endian value are the value modulo `256^k` (narrowing keeps low bytes) |
| Pixels.UnsignedOfZeroExtension | image.go:979-982 | appending zero bytes leaves the unsigned value unchanged |
| Pixels.DecodeInRange | image.go:570-603 | every decoded integer pixel lies within its type's minimum and maximum |
| Layout.OffsetBound | image.go:563-569 | the offset of an in-bounds index is below the pixel count |
| Layout.OffsetOfTwo | point.go:192-198 | in 2-D the offset is `x + y * size[0]` |
| Layout.OffsetOfThree | point.go:192-198 | in 3-D the offset is `x + y * size[0] + z * size[0] * size[1]` |
| Layout.OffsetInjective | image.go:1219-1239 | distinct in-bounds indexes have distinct offsets, so a pixel write touches one pixel only |
| Layout.IndexOfInBounds | image.go:1277-1304 | the intended index of a linear position below the pixel count is in bounds |
| Layout.OffsetOfIndexOf | image.go:1277-1304 | the intended index of a linear position maps back to that position |
| Layout.IndexOfOffset | image.go:1277-1304 | the intended index of an index's offset is that index (the other direction of the bijection) |
| Layout.IndexOfComponent | image.go:1286-1296 | component `i` of the intended index is `(l / (size[0]*...*size[i-1])) mod size[i]` |
| Layout.RowMajorIndexInBounds | interpolate.go:66-71 | the resampler's last-axis-slowest digits of a position are an in-bounds index |
| Layout.RowMajorOffsetOfIndex | interpolate.go:66-71 | those digits map back to the position under the last-axis-slowest layout |
| Layout.RowMajorIndexOfOffset | interpolate.go:66-71 | an in-bounds index is recovered from its last-axis-slowest position |
| Layout.RowMajorBijection | interpolate.go:50-76 | the resampler's loop visits every in-bounds output index exactly once |
| Layout.ChunkSize | image.go:221-235 | the chunk size `ceil(n / workers)` covers all pixels and is the least such size |
| Layout.ChunksPartition | image.go:221-235 | every pixel lies in exactly one worker's chunk, the one numbered `l / size` |
| Layout.ChunkPastEndEmpty | image.go:230-235 | a chunk starting at or after the end holds no pixel |
| Images.NewImage | image.go:80-129 | an error exactly for a dimension outside 2..3, a zero extent or an unknown type code; otherwise a fresh image with that size and type, unit spacing, zero origin, identity direction and a zero-filled buffer of `pixels * bytesPerPixel` bytes |
| Images.Image.constructor | image.go:108-128 | the new image's fields are the defaults and its buffer is zero-filled |
| Images.Image.LinearOffset | image.go:559-569 | the offset exists exactly for in-bounds indexes and is the axis-0-fastest offset |
| Images.Image.GetPixel | image.go:559-604 | succeeds exactly for in-bounds indexes and returns the decoded bytes of that pixel |
| Images.Image.SetPixel | image.go:1219-1239 | succeeds exactly for an in-bounds index and an encodable value, and then overwrites that pixel's bytes only; on failure the buffer is unchanged |
| Images.SetThenGet | image.go:1219-1239 | reading a pixel after writing it gives the written bytes |
| Images.SetLeavesOtherPixels | image.go:1219-1239 | writing one pixel leaves every other pixel's bytes unchanged |
| Images.Image.NumPixels | image.go:1307-1313 | the pixel count is the product of the extents |
| Images.Image.SetSpacing | image.go:1194-1205 | accepted exactly when the length matches the dimension and every entry is positive; otherwise the spacing is unchanged |
| Images.Image.SetOrigin | image.go:1207-1213 | accepted exactly when the length matches the dimension; otherwise the origin is unchanged |
| Images.Image.SetDirection | image.go:1215-1217 | the direction becomes the given nine entries |
| Images.Image.SetPixels | image.go:1241-1258 | accepted exactly when the flattened bytes hold as many whole pixels as the image; then the buffer is those bytes; otherwise the buffer is untouched |
| Images.Image.SetSize | image.go:1260-1274 | as written: accepted exactly when the 32-bit wrapped product of the new extents equals the 32-bit wrapped pixel count; then size and dimension change |
| Images.WrappedProductIsProductMod | image.go:1260-1264 | the 32-bit running product equals the true product modulo `2^32` |
| Images.SetSizeWrapAccepted | image.go:1260-1274 | the extents `[65536, 65537]` wrap to 65536, so a 65536-pixel image accepts them |
| Images.Image.SetSizeExact | image.go:1260-1274 | corrected: accepted exactly when the true product equals the pixel count, keeping the image valid |
| Images.Image.GetIndexFromLinearIndex | image.go:1277-1304 | as written: an error exactly for positions at or past the pixel count; otherwise the loop's result, with the remainder dropped after the first axis, reversed |
| Images.AsWrittenIndexOffset | image.go:1286-1302 | the as-written index of `l` has offset `(l mod size[0]) * size[0]*...*size[d-2]`, so only `l mod size[0]` survives |
| Images.AsWrittenIndexCounterexample | image.go:1277-1304 | on a 2x2 image positions 0 and 2 both give `[0, 0]`, and position 1 gives an index whose offset is 2 |
| Images.Image.LinearIndexToIndex | image.go:1277-1304 | corrected: an error exactly past the end; otherwise the in-bounds index whose offset is the position |
| Images.ReverseInPlace | image.go:1299-1301 | the swap loop reverses the index array |
| Images.Image.PrefixProduct | image.go:1288-1291 | the sub-array size is the product of the leading extents and is positive |
| Images.MapPixelsPixel | image.go:885-1190 | pixel `k` of a per-pixel conversion is the converter applied to source pixel `k` |
| Images.ConvertAllPixel | image.go:885-1190 | pixel `k` of the converted buffer is `ConvertPixel` of source pixel `k` |
| Images.AliasingMatchesConversion | image.go:979-984 | for the pairs whose buffer is reused, the byte-wise conversion is the identity, so the reuse agrees with converting |
| Images.MapBuffer | image.go:885-1190 | the conversion loop fills a fresh buffer with the converted pixels in order |
| Images.Image.AsType | image.go:857-1192 | the receiver itself for its own type; otherwise it succeeds exactly for a 2..3-axis image and a known code; the result has the same size, spacing, origin and direction, shares the buffer for `uint16`/`uint32`/`uint64` to the signed type of the same width, and otherwise holds a fresh buffer equal to the pixel-by-pixel conversion |
| Convert.NarrowingKeepsLowBytes | image.go:895-926 | integer narrowing keeps the low bytes: the value modulo `256^width` |
| Convert.WideningZeroExtends | image.go:979-982 | integer widening appends zero bytes, signed sources included |
| Convert.SameWidthKeepsBytes | image.go:932-937 | converting between the two integer types of one width leaves the bytes unchanged |
| Convert.UnsignedWideningKeepsValue | image.go:979-982 | from an unsigned type to a wider integer type the value is kept |
| Convert.SignedWideningAsWritten | image.go:979-982 | as written: the `int8` pixel -1 converted to `int16` reads as 255 |
| Convert.TwosComplementRoundTrip | image.go:570-603 | the `w`-byte two's-complement pattern of a value in range decodes back to it |
| Convert.ConvertValueKeepsValue | image.go:979-982 | converting through the decoded value keeps every value that fits the target type |
| Convert.ConvertPixelAgreesOnUnsigned | image.go:885-1190 | on unsigned sources the conversion as written and the value-preserving one agree |
| Convert.SignedWideningCorrected | image.go:979-982 | corrected: the `int8` pixel -1 widened through its value reads as `int16` -1 |
| Convert.FloatNarrowingAsWritten | image.go:1138-1141 | as written: given the IEEE bit patterns, the float32 1.0 taken to `float64` and back has the bits of about 4.6e18 |
| Convert.SignedToFloatAsWritten | image.go:1108-1111 | as written: given the IEEE bits of 255.0, the `int8` pixel -1 converts to the `float32` 255.0 |
| Convert.IntegerToFloatAgreesOnNonNegative | image.go:1104-1134 | corrected: converting through the decoded value agrees with the conversion as written on every pixel whose value is not negative |
| Convert.SignedToFloatCorrected | image.go:1108-1111 | corrected: given the IEEE bits of -1.0, the `int8` pixel -1 converted through its value is the `float32` -1.0 |
| Convert.ConvertPixelCorrected | image.go:1138-1141 | corrected: a `float64` pixel narrows through its value; every other pair of types converts as written |
| Convert.FloatRoundTripCorrected | image.go:1138-1141 | corrected: a `float32` pixel taken to `float64` and back is unchanged whenever narrowing undoes widening |
| Matrix.Invert2x2 | point.go:10-24 | an error exactly when the determinant is 0 |
| Matrix.Invert2x2IsInverse | point.go:10-24 | a successful 2x2 inverse is a left and right inverse |
| Matrix.Invert2x2Example | point.go:10-24 | `[[4,7],[2,6]]` inverts to `[[0.6,-0.7],[-0.2,0.4]]` |
| Matrix.Invert2x2SingularExample | point.go:13-16 | `[[1,2],[2,4]]` is refused |
| Matrix.Invert3x3 | point.go:27-49 | an error exactly when the determinant is 0 |
| Matrix.AdjugateProduct3 | point.go:38-48 | the adjugate times the matrix, on either side, is the determinant times the identity |
| Matrix.Invert3x3IsInverse | point.go:27-49 | a successful 3x3 inverse is a left and right inverse |
| Matrix.Invert3x3OfUnitDeterminant | point.go:27-49 | a matrix of determinant 1 inverts to its adjugate |
| Matrix.Adjugate3Example | point.go:38-48 | a worked adjugate and determinant of a 3x3 matrix |
| Matrix.Invert3x3Example | point.go:27-49 | the same matrix inverts to that adjugate |
| Matrix.Invert3x3SingularExample | point.go:32-35 | a rank-1 3x3 matrix is refused |
| Matrix.Step | point.go:68-73 | one elimination step keeps the rows up to the pivot row |
| Matrix.StepLowerZero | point.go:68-73 | one step clears the pivot column below the pivot |
| Matrix.StepSound | point.go:68-73 | a solution of the stepped system solves the system before the step |
| Matrix.EliminateShape | point.go:62-74 | successful elimination leaves an upper-triangular system with pivots of magnitude at least `1e-9` |
| Matrix.EliminateSolution | point.go:62-74 | a solution of the eliminated system solves the original |
| Matrix.EliminateSound | point.go:62-74 | the shape and the solution facts together |
| Matrix.BackSound | point.go:77-84 | back substitution on an upper-triangular system with nonzero pivots yields a solution |
| Matrix.SolveSound | point.go:52-87 | every solution `solveLinearSystem` returns satisfies `A x = b` |
| Matrix.SwapMatrixIsRejected | point.go:64-66 | the invertible swap matrix is refused, because there is no row pivoting |
| Matrix.SolveIdentity2 | point.go:52-87 | the 2x2 identity system returns its right-hand side |
| Matrix.SubtractScaledRow | point.go:70-72 | the inner loop replaces row `k` with `row k - ratio * pivot row` and nothing else |
| Matrix.EliminateColumn | point.go:68-73 | the row loop performs one elimination step |
| Matrix.BackSubstitute | point.go:77-84 | the back-substitution loop computes the specified solution |
| Matrix.SolveLinearSystem | point.go:52-87 | the method equals the specification; a first pivot below `1e-9` is an error; any result solves `A x = b` |
| Sampling.IndexToPhysicalOfTwo | point.go:104-109 | the 2-D matrix is `direction * diag(spacing)`, entry by entry |
| Sampling.IndexToPhysicalOfThree | point.go:110-116 | the 3-D matrix is `direction * diag(spacing)`, entry by entry |
| Sampling.FractionsInUnit | point.go:124-132 | every fractional part lies in `[0, 1)` |
| Sampling.CornerBits | point.go:142-160 | corner `c` takes bit `j` of `c` as its offset on axis `j`, for the 4 and 8 corners |
| Sampling.WeightOfTwo | point.go:142-148 | a 2-D corner weight is the product of `w` or `1-w` per axis |
| Sampling.WeightOfThree | point.go:150-160 | a 3-D corner weight is the product of `w` or `1-w` per axis |
| Sampling.CornerWeightNonNegative | point.go:142-160 | corner weights are never negative |
| Sampling.WeightsSumToOne | point.go:142-160 | the corner weights sum to 1 in 2-D and 3-D |
| Sampling.Clamp | point.go:175-180 | a clamped coordinate is in range and is unchanged when already in range |
| Sampling.ResolveInside | point.go:170-171 | an in-bounds corner is read as itself, whatever the fill |
| Sampling.AccumulateOutside | point.go:170-189 | with zero fill, corners that are all outside add nothing |
| Sampling.UnknownFillInside | point.go:164-238 | with an unknown fill type, blending succeeds when every corner is inside |
| Sampling.UnknownFillRefused | point.go:181-183 | with an unknown fill type, any outside corner makes the call fail |
| Sampling.AccumulateAtGridPoint | point.go:124-238 | at a grid point (all fractions 0) the blend is that pixel's value, with zero or nearest fill |
| Sampling.BlendWithinRange | point.go:164-238 | when every corner reads a value in `[lo, hi]`, the blend succeeds and lies in `[lo, hi]` |
| Sampling.SampleWithinRange | point.go:97-241 | with nearest fill, or zero fill and `lo <= 0 <= hi`, a sample of an image whose values lie in `[lo, hi]` lies in `[lo, hi]` |
| Sampling.NineGridCentre | point_test.go:173-178 | on the 3x3 image holding 1..9, the point (1,1) samples 5 |
| Sampling.NineGridAverage | point_test.go:181-186 | the point (0.5,0.5) samples 3, the average of 1, 2, 4 and 5 |
| Sampling.NineGridZeroOutside | point_test.go:189-194 | the point (-1,-1) with zero fill samples 0: the one corner inside has weight 0 |
| Sampling.NineGridNearestOutside | point_test.go:197-202 | the point (-0.5,-0.5) with nearest fill samples 1 |
| Sampling.ResolveCorner | point.go:170-189 | the per-axis bounds loop reads the corner, clamps it, skips it or fails as specified |
| Sampling.RelativePoint | point.go:99-102 | the loop computes `point - origin` on the image's axes |
| Sampling.PhysicalMatrix | point.go:104-116 | the method builds the specified index-to-physical matrix |
| Sampling.SplitCoordinates | point.go:124-132 | the loop computes the floors and fractional parts |
| Sampling.LinearIndex | point.go:192-198 | the linear index of an in-bounds corner is its axis-0-fastest offset, below the pixel count |
| Sampling.ReadPixel | point.go:202-235 | the pixel read is the grid value at that index |
| Sampling.AddCorner | point.go:164-237 | one iteration either fails as the specification does or adds the corner's term |
| Sampling.BlendCorners | point.go:164-238 | the corner loop computes the specified weighted sum |
| Sampling.GetPixelFromPoint | point.go:97-241 | the method returns exactly the specified sample of the image at the point |
| Resample.ComputeStrides | interpolate.go:44-48 | stride `j` is the product of the extents after axis `j` |
| Resample.CountPixels | interpolate.go:39-42 | the pixel count is the product of the extents |
| Resample.DigitsOfStrides | interpolate.go:44-71 | the stride digits of a position are its last-axis-slowest index |
| Resample.Decompose | interpolate.go:66-71 | the digit loop computes those digits |
| Resample.SamplePoint | interpolate.go:51-56 | the output point is `origin + index * spacing` |
| Resample.PixelAfterCopy | image.go:1236-1236 | a copy of a value into one pixel is that pixel's padded value |
| Resample.WriteAdvances | interpolate.go:66-75 | writing the next output pixel extends the written prefix by one |
| Resample.AllWritten | interpolate.go:50-76 | after the loop every in-bounds output pixel holds its resampled value |
| Resample.FillPixels | interpolate.go:50-76 | the loop succeeds exactly when every sample and conversion succeeds, and then every output pixel holds its resampled value |
| Resample.LinearResample | interpolate.go:27-79 | succeeds exactly for an accepted size whose samples all succeed; the result is a fresh image on the new grid whose every pixel is the converted sample of the source at that pixel's point |
| Resample.Resample | interpolate.go:18-25 | linear interpolation as above; any other interpolator is the error "unknown interpolation type" |
| Resample.UpsampleExample | interpolate_test.go:9-47 | in the 4x4 step image resampled to 8x8 at spacing 0.5, pixel (5,5) sits at (2.5,2.5), which samples 1 |
| Resample.UpsampleExamplePixel | interpolate_test.go:38-46 | the resampled pixel (5,5) is the encoding of 1 |
| Stats.RangeOfModulus | stats.go:5-90 | each integer type's range is `[0, 256^w)` unsigned, or `[-256^w/2, 256^w/2)` signed |
| Stats.Wrap | stats.go:313-378 | wrapping to a type gives the in-range value congruent modulo `256^w` |
| Stats.WrapOfSum | stats.go:313-378 | wrapping after each addition equals wrapping the whole sum |
| Stats.MinFromLeast | stats.go:5-90 | the running minimum is at most the start and every value, and is the start or one of the values |
| Stats.MaxFromGreatest | stats.go:92-177 | the running maximum is at least the start and every value, and is the start or one of the values |
| Stats.Min | stats.go:5-90 | for integer pixel types: nil exactly for an unknown type; otherwise the least pixel, a pixel itself, or the type's maximum for no pixels |
| Stats.Max | stats.go:92-177 | for integer pixel types: nil exactly for an unknown type; otherwise the greatest pixel, a pixel itself, or the type's minimum for no pixels |
| Stats.SumInto | stats.go:179-244 | the accumulation loop ends at the sum wrapped to the accumulator type |
| Stats.Sum | stats.go:179-244 | for integer pixel types: nil exactly for an unknown type; otherwise the sum in the 64-bit accumulator of the pixel's signedness, wrapped |
| Stats.SumOfNarrowTypes | stats.go:179-216 | for pixel types up to 32 bits and fewer than `2^32` pixels the 64-bit sum does not wrap |
| Stats.ExactMean | stats.go:246-311 | for integer pixel types: nil exactly for an unknown type; no pixels gives NaN; otherwise the 64-bit sum divided by the count |
| Stats.Mean | stats.go:313-378 | for integer pixel types: nil exactly for an unknown type; a division-by-zero panic exactly when the count is a multiple of the type's modulus; otherwise the truncated quotient of the pixel-typed wrapped sum and wrapped count |
| Stats.TruncDivBetween | stats.go:313-378 | Go's truncating quotient of a sum of `n` values in `[lo, hi]` lies in `[lo, hi]` |
| Stats.IntegerMeanBetween | stats.go:313-378 | corrected: the intended integer mean lies between the minimum and maximum pixel |
| Stats.MeanWithoutWrap | stats.go:313-320 | without overflow the as-written mean equals the intended one |
| Stats.MeanWrapsExample | stats.go:313-320 | as written: two `uint8` pixels of 200 have mean 72, below the minimum 200 |
| Stats.ZeroOneGridStatistics | stats_test.go:57-79 | on the `int8` grid of six 0s and six 1s: minimum 0, maximum 1, mean 0, exact mean 0.5 |
| Morph.HalfOfNegation | morph.go:100-100 | the loop bound `-kernelSize / 2` is the negated half-width, as Go's division truncates toward zero |
| Morph.PixelSet | morph.go:136-150 | a pixel is set when its `int8` reading is positive |
| Morph.Binarize2 | morph.go:136-150 | the 2-D binarising loop stores each pixel's 0/1 value, and optionally a copy |
| Morph.Stamp2 | morph.go:156-166 | stamping sets exactly the kernel window around the pixel and nothing else |
| Morph.DilateScan2 | morph.go:151-169 | the 2-D stamping scan leaves the dilation of the mask |
| Morph.CoveredIsDilated2 | morph.go:151-169 | a pixel covered by some stamp is exactly a dilated pixel |
| Morph.AllSet2 | morph.go:284-297 | the window check answers whether every pixel of the window is inside the image and set |
| Morph.ErodedAtTwo | morph.go:277-301 | a pixel survives erosion exactly when it is set and its whole window is inside and set |
| Morph.ErodeScan2 | morph.go:277-301 | the 2-D erosion scan clears exactly the pixels erosion removes |
| Morph.ErodedIs2 | morph.go:277-301 | after the scan the array holds the erosion of the mask |
| Morph.Flatten2 | morph.go:171-174 | the row-by-row copy produces the mask's 0/1 bytes in buffer order |
| Morph.FromGrid2 | morph.go:171-174 | the result image is a fresh `int8` image of that size holding the mask's 0/1 bytes |
| Morph.Binarize3 | morph.go:70-88 | the 3-D binarising loop stores each pixel's 0/1 value, and optionally a copy |
| Morph.Stamp3 | morph.go:100-113 | stamping sets exactly the kernel cube around the pixel |
| Morph.DilateScan3 | morph.go:91-119 | the 3-D stamping scan leaves the dilation of the mask |
| Morph.CoveredIsDilated3 | morph.go:91-119 | a voxel covered by some stamp is exactly a dilated voxel |
| Morph.AllSet3 | morph.go:217-236 | the cube check answers whether every voxel of the window is inside the image and set |
| Morph.ErodedAtThree | morph.go:207-243 | a voxel survives erosion exactly when it is set and its whole cube is inside and set |
| Morph.ErodeScan3 | morph.go:207-243 | the 3-D erosion scan clears exactly the voxels erosion removes |
| Morph.ErodedIs3 | morph.go:207-243 | after the scan the array holds the erosion of the mask |
| Morph.Flatten3 | morph.go:121-124 | the plane-by-plane copy produces the mask's 0/1 bytes in buffer order |
| Morph.FromGrid3 | morph.go:121-124 | the result image is a fresh `int8` image of that size holding the mask's 0/1 bytes |
| Morph.CopyGeometry | morph.go:176-178 | the result takes the input's origin, spacing and direction as the setters accept them |
| Morph.BinaryDilate2D | morph.go:132-180 | the result holds the dilation of the input's mask, with the input's geometry |
| Morph.BinaryErode2D | morph.go:256-312 | the result holds the erosion of the input's mask, with the input's geometry |
| Morph.BinaryDilate3D | morph.go:66-130 | the result holds the 3-D dilation of the input's mask, with the input's geometry |
| Morph.BinaryErode3D | morph.go:182-254 | the result holds the 3-D erosion of the input's mask, with the input's geometry |
| Morph.BinaryDilate | morph.go:10-19 | a result exactly for 2-D and 3-D images, holding the dilation |
| Morph.BinaryErode | morph.go:21-30 | a result exactly for 2-D and 3-D images, holding the erosion |
| Morph.MaskOfBytes01 | morph.go:136-150 | reading back the 0/1 bytes of a mask gives the mask |
| Morph.ChainStep | morph.go:43-48 | a result's own mask is the mask it holds, and its geometry is the input's |
| Morph.DilateRepeat | morph.go:43-48 | repeating the dilation `n` times holds `n` further dilations |
| Morph.ErodeRepeat | morph.go:56-61 | repeating the erosion `n` times holds `n` further erosions |
| Morph.Morphology | morph.go:32-64 | a result exactly for `iterations >= 1` and OPEN or CLOSE; OPEN is one erosion then `iterations` dilations, CLOSE one dilation then `iterations` erosions |
| Morph.DilateKeepsSet | morph.go:156-163 | dilation keeps every set pixel |
| Morph.ErodeKeepsClear | morph.go:282-297 | erosion never sets a clear pixel |
| Morph.ErodeClearsBorder | morph.go:290-292 | erosion clears every pixel whose window leaves the image |
| Morph.DilateOfPoint | morph_test.go:7-49 | dilating a single pixel gives the window around it |
| Morph.ErodeOfWindow | morph_test.go:94-136 | eroding a window that lies inside gives its centre pixel |
| Morph.CloseOfPoint | morph_test.go:182-224 | closing a single pixel with one iteration gives that pixel back |
| Morph.OpenOfWindow | morph_test.go:225-267 | opening an inner window with one iteration gives the window back |
| Morph.FiveByFiveExamples | morph_test.go:7-49 | on the 5x5 image with kernel size 3: the centre dilates to the 3x3 window at 1..3, the window erodes to the centre, and close and open return their inputs |
| Flatten.FlatLength | utils.go:5-24 | the flattening has one value per leaf |
| Flatten.FlatOfLeaves | utils.go:12-15 | a slice of leaves flattens to those values in order |
| Flatten.FlatOfJoin | utils.go:12-15 | joining two slices joins their flattenings |
| Flatten.RowMajor | utils.go:5-24 | a rectangular matrix flattens with entry `(i, j)` at `i * cols + j` |
| Flatten.Volume | utils.go:5-24 | a rectangular volume flattens with entry `(p, i, j)` at `p * rows * cols + i * cols + j` |
| Flatten.Flattener.constructor | utils.go:6-7 | the result starts empty |
| Flatten.Flattener.Helper | utils.go:9-19 | the helper appends the leaves of its argument, in order |
| Flatten.FlattenValues | utils.go:5-24 | the result is the flattening of the data, one value per leaf |
| Text.TrimSpace | io.go:154-155 | the trimmed string is a piece of the input with only spaces cut from both ends, and has no space at either end |
| Text.TrimOfPadded | io.go:154-155 | trimming a trimmed string padded with spaces gives it back |
| Text.TrimSpaceIdempotent | io.go:154-155 | trimming twice is trimming once |
| Text.Split | io.go:149-152 | splitting gives one more part than separators, none holding the separator |
| Text.JoinOfSplit | io.go:149-152 | joining the parts with the separator gives the input back |
| Text.SplitOfJoin | io.go:149-152 | splitting a join of separator-free parts gives those parts |
| Text.Fields | io.go:163-166 | the fields are nonempty and hold no space |
| Text.FieldsKeepNonSpace | io.go:163-166 | the fields together hold exactly the non-space characters, in order |
| Text.FieldsOfWords | io.go:343-347 | the fields of words joined with single spaces are those words |
| Text.LinesOfUnlines | io.go:146-148 | the lines of text written line by line are those lines |
| FilePaths.LastIndex | io.go:228-232 | the last occurrence of a character, or none exactly when it is absent |
| FilePaths.CleanOfCanonical | io.go:228-232 | cleaning a canonical directory path leaves it unchanged |
| FilePaths.DirOfChild | io.go:228-232 | the directory of `d/b` is `d` |
| FilePaths.JoinOfChild | io.go:228-232 | joining a canonical directory and a name is `d/b` |
| FilePaths.DirAndJoinOfName | io.go:228-232 | a bare name's directory is `.` and joining `.` with it gives the name |
| FilePaths.DirAndJoinWithin | io.go:228-232 | a file in `d`, or in the working directory, has directory `d` and base name `b` |
| MetaIO.PixelTypeOfName | io.go:202-225 | a name is accepted exactly when some pixel type carries it, and then gives that type |
| MetaIO.NameRoundTrip | io.go:360-385 | the name written for a type reads back as that type |
| MetaIO.StoredTypeOfWidth | io.go:99-130 | the raw reader stores pixels in the unsigned or float type of the same width, the type itself exactly for `uint8`, `uint16`, `float32` and `float64` |
| MetaIO.ReadRaw | io.go:43-133 | succeeds exactly when the file exists, the type is known and the cube root's 32-bit square is nonzero; then it keeps the file's whole pixels, dropping a partial pixel, as a 3-D image with the stored type of the same width |
| MetaIO.RawReadsBack | io.go:43-133 | a raw file of whole pixels reads back as exactly its bytes |
| MetaIO.ReadHeader | io.go:146-195 | the line loop computes the specified header |
| MetaIO.ReadLine | io.go:148-156 | one line is split at `=` and applied as a trimmed key and value |
| MetaIO.ReadEntry | io.go:157-194 | one key updates the field that the key names |
| MetaIO.LineWithoutOneEquals | io.go:149-152 | a line without exactly one `=` changes nothing |
| MetaIO.DirectionHasNine | io.go:168-173 | the parsed direction always has nine entries |
| MetaIO.ReadImage | io.go:32-41 | the specified load; an unknown image type is an error; a MetaImage's pixel type is the one its ElementType names |
| MetaIO.WriteRaw | io.go:272-323 | the raw file is the pixel buffer, as whole pixels |
| MetaIO.HeaderValues | io.go:340-398 | the header's eleven values: the fixed words, the dimension, extents, matrix, offset, element type, spacing and data file |
| MetaIO.HeaderLines | io.go:340-398 | each header line is `key = value` in the writer's key order |
| MetaIO.WriteSpaced | io.go:343-347 | the extents loop writes the values separated by single spaces |
| MetaIO.WriteTerminated | io.go:348-352 | the matrix and offset loops write each value followed by a space |
| MetaIO.WriteHeader | io.go:339-398 | the header text is the header lines, each ended by a newline |
| MetaIO.Save | io.go:249-270 | the specified files; succeeds exactly for the raw and MetaImage types; keeps every existing file |
| MetaIO.HeaderReadsAsEntries | io.go:146-195 | reading the written lines applies exactly the written key/value entries |
| MetaIO.HeaderRoundTrip | io.go:340-398 | reading a written header gives back its dimension, extents, element type name and data file |
| MetaIO.SavedFiles | io.go:325-401 | saving a MetaImage in a directory writes the raw bytes beside the header |
| MetaIO.SaveThenLoad | io.go:325-401 | saving a MetaImage in a directory and loading it gives back the dimension, extents, pixel type and raw bytes |
| MetaIO.RawPathsWithin | io.go:327-330 | in a directory the recorded data file name is the raw file's own name |
| MetaIO.RawBaseAsWrittenInWorkingDirectory | io.go:396-398 | as written: for `test.mhd` in the working directory the header records `st.raw` |
| MetaIO.RawBaseNameFound | io.go:228-232 | corrected: with the raw file's base name the reader finds the raw file in any directory, the working directory included |

## Left out

- Number formatting and scanning (`fmt.Fprintf`, `fmt.Sscanf`) and text encoding: these are the `Writer` and `Reader` parameters of `MetaIO`. The round trips require that the reader scans back what the writer prints.
- The raw reader's edge length `uint32(math.Pow(float64(totalPixels), 1.0/3))` (io.go:88-90) is the `cubeRoot` parameter. The round-trip lemmas require only `CubeRootFits` of it: for a positive count the root is positive and below `2^16`.
- File-system errors other than a missing file, the scanner's 64 KiB line limit, and Windows path syntax.
- The raw reader and the MetaImage reader leave `bytesPerPixel` unset. The model returns 0 there and does not model later calls on such an image.
- stats.go and io.go as shown do not compile against image.go: they apply type assertions such as `img.pixels.([]uint8)` to, and assign `[]uint16`, `[]float32` and `[]float64` slices to, a field declared `[]byte` (image.go:50). The model reads that byte buffer as a sequence of integers (statistics) or of bytes (the readers and writers).
- Float pixels: bit decoding (`math.Float32frombits`) and float casts are parameters (`floatValue`, `Convert.FloatCasts`, `encode`). Arithmetic in point.go and interpolate.go is over exact reals.
- Stats.ExactMean: float pixel types are excluded by `Typed`; the float branches are not modelled. The final division is exact; rounding of `float64` is not modelled.
- Stats.Min: float pixel types are excluded by `Typed`; the float branches are not modelled.
- Stats.Max: float pixel types are excluded by `Typed`; the float branches are not modelled.
- Stats.Sum: float pixel types are excluded by `Typed`; the float branches are not modelled.
- Stats.Mean: float pixel types are excluded by `Typed`; the float branches are not modelled.
- The converters that lie outside the core (`getValueAsBytes`, `getValueAsPixelType`, `flattenToBytes`, `pixelTypeConverters`, `GetPixelAs*`) are function parameters (`encoded`, `flattened`, `toInt8`).
- Goroutines run sequentially: the fan-out in `GetArrayFromImage` and the per-plane work in morphology. The chunk arithmetic of `GetArrayFromImage` is proved instead (`Layout.ChunksPartition`). `AsType` computes a goroutine count and chunk size (image.go:879-883) but never uses them; its conversion loops are sequential.
- `GetArrayFromImage` and `GetImageFromArray`: the reflection-driven reshaping is not modelled. Morphology's result construction is modelled for `int8` grids only (`Morph.FromGrid2`, `Morph.FromGrid3`). Note that `GetArrayFromImage` relies on the as-written `GetIndexFromLinearIndex` (see Findings).
- Flatten.FlattenValues: only slices are descended into; `reflect` arrays, maps and structs count as leaves, as in the source.
- Images.Image.SetSpacing and Images.Image.SetOrigin: the source stores the caller's slice itself (image.go:1194-1213), so later changes the caller makes to it show through the image; the model stores the values, and this aliasing is not captured.
- Images.Image.GetPixel: the `uint32` wrap of the offset is not modelled; offsets are exact.
- Images.Image.SetPixel: the `uint32` wrap of the offset is not modelled; offsets are exact.
- Sampling.GetPixelFromPoint: the `uint32` wrap of the extent product is not modelled, and floats are exact reals.
- Images.Image.LinearOffset: offsets are exact, with no `uint32` wrap.
- Go panics (an index out of range, a nil dereference) are preconditions. This includes `Morphology` on an image that is neither 2-D nor 3-D, where the source dereferences a nil result.
- Morph.Morphology: requires a 2-D or 3-D image whenever a result is produced, because the source panics otherwise.
- Stats.Mean: the division-by-zero panic is modelled as an outcome, not as a precondition.
- MetaIO.ReadRaw: the division by zero for an unknown pixel code (`bytesPerPixel` stays 0 at io.go:82) is modelled as the outcome `Err(DivideByZero)`, not as a precondition.

## Findings

| source | as written | input that shows it | evidently intended | confidence | as-written member | corrected member |
|---|---|---|---|---|---|---|
| image.go:1277-1304 | the remainder is reduced modulo the sub-array size of the first axis (1), so every later axis reads 0, and the reversal then puts axis 0's value last | a 2x2 image: positions 0 and 2 both give `[0, 0]` | the inverse of the axis-0-fastest offset used by `GetPixel` | high, not executed | Images.AsWrittenIndexCounterexample | Images.Image.LinearIndexToIndex |
| image.go:1260-1274 | the product of the new extents and the pixel count are compared after wrapping to 32 bits | extents `[65536, 65537]` on an image of 65536 pixels are accepted | accept only extents whose true product is the pixel count | medium, not executed | Images.SetSizeWrapAccepted | Images.Image.SetSizeExact |
| image.go:979-982 | an `int8` source byte is widened with `uint16(byte)`, so it is zero-extended | the `int8` pixel -1 converts to the `int16` value 255 | sign extension, keeping the value | medium, not executed | Convert.SignedWideningAsWritten | Convert.SignedWideningCorrected |
| stats.go:313-378 | `Mean` sums and divides in the pixel type itself, so both the sum and the count wrap | two `uint8` pixels of 200 give the mean 72 | the mean computed without wrapping, which lies between the minimum and maximum pixel | high, not executed | Stats.MeanWrapsExample | Stats.IntegerMeanBetween |
| io.go:396-398 | the data file name is cut `len(Dir(raw)) + 1` characters in, which drops two characters when the directory is `.` | saving `test.mhd` in the working directory records `st.raw` | the raw file's base name | high, not executed | MetaIO.RawBaseAsWrittenInWorkingDirectory | MetaIO.RawBaseNameFound |
| image.go:1138-1141 | a `float64` pixel's eight bytes are read as an unsigned integer (`binary.LittleEndian.Uint64`) and that integer is cast to `float32` | the `float32` pixel 1.0 converted to `float64` and back has the bits `0x5E7FC000`, about 4.6e18 | narrow the `float64` value itself (`math.Float64frombits` before the cast) | high, not executed | Convert.FloatNarrowingAsWritten | Convert.FloatRoundTripCorrected |
| image.go:1108-1134 | signed pixels converted to `float32` (and likewise to `float64` at image.go:1151-1177) are read unsigned: the `int8` byte itself, the wider types through `binary.LittleEndian.UintN` | the `int8` pixel -1 converts to the `float32` 255.0 | convert the signed value, keeping its sign | high, not executed | Convert.SignedToFloatAsWritten | Convert.SignedToFloatCorrected |
