# Netpbm image transforms and token registry, modelled in Dafny

`hw4.cpp` is an interactive image tool. It imports netpbm images under `$`-prefixed
token names and transforms them in place with C++ operators:

- `+=` turns the image by quarter turns;
- `*=` resizes it;
- `!` inverts its brightness;
- `~` equalises its histogram;
- `*` mirrors it left to right.

It also converts images between the grayscale (`GSCImage`), RGB (`RGBImage`) and YUV
(`YUVImage`) classes.

This project models that engine and the token registry, and proves what they do.

| file | module | what it holds |
|---|---|---|
| `grids.dfy` | `Grids` | a row-major grid value and the quarter turns and mirror on it, with their algebraic laws |
| `pixels.dfy` | `Pixels` | the three pixel variants, the byte casts, the integer colour-space formulas, inversion, the four-sample mean, the luminance relabelling |
| `photometry.dfy` | `Photometry` | whole-grid inversion and conversions, with round-trip laws |
| `resampling.dfy` | `Resampling` | the box-filter resize over given scaled coordinates, and an exact-arithmetic reference for those coordinates |
| `equalization.dfy` | `Equalization` | the integer histogram, the cumulative lookup table, the luminance rewrite and their laws |
| `images.dfy` | `Images` | the image class: a fixed kind, `width`, `height`, the ceiling `max_luminocity` and a two-dimensional pixel array; each operator is a method |
| `registry.dfy` | `Registry` | the `vector<Token>` registry: exists, find, delete-first-match and import |
| `wrappers.dfy` | `Wrappers` | `Option` |

Each imperative operator is a method of `Images.Image` and is written as the source writes it:

- nested loops fill a fresh array (rotate, resize) or rewrite the array in place (mirror, invert, equalise);
- the histogram is built by in-place increments of a counter array.

Each method's `ensures` equates the new contents with a grid function of the old ones.
The laws of those functions are proved as lemmas.

The three C++ classes become one class whose `kind` is fixed when the image is built.
Each virtual operator branches on the kind. The overrides that return `*this` untouched
are explicit no-op branches: YUV rotate, resize, invert and mirror, and RGB equalise.

Bytes are integers in `[0, 255]`. A cast to `unsigned char` is `% 256` (`Pixels.ToByte`),
and `>> 8` on a possibly negative `int` is floor division by 256 (`Pixels.Shr8`).

## Model

| member | source | states |
|---|---|---|
| `Grids.RotateCw` | hw4.cpp:595-611 | one clockwise step (`new[i][j] = old[height-j-1][i]`) swaps width and height and yields a well-formed grid |
| `Grids.RotateCcw` | hw4.cpp:613-630 | one counter-clockwise step (`new[i][j] = old[j][width-i-1]`) swaps width and height |
| `Grids.TurnsCw` | hw4.cpp:596-611 | `n` clockwise steps keep the dimensions for even `n` and swap them for odd `n` |
| `Grids.TurnsCcw` | hw4.cpp:615-630 | the same for `n` counter-clockwise steps |
| `Grids.Rotated` | hw4.cpp:593-634 | `image += times` on the grid: the result is a grid, with width and height kept for an even count and swapped for an odd one |
| `Grids.CcwUndoesCw` | hw4.cpp:593-634 | a clockwise step followed by a counter-clockwise step restores the grid, width and height |
| `Grids.CwUndoesCcw` | hw4.cpp:593-634 | a counter-clockwise step followed by a clockwise step restores the grid |
| `Grids.FourCwTurnsAreIdentity` | hw4.cpp:595-611 | four clockwise steps restore the grid |
| `Grids.FourCcwTurnsAreIdentity` | hw4.cpp:613-630 | four counter-clockwise steps restore the grid |
| `Grids.TurnsCwAdd` | hw4.cpp:596-611 | `m` clockwise steps then `n` more are `m + n` steps |
| `Grids.CcwTurnsAsCwTurns` | hw4.cpp:613-630 | `r < 4` counter-clockwise steps equal `(4 - r) % 4` clockwise steps |
| `Grids.RotatedByResidue` | hw4.cpp:593-634 | `image += times` turns the grid exactly as `times mod 4` (Euclidean) clockwise steps would, for positive and negative counts alike |
| `Grids.RotatedByMultipleOfFour` | hw4.cpp:593-634 | a count that is a multiple of 4, positive or negative, leaves the grid unchanged |
| `Grids.RotateThenUnrotate` | hw4.cpp:593-634 | `+= times` followed by `+= -times` restores the grid |
| `Grids.Mirrored` | hw4.cpp:721-728 | the mirror keeps width and height; pixel (i, j) moves to (i, width-1-j) in its own row |
| `Grids.MirrorInvolution` | hw4.cpp:721-728 | mirroring twice restores every pixel |
| `Pixels.Clamp` | hw4.cpp:449-468 | the clamp yields a byte and leaves a value already in [0, 255] unchanged |
| `Pixels.LumaOf` | hw4.cpp:359 | for byte channels the luma formula lies in [16, 235] |
| `Pixels.BlueDifferenceOf` | hw4.cpp:360 | for byte channels the U formula lies in [16, 240] |
| `Pixels.RedDifferenceOf` | hw4.cpp:361 | for byte channels the V formula lies in [16, 240] |
| `Pixels.RgbToYuv` | hw4.cpp:359-365 | for byte inputs Y lies in [16, 235] and U, V in [16, 240], so the casts never wrap; each channel equals its BT.601 integer formula |
| `Pixels.RedOf` | hw4.cpp:445 | reconstructed red spans [-223, 481] before the clamp |
| `Pixels.GreenOf` | hw4.cpp:446 | reconstructed green spans [-171, 432] before the clamp |
| `Pixels.BlueOf` | hw4.cpp:447 | reconstructed blue spans [-277, 534] before the clamp |
| `Pixels.ReconstructionLeavesByteRange` | hw4.cpp:445-468 | the clamp is needed on both sides: red reaches 481 and green reaches -171, clamped to 255 and 0 |
| `Pixels.YuvToRgb` | hw4.cpp:445-472 | each channel equals its formula clamped to [0, 255] |
| `Pixels.YuvRoundTripError` | hw4.cpp:445-472 | RGB to YUV to RGB moves red and green by at most 2 and blue by at most 3 |
| `Pixels.BlueRoundTripReachesThree` | hw4.cpp:445-447 | the blue bound is reached: (0, 4, 230) goes to YUV (40, 227, 110) and comes back with blue 227 |
| `Pixels.GrayToRgb` | hw4.cpp:746-752 | the RGB pixel has three equal channels, each the gray value |
| `Pixels.RedToGray` | hw4.cpp:536 | the gray value is the red channel; replicating it back gives the same RGB pixel exactly when its three channels are equal |
| `Pixels.GrayRgbRoundTrip` | hw4.cpp:746-752 | a replicated gray value has three equal channels, and reading its red channel gives the value back |
| `Pixels.InvertSample` | hw4.cpp:672 | the sample becomes `ceiling - v` whenever that is a byte; otherwise it wraps modulo 256 |
| `Pixels.InvertSampleTwice` | hw4.cpp:668-676 | inverting one sample twice against any ceiling restores it, wrap-around included |
| `Pixels.InvertTwice` | hw4.cpp:291-300 | inverting a grayscale or RGB pixel twice restores it; all three RGB channels use the same ceiling |
| `Pixels.Invert` | hw4.cpp:293-297 | inversion keeps the pixel's variant |
| `Pixels.Mean4` | hw4.cpp:649-650 | the integer quarter of four samples lies between their minimum and maximum, so the cast never wraps |
| `Pixels.Blend` | hw4.cpp:266-276 | an output pixel of a resize has the variant of its neighbours |
| `Pixels.Relabel` | hw4.cpp:411-418 | relabelling keeps the variant and U, V, and sets the luminance to the table entry when that entry is a byte |
| `Photometry.Inverted` | hw4.cpp:668-676 | whole-image inversion keeps width, height and kind |
| `Photometry.InvertedTwice` | hw4.cpp:291-300 | inverting an image twice restores it |
| `Photometry.ConvertPixel` | hw4.cpp:348-370 | every conversion yields a pixel of the target kind |
| `Photometry.Converted` | hw4.cpp:430-479 | a converted image keeps width and height and is uniformly of the target kind |
| `Photometry.GrayThroughRgbRoundTrip` | hw4.cpp:525-540 | grayscale to RGB and back by the red channel is the identity on images |
| `Photometry.RgbThroughYuvError` | hw4.cpp:348-370 | image-level RGB to YUV to RGB error: within 2 on red and green and within 3 on blue, at every pixel |
| `Resampling.ClampIndex` | hw4.cpp:644-647 | `min(x, n-1)` of a non-negative coordinate is a valid index, is at most `x`, and is `x` when `x` is in range |
| `Resampling.Sample` | hw4.cpp:644-652 | an output pixel of a grayscale or RGB resize keeps the kind |
| `Resampling.Resized` | hw4.cpp:636-666 | the output has the new dimensions and keeps the kind |
| `Resampling.ResizedGrayWithinNeighbours` | hw4.cpp:644-650 | a grayscale output sample is the quarter of the sum of its four clamped neighbours and lies between their minimum and maximum |
| `Resampling.ResizedRgbWithinNeighbours` | hw4.cpp:257-276 | the same holds for each RGB channel |
| `Resampling.IdentityAxis` | hw4.cpp:644-647 | the coordinates of factor 1 form a valid axis of the same size |
| `Resampling.ResizeByIdentity` | hw4.cpp:636-666 | resampling with identity coordinates reproduces the image |
| `Resampling.Ceil` | hw4.cpp:645 | the ceiling of a real is the least integer not below it |
| `Resampling.ScaleAxis` | hw4.cpp:637-647 | exactly computed sizes and floor/ceil coordinates form a valid axis that is empty when the source axis is |
| `Resampling.ScaleAxisByOne` | hw4.cpp:637-647 | factor 1 gives the identity coordinates |
| `Resampling.ResizeByOne` | hw4.cpp:636-666 | resizing by factor 1, with exactly computed coordinates, reproduces the image |
| `Equalization.SumIncrement` | hw4.cpp:685 | one increment of a bucket adds one to the total |
| `Equalization.PrefixSumMonotone` | hw4.cpp:696-700 | cumulative counts never decrease and never exceed the total |
| `Equalization.Tally` | hw4.cpp:683-686 | counting the first `n` pixels of a row keeps one counter per bucket and adds `n` to the total |
| `Equalization.TallyRows` | hw4.cpp:682-687 | counting the first `n` rows of `width` pixels adds `n * width` to the total |
| `Equalization.Histogram` | hw4.cpp:680-687 | the histogram has one bucket per luminance value (256 grayscale, 236 YUV) and its buckets sum to `width * height` |
| `Equalization.CountRow` | hw4.cpp:683-686 | a plain count of the pixels of a row with luminance `v`, never more than the pixels counted |
| `Equalization.TallyCounts` | hw4.cpp:683-686 | the increments of one row add to bucket `v` exactly the number of its pixels of luminance `v` |
| `Equalization.TallyRowsCounts` | hw4.cpp:682-687 | the increments of the first `n` rows add to bucket `v` the number of their samples of luminance `v` |
| `Equalization.HistogramCounts` | hw4.cpp:680-687 | every bucket `v` of the histogram holds exactly the number of samples of luminance `v` |
| `Equalization.Table` | hw4.cpp:690-706 | the lookup table has one entry per luminance value |
| `Equalization.ScaledIsFloor` | hw4.cpp:705 | each entry is the truncation of `ceiling * cumulative / total`: the largest integer whose multiple of the total does not exceed `ceiling * cumulative` |
| `Equalization.TableTopIsCeiling` | hw4.cpp:697-705 | in a non-empty image the brightest bucket maps to the ceiling, because its cumulative share is the whole image |
| `Equalization.TableBounded` | hw4.cpp:703-706 | every table entry lies in [0, ceiling], so the casts of the rewrite never wrap |
| `Equalization.TableMonotone` | hw4.cpp:690-706 | a brighter input never maps below a darker one |
| `Equalization.EqualizationTable` | hw4.cpp:405-408 | the YUV table lies in [0, 235] and the grayscale table in [0, 255] |
| `Equalization.Relabelled` | hw4.cpp:709-716 | the rewrite keeps width and height |
| `Equalization.Equalized` | hw4.cpp:382-422 | equalisation keeps kind (luma stays at most 235), width and height; each luminance sample becomes its table entry; U and V are untouched |
| `Equalization.FlatHistogram` | hw4.cpp:680-687 | an image of one luminance `c` puts all `width * height` samples in bucket `c` |
| `Equalization.FlatImageEqualizesToCeiling` | hw4.cpp:678-719 | a non-empty image of one luminance value equalises to the ceiling (255 grayscale, 235 YUV) |
| `Images.Image.constructor` | hw4.cpp:542-562 | a grayscale image read by the P2 reader, or an RGB image read by the P3 reader (hw4.cpp:153-172), holds the given grid and ceiling; there is no YUV reader |
| `Images.ConvertRow` | hw4.cpp:354-367 | one row of a conversion holds the per-pixel formula of every source pixel; the other rows are untouched |
| `Images.Image.Convert` | hw4.cpp:348-370 | the converted image holds the converted grid; its ceiling is 235 for YUV, the source's for grayscale by red, and the never-set field for RGB |
| `Images.Image.FillClockwiseRow` | hw4.cpp:214-217 | one row of the clockwise copy reads `pixels[height-j-1][i]`; the other rows are untouched |
| `Images.Image.FillCounterClockwiseRow` | hw4.cpp:233-236 | one row of the counter-clockwise copy reads `pixels[j][width-i-1]` |
| `Images.Image.TurnClockwise` | hw4.cpp:211-226 | the new contents are the clockwise turn of the old; width and height swap; the ceiling is kept |
| `Images.Image.TurnCounterClockwise` | hw4.cpp:230-245 | the new contents are the counter-clockwise turn of the old; width and height swap |
| `Images.Image.Rotate` | hw4.cpp:208-249 | grayscale and RGB images become `Rotated(old, times)`; a YUV image is unchanged (hw4.cpp:379) |
| `Images.Image.Swap` | hw4.cpp:724 | two samples of a row trade places and nothing else changes |
| `Images.Image.MirrorRow` | hw4.cpp:723-725 | one row is reversed in place by `width/2` swaps; the other rows are untouched |
| `Images.Image.Mirror` | hw4.cpp:306-314 | grayscale and RGB images become their mirror; a YUV image is unchanged (hw4.cpp:424) |
| `Images.Image.InvertRow` | hw4.cpp:670-673 | every sample of one row is inverted; the other rows are untouched |
| `Images.Image.Invert` | hw4.cpp:668-676 | grayscale and RGB images become `Inverted(old, max_luminocity)`; a YUV image is unchanged (hw4.cpp:381) |
| `Images.Image.FillResizedRow` | hw4.cpp:643-653 | one output row holds the blend of the four clamped neighbours of every sample; the other rows are untouched |
| `Images.Image.Resize` | hw4.cpp:251-289 | grayscale and RGB images become the resample of the old contents; a YUV image is unchanged (hw4.cpp:380) |
| `Images.Image.TallyRow` | hw4.cpp:683-686 | one row's increments add that row's `Tally` to the counters |
| `Images.Image.TallyAll` | hw4.cpp:682-687 | starting from zero counters, the row-by-row increments leave exactly the histogram of the image |
| `Images.Image.Histogram` | hw4.cpp:383-389 | the counter array equals the histogram of the image: its buckets sum to `width * height` and bucket `v` counts the samples of luminance `v` |
| `Images.Image.RelabelRow` | hw4.cpp:710-715 | every luminance sample of one row goes through the table |
| `Images.Image.RelabelAll` | hw4.cpp:709-716 | with a table whose entries fit the kind, the image stays valid and becomes `Relabelled` of its old contents |
| `Images.Image.Equalize` | hw4.cpp:678-719 | grayscale and YUV images become `Equalized(old)`; an RGB image is unchanged (hw4.cpp:302-304) |
| `Registry.TokenExists` | hw4.cpp:807-813 | `tokenExists` holds exactly when some token carries the name |
| `Registry.FirstMatch` | hw4.cpp:815-823 | a match exists exactly when some token carries the name; it is the first such position |
| `Registry.FirstMatchAt` | hw4.cpp:817-820 | the scan stops at the first position holding the name |
| `Registry.TokenDatabase.Find` | hw4.cpp:815-823 | `findToken` returns the first matching position, and it is non-null exactly when `tokenExists` holds |
| `Registry.Erased` | hw4.cpp:913-919 | without a token of the name the list is unchanged; otherwise it is one shorter, and exactly the first token of the name is gone from its multiset |
| `Registry.ErasedKeepsOthers` | hw4.cpp:913-919 | erasing keeps exactly the tokens without the name, and shortens the list by one exactly when the name was present |
| `Registry.ErasedKeepsUnique` | hw4.cpp:913-919 | erasing keeps names unique |
| `Registry.ErasedRemovesName` | hw4.cpp:913-919 | with unique names, no token with the name is left |
| `Registry.TokenDatabase.Delete` | hw4.cpp:911-924 | `deleteToken` erases the first token with the name, keeping the others in order, and leaves the registry unchanged when there is none; names stay unique |
| `Registry.TokenDatabase.Import` | hw4.cpp:952-972 | a name without `$` or already taken is refused before reading; a failed read appends nothing; otherwise the token is appended; names stay unique |

## Behaviour worth knowing

- Equalising a non-empty image of one flat luminance sends every sample to the ceiling:
  255 for grayscale, 235 for YUV. All the mass sits in one bucket, so its cumulative
  share is 1 (`Equalization.FlatImageEqualizesToCeiling`). The image therefore changes,
  unless its flat value already is the ceiling.
- The RGB to YUV to RGB round trip is not within ±2 on every channel. Blue can move by 3
  (`Pixels.BlueRoundTripReachesThree`). Red and green stay within 2
  (`Pixels.YuvRoundTripError`).
- Grayscale equalisation scales by the literal 255, not by the image's own
  `max_luminocity` (hw4.cpp:705). YUV equalisation scales by 235 (hw4.cpp:407).

## Left out

- File and console I/O is not modelled. This covers `readNetpbmImage`, the `istream`
  constructors' parsing, `fileExists`, the three `export*Image` writers, `operator<<`
  and the `main` command loop. The unnamed `Images.Image` constructor stands for the
  state a well-formed file leaves. `Registry.TokenDatabase.Import` takes the read's
  result as a parameter.
- The mismatched-header path of the `istream` constructors is not modelled. It returns
  with width, height and pixels unset, so there is no state to model.
- The perceptual grayscale constructor `GSCImage(const RGBImage &)` (hw4.cpp:508-523)
  is not modelled: it computes `0.3R + 0.59G + 0.11B` in floating point.
- Images.Image.Resize: the new size `(int)(width * factor)` and the `floor`/`ceil` of
  `i / factor` are computed in `double` by the source. Here they are the parameter
  `Axis` values. `Resampling.ScaleAxis` computes them in exact real arithmetic, which
  can differ from `double` rounding. A zero or negative factor is not modelled: axis
  coordinates are non-negative.
- Equalization.Table: the source accumulates the cumulative distribution in `double`
  and truncates `cdf * ceiling`. The model uses the exact rational
  `ceiling * prefix / total`. Where `double` rounding lands just below an integer, the
  source's entry can be one lower. The source divides by zero for an empty image; the
  model gives an all-zero table, and an empty image has no samples to rewrite.
- Memory and ownership are not modelled. This covers `new`/`delete` of rows, copy
  constructors, assignment operators and destructors. It also covers the conversion
  constructors deleting their source (hw4.cpp:478, hw4.cpp:756) and `deleteToken`
  deleting the token's image (hw4.cpp:918). `Images.Image.Convert` leaves its source
  alone.
- Images.Image.Convert: an RGB image made by conversion never initialises its
  `max_luminocity`. The model takes that indeterminate value as the parameter
  `leftover` instead of choosing one.
- The shadowing of `max_luminocity` by `GSCImage` and `YUVImage` is not modelled. The
  model keeps one ceiling per image: the subclass field for grayscale and YUV, the
  inherited one for RGB. `getMaxLuminocity()` on a grayscale or YUV image reads the
  shadowed, unset base field; only `operator<<` uses it, and that is left out.
- Fixed-width integers are not modelled. `width`, `height` and the counters are
  unbounded, so `abs(INT_MIN)` in `+=` and overflow of `width * height` are outside
  the model.
- Registry.TokenDatabase.Find returns a position instead of a pointer to the token.
  A token's image is a reference to an `Images.Image` object.
- Registry.TokenDatabase.Import requires a non-empty name. The source reads
  `token[0]`, and the command splitter never yields an empty word.
