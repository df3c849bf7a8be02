/** The three pixel variants and the arithmetic done on one pixel at a time:
    the colour-space conversions, the brightness inversion, the four-sample
    average used by resizing and the luminance relabelling used by equalisation. */
module Pixels {

  /** An `unsigned char` sample. */
  type Byte = x: int | 0 <= x < 256

  /** `static_cast<unsigned char>` of an int: the value modulo 256. */
  function ToByte(x: int): (b: Byte)
    ensures 0 <= x < 256 ==> b == x
  {
    x % 256
  }

  /** `x >> 8` on a signed int is an arithmetic shift, i.e. floor division by 256
      (Dafny's `/` with a positive divisor already rounds toward negative infinity). */
  function Shr8(x: int): int
  {
    x / 256
  }

  /** The bits `x >> 8` drops are the remainder of `x` modulo 256. */
  lemma Shr8Remainder(x: int)
    ensures 256 * Shr8(x) == x - x % 256 && 0 <= x % 256 < 256
  {
  }

  /** The if/else-if clamp of a reconstructed channel into [0, 255]. */
  function Clamp(x: int): (c: Byte)
    ensures 0 <= x < 256 ==> c == x
  {
    if x < 0 then 0 else if x > 255 then 255 else x
  }

  /** Which image class a pixel belongs to. */
  datatype Kind = GrayKind | RgbKind | YuvKind

  datatype Pixel =
    | Gray(value: Byte)
    | Rgb(red: Byte, green: Byte, blue: Byte)
    | Yuv(y: Byte, u: Byte, v: Byte)

  /** A pixel that can sit in an image of kind `k`. Luma/chroma images only ever hold
      luma in [0, 235]: their histogram has 236 buckets. */
  predicate Fits(p: Pixel, k: Kind)
  {
    match k
    case GrayKind => p.Gray?
    case RgbKind => p.Rgb?
    case YuvKind => p.Yuv? && p.y <= 235
  }

  // ---------------------------------------------------------------------------
  // RGB -> YUV: the 8-bit integer approximation of studio-range Y'CbCr of
  // section 2.5 of Recommendation ITU-R BT.601-7.

  /** Luma before the cast to `unsigned char`: for byte channels it lies in [16, 235]. */
  function LumaOf(r: Byte, g: Byte, b: Byte): (y: int)
    ensures 16 <= y <= 235
  {
    Shr8(66 * r + 129 * g + 25 * b + 128) + 16
  }

  /** Blue colour difference (U) before the cast: for byte channels it lies in [16, 240]. */
  function BlueDifferenceOf(r: Byte, g: Byte, b: Byte): (u: int)
    ensures 16 <= u <= 240
  {
    Shr8(-38 * r - 74 * g + 112 * b + 128) + 128
  }

  /** Red colour difference (V) before the cast: for byte channels it lies in [16, 240]. */
  function RedDifferenceOf(r: Byte, g: Byte, b: Byte): (v: int)
    ensures 16 <= v <= 240
  {
    Shr8(112 * r - 94 * g - 18 * b + 128) + 128
  }

  /** The pixel conversion of `YUVImage(const RGBImage &)`. For byte inputs luma lies in
      [16, 235] and both colour differences in [16, 240], so the `unsigned char` casts
      never wrap: the stored samples are the formula values themselves. */
  function RgbToYuv(p: Pixel): (q: Pixel)
    requires p.Rgb?
    ensures Fits(q, YuvKind)
    ensures 16 <= q.y <= 235 && 16 <= q.u <= 240 && 16 <= q.v <= 240
    ensures q.y == LumaOf(p.red, p.green, p.blue)
    ensures q.u == BlueDifferenceOf(p.red, p.green, p.blue)
    ensures q.v == RedDifferenceOf(p.red, p.green, p.blue)
  {
    Yuv(ToByte(LumaOf(p.red, p.green, p.blue)),
        ToByte(BlueDifferenceOf(p.red, p.green, p.blue)),
        ToByte(RedDifferenceOf(p.red, p.green, p.blue)))
  }

  // ---------------------------------------------------------------------------
  // YUV -> RGB

  /** Reconstructed red before clamping: for byte samples it spans [-223, 481], so the
      clamp is needed on both sides (`ReconstructionLeavesByteRange`). */
  function RedOf(y: Byte, u: Byte, v: Byte): (x: int)
    ensures -223 <= x <= 481
  {
    Shr8(298 * (y - 16) + 409 * (v - 128) + 128)
  }

  /** Reconstructed green before clamping: for byte samples it spans [-171, 432]. */
  function GreenOf(y: Byte, u: Byte, v: Byte): (x: int)
    ensures -171 <= x <= 432
  {
    Shr8(298 * (y - 16) - 100 * (u - 128) - 208 * (v - 128) + 128)
  }

  /** Reconstructed blue before clamping: for byte samples it spans [-277, 534]. */
  function BlueOf(y: Byte, u: Byte, v: Byte): (x: int)
    ensures -277 <= x <= 534
  {
    Shr8(298 * (y - 16) + 516 * (u - 128) + 128)
  }

  /** The pixel conversion of `RGBImage(const YUVImage &)`: each channel is clamped into
      [0, 255] before the `unsigned char` cast, so the cast never wraps and every
      channel equals the clamped formula value. */
  function YuvToRgb(p: Pixel): (q: Pixel)
    requires p.Yuv?
    ensures q.Rgb?
    ensures q.red == Clamp(RedOf(p.y, p.u, p.v))
    ensures q.green == Clamp(GreenOf(p.y, p.u, p.v))
    ensures q.blue == Clamp(BlueOf(p.y, p.u, p.v))
  {
    Rgb(ToByte(Clamp(RedOf(p.y, p.u, p.v))),
        ToByte(Clamp(GreenOf(p.y, p.u, p.v))),
        ToByte(Clamp(BlueOf(p.y, p.u, p.v))))
  }

  /** RGB -> YUV -> RGB loses at most 2 in red and green and at most 3 in blue. */
  lemma YuvRoundTripError(p: Pixel)
    requires p.Rgb?
    ensures var q := YuvToRgb(RgbToYuv(p));
            && -2 <= q.red - p.red <= 2
            && -2 <= q.green - p.green <= 2
            && -3 <= q.blue - p.blue <= 3
  {
    var r: int, g: int, b: int := p.red, p.green, p.blue;
    var yuv := RgbToYuv(p);
    // the truncations of the forward transform, as remainders
    var sy, su, sv := 66 * r + 129 * g + 25 * b + 128, -38 * r - 74 * g + 112 * b + 128, 112 * r - 94 * g - 18 * b + 128;
    Shr8Remainder(sy);
    Shr8Remainder(su);
    Shr8Remainder(sv);
    var ey, eu, ev := sy % 256, su % 256, sv % 256;
    assert yuv.y - 16 == Shr8(sy) && yuv.u - 128 == Shr8(su) && yuv.v - 128 == Shr8(sv);
    RedRoundTrip(r, g, b, yuv.y, yuv.v, ey, ev);
    GreenRoundTrip(r, g, b, yuv.y, yuv.u, yuv.v, ey, eu, ev);
    BlueRoundTrip(r, g, b, yuv.y, yuv.u, ey, eu);
  }

  lemma RedRoundTrip(r: Byte, g: Byte, b: Byte, y: Byte, v: Byte, ey: int, ev: int)
    requires 0 <= ey < 256 && 0 <= ev < 256
    requires 256 * (y - 16) == 66 * r + 129 * g + 25 * b + 128 - ey
    requires 256 * (v - 128) == 112 * r - 94 * g - 18 * b + 128 - ev
    ensures -2 <= Clamp(RedOf(y, 0, v)) - r <= 2
  {
    var x := 298 * (y - 16) + 409 * (v - 128) + 128;
    assert 256 * x == 65476 * r - 4 * g + 88 * b + 128 * 298 + 128 * 409 + 128 * 256 - 298 * ey - 409 * ev;
    var q := x / 256;
    assert 256 * q <= x < 256 * q + 256;
    assert -2 <= q - r <= 2 || (q < 0 && r <= 2) || (q > 255 && r >= 253);
  }

  lemma GreenRoundTrip(r: Byte, g: Byte, b: Byte, y: Byte, u: Byte, v: Byte, ey: int, eu: int, ev: int)
    requires 0 <= ey < 256 && 0 <= eu < 256 && 0 <= ev < 256
    requires 256 * (y - 16) == 66 * r + 129 * g + 25 * b + 128 - ey
    requires 256 * (u - 128) == -38 * r - 74 * g + 112 * b + 128 - eu
    requires 256 * (v - 128) == 112 * r - 94 * g - 18 * b + 128 - ev
    ensures -2 <= Clamp(GreenOf(y, u, v)) - g <= 2
  {
    var x := 298 * (y - 16) - 100 * (u - 128) - 208 * (v - 128) + 128;
    assert 256 * x == 298 * (66 * r + 129 * g + 25 * b + 128 - ey)
                      - 100 * (-38 * r - 74 * g + 112 * b + 128 - eu)
                      - 208 * (112 * r - 94 * g - 18 * b + 128 - ev) + 128 * 256;
    var q := x / 256;
    assert 256 * q <= x < 256 * q + 256;
  }

  lemma BlueRoundTrip(r: Byte, g: Byte, b: Byte, y: Byte, u: Byte, ey: int, eu: int)
    requires 0 <= ey < 256 && 0 <= eu < 256
    requires 256 * (y - 16) == 66 * r + 129 * g + 25 * b + 128 - ey
    requires 256 * (u - 128) == -38 * r - 74 * g + 112 * b + 128 - eu
    ensures -3 <= Clamp(BlueOf(y, u, 0)) - b <= 3
  {
    var x := 298 * (y - 16) + 516 * (u - 128) + 128;
    assert 256 * x == 298 * (66 * r + 129 * g + 25 * b + 128 - ey)
                      + 516 * (-38 * r - 74 * g + 112 * b + 128 - eu) + 128 * 256;
    var q := x / 256;
    assert 256 * q <= x < 256 * q + 256;
  }

  /** The blue bound of `YuvRoundTripError` is reached: RGB (0, 4, 230) becomes
      YUV (40, 227, 110), whose blue channel comes back as 227. */
  lemma BlueRoundTripReachesThree()
    ensures RgbToYuv(Rgb(0, 4, 230)) == Yuv(40, 227, 110)
    ensures YuvToRgb(Yuv(40, 227, 110)).blue == 227
  {
  }

  /** The extremes of the reconstruction are reached: full luma with full red difference
      overshoots 255, and no luma with full colour differences undershoots 0 in green. */
  lemma ReconstructionLeavesByteRange()
    ensures RedOf(255, 128, 255) == 481 && Clamp(RedOf(255, 128, 255)) == 255
    ensures GreenOf(0, 255, 255) == -171 && Clamp(GreenOf(0, 255, 255)) == 0
  {
  }

  // ---------------------------------------------------------------------------
  // Grayscale <-> RGB

  /** The pixel conversion of `RGBImage(const GSCImage &)`: the value is replicated
      into all three channels. */
  function GrayToRgb(p: Pixel): (q: Pixel)
    requires p.Gray?
    ensures q.Rgb? && q.red == q.green == q.blue == p.value
  {
    Rgb(p.value, p.value, p.value)
  }

  /** The pixel conversion of `GSCImage(const RGBImage &, int)`, the red-channel policy. */
  function RedToGray(p: Pixel): (q: Pixel)
    requires p.Rgb?
    ensures q.Gray? && q.value == p.red
    ensures GrayToRgb(q) == p <==> p.red == p.green == p.blue
  {
    Gray(p.red)
  }

  /** Replicating a gray value and reading the red channel back gives the value back;
      a gray pixel replicated into RGB has three equal channels. */
  lemma GrayRgbRoundTrip(p: Pixel)
    requires p.Gray?
    ensures RedToGray(GrayToRgb(p)) == p
    ensures var q := GrayToRgb(p); q.red == q.green == q.blue == p.value
  {
  }

  // ---------------------------------------------------------------------------
  // Brightness inversion

  /** `max_luminocity - v`, truncated to a byte by the setter's `unsigned char` parameter. */
  function InvertSample(ceiling: int, v: Byte): (w: Byte)
    ensures 0 <= ceiling - v < 256 ==> w == ceiling - v
  {
    ToByte(ceiling - v)
  }

  /** `operator!` on one grayscale or RGB pixel: every channel against the same ceiling. */
  function Invert(p: Pixel, ceiling: int): (q: Pixel)
    requires !p.Yuv?
    ensures q.Gray? == p.Gray? && q.Rgb? == p.Rgb?
  {
    match p
    case Gray(v) => Gray(InvertSample(ceiling, v))
    case Rgb(r, g, b) => Rgb(InvertSample(ceiling, r), InvertSample(ceiling, g), InvertSample(ceiling, b))
  }

  /** Inverting one sample twice against any ceiling restores it, wrap-around included. */
  lemma InvertSampleTwice(ceiling: int, v: Byte)
    ensures InvertSample(ceiling, InvertSample(ceiling, v)) == v
  {
    var w := (ceiling - v) % 256;
    var k := (ceiling - v) / 256;
    assert ceiling - v == 256 * k + w;
    assert ceiling - w == v + 256 * k;
    ModOfMultipleShift(v, k);
  }

  lemma ModOfMultipleShift(v: Byte, k: int)
    ensures (v + 256 * k) % 256 == v
  {
  }

  /** Inversion is an involution on every grayscale and RGB pixel. */
  lemma InvertTwice(p: Pixel, ceiling: int)
    requires !p.Yuv?
    ensures Invert(Invert(p, ceiling), ceiling) == p
  {
    match p
    case Gray(v) =>
      InvertSampleTwice(ceiling, v);
    case Rgb(r, g, b) =>
      InvertSampleTwice(ceiling, r);
      InvertSampleTwice(ceiling, g);
      InvertSampleTwice(ceiling, b);
  }

  // ---------------------------------------------------------------------------
  // Resizing: the unweighted mean of four samples

  function Min4(a: int, b: int, c: int, d: int): int
  {
    var ab := if a < b then a else b;
    var cd := if c < d then c else d;
    if ab < cd then ab else cd
  }

  function Max4(a: int, b: int, c: int, d: int): int
  {
    var ab := if a > b then a else b;
    var cd := if c > d then c else d;
    if ab > cd then ab else cd
  }

  /** `(s1 + s2 + s3 + s4) / 4` on non-negative sums: lies between the smallest and the
      largest of the four samples, so it is a byte and its cast never wraps. */
  function Mean4(a: Byte, b: Byte, c: Byte, d: Byte): (m: Byte)
    ensures Min4(a, b, c, d) <= m <= Max4(a, b, c, d)
  {
    (a + b + c + d) / 4
  }

  predicate SameKind4(a: Pixel, b: Pixel, c: Pixel, d: Pixel)
  {
    || (a.Gray? && b.Gray? && c.Gray? && d.Gray?)
    || (a.Rgb? && b.Rgb? && c.Rgb? && d.Rgb?)
  }

  /** One output pixel of `operator*=`: each channel is the mean of the four neighbours'. */
  function Blend(a: Pixel, b: Pixel, c: Pixel, d: Pixel): (p: Pixel)
    requires SameKind4(a, b, c, d)
    ensures p.Gray? == a.Gray? && p.Rgb? == a.Rgb?
  {
    if a.Gray? then Gray(Mean4(a.value, b.value, c.value, d.value))
    else Rgb(Mean4(a.red, b.red, c.red, d.red),
             Mean4(a.green, b.green, c.green, d.green),
             Mean4(a.blue, b.blue, c.blue, d.blue))
  }

  /** Blending four copies of one pixel gives that pixel back. */
  lemma BlendOfEqual(p: Pixel)
    requires !p.Yuv?
    ensures Blend(p, p, p, p) == p
  {
  }

  // ---------------------------------------------------------------------------
  // Equalisation: the luminance sample and its relabelling through a table

  /** The sample equalisation works on: the grayscale value or the luma of a YUV pixel. */
  function Luminance(p: Pixel): Byte
    requires !p.Rgb?
  {
    if p.Gray? then p.value else p.y
  }

  /** Rewrites the luminance of one pixel through the lookup table (cast to a byte);
      the chroma samples of a YUV pixel are left untouched. */
  function Relabel(p: Pixel, table: seq<int>): (q: Pixel)
    requires !p.Rgb? && Luminance(p) < |table|
    ensures q.Gray? == p.Gray? && q.Yuv? == p.Yuv?
    ensures q.Yuv? ==> q.u == p.u && q.v == p.v
    ensures 0 <= table[Luminance(p)] < 256 ==> Luminance(q) == table[Luminance(p)]
  {
    match p
    case Gray(v) => Gray(ToByte(table[v]))
    case Yuv(y, u, v) => Yuv(ToByte(table[y]), u, v)
  }
}
