/** Whole-grid pixel maps: brightness inversion and the colour-space conversions
    between image kinds. */
module Photometry {
  import opened Pixels
  import opened Grids

  /** Every pixel of the grid can sit in an image of kind `k`. */
  predicate Uniform(g: Grid<Pixel>, k: Kind)
    requires g.Valid()
  {
    forall i, j :: 0 <= i < g.height && 0 <= j < g.width ==> Fits(g.cells[i][j], k)
  }

  /** A grid of a kind whose `operator!` rewrites samples (grayscale or RGB). */
  predicate GrayOrRgb(g: Grid<Pixel>)
    requires g.Valid()
  {
    Uniform(g, GrayKind) || Uniform(g, RgbKind)
  }

  /** `operator!` of the grayscale and RGB images: every sample becomes
      `(ceiling - v) mod 256`. */
  function Inverted(g: Grid<Pixel>, ceiling: int): (r: Grid<Pixel>)
    requires g.Valid() && GrayOrRgb(g)
    ensures r.Valid() && r.width == g.width && r.height == g.height
    ensures Uniform(g, GrayKind) ==> Uniform(r, GrayKind)
    ensures Uniform(g, RgbKind) ==> Uniform(r, RgbKind)
  {
    Grid(g.width, g.height,
         seq(g.height, i requires 0 <= i < g.height =>
           seq(g.width, j requires 0 <= j < g.width => Invert(g.cells[i][j], ceiling))))
  }

  /** Inverting twice against the same ceiling restores every sample, and keeps width
      and height. */
  lemma InvertedTwice(g: Grid<Pixel>, ceiling: int)
    requires g.Valid() && GrayOrRgb(g)
    ensures Inverted(Inverted(g, ceiling), ceiling) == g
  {
    var r := Inverted(Inverted(g, ceiling), ceiling);
    forall i, j | 0 <= i < g.height && 0 <= j < g.width
      ensures r.cells[i][j] == g.cells[i][j]
    {
      InvertTwice(g.cells[i][j], ceiling);
    }
    Extensionality(r, g);
  }

  // ---------------------------------------------------------------------------
  // Conversions between image kinds

  /** The four conversion constructors of the image classes. */
  datatype Conversion =
    | RgbIntoYuv        // YUVImage(const RGBImage &)
    | YuvIntoRgb        // RGBImage(const YUVImage &)
    | GrayIntoRgb       // RGBImage(const GSCImage &)
    | RgbIntoGrayByRed  // GSCImage(const RGBImage &, int)

  function Source(c: Conversion): Kind
  {
    match c
    case RgbIntoYuv => RgbKind
    case YuvIntoRgb => YuvKind
    case GrayIntoRgb => GrayKind
    case RgbIntoGrayByRed => RgbKind
  }

  function Target(c: Conversion): Kind
  {
    match c
    case RgbIntoYuv => YuvKind
    case YuvIntoRgb => RgbKind
    case GrayIntoRgb => RgbKind
    case RgbIntoGrayByRed => GrayKind
  }

  /** The per-pixel formula of a conversion; it always yields a pixel of the target kind. */
  function ConvertPixel(c: Conversion, p: Pixel): (q: Pixel)
    requires Fits(p, Source(c))
    ensures Fits(q, Target(c))
  {
    match c
    case RgbIntoYuv => RgbToYuv(p)
    case YuvIntoRgb => YuvToRgb(p)
    case GrayIntoRgb => GrayToRgb(p)
    case RgbIntoGrayByRed => RedToGray(p)
  }

  /** A conversion applied to every pixel; the grid keeps its width and height. */
  function Converted(g: Grid<Pixel>, c: Conversion): (r: Grid<Pixel>)
    requires g.Valid() && Uniform(g, Source(c))
    ensures r.Valid() && r.width == g.width && r.height == g.height
    ensures Uniform(r, Target(c))
  {
    Grid(g.width, g.height,
         seq(g.height, i requires 0 <= i < g.height =>
           seq(g.width, j requires 0 <= j < g.width => ConvertPixel(c, g.cells[i][j]))))
  }

  /** Grayscale -> RGB -> grayscale with the red-channel policy is the identity. */
  lemma GrayThroughRgbRoundTrip(g: Grid<Pixel>)
    requires g.Valid() && Uniform(g, GrayKind)
    ensures Converted(Converted(g, GrayIntoRgb), RgbIntoGrayByRed) == g
  {
    var r := Converted(Converted(g, GrayIntoRgb), RgbIntoGrayByRed);
    forall i, j | 0 <= i < g.height && 0 <= j < g.width
      ensures r.cells[i][j] == g.cells[i][j]
    {
      GrayRgbRoundTrip(g.cells[i][j]);
    }
    Extensionality(r, g);
  }

  /** RGB -> YUV -> RGB moves every red and green sample by at most 2 and every blue
      sample by at most 3. */
  lemma RgbThroughYuvError(g: Grid<Pixel>, i: nat, j: nat)
    requires g.Valid() && Uniform(g, RgbKind) && i < g.height && j < g.width
    ensures var p, q := g.cells[i][j], Converted(Converted(g, RgbIntoYuv), YuvIntoRgb).cells[i][j];
            && -2 <= q.red - p.red <= 2
            && -2 <= q.green - p.green <= 2
            && -3 <= q.blue - p.blue <= 3
  {
    YuvRoundTripError(g.cells[i][j]);
  }
}
