/** The three image classes of the program as one class whose kind is fixed at
    construction. Each virtual operator is a method that branches on the kind; the kinds
    whose override returns `*this` untouched are explicit no-ops. Every method is proved
    against the grid function that specifies it. */
module Images {
  import opened Pixels
  import opened Grids
  import opened Photometry
  import opened Resampling
  import opened Equalization

  /** The grid held by a two-dimensional pixel array: row `i`, column `j` is `a[i, j]`. */
  ghost function GridOf(a: array2<Pixel>): (g: Grid<Pixel>)
    reads a
    ensures g.Valid() && g.height == a.Length0 && g.width == a.Length1
    ensures forall i, j :: 0 <= i < a.Length0 && 0 <= j < a.Length1 ==> g.cells[i][j] == a[i, j]
  {
    Grid(a.Length1, a.Length0,
         seq(a.Length0, i requires 0 <= i < a.Length0 reads a =>
           seq(a.Length1, j requires 0 <= j < a.Length1 reads a => a[i, j])))
  }

  /** A row after the first `j` swaps of the mirror: the `j` outermost samples at each
      end have traded places, the middle is as it was. */
  ghost function PartlyReversed(row: seq<Pixel>, j: nat): (r: seq<Pixel>)
    ensures |r| == |row|
  {
    seq(|row|, b requires 0 <= b < |row| =>
      if b < j || |row| - j <= b then row[|row| - 1 - b] else row[b])
  }

  lemma PartlyReversedNone(row: seq<Pixel>)
    ensures forall b :: 0 <= b < |row| ==> PartlyReversed(row, 0)[b] == row[b]
  {
  }

  /** Swap number `j + 1` exchanges positions `j` and `|row| - 1 - j` and nothing else. */
  lemma PartlyReversedStep(row: seq<Pixel>, j: nat)
    requires j < |row| / 2
    ensures var r, s := PartlyReversed(row, j), PartlyReversed(row, j + 1);
            && s[j] == r[|row| - 1 - j] && s[|row| - 1 - j] == r[j]
            && forall b :: 0 <= b < |row| && b != j && b != |row| - 1 - j ==> s[b] == r[b]
  {
  }

  /** After `|row| / 2` swaps the row is reversed; an odd row's middle stays put. */
  lemma PartlyReversedAll(row: seq<Pixel>)
    ensures forall b :: 0 <= b < |row| ==> PartlyReversed(row, |row| / 2)[b] == row[|row| - 1 - b]
  {
    var j := |row| / 2;
    assert |row| - j <= j + 1;
    forall b | j <= b < |row| - j
      ensures PartlyReversed(row, j)[b] == row[|row| - 1 - b]
    {
      assert b == |row| - 1 - b;
    }
  }

  class Image {
    /** Which of `GSCImage`, `RGBImage` and `YUVImage` this image is. */
    const kind: Kind
    var width: nat
    var height: nat
    /** `max_luminocity`: the subclass field for grayscale and YUV, the inherited one for RGB. */
    var maxLuminosity: int
    /** The row-major pixel rows `pixels[i][j]`. */
    var pixels: array2<Pixel>

    /** The dimensions are those of the pixel array and every pixel belongs to the kind. */
    ghost predicate Valid()
      reads this, pixels
    {
      && pixels.Length0 == height && pixels.Length1 == width
      && forall i, j :: 0 <= i < height && 0 <= j < width ==> Fits(pixels[i, j], kind)
    }

    /** The image as a grid value. */
    ghost function Contents(): (g: Grid<Pixel>)
      reads this, pixels
      requires Valid()
      ensures g.Valid() && g.width == width && g.height == height && Uniform(g, kind)
    {
      GridOf(pixels)
    }

    /** An image of kind `k` holding grid `g` and ceiling `ceiling`: the state the P2
        (grayscale) and P3 (RGB) reading constructors leave after a well-formed header and
        body. There is no YUV reader: YUV images only come from `Convert`. */
    constructor (k: Kind, g: Grid<Pixel>, ceiling: int)
      requires k != YuvKind && g.Valid() && Uniform(g, k)
      ensures Valid() && kind == k && maxLuminosity == ceiling && Contents() == g
      ensures fresh(pixels)
    {
      kind := k;
      width, height, maxLuminosity := g.width, g.height, ceiling;
      pixels := new Pixel[g.height, g.width]((i, j) requires 0 <= i < g.height && 0 <= j < g.width => g.cells[i][j]);
      new;
      Extensionality(GridOf(pixels), g);
    }

    /** The conversion constructors. A YUV image built from RGB has its own ceiling 235;
        a grayscale image built from RGB copies the RGB image's ceiling; an RGB image built
        by conversion never sets its ceiling, which `leftover` stands for. */
    constructor Convert(src: Image, c: Conversion, leftover: int)
      requires src.Valid() && src.kind == Source(c)
      ensures Valid() && kind == Target(c) && fresh(pixels)
      ensures Contents() == Converted(old(src.Contents()), c)
      ensures maxLuminosity == match c
                               case RgbIntoYuv => 235
                               case RgbIntoGrayByRed => src.maxLuminosity
                               case _ => leftover
    {
      kind := Target(c);
      width, height := src.width, src.height;
      maxLuminosity := match c
                       case RgbIntoYuv => 235
                       case RgbIntoGrayByRed => src.maxLuminosity
                       case _ => leftover;
      var converted := new Pixel[src.height, src.width];
      var i := 0;
      while i < src.height
        modifies converted
        invariant 0 <= i <= src.height
        invariant forall a, b :: 0 <= a < i && 0 <= b < src.width ==>
                    converted[a, b] == ConvertPixel(c, src.pixels[a, b])
      {
        ConvertRow(src, converted, c, i);
        i := i + 1;
      }
      pixels := converted;
      new;
      Extensionality(GridOf(pixels), Converted(src.Contents(), c));
    }

    // -------------------------------------------------------------------------
    // operator+=

    /** Row `i` of a clockwise turn: `rotated[i][j] = pixels[height-j-1][i]`. */
    method FillClockwiseRow(rotated: array2<Pixel>, i: nat)
      requires pixels.Length0 == height && pixels.Length1 == width && i < width
      requires rotated != pixels && rotated.Length0 == width && rotated.Length1 == height
      modifies rotated
      ensures forall b :: 0 <= b < height ==> rotated[i, b] == pixels[height - b - 1, i]
      ensures forall a, b :: 0 <= a < width && a != i && 0 <= b < height ==> rotated[a, b] == old(rotated[a, b])
    {
      var j := 0;
      while j < height
        invariant 0 <= j <= height
        invariant forall b :: 0 <= b < j ==> rotated[i, b] == pixels[height - b - 1, i]
        invariant forall a, b :: 0 <= a < width && a != i && 0 <= b < height ==> rotated[a, b] == old(rotated[a, b])
      {
        rotated[i, j] := pixels[height - j - 1, i];
        j := j + 1;
      }
    }

    /** Row `i` of a counter-clockwise turn: `rotated[i][j] = pixels[j][width-i-1]`. */
    method FillCounterClockwiseRow(rotated: array2<Pixel>, i: nat)
      requires pixels.Length0 == height && pixels.Length1 == width && i < width
      requires rotated != pixels && rotated.Length0 == width && rotated.Length1 == height
      modifies rotated
      ensures forall b :: 0 <= b < height ==> rotated[i, b] == pixels[b, width - i - 1]
      ensures forall a, b :: 0 <= a < width && a != i && 0 <= b < height ==> rotated[a, b] == old(rotated[a, b])
    {
      var j := 0;
      while j < height
        invariant 0 <= j <= height
        invariant forall b :: 0 <= b < j ==> rotated[i, b] == pixels[b, width - i - 1]
        invariant forall a, b :: 0 <= a < width && a != i && 0 <= b < height ==> rotated[a, b] == old(rotated[a, b])
      {
        rotated[i, j] := pixels[j, width - i - 1];
        j := j + 1;
      }
    }

    /** One clockwise quarter turn into a fresh array, then width and height are swapped. */
    method TurnClockwise()
      requires Valid()
      modifies this
      ensures Valid() && fresh(pixels)
      ensures Contents() == RotateCw(old(Contents()))
      ensures width == old(height) && height == old(width)
      ensures maxLuminosity == old(maxLuminosity)
    {
      ghost var g := Contents();
      var rotated := new Pixel[width, height];
      var i := 0;
      while i < width
        modifies rotated
        invariant 0 <= i <= width
        invariant forall a, b :: 0 <= a < i && 0 <= b < height ==> rotated[a, b] == pixels[height - b - 1, a]
      {
        FillClockwiseRow(rotated, i);
        i := i + 1;
      }
      ghost var r := RotateCw(g);
      assert forall a, b :: 0 <= a < width && 0 <= b < height ==> rotated[a, b] == r.cells[a][b];
      width, height := height, width;
      pixels := rotated;
      Extensionality(GridOf(pixels), r);
    }

    /** One counter-clockwise quarter turn into a fresh array, then width and height are
        swapped. */
    method TurnCounterClockwise()
      requires Valid()
      modifies this
      ensures Valid() && fresh(pixels)
      ensures Contents() == RotateCcw(old(Contents()))
      ensures width == old(height) && height == old(width)
      ensures maxLuminosity == old(maxLuminosity)
    {
      ghost var g := Contents();
      var rotated := new Pixel[width, height];
      var i := 0;
      while i < width
        modifies rotated
        invariant 0 <= i <= width
        invariant forall a, b :: 0 <= a < i && 0 <= b < height ==> rotated[a, b] == pixels[b, width - a - 1]
      {
        FillCounterClockwiseRow(rotated, i);
        i := i + 1;
      }
      ghost var r := RotateCcw(g);
      assert forall a, b :: 0 <= a < width && 0 <= b < height ==> rotated[a, b] == r.cells[a][b];
      width, height := height, width;
      pixels := rotated;
      Extensionality(GridOf(pixels), r);
    }

    /** `image += times`: grayscale and RGB images turn by the count as `Rotated` says;
        a YUV image is left as it is. */
    method Rotate(times: int)
      requires Valid()
      modifies this
      ensures Valid() && maxLuminosity == old(maxLuminosity)
      ensures kind == YuvKind ==> Contents() == old(Contents()) && pixels == old(pixels)
      ensures kind != YuvKind ==> Contents() == Rotated(old(Contents()), times)
    {
      if kind == YuvKind {
        return;
      }
      ghost var g := Contents();
      if times > 0 {
        var turns := times % 4;
        var t := 0;
        while t < turns
          invariant 0 <= t <= turns
          invariant Valid() && maxLuminosity == old(maxLuminosity)
          invariant Contents() == TurnsCw(g, t)
        {
          TurnClockwise();
          t := t + 1;
        }
      } else if times < 0 {
        var turns := -times % 4;
        var t := 0;
        while t < turns
          invariant 0 <= t <= turns
          invariant Valid() && maxLuminosity == old(maxLuminosity)
          invariant Contents() == TurnsCcw(g, t)
        {
          TurnCounterClockwise();
          t := t + 1;
        }
      }
    }

    // -------------------------------------------------------------------------
    // operator*

    /** `std::swap` of two samples of row `i`. */
    method Swap(i: nat, j: nat, k: nat)
      requires i < pixels.Length0 && j < pixels.Length1 && k < pixels.Length1
      modifies pixels
      ensures pixels[i, j] == old(pixels[i, k]) && pixels[i, k] == old(pixels[i, j])
      ensures forall b :: 0 <= b < pixels.Length1 && b != j && b != k ==> pixels[i, b] == old(pixels[i, b])
      ensures forall a, b :: 0 <= a < pixels.Length0 && a != i && 0 <= b < pixels.Length1 ==> pixels[a, b] == old(pixels[a, b])
    {
      var held := pixels[i, j];
      pixels[i, j] := pixels[i, k];
      pixels[i, k] := held;
    }

    /** One row of `*image`: column `j` and column `width-j-1` trade places for every
        `j < width/2`; the other rows are untouched. */
    method MirrorRow(i: nat, ghost row: seq<Pixel>)
      requires pixels.Length0 == height && pixels.Length1 == width && i < height
      requires |row| == width && forall b :: 0 <= b < width ==> pixels[i, b] == row[b]
      modifies pixels
      ensures forall b :: 0 <= b < width ==> pixels[i, b] == row[width - 1 - b]
      ensures forall a, b :: 0 <= a < height && a != i && 0 <= b < width ==> pixels[a, b] == old(pixels[a, b])
    {
      PartlyReversedNone(row);
      var j := 0;
      while j < width / 2
        invariant 0 <= j <= width / 2
        invariant forall a, b :: 0 <= a < height && a != i && 0 <= b < width ==> pixels[a, b] == old(pixels[a, b])
        invariant forall b :: 0 <= b < width ==> pixels[i, b] == PartlyReversed(row, j)[b]
      {
        PartlyReversedStep(row, j);
        Swap(i, j, width - j - 1);
        j := j + 1;
      }
      PartlyReversedAll(row);
    }

    /** `*image`: every row of a grayscale or RGB image is reversed in place; a YUV image
        is left as it is. */
    method Mirror()
      requires Valid()
      modifies pixels
      ensures Valid()
      ensures kind == YuvKind ==> Contents() == old(Contents())
      ensures kind != YuvKind ==> Contents() == Mirrored(old(Contents()))
    {
      if kind == YuvKind {
        return;
      }
      ghost var g := Contents();
      var i := 0;
      while i < height
        invariant 0 <= i <= height
        invariant forall a, b :: 0 <= a < i && 0 <= b < width ==> pixels[a, b] == g.cells[a][width - 1 - b]
        invariant forall a, b :: i <= a < height && 0 <= b < width ==> pixels[a, b] == g.cells[a][b]
      {
        MirrorRow(i, g.cells[i]);
        i := i + 1;
      }
      assert Valid();
      Extensionality(Contents(), Mirrored(g));
    }

    // -------------------------------------------------------------------------
    // operator!

    /** One row of `!image`: every sample of row `i` is inverted against the ceiling;
        the other rows are untouched. */
    method InvertRow(i: nat)
      requires pixels.Length0 == height && pixels.Length1 == width && i < height
      requires forall b :: 0 <= b < width ==> !pixels[i, b].Yuv?
      modifies pixels
      ensures forall b :: 0 <= b < width ==> pixels[i, b] == Pixels.Invert(old(pixels[i, b]), maxLuminosity)
      ensures forall a, b :: 0 <= a < height && a != i && 0 <= b < width ==> pixels[a, b] == old(pixels[a, b])
    {
      var j := 0;
      while j < width
        invariant 0 <= j <= width
        invariant forall a, b :: 0 <= a < height && a != i && 0 <= b < width ==> pixels[a, b] == old(pixels[a, b])
        invariant forall b :: 0 <= b < j ==> pixels[i, b] == Pixels.Invert(old(pixels[i, b]), maxLuminosity)
        invariant forall b :: j <= b < width ==> pixels[i, b] == old(pixels[i, b])
      {
        pixels[i, j] := Pixels.Invert(pixels[i, j], maxLuminosity);
        j := j + 1;
      }
    }

    /** `!image`: every grayscale or RGB sample becomes `maxLuminosity - v` cast to a
        byte; a YUV image is left as it is. */
    method Invert()
      requires Valid()
      modifies pixels
      ensures Valid()
      ensures kind == YuvKind ==> Contents() == old(Contents())
      ensures kind != YuvKind ==> Contents() == Inverted(old(Contents()), maxLuminosity)
    {
      if kind == YuvKind {
        return;
      }
      ghost var g := Contents();
      var i := 0;
      while i < height
        invariant 0 <= i <= height
        invariant forall a, b :: 0 <= a < height && 0 <= b < width ==>
                    pixels[a, b] == if a < i then Pixels.Invert(g.cells[a][b], maxLuminosity) else g.cells[a][b]
      {
        assert forall b :: 0 <= b < width ==> Fits(g.cells[i][b], kind);
        InvertRow(i);
        i := i + 1;
      }
      assert Valid();
      Extensionality(Contents(), Inverted(g, maxLuminosity));
    }

    // -------------------------------------------------------------------------
    // operator*=

    /** Row `i` of the resized array: every output sample blends its four source samples;
        the other rows are untouched. */
    method FillResizedRow(resized: array2<Pixel>, rows: Axis, cols: Axis, i: nat, ghost g: Grid<Pixel>)
      requires resized != pixels && resized.Length0 == rows.size && resized.Length1 == cols.size
      requires pixels.Length0 == height && pixels.Length1 == width && Resizable(g, rows, cols)
      requires g.height == height && g.width == width && i < rows.size
      requires forall a, b :: 0 <= a < height && 0 <= b < width ==> pixels[a, b] == g.cells[a][b]
      modifies resized
      ensures forall b :: 0 <= b < cols.size ==> resized[i, b] == Sample(g, rows, cols, i, b)
      ensures forall a, b :: 0 <= a < rows.size && a != i && 0 <= b < cols.size ==> resized[a, b] == old(resized[a, b])
    {
      var j := 0;
      while j < cols.size
        invariant 0 <= j <= cols.size
        invariant forall b :: 0 <= b < j ==> resized[i, b] == Sample(g, rows, cols, i, b)
        invariant forall a, b :: 0 <= a < rows.size && a != i && 0 <= b < cols.size ==> resized[a, b] == old(resized[a, b])
      {
        var r1 := ClampIndex(rows.lower[i], height);
        var r2 := ClampIndex(rows.upper[i], height);
        var c1 := ClampIndex(cols.lower[j], width);
        var c2 := ClampIndex(cols.upper[j], width);
        resized[i, j] := Blend(pixels[r1, c1], pixels[r1, c2], pixels[r2, c1], pixels[r2, c2]);
        j := j + 1;
      }
    }

    /** `image *= factor` with the scaled coordinates given per axis: grayscale and RGB
        images are resampled into a fresh array of the new size; a YUV image is left as it is. */
    method Resize(rows: Axis, cols: Axis)
      requires Valid()
      requires kind != YuvKind ==> Resizable(Contents(), rows, cols)
      modifies this
      ensures Valid() && maxLuminosity == old(maxLuminosity)
      ensures kind == YuvKind ==> Contents() == old(Contents()) && pixels == old(pixels)
      ensures kind != YuvKind ==> Contents() == Resized(old(Contents()), rows, cols)
    {
      if kind == YuvKind {
        return;
      }
      ghost var g := Contents();
      var resized := new Pixel[rows.size, cols.size];
      var i := 0;
      while i < rows.size
        modifies resized
        invariant 0 <= i <= rows.size
        invariant forall a, b :: 0 <= a < i && 0 <= b < cols.size ==> resized[a, b] == Sample(g, rows, cols, a, b)
      {
        FillResizedRow(resized, rows, cols, i, g);
        i := i + 1;
      }
      ghost var r := Resized(g, rows, cols);
      assert Uniform(g, kind) && Uniform(r, kind);
      assert forall a, b :: 0 <= a < rows.size && 0 <= b < cols.size ==> resized[a, b] == r.cells[a][b];
      Extensionality(GridOf(resized), r);
      width, height := cols.size, rows.size;
      pixels := resized;
    }

    // -------------------------------------------------------------------------
    // operator~

    /** The histogram increments for row `i`: one per pixel, at its luminance. */
    method TallyRow(histogram: array<nat>, i: nat, ghost g: Grid<Pixel>)
      requires pixels.Length0 == height && pixels.Length1 == width && i < height
      requires g == GridOf(pixels) && HasBuckets(g.cells[i], histogram.Length)
      modifies histogram
      ensures histogram[..] == Tally(old(histogram[..]), g.cells[i], width)
    {
      ghost var row := g.cells[i];
      ghost var start := histogram[..];
      var j := 0;
      while j < width
        invariant 0 <= j <= width
        invariant histogram[..] == Tally(start, row, j)
      {
        var luminance := Luminance(pixels[i, j]);
        histogram[luminance] := histogram[luminance] + 1;
        j := j + 1;
      }
    }

    /** The counting loop of `operator~`: starting from zeros, every pixel increments the
        counter of its luminance, row by row. */
    method TallyAll(histogram: array<nat>, ghost g: Grid<Pixel>)
      requires pixels.Length0 == height && pixels.Length1 == width && g == GridOf(pixels)
      requires HasLuminance(kind) && Uniform(g, kind)
      requires histogram.Length == Buckets(kind) && histogram[..] == Zeros(Buckets(kind))
      modifies histogram
      ensures histogram[..] == Equalization.Histogram(g, kind)
    {
      ghost var zero := Zeros(Buckets(kind));
      UniformHasBuckets(g, kind);
      var i := 0;
      while i < height
        invariant 0 <= i <= height
        invariant histogram[..] == TallyRows(zero, g.cells, width, i)
      {
        TallyRow(histogram, i, g);
        i := i + 1;
      }
    }

    /** The `histogram` array of `operator~`: one counter per luminance value, incremented
        for every pixel row by row. */
    method Histogram() returns (counts: seq<nat>)
      requires Valid() && HasLuminance(kind)
      ensures counts == Equalization.Histogram(Contents(), kind)
      ensures |counts| == Buckets(kind) && Sum(counts) == width * height
      ensures forall v :: 0 <= v < |counts| ==> counts[v] == Occurrences(Contents(), v)
    {
      var histogram := new nat[Buckets(kind)](_ => 0);
      assert histogram[..] == Zeros(Buckets(kind));
      ghost var g := Contents();
      TallyAll(histogram, g);
      counts := histogram[..];
      HistogramCounts(g, kind);
    }

    /** The rewrite of row `i` in `operator~`: every luminance sample through the table. */
    method RelabelRow(i: nat, table: seq<int>, ghost row: seq<Pixel>)
      requires pixels.Length0 == height && pixels.Length1 == width && i < height
      requires |row| == width && forall b :: 0 <= b < width ==> pixels[i, b] == row[b]
      requires HasBuckets(row, |table|)
      modifies pixels
      ensures forall b :: 0 <= b < width ==> pixels[i, b] == Relabel(row[b], table)
      ensures forall a, b :: 0 <= a < height && a != i && 0 <= b < width ==> pixels[a, b] == old(pixels[a, b])
    {
      var j := 0;
      while j < width
        invariant 0 <= j <= width
        invariant forall a, b :: 0 <= a < height && a != i && 0 <= b < width ==> pixels[a, b] == old(pixels[a, b])
        invariant forall b :: 0 <= b < j ==> pixels[i, b] == Relabel(row[b], table)
        invariant forall b :: j <= b < width ==> pixels[i, b] == row[b]
      {
        pixels[i, j] := Relabel(pixels[i, j], table);
        j := j + 1;
      }
    }

    /** The rewrite loop of `operator~`: every luminance sample through a table whose
        entries fit the kind; the image stays valid. */
    method RelabelAll(table: seq<int>)
      requires Valid() && HasLuminance(kind) && |table| == Buckets(kind)
      requires forall v :: 0 <= v < |table| ==> 0 <= table[v] <= Ceiling(kind)
      modifies pixels
      ensures Valid()
      ensures Contents() == Relabelled(old(Contents()), kind, table)
    {
      ghost var g := Contents();
      UniformHasBuckets(g, kind);
      var i := 0;
      while i < height
        invariant 0 <= i <= height
        invariant forall a, b :: 0 <= a < i && 0 <= b < width ==> pixels[a, b] == Relabel(g.cells[a][b], table)
        invariant forall a, b :: i <= a < height && 0 <= b < width ==> pixels[a, b] == g.cells[a][b]
      {
        RelabelRow(i, table, g.cells[i]);
        i := i + 1;
      }
      ghost var r := Relabelled(g, kind, table);
      forall a, b | 0 <= a < height && 0 <= b < width
        ensures pixels[a, b] == r.cells[a][b] && Fits(pixels[a, b], kind)
      {
        assert Fits(g.cells[a][b], kind);
      }
      Extensionality(Contents(), r);
    }

    /** `~image`: grayscale and YUV images rewrite every luminance sample through the
        table built from their histogram (chroma untouched); an RGB image is left as it is. */
    method Equalize()
      requires Valid()
      modifies pixels
      ensures Valid()
      ensures kind == RgbKind ==> Contents() == old(Contents())
      ensures kind != RgbKind ==> Contents() == Equalized(old(Contents()), kind)
    {
      if kind == RgbKind {
        return;
      }
      ghost var g := Contents();
      var counts := Histogram();
      var table := Table(counts, width * height, Ceiling(kind));
      assert table == EqualizationTable(g, kind);
      RelabelAll(table);
      assert Valid();
    }
  }

  /** Row `i` of a conversion constructor: every pixel of the source row through the
      per-pixel formula; the other rows are untouched. */
  method ConvertRow(src: Image, converted: array2<Pixel>, c: Conversion, i: nat)
    requires src.Valid() && src.kind == Source(c) && i < src.height
    requires converted != src.pixels && converted.Length0 == src.height && converted.Length1 == src.width
    modifies converted
    ensures forall b :: 0 <= b < src.width ==> converted[i, b] == ConvertPixel(c, src.pixels[i, b])
    ensures forall a, b :: 0 <= a < src.height && a != i && 0 <= b < src.width ==> converted[a, b] == old(converted[a, b])
  {
    var j := 0;
    while j < src.width
      invariant 0 <= j <= src.width
      invariant forall b :: 0 <= b < j ==> converted[i, b] == ConvertPixel(c, src.pixels[i, b])
      invariant forall a, b :: 0 <= a < src.height && a != i && 0 <= b < src.width ==> converted[a, b] == old(converted[a, b])
    {
      converted[i, j] := ConvertPixel(c, src.pixels[i, j]);
      j := j + 1;
    }
  }
}
