/** The box-filter resize of `operator*=`: every output sample is the integer mean of
    four source samples picked by the floor and the ceiling of the scaled coordinates.
    The scaled coordinates come from floating-point arithmetic in the image classes; here
    they are an input (`Axis`), and `ScaleAxis` gives their exact-arithmetic values. */
module Resampling {
  import opened Pixels
  import opened Grids
  import opened Photometry

  /** One axis of a resize: the new size, and for every output index `i` the values of
      `floor(i / factor)` and `ceil(i / factor)`, which are never negative. */
  datatype Axis = Axis(size: nat, lower: seq<int>, upper: seq<int>)
  {
    predicate Valid() {
      && |lower| == size && |upper| == size
      && forall i :: 0 <= i < size ==> 0 <= lower[i] && 0 <= upper[i]
    }
  }

  /** `std::min(x, n - 1)` for a non-negative coordinate `x` on an axis of `n > 0` samples:
      the result is a valid index, so every read of the resize is in bounds. */
  function ClampIndex(x: int, n: nat): (k: nat)
    requires 0 <= x && 0 < n
    ensures k < n && k <= x
    ensures x < n ==> k == x
  {
    if x < n - 1 then x else n - 1
  }

  /** A resize that can read its source: an output with rows and columns needs a source
      with rows and columns (a zero dimension times any factor truncates to zero). */
  predicate Resizable(g: Grid<Pixel>, rows: Axis, cols: Axis)
  {
    && g.Valid() && rows.Valid() && cols.Valid()
    && (rows.size > 0 && cols.size > 0 ==> g.height > 0 && g.width > 0)
    && GrayOrRgb(g)
  }

  /** Output pixel (i, j): the blend of source pixels (r1|r2, c1|c2). */
  function Sample(g: Grid<Pixel>, rows: Axis, cols: Axis, i: nat, j: nat): (p: Pixel)
    requires Resizable(g, rows, cols) && i < rows.size && j < cols.size
    ensures Uniform(g, GrayKind) ==> p.Gray?
    ensures Uniform(g, RgbKind) ==> p.Rgb?
  {
    var r1 := ClampIndex(rows.lower[i], g.height);
    var r2 := ClampIndex(rows.upper[i], g.height);
    var c1 := ClampIndex(cols.lower[j], g.width);
    var c2 := ClampIndex(cols.upper[j], g.width);
    Blend(g.cells[r1][c1], g.cells[r1][c2], g.cells[r2][c1], g.cells[r2][c2])
  }

  /** `operator*=` of the grayscale and RGB images: the output grid has the new
      dimensions, keeps the kind, and is sampled pixel by pixel. */
  function Resized(g: Grid<Pixel>, rows: Axis, cols: Axis): (r: Grid<Pixel>)
    requires Resizable(g, rows, cols)
    ensures r.Valid() && r.width == cols.size && r.height == rows.size
    ensures Uniform(g, GrayKind) ==> Uniform(r, GrayKind)
    ensures Uniform(g, RgbKind) ==> Uniform(r, RgbKind)
  {
    Grid(cols.size, rows.size,
         seq(rows.size, i requires 0 <= i < rows.size =>
           seq(cols.size, j requires 0 <= j < cols.size => Sample(g, rows, cols, i, j))))
  }

  /** Every channel of a resized grayscale pixel lies between the smallest and the
      largest of its four source samples. */
  lemma ResizedGrayWithinNeighbours(g: Grid<Pixel>, rows: Axis, cols: Axis, i: nat, j: nat)
    requires Resizable(g, rows, cols) && Uniform(g, GrayKind)
    requires i < rows.size && j < cols.size
    ensures var r1, r2 := ClampIndex(rows.lower[i], g.height), ClampIndex(rows.upper[i], g.height);
            var c1, c2 := ClampIndex(cols.lower[j], g.width), ClampIndex(cols.upper[j], g.width);
            var a, b, c, d := g.cells[r1][c1].value, g.cells[r1][c2].value, g.cells[r2][c1].value, g.cells[r2][c2].value;
            && Resized(g, rows, cols).cells[i][j] == Gray((a + b + c + d) / 4)
            && Min4(a, b, c, d) <= Resized(g, rows, cols).cells[i][j].value <= Max4(a, b, c, d)
  {
  }

  /** Each channel of a resized RGB pixel is the mean of that channel over the four
      source samples, and lies between their smallest and largest value. */
  lemma ResizedRgbWithinNeighbours(g: Grid<Pixel>, rows: Axis, cols: Axis, i: nat, j: nat)
    requires Resizable(g, rows, cols) && Uniform(g, RgbKind)
    requires i < rows.size && j < cols.size
    ensures var r1, r2 := ClampIndex(rows.lower[i], g.height), ClampIndex(rows.upper[i], g.height);
            var c1, c2 := ClampIndex(cols.lower[j], g.width), ClampIndex(cols.upper[j], g.width);
            var a, b, c, d := g.cells[r1][c1], g.cells[r1][c2], g.cells[r2][c1], g.cells[r2][c2];
            var p := Resized(g, rows, cols).cells[i][j];
            && p == Rgb((a.red + b.red + c.red + d.red) / 4,
                        (a.green + b.green + c.green + d.green) / 4,
                        (a.blue + b.blue + c.blue + d.blue) / 4)
            && Min4(a.red, b.red, c.red, d.red) <= p.red <= Max4(a.red, b.red, c.red, d.red)
            && Min4(a.green, b.green, c.green, d.green) <= p.green <= Max4(a.green, b.green, c.green, d.green)
            && Min4(a.blue, b.blue, c.blue, d.blue) <= p.blue <= Max4(a.blue, b.blue, c.blue, d.blue)
  {
  }

  /** The axis that maps every index to itself: what a factor of 1 produces. */
  function IdentityAxis(n: nat): (a: Axis)
    ensures a.Valid() && a.size == n
  {
    Axis(n, seq(n, i => i), seq(n, i => i))
  }

  /** Resizing by the identity axes reproduces the grid exactly: the four neighbours
      coincide and their mean is the pixel itself. */
  lemma ResizeByIdentity(g: Grid<Pixel>)
    requires g.Valid() && GrayOrRgb(g)
    ensures Resizable(g, IdentityAxis(g.height), IdentityAxis(g.width))
    ensures Resized(g, IdentityAxis(g.height), IdentityAxis(g.width)) == g
  {
    var rows, cols := IdentityAxis(g.height), IdentityAxis(g.width);
    var r := Resized(g, rows, cols);
    forall i, j | 0 <= i < g.height && 0 <= j < g.width
      ensures r.cells[i][j] == g.cells[i][j]
    {
      assert Fits(g.cells[i][j], GrayKind) || Fits(g.cells[i][j], RgbKind);
      BlendOfEqual(g.cells[i][j]);
    }
    Extensionality(r, g);
  }

  // ---------------------------------------------------------------------------
  // Exact-arithmetic reference for the scaled coordinates

  /** The least integer not below `x`. */
  function Ceil(x: real): (c: int)
    ensures c as real >= x && (c - 1) as real < x
  {
    -((-x).Floor)
  }

  /** `static_cast<int>(n * factor)`, `floor(i / factor)` and `ceil(i / factor)` computed
      exactly: a valid axis whose size is zero when the source axis is empty. */
  function ScaleAxis(n: nat, factor: real): (a: Axis)
    requires factor > 0.0
    ensures a.Valid()
    ensures a.size > 0 ==> n > 0
  {
    ScaledSizeSign(n, factor);
    var size: nat := (n as real * factor).Floor;
    Axis(size,
         seq(size, i requires 0 <= i < size => QuotientSign(i, factor); (i as real / factor).Floor),
         seq(size, i requires 0 <= i < size => QuotientSign(i, factor); Ceil(i as real / factor)))
  }

  /** `n * factor` is never negative, and it is zero for an empty axis. */
  lemma ScaledSizeSign(n: nat, factor: real)
    requires factor > 0.0
    ensures 0 <= (n as real * factor).Floor
    ensures n == 0 ==> (n as real * factor).Floor == 0
  {
    assert n as real * factor >= 0.0;
  }

  /** `i / factor` is never negative for a non-negative index. */
  lemma QuotientSign(i: nat, factor: real)
    requires factor > 0.0
    ensures 0 <= (i as real / factor).Floor && 0 <= Ceil(i as real / factor)
  {
    assert i as real / factor >= 0.0;
  }

  /** A factor of 1 gives the identity axis. */
  lemma ScaleAxisByOne(n: nat)
    ensures ScaleAxis(n, 1.0) == IdentityAxis(n)
  {
    var a := ScaleAxis(n, 1.0);
    assert (n as real * 1.0).Floor == n;
    forall i | 0 <= i < n
      ensures a.lower[i] == i && a.upper[i] == i
    {
      assert i as real / 1.0 == i as real;
    }
  }

  /** With exactly computed coordinates, a resize by factor 1 reproduces the image. */
  lemma ResizeByOne(g: Grid<Pixel>)
    requires g.Valid() && GrayOrRgb(g)
    ensures Resizable(g, ScaleAxis(g.height, 1.0), ScaleAxis(g.width, 1.0))
    ensures Resized(g, ScaleAxis(g.height, 1.0), ScaleAxis(g.width, 1.0)) == g
  {
    ScaleAxisByOne(g.height);
    ScaleAxisByOne(g.width);
    ResizeByIdentity(g);
  }
}
