/** Histogram equalisation of `operator~` on the luminance channel: an integer histogram
    of the luminance samples, a lookup table from its cumulative distribution, and the
    rewrite of every luminance sample through that table. The source computes the
    table in `double`; `Table` is the same formula in exact rational arithmetic. */
module Equalization {
  import opened Pixels
  import opened Grids
  import opened Photometry

  function Sum(s: seq<nat>): nat
  {
    if s == [] then 0 else Sum(s[..|s| - 1]) + s[|s| - 1]
  }

  /** Adding one to a bucket adds one to the total. */
  lemma {:induction false} SumIncrement(s: seq<nat>, k: nat)
    requires k < |s|
    ensures Sum(s[k := s[k] + 1]) == Sum(s) + 1
  {
    var t := s[k := s[k] + 1];
    if k == |s| - 1 {
      assert t[..|t| - 1] == s[..|s| - 1];
    } else {
      assert t[..|t| - 1] == s[..|s| - 1][k := s[k] + 1];
      SumIncrement(s[..|s| - 1], k);
    }
  }

  /** A prefix sum grows with the prefix and never exceeds the total. */
  lemma {:induction false} PrefixSumMonotone(s: seq<nat>, a: nat, b: nat)
    requires a <= b <= |s|
    ensures Sum(s[..a]) <= Sum(s[..b])
  {
    if a < b {
      PrefixSumMonotone(s, a, b - 1);
      assert s[..b][..b - 1] == s[..b - 1];
    }
  }

  function Zeros(n: nat): (z: seq<nat>)
    ensures |z| == n && Sum(z) == 0
    ensures forall v :: 0 <= v < n ==> z[v] == 0
  {
    if n == 0 then [] else Zeros(n - 1) + [0]
  }

  // ---------------------------------------------------------------------------
  // The histogram

  /** Every pixel of the row has a luminance below `n`: it has a bucket. */
  predicate HasBuckets(row: seq<Pixel>, n: nat)
  {
    forall k :: 0 <= k < |row| ==> !row[k].Rgb? && Luminance(row[k]) < n
  }

  /** `histogram[luminance]++` for the first `n` pixels of a row, left to right. */
  function Tally(h: seq<nat>, row: seq<Pixel>, n: nat): (r: seq<nat>)
    requires n <= |row| && HasBuckets(row, |h|)
    ensures |r| == |h| && Sum(r) == Sum(h) + n
  {
    if n == 0 then h
    else
      var before := Tally(h, row, n - 1);
      var l := Luminance(row[n - 1]);
      SumIncrement(before, l);
      before[l := before[l] + 1]
  }

  /** The row-by-row tally of the first `n` rows of a grid. */
  function TallyRows(h: seq<nat>, rows: seq<seq<Pixel>>, width: nat, n: nat): (r: seq<nat>)
    requires n <= |rows|
    requires forall i :: 0 <= i < |rows| ==> |rows[i]| == width && HasBuckets(rows[i], |h|)
    ensures |r| == |h| && Sum(r) == Sum(h) + n * width
  {
    if n == 0 then h
    else
      NextMultiple(n - 1, width);
      Tally(TallyRows(h, rows, width, n - 1), rows[n - 1], width)
  }

  /** How many of the first `n` pixels of a row have luminance `v`: a plain count, made
      without the histogram. */
  function CountRow(row: seq<Pixel>, v: nat, n: nat): (c: nat)
    requires n <= |row|
    ensures c <= n
  {
    if n == 0 then 0
    else CountRow(row, v, n - 1) + (if !row[n - 1].Rgb? && Luminance(row[n - 1]) == v then 1 else 0)
  }

  /** How many samples of the first `n` rows have luminance `v`. */
  function CountRows(rows: seq<seq<Pixel>>, v: nat, n: nat): (c: nat)
    requires n <= |rows|
  {
    if n == 0 then 0 else CountRows(rows, v, n - 1) + CountRow(rows[n - 1], v, |rows[n - 1]|)
  }

  /** Tallying the first `n` pixels adds to bucket `v` exactly the number of them whose
      luminance is `v`. */
  lemma {:induction false} TallyCounts(h: seq<nat>, row: seq<Pixel>, n: nat, v: nat)
    requires n <= |row| && HasBuckets(row, |h|) && v < |h|
    ensures Tally(h, row, n)[v] == h[v] + CountRow(row, v, n)
  {
    if n > 0 {
      TallyCounts(h, row, n - 1, v);
    }
  }

  /** Tallying the first `n` rows adds to bucket `v` the number of their samples of
      luminance `v`. */
  lemma {:induction false} TallyRowsCounts(h: seq<nat>, rows: seq<seq<Pixel>>, width: nat, n: nat, v: nat)
    requires n <= |rows| && v < |h|
    requires forall i :: 0 <= i < |rows| ==> |rows[i]| == width && HasBuckets(rows[i], |h|)
    ensures TallyRows(h, rows, width, n)[v] == h[v] + CountRows(rows, v, n)
  {
    if n > 0 {
      TallyRowsCounts(h, rows, width, n - 1, v);
      TallyCounts(TallyRows(h, rows, width, n - 1), rows[n - 1], width, v);
    }
  }

  /** Luminance grids: the grayscale and YUV kinds, with their bucket counts and ceilings
      (the grayscale class ignores its own ceiling field here and uses 255). */
  predicate HasLuminance(k: Kind) { k == GrayKind || k == YuvKind }

  function Buckets(k: Kind): nat { if k == YuvKind then 236 else 256 }

  function Ceiling(k: Kind): nat { if k == YuvKind then 235 else 255 }

  lemma UniformHasBuckets(g: Grid<Pixel>, k: Kind)
    requires g.Valid() && HasLuminance(k) && Uniform(g, k)
    ensures forall i :: 0 <= i < g.height ==> HasBuckets(g.cells[i], Buckets(k))
  {
    forall i, j | 0 <= i < g.height && 0 <= j < g.width
      ensures !g.cells[i][j].Rgb? && Luminance(g.cells[i][j]) < Buckets(k)
    {
      assert Fits(g.cells[i][j], k);
    }
  }

  /** The integer histogram of a luminance grid: one bucket per luminance value, and the
      buckets sum to `width * height`. */
  function Histogram(g: Grid<Pixel>, k: Kind): (h: seq<nat>)
    requires g.Valid() && HasLuminance(k) && Uniform(g, k)
    ensures |h| == Buckets(k) && Sum(h) == g.width * g.height
  {
    UniformHasBuckets(g, k);
    var h := TallyRows(Zeros(Buckets(k)), g.cells, g.width, g.height);
    assert g.height * g.width == g.width * g.height;
    h
  }

  /** The number of samples of the grid whose luminance is `v`. */
  function Occurrences(g: Grid<Pixel>, v: nat): (c: nat)
    requires g.Valid()
  {
    CountRows(g.cells, v, g.height)
  }

  /** Bucket `v` of the histogram holds exactly the number of samples of luminance `v`. */
  lemma HistogramCounts(g: Grid<Pixel>, k: Kind)
    requires g.Valid() && HasLuminance(k) && Uniform(g, k)
    ensures forall v :: 0 <= v < Buckets(k) ==> Histogram(g, k)[v] == Occurrences(g, v)
  {
    UniformHasBuckets(g, k);
    forall v | 0 <= v < Buckets(k)
      ensures Histogram(g, k)[v] == Occurrences(g, v)
    {
      TallyRowsCounts(Zeros(Buckets(k)), g.cells, g.width, g.height, v);
    }
  }

  // ---------------------------------------------------------------------------
  // The lookup table

  /** `newLuminance[v] = (int)(cdf[v] * ceiling)` where `cdf[v]` is the share of samples
      at or below `v`, computed exactly. An empty image divides by zero in the source and
      rewrites nothing; its table is all zeros here. */
  function Table(h: seq<nat>, total: nat, ceiling: nat): (t: seq<int>)
    ensures |t| == |h|
  {
    seq(|h|, v requires 0 <= v < |h| => Scaled(ceiling, Sum(h[..v + 1]), total))
  }

  /** `(int)(part / total * ceiling)` in exact arithmetic, and 0 for an empty image. */
  function Scaled(ceiling: nat, part: nat, total: nat): int
  {
    if total == 0 then 0 else ceiling * part / total
  }

  lemma MulMonotone(c: nat, a: nat, b: nat)
    requires a <= b
    ensures c * a <= c * b
  {
  }

  lemma PositiveFactor(t: int, m: int)
    requires t > 0 && t * m > 0
    ensures m > 0
  {
  }

  lemma DivMonotone(x: nat, y: nat, t: nat)
    requires 0 < t && x <= y
    ensures x / t <= y / t
  {
    var qx, qy := x / t, y / t;
    assert t * qx <= x && y < t * qy + t;
    assert t * (qy + 1 - qx) > 0;
    PositiveFactor(t, qy + 1 - qx);
  }

  lemma ScaledShareBounded(ceiling: nat, part: nat, total: nat)
    requires part <= total
    ensures 0 <= Scaled(ceiling, part, total) <= ceiling
  {
    if total == 0 {
      return;
    }
    MulMonotone(ceiling, part, total);
    DivMonotone(ceiling * part, ceiling * total, total);
    assert ceiling * total / total == ceiling;
  }

  lemma ScaledShareMonotone(ceiling: nat, a: nat, b: nat, total: nat)
    requires a <= b
    ensures Scaled(ceiling, a, total) <= Scaled(ceiling, b, total)
  {
    if total == 0 {
      return;
    }
    MulMonotone(ceiling, a, b);
    DivMonotone(ceiling * a, ceiling * b, total);
  }

  /** When the histogram sums to the sample count, every table entry lies in
      [0, ceiling], so the `unsigned char` casts never wrap and luma stays at most 235. */
  lemma TableBounded(h: seq<nat>, ceiling: nat, v: nat)
    requires v < |h|
    ensures 0 <= Table(h, Sum(h), ceiling)[v] <= ceiling
  {
    PrefixSumMonotone(h, v + 1, |h|);
    assert h[..|h|] == h;
    ScaledShareBounded(ceiling, Sum(h[..v + 1]), Sum(h));
  }

  /** The table never maps a brighter sample below a darker one. */
  lemma TableMonotone(h: seq<nat>, total: nat, ceiling: nat, v: nat, w: nat)
    requires v <= w < |h|
    ensures Table(h, total, ceiling)[v] <= Table(h, total, ceiling)[w]
  {
    PrefixSumMonotone(h, v + 1, w + 1);
    ScaledShareMonotone(ceiling, Sum(h[..v + 1]), Sum(h[..w + 1]), total);
  }

  /** A table entry is the truncation of `ceiling * part / total`: the largest integer
      whose multiple of `total` does not exceed `ceiling * part`. */
  lemma ScaledIsFloor(ceiling: nat, part: nat, total: nat)
    requires 0 < total
    ensures var s := Scaled(ceiling, part, total);
            s * total <= ceiling * part < s * total + total
  {
    var x := ceiling * part;
    assert x == total * (x / total) + x % total;
  }

  /** The brightest bucket of a non-empty image maps to the ceiling: the cumulative share
      there is the whole image. */
  lemma TableTopIsCeiling(h: seq<nat>, ceiling: nat)
    requires |h| > 0 && Sum(h) > 0
    ensures Table(h, Sum(h), ceiling)[|h| - 1] == ceiling
  {
    assert h[..|h|] == h;
    CancelDivision(ceiling, Sum(h));
  }

  // ---------------------------------------------------------------------------
  // The rewrite and the whole operation

  /** Every luminance sample rewritten through the table; chroma, width and height kept. */
  function Relabelled(g: Grid<Pixel>, k: Kind, table: seq<int>): (r: Grid<Pixel>)
    requires g.Valid() && HasLuminance(k) && Uniform(g, k) && |table| == Buckets(k)
    ensures r.Valid() && r.width == g.width && r.height == g.height
  {
    UniformHasBuckets(g, k);
    Grid(g.width, g.height,
         seq(g.height, i requires 0 <= i < g.height =>
           seq(g.width, j requires 0 <= j < g.width => Relabel(g.cells[i][j], table))))
  }

  /** The table `operator~` builds for a grid of kind `k`. */
  function EqualizationTable(g: Grid<Pixel>, k: Kind): (t: seq<int>)
    requires g.Valid() && HasLuminance(k) && Uniform(g, k)
    ensures |t| == Buckets(k)
    ensures forall v :: 0 <= v < |t| ==> 0 <= t[v] <= Ceiling(k)
  {
    var h := Histogram(g, k);
    forall v | 0 <= v < |h|
      ensures 0 <= Table(h, Sum(h), Ceiling(k))[v] <= Ceiling(k)
    {
      TableBounded(h, Ceiling(k), v);
    }
    Table(h, g.width * g.height, Ceiling(k))
  }

  /** `operator~` of the grayscale and YUV images: only the luminance changes, each sample
      to its table entry; the grid keeps its kind (luma stays within [0, 235]), its
      dimensions and, for YUV, both chroma samples of every pixel. */
  function Equalized(g: Grid<Pixel>, k: Kind): (r: Grid<Pixel>)
    requires g.Valid() && HasLuminance(k) && Uniform(g, k)
    ensures r.Valid() && r.width == g.width && r.height == g.height && Uniform(r, k)
    ensures forall i, j :: 0 <= i < g.height && 0 <= j < g.width ==>
              var p, q := g.cells[i][j], r.cells[i][j];
              Luminance(q) == EqualizationTable(g, k)[Luminance(p)]
              && (k == YuvKind ==> q.u == p.u && q.v == p.v)
  {
    var t := EqualizationTable(g, k);
    var r := Relabelled(g, k, t);
    assert forall i, j :: 0 <= i < g.height && 0 <= j < g.width ==> Fits(g.cells[i][j], k);
    r
  }

  // ---------------------------------------------------------------------------
  // A flat image

  /** Tallying `n` pixels of a row whose samples all have luminance `c` adds `n` to
      bucket `c` and nothing elsewhere. */
  lemma {:induction false} TallyFlatRow(h: seq<nat>, row: seq<Pixel>, c: nat, n: nat)
    requires c < |h| && n <= |row| && HasBuckets(row, |h|)
    requires forall k :: 0 <= k < |row| ==> Luminance(row[k]) == c
    ensures Tally(h, row, n) == h[c := h[c] + n]
  {
    if n > 0 {
      TallyFlatRow(h, row, c, n - 1);
    }
  }

  /** Tallying `n` rows of such samples adds `n * width` to bucket `c`. */
  lemma {:induction false} TallyFlatRows(h: seq<nat>, rows: seq<seq<Pixel>>, width: nat, c: nat, n: nat)
    requires c < |h| && n <= |rows|
    requires forall i :: 0 <= i < |rows| ==> |rows[i]| == width && HasBuckets(rows[i], |h|)
    requires forall i, k :: 0 <= i < |rows| && 0 <= k < |rows[i]| ==> !rows[i][k].Rgb? && Luminance(rows[i][k]) == c
    ensures TallyRows(h, rows, width, n) == h[c := h[c] + n * width]
  {
    if n > 0 {
      TallyFlatRows(h, rows, width, c, n - 1);
      TallyFlatRow(TallyRows(h, rows, width, n - 1), rows[n - 1], c, width);
      NextMultiple(n - 1, width);
    }
  }

  lemma NextMultiple(n: nat, width: nat)
    ensures n * width + width == (n + 1) * width
  {
  }

  /** The histogram of a flat image holds every sample in bucket `c`. */
  lemma FlatHistogram(g: Grid<Pixel>, k: Kind, c: nat)
    requires g.Valid() && HasLuminance(k) && Uniform(g, k) && c < Buckets(k)
    requires forall i, j :: 0 <= i < g.height && 0 <= j < g.width ==> !g.cells[i][j].Rgb? && Luminance(g.cells[i][j]) == c
    ensures Histogram(g, k)[c] == g.width * g.height
  {
    UniformHasBuckets(g, k);
    TallyFlatRows(Zeros(Buckets(k)), g.cells, g.width, c, g.height);
    assert g.height * g.width == g.width * g.height;
  }

  /** The prefix through bucket `c` holds at least that bucket and at most everything. */
  lemma PrefixThrough(h: seq<nat>, c: nat)
    requires c < |h|
    ensures h[c] <= Sum(h[..c + 1]) <= Sum(h)
  {
    assert h[..c + 1][..c] == h[..c];
    PrefixSumMonotone(h, c + 1, |h|);
    assert h[..|h|] == h;
  }

  /** Equalising a non-empty image whose luminance is one flat value `c` sends every
      sample to the ceiling (255 for grayscale, 235 for YUV): all the mass sits in one
      bucket, so its cumulative share is 1. */
  lemma FlatImageEqualizesToCeiling(g: Grid<Pixel>, k: Kind, c: nat)
    requires g.Valid() && HasLuminance(k) && Uniform(g, k) && g.width * g.height > 0
    requires forall i, j :: 0 <= i < g.height && 0 <= j < g.width ==> !g.cells[i][j].Rgb? && Luminance(g.cells[i][j]) == c
    ensures forall i, j :: 0 <= i < g.height && 0 <= j < g.width ==>
              Luminance(Equalized(g, k).cells[i][j]) == Ceiling(k)
  {
    var n := g.width * g.height;
    assert g.height > 0 && g.width > 0;
    assert Fits(g.cells[0][0], k);
    var h := Histogram(g, k);
    FlatHistogram(g, k, c);
    PrefixThrough(h, c);
    var share := Sum(h[..c + 1]);
    assert share == n;
    var t := EqualizationTable(g, k);
    assert t[c] == Ceiling(k) * share / n;
    CancelDivision(Ceiling(k), n);
    var r := Equalized(g, k);
    forall i, j | 0 <= i < g.height && 0 <= j < g.width
      ensures Luminance(r.cells[i][j]) == Ceiling(k)
    {
      assert Luminance(g.cells[i][j]) == c;
    }
  }

  lemma CancelDivision(a: nat, n: nat)
    requires 0 < n
    ensures a * n / n == a
  {
    var q := a * n / n;
    assert n * q <= a * n < n * q + n;
    assert n * (q + 1 - a) > 0 && n * (a + 1 - q) > 0;
    PositiveFactor(n, q + 1 - a);
    PositiveFactor(n, a + 1 - q);
  }

}
