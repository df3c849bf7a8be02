/** Row-major pixel grids and the geometric transforms that only move pixels:
    quarter turns and the left-right mirror. Nothing here looks inside a pixel. */
module Grids {

  /** A grid of `height` rows of `width` samples each; `cells[i][j]` is row i, column j.
      The dimensions are kept apart from the rows so that a grid with no rows still
      remembers its width, as the image classes' `width` and `height` fields do. */
  datatype Grid<P> = Grid(width: nat, height: nat, cells: seq<seq<P>>)
  {
    predicate Valid() {
      |cells| == height && forall i :: 0 <= i < height ==> |cells[i]| == width
    }
  }

  /** Two well-formed grids with the same dimensions and the same samples are equal. */
  lemma Extensionality<P>(a: Grid<P>, b: Grid<P>)
    requires a.Valid() && b.Valid() && a.width == b.width && a.height == b.height
    requires forall i, j :: 0 <= i < a.height && 0 <= j < a.width ==> a.cells[i][j] == b.cells[i][j]
    ensures a == b
  {
    forall i | 0 <= i < a.height
      ensures a.cells[i] == b.cells[i]
    {
    }
  }

  /** One clockwise quarter turn: `new[i][j] = old[height-j-1][i]`, width and height swapped. */
  function RotateCw<P>(g: Grid<P>): (r: Grid<P>)
    requires g.Valid()
    ensures r.Valid() && r.width == g.height && r.height == g.width
  {
    Grid(g.height, g.width,
         seq(g.width, i requires 0 <= i < g.width =>
           seq(g.height, j requires 0 <= j < g.height => g.cells[g.height - j - 1][i])))
  }

  /** One counter-clockwise quarter turn: `new[i][j] = old[j][width-i-1]`, width and height swapped. */
  function RotateCcw<P>(g: Grid<P>): (r: Grid<P>)
    requires g.Valid()
    ensures r.Valid() && r.width == g.height && r.height == g.width
  {
    Grid(g.height, g.width,
         seq(g.width, i requires 0 <= i < g.width =>
           seq(g.height, j requires 0 <= j < g.height => g.cells[j][g.width - i - 1])))
  }

  /** The half turn, `new[i][j] = old[height-1-i][width-1-j]`; used to reason about pairs of quarter turns. */
  function HalfTurn<P>(g: Grid<P>): (r: Grid<P>)
    requires g.Valid()
    ensures r.Valid() && r.width == g.width && r.height == g.height
  {
    Grid(g.width, g.height,
         seq(g.height, i requires 0 <= i < g.height =>
           seq(g.width, j requires 0 <= j < g.width => g.cells[g.height - 1 - i][g.width - 1 - j])))
  }

  /** `n` clockwise unit steps, one after the other. */
  function TurnsCw<P>(g: Grid<P>, n: nat): (r: Grid<P>)
    requires g.Valid()
    ensures r.Valid()
    ensures n % 2 == 0 ==> r.width == g.width && r.height == g.height
    ensures n % 2 == 1 ==> r.width == g.height && r.height == g.width
  {
    if n == 0 then g else RotateCw(TurnsCw(g, n - 1))
  }

  /** `n` counter-clockwise unit steps, one after the other. */
  function TurnsCcw<P>(g: Grid<P>, n: nat): (r: Grid<P>)
    requires g.Valid()
    ensures r.Valid()
    ensures n % 2 == 0 ==> r.width == g.width && r.height == g.height
    ensures n % 2 == 1 ==> r.width == g.height && r.height == g.width
  {
    if n == 0 then g else RotateCcw(TurnsCcw(g, n - 1))
  }

  /** What `image += times` does to the grid of a rotatable image: a positive count is
      reduced mod 4 and turned clockwise; a negative count is made positive with `abs`,
      reduced mod 4 and turned counter-clockwise; zero does nothing. An even count keeps
      width and height, an odd count swaps them. */
  function Rotated<P>(g: Grid<P>, times: int): (r: Grid<P>)
    requires g.Valid()
    ensures r.Valid()
    ensures times % 2 == 0 ==> r.width == g.width && r.height == g.height
    ensures times % 2 == 1 ==> r.width == g.height && r.height == g.width
  {
    if times > 0 then TurnsCw(g, times % 4)
    else if times < 0 then TurnsCcw(g, (-times) % 4)
    else g
  }

  /** The left-right mirror: pixel (i, j) moves to (i, width-1-j) within its own row. */
  function Mirrored<P>(g: Grid<P>): (r: Grid<P>)
    requires g.Valid()
    ensures r.Valid() && r.width == g.width && r.height == g.height
  {
    Grid(g.width, g.height,
         seq(g.height, i requires 0 <= i < g.height =>
           seq(g.width, j requires 0 <= j < g.width => g.cells[i][g.width - 1 - j])))
  }

  // ---------------------------------------------------------------------------
  // Laws of the quarter turns

  /** A counter-clockwise step undoes a clockwise step: grid, width and height are restored. */
  lemma CcwUndoesCw<P>(g: Grid<P>)
    requires g.Valid()
    ensures RotateCcw(RotateCw(g)) == g
  {
    var r := RotateCcw(RotateCw(g));
    forall i, j | 0 <= i < g.height && 0 <= j < g.width
      ensures r.cells[i][j] == g.cells[i][j]
    {
    }
    Extensionality(r, g);
  }

  /** A clockwise step undoes a counter-clockwise step. */
  lemma CwUndoesCcw<P>(g: Grid<P>)
    requires g.Valid()
    ensures RotateCw(RotateCcw(g)) == g
  {
    var r := RotateCw(RotateCcw(g));
    forall i, j | 0 <= i < g.height && 0 <= j < g.width
      ensures r.cells[i][j] == g.cells[i][j]
    {
    }
    Extensionality(r, g);
  }

  /** Two clockwise steps make a half turn. */
  lemma TwoCwAreHalfTurn<P>(g: Grid<P>)
    requires g.Valid()
    ensures RotateCw(RotateCw(g)) == HalfTurn(g)
  {
    var r := RotateCw(RotateCw(g));
    forall i, j | 0 <= i < g.height && 0 <= j < g.width
      ensures r.cells[i][j] == HalfTurn(g).cells[i][j]
    {
    }
    Extensionality(r, HalfTurn(g));
  }

  /** Two counter-clockwise steps make the same half turn. */
  lemma TwoCcwAreHalfTurn<P>(g: Grid<P>)
    requires g.Valid()
    ensures RotateCcw(RotateCcw(g)) == HalfTurn(g)
  {
    var r := RotateCcw(RotateCcw(g));
    forall i, j | 0 <= i < g.height && 0 <= j < g.width
      ensures r.cells[i][j] == HalfTurn(g).cells[i][j]
    {
    }
    Extensionality(r, HalfTurn(g));
  }

  /** The half turn is its own inverse. */
  lemma HalfTurnInvolution<P>(g: Grid<P>)
    requires g.Valid()
    ensures HalfTurn(HalfTurn(g)) == g
  {
    var r := HalfTurn(HalfTurn(g));
    forall i, j | 0 <= i < g.height && 0 <= j < g.width
      ensures r.cells[i][j] == g.cells[i][j]
    {
    }
    Extensionality(r, g);
  }

  /** A counter-clockwise step is a half turn after a clockwise step. */
  lemma CcwIsHalfTurnOfCw<P>(g: Grid<P>)
    requires g.Valid()
    ensures RotateCcw(g) == HalfTurn(RotateCw(g))
  {
    var r := HalfTurn(RotateCw(g));
    forall i, j | 0 <= i < g.width && 0 <= j < g.height
      ensures r.cells[i][j] == RotateCcw(g).cells[i][j]
    {
    }
    Extensionality(r, RotateCcw(g));
  }

  /** A clockwise step is a half turn after a counter-clockwise step. */
  lemma CwIsHalfTurnOfCcw<P>(g: Grid<P>)
    requires g.Valid()
    ensures RotateCw(g) == HalfTurn(RotateCcw(g))
  {
    var r := HalfTurn(RotateCcw(g));
    forall i, j | 0 <= i < g.width && 0 <= j < g.height
      ensures r.cells[i][j] == RotateCw(g).cells[i][j]
    {
    }
    Extensionality(r, RotateCw(g));
  }

  /** Rotation has order 4: four clockwise steps give back the original grid. */
  lemma FourCwTurnsAreIdentity<P>(g: Grid<P>)
    requires g.Valid()
    ensures TurnsCw(g, 4) == g
  {
    var two := RotateCw(RotateCw(g));
    UnfoldTurnsCw(g);
    assert TurnsCw(g, 4) == RotateCw(RotateCw(two));
    TwoCwAreHalfTurn(g);
    TwoCwAreHalfTurn(two);
    HalfTurnInvolution(g);
  }

  /** Four counter-clockwise steps give back the original grid. */
  lemma FourCcwTurnsAreIdentity<P>(g: Grid<P>)
    requires g.Valid()
    ensures TurnsCcw(g, 4) == g
  {
    var two := RotateCcw(RotateCcw(g));
    UnfoldTurnsCcw(g);
    assert TurnsCcw(g, 4) == RotateCcw(RotateCcw(two));
    TwoCcwAreHalfTurn(g);
    TwoCcwAreHalfTurn(two);
    HalfTurnInvolution(g);
  }

  /** The first few clockwise step counts, written out. */
  lemma UnfoldTurnsCw<P>(g: Grid<P>)
    requires g.Valid()
    ensures TurnsCw(g, 1) == RotateCw(g)
    ensures TurnsCw(g, 2) == RotateCw(RotateCw(g))
    ensures TurnsCw(g, 3) == RotateCw(RotateCw(RotateCw(g)))
    ensures TurnsCw(g, 4) == RotateCw(RotateCw(RotateCw(RotateCw(g))))
  {
  }

  /** The first few counter-clockwise step counts, written out. */
  lemma UnfoldTurnsCcw<P>(g: Grid<P>)
    requires g.Valid()
    ensures TurnsCcw(g, 1) == RotateCcw(g)
    ensures TurnsCcw(g, 2) == RotateCcw(RotateCcw(g))
    ensures TurnsCcw(g, 3) == RotateCcw(RotateCcw(RotateCcw(g)))
    ensures TurnsCcw(g, 4) == RotateCcw(RotateCcw(RotateCcw(RotateCcw(g))))
  {
  }

  /** `r` counter-clockwise steps (r < 4) equal `(4 - r) % 4` clockwise steps. */
  lemma CcwTurnsAsCwTurns<P>(g: Grid<P>, r: nat)
    requires g.Valid() && r < 4
    ensures TurnsCcw(g, r) == TurnsCw(g, (4 - r) % 4)
  {
    var cw := RotateCw(g);
    var ccw := RotateCcw(g);
    UnfoldTurnsCw(g);
    UnfoldTurnsCcw(g);
    if r == 1 {
      // one counter-clockwise step = half turn of one clockwise step = three clockwise steps
      CcwIsHalfTurnOfCw(g);
      TwoCwAreHalfTurn(cw);
      assert TurnsCw(g, 3) == RotateCw(RotateCw(cw));
    } else if r == 2 {
      TwoCcwAreHalfTurn(g);
      TwoCwAreHalfTurn(g);
      assert TurnsCw(g, 2) == RotateCw(cw);
      assert TurnsCcw(g, 2) == RotateCcw(ccw);
    } else if r == 3 {
      // three counter-clockwise steps = half turn of one counter-clockwise step = one clockwise step
      TwoCcwAreHalfTurn(ccw);
      CwIsHalfTurnOfCcw(g);
      assert TurnsCcw(g, 3) == RotateCcw(RotateCcw(ccw));
    }
  }

  /** The rotation count only matters modulo 4, in the mathematical (non-negative) sense:
      `rotate(g, k)` equals `(k mod 4)` clockwise steps for every integer k, so a
      counter-clockwise count is the complementary clockwise count. */
  lemma RotatedByResidue<P>(g: Grid<P>, times: int)
    requires g.Valid()
    ensures Rotated(g, times) == TurnsCw(g, times % 4)
  {
    if times < 0 {
      var r := (-times) % 4;
      assert times % 4 == (4 - r) % 4;
      CcwTurnsAsCwTurns(g, r);
    }
  }

  /** Any multiple of 4, positive or negative, leaves the grid, width and height unchanged. */
  lemma RotatedByMultipleOfFour<P>(g: Grid<P>, times: int)
    requires g.Valid() && times % 4 == 0
    ensures Rotated(g, times) == g
  {
    RotatedByResidue(g, times);
  }

  /** Rotating by `times` and then by `-times` restores the grid. */
  lemma RotateThenUnrotate<P>(g: Grid<P>, times: int)
    requires g.Valid()
    ensures Rotated(Rotated(g, times), -times) == g
  {
    var k := times % 4;
    RotatedByResidue(g, times);
    var h := TurnsCw(g, k);
    RotatedByResidue(h, -times);
    assert (-times) % 4 == (4 - k) % 4;
    TurnsCwAdd(g, k, (4 - k) % 4);
    if k == 0 {
    } else {
      assert k + (4 - k) % 4 == 4;
      FourCwTurnsAreIdentity(g);
    }
  }

  /** Clockwise steps compose by adding their counts. */
  lemma {:induction false} TurnsCwAdd<P>(g: Grid<P>, m: nat, n: nat)
    requires g.Valid()
    ensures TurnsCw(TurnsCw(g, m), n) == TurnsCw(g, m + n)
  {
    if n > 0 {
      TurnsCwAdd(g, m, n - 1);
    }
  }

  // ---------------------------------------------------------------------------
  // Laws of the mirror

  /** The mirror is an involution: applying it twice restores every pixel. */
  lemma MirrorInvolution<P>(g: Grid<P>)
    requires g.Valid()
    ensures Mirrored(Mirrored(g)) == g
  {
    var r := Mirrored(Mirrored(g));
    forall i, j | 0 <= i < g.height && 0 <= j < g.width
      ensures r.cells[i][j] == g.cells[i][j]
    {
    }
    Extensionality(r, g);
  }
}
