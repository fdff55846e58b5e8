/**
  Grid geometry and arithmetic shared by the two wavefront transforms and
  the unsigned/signed experiment: the linear cell index, the four
  axis-aligned neighbours (south, north, west, east) as the transforms
  test for them, and the two-point upwind interpolation.

  Doubles are modelled as exact reals.  The library square root used by
  the interpolation is not modelled: every transform receives it as a
  function value at construction and the proofs never look inside it.
 */
module Grid {

  /** std::numeric_limits<double>::max(), the transforms' "infinity". */
  const Infinity: real := 179769313486231570814527423731704356798070567525844996598917476803157260780028538760589558632766878171540458953514382464234321326889464182768467546703537516986049910576551282076245490090389328944075868508455133942304583236903222948165808559332123348274797826204144723168738177180919299881250404026184124858368.0

  /** fabs */
  function Abs(x: real): (r: real)
    ensures r >= 0.0 && (r == x || r == -x)
  {
    if x < 0.0 then -x else x
  }

  /** index(ix, iy) = ix + dimx * iy; only the linear index is ever range checked. */
  function Index(dimx: nat, ix: nat, iy: nat): nat
  {
    ix + dimx * iy
  }

  /** index >= m_dimx: a south neighbour exists. */
  predicate HasSouth(dimx: nat, index: nat)
  {
    index >= dimx
  }

  /** index < m_toprow, where m_toprow = m_ncells - m_dimx. */
  predicate HasNorth(ncells: nat, dimx: nat, index: nat)
  {
    index < ncells - dimx
  }

  /** index % m_dimx > 0: a west neighbour exists. */
  predicate HasWest(dimx: nat, index: nat)
    requires dimx > 0
  {
    index % dimx > 0
  }

  /** index % m_dimx < m_rightcol, where m_rightcol = m_dimx - 1. */
  predicate HasEast(dimx: nat, index: nat)
    requires dimx > 0
  {
    index % dimx < dimx - 1
  }

  /** The cell index - m_dimx below cell index; in the grid when HasSouth. */
  function South(dimx: nat, index: nat): int
  {
    index - dimx
  }

  /** The cell index + m_dimx above cell index; in the grid when HasNorth. */
  function North(dimx: nat, index: nat): int
  {
    index + dimx
  }

  /** The cell index - 1 left of cell index; in the grid when HasWest. */
  function West(index: nat): int
  {
    index - 1
  }

  /** The cell index + 1 right of cell index; in the grid when HasEast. */
  function East(index: nat): int
  {
    index + 1
  }

  /** Whether cell n is one of the (at most four) neighbours of cell c that the transforms visit. */
  predicate IsNeighbour(dimx: nat, dimy: nat, c: nat, n: nat)
    requires dimx > 0
  {
    (HasSouth(dimx, c) && n == c - dimx) ||
    (HasNorth(dimx * dimy, dimx, c) && n == c + dimx) ||
    (HasWest(dimx, c) && n == c - 1) ||
    (HasEast(dimx, c) && n == c + 1)
  }

  lemma MulMonotone(a: nat, b: nat, c: nat)
    requires b <= c
    ensures a * b <= a * c
  {
  }

  /** A cell written as dimx * q + r (r < dimx) inside a grid of dimy rows lies in row q < dimy. */
  lemma RowInGrid(dimx: nat, dimy: nat, q: nat, r: nat)
    requires r < dimx && dimx * q + r < dimx * dimy
    ensures q < dimy
    ensures r + 1 < dimx ==> dimx * q + r + 1 < dimx * dimy
  {
    if q >= dimy {
      MulMonotone(dimx, dimy, q);
    }
    MulMonotone(dimx, q + 1, dimy);
    assert dimx * (q + 1) == dimx * q + dimx;
  }

  /** A cell index below dimx * dimy forces a non-empty grid, and every neighbour
      that the grid tests say exists lies inside the grid again. */
  lemma NeighboursInGrid(dimx: nat, dimy: nat, index: nat)
    requires index < dimx * dimy
    ensures dimx > 0 && dimy > 0
    ensures HasSouth(dimx, index) ==> index - dimx < dimx * dimy
    ensures HasNorth(dimx * dimy, dimx, index) ==> index + dimx < dimx * dimy
    ensures HasWest(dimx, index) ==> 0 < index && index - 1 < dimx * dimy
    ensures HasEast(dimx, index) ==> index + 1 < dimx * dimy
  {
    if dimx == 0 || dimy == 0 {
      assert false;
    }
    var q, r := index / dimx, index % dimx;
    assert index == dimx * q + r;
    RowInGrid(dimx, dimy, q, r);
  }

  /** The neighbours the transforms' propagate() updates, in its order:
      south, north, west, east. */
  function Neighbours(dimx: nat, dimy: nat, index: nat): (ns: seq<nat>)
    requires index < dimx * dimy
    ensures forall i :: 0 <= i < |ns| ==> ns[i] < dimx * dimy && IsNeighbour(dimx, dimy, index, ns[i])
  {
    NeighboursInGrid(dimx, dimy, index);
    VerticalNeighbours(dimx, dimy, index) + HorizontalNeighbours(dimx, dimy, index)
  }

  /** The south and north neighbours of index that lie in the grid. */
  function VerticalNeighbours(dimx: nat, dimy: nat, index: nat): (ns: seq<nat>)
    requires index < dimx * dimy
    ensures forall i :: 0 <= i < |ns| ==> ns[i] < dimx * dimy && IsNeighbour(dimx, dimy, index, ns[i])
  {
    NeighboursInGrid(dimx, dimy, index);
    (if HasSouth(dimx, index) then [index - dimx] else []) +
    (if HasNorth(dimx * dimy, dimx, index) then [index + dimx] else [])
  }

  /** The west and east neighbours of index that lie in the grid. */
  function HorizontalNeighbours(dimx: nat, dimy: nat, index: nat): (ns: seq<nat>)
    requires index < dimx * dimy
    ensures forall i :: 0 <= i < |ns| ==> ns[i] < dimx * dimy && IsNeighbour(dimx, dimy, index, ns[i])
  {
    NeighboursInGrid(dimx, dimy, index);
    (if HasWest(dimx, index) then [index - 1] else []) +
    (if HasEast(dimx, index) then [index + 1] else [])
  }

  /** The cells propagate() visits are exactly the in-grid neighbours. */
  lemma NeighboursMembers(dimx: nat, dimy: nat, index: nat)
    requires index < dimx * dimy
    ensures dimx > 0
    ensures forall n: nat :: n in Neighbours(dimx, dimy, index) <==> n < dimx * dimy && IsNeighbour(dimx, dimy, index, n)
  {
    NeighboursInGrid(dimx, dimy, index);
    var ns := Neighbours(dimx, dimy, index);
    assert ns == VerticalNeighbours(dimx, dimy, index) + HorizontalNeighbours(dimx, dimy, index);
  }

  /** Each neighbour the grid tests admit is one of the Neighbours. */
  lemma NeighboursCover(dimx: nat, dimy: nat, index: nat)
    requires index < dimx * dimy
    ensures dimx > 0
    ensures HasSouth(dimx, index) ==> index - dimx in Neighbours(dimx, dimy, index)
    ensures HasNorth(dimx * dimy, dimx, index) ==> index + dimx in Neighbours(dimx, dimy, index)
    ensures HasWest(dimx, index) ==> index - 1 in Neighbours(dimx, dimy, index)
    ensures HasEast(dimx, index) ==> index + 1 in Neighbours(dimx, dimy, index)
  {
    NeighboursInGrid(dimx, dimy, index);
    var v, h := VerticalNeighbours(dimx, dimy, index), HorizontalNeighbours(dimx, dimy, index);
    assert Neighbours(dimx, dimy, index) == v + h;
    assert forall n :: n in v ==> n in v + h;
    assert forall n :: n in h ==> n in v + h;
  }

  /** A cell addressed as (ix, iy) with ix + dimx * iy < dimx * dimy has iy < dimy,
      and its east neighbour (ix < dimx - 1) is inside the grid. */
  lemma CoordinatesInGrid(dimx: nat, dimy: nat, ix: nat, iy: nat)
    requires Index(dimx, ix, iy) < dimx * dimy
    ensures dimx > 0 && iy < dimy
    ensures iy > 0 ==> Index(dimx, ix, iy) >= dimx
    ensures ix < dimx - 1 ==> Index(dimx, ix, iy) + 1 < dimx * dimy
  {
    NeighboursInGrid(dimx, dimy, Index(dimx, ix, iy));
    if iy >= dimy {
      MulMonotone(dimx, dimy, iy);
    }
    if iy > 0 {
      MulMonotone(dimx, 1, iy);
    }
    if ix < dimx - 1 {
      MulMonotone(dimx, iy + 1, dimy);
      assert dimx * (iy + 1) == dimx * iy + dimx;
    }
  }

  /** With both coordinates checked separately the linear index lies in the grid. */
  lemma IndexInGrid(dimx: nat, dimy: nat, ix: nat, iy: nat)
    requires ix < dimx && iy < dimy
    ensures Index(dimx, ix, iy) < dimx * dimy
  {
    MulMonotone(dimx, iy + 1, dimy);
    assert dimx * (iy + 1) == dimx * iy + dimx;
  }

  /** The two-point upwind value of a cell whose orthogonal neighbours hold
      primary and secondary, for a cell radius whose square is radius2:
      bb = p + s, cc = (p^2 + s^2 - r^2) / 2, root = bb^2 - 4 cc,
      result (bb + sqrt(root)) / 2. */
  function TwoPoint(sqrt: real -> real, primary: real, secondary: real, radius2: real): real
  {
    var bb := primary + secondary;
    var cc := (primary * primary + secondary * secondary - radius2) / 2.0;
    var root := bb * bb - 4.0 * cc;
    (bb + sqrt(root)) / 2.0
  }

  /** With a square root that never returns a negative number, the two-point
      value is never below the mean of its two inputs. */
  lemma TwoPointAtLeastMean(sqrt: real -> real, primary: real, secondary: real, radius2: real)
    requires forall x :: sqrt(x) >= 0.0
    ensures TwoPoint(sqrt, primary, secondary, radius2) >= (primary + secondary) / 2.0
  {
    var bb := primary + secondary;
    var cc := (primary * primary + secondary * secondary - radius2) / 2.0;
    assert sqrt(bb * bb - 4.0 * cc) >= 0.0;
  }
}
