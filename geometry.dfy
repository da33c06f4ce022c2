/** Layout constants of the product grid and the overlap score between two
    cell-sized rectangles (src/App.tsx, calculateOverlap). Positions are
    JavaScript numbers, modelled as exact reals. */
module Geometry {

  const CellWidth: int := 350
  const CellHeight: int := 150
  const GridRows: int := 4
  const GridCols: int := 2
  const GridGap: int := 10
  const GridPaddingHorizontal: int := 40
  const GridPaddingVertical: int := 80

  /** A point on the canvas; also the top-left anchor of a grid cell. */
  datatype Coord = Coord(x: real, y: real)

  function Min(a: real, b: real): real { if a <= b then a else b }

  function Max(a: real, b: real): real { if a >= b then a else b }

  function Abs(a: real): real { if a >= 0.0 then a else -a }

  /** Reference definition of the shared length: the two intervals share
      `len - |a - b|` when they are closer than `len`, and nothing otherwise. */
  function Span(d: real, len: real): real
  {
    if Abs(d) < len then len - Abs(d) else 0.0
  }

  /** Length shared by the intervals [a, a + len] and [b, b + len]:
      `Math.max(0, Math.min(a + len, b + len) - Math.max(a, b))`. */
  function AxisOverlap(a: real, b: real, len: real): (shared: real)
    ensures len > 0.0 ==> shared == Span(a - b, len) && 0.0 <= shared <= len
  {
    Max(0.0, Min(a + len, b + len) - Max(a, b))
  }

  lemma MulBounds(p: real, pMax: real, q: real, qMax: real)
    requires 0.0 <= p <= pMax && 0.0 <= q <= qMax
    ensures 0.0 <= p * q <= pMax * qMax
  {
    assert p * q <= pMax * q;
    assert pMax * q <= pMax * qMax;
  }

  /** Percentage of one cell's area that a cell-sized rectangle at (itemX, itemY)
      shares with the cell anchored at (gridX, gridY). */
  function CalculateOverlap(itemX: real, itemY: real, gridX: real, gridY: real): (percentage: real)
    ensures 0.0 <= percentage <= 100.0
  {
    var xOverlap := AxisOverlap(itemX, gridX, CellWidth as real);
    var yOverlap := AxisOverlap(itemY, gridY, CellHeight as real);
    var overlapArea := xOverlap * yOverlap;
    var rectArea := (CellWidth * CellHeight) as real;
    MulBounds(xOverlap, CellWidth as real, yOverlap, CellHeight as real);
    (overlapArea / rectArea) * 100.0
  }

  /** The score depends only on the offset between the two rectangles. */
  lemma OverlapByOffset(itemX: real, itemY: real, gridX: real, gridY: real)
    ensures CalculateOverlap(itemX, itemY, gridX, gridY)
         == Span(itemX - gridX, CellWidth as real) * Span(itemY - gridY, CellHeight as real)
            / (CellWidth * CellHeight) as real * 100.0
  {
  }

  /** Swapping the item and the grid position gives the same score. */
  lemma OverlapSymmetric(itemX: real, itemY: real, gridX: real, gridY: real)
    ensures CalculateOverlap(itemX, itemY, gridX, gridY) == CalculateOverlap(gridX, gridY, itemX, itemY)
  {
    OverlapByOffset(itemX, itemY, gridX, gridY);
    OverlapByOffset(gridX, gridY, itemX, itemY);
    assert Abs(itemX - gridX) == Abs(gridX - itemX);
    assert Abs(itemY - gridY) == Abs(gridY - itemY);
  }

  /** The score is 100 exactly when the two rectangles coincide. */
  lemma OverlapFullIff(itemX: real, itemY: real, gridX: real, gridY: real)
    ensures CalculateOverlap(itemX, itemY, gridX, gridY) == 100.0 <==> itemX == gridX && itemY == gridY
  {
    OverlapByOffset(itemX, itemY, gridX, gridY);
    var sx := Span(itemX - gridX, CellWidth as real);
    var sy := Span(itemY - gridY, CellHeight as real);
    assert 0.0 <= sx <= 350.0 && 0.0 <= sy <= 150.0;
    if itemX != gridX {
      assert sx < 350.0;
      assert sx * sy <= sx * 150.0;
      assert sx * 150.0 < 52500.0;
    } else if itemY != gridY {
      assert sy < 150.0;
      assert sx * sy <= 350.0 * sy;
      assert 350.0 * sy < 52500.0;
    }
  }

  /** The score is 0 exactly when the rectangles are at least a cell apart on some axis. */
  lemma OverlapZeroIff(itemX: real, itemY: real, gridX: real, gridY: real)
    ensures CalculateOverlap(itemX, itemY, gridX, gridY) == 0.0
        <==> Abs(itemX - gridX) >= CellWidth as real || Abs(itemY - gridY) >= CellHeight as real
  {
    OverlapByOffset(itemX, itemY, gridX, gridY);
    var sx := Span(itemX - gridX, CellWidth as real);
    var sy := Span(itemY - gridY, CellHeight as real);
    if sx > 0.0 && sy > 0.0 {
      assert sx * sy > 0.0;
    }
  }
}
