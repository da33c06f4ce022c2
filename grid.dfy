/** The fixed grid of cell anchors (src/App.tsx, `coords`) and the canvas
    extent that encloses it (`canvasWidth`, `canvasHeight`). */
module Grid {
  import opened Geometry

  /** Anchor of cell `i` in row-major order: row `i / GridCols`, column `i % GridCols`. */
  function Cell(i: int): Coord
    requires 0 <= i
  {
    var row := i / GridCols;
    var col := i % GridCols;
    Coord((col * (CellWidth + GridGap) + GridPaddingHorizontal) as real,
          (row * (CellHeight + GridGap) + GridPaddingVertical) as real)
  }

  /** `Array.from({ length: GRID_ROWS * GRID_COLS }, ...)`. */
  function Coords(): (cells: seq<Coord>)
    ensures |cells| == GridRows * GridCols
  {
    seq(GridRows * GridCols, i requires 0 <= i => Cell(i))
  }

  /** The last column's right edge plus the horizontal padding. */
  function CanvasWidth(): (width: int)
    ensures width as real
         == Coords()[GridCols - 1].x + CellWidth as real + GridPaddingHorizontal as real
    ensures width == 790
  {
    CellWidth * GridCols + GridGap * (GridCols - 1) + GridPaddingHorizontal * 2
  }

  /** The last row's bottom edge plus the vertical padding. */
  function CanvasHeight(): (height: int)
    ensures height as real
         == Coords()[|Coords()| - 1].y + CellHeight as real + GridPaddingVertical as real
    ensures height == 790
  {
    CellHeight * GridRows + GridGap * (GridRows - 1) + GridPaddingVertical * 2
  }

  /** A whole, non-negative number of pixels. */
  predicate Whole(r: real)
  {
    0.0 <= r && r == r.Floor as real
  }

  /** Recovers the row-major index of a cell from its anchor. */
  function CellIndex(c: Coord): int
  {
    var col := (c.x.Floor - GridPaddingHorizontal) / (CellWidth + GridGap);
    var row := (c.y.Floor - GridPaddingVertical) / (CellHeight + GridGap);
    row * GridCols + col
  }

  /** The eight anchors, written out with this grid's constants. */
  lemma CoordsLayout(i: int)
    requires 0 <= i < |Coords()|
    ensures |Coords()| == 8
    ensures Coords()[i] == Coord(((i % 2) * 360 + 40) as real, ((i / 2) * 160 + 80) as real)
    ensures Whole(Coords()[i].x) && Whole(Coords()[i].y)
  {
  }

  /** `CellIndex` undoes the layout, so the layout is injective. */
  lemma CellIndexOfCell(i: int)
    requires 0 <= i < |Coords()|
    ensures CellIndex(Coords()[i]) == i
  {
    CoordsLayout(i);
  }

  /** All anchors are pairwise distinct. */
  lemma CoordsDistinct(i: int, j: int)
    requires 0 <= i < |Coords()| && 0 <= j < |Coords()| && i != j
    ensures Coords()[i] != Coords()[j]
  {
    CellIndexOfCell(i);
    CellIndexOfCell(j);
  }

  /** Two different cells are a full cell plus a gap apart on some axis. */
  lemma CellsSeparated(i: int, j: int)
    requires 0 <= i < |Coords()| && 0 <= j < |Coords()| && i != j
    ensures Abs(Coords()[i].x - Coords()[j].x) >= (CellWidth + GridGap) as real
         || Abs(Coords()[i].y - Coords()[j].y) >= (CellHeight + GridGap) as real
  {
    CoordsLayout(i);
    CoordsLayout(j);
    if i % 2 == j % 2 {
      assert i / 2 != j / 2;
    }
  }

  /** Different cells share no area: the gap keeps them apart. */
  lemma CellsDisjoint(i: int, j: int)
    requires 0 <= i < |Coords()| && 0 <= j < |Coords()| && i != j
    ensures CalculateOverlap(Coords()[i].x, Coords()[i].y, Coords()[j].x, Coords()[j].y) == 0.0
  {
    CellsSeparated(i, j);
    OverlapZeroIff(Coords()[i].x, Coords()[i].y, Coords()[j].x, Coords()[j].y);
  }

  /** Every cell lies inside the padded area of the canvas. */
  lemma CanvasEnclosesGrid(i: int)
    requires 0 <= i < |Coords()|
    ensures GridPaddingHorizontal as real <= Coords()[i].x
    ensures Coords()[i].x + CellWidth as real + GridPaddingHorizontal as real <= CanvasWidth() as real
    ensures GridPaddingVertical as real <= Coords()[i].y
    ensures Coords()[i].y + CellHeight as real + GridPaddingVertical as real <= CanvasHeight() as real
  {
    CoordsLayout(i);
  }
}
