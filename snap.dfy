/** Snap resolution (src/App.tsx, getPerfectDropCoords): a left fold over the
    grid cells that keeps the cell with the highest overlap score. The fold's
    comparison is strict, so on a tie the cell seen first stays. */
module Snap {
  import opened Geometry
  import opened Grid

  /** The running maximum of the fold, seeded with `-Infinity`. */
  datatype MaxValue = NegInfinity | Finite(v: real)

  datatype Acc = Acc(maxValue: MaxValue, maxCoord: Coord)

  /** The fold's seed: `{ maxValue: -Infinity, maxCoord: { x: 0, y: 0 } }`.
      Every score exceeds its maximum, so the first cell always replaces it. */
  function Seed(): (acc: Acc)
    ensures forall overlap: real :: Exceeds(overlap, acc.maxValue)
    ensures acc.maxCoord == Coord(0.0, 0.0)
  {
    Acc(NegInfinity, Coord(0.0, 0.0))
  }

  /** `overlap > acc.maxValue`: every number exceeds `-Infinity`, and a score
      does not exceed an equal maximum (the comparison is strict). */
  predicate Exceeds(overlap: real, m: MaxValue): (b: bool)
    ensures m == NegInfinity ==> b
    ensures m == Finite(overlap) ==> !b
  {
    match m
    case NegInfinity => true
    case Finite(v) => overlap > v
  }

  function Score(x: real, y: real, c: Coord): real
  {
    CalculateOverlap(x, y, c.x, c.y)
  }

  /** One step of the reducer: the result holds a finite maximum that is at
      least the new cell's score and at least the previous maximum; it is the
      new cell only when that cell's score exceeds the previous maximum. */
  function Step(x: real, y: real, acc: Acc, coord: Coord): (next: Acc)
    ensures next.maxValue.Finite?
    ensures next.maxValue.v >= Score(x, y, coord)
    ensures acc.maxValue.Finite? ==> next.maxValue.v >= acc.maxValue.v
    ensures next == acc || next == Acc(Finite(Score(x, y, coord)), coord)
    ensures acc.maxValue == Finite(Score(x, y, coord)) ==> next == acc
  {
    var overlap := Score(x, y, coord);
    if Exceeds(overlap, acc.maxValue) then Acc(Finite(overlap), coord) else acc
  }

  /** `cells.reduce(step, Seed())`: the last cell is folded in after all
      earlier ones. Over a non-empty list the result is one of the cells,
      paired with its own score. */
  function Reduce(x: real, y: real, cells: seq<Coord>): (acc: Acc)
    ensures |cells| == 0 ==> acc == Seed()
    ensures |cells| > 0 ==> acc.maxCoord in cells && acc.maxValue == Finite(Score(x, y, acc.maxCoord))
  {
    if |cells| == 0 then Seed()
    else
      var prev := Reduce(x, y, cells[..|cells| - 1]);
      assert |cells| > 1 ==> prev.maxCoord in cells;
      Step(x, y, prev, cells[|cells| - 1])
  }

  /** `getPerfectDropCoords`: the grid anchor of maximal overlap with a
      cell-sized rectangle at (x, y); never the `{ x: 0, y: 0 }` fallback
      unless that were a cell. */
  function GetPerfectDropCoords(x: real, y: real): (cell: Coord)
    ensures cell in Coords()
    ensures forall j :: 0 <= j < |Coords()| ==> Score(x, y, Coords()[j]) <= Score(x, y, cell)
  {
    ReduceIsMaximal(x, y, Coords());
    Reduce(x, y, Coords()).maxCoord
  }

  /** Over a non-empty list the fold returns the FIRST cell of maximal score,
      paired with that score; the `-Infinity` seed never survives. */
  lemma {:induction false} ReduceFindsFirstMax(x: real, y: real, cells: seq<Coord>) returns (k: int)
    requires |cells| > 0
    ensures 0 <= k < |cells|
    ensures Reduce(x, y, cells) == Acc(Finite(Score(x, y, cells[k])), cells[k])
    ensures forall j :: 0 <= j < |cells| ==> Score(x, y, cells[j]) <= Score(x, y, cells[k])
    ensures forall j :: 0 <= j < k ==> Score(x, y, cells[j]) < Score(x, y, cells[k])
  {
    if |cells| == 1 {
      k := 0;
    } else {
      var k' := ReduceFindsFirstMax(x, y, cells[..|cells| - 1]);
      k := FoldInLast(x, y, cells, k');
    }
  }

  /** The inductive step of `ReduceFindsFirstMax`: folding in the last cell
      keeps the first maximal cell of the list. */
  lemma FoldInLast(x: real, y: real, cells: seq<Coord>, k': int) returns (k: int)
    requires 1 < |cells| && 0 <= k' < |cells| - 1
    requires var init := cells[..|cells| - 1];
      && Reduce(x, y, init) == Acc(Finite(Score(x, y, init[k'])), init[k'])
      && (forall j :: 0 <= j < |init| ==> Score(x, y, init[j]) <= Score(x, y, init[k']))
      && (forall j :: 0 <= j < k' ==> Score(x, y, init[j]) < Score(x, y, init[k']))
    ensures 0 <= k < |cells|
    ensures Reduce(x, y, cells) == Acc(Finite(Score(x, y, cells[k])), cells[k])
    ensures forall j :: 0 <= j < |cells| ==> Score(x, y, cells[j]) <= Score(x, y, cells[k])
    ensures forall j :: 0 <= j < k ==> Score(x, y, cells[j]) < Score(x, y, cells[k])
  {
    var n := |cells|;
    var init := cells[..n - 1];
    var best := Score(x, y, init[k']);
    assert forall j :: 0 <= j < n - 1 ==> cells[j] == init[j];
    if Score(x, y, cells[n - 1]) > best {
      k := n - 1;
    } else {
      k := k';
    }
  }

  lemma ReduceIsMaximal(x: real, y: real, cells: seq<Coord>)
    requires |cells| > 0
    ensures forall j :: 0 <= j < |cells| ==> Score(x, y, cells[j]) <= Score(x, y, Reduce(x, y, cells).maxCoord)
  {
    var k := ReduceFindsFirstMax(x, y, cells);
  }

  /** The snapped position is always one of the grid's anchors (the `{x: 0, y: 0}`
      fallback is unreachable), its score is at least every cell's, and it is
      strictly above every earlier cell's: the first maximal cell wins. */
  lemma SnapIsFirstBestCell(x: real, y: real) returns (k: int)
    ensures 0 <= k < |Coords()| && GetPerfectDropCoords(x, y) == Coords()[k]
    ensures forall j :: 0 <= j < |Coords()| ==> Score(x, y, Coords()[j]) <= Score(x, y, Coords()[k])
    ensures forall j :: 0 <= j < k ==> Score(x, y, Coords()[j]) < Score(x, y, Coords()[k])
  {
    k := ReduceFindsFirstMax(x, y, Coords());
  }

  /** A position within a gap's width of a cell's anchor snaps to that cell. */
  lemma SnapNearCell(i: int, x: real, y: real)
    requires 0 <= i < |Coords()|
    requires Abs(x - Coords()[i].x) <= GridGap as real && Abs(y - Coords()[i].y) <= GridGap as real
    ensures GetPerfectDropCoords(x, y) == Coords()[i]
  {
    var cells := Coords();
    var k := SnapIsFirstBestCell(x, y);
    OverlapZeroIff(x, y, cells[i].x, cells[i].y);
    assert Score(x, y, cells[i]) > 0.0;
    if k != i {
      CellsSeparated(k, i);
      OverlapZeroIff(x, y, cells[k].x, cells[k].y);
      assert false;
    }
  }

  /** Snapping is idempotent: an anchor snaps to itself. */
  lemma SnapOfAnchor(i: int)
    requires 0 <= i < |Coords()|
    ensures GetPerfectDropCoords(Coords()[i].x, Coords()[i].y) == Coords()[i]
  {
    SnapNearCell(i, Coords()[i].x, Coords()[i].y);
  }

  /** Dropping at pixel (45, 85) resolves to the first cell, anchored at (40, 80). */
  lemma SnapExample()
    ensures GetPerfectDropCoords(45.0, 85.0) == Coord(40.0, 80.0)
  {
    CoordsLayout(0);
    SnapNearCell(0, 45.0, 85.0);
  }
}
