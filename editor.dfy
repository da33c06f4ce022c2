/** The placement state of src/App.tsx as an object: the menu of products not
    yet placed (`menuItems`), the items on the canvas (`konvaItems`) and the
    snap cell recorded while dragging (`snapCoords`). Each state setter of the
    source is a method that assigns the field directly. */
module EditorState {
  import opened Geometry
  import opened Grid
  import opened Snap
  import opened Placement

  /** `updatedItems.findIndex(...)`: a linear search for the first item whose
      truncated position equals `cell`. */
  method FindIndex(a: array<Item>, cell: Coord) returns (j: int)
    ensures j == FirstOccupant(a[..], cell)
  {
    j := 0;
    while j < a.Length
      invariant 0 <= j <= a.Length
      invariant forall k :: 0 <= k < j ==> !Occupies(a[k], cell)
    {
      if Occupies(a[j], cell) {
        return;
      }
      j := j + 1;
    }
    j := -1;
  }

  /** The updater `handleDragEnd` passes to `setKonvaItems`: copies the items
      into a fresh array, moves the first occupant of the snap cell (when it is
      not the dragged item) to the dragged item's old position, then moves the
      dragged item onto the snap cell plus the jitter. */
  method UpdateItems(prevItems: seq<Item>, index: int, snap: Coord, jitterX: real, jitterY: real)
    returns (items: seq<Item>)
    requires 0 <= index < |prevItems|
    ensures items == DragEnd(prevItems, index, snap, jitterX, jitterY)
  {
    var x, y := snap.x, snap.y;
    var updatedItems := new Item[|prevItems|](k requires 0 <= k < |prevItems| => prevItems[k]);
    assert updatedItems[..] == prevItems;
    var overlapItemIndex := FindIndex(updatedItems, snap);
    if overlapItemIndex != -1 && overlapItemIndex != index {
      updatedItems[overlapItemIndex] :=
        MoveTo(updatedItems[overlapItemIndex], updatedItems[index].x, updatedItems[index].y);
      assert updatedItems[..]
          == prevItems[overlapItemIndex := MoveTo(prevItems[overlapItemIndex], prevItems[index].x, prevItems[index].y)];
    }
    ghost var swapped := updatedItems[..];
    updatedItems[index] := MoveTo(updatedItems[index], x + jitterX, y + jitterY);
    assert updatedItems[..] == swapped[index := MoveTo(swapped[index], x + jitterX, y + jitterY)];
    items := updatedItems[..];
  }

  class Editor {
    var menuItems: seq<Product>
    var konvaItems: seq<Item>
    var snapCoords: Coord

    /** Starts with the whole catalog in the menu, an empty canvas and the
        snap ref at `{ x: 0, y: 0 }`. */
    constructor (productList: seq<Product>)
      ensures menuItems == productList && konvaItems == [] && snapCoords == Coord(0.0, 0.0)
    {
      menuItems := productList;
      konvaItems := [];
      snapCoords := Coord(0.0, 0.0);
    }

    /** `onDragMove`: records the cell the dragged item would snap to. */
    method DragMove(x: real, y: real)
      modifies this`snapCoords
      ensures snapCoords == GetPerfectDropCoords(x, y)
      ensures snapCoords in Coords()
    {
      var maxCoord := GetPerfectDropCoords(x, y);
      // The snapped cell is one of the grid's anchors.
      ghost var k := SnapIsFirstBestCell(x, y);
      snapCoords := maxCoord;
    }

    /** `handleDragEnd`: replaces the items by the updater's result for the
        snap cell recorded by the last `DragMove`. One item per cell is kept
        when the snap ref holds a grid cell. */
    method HandleDragEnd(index: int, jitterX: real, jitterY: real)
      requires 0 <= index < |konvaItems|
      requires Jitter(jitterX) && Jitter(jitterY)
      modifies this`konvaItems
      ensures konvaItems == DragEnd(old(konvaItems), index, snapCoords, jitterX, jitterY)
      ensures old(Tidy(konvaItems)) && snapCoords in Coords() ==> Tidy(konvaItems)
    {
      var prevItems := konvaItems;
      konvaItems := UpdateItems(prevItems, index, snapCoords, jitterX, jitterY);
      if Tidy(prevItems) && snapCoords in Coords() {
        DragEndKeepsTidy(prevItems, index, snapCoords, jitterX, jitterY);
      }
    }

    /** `onDrop`: appends a new item for the dropped product at the snapped
        cell, with a fresh id, and filters the product out of the menu. */
    method Drop(data: Product, x: real, y: real, freshId: real)
      modifies this`konvaItems, this`menuItems
      ensures konvaItems == PlaceProduct(old(konvaItems), data, x, y, freshId)
      ensures menuItems == WithoutProduct(old(menuItems), data.id)
      ensures |konvaItems| == |old(konvaItems)| + 1 && |menuItems| <= |old(menuItems)|
    {
      var dropCoord := GetPerfectDropCoords(x, y);
      konvaItems := konvaItems + [NewItem(data, dropCoord, freshId)];
      menuItems := WithoutProduct(menuItems, data.id);
    }
  }
}
