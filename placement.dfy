/** Placement state transitions of src/App.tsx as functions on the item lists:
    the drag commit with swap (`handleDragEnd`), the drop of a catalog product
    onto the canvas (`onDrop`) and the menu filter that goes with it. The
    `Editor` class applies them to its state. */
module Placement {
  import opened Geometry
  import opened Grid
  import opened Snap

  /** A catalog entry; ids are produced by `Math.random()`. */
  datatype Product = Product(id: real, name: string, price: string)

  /** A product placed on the canvas (`Product & Coord`). */
  datatype Item = Item(id: real, name: string, price: string, x: real, y: real)

  /** `Math.trunc`: drops the fractional part, rounding toward zero. */
  function Trunc(r: real): (t: int)
    ensures r >= 0.0 ==> 0.0 <= t as real <= r < t as real + 1.0
    ensures r < 0.0 ==> t as real - 1.0 < r <= t as real <= 0.0
  {
    if r >= 0.0 then r.Floor else -((-r).Floor)
  }

  /** The whole-pixel position an item is compared by: less than a pixel from
      the item's position on each axis, toward zero. */
  function CellOf(item: Item): (cell: Coord)
    ensures Abs(item.x - cell.x) < 1.0 && Abs(cell.x) <= Abs(item.x)
    ensures Abs(item.y - cell.y) < 1.0 && Abs(cell.y) <= Abs(item.y)
  {
    Coord(Trunc(item.x) as real, Trunc(item.y) as real)
  }

  /** `Math.trunc(item.x) === x && Math.trunc(item.y) === y`. */
  predicate Occupies(item: Item, cell: Coord): (b: bool)
    ensures b ==> Abs(item.x - cell.x) < 1.0 && Abs(item.y - cell.y) < 1.0
    ensures Whole(cell.x) && Whole(cell.y) && item.x == cell.x && item.y == cell.y ==> b
  {
    CellOf(item) == cell
  }

  /** `items.findIndex(item => Occupies(item, cell))`: the first index of an
      item occupying `cell`, or -1 when there is none. */
  function FirstOccupant(items: seq<Item>, cell: Coord): (j: int)
    ensures -1 <= j < |items|
    ensures j == -1 <==> forall k :: 0 <= k < |items| ==> !Occupies(items[k], cell)
    ensures 0 <= j ==> Occupies(items[j], cell)
    ensures forall k :: 0 <= k < j ==> !Occupies(items[k], cell)
  {
    if |items| == 0 then -1
    else if Occupies(items[0], cell) then 0
    else
      var j := FirstOccupant(items[1..], cell);
      if j == -1 then -1 else j + 1
  }

  /** An item whose position is replaced and whose product part is kept. */
  function MoveTo(item: Item, x: real, y: real): Item
  {
    item.(x := x, y := y)
  }

  /** The new item list after the item at `index` is released over the snap
      cell `snap`: an occupant found first elsewhere takes the dragged item's
      old position, and the dragged item lands on `snap` plus the jitter. */
  function DragEnd(items: seq<Item>, index: int, snap: Coord, jitterX: real, jitterY: real): (r: seq<Item>)
    requires 0 <= index < |items|
    ensures |r| == |items|
  {
    var j := FirstOccupant(items, snap);
    var swapped :=
      if j != -1 && j != index then items[j := MoveTo(items[j], items[index].x, items[index].y)]
      else items;
    swapped[index := MoveTo(swapped[index], snap.x + jitterX, snap.y + jitterY)]
  }

  /** `Math.random() * 0.001`. */
  predicate Jitter(j: real)
  {
    0.0 <= j < 0.001
  }

  /** The product part of two items agree. */
  predicate SameProduct(a: Item, b: Item)
  {
    a.id == b.id && a.name == b.name && a.price == b.price
  }

  /** A drag commit keeps every item's id, name and price and changes only the
      dragged item and the first occupant of the snap cell. */
  lemma DragEndFrame(items: seq<Item>, index: int, snap: Coord, jitterX: real, jitterY: real)
    requires 0 <= index < |items|
    ensures var r := DragEnd(items, index, snap, jitterX, jitterY);
      && |r| == |items|
      && (forall k :: 0 <= k < |r| ==> SameProduct(r[k], items[k]))
      && (forall k :: 0 <= k < |r| && k != index && k != FirstOccupant(items, snap) ==> r[k] == items[k])
  {
  }

  /** The swap rule: the first occupant of the snap cell, when it is not the
      dragged item, receives exactly the dragged item's pre-drag position; the
      dragged item lands on the snap cell plus the jitter, and with a jitter
      below 0.001 on a whole-pixel cell it truncates back to that cell. */
  lemma DragEndSwaps(items: seq<Item>, index: int, snap: Coord, jitterX: real, jitterY: real)
    requires 0 <= index < |items|
    ensures var r := DragEnd(items, index, snap, jitterX, jitterY);
            var j := FirstOccupant(items, snap);
      && (j != -1 && j != index ==> r[j].x == items[index].x && r[j].y == items[index].y)
      && r[index].x == snap.x + jitterX && r[index].y == snap.y + jitterY
      && (Whole(snap.x) && Whole(snap.y) && Jitter(jitterX) && Jitter(jitterY) ==> Occupies(r[index], snap))
  {
    var r := DragEnd(items, index, snap, jitterX, jitterY);
    if Whole(snap.x) && Whole(snap.y) && Jitter(jitterX) && Jitter(jitterY) {
      assert Trunc(r[index].x) == snap.x.Floor;
      assert Trunc(r[index].y) == snap.y.Floor;
    }
  }

  /** Every item sits on a grid cell and no two items share a cell. */
  ghost predicate Tidy(items: seq<Item>)
  {
    && (forall k :: 0 <= k < |items| ==> CellOf(items[k]) in Coords())
    && (forall a, b :: 0 <= a < b < |items| ==> CellOf(items[a]) != CellOf(items[b]))
  }

  lemma CoordsWhole(c: Coord)
    requires c in Coords()
    ensures Whole(c.x) && Whole(c.y)
  {
    var i :| 0 <= i < |Coords()| && Coords()[i] == c;
    CoordsLayout(i);
  }

  /** Releasing over a grid cell keeps the items tidy: one item per cell. */
  lemma DragEndKeepsTidy(items: seq<Item>, index: int, snap: Coord, jitterX: real, jitterY: real)
    requires 0 <= index < |items|
    requires Tidy(items) && snap in Coords() && Jitter(jitterX) && Jitter(jitterY)
    ensures Tidy(DragEnd(items, index, snap, jitterX, jitterY))
  {
    var r := DragEnd(items, index, snap, jitterX, jitterY);
    var j := FirstOccupant(items, snap);
    CoordsWhole(snap);
    DragEndFrame(items, index, snap, jitterX, jitterY);
    DragEndSwaps(items, index, snap, jitterX, jitterY);
    assert CellOf(r[index]) == snap;
    if j != -1 && j != index {
      assert CellOf(r[j]) == CellOf(items[index]);
      assert CellOf(items[j]) == snap;
    }
    forall a, b | 0 <= a < b < |r|
      ensures CellOf(r[a]) != CellOf(r[b])
    {
      if j == -1 {
        // The snap cell was free, so the dragged item cannot meet anyone there.
        if a == index { assert !Occupies(items[b], snap); }
        if b == index { assert !Occupies(items[a], snap); }
      } else {
        // With an occupant the cells of `index` and `j` are exchanged.
        var pa := if a == index then j else if a == j then index else a;
        var pb := if b == index then j else if b == j then index else b;
        assert CellOf(r[a]) == CellOf(items[pa]);
        assert CellOf(r[b]) == CellOf(items[pb]);
        assert pa != pb;
      }
    }
  }

  /** The item a drop creates: the product's name and price, a fresh id and the
      snapped cell. */
  function NewItem(product: Product, cell: Coord, freshId: real): (item: Item)
    ensures item.id == freshId && item.name == product.name && item.price == product.price
    ensures Whole(cell.x) && Whole(cell.y) ==> Occupies(item, cell)
  {
    Item(freshId, product.name, product.price, cell.x, cell.y)
  }

  /** `[...prev, { ...data, id: Math.random(), ...dropCoord }]`. */
  function PlaceProduct(items: seq<Item>, product: Product, x: real, y: real, freshId: real): (r: seq<Item>)
    ensures |r| == |items| + 1 && r[..|items|] == items
    ensures r[|items|].id == freshId && r[|items|].name == product.name && r[|items|].price == product.price
  {
    items + [NewItem(product, GetPerfectDropCoords(x, y), freshId)]
  }

  /** `prev.filter(item => item.id !== id)`. */
  function WithoutProduct(menu: seq<Product>, id: real): (r: seq<Product>)
    ensures |r| <= |menu|
  {
    if |menu| == 0 then []
    else (if menu[0].id != id then [menu[0]] else []) + WithoutProduct(menu[1..], id)
  }

  /** The filtered menu holds exactly the entries whose id differs from `id`. */
  lemma {:induction false} WithoutProductMembers(menu: seq<Product>, id: real, p: Product)
    ensures p in WithoutProduct(menu, id) <==> p in menu && p.id != id
  {
    if |menu| > 0 {
      WithoutProductMembers(menu[1..], id, p);
      assert menu == [menu[0]] + menu[1..];
    }
  }

  /** The appended item sits exactly on the snapped cell, a grid anchor, and
      truncates back to it. */
  lemma PlaceProductAppends(items: seq<Item>, product: Product, x: real, y: real, freshId: real)
    ensures var r := PlaceProduct(items, product, x, y, freshId);
      && Coord(r[|items|].x, r[|items|].y) == GetPerfectDropCoords(x, y)
      && CellOf(r[|items|]) == GetPerfectDropCoords(x, y)
      && GetPerfectDropCoords(x, y) in Coords()
  {
    var r := PlaceProduct(items, product, x, y, freshId);
    var k := SnapIsFirstBestCell(x, y);
    CoordsLayout(k);
    assert CellOf(r[|items|]) == Coords()[k];
  }

  /** A drop keeps the items tidy exactly when the snapped cell was free:
      the drop handler does not look for an occupant, so dropping onto an
      occupied cell stacks two items on it. */
  lemma PlaceProductTidyIff(items: seq<Item>, product: Product, x: real, y: real, freshId: real)
    requires Tidy(items)
    ensures Tidy(PlaceProduct(items, product, x, y, freshId))
        <==> FirstOccupant(items, GetPerfectDropCoords(x, y)) == -1
  {
    var cell := GetPerfectDropCoords(x, y);
    var r := PlaceProduct(items, product, x, y, freshId);
    var n := |items|;
    PlaceProductAppends(items, product, x, y, freshId);
    assert CellOf(r[n]) == cell;
    var j := FirstOccupant(items, cell);
    if j == -1 {
      forall a, b | 0 <= a < b < |r|
        ensures CellOf(r[a]) != CellOf(r[b])
      {
        if b == n {
          assert !Occupies(items[a], cell);
        } else {
          assert r[a] == items[a] && r[b] == items[b];
        }
      }
      forall k | 0 <= k < |r|
        ensures CellOf(r[k]) in Coords()
      {
        if k < n { assert r[k] == items[k]; }
      }
    } else {
      assert r[j] == items[j];
      assert CellOf(r[j]) == CellOf(r[n]);
    }
  }

  /** Filtering is applied entry by entry: it distributes over concatenation,
      so the kept entries stay in their original order. */
  lemma {:induction false} WithoutProductAppend(a: seq<Product>, b: seq<Product>, id: real)
    ensures WithoutProduct(a + b, id) == WithoutProduct(a, id) + WithoutProduct(b, id)
  {
    if |a| == 0 {
      assert a + b == b;
    } else {
      var head := if a[0].id != id then [a[0]] else [];
      calc {
        WithoutProduct(a + b, id);
        { assert (a + b)[0] == a[0]; assert (a + b)[1..] == a[1..] + b; }
        head + WithoutProduct(a[1..] + b, id);
        { WithoutProductAppend(a[1..], b, id); }
        head + (WithoutProduct(a[1..], id) + WithoutProduct(b, id));
        (head + WithoutProduct(a[1..], id)) + WithoutProduct(b, id);
        WithoutProduct(a, id) + WithoutProduct(b, id);
      }
    }
  }

  /** A menu without the id is left unchanged. */
  lemma {:induction false} WithoutAbsentProduct(menu: seq<Product>, id: real)
    requires forall k :: 0 <= k < |menu| ==> menu[k].id != id
    ensures WithoutProduct(menu, id) == menu
  {
    if |menu| > 0 {
      WithoutAbsentProduct(menu[1..], id);
      assert [menu[0]] + menu[1..] == menu;
    }
  }

  lemma WithoutProductSkips(pre: seq<Product>, hit: Product, post: seq<Product>)
    requires forall k :: 0 <= k < |pre| ==> pre[k].id != hit.id
    requires forall k :: 0 <= k < |post| ==> post[k].id != hit.id
    ensures WithoutProduct(pre + ([hit] + post), hit.id) == pre + post
  {
    var id := hit.id;
    calc {
      WithoutProduct(pre + ([hit] + post), id);
      { WithoutProductAppend(pre, [hit] + post, id); }
      WithoutProduct(pre, id) + WithoutProduct([hit] + post, id);
      { WithoutProductAppend([hit], post, id); }
      WithoutProduct(pre, id) + (WithoutProduct([hit], id) + WithoutProduct(post, id));
      { WithoutAbsentProduct(pre, id); WithoutAbsentProduct(post, id); assert [hit][1..] == []; }
      pre + ([] + post);
      { assert [] + post == post; }
      pre + post;
    }
  }

  /** When exactly one entry carries the id, the menu loses that entry and
      keeps all others in order: the catalog shrinks by exactly one. */
  lemma WithoutUniqueProduct(menu: seq<Product>, i: int)
    requires 0 <= i < |menu|
    requires forall k :: 0 <= k < |menu| && k != i ==> menu[k].id != menu[i].id
    ensures WithoutProduct(menu, menu[i].id) == menu[..i] + menu[i + 1..]
    ensures |WithoutProduct(menu, menu[i].id)| == |menu| - 1
  {
    var pre, post := menu[..i], menu[i + 1..];
    forall k | 0 <= k < |pre| ensures pre[k].id != menu[i].id {
      assert pre[k] == menu[k];
    }
    forall k | 0 <= k < |post| ensures post[k].id != menu[i].id {
      assert post[k] == menu[i + 1 + k];
    }
    assert menu == pre + ([menu[i]] + post);
    WithoutProductSkips(pre, menu[i], post);
  }

  /** Two products dropped on the first two cells of the top row; dragging the
      first one over the second cell and releasing swaps their positions (the
      dragged one keeps only the jitter on top of its new cell). */
  lemma SwapScenario(a: Product, b: Product, idA: real, idB: real, jitterX: real, jitterY: real)
    ensures var items := PlaceProduct(PlaceProduct([], a, 45.0, 85.0, idA), b, 405.0, 85.0, idB);
            var r := DragEnd(items, 0, GetPerfectDropCoords(395.0, 90.0), jitterX, jitterY);
      && items[0].x == 40.0 && items[0].y == 80.0 && items[1].x == 400.0 && items[1].y == 80.0
      && r[0].x == 400.0 + jitterX && r[0].y == 80.0 + jitterY
      && r[1].x == 40.0 && r[1].y == 80.0
      && SameProduct(r[0], items[0]) && SameProduct(r[1], items[1])
  {
    CoordsLayout(0);
    CoordsLayout(1);
    SnapNearCell(0, 45.0, 85.0);
    SnapNearCell(1, 405.0, 85.0);
    SnapNearCell(1, 395.0, 90.0);
    var items := PlaceProduct(PlaceProduct([], a, 45.0, 85.0, idA), b, 405.0, 85.0, idB);
    assert !Occupies(items[0], Coord(400.0, 80.0));
    assert Occupies(items[1], Coord(400.0, 80.0));
    assert FirstOccupant(items, Coord(400.0, 80.0)) == 1;
  }
}
