# Grid-snap placement engine of konva_learn

This project models, in Dafny, the placement logic of `src/App.tsx` in the
konva_learn product-grid editor. A sidebar menu lists catalog products.
Dropping one onto the canvas creates a tile on a fixed 4×2 grid of 350×150
cells, and dragging a tile snaps it to the cell it overlaps most. When that
cell is already taken, its occupant is swapped to the dragged tile's old position.

The project has five modules:

- `Geometry` (geometry.dfy) holds the layout constants and `CalculateOverlap`. That is the
  percentage of a cell's area that a cell-sized rectangle shares with another.
- `Grid` (grid.dfy) holds the row-major list of cell anchors (`coords`) and the canvas
  extent (`canvasWidth`, `canvasHeight`).
- `Snap` (snap.dfy) holds `getPerfectDropCoords`, the `reduce` over the cells. It keeps the
  cell with the highest score and uses a strict `>`, so the first maximal cell wins.
  Its `-Infinity` seed is the `NegInfinity` case of `MaxValue`.
- `Placement` (placement.dfy) holds the state transitions as functions on item lists:
  - `DragEnd` is the updater of `handleDragEnd`.
  - `PlaceProduct` and `WithoutProduct` are the two state updates of the drop handler.
  - The lemmas about them are here too.
- `EditorState` (editor.dfy) holds the class `Editor`, which owns `menuItems`, `konvaItems`
  and the `snapCoords` ref. Each React state setter becomes a direct assignment in a
  method. `UpdateItems` is the updater callback itself: it copies the items into a fresh
  array, searches it with a `findIndex` loop (`FindIndex`) and assigns the two slots in place.

Positions are JavaScript numbers, modelled as exact `real`s. `Math.trunc` is modelled
exactly (rounding toward zero). The two uses of `Math.random()` are parameters:
- the id of a dropped item is `freshId`;
- the drag jitter `Math.random() * 0.001` is `jitterX`/`jitterY`, with 0 ≤ j < 0.001.

Two behaviours of the code matter for the properties below:
- A drop gives the new canvas item a fresh random id. It does not keep the catalog
  product's id.
- The code does not keep at most one item per cell in every case. A drag commit onto a
  grid cell preserves that property (`DragEndKeepsTidy`). A drop preserves it exactly when
  the snapped cell was free (`PlaceProductTidyIff`), because the drop handler never looks
  for an occupant.

## Model

| member | source | states |
|---|---|---|
| Geometry.CalculateOverlap | src/App.tsx:33-53 | the score always lies in [0, 100] |
| Geometry.AxisOverlap | src/App.tsx:39-46 | for a positive length, the per-axis overlap `max(0, min(a+len, b+len) - max(a, b))` equals `len - abs(a-b)` when the intervals are closer than `len`, and 0 otherwise; it lies in [0, len] |
| Geometry.OverlapByOffset | src/App.tsx:33-53 | the score equals the product of the two per-axis spans of the offset, divided by the cell area, times 100 (it depends only on the offset) |
| Geometry.OverlapSymmetric | src/App.tsx:39-46 | swapping (itemX, itemY) with (gridX, gridY) gives the same score |
| Geometry.OverlapFullIff | src/App.tsx:39-52 | the score is 100 if and only if the two positions coincide |
| Geometry.OverlapZeroIff | src/App.tsx:39-52 | the score is 0 if and only if abs(dx) ≥ 350 or abs(dy) ≥ 150 |
| Grid.Coords | src/App.tsx:64-73 | the grid has GRID_ROWS·GRID_COLS = 8 cells |
| Grid.CoordsLayout | src/App.tsx:64-73 | cell i is anchored at x = (i % 2)·360 + 40, y = (i / 2)·160 + 80, both whole non-negative pixels |
| Grid.CellIndexOfCell | src/App.tsx:64-73 | the row-major index can be recovered from a cell's anchor (the layout has a left inverse) |
| Grid.CoordsDistinct | src/App.tsx:64-73 | the anchors are pairwise distinct |
| Grid.CellsSeparated | src/App.tsx:64-73 | two different cells are at least a cell plus the gap apart on some axis |
| Grid.CellsDisjoint | src/App.tsx:64-73 | two different cells share no area (their score is 0) |
| Grid.CanvasWidth | src/App.tsx:75-78 | the canvas width is the last column's right edge plus the horizontal padding, which is 790 |
| Grid.CanvasHeight | src/App.tsx:80-83 | the canvas height is the last row's bottom edge plus the vertical padding, which is 790 |
| Grid.CanvasEnclosesGrid | src/App.tsx:64-83 | every cell lies inside the padded area of the canvas |
| Snap.Seed | src/App.tsx:97-100 | the fold's seed holds `-Infinity`, which every score exceeds, and the fallback cell (0, 0) |
| Snap.Exceeds | src/App.tsx:89 | the comparison `overlap > acc.maxValue`: every score exceeds `-Infinity`, and a score does not exceed an equal maximum |
| Snap.Step | src/App.tsx:87-96 | one reducer step yields a finite maximum that is at least the new cell's score and at least the previous maximum; the result is either the previous accumulator or the new cell with its score; on a tie the previous accumulator stays |
| Snap.Reduce | src/App.tsx:86-101 | the fold over no cells is the seed; over a non-empty list it returns one of the cells, paired with that cell's own score |
| Snap.GetPerfectDropCoords | src/App.tsx:85-103 | the snapped cell is always a grid anchor, and its score is at least every cell's score |
| Snap.ReduceFindsFirstMax | src/App.tsx:86-101 | over any non-empty cell list the fold returns some cell k with its own score (the -Infinity seed never survives); that score is ≥ every cell's score and > every earlier cell's score |
| Snap.SnapIsFirstBestCell | src/App.tsx:85-103 | `getPerfectDropCoords` always returns a grid anchor (the {0,0} fallback is unreachable); the first cell of maximal overlap wins |
| Snap.SnapNearCell | src/App.tsx:85-103 | a position within a gap's width (10 px) of an anchor on both axes snaps to that anchor |
| Snap.SnapOfAnchor | src/App.tsx:85-103 | snapping is idempotent: an anchor snaps to itself |
| Snap.SnapExample | src/App.tsx:85-103 | (45, 85) resolves to (40, 80) |
| Placement.Trunc | src/App.tsx:114 | `Math.trunc`: for r ≥ 0 the result is the largest whole number ≤ r; for r < 0 it is the smallest whole number ≥ r |
| Placement.CellOf | src/App.tsx:114 | the truncated position lies less than a pixel from the item's position on each axis, toward zero |
| Placement.Occupies | src/App.tsx:114 | an item occupies a cell only if it lies within a pixel of the anchor on both axes; an item exactly on a whole-pixel anchor occupies it |
| Placement.FirstOccupant | src/App.tsx:113-115 | `findIndex`: -1 exactly when no item's truncated position is the cell; otherwise that index's item is on the cell and no earlier item is |
| Placement.DragEnd | src/App.tsx:110-131 | the updated list has the same length |
| Placement.DragEndFrame | src/App.tsx:110-131 | every item keeps its id, name and price; every item other than the dragged one and the first occupant is unchanged |
| Placement.DragEndSwaps | src/App.tsx:113-129 | the first occupant j ≠ index receives exactly the dragged item's pre-drag x and y; the dragged item ends at snap + jitter; with 0 ≤ jitter < 0.001 on a whole-pixel cell it truncates back to the snap cell |
| Placement.DragEndKeepsTidy | src/App.tsx:109-131 | when the snap is a grid cell, a drag commit preserves "every item sits on a grid cell and no two items share one" |
| Placement.SwapScenario | src/App.tsx:105-132 | two products dropped on cells (0,0) and (0,1); dragging the first over (0,1) and releasing swaps their positions (up to the jitter) and keeps their products |
| Placement.NewItem | src/App.tsx:176 | the new item carries the fresh id and the product's name and price; placed on a whole-pixel cell, it occupies that cell |
| Placement.PlaceProduct | src/App.tsx:174-177 | a drop keeps the earlier items as they were and appends exactly one item at the end, carrying the fresh id and the product's name and price |
| Placement.PlaceProductAppends | src/App.tsx:170-177 | the appended item sits exactly on the snapped cell, which is a grid anchor, and truncates back to it |
| Placement.PlaceProductTidyIff | src/App.tsx:170-177 | starting from a tidy item list, a drop leaves it tidy if and only if no item occupied the snapped cell |
| Placement.WithoutProduct | src/App.tsx:178 | the filtered menu is never longer than the menu |
| Placement.WithoutProductMembers | src/App.tsx:178 | an entry is in the filtered menu if and only if it is in the menu and its id differs from the dropped id |
| Placement.WithoutProductAppend | src/App.tsx:178 | the filter distributes over concatenation, so kept entries stay in their original order |
| Placement.WithoutAbsentProduct | src/App.tsx:178 | a menu without the dropped id is unchanged |
| Placement.WithoutUniqueProduct | src/App.tsx:178 | when exactly one entry has the dropped id, the menu becomes the entries before it followed by the entries after it, one shorter |
| EditorState.FindIndex | src/App.tsx:113-115 | the linear search returns exactly `FirstOccupant` of the copied array |
| EditorState.UpdateItems | src/App.tsx:110-131 | the copy-and-assign updater returns exactly `DragEnd` of the previous items |
| EditorState.Editor.constructor | src/App.tsx:57-59 | the menu starts as the catalog, the canvas is empty and the snap ref is (0, 0) |
| EditorState.Editor.DragMove | src/App.tsx:220-225 | the snap ref becomes the snapped cell of the drag position, always a grid anchor |
| EditorState.Editor.HandleDragEnd | src/App.tsx:105-132 | the items become `DragEnd` of the old items at the recorded snap cell; a tidy list stays tidy when that cell is a grid anchor |
| EditorState.Editor.Drop | src/App.tsx:166-179 | the items become the old items plus the new one (`PlaceProduct`); the menu becomes `WithoutProduct` of the old menu; the canvas grows by one and the menu does not grow |

## Left out

- Floating-point rounding: overlap scores and positions are exact reals. IEEE double rounding could matter only for scores within rounding error of each other, and for the exact stored value of a jittered position, whose truncation it does not change.
- `Math.random()`: ids and jitters are caller-supplied parameters. Only the jitter's range [0, 0.001) is assumed.
- React state scheduling: each `setKonvaItems`/`setMenuItems` updater is applied at once to the current state, in the order the handler issues them.
- DOM drag-and-drop plumbing is not modelled: `dataTransfer`, `JSON.parse`, `offsetX`/`offsetY`, `preventDefault`. `Drop` takes the parsed product and the raw coordinates.
- Rendering is not modelled: the `Stage`/`Layer`/`Group`/`Rect`/`Text`/`Image` tree, `useImage`, `stageRef` and `moveToTop`. They are presentation or foreign library calls.
- The `|| { x: 0, y: 0 }` guard of `onDragMove` is dead code, because the snapped cell is always an object. `DragMove` stores the snapped cell directly.
- EditorState.Editor.HandleDragEnd requires the index to be in range. Its only caller passes the index of a rendered item.
- The open-canvas variant (images, text labels, resizing, selection and edit state, export) is not part of this model. It is not in `src/App.tsx`.
