# ASCII box finder, modelled in Dafny

The program reads a character map on which rectangles ("boxes") are drawn with
`+` corners, `-` top and bottom sides and `|` left and right sides. It checks that
the border of the whole map is itself a box (the root). It then finds the boxes
nested inside the root, and inside those, recursively. Finally it draws the tree
of boxes again on a blank map of the same size, filling the interior of each box
with a character chosen by its depth: `#`, `=`, `-`, `.`, then a space.

The model follows `main.c` function by function, in its imperative form. Where
the code is more definite than its description, the model follows the code:
- a new map is filled with the character `'\0'` (main.c:25-32);
- for depth 4 and deeper the fill stays the space the code starts with
  (main.c:209).

- **Maps** (`Grids.dfy`). A map is an `array2<char>`. `View` reads it as a value
  `Grid(Height, Width, Tiles)`. `CreateMap` allocates the array with every tile
  initialised to `'\0'`; `CopyMap` and `MapReplaceRectangle` are loops over the
  array. Each is proved equal to a function on grids (`BlankGrid`, the tiles of
  the source, `Replace`).
- **Boxes** (`Boxes.dfy`).
  - A `BoxT` value is the datatype `Box`, whose children are a sequence.
  - The `BoxT` that `BoxAddChild` grows in place is the class `BoxRef`. It keeps
    `ChildrenCount`, `ChildrenAllocated` and the `Children` array, which doubles
    when it is full.
  - `BoxIsValid` is the early-return loop, proved to decide the predicate
    `ValidOn`. `ValidOn` does not look at the top-right corner, the bottom-left
    corner or the interior.
- **Locating a box** (`Locator.dfy`).
  - `FindBoxAt` runs its two bounded scan loops and is proved equal to the
    function `FindBox`.
  - `FindBox` is sound (the all-zero box, or a valid box with the given top-left
    corner, on the map) and complete (a rectangle drawn with the three traced
    corners is found exactly).
  - Worked examples show the documented miss of boxes that touch another box on
    their top or right side.
- **Discovery** (`Finder.dfy`, `Nesting.dfy`, `Completeness.dfy`).
  - `BoxFindChildren` is proved to append to its box exactly the children that
    the function `Discover` gives it.
  - `Discover` follows the same row-major scan, tile by tile (`RowsScanned`,
    `CellsScanned`, `Step`). Each step stamps the box it finds with `#` on a
    private copy of the map and recurses on the original map.
  - `Nesting.dfy` proves what the search finds, starting from a box that is
    drawn correctly:
    - each child lies strictly inside its parent and is drawn on the original
      map;
    - the children come in row-major order of their corners and are pairwise
      disjoint;
    - the whole recursive tree is nested this way.
  - `Completeness.dfy` proves that nothing is missed without cause: a box drawn
    strictly inside a drawn parent is among its children whenever no box that
    FindBoxAt finds on the original map at an earlier interior tile of the
    parent overlaps it. The
    scan keeps the original tile wherever no child found so far lies, so the
    outline of such a box is still intact when the scan reaches its corner.
- **Drawing** (`Renderer.dfy`).
  - `BoxMarkChildren` writes the corners, sides and interior in the order of the
    source, then recurses into the children. It is proved equal to the function
    `Render`.
  - For a well-formed tree, `Render` leaves every tile outside the tree's outer
    box unchanged. It draws every box (border, plus the fill of its depth where
    no child lies), and every box of the tree is found again by `FindBox` on the
    result.
- **Run** (`Pipeline.dfy`). The middle of `Run`:
  1. build the root box;
  2. return early when it is not valid;
  3. search recursively;
  4. draw onto a fresh map.

  The result is proved to be the drawn tree, with every tile written.

## Model

| member | source | states |
|---|---|---|
| Grids.CreateMap | main.c:25-32 | returns a fresh Height by Width map whose every tile is the blank character `'\0'` |
| Grids.CopyMap | main.c:35-43 | returns a fresh map of the same dimensions whose every tile equals the source's tile |
| Grids.MapReplaceRectangle | main.c:166-173 | the map afterwards is `Replace` of the map before: the closed rectangle holds `Char` and no other tile changes |
| Grids.BlankGrid | main.c:25-32 | the grid CreateMap is proved to return: Height by Width, every tile the blank character `'\0'` |
| Grids.Replace | main.c:166-173 | the grid MapReplaceRectangle is proved to produce: the dimensions of the map it is applied to, with the tiles ReplaceTiles states |
| Grids.ReplaceTiles | main.c:168-172 | each tile of `Replace` is `Char` inside the closed rectangle and the old tile outside it |
| Grids.ReplaceIdempotent | main.c:166-173 | replacing the same rectangle twice with the same character gives the same map as once |
| Grids.ViewTiles | main.c:17-20 | every tile of the value view of a map is the array's tile at the same row and column |
| Boxes.BoxCreate | main.c:89-93 | a box with exactly the given corners and no children; it is zero-sized exactly when its top equals its bottom or its left equals its right |
| Boxes.BoxIsZeroSized | main.c:121-123 | true when the box has no height or no width (Top == Bottom or Left == Right); such a box has no tile in its open interior |
| Boxes.BoxRef.constructor | main.c:89-93 | a box with the given corners, no children, a count and a capacity of zero |
| Boxes.BoxRef.AddChild | main.c:96-118 | the count grows by one and the children are the old ones followed by the new child; the capacity becomes 1 when it was 0, doubles when the count passes it, and stays otherwise; the layout invariant (capacity a power of two at most twice the count, unused slots all-zero) is kept |
| Boxes.BoxIsValid | main.c:126-139 | returns true exactly when the box is not zero-sized, its top-left and bottom-right corners are `+`, the tiles between them on the left and right sides are `\|` and those on the top and bottom sides are `-` |
| Boxes.ValidOn | main.c:126-139 | the condition BoxIsValid decides: not zero-sized, on the map, `+` at the top-left and bottom-right corners, `\|` between them on the left and right sides and `-` on the top and bottom sides |
| Boxes.ValidOnDependsOnConsulted | main.c:126-139 | two maps that agree on the tiles BoxIsValid consults accept or reject a box together, so the top-right corner, the bottom-left corner and the interior are never looked at |
| Boxes.UncheckedCornersAccepted | main.c:128-129 | a square whose top-right and bottom-left corners are not `+` is accepted |
| Locator.ScanRight | main.c:151-152 | the stop column is the first column from the start that is not `-`, or the width when the `-` run reaches the edge |
| Locator.ScanDown | main.c:156-157 | the stop row is the first row from the start that is not `\|`, or the height when the `\|` run reaches the edge |
| Locator.FindBox | main.c:145-163 | the result is the all-zero box, or a childless box whose top-left corner is the given tile, with Right > Left and Bottom > Top on the map, a `+` at its top-right corner and accepted by BoxIsValid; it is zero-sized exactly when it is the all-zero box |
| Locator.FindBoxAt | main.c:145-163 | the loops, each guarded by the edge of the map and reading only tiles on the map, return exactly FindBox of the current tiles |
| Locator.FindBoxComplete | main.c:150-162 | a rectangle with `+` at its top-left, top-right and bottom-right corners, `-` along its top and bottom sides and `\|` along its left and right sides is found exactly from its top-left corner |
| Locator.FindBoxAtRightEdge | main.c:152-153 | a top side that runs as `-` to the right edge of the map yields the all-zero box |
| Locator.FindBoxAtBottomEdge | main.c:157-158 | a right side that runs as `\|` to the bottom edge of the map yields the all-zero box |
| Locator.TouchingOnTopIsMissed | main.c:141-144 | a box whose top side lies on the bottom side of a wider box above it is not found |
| Locator.TouchingOnTheRightIsMissed | main.c:141-144 | a box whose right side lies on the left side of a taller box is not found |
| Finder.Discover | main.c:176-202 | the children BoxFindChildren gives a box, found by the row-major scan of its interior; a box with no interior row or no interior column, a zero-sized one among them, gets none |
| Finder.RowsScanned | main.c:177-179 | the scan state (children found, mark map) after the interior rows of the box above `row`; the mark map keeps the map's dimensions |
| Finder.CellsScanned | main.c:178-179 | the scan state after those rows and the interior tiles of `row` left of `col`, one Step per tile in row-major order; the mark map keeps the map's dimensions |
| Finder.Step | main.c:180-199 | one tile of the scan appends at most one child and leaves the earlier children in place and in order; the mark map keeps the map's dimensions |
| Finder.BoxFindChildren | main.c:176-202 | the box keeps its corners and its layout invariant, only gains children, and its children afterwards are the old ones followed by `Discover` of the map, which is only read |
| Finder.ScanRow | main.c:179-200 | scanning one interior row moves the mark map and the children from the scan of the rows above it to the scan that includes it |
| Finder.ScanCell | main.c:180-199 | one pass of the inner loop moves the mark map and the children from the scan up to the tile (Row, Col) to the scan up to the next tile |
| Finder.ClaimBoxAt | main.c:180-199 | one tile of the scan performs `Step` on both the mark map and the parent's children |
| Finder.MarkBoxAt | main.c:180-186 | the box found is FindBox of the mark map before; if it is not zero-sized, its top-left corner is the scanned tile (the assertion) and its closed rectangle is stamped with `#` |
| Finder.NewChild | main.c:195-198 | the child appended has the found corners and, for a recursive search, the children `Discover` gives it on the original map, otherwise none |
| Nesting.FoundInside | main.c:178-182 | a box found on the mark map inside a drawn parent lies strictly inside the parent, and FindBoxAt finds the same box on the original map |
| Nesting.DisjointFromClaimed | main.c:184-186 | a box found at a tile after an earlier child's corner, on a mark map where that child's rectangle is stamped, does not overlap that child |
| Nesting.StepKeeps | main.c:180-199 | one scan step keeps the scan invariant: the marks lie in the interior, and every child is inside, found on the original map, before the scan position, stamped, ordered and disjoint |
| Nesting.CellsScannedKeeps | main.c:178-200 | every scan state of the nested loops satisfies the scan invariant |
| Nesting.DiscoverChildren | main.c:178-198 | every child of a drawn box is strictly inside it, not zero-sized, found again at its own top-left corner on the original map and carries the recursive search's children or none; the children are in row-major order and pairwise disjoint |
| Nesting.ChildrenValid | main.c:180-182 | every child is accepted by BoxIsValid on the original map and its top-left corner lies in the parent's open interior |
| Nesting.TopLeftNotInEarlierSibling | main.c:184-186 | no child's top-left corner lies inside an earlier sibling's rectangle |
| Nesting.FlatChildrenAreLeaves | main.c:195-197 | without recursion every child has no children |
| Nesting.DiscoverNested | main.c:195-197 | the tree of the recursive search from a drawn box is nested at every level |
| Completeness.StepUnmarked | main.c:180-186 | a step of the scan stamps only the rectangle of the box it appends, so every tile that no box found so far covers keeps the original map's tile |
| Completeness.CellsScannedUnmarked | main.c:177-200 | at every scan state the mark map holds the original tile wherever no box found so far lies |
| Completeness.RowsScannedUnmarked | main.c:177-200 | likewise at the start of every interior row |
| Completeness.CellsScannedGrow | main.c:178-198 | along a row the children found only grow: each scan state's children are a prefix of every later one's |
| Completeness.RowsScannedGrow | main.c:177-198 | likewise from row to row |
| Completeness.CornerFound | main.c:179-180 | when the scan reaches the top-left corner of a box drawn inside the parent and clear of the boxes found earlier, FindBoxAt on the mark map finds exactly that box |
| Completeness.CornerClaimed | main.c:179-198 | the scan step at that corner appends a child with the box's corners |
| Completeness.DiscoverFindsDrawn | main.c:176-202 | every box drawn strictly inside a drawn parent, and overlapped by no box that FindBoxAt finds at an earlier interior tile, is among the parent's children (same corners) |
| Renderer.DepthChar | main.c:209-223 | the fill by depth: 0 gives `#`, 1 gives `=`, 2 gives `-`, 3 gives `.`, and any deeper level a space; it is never the blank character |
| Renderer.Paint | main.c:226-242 | the painted map has the dimensions of the map it is painted on; its tiles are those PaintTiles states |
| Renderer.Render | main.c:205-246 | the drawn map has the dimensions of the map it is drawn on; RenderOutside, RenderDraws and DrawnAllFound state what it holds |
| Renderer.PaintTiles | main.c:226-242 | each painted tile is `+` at a corner, `\|` on a vertical side, `-` on a horizontal side, the fill in the interior and the old tile elsewhere |
| Renderer.PaintBox | main.c:226-242 | the corner, side and interior loops leave the map equal to `Paint` of the map before |
| Renderer.FillInterior | main.c:238-242 | after the interior loop every interior tile is the fill and every other tile is as the border loops left it |
| Renderer.BoxMarkChildren | main.c:205-246 | the map afterwards is `Render` of the map before: the box painted with its depth's fill, then each child drawn in order one level deeper |
| Renderer.Rendered | main.c:243-245 | the first `i` children drawn one after another, in order, one level deeper; the map keeps its dimensions, and RenderedBetween states which tiles it leaves alone |
| Renderer.RenderOutside | main.c:226-245 | drawing a tree whose every box has its corners in order and lies strictly inside its parent changes no tile outside the closed rectangle of its outer box |
| Renderer.RenderedBetween | main.c:243-245 | drawing a range of children of such a contained tree changes no tile that none of them covers |
| Renderer.DrawnFrame | main.c:226-245 | whether a tree shows as drawn depends only on the tiles of its outer rectangle |
| Renderer.RenderDraws | main.c:205-246 | after Render, every box of a well-formed tree shows its border, and its depth's fill where no child lies |
| Renderer.DrawnIsFound | main.c:150-162 | a drawn box is found again exactly at its top-left corner |
| Renderer.DrawnAllFound | main.c:145-163 | every box of a drawn well-formed tree is found again at its top-left corner |
| Renderer.DrawnNoBlank | main.c:226-242 | no tile in the rectangle of a drawn tree is blank |
| Renderer.WellFormedFits | main.c:243-245 | every box of a well-formed tree whose outer box is on the map is on the map |
| Pipeline.Root | main.c:256 | the box BoxCreate(0, 0, Height - 1, Width - 1): childless, on the map, and zero-sized exactly when the map is a single row or column |
| Pipeline.Tree | main.c:256-259 | the tree of the run has exactly the corners of the root box (0, 0, Height - 1, Width - 1) and the children of the recursive search |
| Pipeline.Output | main.c:261-262 | the marked map has the dimensions of the map read; RunDrawsTree and OutputHasNoBlank state what it holds |
| Pipeline.NestedWellFormed | main.c:259 | a nested tree with a proper outer box is well formed: every box proper, strictly inside its parent and disjoint from its siblings |
| Pipeline.TreeWellFormed | main.c:256-259 | the tree found from a valid root is well formed and lies on the map |
| Pipeline.Run | main.c:256-262 | ends early exactly when the root box is not valid; otherwise returns a fresh map holding the tree drawn at depth 0 on blank tiles, with the input map unchanged |
| Pipeline.RunDrawsTree | main.c:256-262 | on the marked map every box of the tree is drawn and found again at its top-left corner |
| Pipeline.SingleBoxTree | main.c:256-259 | on the 3 by 3 map of a single empty box the root is valid and the tree is the root alone |
| Pipeline.SingleBoxRun | main.c:261-262 | on that map the marked map is the same box with `#` in its one interior tile |
| Pipeline.OutputHasNoBlank | main.c:261-262 | no tile of the marked map is left blank, so every row can be printed |

## Left out

- `ReadMapFromFile`, `PrintMap` and `main`, and the reading and printing parts of `Run`: these are file and console I/O. `Run` takes the loaded map as an array instead.
- `FreeMap` and the `calloc`/`realloc` details: memory management. Dafny's arrays are garbage-collected. A grown child array is modelled as a fresh array with the old children copied over.
- The extra null-terminator column of every row: it exists only for printing. Rows hold exactly Width tiles, and a new map is filled with `'\0'`.
- The `DEBUG_*` compile-time branches (the logging inside `BoxFindChildren` and the numeric depth characters in `BoxMarkChildren`) and the logging, assert and check macros of `debug.h`. `CheckM` in `Run` becomes the early `RootNotFound` result. The `Assert` in `BoxFindChildren` becomes a static assertion.
- Pipeline.Run: requires a height and width of at least one. With a zero dimension, `Height - 1` or `Width - 1` wraps around in unsigned arithmetic. The root is then either zero-sized and rejected at main.c:127, or the check reads outside the map.
- Unsigned 32-bit arithmetic: coordinates, counts, capacities and depths are unbounded naturals. Wrap-around of `ChildrenAllocated * 2` or `Depth + 1` is not modelled.
- Sharing through the struct copy in `BoxAddChild`: the parent's copy of a child shares the child's own children array with the original. The model stores the child as a value, so this aliasing is not captured.
- Nesting.DiscoverChildren: requires the parent to be drawn correctly (`ValidOn`). Both "strictly inside" and "found on the original map" need it: without it, a box found in the interior can run past the parent's right or bottom side. The row-major order, the disjointness, the top-left placement and the leaf facts hold for any parent on the map, but are proved only for a drawn one.
- Nesting.TopLeftNotInEarlierSibling: proved only for a parent drawn correctly, although the stamping argument holds for any parent on the map.
- Nesting.FlatChildrenAreLeaves: proved only for a parent drawn correctly, although it holds for any parent on the map.
- The other Nesting lemmas also assume the parent is drawn correctly. This holds for the root that `Run` checks and for every box found below it. For an arbitrary parent rectangle, BoxFindChildren is proved equal to `Discover`, and nothing more is proved about what it finds.
- Finding the tree again on the marked map is proved box by box (`Pipeline.RunDrawsTree`). That a second search of the marked map returns the same tree is not proved.
