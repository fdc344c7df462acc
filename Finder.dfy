/** BoxFindChildren: the children of a box, found by scanning its open interior in
    row-major order on a private copy of the map (the mark map). Each box found is
    stamped onto the mark map with the claimed marker so that it is not found
    again, and, when the search is recursive, its own children are searched for on
    the original map. */
module Finder {
  import opened Grids
  import opened Boxes
  import opened Locator

  /** The marker stamped over every box found. */
  const Claimed: char := '#'

  /** The state of a scan: the children found so far, in order, and the mark map. */
  datatype Scan = Scan(Found: seq<Box>, Mark: Grid)

  /** The box lies on the map, with its corners in order. */
  predicate OnMap(g: Grid, p: Box) {
    g.Valid() && p.Top <= p.Bottom < g.Height && p.Left <= p.Right < g.Width
  }

  /** `m` is a grid of the same shape as `g`. */
  predicate SameShape(g: Grid, m: Grid) {
    m.Valid() && m.Height == g.Height && m.Width == g.Width
  }

  /** The row just past the last interior row of `p` scanned, and the column just
      past the last interior column; an empty interior ends where it starts. */
  function EndRow(p: Box): nat {
    if p.Bottom <= p.Top then p.Top + 1 else p.Bottom
  }

  function EndCol(p: Box): nat {
    if p.Right <= p.Left then p.Left + 1 else p.Right
  }

  /** The children BoxFindChildren gives the box `p` on the map `g`; a box without
      an interior tile, a zero-sized one in particular, has none. */
  function Discover(g: Grid, p: Box, rec: bool): (kids: seq<Box>)
    requires OnMap(g, p)
    ensures p.Bottom <= p.Top + 1 || p.Right <= p.Left + 1 ==> kids == []
    decreases g.Height - p.Top, 1, 0, 0, 0
  {
    NoColumnsNoScan(g, p, rec, EndRow(p));
    RowsScanned(g, p, rec, EndRow(p)).Found
  }

  /** A box with no interior column leaves every scan of its rows as it started. */
  lemma {:induction false} NoColumnsNoScan(g: Grid, p: Box, rec: bool, row: nat)
    requires OnMap(g, p) && p.Top < row <= EndRow(p)
    ensures p.Right <= p.Left + 1 ==> RowsScanned(g, p, rec, row) == Scan([], g)
    decreases g.Height - p.Top, 0, row, 2, 0
  {
    if p.Right <= p.Left + 1 && row > p.Top + 1 {
      NoColumnsNoScan(g, p, rec, row - 1);
      assert CellsScanned(g, p, rec, row - 1, EndCol(p)) == RowsScanned(g, p, rec, row - 1);
    }
  }

  /** The scan after the interior rows of `p` above `row`. */
  function RowsScanned(g: Grid, p: Box, rec: bool, row: nat): (s: Scan)
    requires OnMap(g, p) && p.Top < row <= EndRow(p)
    ensures SameShape(g, s.Mark)
    decreases g.Height - p.Top, 0, row, 1, 0
  {
    if row == p.Top + 1 then Scan([], g)
    else CellsScanned(g, p, rec, row - 1, EndCol(p))
  }

  /** The scan after the interior rows of `p` above `row` and the interior tiles of
      `row` left of `col`. */
  function CellsScanned(g: Grid, p: Box, rec: bool, row: nat, col: nat): (s: Scan)
    requires OnMap(g, p) && p.Top < row < p.Bottom && p.Left < col <= EndCol(p)
    ensures SameShape(g, s.Mark)
    decreases g.Height - p.Top, 0, row + 1, 0, col
  {
    if col == p.Left + 1 then RowsScanned(g, p, rec, row)
    else Step(g, p, rec, CellsScanned(g, p, rec, row, col - 1), row, col - 1)
  }

  /** The scan of `p` up to the tile (row, col), that is CellsScanned. */
  // Contracts name the scan through this function so that they do not unfold its last Step.
  function ScanAt(g: Grid, p: Box, rec: bool, row: nat, col: nat): Scan
    requires OnMap(g, p) && p.Top < row < p.Bottom && p.Left < col <= EndCol(p)
  {
    CellsScanned(g, p, rec, row, col)
  }

  /** One tile (row, col) of the scan: the box FindBoxAt finds there on the mark map,
      if any, is stamped with the claimed marker and appended, with its own
      children when the search is recursive. */
  function Step(g: Grid, p: Box, rec: bool, s: Scan, row: nat, col: nat): (t: Scan)
    requires OnMap(g, p) && SameShape(g, s.Mark) && p.Top < row < g.Height && col < g.Width
    ensures SameShape(g, t.Mark)
    ensures |s.Found| <= |t.Found| <= |s.Found| + 1 && t.Found[..|s.Found|] == s.Found
    decreases g.Height - p.Top, 0, row + 1, 0, col
  {
    var found := FindBox(s.Mark, row, col);
    if BoxIsZeroSized(found) then s
    else
      var kids := if rec then Discover(g, found, true) else [];
      Scan(s.Found + [found.(Children := kids)],
           Replace(s.Mark, Claimed, found.Top, found.Left, found.Bottom, found.Right))
  }

  /** BoxFindChildren: appends to `Parent` the children Discover gives it on the
      current tiles of `Map`. `Map` is only read; the marks go to a fresh copy. */
  method BoxFindChildren(Map: array2<char>, Parent: BoxRef, Recursive: bool)
    requires Parent.Valid()
    requires Parent.Top <= Parent.Bottom < Map.Length0 && Parent.Left <= Parent.Right < Map.Length1
    modifies Parent, Parent.Children
    ensures Parent.Valid()
    ensures Parent.Children == old(Parent.Children) || fresh(Parent.Children)
    ensures Parent.Kids() == old(Parent.Kids()) +
      Discover(View(Map), BoxCreate(Parent.Top, Parent.Left, Parent.Bottom, Parent.Right), Recursive)
    decreases Map.Length0 - Parent.Top, 2
  {
    ghost var g := View(Map);
    ghost var p := BoxCreate(Parent.Top, Parent.Left, Parent.Bottom, Parent.Right);
    ghost var before := Parent.Kids();
    var MarkMap := CopyMap(Map);
    var Row := Parent.Top + 1;
    while Row < Parent.Bottom
      invariant Parent.Top < Row <= EndRow(p)
      invariant Parent.Valid()
      invariant Parent.Children == old(Parent.Children) || fresh(Parent.Children)
      invariant fresh(MarkMap) && MarkMap.Length0 == Map.Length0 && MarkMap.Length1 == Map.Length1
      invariant View(MarkMap) == RowsScanned(g, p, Recursive, Row).Mark
      invariant Parent.Kids() == before + RowsScanned(g, p, Recursive, Row).Found
    {
      ScanRow(Map, MarkMap, Parent, Recursive, Row, g, p, before);
      Row := Row + 1;
    }
  }

  /** The inner loop of BoxFindChildren: scans the interior tiles of `Row`, left to
      right, appending to `Parent` after `prefix` and the children of the rows above. */
  method ScanRow(Map: array2<char>, MarkMap: array2<char>, Parent: BoxRef, Recursive: bool,
                 Row: nat, ghost g: Grid, ghost p: Box, ghost prefix: seq<Box>)
    requires g == View(Map) && p == BoxCreate(Parent.Top, Parent.Left, Parent.Bottom, Parent.Right)
    requires Parent.Valid()
    requires Parent.Top <= Parent.Bottom < Map.Length0 && Parent.Left <= Parent.Right < Map.Length1
    requires Parent.Top < Row < Parent.Bottom
    requires MarkMap != Map && MarkMap.Length0 == Map.Length0 && MarkMap.Length1 == Map.Length1
    requires View(MarkMap) == RowsScanned(g, p, Recursive, Row).Mark
    requires Parent.Kids() == prefix + RowsScanned(g, p, Recursive, Row).Found
    modifies MarkMap, Parent, Parent.Children
    ensures Parent.Valid()
    ensures Parent.Children == old(Parent.Children) || fresh(Parent.Children)
    ensures View(MarkMap) == RowsScanned(g, p, Recursive, Row + 1).Mark
    ensures Parent.Kids() == prefix + RowsScanned(g, p, Recursive, Row + 1).Found
    decreases Map.Length0 - Parent.Top, 1, 0
  {
    var Col := Parent.Left + 1;
    ghost var scan := RowsScanned(g, p, Recursive, Row);
    RowScanStarts(g, p, Recursive, Row, Col);
    while Col < Parent.Right
      invariant Parent.Left < Col <= EndCol(p)
      invariant Parent.Valid()
      invariant Parent.Children == old(Parent.Children) || fresh(Parent.Children)
      invariant scan == ScanAt(g, p, Recursive, Row, Col)
      invariant View(MarkMap) == scan.Mark && Parent.Kids() == prefix + scan.Found
    {
      scan := ScanCell(Map, MarkMap, Parent, Recursive, Row, Col, Col + 1, g, p, scan, prefix);
      Col := Col + 1;
    }
    RowScanEnds(g, p, Recursive, Row, Row + 1);
  }

  /** The scan of a row starts from the scan of the rows above it. */
  lemma RowScanStarts(g: Grid, p: Box, rec: bool, row: nat, col: nat)
    requires OnMap(g, p) && p.Top < row < p.Bottom && col == p.Left + 1
    ensures ScanAt(g, p, rec, row, col) == RowsScanned(g, p, rec, row)
  {
  }

  /** The scan of the rows above `next` ends with the scan of all of `row`. */
  lemma RowScanEnds(g: Grid, p: Box, rec: bool, row: nat, next: nat)
    requires OnMap(g, p) && p.Top < row < p.Bottom && next == row + 1
    ensures RowsScanned(g, p, rec, next) == ScanAt(g, p, rec, row, EndCol(p))
  {
  }

  /** One iteration of ScanRow: the scan of `Row` advanced from `Col` to `next`. */
  method ScanCell(Map: array2<char>, MarkMap: array2<char>, Parent: BoxRef, Recursive: bool,
                  Row: nat, Col: nat, ghost next: nat, ghost g: Grid, ghost p: Box, ghost s: Scan,
                  ghost prefix: seq<Box>) returns (ghost t: Scan)
    requires g == View(Map) && p == BoxCreate(Parent.Top, Parent.Left, Parent.Bottom, Parent.Right)
    requires Parent.Valid()
    requires Parent.Top <= Parent.Bottom < Map.Length0 && Parent.Left <= Parent.Right < Map.Length1
    requires Parent.Top < Row < Parent.Bottom && Parent.Left < Col < Parent.Right && next == Col + 1
    requires MarkMap != Map && MarkMap.Length0 == Map.Length0 && MarkMap.Length1 == Map.Length1
    requires s == ScanAt(g, p, Recursive, Row, Col)
    requires View(MarkMap) == s.Mark && Parent.Kids() == prefix + s.Found
    modifies MarkMap, Parent, Parent.Children
    ensures Parent.Valid()
    ensures Parent.Children == old(Parent.Children) || fresh(Parent.Children)
    ensures t == ScanAt(g, p, Recursive, Row, next)
    ensures View(MarkMap) == t.Mark && Parent.Kids() == prefix + t.Found
    decreases Map.Length0 - Parent.Top, 0, 1
  {
    ClaimBoxAt(Map, MarkMap, Parent, Recursive, Row, Col, g, p, s, prefix);
    CellsScannedStep(g, p, Recursive, Row, Col, next);
    t := Step(g, p, Recursive, s, Row, Col);
  }

  /** The scan of a row up to column `next` is the scan up to the column before it,
      one Step further on. */
  lemma CellsScannedStep(g: Grid, p: Box, rec: bool, row: nat, col: nat, next: nat)
    requires OnMap(g, p) && p.Top < row < p.Bottom && p.Left < col && next == col + 1 <= EndCol(p)
    ensures ScanAt(g, p, rec, row, next) == Step(g, p, rec, ScanAt(g, p, rec, row, col), row, col)
  {
  }

  /** The body of the scan of BoxFindChildren at the tile (Row, Col): performs Step on
      the mark map and on the children of `Parent`, whose earlier children are
      `prefix` followed by those of the scan `s`. */
  method ClaimBoxAt(Map: array2<char>, MarkMap: array2<char>, Parent: BoxRef, Recursive: bool,
                    Row: nat, Col: nat, ghost g: Grid, ghost p: Box, ghost s: Scan, ghost prefix: seq<Box>)
    requires g == View(Map) && p == BoxCreate(Parent.Top, Parent.Left, Parent.Bottom, Parent.Right)
    requires Parent.Valid()
    requires Parent.Top <= Parent.Bottom < Map.Length0 && Parent.Left <= Parent.Right < Map.Length1
    requires Parent.Top < Row < Parent.Bottom && Parent.Left < Col < Parent.Right
    requires MarkMap != Map && MarkMap.Length0 == Map.Length0 && MarkMap.Length1 == Map.Length1
    requires View(MarkMap) == s.Mark && Parent.Kids() == prefix + s.Found
    modifies MarkMap, Parent, Parent.Children
    ensures Parent.Valid()
    ensures Parent.Children == old(Parent.Children) || fresh(Parent.Children)
    ensures View(MarkMap) == Step(g, p, Recursive, s, Row, Col).Mark
    ensures Parent.Kids() == prefix + Step(g, p, Recursive, s, Row, Col).Found
    decreases Map.Length0 - Parent.Top, 0, 0
  {
    ghost var t := Step(g, p, Recursive, s, Row, Col);
    var Found := MarkBoxAt(MarkMap, Row, Col);
    if !BoxIsZeroSized(Found) {
      var Node := NewChild(Map, Found, Recursive, g);
      assert Shape(Found) == Found;
      assert t.Found == s.Found + [Node];
      Parent.AddChild(Node);
      assert (prefix + s.Found) + [Node] == prefix + (s.Found + [Node]);
    }
  }

  /** The marking half of one tile of the scan: FindBoxAt on the mark map at (Row, Col)
      and, when a box is found, its closed rectangle stamped with the claimed marker. */
  method MarkBoxAt(MarkMap: array2<char>, Row: nat, Col: nat) returns (Found: Box)
    requires Row < MarkMap.Length0 && Col < MarkMap.Length1
    modifies MarkMap
    ensures Found == FindBox(old(View(MarkMap)), Row, Col)
    ensures View(MarkMap) == if BoxIsZeroSized(Found) then old(View(MarkMap))
      else Replace(old(View(MarkMap)), Claimed, Found.Top, Found.Left, Found.Bottom, Found.Right)
  {
    Found := FindBoxAt(MarkMap, Row, Col);
    if !BoxIsZeroSized(Found) {
      // The Assert of BoxFindChildren: the box found starts where the scan is.
      assert Found.Top == Row && Found.Left == Col;
      MapReplaceRectangle(MarkMap, Claimed, Found.Top, Found.Left, Found.Bottom, Found.Right);
    }
  }

  /** The child that ClaimBoxAt appends for the box `Found`: a new BoxT with the
      corners of `Found` whose own children, when the search is recursive, are those
      BoxFindChildren finds for it on `Map`. */
  method NewChild(Map: array2<char>, Found: Box, Recursive: bool, ghost g: Grid) returns (Node: Box)
    requires g == View(Map)
    requires Found.Top <= Found.Bottom < Map.Length0 && Found.Left <= Found.Right < Map.Length1
    ensures Node == Box(Found.Top, Found.Left, Found.Bottom, Found.Right,
                        if Recursive then Discover(g, Shape(Found), true) else [])
    decreases Map.Length0 - Found.Top, 3
  {
    var Child := new BoxRef(Found.Top, Found.Left, Found.Bottom, Found.Right);
    if Recursive {
      BoxFindChildren(Map, Child, true);
    }
    Node := Child.Value();
  }
}
