/** What BoxFindChildren is sure to find: a box whose outline is drawn strictly
    inside a drawn parent is among the parent's children, unless a box the scan
    meets earlier overlaps it. The scan keeps the original tile wherever no box
    found so far lies, so when it reaches the top-left corner of such a box the
    whole outline is still there to be traced. */
module Completeness {
  import opened Grids
  import opened Boxes
  import opened Locator
  import opened Finder
  import opened Nesting

  /** The mark map `m` holds the tile of `g` wherever no box of `found` lies. */
  predicate UnmarkedElsewhere(g: Grid, m: Grid, found: seq<Box>)
    requires g.Valid() && SameShape(g, m)
  {
    forall r, c | 0 <= r < g.Height && 0 <= c < g.Width && (forall k | 0 <= k < |found| :: !Covers(found[k], r, c)) ::
      m.Tiles[r][c] == g.Tiles[r][c]
  }

  /** Every box FindBoxAt finds on `g` at an interior tile of `p` that comes before
      the top-left corner of `b` in row-major order lies clear of `b`. */
  predicate ClearBefore(g: Grid, p: Box, b: Box)
    requires OnMap(g, p)
  {
    forall r, c | p.Top < r < p.Bottom && p.Left < c < p.Right && (r < b.Top || (r == b.Top && c < b.Left)) ::
      FindBox(g, r, c) == EmptyBox || Disjoint(FindBox(g, r, c), b)
  }

  /** `b` is a box the search of `p` has to find: drawn strictly inside `p` and
      overlapped by no box found before it. */
  predicate Present(g: Grid, p: Box, b: Box)
    requires OnMap(g, p)
  {
    StrictlyInside(b, p) && Outlined(g, b) && ClearBefore(g, p, b)
  }

  /** When the scan reaches the top-left corner of `b`, the boxes found so far are
      clear of `b`, so its outline is unmarked and FindBoxAt traces it. */
  lemma CornerFound(g: Grid, p: Box, rec: bool, b: Box, s: Scan)
    requires OnMap(g, p) && Present(g, p, b)
    requires ScanInv(g, p, rec, s, b.Top, b.Left) && UnmarkedElsewhere(g, s.Mark, s.Found)
    ensures FindBox(s.Mark, b.Top, b.Left) == Shape(b)
  {
    forall k | 0 <= k < |s.Found|
      ensures Disjoint(s.Found[k], b)
    {
      var a := s.Found[k];
      assert Child(g, p, rec, a) && Before(a, b.Top, b.Left);
      assert FindBox(g, a.Top, a.Left) == Shape(a) != EmptyBox;
    }
    var m := s.Mark;
    forall r, c | b.Top <= r <= b.Bottom && b.Left <= c <= b.Right
      ensures m.Tiles[r][c] == g.Tiles[r][c]
    {
      forall k | 0 <= k < |s.Found|
        ensures !Covers(s.Found[k], r, c)
      {
        assert Disjoint(s.Found[k], b);
      }
    }
    assert Outlined(m, Shape(b));
    FindBoxComplete(m, Shape(b));
  }

  /** One step of the scan keeps the original tiles wherever no box found so far
      lies: the tiles it claims are those of the box it appends. */
  lemma StepUnmarked(g: Grid, p: Box, rec: bool, row: nat, col: nat, next: nat)
    requires OnMap(g, p) && p.Top < row < p.Bottom && p.Left < col && next == col + 1 <= EndCol(p)
    requires UnmarkedElsewhere(g, ScanAt(g, p, rec, row, col).Mark, ScanAt(g, p, rec, row, col).Found)
    ensures UnmarkedElsewhere(g, ScanAt(g, p, rec, row, next).Mark, ScanAt(g, p, rec, row, next).Found)
  {
    CellsScannedStep(g, p, rec, row, col, next);
    var s := ScanAt(g, p, rec, row, col);
    var f := FindBox(s.Mark, row, col);
    if !BoxIsZeroSized(f) {
      var kid := f.(Children := if rec then Discover(g, f, true) else []);
      var m := Replace(s.Mark, Claimed, f.Top, f.Left, f.Bottom, f.Right);
      var all := s.Found + [kid];
      assert ScanAt(g, p, rec, row, next) == Scan(all, m);
      ReplaceTiles(s.Mark, Claimed, f.Top, f.Left, f.Bottom, f.Right);
      forall r, c | 0 <= r < g.Height && 0 <= c < g.Width && (forall k | 0 <= k < |all| :: !Covers(all[k], r, c))
        ensures m.Tiles[r][c] == g.Tiles[r][c]
      {
        assert !Covers(all[|s.Found|], r, c);
        forall k | 0 <= k < |s.Found|
          ensures !Covers(s.Found[k], r, c)
        {
          assert all[k] == s.Found[k];
        }
      }
    }
  }

  /** The scan after the interior rows of `p` above `row` leaves unmarked every tile
      no box it found lies on. */
  lemma {:induction false} RowsScannedUnmarked(g: Grid, p: Box, rec: bool, row: nat)
    requires OnMap(g, p) && p.Top < row <= EndRow(p)
    ensures UnmarkedElsewhere(g, RowsScanned(g, p, rec, row).Mark, RowsScanned(g, p, rec, row).Found)
    decreases row, 1, 0
  {
    if row > p.Top + 1 {
      CellsScannedUnmarked(g, p, rec, row - 1, EndCol(p));
      RowScanEnds(g, p, rec, row - 1, row);
    }
  }

  /** Likewise for the scan of `p` up to the tile (row, col). */
  lemma {:induction false} CellsScannedUnmarked(g: Grid, p: Box, rec: bool, row: nat, col: nat)
    requires OnMap(g, p) && p.Top < row < p.Bottom && p.Left < col <= EndCol(p)
    ensures UnmarkedElsewhere(g, ScanAt(g, p, rec, row, col).Mark, ScanAt(g, p, rec, row, col).Found)
    decreases row + 1, 0, col
  {
    if col == p.Left + 1 {
      RowsScannedUnmarked(g, p, rec, row);
      RowScanStarts(g, p, rec, row, col);
    } else {
      CellsScannedUnmarked(g, p, rec, row, col - 1);
      StepUnmarked(g, p, rec, row, col - 1, col);
    }
  }

  /** The boxes found along a row only grow: the scan up to `col` found a prefix of
      what the scan up to `col'` found. */
  lemma {:induction false} CellsScannedGrow(g: Grid, p: Box, rec: bool, row: nat, col: nat, col': nat)
    requires OnMap(g, p) && p.Top < row < p.Bottom && p.Left < col <= col' <= EndCol(p)
    ensures ScanAt(g, p, rec, row, col).Found <= ScanAt(g, p, rec, row, col').Found
    decreases col'
  {
    if col' > col {
      CellsScannedGrow(g, p, rec, row, col, col' - 1);
      CellsScannedStep(g, p, rec, row, col' - 1, col');
    }
  }

  /** Likewise from the rows above `row` to the rows above `row'`. */
  lemma {:induction false} RowsScannedGrow(g: Grid, p: Box, rec: bool, row: nat, row': nat)
    requires OnMap(g, p) && p.Top < row <= row' <= EndRow(p)
    ensures RowsScanned(g, p, rec, row).Found <= RowsScanned(g, p, rec, row').Found
    decreases row'
  {
    if row' > row {
      RowsScannedGrow(g, p, rec, row, row' - 1);
      RowScanStarts(g, p, rec, row' - 1, p.Left + 1);
      CellsScannedGrow(g, p, rec, row' - 1, p.Left + 1, EndCol(p));
      RowScanEnds(g, p, rec, row' - 1, row');
    }
  }

  /** The tile at the top-left corner of `b` appends a box with the corners of `b`. */
  lemma CornerClaimed(g: Grid, p: Box, rec: bool, b: Box)
    requires OnMap(g, p) && ValidOn(g, p) && Present(g, p, b)
    ensures |ScanAt(g, p, rec, b.Top, b.Left).Found| < |ScanAt(g, p, rec, b.Top, b.Left + 1).Found|
    ensures Shape(ScanAt(g, p, rec, b.Top, b.Left + 1).Found[|ScanAt(g, p, rec, b.Top, b.Left).Found|]) == Shape(b)
  {
    var s := ScanAt(g, p, rec, b.Top, b.Left);
    CellsScannedKeeps(g, p, rec, b.Top, b.Left);
    CellsScannedUnmarked(g, p, rec, b.Top, b.Left);
    CornerFound(g, p, rec, b, s);
    CellsScannedStep(g, p, rec, b.Top, b.Left, b.Left + 1);
  }

  /** BoxFindChildren finds every box drawn strictly inside a drawn parent that no
      box met earlier in the scan overlaps: its corners are those of one of the
      children Discover gives the parent. */
  lemma DiscoverFindsDrawn(g: Grid, p: Box, rec: bool, b: Box)
    requires OnMap(g, p) && ValidOn(g, p)
    requires StrictlyInside(b, p) && Outlined(g, b) && ClearBefore(g, p, b)
    ensures exists k | 0 <= k < |Discover(g, p, rec)| :: Shape(Discover(g, p, rec)[k]) == Shape(b)
  {
    CornerClaimed(g, p, rec, b);
    var k := |ScanAt(g, p, rec, b.Top, b.Left).Found|;
    var t := ScanAt(g, p, rec, b.Top, b.Left + 1);
    CellsScannedGrow(g, p, rec, b.Top, b.Left + 1, EndCol(p));
    RowScanEnds(g, p, rec, b.Top, b.Top + 1);
    RowsScannedGrow(g, p, rec, b.Top + 1, EndRow(p));
    var kids := Discover(g, p, rec);
    assert kids == RowsScanned(g, p, rec, EndRow(p)).Found;
    assert kids[k] == t.Found[k];
  }
}
