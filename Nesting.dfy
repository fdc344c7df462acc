/** What BoxFindChildren finds, as properties of Discover: every child lies strictly
    inside its parent, is drawn on the original map where FindBoxAt would find it
    again, the children come in row-major order of their top-left corners and their
    closed rectangles are pairwise disjoint; with the recursive search the whole
    tree is nested this way. The parent is assumed to be drawn itself, as the root
    checked by Run and every box found below it are. */
module Nesting {
  import opened Grids
  import opened Boxes
  import opened Locator
  import opened Finder

  /** Every tile of the mark map `m` is the tile of `g` or, in the open interior of
      `p` only, the claimed marker. */
  predicate MarksInside(g: Grid, p: Box, m: Grid)
    requires SameShape(g, m) && g.Valid()
  {
    forall r, c | 0 <= r < g.Height && 0 <= c < g.Width ::
      m.Tiles[r][c] == g.Tiles[r][c] || (m.Tiles[r][c] == Claimed && InInterior(p, r, c))
  }

  /** Every tile of the closed rectangle of `a` holds the claimed marker on `m`. */
  predicate Claims(m: Grid, a: Box)
    requires m.Valid()
  {
    forall r, c | 0 <= r < m.Height && 0 <= c < m.Width && Covers(a, r, c) :: m.Tiles[r][c] == Claimed
  }

  /** `c` is a child Discover may give `p`: strictly inside it, not zero-sized, found
      by FindBoxAt at its own top-left corner on the original map, and carrying the
      children of the recursive search, or none. */
  predicate Child(g: Grid, p: Box, rec: bool, c: Box)
    requires OnMap(g, p)
  {
    StrictlyInside(c, p) && c.Top < c.Bottom && c.Left < c.Right &&
    FindBox(g, c.Top, c.Left) == Shape(c) &&
    c.Children == if rec then Discover(g, Shape(c), true) else []
  }

  /** The boxes of `kids` come in row-major order of their top-left corners and
      their closed rectangles do not overlap. */
  predicate Ordered(kids: seq<Box>) {
    forall k, l | 0 <= k < l < |kids| :: Before(kids[k], kids[l].Top, kids[l].Left) && Disjoint(kids[k], kids[l])
  }

  /** What holds of a scan of `p` whose next tile is (row, col). */
  predicate ScanInv(g: Grid, p: Box, rec: bool, s: Scan, row: int, col: int) {
    OnMap(g, p) && ValidOn(g, p) && SameShape(g, s.Mark) && MarksInside(g, p, s.Mark) &&
    (forall k | 0 <= k < |s.Found| ::
      Child(g, p, rec, s.Found[k]) && Before(s.Found[k], row, col) && Claims(s.Mark, s.Found[k])) &&
    Ordered(s.Found)
  }

  /** A box found on the mark map inside a drawn parent lies strictly inside the
      parent, and FindBoxAt finds the same box on the original map: the tiles it
      consults are not claimed, so they are the original tiles. */
  lemma FoundInside(g: Grid, p: Box, m: Grid, row: nat, col: nat)
    requires OnMap(g, p) && ValidOn(g, p) && SameShape(g, m) && MarksInside(g, p, m)
    requires p.Top < row < p.Bottom && p.Left < col < p.Right
    requires !BoxIsZeroSized(FindBox(m, row, col))
    ensures StrictlyInside(FindBox(m, row, col), p)
    ensures FindBox(g, row, col) == FindBox(m, row, col)
  {
    var b := FindBox(m, row, col);
    // The right side of the parent crosses the top row of `b` as '|', which can be
    // neither the '-' of its top side nor the '+' of its top-right corner.
    assert m.Tiles[row][p.Right] == g.Tiles[row][p.Right] == '|';
    assert b.Right < p.Right;
    // Likewise the bottom side of the parent crosses the right side of `b` as '-'.
    assert m.Tiles[p.Bottom][b.Right] == g.Tiles[p.Bottom][b.Right] == '-';
    assert b.Bottom < p.Bottom;
    assert forall c | b.Left < c < b.Right :: g.Tiles[b.Top][c] == '-' && g.Tiles[b.Bottom][c] == '-' by {
      forall c | b.Left < c < b.Right
        ensures g.Tiles[b.Top][c] == '-' && g.Tiles[b.Bottom][c] == '-'
      {
        assert m.Tiles[b.Top][c] == '-' && m.Tiles[b.Bottom][c] == '-';
      }
    }
    assert forall r | b.Top < r < b.Bottom :: g.Tiles[r][b.Left] == '|' && g.Tiles[r][b.Right] == '|' by {
      forall r | b.Top < r < b.Bottom
        ensures g.Tiles[r][b.Left] == '|' && g.Tiles[r][b.Right] == '|'
      {
        assert m.Tiles[r][b.Left] == '|' && m.Tiles[r][b.Right] == '|';
      }
    }
    assert m.Tiles[b.Top][b.Left] == '+' && m.Tiles[b.Top][b.Right] == '+' && m.Tiles[b.Bottom][b.Right] == '+';
    FindBoxComplete(g, b);
  }

  /** A box found on the mark map, at a tile after the top-left corner of a box `a`
      claimed there, does not overlap `a`: the tile of its top row below the
      overlap would be claimed, yet it is '+' or '-'. */
  lemma DisjointFromClaimed(m: Grid, a: Box, row: nat, col: nat)
    requires m.Valid() && row < m.Height && col < m.Width
    requires a.Top <= a.Bottom && a.Left <= a.Right && Claims(m, a) && Before(a, row, col)
    requires !BoxIsZeroSized(FindBox(m, row, col))
    ensures Disjoint(a, FindBox(m, row, col))
  {
    var b := FindBox(m, row, col);
    if !Disjoint(a, b) {
      var c := if a.Left < b.Left then b.Left else a.Left;
      assert Covers(a, b.Top, c);
    }
  }

  /** The position just after (row, col) keeps every box before it. */
  lemma BeforeLater(b: Box, row: int, col: int, row': int, col': int)
    requires Before(b, row, col)
    requires row < row' || (row == row' && col <= col')
    ensures Before(b, row', col')
  {
  }

  /** The rows above the first interior row hold no children. */
  lemma ScanStart(g: Grid, p: Box, rec: bool)
    requires OnMap(g, p) && ValidOn(g, p)
    ensures ScanInv(g, p, rec, RowsScanned(g, p, rec, p.Top + 1), p.Top + 1, p.Left + 1)
  {
  }

  /** Appending a box that comes after every box of an ordered list and overlaps
      none of them keeps the list ordered. */
  lemma OrderedAppend(kids: seq<Box>, kid: Box)
    requires Ordered(kids)
    requires forall k | 0 <= k < |kids| :: Before(kids[k], kid.Top, kid.Left) && Disjoint(kids[k], kid)
    ensures Ordered(kids + [kid])
  {
    var all := kids + [kid];
    forall k, l | 0 <= k < l < |all|
      ensures Before(all[k], all[l].Top, all[l].Left) && Disjoint(all[k], all[l])
    {
      if l == |kids| {
        assert all[k] == kids[k] && all[l] == kid;
      } else {
        assert all[k] == kids[k] && all[l] == kids[l];
      }
    }
  }

  /** Stamping the claimed marker over a box strictly inside the parent keeps the
      marks in the parent's interior, keeps every earlier claim and claims the box. */
  lemma ClaimKeeps(g: Grid, p: Box, m: Grid, found: seq<Box>, b: Box)
    requires OnMap(g, p) && SameShape(g, m) && MarksInside(g, p, m) && StrictlyInside(b, p)
    requires forall k | 0 <= k < |found| :: Claims(m, found[k])
    ensures MarksInside(g, p, Replace(m, Claimed, b.Top, b.Left, b.Bottom, b.Right))
    ensures Claims(Replace(m, Claimed, b.Top, b.Left, b.Bottom, b.Right), b)
    ensures forall k | 0 <= k < |found| :: Claims(Replace(m, Claimed, b.Top, b.Left, b.Bottom, b.Right), found[k])
  {
    ReplaceTiles(m, Claimed, b.Top, b.Left, b.Bottom, b.Right);
  }

  /** A tile where no box is found leaves the scan as it is, one tile further on, at `next`. */
  lemma NothingFoundKeeps(g: Grid, p: Box, rec: bool, s: Scan, row: nat, col: nat, next: nat)
    requires ScanInv(g, p, rec, s, row, col) && next == col + 1
    ensures ScanInv(g, p, rec, s, row, next)
  {
    forall k | 0 <= k < |s.Found|
      ensures Before(s.Found[k], row, next)
    {
      BeforeLater(s.Found[k], row, col, row, next);
    }
  }

  /** One step of the scan keeps the invariant and moves on by one tile. */
  lemma StepKeeps(g: Grid, p: Box, rec: bool, s: Scan, row: nat, col: nat, next: nat, t: Scan)
    requires ScanInv(g, p, rec, s, row, col) && next == col + 1
    requires p.Top < row < p.Bottom && p.Left < col < p.Right
    requires t == Step(g, p, rec, s, row, col)
    ensures ScanInv(g, p, rec, t, row, next)
  {
    var b := FindBox(s.Mark, row, col);
    if BoxIsZeroSized(b) {
      NothingFoundKeeps(g, p, rec, s, row, col, next);
    } else {
      FoundInside(g, p, s.Mark, row, col);
      var kid := b.(Children := if rec then Discover(g, b, true) else []);
      var m := Replace(s.Mark, Claimed, b.Top, b.Left, b.Bottom, b.Right);
      assert Step(g, p, rec, s, row, col) == Scan(s.Found + [kid], m);
      assert Shape(kid) == b;
      assert Child(g, p, rec, kid);
      ClaimKeeps(g, p, s.Mark, s.Found, b);
      forall k | 0 <= k < |s.Found|
        ensures Before(s.Found[k], kid.Top, kid.Left) && Disjoint(s.Found[k], kid)
      {
        DisjointFromClaimed(s.Mark, s.Found[k], row, col);
      }
      OrderedAppend(s.Found, kid);
      var all := s.Found + [kid];
      forall k | 0 <= k < |all|
        ensures Child(g, p, rec, all[k]) && Before(all[k], row, next) && Claims(m, all[k])
      {
        if k < |s.Found| {
          assert all[k] == s.Found[k];
          BeforeLater(s.Found[k], row, col, row, next);
        } else {
          assert all[k] == kid;
        }
      }
    }
  }

  /** The scan after the interior rows of `p` above `row` keeps the invariant. */
  lemma {:induction false} RowsScannedKeeps(g: Grid, p: Box, rec: bool, row: nat)
    requires OnMap(g, p) && ValidOn(g, p) && p.Top < row <= EndRow(p)
    ensures ScanInv(g, p, rec, RowsScanned(g, p, rec, row), row, p.Left + 1)
    decreases row, 1, 0
  {
    if row == p.Top + 1 {
      ScanStart(g, p, rec);
    } else {
      var s := CellsScanned(g, p, rec, row - 1, EndCol(p));
      CellsScannedKeeps(g, p, rec, row - 1, EndCol(p));
      forall k | 0 <= k < |s.Found|
        ensures Before(s.Found[k], row, p.Left + 1)
      {
        BeforeLater(s.Found[k], row - 1, EndCol(p), row, p.Left + 1);
      }
    }
  }

  /** The scan after the interior rows of `p` above `row` and the interior tiles of
      `row` left of `col` keeps the invariant. */
  lemma {:induction false} CellsScannedKeeps(g: Grid, p: Box, rec: bool, row: nat, col: nat)
    requires OnMap(g, p) && ValidOn(g, p) && p.Top < row < p.Bottom && p.Left < col <= EndCol(p)
    ensures ScanInv(g, p, rec, ScanAt(g, p, rec, row, col), row, col)
    decreases row + 1, 0, col
  {
    if col == p.Left + 1 {
      RowsScannedKeeps(g, p, rec, row);
      assert CellsScanned(g, p, rec, row, col) == RowsScanned(g, p, rec, row);
    } else {
      CellsScannedKeeps(g, p, rec, row, col - 1);
      CellStepKeeps(g, p, rec, row, col);
    }
  }

  /** The scan of the tile (row, col - 1) keeps the invariant of CellsScanned. */
  lemma CellStepKeeps(g: Grid, p: Box, rec: bool, row: nat, col: nat)
    requires OnMap(g, p) && p.Top < row < p.Bottom && p.Left + 1 < col <= EndCol(p)
    requires ScanInv(g, p, rec, ScanAt(g, p, rec, row, col - 1), row, col - 1)
    ensures ScanInv(g, p, rec, ScanAt(g, p, rec, row, col), row, col)
  {
    CellsScannedStep(g, p, rec, row, col - 1, col);
    StepKeeps(g, p, rec, ScanAt(g, p, rec, row, col - 1), row, col - 1, col, ScanAt(g, p, rec, row, col));
  }

  /** The children Discover gives a drawn box: each strictly inside it, found again
      at its own top-left corner on the original map, with the children of the
      recursive search or none; in row-major order and pairwise disjoint. */
  lemma DiscoverChildren(g: Grid, p: Box, rec: bool)
    requires OnMap(g, p) && ValidOn(g, p)
    ensures forall k | 0 <= k < |Discover(g, p, rec)| :: Child(g, p, rec, Discover(g, p, rec)[k])
    ensures Ordered(Discover(g, p, rec))
  {
    RowsScannedKeeps(g, p, rec, EndRow(p));
  }

  /** The children of `t`, and theirs in turn, are drawn on `g` and nested: each
      strictly inside its parent, found by FindBoxAt at its own top-left corner, and
      the children of one box ordered and disjoint. */
  predicate Nested(g: Grid, t: Box)
    requires g.Valid()
    decreases t
  {
    Ordered(t.Children) &&
    forall k | 0 <= k < |t.Children| ::
      StrictlyInside(t.Children[k], t) && t.Children[k].Top < g.Height && t.Children[k].Left < g.Width &&
      FindBox(g, t.Children[k].Top, t.Children[k].Left) == Shape(t.Children[k]) &&
      Nested(g, t.Children[k])
  }

  /** The tree of the recursive search from a drawn box is nested. */
  lemma {:induction false} DiscoverNested(g: Grid, p: Box)
    requires OnMap(g, p) && ValidOn(g, p)
    ensures Nested(g, Box(p.Top, p.Left, p.Bottom, p.Right, Discover(g, p, true)))
    decreases g.Height - p.Top
  {
    var t := Box(p.Top, p.Left, p.Bottom, p.Right, Discover(g, p, true));
    DiscoverChildren(g, p, true);
    forall k | 0 <= k < |t.Children|
      ensures Nested(g, t.Children[k])
    {
      var c := t.Children[k];
      assert Child(g, p, true, c);
      assert ValidOn(g, Shape(c));
      DiscoverNested(g, Shape(c));
      assert c == Box(c.Top, c.Left, c.Bottom, c.Right, Discover(g, Shape(c), true));
    }
  }

  /** Without recursion every child is a leaf. */
  lemma FlatChildrenAreLeaves(g: Grid, p: Box)
    requires OnMap(g, p) && ValidOn(g, p)
    ensures forall k | 0 <= k < |Discover(g, p, false)| :: Discover(g, p, false)[k].Children == []
  {
    DiscoverChildren(g, p, false);
  }

  /** Every child is drawn correctly on the original map and starts inside the
      open interior of its parent. */
  lemma ChildrenValid(g: Grid, p: Box, rec: bool)
    requires OnMap(g, p) && ValidOn(g, p)
    ensures forall k | 0 <= k < |Discover(g, p, rec)| ::
      ValidOn(g, Discover(g, p, rec)[k]) && InInterior(p, Discover(g, p, rec)[k].Top, Discover(g, p, rec)[k].Left)
  {
    var kids := Discover(g, p, rec);
    DiscoverChildren(g, p, rec);
    forall k | 0 <= k < |kids|
      ensures ValidOn(g, kids[k])
    {
      assert Child(g, p, rec, kids[k]);
      assert ValidOn(g, Shape(kids[k]));
    }
  }

  /** The top-left corner of a child lies in no earlier sibling's rectangle: that
      rectangle was stamped over before the scan reached the corner. */
  lemma TopLeftNotInEarlierSibling(g: Grid, p: Box, rec: bool)
    requires OnMap(g, p) && ValidOn(g, p)
    ensures forall k, l | 0 <= k < l < |Discover(g, p, rec)| ::
      !Covers(Discover(g, p, rec)[k], Discover(g, p, rec)[l].Top, Discover(g, p, rec)[l].Left)
  {
    DiscoverChildren(g, p, rec);
  }
}
