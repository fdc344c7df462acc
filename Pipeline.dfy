/** Run: the root box is the whole map; when it is drawn correctly its tree of
    boxes is searched for recursively and drawn, depth by depth, onto a blank map
    of the same size. */
module Pipeline {
  import opened Grids
  import opened Boxes
  import opened Locator
  import opened Finder
  import opened Nesting
  import opened Renderer

  /** What Run ends with: the root box check failed, or the marked map. */
  datatype Outcome = RootNotFound | Marked(MarkMap: array2<char>)

  /** The root box: the border of the whole map. It lies on a map of that size,
      and it is zero-sized exactly when the map is a single row or column. */
  function Root(Height: nat, Width: nat): (r: Box)
    requires Height >= 1 && Width >= 1
    ensures r.Children == [] && r.Bottom < Height && r.Right < Width
    ensures BoxIsZeroSized(r) <==> Height == 1 || Width == 1
  {
    BoxCreate(0, 0, Height - 1, Width - 1)
  }

  /** The root box with the children the recursive search gives it on `g`. */
  function Tree(g: Grid): (t: Box)
    requires g.Valid() && g.Height >= 1 && g.Width >= 1
    ensures Shape(t) == Root(g.Height, g.Width)
  {
    var root := Root(g.Height, g.Width);
    Box(root.Top, root.Left, root.Bottom, root.Right, Discover(g, root, true))
  }

  /** Every box of a nested tree whose outer box has a proper height and width is
      itself proper, lies strictly inside its parent and is disjoint from its
      siblings. */
  lemma {:induction false} NestedWellFormed(g: Grid, t: Box)
    requires g.Valid() && Nested(g, t) && t.Top < t.Bottom && t.Left < t.Right
    ensures WellFormed(t)
    decreases t
  {
    forall k | 0 <= k < |t.Children|
      ensures WellFormed(t.Children[k])
    {
      var kid := t.Children[k];
      assert FindBox(g, kid.Top, kid.Left) == Shape(kid);
      assert Shape(kid) != EmptyBox by {
        assert t.Top < kid.Top;
      }
      NestedWellFormed(g, kid);
    }
    forall k, l | 0 <= k < l < |t.Children|
      ensures Disjoint(t.Children[k], t.Children[l])
    {
      assert Ordered(t.Children);
    }
  }

  /** The tree of a map whose root box is drawn is well formed and fits the map. */
  lemma TreeWellFormed(g: Grid)
    requires g.Valid() && g.Height >= 1 && g.Width >= 1 && ValidOn(g, Root(g.Height, g.Width))
    ensures WellFormed(Tree(g)) && Fits(Tree(g), g.Height, g.Width)
  {
    DiscoverNested(g, Root(g.Height, g.Width));
    NestedWellFormed(g, Tree(g));
    WellFormedFits(Tree(g), g.Height, g.Width);
  }

  /** The marked map of `g`: its tree drawn at depth 0 on a blank map of its size. */
  function Output(g: Grid): (m: Grid)
    requires g.Valid() && g.Height >= 1 && g.Width >= 1 && ValidOn(g, Root(g.Height, g.Width))
    ensures m.Valid() && m.Height == g.Height && m.Width == g.Width
  {
    TreeWellFormed(g);
    Render(BlankGrid(g.Height, g.Width), Tree(g), 0)
  }

  /** Run on the map read from the file, whose width and height are at least one.
      RootNotFound is the early return of the root box check; otherwise the result
      is a fresh map, the tree drawn on blank tiles. */
  method Run(Map: array2<char>) returns (out: Outcome)
    requires Map.Length0 >= 1 && Map.Length1 >= 1
    ensures out.RootNotFound? <==> !ValidOn(View(Map), Root(Map.Length0, Map.Length1))
    ensures out.Marked? ==> fresh(out.MarkMap) && View(out.MarkMap) == Output(View(Map))
  {
    ghost var g := View(Map);
    var RootBox := BoxCreate(0, 0, Map.Length0 - 1, Map.Length1 - 1);
    var valid := BoxIsValid(Map, RootBox);
    if !valid {
      return RootNotFound;
    }
    var RootRef := new BoxRef(RootBox.Top, RootBox.Left, RootBox.Bottom, RootBox.Right);
    BoxFindChildren(Map, RootRef, true);
    assert View(Map) == g;
    var RootTree := RootRef.Value();
    assert RootTree == Tree(g);
    TreeWellFormed(g);
    var MarkMap := CreateMap(Map.Length0, Map.Length1);
    BoxMarkChildren(MarkMap, RootTree, 0);
    return Marked(MarkMap);
  }

  /** What the printed map shows when the root box is drawn: every box of the tree
      with its border, the fill of its depth outside its children, and found again
      at its top-left corner by FindBoxAt. */
  lemma RunDrawsTree(g: Grid)
    requires g.Valid() && g.Height >= 1 && g.Width >= 1 && ValidOn(g, Root(g.Height, g.Width))
    ensures Drawn(Output(g), Tree(g), 0) && AllFound(Output(g), Tree(g))
  {
    TreeWellFormed(g);
    RenderDraws(BlankGrid(g.Height, g.Width), Tree(g), 0);
    DrawnAllFound(Output(g), Tree(g), 0);
  }

  /** Every tile of the marked map is written: the root box covers the whole map,
      so none of the blank tiles CreateMap starts with is left, and the map can be
      printed row by row. */
  lemma OutputHasNoBlank(g: Grid)
    requires g.Valid() && g.Height >= 1 && g.Width >= 1 && ValidOn(g, Root(g.Height, g.Width))
    ensures forall r, c | 0 <= r < g.Height && 0 <= c < g.Width :: Output(g).Tiles[r][c] != Blank
  {
    RunDrawsTree(g);
    forall r, c | 0 <= r < g.Height && 0 <= c < g.Width
      ensures Output(g).Tiles[r][c] != Blank
    {
      DrawnNoBlank(Output(g), Tree(g), 0, r, c);
    }
  }

  /** The smallest map Run accepts: a single empty 3 by 3 box. The search finds
      nothing inside it, so the tree is the root alone. */
  lemma SingleBoxTree(g: Grid)
    requires g == Grid(3, 3, ["+-+", "| |", "+-+"])
    ensures ValidOn(g, Root(3, 3))
    ensures Tree(g) == Box(0, 0, 2, 2, [])
  {
    var root := Root(3, 3);
    assert FindBox(g, 1, 1) == EmptyBox;
    RowScanStarts(g, root, true, 1, 1);
    CellsScannedStep(g, root, true, 1, 1, 2);
    RowScanEnds(g, root, true, 1, 2);
    assert Discover(g, root, true) == [];
  }

  /** Run on that map marks the one interior tile with the depth-0 character. */
  lemma SingleBoxRun(g: Grid)
    requires g == Grid(3, 3, ["+-+", "| |", "+-+"])
    ensures Output(g) == Grid(3, 3, ["+-+", "|#|", "+-+"])
  {
    SingleBoxTree(g);
    PaintTiles(BlankGrid(3, 3), Tree(g), DepthChar(0));
    SameTiles(Output(g), Grid(3, 3, ["+-+", "|#|", "+-+"]));
  }
}
