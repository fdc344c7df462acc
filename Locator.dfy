/** FindBoxAt: the box whose top-left corner is a given tile, traced right along its
    top side and then down its right side. Boxes that touch another box on their
    top or right side are missed; that limitation is kept. */
module Locator {
  import opened Grids
  import opened Boxes

  /** The first column from `col` on, in row `row`, that is not '-', or the width
      of the map if every tile up to the edge is '-'. */
  function ScanRight(g: Grid, row: nat, col: nat): (stop: nat)
    requires g.Valid() && row < g.Height && col <= g.Width
    ensures col <= stop <= g.Width
    ensures forall c | col <= c < stop :: g.Tiles[row][c] == '-'
    ensures stop < g.Width ==> g.Tiles[row][stop] != '-'
    decreases g.Width - col
  {
    if col < g.Width && g.Tiles[row][col] == '-' then ScanRight(g, row, col + 1) else col
  }

  /** The first row from `row` on, in column `col`, that is not '|', or the height
      of the map if every tile down to the edge is '|'. */
  function ScanDown(g: Grid, row: nat, col: nat): (stop: nat)
    requires g.Valid() && row <= g.Height && col < g.Width
    ensures row <= stop <= g.Height
    ensures forall r | row <= r < stop :: g.Tiles[r][col] == '|'
    ensures stop < g.Height ==> g.Tiles[stop][col] != '|'
    decreases g.Height - row
  {
    if row < g.Height && g.Tiles[row][col] == '|' then ScanDown(g, row + 1, col) else row
  }

  /** The box FindBoxAt finds at (top, left) on `g`: the all-zero box, or a box with
      exactly that top-left corner, a '+' at its top-right corner, lying on the map,
      accepted by ValidOn and with no children. */
  function FindBox(g: Grid, top: nat, left: nat): (b: Box)
    requires g.Valid() && top < g.Height && left < g.Width
    ensures b == EmptyBox || (b.Top == top && b.Left == left && b.Children == [] &&
                              left < b.Right < g.Width && top < b.Bottom < g.Height &&
                              g.Tiles[top][b.Right] == '+' && ValidOn(g, b))
    ensures BoxIsZeroSized(b) <==> b == EmptyBox
  {
    if g.Tiles[top][left] != '+' then EmptyBox
    else
      var col := ScanRight(g, top, left + 1);
      if col >= g.Width then EmptyBox
      else if g.Tiles[top][col] != '+' then EmptyBox
      else
        var row := ScanDown(g, top + 1, col);
        if row >= g.Height then EmptyBox
        else
          var b := BoxCreate(top, left, row, col);
          if !ValidOn(g, b) then EmptyBox else b
  }

  /** FindBoxAt: the two scans run as loops over the tiles of `Map`, each guarded by
      the edge of the map; the result is exactly FindBox on the current tiles. */
  method FindBoxAt(Map: array2<char>, Top: nat, Left: nat) returns (b: Box)
    requires Top < Map.Length0 && Left < Map.Length1
    ensures b == FindBox(View(Map), Top, Left)
  {
    ghost var g := View(Map);
    ViewTiles(Map);
    var Row, Col := Top, Left;
    if Map[Row, Col] != '+' { return EmptyBox; }
    Col := Col + 1;
    while Col < Map.Length1 && Map[Row, Col] == '-'
      invariant Left < Col <= Map.Length1
      invariant ScanRight(g, Top, Col) == ScanRight(g, Top, Left + 1)
      decreases Map.Length1 - Col
    {
      Col := Col + 1;
    }
    if Col >= Map.Length1 { return EmptyBox; }

    if Map[Row, Col] != '+' { return EmptyBox; }
    Row := Row + 1;
    while Row < Map.Length0 && Map[Row, Col] == '|'
      invariant Top < Row <= Map.Length0
      invariant ScanDown(g, Row, Col) == ScanDown(g, Top + 1, Col)
      decreases Map.Length0 - Row
    {
      Row := Row + 1;
    }
    if Row >= Map.Length0 { return EmptyBox; }

    var Found := BoxCreate(Top, Left, Row, Col);
    var valid := BoxIsValid(Map, Found);
    if !valid { return EmptyBox; }
    return Found;
  }

  /** The outline of `b` is drawn on `g` the way FindBoxAt traces it: a rectangle
      on the map with '+' at its top-left, top-right and bottom-right corners, '-'
      along its top and bottom sides and '|' along its left and right sides. */
  predicate Outlined(g: Grid, b: Box)
    requires g.Valid()
  {
    b.Top < b.Bottom < g.Height && b.Left < b.Right < g.Width &&
    g.Tiles[b.Top][b.Left] == '+' && g.Tiles[b.Top][b.Right] == '+' && g.Tiles[b.Bottom][b.Right] == '+' &&
    (forall c | b.Left < c < b.Right :: g.Tiles[b.Top][c] == '-' && g.Tiles[b.Bottom][c] == '-') &&
    (forall r | b.Top < r < b.Bottom :: g.Tiles[r][b.Left] == '|' && g.Tiles[r][b.Right] == '|')
  }

  /** Completeness: a rectangle whose outline is drawn is found exactly, from its
      top-left corner. */
  lemma FindBoxComplete(g: Grid, b: Box)
    requires g.Valid() && b.Children == [] && Outlined(g, b)
    ensures FindBox(g, b.Top, b.Left) == b
  {
  }

  /** A top side that runs as '-' up to the right edge of the map makes the scan step
      past the last column, and no box is found. */
  lemma FindBoxAtRightEdge(g: Grid, top: nat, left: nat)
    requires g.Valid() && top < g.Height && left < g.Width
    requires forall c | left < c < g.Width :: g.Tiles[top][c] == '-'
    ensures FindBox(g, top, left) == EmptyBox
  {
  }

  /** A right side that runs as '|' down to the bottom edge of the map makes the
      scan step past the last row, and no box is found. */
  lemma FindBoxAtBottomEdge(g: Grid, top: nat, left: nat, right: nat)
    requires g.Valid() && top < g.Height && left < right < g.Width
    requires g.Tiles[top][left] == '+' && g.Tiles[top][right] == '+'
    requires forall c | left < c < right :: g.Tiles[top][c] == '-'
    requires forall r | top < r < g.Height :: g.Tiles[r][right] == '|'
    ensures FindBox(g, top, left) == EmptyBox
  {
  }

  /** A box whose top side is part of the bottom side of a wider box above it is
      missed: the scan along its top side runs on past its own top-right corner. */
  lemma TouchingOnTopIsMissed()
    ensures FindBox(Grid(5, 5, ["+---+", "|   |", "+---+", "| |  ", "+-+  "]), 2, 0) == EmptyBox
  {
    var g := Grid(5, 5, ["+---+", "|   |", "+---+", "| |  ", "+-+  "]);
    assert ScanRight(g, 2, 1) == 4 by {
      assert ScanRight(g, 2, 4) == 4;
    }
    assert ScanDown(g, 3, 4) == 3;
  }

  /** A box whose right side is part of the left side of a taller box beside it is
      missed: its top-right corner reads '|', not '+'. */
  lemma TouchingOnTheRightIsMissed()
    ensures FindBox(Grid(5, 5, ["  +-+", "+-| |", "| | |", "+-| |", "  +-+"]), 1, 0) == EmptyBox
  {
    var g := Grid(5, 5, ["  +-+", "+-| |", "| | |", "+-| |", "  +-+"]);
    assert ScanRight(g, 1, 1) == 2;
  }
}
