/** BoxMarkChildren: draws a box tree onto a map. Each box gets '+' at its four
    corners, '|' down its left and right sides and '-' along its top and bottom
    sides, its open interior is filled with a character chosen by its depth, and
    then its children are drawn in order one level deeper. */
module Renderer {
  import opened Grids
  import opened Boxes
  import opened Locator

  /** The fill character of a box at the given depth: '#', '=', '-', '.' for the
      first four levels and a space below them. */
  function DepthChar(Depth: nat): (c: char)
    ensures Depth < 4 ==> c == "#=-."[Depth]
    ensures Depth >= 4 ==> c == ' '
    ensures c != Blank
  {
    match Depth
    case 0 => '#'
    case 1 => '='
    case 2 => '-'
    case 3 => '.'
    case _ => ' '
  }

  /** The tile (r, c) is one of the four corners of `b`. */
  predicate OnCorner(b: Box, r: int, c: int) {
    (r == b.Top || r == b.Bottom) && (c == b.Left || c == b.Right)
  }

  /** The tile (r, c) lies on the left or right side of `b`, between its corners. */
  predicate OnVertical(b: Box, r: int, c: int) {
    b.Top < r < b.Bottom && (c == b.Left || c == b.Right)
  }

  /** The tile (r, c) lies on the top or bottom side of `b`, between its corners. */
  predicate OnHorizontal(b: Box, r: int, c: int) {
    b.Left < c < b.Right && (r == b.Top || r == b.Bottom)
  }

  predicate OnBorder(b: Box, r: int, c: int) {
    OnCorner(b, r, c) || OnVertical(b, r, c) || OnHorizontal(b, r, c)
  }

  /** The character drawn on a border tile of a box. */
  function BorderChar(b: Box, r: int, c: int): char {
    if OnCorner(b, r, c) then '+' else if OnVertical(b, r, c) then '|' else '-'
  }

  /** The tile (r, c) of `g` once the border of `b` is drawn and its interior is
      filled with `fill`. */
  function Painted(g: Grid, b: Box, fill: char, r: nat, c: nat): char
    requires g.Valid() && r < g.Height && c < g.Width
  {
    if OnBorder(b, r, c) then BorderChar(b, r, c)
    else if InInterior(b, r, c) then fill
    else g.Tiles[r][c]
  }

  function PaintedRow(g: Grid, b: Box, fill: char, r: nat, n: nat): (row: seq<char>)
    requires g.Valid() && r < g.Height && n <= g.Width
    ensures |row| == n
    decreases n
  {
    if n == 0 then [] else PaintedRow(g, b, fill, r, n - 1) + [Painted(g, b, fill, r, n - 1)]
  }

  function PaintedRows(g: Grid, b: Box, fill: char, n: nat): (rows: seq<seq<char>>)
    requires g.Valid() && n <= g.Height
    ensures |rows| == n && forall r | 0 <= r < n :: |rows[r]| == g.Width
    decreases n
  {
    if n == 0 then [] else PaintedRows(g, b, fill, n - 1) + [PaintedRow(g, b, fill, n - 1, g.Width)]
  }

  /** `g` with the border of `b` drawn and its interior filled with `fill`. */
  function Paint(g: Grid, b: Box, fill: char): (h: Grid)
    requires g.Valid()
    ensures h.Valid() && h.Height == g.Height && h.Width == g.Width
  {
    Grid(g.Height, g.Width, PaintedRows(g, b, fill, g.Height))
  }

  lemma {:induction false} PaintedRowTiles(g: Grid, b: Box, fill: char, r: nat, n: nat)
    requires g.Valid() && r < g.Height && n <= g.Width
    ensures forall c | 0 <= c < n :: PaintedRow(g, b, fill, r, n)[c] == Painted(g, b, fill, r, c)
    decreases n
  {
    if n > 0 {
      PaintedRowTiles(g, b, fill, r, n - 1);
    }
  }

  lemma {:induction false} PaintedRowsRows(g: Grid, b: Box, fill: char, n: nat)
    requires g.Valid() && n <= g.Height
    ensures forall r | 0 <= r < n :: PaintedRows(g, b, fill, n)[r] == PaintedRow(g, b, fill, r, g.Width)
    decreases n
  {
    if n > 0 {
      PaintedRowsRows(g, b, fill, n - 1);
    }
  }

  /** Each tile of Paint is the painted tile. */
  lemma PaintTiles(g: Grid, b: Box, fill: char)
    requires g.Valid()
    ensures forall r, c | 0 <= r < g.Height && 0 <= c < g.Width :: Paint(g, b, fill).Tiles[r][c] == Painted(g, b, fill, r, c)
  {
    PaintedRowsRows(g, b, fill, g.Height);
    forall r | 0 <= r < g.Height {
      PaintedRowTiles(g, b, fill, r, g.Width);
    }
  }

  /** The corners of every box of the tree `t` lie on a Height by Width map. */
  predicate Fits(t: Box, Height: nat, Width: nat)
    decreases t
  {
    t.Top < Height && t.Bottom < Height && t.Left < Width && t.Right < Width &&
    forall k | 0 <= k < |t.Children| :: Fits(t.Children[k], Height, Width)
  }

  /** `g` with the tree `t` drawn at depth `d`: the box painted, then its children
      drawn over it in order at depth d + 1. */
  function Render(g: Grid, t: Box, d: nat): (h: Grid)
    requires g.Valid() && Fits(t, g.Height, g.Width)
    ensures h.Valid() && h.Height == g.Height && h.Width == g.Width
    decreases t, |t.Children| + 1
  {
    Rendered(Paint(g, t, DepthChar(d)), t, |t.Children|, d + 1)
  }

  /** `g` with the first `i` children of `t` drawn over it in order at depth `d`. */
  function Rendered(g: Grid, t: Box, i: nat, d: nat): (h: Grid)
    requires g.Valid() && Fits(t, g.Height, g.Width) && i <= |t.Children|
    ensures h.Valid() && h.Height == g.Height && h.Width == g.Width
    decreases t, i
  {
    if i == 0 then g else Render(Rendered(g, t, i - 1, d), t.Children[i - 1], d)
  }

  /** BoxMarkChildren: draws the tree `Node` onto `Map` at depth `Depth`, exactly as
      Render describes. */
  method BoxMarkChildren(Map: array2<char>, Node: Box, Depth: nat)
    requires Fits(Node, Map.Length0, Map.Length1)
    modifies Map
    ensures View(Map) == Render(old(View(Map)), Node, Depth)
    decreases Node
  {
    ghost var before := View(Map);
    var Fill := DepthChar(Depth);
    PaintBox(Map, Node, Fill);
    var ChildIdx := 0;
    while ChildIdx < |Node.Children|
      invariant ChildIdx <= |Node.Children|
      invariant View(Map) == Rendered(Paint(before, Node, Fill), Node, ChildIdx, Depth + 1)
    {
      BoxMarkChildren(Map, Node.Children[ChildIdx], Depth + 1);
      ChildIdx := ChildIdx + 1;
    }
  }

  /** The drawing half of BoxMarkChildren: the four corners, the two vertical
      sides, the two horizontal sides and the interior, written in that order. */
  method PaintBox(Map: array2<char>, Node: Box, Fill: char)
    requires Node.Top < Map.Length0 && Node.Bottom < Map.Length0 && Node.Left < Map.Length1 && Node.Right < Map.Length1
    modifies Map
    ensures View(Map) == Paint(old(View(Map)), Node, Fill)
  {
    ghost var before := View(Map);
    ViewTiles(Map);
    Map[Node.Top, Node.Left] := '+';
    Map[Node.Bottom, Node.Left] := '+';
    Map[Node.Top, Node.Right] := '+';
    Map[Node.Bottom, Node.Right] := '+';
    var Row := Node.Top + 1;
    while Row < Node.Bottom
      invariant Node.Top < Row <= if Node.Top < Node.Bottom then Node.Bottom else Node.Top + 1
      invariant forall r, c | 0 <= r < Map.Length0 && 0 <= c < Map.Length1 ::
        Map[r, c] == if OnCorner(Node, r, c) then '+'
                     else if OnVertical(Node, r, c) && r < Row then '|'
                     else before.Tiles[r][c]
    {
      Map[Row, Node.Left] := '|';
      Map[Row, Node.Right] := '|';
      Row := Row + 1;
    }
    var Col := Node.Left + 1;
    while Col < Node.Right
      invariant Node.Left < Col <= if Node.Left < Node.Right then Node.Right else Node.Left + 1
      invariant forall r, c | 0 <= r < Map.Length0 && 0 <= c < Map.Length1 ::
        Map[r, c] == if OnCorner(Node, r, c) then '+'
                     else if OnVertical(Node, r, c) then '|'
                     else if OnHorizontal(Node, r, c) && c < Col then '-'
                     else before.Tiles[r][c]
    {
      Map[Node.Top, Col] := '-';
      Map[Node.Bottom, Col] := '-';
      Col := Col + 1;
    }
    FillInterior(Map, Node, Fill, before);
    ViewTiles(Map);
    PaintTiles(before, Node, Fill);
    SameTiles(View(Map), Paint(before, Node, Fill));
  }

  /** The last loop of the drawing: every interior tile, row by row, gets `Fill`. */
  method FillInterior(Map: array2<char>, Node: Box, Fill: char, ghost before: Grid)
    requires before.Valid() && before.Height == Map.Length0 && before.Width == Map.Length1
    requires Node.Bottom < Map.Length0 && Node.Right < Map.Length1
    requires forall r, c | 0 <= r < Map.Length0 && 0 <= c < Map.Length1 ::
      Map[r, c] == if OnBorder(Node, r, c) then BorderChar(Node, r, c) else before.Tiles[r][c]
    modifies Map
    ensures forall r, c | 0 <= r < Map.Length0 && 0 <= c < Map.Length1 :: Map[r, c] == Painted(before, Node, Fill, r, c)
  {
    var Row := Node.Top + 1;
    while Row < Node.Bottom
      invariant Node.Top < Row <= if Node.Top < Node.Bottom then Node.Bottom else Node.Top + 1
      invariant forall r, c | 0 <= r < Map.Length0 && 0 <= c < Map.Length1 ::
        Map[r, c] == if OnBorder(Node, r, c) then BorderChar(Node, r, c)
                     else if InInterior(Node, r, c) && r < Row then Fill
                     else before.Tiles[r][c]
    {
      var Col := Node.Left + 1;
      while Col < Node.Right
        invariant Node.Left < Col <= if Node.Left < Node.Right then Node.Right else Node.Left + 1
        invariant forall r, c | 0 <= r < Map.Length0 && 0 <= c < Map.Length1 ::
          Map[r, c] == if OnBorder(Node, r, c) then BorderChar(Node, r, c)
                       else if InInterior(Node, r, c) && (r < Row || (r == Row && c < Col)) then Fill
                       else before.Tiles[r][c]
      {
        Map[Row, Col] := Fill;
        Col := Col + 1;
      }
      Row := Row + 1;
    }
  }

  /** The geometry of a tree as the search builds it: every box has a proper
      height and width, every child lies strictly inside its parent and the
      closed rectangles of two children of one box do not overlap. */
  predicate WellFormed(t: Box)
    decreases t
  {
    t.Top < t.Bottom && t.Left < t.Right &&
    (forall k | 0 <= k < |t.Children| :: StrictlyInside(t.Children[k], t) && WellFormed(t.Children[k])) &&
    forall k, l | 0 <= k < l < |t.Children| :: Disjoint(t.Children[k], t.Children[l])
  }

  /** Every box of the tree `t` has its corners in order and lies strictly inside
      its parent. */
  predicate Contained(t: Box)
    decreases t
  {
    t.Top <= t.Bottom && t.Left <= t.Right &&
    forall k | 0 <= k < |t.Children| :: StrictlyInside(t.Children[k], t) && Contained(t.Children[k])
  }

  /** A well-formed tree is contained. */
  lemma {:induction false} WellFormedContained(t: Box)
    requires WellFormed(t)
    ensures Contained(t)
    decreases t
  {
    forall k | 0 <= k < |t.Children|
      ensures Contained(t.Children[k])
    {
      WellFormedContained(t.Children[k]);
    }
  }

  /** No box among kids[i..j) covers the tile (r, c). */
  predicate Uncovered(kids: seq<Box>, i: int, j: int, r: int, c: int)
    requires 0 <= i <= j <= |kids|
  {
    forall k | i <= k < j :: !Covers(kids[k], r, c)
  }

  /** A well-formed tree whose outer box fits the map fits it entirely. */
  lemma {:induction false} WellFormedFits(t: Box, Height: nat, Width: nat)
    requires WellFormed(t) && t.Bottom < Height && t.Right < Width
    ensures Fits(t, Height, Width)
    decreases t
  {
    forall k | 0 <= k < |t.Children|
      ensures Fits(t.Children[k], Height, Width)
    {
      WellFormedFits(t.Children[k], Height, Width);
    }
  }

  /** Drawing a contained tree changes no tile outside the closed rectangle of its
      outer box. */
  lemma {:induction false} RenderOutside(g: Grid, t: Box, d: nat)
    requires g.Valid() && Fits(t, g.Height, g.Width) && Contained(t)
    ensures forall r, c | 0 <= r < g.Height && 0 <= c < g.Width && !Covers(t, r, c) ::
      Render(g, t, d).Tiles[r][c] == g.Tiles[r][c]
    decreases t, |t.Children| + 1
  {
    PaintTiles(g, t, DepthChar(d));
    RenderedBetween(Paint(g, t, DepthChar(d)), t, 0, |t.Children|, d + 1);
  }

  /** Drawing the children i..j-1 of a contained tree changes no tile that none
      of them covers. */
  lemma {:induction false} RenderedBetween(g: Grid, t: Box, i: nat, j: nat, d: nat)
    requires g.Valid() && Fits(t, g.Height, g.Width) && Contained(t) && i <= j <= |t.Children|
    ensures forall r, c | 0 <= r < g.Height && 0 <= c < g.Width && Uncovered(t.Children, i, j, r, c) ::
      Rendered(g, t, j, d).Tiles[r][c] == Rendered(g, t, i, d).Tiles[r][c]
    decreases t, j
  {
    if i < j {
      RenderedBetween(g, t, i, j - 1, d);
      RenderOutside(Rendered(g, t, j - 1, d), t.Children[j - 1], d);
    }
  }

  /** The tree `t` is drawn on `m` at depth `d`: every border tile of every box
      holds its border character, and every interior tile of a box outside all
      of its children holds the fill character of the box's depth. */
  predicate Drawn(m: Grid, t: Box, d: nat)
    requires m.Valid()
    decreases t
  {
    (forall r, c | 0 <= r < m.Height && 0 <= c < m.Width && OnBorder(t, r, c) ::
       m.Tiles[r][c] == BorderChar(t, r, c)) &&
    (forall r, c | 0 <= r < m.Height && 0 <= c < m.Width && InInterior(t, r, c) &&
                   Uncovered(t.Children, 0, |t.Children|, r, c) ::
       m.Tiles[r][c] == DepthChar(d)) &&
    forall k | 0 <= k < |t.Children| :: Drawn(m, t.Children[k], d + 1)
  }

  /** Whether a well-formed tree is drawn depends only on the tiles of the closed
      rectangle of its outer box. */
  lemma {:induction false} DrawnFrame(m: Grid, n: Grid, t: Box, d: nat)
    requires m.Valid() && n.Valid() && m.Height == n.Height && m.Width == n.Width && WellFormed(t)
    requires forall r, c | 0 <= r < m.Height && 0 <= c < m.Width && Covers(t, r, c) :: m.Tiles[r][c] == n.Tiles[r][c]
    requires Drawn(m, t, d)
    ensures Drawn(n, t, d)
    decreases t
  {
    forall k | 0 <= k < |t.Children|
      ensures Drawn(n, t.Children[k], d + 1)
    {
      DrawnFrame(m, n, t.Children[k], d + 1);
    }
  }

  /** The tiles of its own box that Render leaves with their painted character: the
      border and the interior tiles outside every child. */
  lemma RenderKeepsOwnTiles(g: Grid, t: Box, d: nat)
    requires g.Valid() && Fits(t, g.Height, g.Width) && WellFormed(t)
    ensures forall r, c | 0 <= r < g.Height && 0 <= c < g.Width && OnBorder(t, r, c) ::
      Render(g, t, d).Tiles[r][c] == BorderChar(t, r, c)
    ensures forall r, c | 0 <= r < g.Height && 0 <= c < g.Width && InInterior(t, r, c) &&
                          Uncovered(t.Children, 0, |t.Children|, r, c) ::
      Render(g, t, d).Tiles[r][c] == DepthChar(d)
  {
    var painted := Paint(g, t, DepthChar(d));
    PaintTiles(g, t, DepthChar(d));
    WellFormedContained(t);
    RenderedBetween(painted, t, 0, |t.Children|, d + 1);
    assert forall k | 0 <= k < |t.Children| :: StrictlyInside(t.Children[k], t);
  }

  /** The child k of a well-formed tree is drawn once its later siblings are drawn,
      since they do not overlap it. */
  lemma RenderKeepsChild(g: Grid, t: Box, k: nat, d: nat)
    requires g.Valid() && Fits(t, g.Height, g.Width) && WellFormed(t) && k < |t.Children|
    requires Drawn(Rendered(g, t, k + 1, d), t.Children[k], d)
    ensures Drawn(Rendered(g, t, |t.Children|, d), t.Children[k], d)
  {
    var kid := t.Children[k];
    WellFormedContained(t);
    RenderedBetween(g, t, k + 1, |t.Children|, d);
    forall r, c | 0 <= r < g.Height && 0 <= c < g.Width && Covers(kid, r, c)
      ensures Rendered(g, t, k + 1, d).Tiles[r][c] == Rendered(g, t, |t.Children|, d).Tiles[r][c]
    {
      forall l | k + 1 <= l < |t.Children|
        ensures !Covers(t.Children[l], r, c)
      {
        assert Disjoint(t.Children[k], t.Children[l]);
      }
    }
    DrawnFrame(Rendered(g, t, k + 1, d), Rendered(g, t, |t.Children|, d), kid, d);
  }

  /** BoxMarkChildren draws the whole of a well-formed tree: after Render every box
      of the tree shows its border and, where no child lies, its depth's fill. */
  lemma {:induction false} RenderDraws(g: Grid, t: Box, d: nat)
    requires g.Valid() && Fits(t, g.Height, g.Width) && WellFormed(t)
    ensures Drawn(Render(g, t, d), t, d)
    decreases t
  {
    var painted := Paint(g, t, DepthChar(d));
    RenderKeepsOwnTiles(g, t, d);
    forall k | 0 <= k < |t.Children|
      ensures Drawn(Render(g, t, d), t.Children[k], d + 1)
    {
      RenderDraws(Rendered(painted, t, k, d + 1), t.Children[k], d + 1);
      RenderKeepsChild(painted, t, k, d + 1);
    }
  }

  /** A box of a drawn tree is found again, exactly, by FindBoxAt at its top-left
      corner. */
  lemma DrawnIsFound(m: Grid, t: Box, d: nat)
    requires m.Valid() && Fits(t, m.Height, m.Width) && WellFormed(t) && Drawn(m, t, d)
    ensures FindBox(m, t.Top, t.Left) == Shape(t)
  {
    assert OnCorner(t, t.Top, t.Left) && OnCorner(t, t.Top, t.Right) && OnCorner(t, t.Bottom, t.Right);
    assert forall c | t.Left < c < t.Right :: OnHorizontal(t, t.Top, c) && OnHorizontal(t, t.Bottom, c);
    assert forall r | t.Top < r < t.Bottom :: OnVertical(t, r, t.Left) && OnVertical(t, r, t.Right);
    FindBoxComplete(m, Shape(t));
  }

  /** Every box of the tree `t` is found again, exactly and without children, by
      FindBoxAt at its own top-left corner on `m`. */
  predicate AllFound(m: Grid, t: Box)
    requires m.Valid()
    decreases t
  {
    t.Top < m.Height && t.Left < m.Width && FindBox(m, t.Top, t.Left) == Shape(t) &&
    forall k | 0 <= k < |t.Children| :: AllFound(m, t.Children[k])
  }

  /** On a map where a well-formed tree is drawn, every box of the tree is found. */
  lemma {:induction false} DrawnAllFound(m: Grid, t: Box, d: nat)
    requires m.Valid() && Fits(t, m.Height, m.Width) && WellFormed(t) && Drawn(m, t, d)
    ensures AllFound(m, t)
    decreases t
  {
    DrawnIsFound(m, t, d);
    forall k | 0 <= k < |t.Children|
      ensures AllFound(m, t.Children[k])
    {
      DrawnAllFound(m, t.Children[k], d + 1);
    }
  }

  /** No tile in the closed rectangle of a drawn tree is left blank: each one is a
      border or a fill character of some box of the tree. */
  lemma {:induction false} DrawnNoBlank(m: Grid, t: Box, d: nat, r: nat, c: nat)
    requires m.Valid() && r < m.Height && c < m.Width && Drawn(m, t, d) && Covers(t, r, c)
    ensures m.Tiles[r][c] != Blank
    decreases t
  {
    if !OnBorder(t, r, c) {
      assert InInterior(t, r, c);
      if !Uncovered(t.Children, 0, |t.Children|, r, c) {
        var k :| 0 <= k < |t.Children| && Covers(t.Children[k], r, c);
        DrawnNoBlank(m, t.Children[k], d + 1, r, c);
      }
    }
  }
}
