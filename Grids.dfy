/** The map of characters (MapT) and the three operations that create, copy and
    overwrite it in place. A map is held as an `array2<char>`: its first index is
    the row (Height rows), its second the column (Width columns). `Grid` is the
    value of such a map at one moment, used by every specification. */
module Grids {

  /** The value of a map: Height rows of Width tiles each. */
  datatype Grid = Grid(Height: nat, Width: nat, Tiles: seq<seq<char>>) {
    /** The tiles form a Height by Width rectangle. */
    predicate Valid() {
      |Tiles| == Height && forall r | 0 <= r < Height :: |Tiles[r]| == Width
    }
  }

  /** The character a freshly created map holds in every tile. */
  const Blank: char := '\0'

  /** The first `n` tiles of row `r` of the array `m`. */
  function RowOf(m: array2<char>, r: nat, n: nat): (row: seq<char>)
    reads m
    requires r < m.Length0 && n <= m.Length1
    ensures |row| == n
    decreases n
  {
    if n == 0 then [] else RowOf(m, r, n - 1) + [m[r, n - 1]]
  }

  /** The first `n` rows of the array `m`. */
  function RowsOf(m: array2<char>, n: nat): (rows: seq<seq<char>>)
    reads m
    requires n <= m.Length0
    ensures |rows| == n && forall r | 0 <= r < n :: |rows[r]| == m.Length1
    decreases n
  {
    if n == 0 then [] else RowsOf(m, n - 1) + [RowOf(m, n - 1, m.Length1)]
  }

  /** The current value of the array `m`. */
  function View(m: array2<char>): (g: Grid)
    reads m
    ensures g.Valid() && g.Height == m.Length0 && g.Width == m.Length1
  {
    Grid(m.Length0, m.Length1, RowsOf(m, m.Length0))
  }

  lemma {:induction false} RowOfTiles(m: array2<char>, r: nat, n: nat)
    requires r < m.Length0 && n <= m.Length1
    ensures forall c | 0 <= c < n :: RowOf(m, r, n)[c] == m[r, c]
    decreases n
  {
    if n > 0 {
      RowOfTiles(m, r, n - 1);
    }
  }

  lemma {:induction false} RowsOfRows(m: array2<char>, n: nat)
    requires n <= m.Length0
    ensures forall r | 0 <= r < n :: RowsOf(m, n)[r] == RowOf(m, r, m.Length1)
    decreases n
  {
    if n > 0 {
      RowsOfRows(m, n - 1);
    }
  }

  /** Each tile of the view is the character the array holds there. */
  lemma ViewTiles(m: array2<char>)
    ensures forall r, c | 0 <= r < m.Length0 && 0 <= c < m.Length1 :: View(m).Tiles[r][c] == m[r, c]
  {
    RowsOfRows(m, m.Length0);
    forall r | 0 <= r < m.Length0 {
      RowOfTiles(m, r, m.Length1);
    }
  }

  /** Two grids of the same shape with the same tiles are the same grid. */
  lemma SameTiles(g: Grid, h: Grid)
    requires g.Valid() && h.Valid() && g.Height == h.Height && g.Width == h.Width
    requires forall r, c | 0 <= r < g.Height && 0 <= c < g.Width :: g.Tiles[r][c] == h.Tiles[r][c]
    ensures g == h
  {
    forall r | 0 <= r < g.Height
      ensures g.Tiles[r] == h.Tiles[r]
    {
    }
  }

  /** A Height by Width grid of blank tiles. */
  function BlankGrid(height: nat, width: nat): (g: Grid)
    ensures g.Valid() && g.Height == height && g.Width == width
    ensures forall r, c | 0 <= r < height && 0 <= c < width :: g.Tiles[r][c] == Blank
  {
    Grid(height, width, seq(height, _ => seq(width, _ => Blank)))
  }

  /** The cell (r, c) lies in the closed rectangle [top..bottom] x [left..right]. */
  predicate InRectangle(top: int, left: int, bottom: int, right: int, r: int, c: int) {
    top <= r <= bottom && left <= c <= right
  }

  /** The first `n` tiles of row `r` of `g` with the tiles of the closed rectangle
      [top..bottom] x [left..right] set to `ch`. */
  function ReplacedRow(g: Grid, ch: char, top: nat, left: nat, bottom: nat, right: nat, r: nat, n: nat): (row: seq<char>)
    requires g.Valid() && r < g.Height && n <= g.Width
    ensures |row| == n
    decreases n
  {
    if n == 0 then []
    else
      var tile := if InRectangle(top, left, bottom, right, r, n - 1) then ch else g.Tiles[r][n - 1];
      ReplacedRow(g, ch, top, left, bottom, right, r, n - 1) + [tile]
  }

  /** The first `n` rows of `g` with the rectangle set to `ch`. */
  function ReplacedRows(g: Grid, ch: char, top: nat, left: nat, bottom: nat, right: nat, n: nat): (rows: seq<seq<char>>)
    requires g.Valid() && n <= g.Height
    ensures |rows| == n && forall r | 0 <= r < n :: |rows[r]| == g.Width
    decreases n
  {
    if n == 0 then []
    else ReplacedRows(g, ch, top, left, bottom, right, n - 1) + [ReplacedRow(g, ch, top, left, bottom, right, n - 1, g.Width)]
  }

  /** `g` with every tile of the closed rectangle [top..bottom] x [left..right]
      set to `ch`. */
  function Replace(g: Grid, ch: char, top: nat, left: nat, bottom: nat, right: nat): (h: Grid)
    requires g.Valid()
    ensures h.Valid() && h.Height == g.Height && h.Width == g.Width
  {
    Grid(g.Height, g.Width, ReplacedRows(g, ch, top, left, bottom, right, g.Height))
  }

  lemma {:induction false} ReplacedRowTiles(g: Grid, ch: char, top: nat, left: nat, bottom: nat, right: nat, r: nat, n: nat)
    requires g.Valid() && r < g.Height && n <= g.Width
    ensures forall c | 0 <= c < n ::
      ReplacedRow(g, ch, top, left, bottom, right, r, n)[c] ==
        if InRectangle(top, left, bottom, right, r, c) then ch else g.Tiles[r][c]
    decreases n
  {
    if n > 0 {
      ReplacedRowTiles(g, ch, top, left, bottom, right, r, n - 1);
    }
  }

  lemma {:induction false} ReplacedRowsRows(g: Grid, ch: char, top: nat, left: nat, bottom: nat, right: nat, n: nat)
    requires g.Valid() && n <= g.Height
    ensures forall r | 0 <= r < n ::
      ReplacedRows(g, ch, top, left, bottom, right, n)[r] == ReplacedRow(g, ch, top, left, bottom, right, r, g.Width)
    decreases n
  {
    if n > 0 {
      ReplacedRowsRows(g, ch, top, left, bottom, right, n - 1);
    }
  }

  /** Replace sets exactly the tiles of the rectangle to `ch` and keeps every other. */
  lemma ReplaceTiles(g: Grid, ch: char, top: nat, left: nat, bottom: nat, right: nat)
    requires g.Valid()
    ensures forall r, c | 0 <= r < g.Height && 0 <= c < g.Width ::
      Replace(g, ch, top, left, bottom, right).Tiles[r][c] ==
        if InRectangle(top, left, bottom, right, r, c) then ch else g.Tiles[r][c]
  {
    ReplacedRowsRows(g, ch, top, left, bottom, right, g.Height);
    forall r | 0 <= r < g.Height {
      ReplacedRowTiles(g, ch, top, left, bottom, right, r, g.Width);
    }
  }

  /** Filling a rectangle a second time with the same character changes nothing. */
  lemma ReplaceIdempotent(g: Grid, ch: char, top: nat, left: nat, bottom: nat, right: nat)
    requires g.Valid()
    ensures Replace(Replace(g, ch, top, left, bottom, right), ch, top, left, bottom, right)
         == Replace(g, ch, top, left, bottom, right)
  {
    var once := Replace(g, ch, top, left, bottom, right);
    ReplaceTiles(g, ch, top, left, bottom, right);
    ReplaceTiles(once, ch, top, left, bottom, right);
    SameTiles(Replace(once, ch, top, left, bottom, right), once);
  }

  /** CreateMap: a new Height by Width map, every tile blank. */
  method CreateMap(Height: nat, Width: nat) returns (m: array2<char>)
    ensures fresh(m)
    ensures View(m) == BlankGrid(Height, Width)
  {
    m := new char[Height, Width]((_, _) => Blank);
    ViewTiles(m);
    SameTiles(View(m), BlankGrid(Height, Width));
  }

  /** CopyMap: a new map, not aliased with the source, with the same shape and tiles. */
  method CopyMap(Source: array2<char>) returns (m: array2<char>)
    ensures fresh(m)
    ensures m.Length0 == Source.Length0 && m.Length1 == Source.Length1
    ensures forall r, c | 0 <= r < m.Length0 && 0 <= c < m.Length1 :: m[r, c] == Source[r, c]
    ensures View(m) == View(Source)
  {
    m := CreateMap(Source.Length0, Source.Length1);
    var Row := 0;
    while Row < m.Length0
      invariant 0 <= Row <= m.Length0
      invariant forall r, c | 0 <= r < Row && 0 <= c < m.Length1 :: m[r, c] == Source[r, c]
    {
      var Col := 0;
      while Col < m.Length1
        invariant 0 <= Col <= m.Length1
        invariant forall r, c | 0 <= r < Row && 0 <= c < m.Length1 :: m[r, c] == Source[r, c]
        invariant forall c | 0 <= c < Col :: m[Row, c] == Source[Row, c]
      {
        m[Row, Col] := Source[Row, Col];
        Col := Col + 1;
      }
      Row := Row + 1;
    }
    ViewTiles(m);
    ViewTiles(Source);
    SameTiles(View(m), View(Source));
  }

  /** MapReplaceRectangle: sets every tile of the closed rectangle
      [Top..Bottom] x [Left..Right] to Char and leaves every other tile alone.
      Only a non-empty rectangle is written, so only it has to fit the map. */
  method MapReplaceRectangle(Map: array2<char>, Char: char, Top: nat, Left: nat, Bottom: nat, Right: nat)
    requires Top <= Bottom && Left <= Right ==> Bottom < Map.Length0 && Right < Map.Length1
    modifies Map
    ensures View(Map) == Replace(old(View(Map)), Char, Top, Left, Bottom, Right)
  {
    ghost var before := View(Map);
    ViewTiles(Map);
    var Row := Top;
    while Row <= Bottom
      invariant Top <= Row <= if Top <= Bottom then Bottom + 1 else Top
      invariant forall r, c | 0 <= r < Map.Length0 && 0 <= c < Map.Length1 ::
        Map[r, c] == if Top <= r < Row && Left <= c <= Right then Char else before.Tiles[r][c]
    {
      var Col := Left;
      while Col <= Right
        invariant Left <= Col <= if Left <= Right then Right + 1 else Left
        invariant forall r, c | 0 <= r < Map.Length0 && 0 <= c < Map.Length1 ::
          Map[r, c] == if (Top <= r < Row && Left <= c <= Right) || (r == Row && Left <= c < Col)
                       then Char else before.Tiles[r][c]
      {
        Map[Row, Col] := Char;
        Col := Col + 1;
      }
      Row := Row + 1;
    }
    ViewTiles(Map);
    ReplaceTiles(before, Char, Top, Left, Bottom, Right);
    SameTiles(View(Map), Replace(before, Char, Top, Left, Bottom, Right));
  }
}
