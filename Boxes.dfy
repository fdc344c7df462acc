/** Boxes (BoxT): a rectangle given by its top-left and bottom-right corners plus an
    ordered list of child boxes; the checks that a box is zero-sized or drawn
    correctly on a map; and the growable child array that BoxAddChild appends to. */
module Boxes {
  import opened Grids

  /** The value of a BoxT: its two corners and its children, in the order they were
      added. The child count and the allocated capacity of the C structure belong to
      the mutable `BoxRef` below. */
  datatype Box = Box(Top: nat, Left: nat, Bottom: nat, Right: nat, Children: seq<Box>)

  /** The all-zero box that FindBoxAt returns when there is no box. */
  const EmptyBox: Box := Box(0, 0, 0, 0, [])

  /** BoxCreate: a box with the given corners and no children. */
  function BoxCreate(Top: nat, Left: nat, Bottom: nat, Right: nat): (b: Box)
    ensures b.Top == Top && b.Left == Left && b.Bottom == Bottom && b.Right == Right && b.Children == []
    ensures BoxIsZeroSized(b) <==> Top == Bottom || Left == Right
  {
    Box(Top, Left, Bottom, Right, [])
  }

  /** The corners of `b` without its children. */
  function Shape(b: Box): Box {
    BoxCreate(b.Top, b.Left, b.Bottom, b.Right)
  }

  /** BoxIsZeroSized: the box has no height or no width, so no tile lies in its
      open interior. */
  predicate BoxIsZeroSized(b: Box): (z: bool)
    ensures z ==> forall r, c :: !InInterior(b, r, c)
  {
    b.Top == b.Bottom || b.Left == b.Right
  }

  /** The tile (r, c) lies in the closed rectangle of `b`. */
  predicate Covers(b: Box, r: int, c: int) {
    InRectangle(b.Top, b.Left, b.Bottom, b.Right, r, c)
  }

  /** The tile (r, c) lies in the open interior of `b`, strictly between its sides. */
  predicate InInterior(b: Box, r: int, c: int) {
    b.Top < r < b.Bottom && b.Left < c < b.Right
  }

  /** The closed rectangle of `c` lies in the open interior of `p`. */
  predicate StrictlyInside(c: Box, p: Box) {
    p.Top < c.Top && c.Bottom < p.Bottom && p.Left < c.Left && c.Right < p.Right
  }

  /** The top-left corner of `b` comes before the tile (row, col) in row-major order. */
  predicate Before(b: Box, row: int, col: int) {
    b.Top < row || (b.Top == row && b.Left < col)
  }

  /** The closed rectangles of `a` and `b` share no tile. */
  predicate Disjoint(a: Box, b: Box) {
    a.Bottom < b.Top || b.Bottom < a.Top || a.Right < b.Left || b.Right < a.Left
  }

  /** The box is drawn on `g`: it is not zero-sized, its corners lie on the map,
      its top-left and bottom-right tiles are '+', the tiles strictly between them
      on its left and right sides are '|' and those on its top and bottom sides are
      '-'. The top-right and bottom-left corners and the interior are not looked at. */
  predicate ValidOn(g: Grid, b: Box)
    requires g.Valid()
  {
    !BoxIsZeroSized(b) &&
    b.Top < g.Height && b.Bottom < g.Height && b.Left < g.Width && b.Right < g.Width &&
    g.Tiles[b.Top][b.Left] == '+' && g.Tiles[b.Bottom][b.Right] == '+' &&
    (forall r | b.Top < r < b.Bottom :: g.Tiles[r][b.Left] == '|' && g.Tiles[r][b.Right] == '|') &&
    (forall c | b.Left < c < b.Right :: g.Tiles[b.Top][c] == '-' && g.Tiles[b.Bottom][c] == '-')
  }

  /** The tiles that ValidOn consults for the box `b`. */
  predicate Consulted(b: Box, r: int, c: int) {
    (r == b.Top && c == b.Left) || (r == b.Bottom && c == b.Right) ||
    (b.Top < r < b.Bottom && (c == b.Left || c == b.Right)) ||
    (b.Left < c < b.Right && (r == b.Top || r == b.Bottom))
  }

  /** Whether a box is valid depends on the consulted tiles alone: two maps that
      agree there (whatever their top-right corners, bottom-left corners and
      interiors hold) accept or reject the box together. */
  lemma ValidOnDependsOnConsulted(g: Grid, h: Grid, b: Box)
    requires g.Valid() && h.Valid() && g.Height == h.Height && g.Width == h.Width
    requires forall r, c | 0 <= r < g.Height && 0 <= c < g.Width && Consulted(b, r, c) ::
      g.Tiles[r][c] == h.Tiles[r][c]
    ensures ValidOn(g, b) == ValidOn(h, b)
  {
    if ValidOn(g, b) || ValidOn(h, b) {
      assert Consulted(b, b.Top, b.Left) && Consulted(b, b.Bottom, b.Right);
      assert forall r | b.Top < r < b.Bottom :: Consulted(b, r, b.Left) && Consulted(b, r, b.Right);
      assert forall c | b.Left < c < b.Right :: Consulted(b, b.Top, c) && Consulted(b, b.Bottom, c);
    }
  }

  /** A three by three square whose top-right and bottom-left corners are not '+'
      is still accepted. */
  lemma UncheckedCornersAccepted()
    ensures ValidOn(Grid(3, 3, ["+-x", "| |", "y-+"]), BoxCreate(0, 0, 2, 2))
  {
  }

  /** BoxIsValid: decides ValidOn on the current tiles of `Map`, returning early at
      the first tile that does not match. Only a box that is not zero-sized is
      read, so only such a box has to lie on the map. */
  method BoxIsValid(Map: array2<char>, Candidate: Box) returns (valid: bool)
    requires !BoxIsZeroSized(Candidate) ==>
      Candidate.Top < Map.Length0 && Candidate.Bottom < Map.Length0 &&
      Candidate.Left < Map.Length1 && Candidate.Right < Map.Length1
    ensures valid == ValidOn(View(Map), Candidate)
  {
    ViewTiles(Map);
    if BoxIsZeroSized(Candidate) { return false; }
    if Map[Candidate.Top, Candidate.Left] != '+' { return false; }
    if Map[Candidate.Bottom, Candidate.Right] != '+' { return false; }
    var Row := Candidate.Top + 1;
    while Row < Candidate.Bottom
      invariant Candidate.Top < Row
      invariant forall r | Candidate.Top < r < Row && r < Candidate.Bottom ::
        Map[r, Candidate.Left] == '|' && Map[r, Candidate.Right] == '|'
    {
      if Map[Row, Candidate.Left] != '|' { return false; }
      if Map[Row, Candidate.Right] != '|' { return false; }
      Row := Row + 1;
    }
    var Col := Candidate.Left + 1;
    while Col < Candidate.Right
      invariant Candidate.Left < Col
      invariant forall c | Candidate.Left < c < Col && c < Candidate.Right ::
        Map[Candidate.Top, c] == '-' && Map[Candidate.Bottom, c] == '-'
    {
      if Map[Candidate.Top, Col] != '-' { return false; }
      if Map[Candidate.Bottom, Col] != '-' { return false; }
      Col := Col + 1;
    }
    return true;
  }

  /** `n` is 1, 2, 4, 8, ... */
  predicate IsPowerOfTwo(n: nat)
    decreases n
  {
    n == 1 || (n >= 2 && n % 2 == 0 && IsPowerOfTwo(n / 2))
  }

  /** A BoxT reached through a pointer, whose child array BoxAddChild grows.
      Its corners never change once it is created. */
  class BoxRef {
    const Top: nat
    const Left: nat
    const Bottom: nat
    const Right: nat
    var ChildrenCount: nat
    var ChildrenAllocated: nat
    var Children: array<Box>

    /** The child array holds ChildrenAllocated slots, the first ChildrenCount of them
        in use; the capacity is 0 or a power of two less than twice the count, and
        every slot not in use holds the all-zero box. */
    ghost predicate Valid()
      reads this, Children
    {
      ChildrenAllocated == Children.Length &&
      ChildrenCount <= ChildrenAllocated &&
      (ChildrenAllocated == 0 || (IsPowerOfTwo(ChildrenAllocated) && ChildrenAllocated < 2 * ChildrenCount)) &&
      forall i | ChildrenCount <= i < ChildrenAllocated :: Children[i] == EmptyBox
    }

    /** The children added so far, in order. */
    function Kids(): seq<Box>
      reads this, Children
      requires Valid()
    {
      Children[..ChildrenCount]
    }

    /** The value of this box. */
    function Value(): Box
      reads this, Children
      requires Valid()
    {
      Box(Top, Left, Bottom, Right, Kids())
    }

    /** BoxCreate for a box that will be given children: no children and no
        capacity. */
    constructor (Top: nat, Left: nat, Bottom: nat, Right: nat)
      ensures Valid() && fresh(Children)
      ensures this.Top == Top && this.Left == Left && this.Bottom == Bottom && this.Right == Right
      ensures ChildrenCount == 0 && ChildrenAllocated == 0 && Kids() == []
    {
      this.Top, this.Left, this.Bottom, this.Right := Top, Left, Bottom, Right;
      ChildrenCount, ChildrenAllocated := 0, 0;
      Children := new Box[0];
    }

    /** BoxAddChild: appends a copy of `Child`. The first child gets a capacity of
        one; a child that does not fit doubles the capacity, the old children being
        copied over and the new slots zero-filled. */
    method AddChild(Child: Box)
      requires Valid()
      modifies this, Children
      ensures Valid()
      ensures Kids() == old(Kids()) + [Child]
      ensures ChildrenCount == old(ChildrenCount) + 1
      ensures ChildrenAllocated ==
        if old(ChildrenAllocated) == 0 then 1
        else if old(ChildrenCount) + 1 > old(ChildrenAllocated) then 2 * old(ChildrenAllocated)
        else old(ChildrenAllocated)
      ensures Children == old(Children) || fresh(Children)
    {
      ChildrenCount := ChildrenCount + 1;
      if ChildrenAllocated == 0 || Children.Length == 0 {
        ChildrenAllocated := 1;
        Children := new Box[1](_ => EmptyBox);
      } else if ChildrenCount > ChildrenAllocated {
        ChildrenAllocated := ChildrenAllocated * 2;
        var Grown := new Box[ChildrenAllocated](_ => EmptyBox);
        forall i | 0 <= i < Children.Length {
          Grown[i] := Children[i];
        }
        Children := Grown;
      }
      Children[ChildrenCount - 1] := Child;
    }
  }
}
