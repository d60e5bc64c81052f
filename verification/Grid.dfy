/** Character grids as values: cells, rectangles, overlays. */
module Grids {

  /** A grid of numRows rows of numCols characters each. */
  datatype Grid = Grid(numRows: nat, numCols: nat, rows: seq<seq<char>>) {
    predicate Valid() {
      |rows| == numRows && forall y :: 0 <= y < numRows ==> |rows[y]| == numCols
    }
  }

  predicate IsIn(g: Grid, y: int, x: int) {
    0 <= y < g.numRows && 0 <= x < g.numCols
  }

  function Cell(g: Grid, y: nat, x: nat): char
    requires g.Valid() && IsIn(g, y, x)
  {
    g.rows[y][x]
  }

  function Filled(numRows: nat, numCols: nat, c: char): (g: Grid)
    ensures g.Valid() && forall y, x :: IsIn(g, y, x) ==> Cell(g, y, x) == c
  {
    Grid(numRows, numCols, seq(numRows, _ => seq(numCols, _ => c)))
  }

  function Blank(numRows: nat, numCols: nat): (g: Grid)
    ensures g.Valid()
  {
    Filled(numRows, numCols, ' ')
  }

  function Put(g: Grid, y: nat, x: nat, c: char): (h: Grid)
    requires g.Valid() && IsIn(g, y, x)
    ensures h.Valid() && h.numRows == g.numRows && h.numCols == g.numCols
  {
    g.(rows := g.rows[y := g.rows[y][x := c]])
  }

  /** The rectangle from (y1, x1) to (y2, x2), corners included. */
  function SubGrid(g: Grid, y1: nat, x1: nat, y2: nat, x2: nat): (h: Grid)
    requires g.Valid() && y1 <= y2 < g.numRows && x1 <= x2 < g.numCols
    ensures h.Valid() && h.numRows == y2 - y1 + 1 && h.numCols == x2 - x1 + 1
    ensures forall y, x :: IsIn(h, y, x) ==> Cell(h, y, x) == Cell(g, y1 + y, x1 + x)
  {
    Grid(y2 - y1 + 1, x2 - x1 + 1, seq(y2 - y1 + 1, y requires 0 <= y < y2 - y1 + 1 => g.rows[y1 + y][x1..x2 + 1]))
  }

  /** The cell of an overlay: the upper grid's where it covers the lower one and is not transparent. */
  function OverlayCell(dest: Grid, source: Grid, y: nat, x: nat, transparent: char -> bool, i: nat, j: nat): char
    requires dest.Valid() && source.Valid() && IsIn(dest, i, j)
  {
    if y <= i && x <= j && IsIn(source, i - y, j - x) && !transparent(Cell(source, i - y, j - x))
    then Cell(source, i - y, j - x)
    else Cell(dest, i, j)
  }

  /** `source` laid over `dest` at (y, x), cut off at its edges. */
  function Overlay(dest: Grid, source: Grid, y: nat, x: nat, transparent: char -> bool): (h: Grid)
    requires dest.Valid() && source.Valid()
    ensures h.Valid() && h.numRows == dest.numRows && h.numCols == dest.numCols
    ensures forall i, j :: IsIn(h, i, j) ==> Cell(h, i, j) == OverlayCell(dest, source, y, x, transparent, i, j)
  {
    dest.(rows := seq(dest.numRows, i requires 0 <= i < dest.numRows =>
            seq(dest.numCols, j requires 0 <= j < dest.numCols => OverlayCell(dest, source, y, x, transparent, i, j))))
  }

  const OPAQUE: char -> bool := (c: char) => false

  /** The upper grid does not fit. */
  predicate Truncated(dest: Grid, source: Grid, y: nat, x: nat) {
    y + source.numRows > dest.numRows || x + source.numCols > dest.numCols
  }

  /** Two grids with the same shape and cells are the same. */
  lemma SameCells(a: Grid, b: Grid)
    requires a.Valid() && b.Valid() && a.numRows == b.numRows && a.numCols == b.numCols
    requires forall y, x :: IsIn(a, y, x) ==> Cell(a, y, x) == Cell(b, y, x)
    ensures a == b
  {
    forall y | 0 <= y < a.numRows
      ensures a.rows[y] == b.rows[y]
    {
      forall x | 0 <= x < a.numCols
        ensures a.rows[y][x] == b.rows[y][x]
      {
        assert IsIn(a, y, x) && Cell(a, y, x) == Cell(b, y, x);
      }
    }
  }

  // ---------------------------------------------------------------------------
  // Bounding boxes
  // ---------------------------------------------------------------------------

  datatype Box = Box(left: nat, top: nat, right: nat, bottom: nat)

  /** Cell (y, x) holds something else than the character to ignore. */
  predicate Inked(g: Grid, ignore: char, y: int, x: int)
    requires g.Valid()
  {
    IsIn(g, y, x) && Cell(g, y, x) != ignore
  }

  ghost predicate IsBlank(g: Grid, ignore: char)
    requires g.Valid()
  {
    forall y, x :: IsIn(g, y, x) ==> !Inked(g, ignore, y, x)
  }

  ghost predicate RowInked(g: Grid, ignore: char, y: int)
    requires g.Valid()
  {
    exists x :: Inked(g, ignore, y, x)
  }

  ghost predicate ColInked(g: Grid, ignore: char, x: int)
    requires g.Valid()
  {
    exists y :: Inked(g, ignore, y, x)
  }

  /** The smallest box around everything that is not ignored; the corner (0, 0) of a blank grid. */
  ghost predicate IsBoundingBox(g: Grid, ignore: char, b: Box)
    requires g.Valid()
  {
    if IsBlank(g, ignore) then b == Box(0, 0, 0, 0)
    else
      && (forall y, x :: Inked(g, ignore, y, x) ==> b.top <= y <= b.bottom && b.left <= x <= b.right)
      && RowInked(g, ignore, b.top) && RowInked(g, ignore, b.bottom)
      && ColInked(g, ignore, b.left) && ColInked(g, ignore, b.right)
  }

  /** There is only one bounding box. */
  lemma BoundingBoxUnique(g: Grid, ignore: char, a: Box, b: Box)
    requires g.Valid() && IsBoundingBox(g, ignore, a) && IsBoundingBox(g, ignore, b)
    ensures a == b
  {}

  /** What a trim keeps: the bounding box on the chosen sides, everything on the others. */
  function Kept(g: Grid, b: Box, right: bool, bottom: bool, left: bool, top: bool): (k: Box)
    requires g.numRows > 0 && g.numCols > 0
  {
    Box(if left then b.left else 0, if top then b.top else 0,
        if right then b.right else g.numCols - 1, if bottom then b.bottom else g.numRows - 1)
  }

  lemma KeptFits(g: Grid, ignore: char, b: Box, right: bool, bottom: bool, left: bool, top: bool)
    requires g.Valid() && g.numRows > 0 && g.numCols > 0 && IsBoundingBox(g, ignore, b)
    ensures var k := Kept(g, b, right, bottom, left, top);
            k.top <= k.bottom < g.numRows && k.left <= k.right < g.numCols
  {}

  /** t is g cut down to k: nothing that is not ignored is cut off, on each chosen side the edge of t holds
      something, and on each other side nothing is cut off. Of a blank grid the chosen sides leave the corner. */
  ghost predicate IsTrim(g: Grid, ignore: char, t: Grid, k: Box, right: bool, bottom: bool, left: bool, top: bool)
    requires g.Valid()
  {
    && k.top <= k.bottom < g.numRows && k.left <= k.right < g.numCols
    && t == SubGrid(g, k.top, k.left, k.bottom, k.right)
    && (forall y, x :: Inked(g, ignore, y, x) ==> k.top <= y <= k.bottom && k.left <= x <= k.right)
    && (!left ==> k.left == 0) && (!right ==> k.right == g.numCols - 1)
    && (!top ==> k.top == 0) && (!bottom ==> k.bottom == g.numRows - 1)
    && if IsBlank(g, ignore) then
         k.left == 0 && k.top == 0 && (right ==> k.right == 0) && (bottom ==> k.bottom == 0)
       else
         && (left ==> ColInked(t, ignore, 0)) && (right ==> ColInked(t, ignore, t.numCols - 1))
         && (top ==> RowInked(t, ignore, 0)) && (bottom ==> RowInked(t, ignore, t.numRows - 1))
  }

  /** What is inked in the part is inked in the whole. */
  lemma InkedInside(g: Grid, ignore: char, k: Box, y: int, x: int)
    requires g.Valid() && k.top <= k.bottom < g.numRows && k.left <= k.right < g.numCols
    ensures var t := SubGrid(g, k.top, k.left, k.bottom, k.right);
      Inked(t, ignore, y, x) <==> 0 <= y <= k.bottom - k.top && 0 <= x <= k.right - k.left && Inked(g, ignore, k.top + y, k.left + x)
  {
    var t := SubGrid(g, k.top, k.left, k.bottom, k.right);
    assert IsIn(t, y, x) ==> Cell(t, y, x) == Cell(g, k.top + y, k.left + x);
  }

  /** A cut holds what the sides say. */
  lemma TrimIsMinimal(g: Grid, ignore: char, b: Box, right: bool, bottom: bool, left: bool, top: bool)
    requires g.Valid() && g.numRows > 0 && g.numCols > 0 && IsBoundingBox(g, ignore, b)
    ensures var k := Kept(g, b, right, bottom, left, top);
      && k.top <= k.bottom < g.numRows && k.left <= k.right < g.numCols
      && IsTrim(g, ignore, SubGrid(g, k.top, k.left, k.bottom, k.right), k, right, bottom, left, top)
  {
    var k := Kept(g, b, right, bottom, left, top);
    KeptFits(g, ignore, b, right, bottom, left, top);
    KeptHolds(g, ignore, b, right, bottom, left, top);
    hide SubGrid, Inked, RowInked, ColInked;
    if !IsBlank(g, ignore) {
      if left {
        ColInside(g, ignore, k, k.left);
      }
      if right {
        ColInside(g, ignore, k, k.right);
      }
      if top {
        RowInside(g, ignore, k, k.top);
      }
      if bottom {
        RowInside(g, ignore, k, k.bottom);
      }
    }
  }

  lemma KeptHolds(g: Grid, ignore: char, b: Box, right: bool, bottom: bool, left: bool, top: bool)
    requires g.Valid() && g.numRows > 0 && g.numCols > 0 && IsBoundingBox(g, ignore, b)
    ensures var k := Kept(g, b, right, bottom, left, top);
      forall y, x :: Inked(g, ignore, y, x) ==> k.top <= y <= k.bottom && k.left <= x <= k.right
  {}

  /** What holds something keeps it in a part that holds everything. */
  lemma ColInside(g: Grid, ignore: char, k: Box, x: nat)
    requires g.Valid() && k.top <= k.bottom < g.numRows && k.left <= x <= k.right < g.numCols
    requires ColInked(g, ignore, x) && forall y, x :: Inked(g, ignore, y, x) ==> k.top <= y <= k.bottom
    ensures ColInked(SubGrid(g, k.top, k.left, k.bottom, k.right), ignore, x - k.left)
  {
    hide SubGrid, Inked;
    var y :| Inked(g, ignore, y, x);
    InkedInside(g, ignore, k, y - k.top, x - k.left);
  }

  lemma RowInside(g: Grid, ignore: char, k: Box, y: nat)
    requires g.Valid() && k.top <= y <= k.bottom < g.numRows && k.left <= k.right < g.numCols
    requires RowInked(g, ignore, y) && forall y, x :: Inked(g, ignore, y, x) ==> k.left <= x <= k.right
    ensures RowInked(SubGrid(g, k.top, k.left, k.bottom, k.right), ignore, y - k.top)
  {
    hide SubGrid, Inked;
    var x :| Inked(g, ignore, y, x);
    InkedInside(g, ignore, k, y - k.top, x - k.left);
  }

  /** That says what the cut is. */
  lemma TrimUnique(g: Grid, ignore: char, t: Grid, k: Box, t': Grid, k': Box, right: bool, bottom: bool, left: bool, top: bool)
    requires g.Valid() && IsTrim(g, ignore, t, k, right, bottom, left, top) && IsTrim(g, ignore, t', k', right, bottom, left, top)
    ensures t == t' && k == k'
  {
    if !IsBlank(g, ignore) {
      EdgesInked(g, ignore, t, k, right, bottom, left, top);
      EdgesInked(g, ignore, t', k', right, bottom, left, top);
    }
  }

  lemma EdgesInked(g: Grid, ignore: char, t: Grid, k: Box, right: bool, bottom: bool, left: bool, top: bool)
    requires g.Valid() && IsTrim(g, ignore, t, k, right, bottom, left, top) && !IsBlank(g, ignore)
    ensures (left ==> ColInked(g, ignore, k.left)) && (right ==> ColInked(g, ignore, k.right))
    ensures (top ==> RowInked(g, ignore, k.top)) && (bottom ==> RowInked(g, ignore, k.bottom))
  {
    hide SubGrid, Inked;
    if left {
      var y :| Inked(t, ignore, y, 0);
      InkedInside(g, ignore, k, y, 0);
    }
    if right {
      var y :| Inked(t, ignore, y, t.numCols - 1);
      InkedInside(g, ignore, k, y, t.numCols - 1);
    }
    if top {
      var x :| Inked(t, ignore, 0, x);
      InkedInside(g, ignore, k, 0, x);
    }
    if bottom {
      var x :| Inked(t, ignore, t.numRows - 1, x);
      InkedInside(g, ignore, k, t.numRows - 1, x);
    }
  }

  /** A trim drops nothing but ignored characters: laid back at its offset on a grid of the old
      size that is filled with them, it gives the original. */
  lemma TrimKeepsAll(g: Grid, ignore: char, b: Box, right: bool, bottom: bool, left: bool, top: bool)
    requires g.Valid() && g.numRows > 0 && g.numCols > 0 && IsBoundingBox(g, ignore, b)
    ensures var k := Kept(g, b, right, bottom, left, top);
            && k.top <= k.bottom < g.numRows && k.left <= k.right < g.numCols
            && Overlay(Filled(g.numRows, g.numCols, ignore), SubGrid(g, k.top, k.left, k.bottom, k.right), k.top, k.left, OPAQUE) == g
  {
    var k := Kept(g, b, right, bottom, left, top);
    KeptFits(g, ignore, b, right, bottom, left, top);
    var sub := SubGrid(g, k.top, k.left, k.bottom, k.right);
    var paper := Filled(g.numRows, g.numCols, ignore);
    var h := Overlay(paper, sub, k.top, k.left, OPAQUE);
    forall y, x | IsIn(h, y, x)
      ensures Cell(h, y, x) == Cell(g, y, x)
    {
      assert Cell(h, y, x) == OverlayCell(paper, sub, k.top, k.left, OPAQUE, y, x);
      if k.top <= y && k.left <= x && IsIn(sub, y - k.top, x - k.left) {
        assert Cell(sub, y - k.top, x - k.left) == Cell(g, y, x);
      } else {
        assert !Inked(g, ignore, y, x);
      }
    }
    SameCells(h, g);
  }
}
