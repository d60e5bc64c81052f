/** The canvas object and the operations that copy, overlay, resize and trim canvases. */
module Canvases {
  import opened Grids

  class Canvas {
    const numRows: nat
    const numCols: nat
    const cells: array2<char>

    ghost predicate Valid() {
      cells.Length0 == numRows && cells.Length1 == numCols
    }

    /** The grid the canvas shows. */
    ghost function Value(): (g: Grid)
      requires Valid()
      reads cells
      ensures g.Valid() && g.numRows == numRows && g.numCols == numCols
      ensures forall y, x :: IsIn(g, y, x) ==> Cell(g, y, x) == cells[y, x]
    {
      Grid(numRows, numCols, seq(numRows, y requires 0 <= y < numRows reads cells =>
             seq(numCols, x requires 0 <= x < numCols reads cells => cells[y, x])))
    }

    /** A canvas full of spaces. */
    constructor (rows: nat, cols: nat)
      ensures numRows == rows && numCols == cols && Valid() && fresh(cells)
      ensures Value() == Blank(rows, cols)
    {
      numRows, numCols := rows, cols;
      cells := new char[rows, cols];
      new;
      for y := 0 to rows
        invariant forall i, j :: 0 <= i < y && 0 <= j < cols ==> cells[i, j] == ' '
      {
        for x := 0 to cols
          invariant forall i, j :: 0 <= i < y && 0 <= j < cols ==> cells[i, j] == ' '
          invariant forall j :: 0 <= j < x ==> cells[y, j] == ' '
        {
          cells[y, x] := ' ';
        }
      }
      SameCells(Value(), Blank(rows, cols));
    }

    /** Sets one cell. */
    method SetCharYX(y: nat, x: nat, c: char)
      requires Valid() && y < numRows && x < numCols
      modifies cells
      ensures Value() == Put(old(Value()), y, x, c)
    {
      ghost var was := Value();
      cells[y, x] := c;
      SameCells(Value(), Put(was, y, x, c));
    }

    /** A copy of the rectangle spanned by two points, in either order. */
    method CopyP1P2(y1: nat, x1: nat, y2: nat, x2: nat) returns (copy: Canvas)
      requires Valid() && y1 < numRows && y2 < numRows && x1 < numCols && x2 < numCols
      ensures fresh(copy) && fresh(copy.cells) && copy.Valid()
      ensures copy.Value() == SubGrid(Value(), Min(y1, y2), Min(x1, x2), Max(y1, y2), Max(x1, x2))
    {
      hide SubGrid, Value;
      var tlx, tly := Min(x1, x2), Min(y1, y2);
      ghost var bry, brx := Max(y1, y2), Max(x1, x2);
      var width, height := Max(x1, x2) - tlx + 1, Max(y1, y2) - tly + 1;
      copy := new Canvas(height, width);
      for y := 0 to height
        invariant forall i, j :: 0 <= i < y && 0 <= j < width ==> copy.cells[i, j] == cells[tly + i, tlx + j]
      {
        for x := 0 to width
          invariant forall i, j :: 0 <= i < y && 0 <= j < width ==> copy.cells[i, j] == cells[tly + i, tlx + j]
          invariant forall j :: 0 <= j < x ==> copy.cells[y, j] == cells[tly + y, tlx + j]
        {
          copy.cells[y, x] := cells[tly + y, tlx + x];
        }
      }
      SameCells(copy.Value(), SubGrid(Value(), tly, tlx, bry, brx));
    }

    /** Lays `source` over this canvas at (y, x), skipping one transparent character. */
    method LoadCanvasYXC(source: Canvas, y: nat, x: nat, transparent: char) returns (truncated: bool)
      requires Valid() && source.Valid() && source.cells != cells && y < numRows && x < numCols
      modifies cells
      ensures Value() == Overlay(old(Value()), source.Value(), y, x, c => c == transparent)
      ensures truncated == Truncated(Value(), source.Value(), y, x)
    {
      ghost var was, over := Value(), source.Value();
      ghost var skip := c => c == transparent;
      var copyHeight, copyWidth := Min(numRows - y, source.numRows), Min(numCols - x, source.numCols);
      for i := 0 to copyHeight
        invariant forall a, b :: 0 <= a < numRows && 0 <= b < numCols ==>
          cells[a, b] == if y <= a < y + i then OverlayCell(was, over, y, x, skip, a, b) else Cell(was, a, b)
      {
        for j := 0 to copyWidth
          invariant forall a, b :: 0 <= a < numRows && 0 <= b < numCols ==>
            cells[a, b] == if y <= a < y + i || (a == y + i && x <= b < x + j)
                           then OverlayCell(was, over, y, x, skip, a, b) else Cell(was, a, b)
        {
          var c := source.cells[i, j];
          assert Cell(over, i, j) == c;
          if c != transparent {
            cells[y + i, x + j] := c;
          }
        }
      }
      SameCells(Value(), Overlay(was, over, y, x, skip));
      return numRows - y < source.numRows || numCols - x < source.numCols;
    }

    /** Lays `source` over this canvas at (y, x). */
    method LoadCanvasYX(source: Canvas, y: nat, x: nat) returns (truncated: bool)
      requires Valid() && source.Valid() && source.cells != cells && y < numRows && x < numCols
      modifies cells
      ensures Value() == Overlay(old(Value()), source.Value(), y, x, OPAQUE)
      ensures truncated == Truncated(Value(), source.Value(), y, x)
    {
      ghost var was, over := Value(), source.Value();
      var copyHeight, copyWidth := Min(numRows - y, source.numRows), Min(numCols - x, source.numCols);
      for i := 0 to copyHeight
        invariant forall a, b :: 0 <= a < numRows && 0 <= b < numCols ==>
          cells[a, b] == if y <= a < y + i then OverlayCell(was, over, y, x, OPAQUE, a, b) else Cell(was, a, b)
      {
        for j := 0 to copyWidth
          invariant forall a, b :: 0 <= a < numRows && 0 <= b < numCols ==>
            cells[a, b] == if y <= a < y + i || (a == y + i && x <= b < x + j)
                           then OverlayCell(was, over, y, x, OPAQUE, a, b) else Cell(was, a, b)
        {
          assert Cell(over, i, j) == source.cells[i, j];
          cells[y + i, x + j] := source.cells[i, j];
        }
      }
      SameCells(Value(), Overlay(was, over, y, x, OPAQUE));
      return numRows - y < source.numRows || numCols - x < source.numCols;
    }

    /** A canvas of a new size with the same content at (0, 0), as far as it fits. */
    method Resize(newRows: nat, newCols: nat) returns (canvas: Canvas, truncated: bool)
      requires Valid() && newRows > 0 && newCols > 0
      ensures fresh(canvas) && fresh(canvas.cells) && canvas.Valid()
      ensures canvas.Value() == Overlay(Blank(newRows, newCols), Value(), 0, 0, OPAQUE)
      ensures truncated <==> newRows < numRows || newCols < numCols
    {
      canvas := new Canvas(newRows, newCols);
      truncated := canvas.LoadCanvasYX(this, 0, 0);
    }
  }

  function Min(a: int, b: int): int { if a < b then a else b }
  function Max(a: int, b: int): int { if a > b then a else b }
}
