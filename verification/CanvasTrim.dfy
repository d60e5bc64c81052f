/** Trimming a canvas to the box around its content: one pass over the rows, each scanned from the
    left and from the right, with flags for what has been found. */
module CanvasTrim {
  import opened Grids
  import opened Canvases

  /** The bounds found in the first n rows; without content they are still at the far sides. */
  ghost predicate Bounds(g: Grid, ignore: char, n: int, found: bool, ml: int, mt: int, mr: int, mb: int)
    requires g.Valid()
  {
    if !found then
      && (forall y, x :: Inked(g, ignore, y, x) ==> y >= n)
      && ml == g.numCols - 1 && mt == g.numRows - 1 && mr == 0
    else
      && (forall y, x :: Inked(g, ignore, y, x) && y < n ==> mt <= y <= mb && ml <= x <= mr)
      && 0 <= mt <= mb < n && RowInked(g, ignore, mt) && RowInked(g, ignore, mb)
      && 0 <= ml <= mr < g.numCols && ColInkedAbove(g, ignore, ml, n) && ColInkedAbove(g, ignore, mr, n)
  }

  ghost predicate ColInkedAbove(g: Grid, ignore: char, x: int, n: int)
    requires g.Valid()
  {
    exists y :: y < n && Inked(g, ignore, y, x)
  }

  /** Scans row y from the left, moving the leftmost column found so far. */
  method ScanLeft(canvas: Canvas, ignore: char, y: nat, ml: int) returns (left: int, rowFound: bool, moved: bool)
    requires canvas.Valid() && y < canvas.numRows && ml < canvas.numCols
    ensures rowFound <==> RowInked(canvas.Value(), ignore, y)
    ensures left <= ml && (if moved then Inked(canvas.Value(), ignore, y, left) else left == ml)
    ensures forall x :: Inked(canvas.Value(), ignore, y, x) ==> left <= x && (moved || ml < x)
  {
    ghost var g := canvas.Value();
    left, rowFound, moved := ml, false, false;
    var x := 0;
    while x <= canvas.numCols - 1
      invariant 0 <= x <= canvas.numCols
      invariant rowFound <==> exists k :: k < x && Inked(g, ignore, y, k)
      invariant left <= ml && (if moved then Inked(g, ignore, y, left) else left == ml)
      invariant forall k :: Inked(g, ignore, y, k) && k < x ==> left <= k && moved
      decreases canvas.numCols - x
    {
      assert Cell(g, y, x) == canvas.cells[y, x];
      if canvas.cells[y, x] != ignore {
        assert Inked(g, ignore, y, x);
        rowFound := true;
        if x <= left {
          left, moved := x, true;
        } else {
          break;
        }
      }
      x := x + 1;
    }
  }

  /** Scans row y from the right, moving the rightmost column found so far. */
  method ScanRight(canvas: Canvas, ignore: char, y: nat, mr: int) returns (right: int, rowFound: bool, moved: bool)
    requires canvas.Valid() && y < canvas.numRows && mr >= 0
    ensures rowFound <==> RowInked(canvas.Value(), ignore, y)
    ensures right >= mr && (if moved then Inked(canvas.Value(), ignore, y, right) else right == mr)
    ensures forall x :: Inked(canvas.Value(), ignore, y, x) ==> x <= right && (moved || x < mr)
  {
    ghost var g := canvas.Value();
    right, rowFound, moved := mr, false, false;
    var x := canvas.numCols - 1;
    while x >= 0
      invariant -1 <= x < canvas.numCols
      invariant rowFound <==> exists k :: k > x && Inked(g, ignore, y, k)
      invariant right >= mr && (if moved then Inked(g, ignore, y, right) else right == mr)
      invariant forall k :: Inked(g, ignore, y, k) && k > x ==> k <= right && moved
      decreases x + 1
    {
      assert Cell(g, y, x) == canvas.cells[y, x];
      if canvas.cells[y, x] != ignore {
        assert Inked(g, ignore, y, x);
        rowFound := true;
        if x >= right {
          right, moved := x, true;
        } else {
          break;
        }
      }
      x := x - 1;
    }
  }

  /** The bounds after one more row. */
  lemma BoundsStep(g: Grid, ignore: char, n: nat, found: bool, ml: int, mt: int, mr: int, mb: int, ml': int,
                   mr': int, moved: bool, moved': bool)
    requires g.Valid() && n < g.numRows && Bounds(g, ignore, n, found, ml, mt, mr, mb)
    requires ml' <= ml && (if moved then Inked(g, ignore, n, ml') else ml' == ml)
    requires forall x :: Inked(g, ignore, n, x) ==> ml' <= x && (moved || ml < x)
    requires mr' >= mr && (if moved' then Inked(g, ignore, n, mr') else mr' == mr)
    requires forall x :: Inked(g, ignore, n, x) ==> x <= mr' && (moved' || x < mr)
    ensures var row := RowInked(g, ignore, n);
            && (!found && !row ==> Bounds(g, ignore, n + 1, false, ml, mt, mr, mb))
            && (!found && row ==> moved && moved' && n <= mt && Bounds(g, ignore, n + 1, true, ml', n, mr', n))
            && (found && row ==> mt < n && Bounds(g, ignore, n + 1, true, ml', mt, mr', n))
            && (found && !row ==> mt < n && Bounds(g, ignore, n + 1, true, ml', mt, mr', mb))
  {}

  /** After the last row the bounds are the bounding box. */
  lemma BoundsBox(g: Grid, ignore: char, found: bool, ml: int, mt: int, mr: int, mb: int)
    requires g.Valid() && Bounds(g, ignore, g.numRows, found, ml, mt, mr, mb)
    ensures !found ==> IsBoundingBox(g, ignore, Box(0, 0, 0, 0))
    ensures found ==> IsBoundingBox(g, ignore, Box(ml, mt, mr, mb))
  {}

  /** A copy of the canvas cut down, on the chosen sides, to the box around its content. */
  method TrimC(orig: Canvas, ignore: char, right: bool, bottom: bool, left: bool, top: bool)
    returns (trimmed: Canvas, ghost b: Box)
    requires orig.Valid() && orig.numRows > 0 && orig.numCols > 0
    ensures fresh(trimmed) && trimmed.Valid()
    ensures IsBoundingBox(orig.Value(), ignore, b)
    ensures var k := Kept(orig.Value(), b, right, bottom, left, top);
            && k.top <= k.bottom < orig.numRows && k.left <= k.right < orig.numCols
            && trimmed.Value() == SubGrid(orig.Value(), k.top, k.left, k.bottom, k.right)
            && IsTrim(orig.Value(), ignore, trimmed.Value(), k, right, bottom, left, top)
  {
    hide IsTrim, Bounds, IsBoundingBox, RowInked, Inked;
    ghost var g := orig.Value();
    var farLeft, farRight, farTop, farBottom := 0, orig.numCols - 1, 0, orig.numRows - 1;
    var ml, mt, mr, mb := farRight, farBottom, farLeft, farBottom;
    var firstChar := false;
    var mlSet, mtSet, mrSet, mbSet := false, false, false, false;
    BoundsStart(g, ignore);
    for y := 0 to orig.numRows
      invariant Bounds(g, ignore, y, firstChar, ml, mt, mr, mb)
      invariant ml < orig.numCols && mr >= 0
      invariant firstChar ==> mlSet && mtSet && mrSet && mbSet
    {
      var l, rowFound, moved := ScanLeft(orig, ignore, y, ml);
      var r, again, moved' := ScanRight(orig, ignore, y, mr);
      BoundsStep(g, ignore, y, firstChar, ml, mt, mr, mb, l, r, moved, moved');
      ml, mlSet := l, mlSet || moved;
      if !firstChar && !rowFound {
        continue;
      }
      mr, mrSet := r, mrSet || moved';
      firstChar := true;
      if y <= mt {
        mt, mtSet := y, true;
      }
      if rowFound {
        mb, mbSet := y, true;
      }
    }
    BoundsBox(g, ignore, firstChar, ml, mt, mr, mb);
    if !firstChar {
      ml, mr, mt, mb := 0, 0, 0, 0;
    } else {
      if !mlSet {
        ml := farLeft;
      } else if !mrSet {
        mr := farRight;
      }
      if !mtSet {
        mt := farTop;
      } else if !mbSet {
        mb := farBottom;
      }
    }
    BoundsInside(g, ignore, firstChar, ml, mt, mr, mb);
    b := Box(ml, mt, mr, mb);
    TrimIsMinimal(g, ignore, b, right, bottom, left, top);
    trimmed := orig.CopyP1P2(if top then mt else 0, if left then ml else 0,
                             if bottom then mb else orig.numRows - 1, if right then mr else orig.numCols - 1);
  }

  lemma BoundsStart(g: Grid, ignore: char)
    requires g.Valid()
    ensures Bounds(g, ignore, 0, false, g.numCols - 1, g.numRows - 1, 0, g.numRows - 1)
  {}

  lemma BoundsInside(g: Grid, ignore: char, found: bool, ml: int, mt: int, mr: int, mb: int)
    requires g.Valid() && g.numRows > 0 && g.numCols > 0
    requires if found then Bounds(g, ignore, g.numRows, found, ml, mt, mr, mb) else ml == mt == mr == mb == 0
    ensures 0 <= ml <= mr < g.numCols && 0 <= mt <= mb < g.numRows
  {}
}
