/** The cursor, the part of the canvas in view, and the window it is drawn in. */
module Viewports {
  import opened Chars
  import opened Grids
  import opened Canvases

  datatype Arrow = Left | Right | Up | Down

  /** What a cell of the window can show. */
  datatype Glyph = Char(c: char) | Checkerboard | Border

  datatype Point = Point(y: nat, x: nat)

  // ---------------------------------------------------------------------------
  // Walking on the canvas
  // ---------------------------------------------------------------------------

  /** One step on a canvas of the given size, which stops at its edges. */
  function Walk(p: Point, arrow: Arrow, rows: nat, cols: nat): (q: Point)
    requires p.y < rows && p.x < cols
    ensures q.y < rows && q.x < cols
  {
    match arrow
    case Left => if p.x == 0 then p else Point(p.y, p.x - 1)
    case Right => if p.x == cols - 1 then p else Point(p.y, p.x + 1)
    case Up => if p.y == 0 then p else Point(p.y - 1, p.x)
    case Down => if p.y == rows - 1 then p else Point(p.y + 1, p.x)
  }

  function OppositeDir(arrow: Arrow): (opposite: Arrow) {
    match arrow
    case Left => Right
    case Right => Left
    case Up => Down
    case Down => Up
  }

  /** The size of the canvas in the direction of the arrow. */
  function Span(arrow: Arrow, rows: nat, cols: nat): nat {
    if arrow.Left? || arrow.Right? then cols else rows
  }

  /** A step and the opposite one lead back exactly if the first one was not stopped at an edge
      (or the canvas is only one cell across). */
  lemma OppositeUndoes(p: Point, arrow: Arrow, rows: nat, cols: nat)
    requires p.y < rows && p.x < cols
    ensures Walk(Walk(p, arrow, rows, cols), OppositeDir(arrow), rows, cols) == p
       <==> Walk(p, arrow, rows, cols) != p || Span(arrow, rows, cols) == 1
  {}

  // ---------------------------------------------------------------------------
  // The view
  // ---------------------------------------------------------------------------

  /** What the window cell at (y, x) of the drawing area has to show when the view starts at (vy, vx). */
  ghost function Shown(g: Grid, vy: nat, vx: nat, y: nat, x: nat): Glyph
    requires g.Valid()
  {
    if IsIn(g, vy + y, vx + x) then Char(Cell(g, vy + y, vx + x)) else Checkerboard
  }

  class View {
    const canvas: Canvas
    /** The window: the drawing area and a border of one cell around it. */
    const window: array2<Glyph>
    var y: nat
    var x: nat

    ghost predicate Valid()
      reads this
    {
      && canvas.Valid()
      && window.Length0 > 2 && window.Length1 > 2
      && y <= canvas.numRows && x <= canvas.numCols
    }

    function MaxY(): int { window.Length0 - 2 }

    function MaxX(): int { window.Length1 - 2 }

    /** The drawing area shows the canvas from (y, x) on, and filler beyond its edges. */
    ghost predicate InSync()
      requires Valid()
      reads this, window, canvas.cells
    {
      forall i, j :: 0 <= i < MaxY() && 0 <= j < MaxX() ==> window[i + 1, j + 1] == Shown(canvas.Value(), y, x, i, j)
    }

    constructor (canvas: Canvas, window: array2<Glyph>)
      requires canvas.Valid() && window.Length0 > 2 && window.Length1 > 2
      ensures Valid() && this.canvas == canvas && this.window == window && y == 0 && x == 0
    {
      this.canvas, this.window, y, x := canvas, window, 0, 0;
    }

    /** The points drawn so far show what they have to. */
    ghost predicate Painted(drawn: set<Point>)
      requires Valid()
      reads this, window, canvas.cells
    {
      forall p :: p in drawn ==>
        p.y < MaxY() && p.x < MaxX() && window[p.y + 1, p.x + 1] == Shown(canvas.Value(), y, x, p.y, p.x)
    }

    /** A cell of the window outside the drawing area. */
    predicate OnBorder(a: int, b: int) {
      || (0 <= a < window.Length0 && (b == 0 || b == window.Length1 - 1))
      || (0 <= b < window.Length1 && (a == 0 || a == window.Length0 - 1))
    }

    twostate predicate BorderKept()
      reads window
    {
      forall a, b :: OnBorder(a, b) && 0 <= a < window.Length0 && 0 <= b < window.Length1 ==> window[a, b] == old(window[a, b])
    }

    /** Draws one cell of the drawing area, which must not have been drawn yet. */
    method Draw(i: nat, j: nat, glyph: Glyph, ghost drawn: set<Point>) returns (ghost drawn': set<Point>)
      requires Valid() && i < MaxY() && j < MaxX() && Point(i, j) !in drawn && Painted(drawn)
      requires glyph == Shown(canvas.Value(), y, x, i, j)
      modifies window
      ensures drawn' == drawn + {Point(i, j)} && Painted(drawn')
      ensures BorderKept()
    {
      hide Shown;
      window[i + 1, j + 1] := glyph;
      drawn' := drawn + {Point(i, j)};
    }

    /** Draws the whole area, every cell of it once. */
    method RedrawCanvasWin() returns (ghost drawn: set<Point>)
      requires Valid()
      modifies window
      ensures InSync()
      ensures forall p :: p in drawn <==> p.y < MaxY() && p.x < MaxX()
      ensures BorderKept()
    {
      hide Painted, OnBorder, Shown;
      var maxX, maxY := MaxX(), MaxY();
      if maxX >= canvas.numCols - x {
        maxX := canvas.numCols - x;
      }
      if maxY >= canvas.numRows - y {
        maxY := canvas.numRows - y;
      }
      drawn := {};
      NothingPainted();
      for j := 0 to maxX
        invariant forall p :: p in drawn <==> p.y < maxY && p.x < j
        invariant Painted(drawn) && BorderKept()
      {
        for i := 0 to maxY
          invariant forall p :: p in drawn <==> p.y < maxY && (p.x < j || (p.x == j && p.y < i))
          invariant Painted(drawn) && BorderKept()
        {
          ShownInside(canvas.Value(), y, x, i, j);
          drawn := Draw(i, j, Char(canvas.cells[i + y, j + x]), drawn);
        }
      }
      for j := maxX to MaxX()
        invariant forall p :: p in drawn <==> (p.y < maxY && p.x < maxX) || (p.y < MaxY() && maxX <= p.x < j)
        invariant Painted(drawn) && BorderKept()
      {
        for i := 0 to MaxY()
          invariant forall p :: p in drawn <==>
            ((p.y < maxY && p.x < maxX) || (p.y < MaxY() && (maxX <= p.x < j || (p.x == j && p.y < i))))
          invariant Painted(drawn) && BorderKept()
        {
          ShownOutside(canvas.Value(), y, x, i, j);
          drawn := Draw(i, j, Checkerboard, drawn);
        }
      }
      for i := maxY to MaxY()
        invariant forall p :: p in drawn <==> (p.y < i && p.x < maxX) || (p.y < MaxY() && maxX <= p.x < MaxX())
        invariant Painted(drawn) && BorderKept()
      {
        for j := 0 to maxX
          invariant forall p :: p in drawn <==>
            ((p.y < i && p.x < maxX) || (p.y == i && p.x < j) || (p.y < MaxY() && maxX <= p.x < MaxX()))
          invariant Painted(drawn) && BorderKept()
        {
          ShownOutside(canvas.Value(), y, x, i, j);
          drawn := Draw(i, j, Checkerboard, drawn);
        }
      }
      AllPainted(drawn);
    }

    method MoveUp()
      requires Valid()
      modifies this, window
      ensures Valid() && x == old(x) && y == (if old(y) == 0 then 0 else old(y) - 1)
      ensures old(InSync()) ==> InSync()
    {
      hide InSync;
      if y == 0 {
        return;
      }
      y := y - 1;
      ghost var _ := RedrawCanvasWin();
    }

    method MoveDown()
      requires Valid()
      modifies this, window
      ensures Valid() && x == old(x) && y == (if old(y) + MaxY() > canvas.numRows then old(y) else old(y) + 1)
      ensures old(InSync()) ==> InSync()
    {
      hide InSync;
      if y + MaxY() > canvas.numRows {
        return;
      }
      y := y + 1;
      ghost var _ := RedrawCanvasWin();
    }

    method MoveLeft()
      requires Valid()
      modifies this, window
      ensures Valid() && y == old(y) && x == (if old(x) == 0 then 0 else old(x) - 1)
      ensures old(InSync()) ==> InSync()
    {
      hide InSync;
      if x == 0 {
        return;
      }
      x := x - 1;
      ghost var _ := RedrawCanvasWin();
    }

    method MoveRight()
      requires Valid()
      modifies this, window
      ensures Valid() && y == old(y) && x == (if old(x) + MaxX() > canvas.numCols then old(x) else old(x) + 1)
      ensures old(InSync()) ==> InSync()
    {
      hide InSync;
      if x + MaxX() > canvas.numCols {
        return;
      }
      x := x + 1;
      ghost var _ := RedrawCanvasWin();
    }

    /** Panning keeps the window in step with the canvas, too. */
    method PanCh(arrow: Arrow)
      requires Valid()
      modifies this, window
      ensures Valid() && (old(InSync()) ==> InSync())
      ensures y == match arrow
        case Up => if old(y) == 0 then 0 else old(y) - 1
        case Down => if old(y) + MaxY() > canvas.numRows then old(y) else old(y) + 1
        case _ => old(y)
      ensures x == match arrow
        case Left => if old(x) == 0 then 0 else old(x) - 1
        case Right => if old(x) + MaxX() > canvas.numCols then old(x) else old(x) + 1
        case _ => old(x)
    {
      hide InSync;
      match arrow
      case Left => MoveLeft();
      case Right => MoveRight();
      case Up => MoveUp();
      case Down => MoveDown();
    }

    lemma NothingPainted()
      requires Valid()
      ensures Painted({})
    {}

    lemma AllPainted(drawn: set<Point>)
      requires Valid() && Painted(drawn) && forall p :: p in drawn <==> p.y < MaxY() && p.x < MaxX()
      ensures InSync()
    {
      hide Shown;
      forall i, j | 0 <= i < MaxY() && 0 <= j < MaxX()
        ensures window[i + 1, j + 1] == Shown(canvas.Value(), y, x, i, j)
      {
        assert Point(i, j) in drawn;
      }
    }
  }

  lemma ShownInside(g: Grid, vy: nat, vx: nat, i: nat, j: nat)
    requires g.Valid() && vy + i < g.numRows && vx + j < g.numCols
    ensures Shown(g, vy, vx, i, j) == Char(Cell(g, vy + i, vx + j))
  {}

  lemma ShownOutside(g: Grid, vy: nat, vx: nat, i: nat, j: nat)
    requires g.Valid() && (vy + i >= g.numRows || vx + j >= g.numCols)
    ensures Shown(g, vy, vx, i, j) == Checkerboard
  {}

  // ---------------------------------------------------------------------------
  // The cursor
  // ---------------------------------------------------------------------------

  class Cursor {
    var y: nat
    var x: nat

    constructor (y: nat, x: nat)
      ensures this.y == y && this.x == x
    {
      this.y, this.x := y, x;
    }

    /** The cursor is inside the window and on the canvas. */
    ghost predicate Inside(view: View)
      reads this, view
    {
      && view.Valid()
      && y < view.MaxY() && x < view.MaxX()
      && view.y + y < view.canvas.numRows && view.x + x < view.canvas.numCols
    }

    /** The cell of the canvas under the cursor. */
    function At(view: View): Point
      reads this, view
    {
      Point(view.y + y, view.x + x)
    }

    method MoveUp(view: View)
      requires Inside(view)
      modifies this, view, view.window
      ensures Inside(view) && At(view) == Walk(old(At(view)), Up, view.canvas.numRows, view.canvas.numCols)
      ensures old(view.InSync()) ==> view.InSync()
    {
      if y == 0 {
        view.MoveUp();
        return;
      }
      y := y - 1;
    }

    method MoveDown(view: View)
      requires Inside(view)
      modifies this, view, view.window
      ensures Inside(view) && At(view) == Walk(old(At(view)), Down, view.canvas.numRows, view.canvas.numCols)
      ensures old(view.InSync()) ==> view.InSync()
    {
      if y + 1 >= view.canvas.numRows - view.y {
        y := view.canvas.numRows - view.y - 1;
        return;
      }
      if y + 1 >= view.MaxY() {
        view.MoveDown();
        return;
      }
      y := y + 1;
    }

    method MoveLeft(view: View)
      requires Inside(view)
      modifies this, view, view.window
      ensures Inside(view) && At(view) == Walk(old(At(view)), Left, view.canvas.numRows, view.canvas.numCols)
      ensures old(view.InSync()) ==> view.InSync()
    {
      if x == 0 {
        view.MoveLeft();
        return;
      }
      x := x - 1;
    }

    method MoveRight(view: View)
      requires Inside(view)
      modifies this, view, view.window
      ensures Inside(view) && At(view) == Walk(old(At(view)), Right, view.canvas.numRows, view.canvas.numCols)
      ensures old(view.InSync()) ==> view.InSync()
    {
      if x >= view.canvas.numCols - view.x - 1 {
        x := view.canvas.numCols - view.x - 1;
        return;
      }
      if x + 1 >= view.MaxX() {
        view.MoveRight();
        return;
      }
      x := x + 1;
    }

    /** An arrow key moves the cursor as a step on the whole canvas would, whatever the size of the window. */
    method KeyToMove(arrow: Arrow, view: View)
      requires Inside(view)
      modifies this, view, view.window
      ensures Inside(view) && At(view) == Walk(old(At(view)), arrow, view.canvas.numRows, view.canvas.numCols)
      ensures old(view.InSync()) ==> view.InSync()
    {
      match arrow
      case Left => MoveLeft(view);
      case Right => MoveRight(view);
      case Up => MoveUp(view);
      case Down => MoveDown(view);
    }

    /** Writes a character under the cursor, on the canvas and in the window. */
    method SetChar(view: View, ch: char)
      requires Inside(view)
      modifies view.canvas.cells, view.window
      ensures view.canvas.Value() == Put(old(view.canvas.Value()), At(view).y, At(view).x, ch)
      ensures old(view.InSync()) ==> view.InSync()
    {
      hide Shown, Put;
      ghost var was := view.canvas.Value();
      view.canvas.SetCharYX(y + view.y, x + view.x, ch);
      view.window[y + 1, x + 1] := Char(ch);
      ShownAfterPut(was, view.y, view.x, y, x, ch);
    }
  }

  /** Writing a cell in view changes what its cell of the window has to show, and no other one. */
  lemma ShownAfterPut(g: Grid, vy: nat, vx: nat, y: nat, x: nat, c: char)
    requires g.Valid() && IsIn(g, vy + y, vx + x)
    ensures var h := Put(g, vy + y, vx + x, c);
            forall i: nat, j: nat :: Shown(h, vy, vx, i, j) == if i == y && j == x then Char(c) else Shown(g, vy, vx, i, j)
  {}

  lemma PutTwice(g: Grid, y: nat, x: nat, c: char, d: char)
    requires g.Valid() && IsIn(g, y, x)
    ensures Put(Put(g, y, x, c), y, x, d) == Put(g, y, x, d)
  {
    SameCells(Put(Put(g, y, x, c), y, x, d), Put(g, y, x, d));
  }

  // ---------------------------------------------------------------------------
  // Editing
  // ---------------------------------------------------------------------------

  /** A key of the insert mode. */
  datatype Key = Move(arrow: Arrow) | Typed(c: char) | Backspace | Delete

  /** What the editor is about: the canvas, the cell under the cursor, and the direction of writing. */
  datatype Editor = Editor(g: Grid, at: Point, last: Arrow) {
    predicate Valid() {
      g.Valid() && at.y < g.numRows && at.x < g.numCols
    }

    function Step(arrow: Arrow): (e: Editor)
      requires Valid()
      ensures e.Valid()
    {
      this.(at := Walk(at, arrow, g.numRows, g.numCols))
    }

    function Write(c: char): (e: Editor)
      requires Valid()
      ensures e.Valid()
    {
      this.(g := Put(g, at.y, at.x, c))
    }

    function Press(key: Key): (e: Editor)
      requires Valid()
      ensures e.Valid()
    {
      match key
      case Move(arrow) => Step(arrow).(last := arrow)
      case Typed(c) => if IsPrintable(c) then Write(c).Step(last) else this
      case Backspace => Step(OppositeDir(last)).Write(' ')
      case Delete => Write(' ')
    }

    function PressAll(keys: seq<Key>): (e: Editor)
      requires Valid()
      ensures e.Valid()
      decreases |keys|
    {
      if keys == [] then this else Press(keys[0]).PressAll(keys[1..])
    }
  }

  /** Backspace takes back a character just typed, exactly unless the edge of the canvas kept the cursor on it. */
  lemma BackspaceUndoes(e: Editor, c: char)
    requires e.Valid() && IsPrintable(c)
    ensures e.Press(Typed(c)).Press(Backspace).at == e.at
       <==> Walk(e.at, e.last, e.g.numRows, e.g.numCols) != e.at || Span(e.last, e.g.numRows, e.g.numCols) == 1
    ensures e.Press(Typed(c)).Press(Backspace).at == e.at ==> e.Press(Typed(c)).Press(Backspace) == e.Write(' ')
    ensures e.Press(Typed(c)).Press(Backspace).at != e.at
        ==> e.Press(Typed(c)).Press(Backspace) == e.Write(c).Step(OppositeDir(e.last)).Write(' ')
  {
    OppositeUndoes(e.at, e.last, e.g.numRows, e.g.numCols);
    PutTwice(e.g, e.at.y, e.at.x, c, ' ');
    hide Put, Walk;
  }

  /** Deleting leaves a blank under the cursor and changes nothing else. */
  lemma DeleteErases(e: Editor, y: nat, x: nat)
    requires e.Valid() && IsIn(e.g, y, x)
    ensures var f := e.Press(Delete);
      && f.at == e.at && f.last == e.last && f.g.numRows == e.g.numRows && f.g.numCols == e.g.numCols
      && Cell(f.g, y, x) == if Point(y, x) == e.at then ' ' else Cell(e.g, y, x)
  {}

  /** Other keys than letters of the alphabet of the editor do nothing; an arrow turns the direction of writing. */
  lemma KeysKept(e: Editor, c: char, arrow: Arrow)
    requires e.Valid()
    ensures !IsPrintable(c) ==> e.Press(Typed(c)) == e
    ensures e.Press(Move(arrow)).g == e.g && e.Press(Move(arrow)).last == arrow
  {}

  /** How far a cell lies ahead of p in a direction; negative if it lies behind or aside. */
  function Ahead(p: Point, arrow: Arrow, y: nat, x: nat): int {
    match arrow
    case Left => if y == p.y then p.x - x else -1
    case Right => if y == p.y then x - p.x else -1
    case Up => if x == p.x then p.y - y else -1
    case Down => if x == p.x then y - p.y else -1
  }

  /** How many cells lie ahead. */
  function Room(e: Editor): int {
    match e.last
    case Left => e.at.x
    case Right => e.g.numCols - 1 - e.at.x
    case Up => e.at.y
    case Down => e.g.numRows - 1 - e.at.y
  }

  function TypedKeys(s: string): seq<Key> {
    seq(|s|, k requires 0 <= k < |s| => Typed(s[k]))
  }

  lemma TypedOne(e: Editor, c: char, y: nat, x: nat)
    requires e.Valid() && IsIn(e.g, y, x) && IsPrintable(c)
    ensures var d := e.Press(Typed(c));
      && d.last == e.last && d.g.numRows == e.g.numRows && d.g.numCols == e.g.numCols
      && Cell(d.g, y, x) == (if Ahead(e.at, e.last, y, x) == 0 then c else Cell(e.g, y, x))
      && (Room(e) == 0 ==> d.at == e.at)
      && (Room(e) > 0 ==> Room(d) == Room(e) - 1 && Ahead(e.at, e.last, d.at.y, d.at.x) == 1
                          && forall i: nat, j: nat :: Ahead(e.at, e.last, i, j) > 0 ==> Ahead(d.at, e.last, i, j) == Ahead(e.at, e.last, i, j) - 1)
      && (Room(e) > 0 ==> forall i: nat, j: nat :: Ahead(e.at, e.last, i, j) <= 0 ==> Ahead(d.at, e.last, i, j) < 0)
  {}

  /** Typed text that fits the canvas stands there in the direction of writing, with nothing else changed, and the
      cursor is behind it, or on its last character at the edge. */
  lemma {:induction false} TypedText(e: Editor, s: string, y: nat, x: nat)
    requires e.Valid() && IsIn(e.g, y, x) && |s| <= Room(e) + 1 && forall k :: 0 <= k < |s| ==> IsPrintable(s[k])
    ensures var f := e.PressAll(TypedKeys(s));
      var k := Ahead(e.at, e.last, y, x);
      && f.last == e.last && f.g.numRows == e.g.numRows && f.g.numCols == e.g.numCols
      && Cell(f.g, y, x) == (if 0 <= k < |s| then s[k] else Cell(e.g, y, x))
      && Ahead(e.at, e.last, f.at.y, f.at.x) == if |s| <= Room(e) then |s| else |s| - 1
    decreases |s|
  {
    if s != "" {
      var d := e.Press(Typed(s[0]));
      assert TypedKeys(s)[0] == Typed(s[0]) && TypedKeys(s)[1..] == TypedKeys(s[1..]);
      TypedOne(e, s[0], y, x);
      TypedText(d, s[1..], y, x);
      hide Put, Walk, Ahead, Room;
    }
  }

  /** Handles one key in the insert mode. */
  method InsertKey(cursor: Cursor, view: View, key: Key, last: Arrow) returns (last': Arrow)
    requires cursor.Inside(view)
    modifies cursor, view, view.window, view.canvas.cells
    ensures cursor.Inside(view) && (old(view.InSync()) ==> view.InSync())
    ensures Editor(view.canvas.Value(), cursor.At(view), last')
         == Editor(old(view.canvas.Value()), old(cursor.At(view)), last).Press(key)
  {
    hide Put;
    last' := last;
    match key
    case Move(arrow) =>
      cursor.KeyToMove(arrow, view);
      last' := arrow;
    case Typed(c) =>
      if IsPrintable(c) {
        cursor.SetChar(view, c);
        cursor.KeyToMove(last, view);
      }
    case Backspace =>
      cursor.KeyToMove(OppositeDir(last), view);
      cursor.SetChar(view, ' ');
    case Delete =>
      cursor.SetChar(view, ' ');
  }

  /** Any run of keys edits the canvas as if there were no window, and the window shows the result. */
  method Edit(cursor: Cursor, view: View, keys: seq<Key>, last: Arrow) returns (last': Arrow)
    requires cursor.Inside(view)
    modifies cursor, view, view.window, view.canvas.cells
    ensures cursor.Inside(view) && view.InSync()
    ensures Editor(view.canvas.Value(), cursor.At(view), last')
         == Editor(old(view.canvas.Value()), old(cursor.At(view)), last).PressAll(keys)
  {
    ghost var start := Editor(view.canvas.Value(), cursor.At(view), last);
    ghost var _ := view.RedrawCanvasWin();
    last' := last;
    for i := 0 to |keys|
      invariant cursor.Inside(view) && view.InSync()
      invariant Editor(view.canvas.Value(), cursor.At(view), last').PressAll(keys[i..]) == start.PressAll(keys)
    {
      last' := InsertKey(cursor, view, keys[i], last');
      assert keys[i..][1..] == keys[i + 1..];
    }
  }
}
