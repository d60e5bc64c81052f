/** Grids as one flat run of cells, and the wrapping of newline-free text by the loader. */
module GridFlat {
  import opened Chars
  import opened Grids
  import opened GridText

  /** The index of a cell when the rows are laid end to end. */
  function Index(numCols: nat, y: nat, x: nat): nat { y * numCols + x }

  lemma IndexUnique(numCols: nat, y: nat, x: nat, y': nat, x': nat)
    requires x < numCols && x' < numCols && Index(numCols, y, x) == Index(numCols, y', x')
    ensures y == y' && x == x'
  {
    if y < y' {
      LowerRow(numCols, y, y');
    } else if y' < y {
      LowerRow(numCols, y', y);
    }
  }

  lemma LowerRow(numCols: nat, y: nat, y': nat)
    requires y < y'
    ensures y * numCols + numCols <= y' * numCols
  {
    var d := y' - y - 1;
    assert y' * numCols == y * numCols + numCols + d * numCols;
  }

  lemma IndexInside(numRows: nat, numCols: nat, y: nat, x: nat)
    requires y < numRows && x < numCols
    ensures Index(numCols, y, x) < numRows * numCols
  {
    LowerRow(numCols, y, numRows);
  }

  lemma NextRow(numCols: nat, row: nat)
    ensures Index(numCols, row, numCols) == Index(numCols, row + 1, 0)
  {}

  lemma RowInside(numRows: nat, numCols: nat, row: nat, col: nat)
    requires Index(numCols, row, col) < numRows * numCols
    ensures row < numRows
  {}

  /** The row and column of an index. */
  lemma IndexSplit(numRows: nat, numCols: nat, i: nat)
    requires i < numRows * numCols
    ensures numCols > 0 && i / numCols < numRows && i % numCols < numCols
    ensures Index(numCols, i / numCols, i % numCols) == i
  {}

  lemma IndexJoin(numCols: nat, y: nat, x: nat)
    requires x < numCols
    ensures Index(numCols, y, x) / numCols == y && Index(numCols, y, x) % numCols == x
  {
    var i := Index(numCols, y, x);
    assert i == (i / numCols) * numCols + i % numCols;
    IndexUnique(numCols, i / numCols, i % numCols, y, x);
  }

  function FlatCell(g: Grid, i: nat): char
    requires g.Valid() && i < g.numRows * g.numCols
  {
    IndexSplit(g.numRows, g.numCols, i);
    Cell(g, i / g.numCols, i % g.numCols)
  }

  /** The cells in order, row by row. */
  function Flat(g: Grid): (s: string)
    requires g.Valid()
    ensures |s| == g.numRows * g.numCols
    ensures forall i :: 0 <= i < |s| ==> s[i] == FlatCell(g, i)
  {
    seq(g.numRows * g.numCols, i requires 0 <= i < g.numRows * g.numCols => FlatCell(g, i))
  }

  lemma FlatAt(g: Grid, y: nat, x: nat)
    requires g.Valid() && IsIn(g, y, x)
    ensures Index(g.numCols, y, x) < |Flat(g)| && Flat(g)[Index(g.numCols, y, x)] == Cell(g, y, x)
  {
    IndexInside(g.numRows, g.numCols, y, x);
    IndexJoin(g.numCols, y, x);
  }

  /** What follows a snapshot in the client's buffer: the newline of the line, if any, and the end. */
  predicate Closing(rest: string) {
    rest == [NUL] || rest == ['\n', NUL]
  }

  /** The loader puts character k of newline-free text at flat index k, counted from the cursor. */
  lemma {:induction false} LoadWraps(g: Grid, s: string, rest: string, row: nat, col: nat, y: nat, x: nat)
    requires g.Valid() && g.numCols > 0 && col <= g.numCols && PlainText(s) && Closing(rest)
    requires Index(g.numCols, row, col) + |s| <= g.numRows * g.numCols
    requires Writable(g.numRows, g.numCols, s + rest, 0, row, col)
    requires IsIn(g, y, x)
    ensures var f, i := Index(g.numCols, row, col), Index(g.numCols, y, x);
            Cell(Load(g, s + rest, 0, row, col, NUL), y, x) == if f <= i < f + |s| then s[i - f] else Cell(g, y, x)
    decreases |s|
  {
    if s == "" {
      assert s + rest == rest;
      assert rest == ['\n', NUL] ==> rest[1..] == [NUL];
    } else {
      var t := s + rest;
      assert t[0] == s[0] && t[1..] == s[1..] + rest && Plain(s[0]);
      var r, c := if col >= g.numCols then row + 1 else row, if col >= g.numCols then 0 else col;
      NextRow(g.numCols, row);
      assert Index(g.numCols, r, c) == Index(g.numCols, row, col);
      RowInside(g.numRows, g.numCols, r, c);
      var h := Put(g, r, c, s[0]);
      assert Index(g.numCols, r, c + 1) == Index(g.numCols, r, c) + 1;
      LoadWraps(h, s[1..], rest, r, c + 1, y, x);
      if Index(g.numCols, y, x) == Index(g.numCols, r, c) {
        IndexUnique(g.numCols, y, x, r, c);
      }
    }
  }

  lemma FlatPlain(g: Grid)
    requires g.Valid() && PlainGrid(g)
    ensures PlainText(Flat(g))
  {
    var s := Flat(g);
    forall i | 0 <= i < |s|
      ensures Plain(s[i])
    {
      IndexSplit(g.numRows, g.numCols, i);
      assert Plain(Cell(g, i / g.numCols, i % g.numCols));
    }
  }

  lemma LoadNothing(h: Grid, s: string, rest: string)
    requires h.Valid() && s == "" && Closing(rest)
    ensures Writable(h.numRows, h.numCols, s + rest, 0, 0, 0) && Load(h, s + rest, 0, 0, 0, NUL) == h
  {}

  /** Loading the flat cells of a grid into any grid of its size, with a newline behind them or
      not, gives the grid back. */
  lemma LoadFlat(g: Grid, h: Grid, rest: string)
    requires g.Valid() && PlainGrid(g) && h.Valid() && h.numRows == g.numRows && h.numCols == g.numCols && Closing(rest)
    ensures Writable(g.numRows, g.numCols, Flat(g) + rest, 0, 0, 0)
    ensures Load(h, Flat(g) + rest, 0, 0, 0, NUL) == g
  {
    hide Load, Writable, Flat, Closing;
    var s := Flat(g);
    FlatPlain(g);
    if g.numCols == 0 {
      LoadNothing(h, s, rest);
    } else {
      AlwaysWritable(g.numRows, g.numCols, s + rest, 0, 0, 0);
    }
    var l := Load(h, s + rest, 0, 0, 0, NUL);
    forall y, x | IsIn(g, y, x)
      ensures Cell(l, y, x) == Cell(g, y, x)
    {
      LoadWraps(h, s, rest, 0, 0, y, x);
      FlatAt(g, y, x);
    }
    SameCells(l, g);
  }

  // ---------------------------------------------------------------------------
  // Loading from any column, with a transparent character, line by line
  // ---------------------------------------------------------------------------

  /** Below the grid nothing is loaded. */
  lemma {:induction false} LoadBelow(g: Grid, s: string, x0: nat, row: nat, col: nat, transparent: char)
    requires g.Valid() && x0 < g.numCols && row >= g.numRows && Writable(g.numRows, g.numCols, s, x0, row, col)
    ensures Load(g, s, x0, row, col, transparent) == g
    decreases |s|
  {
    if s != "" && s[0] == '\n' {
      LoadBelow(g, s[1..], x0, row + 1, x0, transparent);
    }
  }

  /** The character of a line that reaches cell (y, x), when the line starts at index f of the columns from x0
      on; a transparent one leaves the cell as it is. */
  function LineCell(g: Grid, line: string, x0: nat, f: nat, transparent: char, y: nat, x: nat): char
    requires g.Valid() && IsIn(g, y, x) && x0 < g.numCols
  {
    if x < x0 then Cell(g, y, x)
    else
      var i := Index(g.numCols - x0, y, x - x0);
      if f <= i < f + |line| && line[i - f] != transparent then line[i - f] else Cell(g, y, x)
  }

  /** The loader puts character k of a line at index k of the columns from the start column on, counted from the
      cursor, and drops what falls below the grid. */
  lemma {:induction false} LoadLine(g: Grid, line: string, x0: nat, row: nat, col: nat, transparent: char, y: nat, x: nat)
    requires g.Valid() && x0 < g.numCols && x0 <= col <= g.numCols && PlainText(line) && IsIn(g, y, x)
    requires Writable(g.numRows, g.numCols, line, x0, row, col)
    ensures Cell(Load(g, line, x0, row, col, transparent), y, x) ==
            LineCell(g, line, x0, Index(g.numCols - x0, row, col - x0), transparent, y, x)
    decreases |line|
  {
    if line != "" {
      var w := g.numCols - x0;
      var r, c := if col >= g.numCols then row + 1 else row, if col >= g.numCols then x0 else col;
      CursorIndex(w, row, col - x0, r, c - x0);
      assert Plain(line[0]);
      hide Index, Put, LineCell;
      if r < g.numRows {
        var h := if line[0] == transparent then g else Put(g, r, c, line[0]);
        LoadLine(h, line[1..], x0, r, c + 1, transparent, y, x);
        LineCellStep(g, line, x0, r, c, transparent, y, x);
      } else {
        LineCellBelow(g, line, x0, r, c, transparent, y, x);
      }
    }
  }

  lemma CursorIndex(w: nat, row: nat, col: nat, r: nat, c: nat)
    requires r == (if col >= w then row + 1 else row) && c == (if col >= w then 0 else col) && col <= w
    ensures Index(w, r, c) == Index(w, row, col) && Index(w, r, c + 1) == Index(w, r, c) + 1
  {
    NextRow(w, row);
  }

  lemma LineCellStep(g: Grid, line: string, x0: nat, r: nat, c: nat, transparent: char, y: nat, x: nat)
    requires g.Valid() && line != "" && x0 <= c < g.numCols && r < g.numRows && IsIn(g, y, x)
    ensures var f := Index(g.numCols - x0, r, c - x0);
      var h := if line[0] == transparent then g else Put(g, r, c, line[0]);
      LineCell(h, line[1..], x0, f + 1, transparent, y, x) == LineCell(g, line, x0, f, transparent, y, x)
  {
    var w := g.numCols - x0;
    if x >= x0 && Index(w, y, x - x0) == Index(w, r, c - x0) {
      IndexUnique(w, y, x - x0, r, c - x0);
    }
    hide Index;
  }

  lemma LineCellBelow(g: Grid, line: string, x0: nat, r: nat, c: nat, transparent: char, y: nat, x: nat)
    requires g.Valid() && x0 <= c < g.numCols && r >= g.numRows && IsIn(g, y, x)
    ensures LineCell(g, line, x0, Index(g.numCols - x0, r, c - x0), transparent, y, x) == Cell(g, y, x)
  {
    if x >= x0 {
      LowerRow(g.numCols - x0, y, r);
    }
  }

  /** The row in which the line behind a line starts that has n characters from the cursor on. */
  function RowBehind(w: nat, row: nat, col: nat, n: nat): nat
    requires w > 0
  {
    if n == 0 then row + 1 else (Index(w, row, col) + n - 1) / w + 1
  }

  lemma RowBehindStep(w: nat, row: nat, col: nat, n: nat)
    requires 0 < w && col <= w && n > 0
    ensures var r, c := if col == w then row + 1 else row, if col == w then 0 else col;
      RowBehind(w, row, col, n) == RowBehind(w, r, c + 1, n - 1) && RowBehind(w, row, col, n) > r
  {
    var r, c := if col == w then row + 1 else row, if col == w then 0 else col;
    NextRow(w, row);
    var i := Index(w, r, c);
    assert i == Index(w, row, col) && Index(w, r, c + 1) == i + 1;
    IndexJoin(w, r, c);
    BelowOf(w, i, n - 1);
  }

  lemma BelowOf(w: nat, i: nat, n: nat)
    requires w > 0
    ensures (i + n) / w >= i / w
  {
    if (i + n) / w < i / w {
      LowerRow(w, (i + n) / w, i / w);
    }
  }

  /** A newline goes to the start column of the row behind the line, so a text is loaded line by line. */
  lemma {:induction false} LoadLineByLine(g: Grid, line: string, rest: string, x0: nat, row: nat, col: nat, transparent: char)
    requires g.Valid() && x0 < g.numCols && x0 <= col <= g.numCols && PlainText(line)
    requires Writable(g.numRows, g.numCols, line, x0, row, col) && Writable(g.numRows, g.numCols, line + "\n" + rest, x0, row, col)
    ensures var below := RowBehind(g.numCols - x0, row, col - x0, |line|);
      && Writable(g.numRows, g.numCols, rest, x0, below, x0)
      && Load(g, line + "\n" + rest, x0, row, col, transparent) ==
           Load(Load(g, line, x0, row, col, transparent), rest, x0, below, x0, transparent)
    decreases |line|
  {
    hide Put, RowBehind;
    var w, all := g.numCols - x0, line + "\n" + rest;
    var below := RowBehind(w, row, col - x0, |line|);
    AlwaysWritable(g.numRows, g.numCols, rest, x0, below, x0);
    if line == "" {
      RowBehindNothing(w, row, col - x0);
      assert all == "\n" + rest && all[1..] == rest;
    } else {
      RowBehindStep(w, row, col - x0, |line|);
      assert all[0] == line[0] && all[1..] == line[1..] + "\n" + rest && Plain(line[0]);
      var r, c := if col >= g.numCols then row + 1 else row, if col >= g.numCols then x0 else col;
      if r < g.numRows {
        var h := if line[0] == transparent then g else Put(g, r, c, line[0]);
        LoadLineByLine(h, line[1..], rest, x0, r, c + 1, transparent);
      } else {
        LoadBelow(g, rest, x0, below, x0, transparent);
      }
    }
  }

  /** The loader gets through as many characters of a line as there are cells left, and through the text behind
      the line if it got through the line. */
  lemma {:induction false} ConsumedLine(numRows: nat, numCols: nat, line: string, x0: nat, row: nat, col: nat)
    requires x0 < numCols && x0 <= col <= numCols && PlainText(line)
    ensures var w := numCols - x0; var f, all := Index(w, row, col - x0), numRows * w;
      Consumed(numRows, numCols, line, x0, row, col) ==
        if f + |line| <= all || line == "" then |line| else if f < all then all - f else 0
    decreases |line|
  {
    if line != "" {
      var w := numCols - x0;
      var r, c := if col >= numCols then row + 1 else row, if col >= numCols then x0 else col;
      CursorIndex(w, row, col - x0, r, c - x0);
      assert Plain(line[0]);
      if r < numRows {
        ConsumedLine(numRows, numCols, line[1..], x0, r, c + 1);
        IndexInside(numRows, w, r, c - x0);
      } else {
        IndexBelow(numRows, w, r, c - x0);
      }
      hide Index;
    }
  }

  lemma IndexBelow(numRows: nat, w: nat, r: nat, c: nat)
    requires r >= numRows
    ensures Index(w, r, c) >= numRows * w
  {
    if r > numRows {
      LowerRow(w, numRows, r);
    }
  }

  lemma {:induction false} ConsumedLineByLine(numRows: nat, numCols: nat, line: string, rest: string, x0: nat, row: nat, col: nat)
    requires x0 < numCols && x0 <= col <= numCols && PlainText(line)
    ensures var n := Consumed(numRows, numCols, line, x0, row, col);
      Consumed(numRows, numCols, line + "\n" + rest, x0, row, col) ==
        if n < |line| then n else n + 1 + Consumed(numRows, numCols, rest, x0, RowBehind(numCols - x0, row, col - x0, n), x0)
    decreases |line|
  {
    hide RowBehind, Index, Consumed;
    var w, all := numCols - x0, line + "\n" + rest;
    if line == "" {
      RowBehindNothing(w, row, col - x0);
      assert all == "\n" + rest;
      ConsumedNewline(numRows, numCols, rest, x0, row, col);
    } else {
      RowBehindStep(w, row, col - x0, |line|);
      assert all[0] == line[0] && all[1..] == line[1..] + "\n" + rest && Plain(line[0]);
      ConsumedStep(numRows, numCols, line, x0, row, col);
      ConsumedStep(numRows, numCols, all, x0, row, col);
      var r, c := if col >= numCols then row + 1 else row, if col >= numCols then x0 else col;
      if r < numRows {
        ConsumedLineByLine(numRows, numCols, line[1..], rest, x0, r, c + 1);
      }
    }
  }

  lemma ConsumedNewline(numRows: nat, numCols: nat, rest: string, x0: nat, row: nat, col: nat)
    ensures Consumed(numRows, numCols, "", x0, row, col) == 0
    ensures Consumed(numRows, numCols, "\n" + rest, x0, row, col) == 1 + Consumed(numRows, numCols, rest, x0, row + 1, x0)
  {}

  lemma ConsumedStep(numRows: nat, numCols: nat, s: string, x0: nat, row: nat, col: nat)
    requires s != "" && Plain(s[0])
    ensures var r, c := if col >= numCols then row + 1 else row, if col >= numCols then x0 else col;
      Consumed(numRows, numCols, s, x0, row, col) == if r >= numRows then 0 else 1 + Consumed(numRows, numCols, s[1..], x0, r, c + 1)
  {}

  lemma RowBehindNothing(w: nat, row: nat, col: nat)
    requires w > 0
    ensures RowBehind(w, row, col, 0) == row + 1
  {}

  // ---------------------------------------------------------------------------
  // Printing
  // ---------------------------------------------------------------------------

  /** A printed grid is its rows end to end, each with a newline behind it. */
  lemma PrintAt(g: Grid, y: nat, x: nat)
    requires g.Valid() && y < g.numRows && x <= g.numCols
    ensures |Print(g)| == g.numRows * (g.numCols + 1)
    ensures Index(g.numCols + 1, y, x) < |Print(g)|
    ensures Print(g)[Index(g.numCols + 1, y, x)] == if x < g.numCols then Cell(g, y, x) else '\n'
  {
    JoinAt(g.rows, g.numCols, y, x);
  }

  lemma {:induction false} JoinAt(lines: seq<string>, width: nat, y: nat, x: nat)
    requires y < |lines| && x <= width && forall k :: 0 <= k < |lines| ==> |lines[k]| == width
    ensures |Join(lines)| == |lines| * (width + 1) && Index(width + 1, y, x) < |Join(lines)|
    ensures Join(lines)[Index(width + 1, y, x)] == if x < width then lines[y][x] else '\n'
    decreases |lines|
  {
    JoinLength(lines, width);
    JoinLength(lines[1..], width);
    IndexInside(|lines|, width + 1, y, x);
    assert Join(lines) == lines[0] + "\n" + Join(lines[1..]);
    if y > 0 {
      JoinAt(lines[1..], width, y - 1, x);
      assert Index(width + 1, y, x) == Index(width + 1, y - 1, x) + (width + 1);
    }
  }

  lemma {:induction false} JoinLength(lines: seq<string>, width: nat)
    requires forall k :: 0 <= k < |lines| ==> |lines[k]| == width
    ensures |Join(lines)| == |lines| * (width + 1)
  {
    if lines != [] {
      JoinLength(lines[1..], width);
    }
  }

  /** Printed text with a row ends with a newline, trimmed or not. */
  lemma PrintEnds(g: Grid)
    requires g.Valid() && g.numRows > 0
    ensures Print(g) != "" && Print(g)[|Print(g)| - 1] == '\n'
    ensures PrintTrim(g) != "" && PrintTrim(g)[|PrintTrim(g)| - 1] == '\n'
  {
    JoinEnds(g.rows);
    JoinEnds(TrimLines(g.rows));
  }

  lemma {:induction false} JoinEnds(lines: seq<string>)
    requires lines != []
    ensures Join(lines) != "" && Join(lines)[|Join(lines)| - 1] == '\n'
  {
    if |lines| > 1 {
      JoinEnds(lines[1..]);
    }
  }
}
