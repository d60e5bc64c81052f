/** Grids as text: what the loader, the readers and the printers compute, and the round trips
    between them. */
module GridText {
  import opened Chars
  import opened Grids

  // ---------------------------------------------------------------------------
  // Loading text
  // ---------------------------------------------------------------------------

  /** No character would be written right of the grid, which only a start column there can cause. */
  predicate Writable(numRows: nat, numCols: nat, s: string, x0: nat, row: nat, col: nat)
    decreases |s|
  {
    if s == "" || s[0] == NUL then true
    else if s[0] == '\n' then Writable(numRows, numCols, s[1..], x0, row + 1, x0)
    else
      var r, c := if col >= numCols then row + 1 else row, if col >= numCols then x0 else col;
      r >= numRows || (c < numCols && Writable(numRows, numCols, s[1..], x0, r, c + 1))
  }

  /** The grid after loading the rest `s` of a text with the cursor at (row, col); lines start at
      column x0. The text ends at a NUL; writing past the last row ends it early. */
  function Load(g: Grid, s: string, x0: nat, row: nat, col: nat, transparent: char): (h: Grid)
    requires g.Valid() && Writable(g.numRows, g.numCols, s, x0, row, col)
    ensures h.Valid() && h.numRows == g.numRows && h.numCols == g.numCols
    decreases |s|
  {
    if s == "" || s[0] == NUL then g
    else if s[0] == '\n' then Load(g, s[1..], x0, row + 1, x0, transparent)
    else
      var r, c := if col >= g.numCols then row + 1 else row, if col >= g.numCols then x0 else col;
      if r >= g.numRows then g
      else Load(if s[0] == transparent then g else Put(g, r, c, s[0]), s[1..], x0, r, c + 1, transparent)
  }

  /** How many characters the loader gets through. */
  function Consumed(numRows: nat, numCols: nat, s: string, x0: nat, row: nat, col: nat): (n: nat)
    ensures n <= |s|
    decreases |s|
  {
    if s == "" || s[0] == NUL then 0
    else if s[0] == '\n' then 1 + Consumed(numRows, numCols, s[1..], x0, row + 1, x0)
    else
      var r, c := if col >= numCols then row + 1 else row, if col >= numCols then x0 else col;
      if r >= numRows then 0 else 1 + Consumed(numRows, numCols, s[1..], x0, r, c + 1)
  }

  /** Any text can be loaded from a start column inside the grid. */
  lemma {:induction false} AlwaysWritable(numRows: nat, numCols: nat, s: string, x0: nat, row: nat, col: nat)
    requires x0 < numCols
    ensures Writable(numRows, numCols, s, x0, row, col)
    decreases |s|
  {
    if s == "" || s[0] == NUL {
    } else if s[0] == '\n' {
      AlwaysWritable(numRows, numCols, s[1..], x0, row + 1, x0);
    } else {
      var r, c := if col >= numCols then row + 1 else row, if col >= numCols then x0 else col;
      AlwaysWritable(numRows, numCols, s[1..], x0, r, c + 1);
    }
  }

  /** Characters that a line of text can hold. */
  predicate Plain(c: char) { c != '\n' && c != NUL }

  predicate PlainText(s: string) {
    forall k :: 0 <= k < |s| ==> Plain(s[k])
  }

  ghost predicate PlainGrid(g: Grid)
    requires g.Valid()
  {
    forall y, x :: IsIn(g, y, x) ==> Plain(Cell(g, y, x))
  }

  /** Loading never puts a newline or a NUL on the grid. */
  lemma {:induction false} LoadPlain(g: Grid, s: string, x0: nat, row: nat, col: nat, transparent: char)
    requires g.Valid() && Writable(g.numRows, g.numCols, s, x0, row, col) && PlainGrid(g)
    ensures PlainGrid(Load(g, s, x0, row, col, transparent))
    decreases |s|
  {
    if s == "" || s[0] == NUL {
    } else if s[0] == '\n' {
      LoadPlain(g, s[1..], x0, row + 1, x0, transparent);
    } else {
      var r, c := if col >= g.numCols then row + 1 else row, if col >= g.numCols then x0 else col;
      if r < g.numRows {
        var h := if s[0] == transparent then g else Put(g, r, c, s[0]);
        forall y, x | IsIn(h, y, x)
          ensures Plain(Cell(h, y, x))
        {
          assert Plain(Cell(g, y, x));
        }
        LoadPlain(h, s[1..], x0, r, c + 1, transparent);
      }
    }
  }

  // ---------------------------------------------------------------------------
  // Loading whole segments and lines
  // ---------------------------------------------------------------------------

  /** A piece of text written into one row. */
  function Written(g: Grid, row: nat, col: nat, seg: string): (h: Grid)
    requires g.Valid() && row < g.numRows && col + |seg| <= g.numCols
    ensures h.Valid() && h.numRows == g.numRows && h.numCols == g.numCols
  {
    g.(rows := g.rows[row := g.rows[row][..col] + seg + g.rows[row][col + |seg|..]])
  }

  lemma WrittenStep(g: Grid, row: nat, col: nat, seg: string)
    requires g.Valid() && row < g.numRows && col + |seg| <= g.numCols
    ensures seg == "" ==> Written(g, row, col, seg) == g
    ensures seg != "" ==> Written(Put(g, row, col, seg[0]), row, col + 1, seg[1..]) == Written(g, row, col, seg)
  {
    var line := g.rows[row];
    if seg == "" {
      assert line[..col] + seg + line[col..] == line;
    } else {
      var put := line[col := seg[0]];
      assert put[..col + 1] + seg[1..] + put[col + |seg|..] == line[..col] + seg + line[col + |seg|..];
    }
  }

  /** Plain text that fits the rest of the row is written there. */
  lemma {:induction false} LoadSegment(g: Grid, seg: string, rest: string, row: nat, col: nat)
    requires g.Valid() && row < g.numRows && col + |seg| <= g.numCols && PlainText(seg)
    requires Writable(g.numRows, g.numCols, rest, 0, row, col + |seg|)
    ensures Writable(g.numRows, g.numCols, seg + rest, 0, row, col)
    ensures Load(g, seg + rest, 0, row, col, NUL) == Load(Written(g, row, col, seg), rest, 0, row, col + |seg|, NUL)
    decreases |seg|
  {
    hide Written, Put;
    WrittenStep(g, row, col, seg);
    if seg == "" {
      assert seg + rest == rest;
    } else {
      var s := seg + rest;
      assert s[0] == seg[0] && s[1..] == seg[1..] + rest && Plain(seg[0]);
      LoadSegment(Put(g, row, col, seg[0]), seg[1..], rest, row, col + 1);
    }
  }

  /** Lines of text, each ended by a newline. */
  function Join(lines: seq<string>): string {
    if lines == [] then "" else lines[0] + "\n" + Join(lines[1..])
  }

  ghost predicate Fitting(lines: seq<string>, width: nat) {
    forall k :: 0 <= k < |lines| ==> |lines[k]| <= width && PlainText(lines[k])
  }

  /** Lines written into consecutive rows from the left. */
  function WrittenLines(g: Grid, row: nat, lines: seq<string>): (h: Grid)
    requires g.Valid() && row + |lines| <= g.numRows
    requires forall k :: 0 <= k < |lines| ==> |lines[k]| <= g.numCols
    ensures h.Valid() && h.numRows == g.numRows && h.numCols == g.numCols
    decreases |lines|
  {
    if lines == [] then g else WrittenLines(Written(g, row, 0, lines[0]), row + 1, lines[1..])
  }

  lemma LoadNewline(g: Grid, t: string, row: nat, col: nat)
    requires g.Valid() && Writable(g.numRows, g.numCols, t, 0, row + 1, 0)
    ensures Writable(g.numRows, g.numCols, "\n" + t, 0, row, col)
    ensures Load(g, "\n" + t, 0, row, col, NUL) == Load(g, t, 0, row + 1, 0, NUL)
  {}

  lemma {:induction false} LoadLines(g: Grid, lines: seq<string>, rest: string, row: nat)
    requires g.Valid() && row + |lines| <= g.numRows && Fitting(lines, g.numCols)
    requires Writable(g.numRows, g.numCols, rest, 0, row + |lines|, 0)
    ensures Writable(g.numRows, g.numCols, Join(lines) + rest, 0, row, 0)
    ensures Load(g, Join(lines) + rest, 0, row, 0, NUL) == Load(WrittenLines(g, row, lines), rest, 0, row + |lines|, 0, NUL)
    decreases |lines|
  {
    hide Load, Writable, Written;
    if lines == [] {
      assert Join(lines) + rest == rest;
    } else {
      var h := Written(g, row, 0, lines[0]);
      LoadLines(h, lines[1..], rest, row + 1);
      var t := Join(lines[1..]) + rest;
      LoadNewline(h, t, row, |lines[0]|);
      LoadSegment(g, lines[0], "\n" + t, row, 0);
      assert Join(lines) + rest == lines[0] + ("\n" + t);
    }
  }

  /** Row k of the grid that lines are written into. */
  lemma {:induction false} WrittenLinesRow(g: Grid, row: nat, lines: seq<string>, k: nat)
    requires g.Valid() && row + |lines| <= g.numRows && k < g.numRows
    requires forall i :: 0 <= i < |lines| ==> |lines[i]| <= g.numCols
    ensures WrittenLines(g, row, lines).rows[k] ==
            if row <= k < row + |lines| then lines[k - row] + g.rows[k][|lines[k - row]|..] else g.rows[k]
    decreases |lines|
  {
    if lines != [] {
      WrittenLinesRow(Written(g, row, 0, lines[0]), row + 1, lines[1..], k);
    }
  }

  // ---------------------------------------------------------------------------
  // Reading files
  // ---------------------------------------------------------------------------

  function NumLines(s: string): nat {
    if s == "" then 0 else (if s[0] == '\n' then 1 else 0) + NumLines(s[1..])
  }

  function Max(a: nat, b: nat): nat { if a > b then a else b }

  /** The longest line that a newline ends; `cur` characters of the first one have been read. */
  function Longest(s: string, cur: nat): nat {
    if s == "" then 0
    else if s[0] == '\n' then Max(cur, Longest(s[1..], 0))
    else Longest(s[1..], cur + 1)
  }

  lemma {:induction false} LongestAtLeast(s: string, cur: nat)
    requires NumLines(s) > 0
    ensures Longest(s, cur) >= cur
  {
    if s[0] != '\n' {
      LongestAtLeast(s[1..], cur + 1);
    }
  }

  /** The rest of a file fits the grid that was measured for it. */
  lemma {:induction false} RestWritable(numRows: nat, numCols: nat, s: string, row: nat, col: nat)
    requires row + NumLines(s) == numRows && Longest(s, col) <= numCols
    ensures Writable(numRows, numCols, s + [NUL], 0, row, col)
    decreases |s|
  {
    var t := s + [NUL];
    if s != "" {
      assert t[0] == s[0] && t[1..] == s[1..] + [NUL];
      if s[0] == '\n' {
        RestWritable(numRows, numCols, s[1..], row + 1, 0);
      } else if s[0] != NUL && NumLines(s) > 0 {
        LongestAtLeast(s[1..], col + 1);
        RestWritable(numRows, numCols, s[1..], row, col + 1);
      }
    }
  }

  /** The grid read from a file: as many rows as newlines, as wide as the longest line. */
  function ReadGrid(file: string): (g: Grid)
    ensures g.Valid() && g.numRows == NumLines(file) && g.numCols == Longest(file, 0)
  {
    RestWritable(NumLines(file), Longest(file, 0), file, 0, 0);
    Load(Blank(NumLines(file), Longest(file, 0)), file + [NUL], 0, 0, 0, NUL)
  }

  // ---------------------------------------------------------------------------
  // Printing
  // ---------------------------------------------------------------------------

  function Print(g: Grid): string {
    Join(g.rows)
  }

  function TrimLine(s: string): (t: string)
    ensures t <= s && (t != "" ==> t[|t| - 1] != ' ')
    ensures forall k :: |t| <= k < |s| ==> s[k] == ' '
  {
    if s != "" && s[|s| - 1] == ' ' then TrimLine(s[..|s| - 1]) else s
  }

  function TrimLines(lines: seq<string>): (r: seq<string>)
    ensures |r| == |lines|
  {
    seq(|lines|, k requires 0 <= k < |lines| => TrimLine(lines[k]))
  }

  function PrintTrim(g: Grid): string {
    Join(TrimLines(g.rows))
  }

  // ---------------------------------------------------------------------------
  // Round trips
  // ---------------------------------------------------------------------------

  function MaxLen(lines: seq<string>): nat {
    if lines == [] then 0 else Max(|lines[0]|, MaxLen(lines[1..]))
  }

  lemma {:induction false} MaxLenBounds(lines: seq<string>)
    ensures forall k :: 0 <= k < |lines| ==> |lines[k]| <= MaxLen(lines)
    ensures lines != [] ==> exists k :: 0 <= k < |lines| && |lines[k]| == MaxLen(lines)
  {
    if lines != [] {
      MaxLenBounds(lines[1..]);
      forall k | 0 <= k < |lines|
        ensures |lines[k]| <= MaxLen(lines)
      {
        if k > 0 {
          assert lines[1..][k - 1] == lines[k];
        }
      }
      if |lines[0]| != MaxLen(lines) {
        var j :| 0 <= j < |lines[1..]| && |lines[1..][j]| == MaxLen(lines[1..]);
        assert lines[j + 1] == lines[1..][j];
      }
    }
  }

  function Pad(s: string, width: nat): (t: string)
    requires |s| <= width
    ensures |t| == width && s <= t
  {
    s + seq(width - |s|, _ => ' ')
  }

  lemma {:induction false} NumLinesSegment(seg: string, rest: string)
    requires PlainText(seg)
    ensures NumLines(seg + rest) == NumLines(rest)
  {
    if seg == "" {
      assert seg + rest == rest;
    } else {
      assert (seg + rest)[1..] == seg[1..] + rest && Plain(seg[0]);
      NumLinesSegment(seg[1..], rest);
    }
  }

  lemma {:induction false} LongestSegment(seg: string, rest: string, cur: nat)
    requires PlainText(seg)
    ensures Longest(seg + rest, cur) == Longest(rest, cur + |seg|)
    decreases |seg|
  {
    if seg == "" {
      assert seg + rest == rest;
    } else {
      assert (seg + rest)[1..] == seg[1..] + rest && Plain(seg[0]);
      LongestSegment(seg[1..], rest, cur + 1);
    }
  }

  ghost predicate PlainLines(lines: seq<string>) {
    forall k :: 0 <= k < |lines| ==> PlainText(lines[k])
  }

  lemma {:induction false} MeasureLines(lines: seq<string>, tail: string)
    requires PlainLines(lines) && PlainText(tail)
    ensures NumLines(Join(lines) + tail) == |lines| && Longest(Join(lines) + tail, 0) == MaxLen(lines)
  {
    if lines == [] {
      assert Join(lines) + tail == tail + "";
      NumLinesSegment(tail, "");
      LongestSegment(tail, "", 0);
    } else {
      MeasureLines(lines[1..], tail);
      var after := "\n" + (Join(lines[1..]) + tail);
      assert Join(lines) + tail == lines[0] + after && after[1..] == Join(lines[1..]) + tail;
      NumLinesSegment(lines[0], after);
      LongestSegment(lines[0], after, 0);
    }
  }

  function Padded(lines: seq<string>, width: nat): (g: Grid)
    requires forall k :: 0 <= k < |lines| ==> |lines[k]| <= width
    ensures g.Valid()
  {
    Grid(|lines|, width, seq(|lines|, k requires 0 <= k < |lines| => Pad(lines[k], width)))
  }

  /** Behind the last row plain text is not loaded. */
  lemma LoadBehind(g: Grid, tail: string)
    requires g.Valid() && PlainText(tail)
    ensures Writable(g.numRows, g.numCols, tail + [NUL], 0, g.numRows, 0)
    ensures Load(g, tail + [NUL], 0, g.numRows, 0, NUL) == g
  {
    if tail != "" {
      assert Plain(tail[0]) && (tail + [NUL])[0] == tail[0];
    }
  }

  lemma ReadIsWritten(lines: seq<string>, tail: string)
    requires PlainLines(lines) && PlainText(tail)
    requires forall k :: 0 <= k < |lines| ==> |lines[k]| <= MaxLen(lines)
    ensures ReadGrid(Join(lines) + tail) == WrittenLines(Blank(|lines|, MaxLen(lines)), 0, lines)
  {
    hide Load, Writable, WrittenLines, PlainText;
    MeasureLines(lines, tail);
    var blank := Blank(|lines|, MaxLen(lines));
    LoadBehind(blank, tail);
    LoadLines(blank, lines, tail + [NUL], 0);
    LoadBehind(WrittenLines(blank, 0, lines), tail);
    assert Join(lines) + tail + [NUL] == Join(lines) + (tail + [NUL]);
  }

  /** Reading lines of plain text gives them padded to the longest; a last line without newline is lost. */
  lemma ReadLinesAndTail(lines: seq<string>, tail: string)
    requires PlainLines(lines) && PlainText(tail)
    ensures (forall k :: 0 <= k < |lines| ==> |lines[k]| <= MaxLen(lines))
    ensures ReadGrid(Join(lines) + tail) == Padded(lines, MaxLen(lines))
  {
    hide ReadGrid, WrittenLines;
    MaxLenBounds(lines);
    ReadIsWritten(lines, tail);
    var n, m := |lines|, MaxLen(lines);
    var blank := Blank(n, m);
    var g := WrittenLines(blank, 0, lines);
    forall k | 0 <= k < n
      ensures g.rows[k] == Pad(lines[k], m)
    {
      WrittenLinesRow(blank, 0, lines, k);
    }
  }

  lemma ReadLines(lines: seq<string>)
    requires PlainLines(lines)
    ensures (forall k :: 0 <= k < |lines| ==> |lines[k]| <= MaxLen(lines))
    ensures ReadGrid(Join(lines)) == Padded(lines, MaxLen(lines))
  {
    ReadLinesAndTail(lines, "");
    assert Join(lines) + "" == Join(lines);
  }

  lemma PlainRows(g: Grid)
    requires g.Valid()
    ensures PlainGrid(g) <==> PlainLines(g.rows)
  {
    if PlainGrid(g) {
      forall y, x | 0 <= y < g.numRows && 0 <= x < g.numCols
        ensures Plain(g.rows[y][x])
      {
        assert IsIn(g, y, x) && Plain(Cell(g, y, x));
      }
    }
  }

  /** A grid read from a file holds no newline and no NUL. */
  lemma ReadPlain(file: string)
    ensures PlainGrid(ReadGrid(file))
  {
    RestWritable(NumLines(file), Longest(file, 0), file, 0, 0);
    LoadPlain(Blank(NumLines(file), Longest(file, 0)), file + [NUL], 0, 0, 0, NUL);
  }

  /** Reading a printed grid gives the grid back exactly when its cells are plain characters and
      it has a row, or no column either. */
  lemma PrintReadExact(g: Grid)
    requires g.Valid()
    ensures ReadGrid(Print(g)) == g <==> PlainGrid(g) && (g.numRows > 0 || g.numCols == 0)
  {
    PlainRows(g);
    if ReadGrid(Print(g)) == g {
      ReadPlain(Print(g));
    }
    if PlainGrid(g) && (g.numRows > 0 || g.numCols == 0) {
      ReadLines(g.rows);
      MaxLenBounds(g.rows);
      assert MaxLen(g.rows) == g.numCols;
      forall k | 0 <= k < g.numRows
        ensures Pad(g.rows[k], g.numCols) == g.rows[k]
      {
      }
      assert Padded(g.rows, g.numCols).rows == g.rows;
    }
  }

  /** Everything from column w on is blank, and column w - 1 is not. */
  ghost predicate IsInkWidth(g: Grid, w: nat)
    requires g.Valid()
  {
    && w <= g.numCols
    && (forall y, x :: Inked(g, ' ', y, x) ==> x < w)
    && (w > 0 ==> ColInked(g, ' ', w - 1))
  }

  function LeftPart(g: Grid, w: nat): (h: Grid)
    requires g.Valid() && w <= g.numCols
    ensures h.Valid()
  {
    Grid(g.numRows, w, seq(g.numRows, y requires 0 <= y < g.numRows => g.rows[y][..w]))
  }

  lemma TrimmedWidth(g: Grid, w: nat)
    requires g.Valid() && IsInkWidth(g, w)
    ensures MaxLen(TrimLines(g.rows)) == w
  {
    var t := TrimLines(g.rows);
    MaxLenBounds(t);
    forall k | 0 <= k < |t|
      ensures |t[k]| <= w
    {
      if |t[k]| > 0 {
        assert Inked(g, ' ', k, |t[k]| - 1);
      }
    }
    if w > 0 {
      var y :| Inked(g, ' ', y, w - 1);
      assert |t[y]| >= w;
    }
  }

  /** Reading a grid printed without trailing spaces gives it cropped to its rightmost character,
      exactly when its cells are plain characters. */
  lemma PrintTrimReadExact(g: Grid, w: nat)
    requires g.Valid() && IsInkWidth(g, w)
    ensures ReadGrid(PrintTrim(g)) == LeftPart(g, w) <==> PlainGrid(g)
  {
    var t := TrimLines(g.rows);
    PlainRows(g);
    TrimmedWidth(g, w);
    if PlainGrid(g) {
      assert PlainLines(t);
      ReadLines(t);
      forall y | 0 <= y < g.numRows
        ensures Pad(t[y], w) == g.rows[y][..w]
      {
        forall x | 0 <= x < w
          ensures Pad(t[y], w)[x] == g.rows[y][x]
        {
        }
      }
      assert Padded(t, w).rows == LeftPart(g, w).rows;
    }
    if ReadGrid(PrintTrim(g)) == LeftPart(g, w) {
      ReadPlain(PrintTrim(g));
      forall y, x | IsIn(g, y, x)
        ensures Plain(Cell(g, y, x))
      {
        if x < w {
          assert IsIn(LeftPart(g, w), y, x) && Cell(LeftPart(g, w), y, x) == Cell(g, y, x);
        } else {
          assert !Inked(g, ' ', y, x);
        }
      }
    }
  }

  /** The lines of a text; `cur` characters of the first have been read, and text behind the last
      newline is not a line. */
  function Lines(s: string, cur: string): seq<string>
    decreases |s|
  {
    if s == "" then []
    else if s[0] == '\n' then [cur] + Lines(s[1..], "")
    else Lines(s[1..], cur + [s[0]])
  }

  lemma JoinFirst(line: string, lines: seq<string>)
    ensures Join([line] + lines) == line + "\n" + Join(lines)
  {}

  /** The text behind the last newline. */
  function Unended(s: string, cur: string): string
    decreases |s|
  {
    if s == "" then cur
    else if s[0] == '\n' then Unended(s[1..], "")
    else Unended(s[1..], cur + [s[0]])
  }

  lemma {:induction false} UnendedEmpty(s: string, cur: string)
    ensures Unended(s, cur) == "" <==> if s == "" then cur == "" else s[|s| - 1] == '\n'
    decreases |s|
  {
    if s != "" {
      UnendedEmpty(s[1..], if s[0] == '\n' then "" else cur + [s[0]]);
    }
  }

  lemma {:induction false} JoinOfLines(s: string, cur: string)
    ensures Join(Lines(s, cur)) + Unended(s, cur) == cur + s
    decreases |s|
  {
    hide Join;
    if s == "" {
      EmptyJoin();
    } else if s[0] == '\n' {
      JoinOfLines(s[1..], "");
      JoinFirst(cur, Lines(s[1..], ""));
      Glue(cur, Join(Lines(s[1..], "")), Unended(s[1..], ""), s[1..]);
      assert s == "\n" + s[1..];
    } else {
      JoinOfLines(s[1..], cur + [s[0]]);
      assert cur + [s[0]] + s[1..] == cur + s;
    }
  }

  lemma Glue(cur: string, rest: string, last: string, s: string)
    requires rest + last == "" + s
    ensures cur + "\n" + rest + last == cur + ("\n" + s)
  {
    assert rest + last == s;
    assert cur + "\n" + rest + last == cur + ("\n" + (rest + last));
  }

  lemma NothingLeft(ended: string, tail: string, text: string)
    requires ended + tail == "" + text
    ensures ended + tail == text && (ended == text <==> tail == "")
  {
    assert "" + text == text;
    if ended == text {
      assert |tail| == 0;
    }
  }

  lemma EmptyJoin()
    ensures Join([]) == ""
  {}

  lemma {:induction false} PlainOfLines(s: string, cur: string)
    requires PlainText(cur) && NUL !in s
    ensures PlainLines(Lines(s, cur)) && PlainText(Unended(s, cur))
    decreases |s|
  {
    if s != "" {
      PlainOfLines(s[1..], if s[0] == '\n' then "" else cur + [s[0]]);
    }
  }

  lemma {:induction false} TrimSpaces(s: string, n: nat)
    ensures TrimLine(s + seq(n, _ => ' ')) == TrimLine(s)
    decreases n
  {
    var t := s + seq(n, _ => ' ');
    if n == 0 {
      assert t == s;
    } else {
      assert t[|t| - 1] == ' ' && t[..|t| - 1] == s + seq(n - 1, _ => ' ');
      TrimSpaces(s, n - 1);
    }
  }

  /** Reading a text and printing it without trailing spaces removes the trailing spaces of every
      line, and what no newline ends; it changes nothing else. */
  lemma ReadPrintTrim(text: string)
    requires NUL !in text
    ensures PrintTrim(ReadGrid(text)) == Join(TrimLines(Lines(text, "")))
    ensures Join(Lines(text, "")) + Unended(text, "") == text
    ensures Join(Lines(text, "")) == text <==> text == "" || text[|text| - 1] == '\n'
  {
    hide TrimLine, Lines, Join, ReadGrid, Pad, Unended;
    var lines, tail := Lines(text, ""), Unended(text, "");
    JoinOfLines(text, "");
    UnendedEmpty(text, "");
    PlainOfLines(text, "");
    NothingLeft(Join(lines), tail, text);
    ReadLinesAndTail(lines, tail);
    TrimPadded(lines, MaxLen(lines));
  }

  lemma TrimPadded(lines: seq<string>, w: nat)
    requires forall k :: 0 <= k < |lines| ==> |lines[k]| <= w
    ensures TrimLines(Padded(lines, w).rows) == TrimLines(lines)
  {
    hide TrimLine;
    var g := Padded(lines, w);
    forall k | 0 <= k < |lines|
      ensures TrimLine(g.rows[k]) == TrimLine(lines[k])
    {
      TrimSpaces(lines[k], w - |lines[k]|);
    }
  }
}
