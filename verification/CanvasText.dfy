/** The canvas operations on text: loading, reading files in one or two passes, printing,
    serializing and comparing. */
module CanvasText {
  import opened Chars
  import opened Grids
  import opened GridText
  import opened GridFlat
  import opened Canvases

  /** One character of a text: a newline, one that does not fit any more, or one to write. */
  lemma LoadTurn(g: Grid, s: string, x0: nat, row: nat, col: nat, transparent: char)
    requires g.Valid() && s != "" && s[0] != NUL && Writable(g.numRows, g.numCols, s, x0, row, col)
    ensures
      if s[0] == '\n' then
        && Writable(g.numRows, g.numCols, s[1..], x0, row + 1, x0)
        && Load(g, s, x0, row, col, transparent) == Load(g, s[1..], x0, row + 1, x0, transparent)
        && Consumed(g.numRows, g.numCols, s, x0, row, col) == 1 + Consumed(g.numRows, g.numCols, s[1..], x0, row + 1, x0)
      else
        var r, c := if col >= g.numCols then row + 1 else row, if col >= g.numCols then x0 else col;
        if r >= g.numRows then
          Load(g, s, x0, row, col, transparent) == g && Consumed(g.numRows, g.numCols, s, x0, row, col) == 0
        else
          && c < g.numCols && Writable(g.numRows, g.numCols, s[1..], x0, r, c + 1)
          && Load(g, s, x0, row, col, transparent)
             == Load(if s[0] == transparent then g else Put(g, r, c, s[0]), s[1..], x0, r, c + 1, transparent)
          && Consumed(g.numRows, g.numCols, s, x0, row, col) == 1 + Consumed(g.numRows, g.numCols, s[1..], x0, r, c + 1)
  {}

  lemma LoadEnd(g: Grid, s: string, x0: nat, row: nat, col: nat, transparent: char)
    requires g.Valid() && s != "" && s[0] == NUL
    ensures Writable(g.numRows, g.numCols, s, x0, row, col) && Load(g, s, x0, row, col, transparent) == g
    ensures Consumed(g.numRows, g.numCols, s, x0, row, col) == 0
  {}

  /** Loads a C string at (y, x), skipping a transparent character; returns how far it got. */
  method LoadStrYXC(canvas: Canvas, str: string, y: nat, x: nat, transparent: char) returns (i: nat)
    requires canvas.Valid() && NUL in str && Writable(canvas.numRows, canvas.numCols, str, x, y, x)
    modifies canvas.cells
    ensures canvas.Value() == Load(old(canvas.Value()), str, x, y, x, transparent)
    ensures i == Consumed(canvas.numRows, canvas.numCols, str, x, y, x)
  {
    hide Load, Writable, Consumed, Put;
    var col: nat, row: nat := x, y;
    i := 0;
    ghost var whole := Load(canvas.Value(), str, x, y, x, transparent);
    assert str[0..] == str;
    while str[i] != NUL
      invariant i < |str| && NUL in str[i..]
      invariant Writable(canvas.numRows, canvas.numCols, str[i..], x, row, col)
      invariant Load(canvas.Value(), str[i..], x, row, col, transparent) == whole
      invariant Consumed(canvas.numRows, canvas.numCols, str, x, y, x)
             == i + Consumed(canvas.numRows, canvas.numCols, str[i..], x, row, col)
      decreases |str| - i
    {
      assert str[i..][0] == str[i] && str[i..][1..] == str[i + 1..];
      LoadTurn(canvas.Value(), str[i..], x, row, col, transparent);
      if col >= canvas.numCols || str[i] == '\n' {
        row := row + 1;
        col := x;
        if str[i] == '\n' {
          i := i + 1;
          continue;
        }
      }
      if row >= canvas.numRows {
        return;
      }
      if str[i] != transparent {
        canvas.SetCharYX(row, col, str[i]);
      }
      col := col + 1;
      i := i + 1;
    }
    LoadEnd(canvas.Value(), str[i..], x, row, col, transparent);
  }

  /** Loads a C string at the top left, skipping nothing. */
  method LoadStr(canvas: Canvas, str: string) returns (i: nat)
    requires canvas.Valid() && NUL in str && Writable(canvas.numRows, canvas.numCols, str, 0, 0, 0)
    modifies canvas.cells
    ensures canvas.Value() == Load(old(canvas.Value()), str, 0, 0, 0, NUL)
    ensures i == Consumed(canvas.numRows, canvas.numCols, str, 0, 0, 0)
  {
    i := LoadStrYXC(canvas, str, 0, 0, NUL);
  }

  /** Reads a file in two passes: one to measure it, one to fill a buffer of its size. */
  method ReadF(file: string) returns (canvas: Canvas)
    ensures fresh(canvas) && fresh(canvas.cells) && canvas.Valid() && canvas.Value() == ReadGrid(file)
  {
    var numLines, lineLength, maxLength, numChars := 0, 0, 0, 0;
    assert file[0..] == file;
    while numChars < |file|
      invariant numChars <= |file|
      invariant numLines + NumLines(file[numChars..]) == NumLines(file)
      invariant GridText.Max(maxLength, Longest(file[numChars..], lineLength)) == Longest(file, 0)
    {
      var c := file[numChars];
      assert file[numChars..][0] == c && file[numChars..][1..] == file[numChars + 1..];
      numChars := numChars + 1;
      if c == '\n' {
        if lineLength > maxLength {
          maxLength := lineLength;
        }
        lineLength := 0;
        numLines := numLines + 1;
      } else {
        lineLength := lineLength + 1;
      }
    }
    var bufLen := numChars + 1;
    var buffer := new char[bufLen];
    var i := 0;
    while i < bufLen - 1
      invariant i <= |file| && buffer[..i] == file[..i]
    {
      buffer[i] := file[i];
      i := i + 1;
    }
    buffer[i] := NUL;
    assert buffer[..] == file + [NUL];
    canvas := new Canvas(numLines, maxLength);
    RestWritable(NumLines(file), Longest(file, 0), file, 0, 0);
    var n := LoadStr(canvas, buffer[..]);
  }

  /** Reads a stream in one pass, doubling the buffer whenever only one place is left in it. */
  method ReadFNoRewind(file: string) returns (canvas: Canvas)
    ensures fresh(canvas) && fresh(canvas.cells) && canvas.Valid() && canvas.Value() == ReadGrid(file)
  {
    var numLines, lineLength, maxLength, numChars := 0, 0, 0, 0;
    var bufSize := 1024;
    var buffer := new char[bufSize];
    assert file[0..] == file;
    while true
      invariant numChars <= |file| && numChars < bufSize == buffer.Length && bufSize >= 1024 && fresh(buffer)
      invariant buffer[..numChars] == file[..numChars]
      invariant numLines + NumLines(file[numChars..]) == NumLines(file)
      invariant GridText.Max(maxLength, Longest(file[numChars..], lineLength)) == Longest(file, 0)
      decreases |file| - numChars
    {
      if numChars >= bufSize - 1 {
        bufSize := bufSize * 2;
        buffer := Reallocate(buffer, numChars, bufSize);
      }
      if numChars == |file| {
        buffer[numChars] := NUL;
        break;
      }
      var c := file[numChars];
      assert file[numChars..][0] == c && file[numChars..][1..] == file[numChars + 1..];
      buffer[numChars] := c;
      numChars := numChars + 1;
      if c == '\n' {
        if lineLength > maxLength {
          maxLength := lineLength;
        }
        lineLength := 0;
        numLines := numLines + 1;
      } else {
        lineLength := lineLength + 1;
      }
    }
    assert buffer[..numChars + 1] == file + [NUL];
    canvas := new Canvas(numLines, maxLength);
    RestWritable(NumLines(file), Longest(file, 0), file, 0, 0);
    var n := LoadStr(canvas, buffer[..numChars + 1]);
  }

  /** A larger buffer with the same beginning. */
  method Reallocate(buffer: array<char>, used: nat, size: nat) returns (bigger: array<char>)
    requires used <= buffer.Length && used <= size
    ensures fresh(bigger) && bigger.Length == size && bigger[..used] == buffer[..used]
  {
    bigger := new char[size];
    for i := 0 to used
      invariant bigger[..i] == buffer[..i]
    {
      bigger[i] := buffer[i];
    }
  }

  /** The characters of one row. */
  method PrintRow(canvas: Canvas, i: nat) returns (out: string)
    requires canvas.Valid() && i < canvas.numRows
    ensures out == canvas.Value().rows[i]
  {
    ghost var g := canvas.Value();
    out := "";
    for j := 0 to canvas.numCols
      invariant out == g.rows[i][..j]
    {
      assert Cell(g, i, j) == canvas.cells[i, j];
      out := out + [canvas.cells[i, j]];
    }
  }

  lemma JoinTurn(lines: seq<string>, i: nat)
    requires i < |lines|
    ensures Join(lines[i..]) == lines[i] + "\n" + Join(lines[i + 1..])
  {}

  /** Prints every row with a newline behind it; returns the text and how much was printed. */
  method FPrint(canvas: Canvas) returns (out: string, total: nat)
    requires canvas.Valid()
    ensures out == Print(canvas.Value()) && total == |out|
  {
    hide Join;
    ghost var g := canvas.Value();
    out, total := "", 0;
    assert g.rows[0..] == g.rows;
    for i := 0 to canvas.numRows
      invariant total == |out| && Print(g) == out + Join(g.rows[i..])
    {
      JoinTurn(g.rows, i);
      var row := PrintRow(canvas, i);
      out, total := out + row, total + |row|;
      out, total := out + "\n", total + 1;
    }
    assert g.rows[canvas.numRows..] == [];
    EmptyJoin();
  }

  function Repeat(c: char, n: nat): string { seq(n, _ => c) }

  /** Prints a character several times. */
  method FPrintCR(c: char, num: nat) returns (out: string)
    ensures out == Repeat(c, num)
  {
    out := "";
    for i := 0 to num
      invariant out == Repeat(c, i)
    {
      out := out + [c];
    }
  }

  /** Of s, out has been printed and only that many spaces have been held back. */
  ghost predicate Held(s: string, out: string, trailing: nat) {
    out == TrimLine(s) && s == out + Repeat(' ', trailing)
  }

  lemma HeldNone(s: string)
    requires s == ""
    ensures Held(s, "", 0)
  {}

  lemma HeldSpace(s: string, out: string, trailing: nat)
    requires Held(s, out, trailing)
    ensures Held(s + [' '], out, trailing + 1)
  {}

  lemma HeldOther(s: string, out: string, trailing: nat, c: char)
    requires Held(s, out, trailing) && c != ' '
    ensures Held(s + [c], out + Repeat(' ', trailing) + [c], 0)
    ensures trailing == 0 ==> Held(s + [c], out + [c], 0)
  {}

  /** The characters of one row up to the last that is not a space: spaces are held back until
      another character shows that they are not trailing. */
  method PrintRowTrim(canvas: Canvas, i: nat) returns (out: string)
    requires canvas.Valid() && i < canvas.numRows
    ensures out == TrimLine(canvas.Value().rows[i])
  {
    hide Held, TrimLine;
    ghost var row := canvas.Value().rows[i];
    out := "";
    var trailing := 0;
    HeldNone(row[..0]);
    for j := 0 to canvas.numCols
      invariant Held(row[..j], out, trailing)
    {
      var c := canvas.cells[i, j];
      assert Cell(canvas.Value(), i, j) == c;
      assert row[..j + 1] == row[..j] + [c];
      if c == ' ' {
        HeldSpace(row[..j], out, trailing);
        trailing := trailing + 1;
      } else {
        HeldOther(row[..j], out, trailing, c);
        if trailing > 0 {
          var spaces := FPrintCR(' ', trailing);
          out := out + spaces;
          trailing := 0;
        }
        out := out + [c];
      }
    }
    assert row[..canvas.numCols] == row;
    HeldAll(row, out, trailing);
  }

  lemma HeldAll(s: string, out: string, trailing: nat)
    requires Held(s, out, trailing)
    ensures out == TrimLine(s)
  {}

  /** Prints every row without its trailing spaces. */
  method FPrintTrim(canvas: Canvas) returns (out: string, total: nat)
    requires canvas.Valid()
    ensures out == PrintTrim(canvas.Value()) && total == |out|
  {
    hide Join;
    ghost var g := canvas.Value();
    ghost var t := TrimLines(g.rows);
    out, total := "", 0;
    assert t[0..] == t;
    for i := 0 to canvas.numRows
      invariant total == |out| && PrintTrim(g) == out + Join(t[i..])
    {
      JoinTurn(t, i);
      var row := PrintRowTrim(canvas, i);
      out, total := out + row, total + |row|;
      out, total := out + "\n", total + 1;
    }
    assert t[canvas.numRows..] == [];
    EmptyJoin();
  }

  /** The cell at a flat index. */
  method GetCharI(canvas: Canvas, i: nat) returns (c: char)
    requires canvas.Valid() && i < canvas.numRows * canvas.numCols
    ensures c == FlatCell(canvas.Value(), i)
  {
    IndexSplit(canvas.numRows, canvas.numCols, i);
    var row, col := i / canvas.numCols, i % canvas.numCols;
    assert Cell(canvas.Value(), row, col) == canvas.cells[row, col];
    return canvas.cells[row, col];
  }

  /** Writes the cells to a buffer, row by row and without a terminator. */
  method Serialize(canvas: Canvas, buf: array<char>) returns (i: nat)
    requires canvas.Valid() && canvas.numRows * canvas.numCols <= buf.Length
    modifies buf
    ensures i == canvas.numRows * canvas.numCols
    ensures buf[..] == Flat(canvas.Value()) + old(buf[i..])
  {
    hide Flat;
    ghost var g := canvas.Value();
    var size := canvas.numRows * canvas.numCols;
    FlatFacts(g);
    i := 0;
    while i < size
      invariant i <= size && buf[..i] == Flat(g)[..i] && buf[i..] == old(buf[i..])
    {
      var c := GetCharI(canvas, i);
      buf[i] := c;
      i := i + 1;
    }
    assert buf[..] == buf[..i] + buf[i..];
  }

  lemma FlatFacts(g: Grid)
    requires g.Valid()
    ensures |Flat(g)| == g.numRows * g.numCols
    ensures forall i :: 0 <= i < |Flat(g)| ==> Flat(g)[i] == FlatCell(g, i)
  {}

  /** Loads serialized cells. */
  method Deserialize(bytes: string, canvas: Canvas)
    requires canvas.Valid() && NUL in bytes && Writable(canvas.numRows, canvas.numCols, bytes, 0, 0, 0)
    modifies canvas.cells
    ensures canvas.Value() == Load(old(canvas.Value()), bytes, 0, 0, 0, NUL)
  {
    var n := LoadStr(canvas, bytes);
  }

  /** Two grids of one size with the same flat cells are the same. */
  lemma SameFlat(a: Grid, b: Grid)
    requires a.Valid() && b.Valid() && a.numRows == b.numRows && a.numCols == b.numCols
    requires forall i :: 0 <= i < a.numRows * a.numCols ==> FlatCell(a, i) == FlatCell(b, i)
    ensures a == b
  {
    forall y, x | IsIn(a, y, x)
      ensures Cell(a, y, x) == Cell(b, y, x)
    {
      IndexInside(a.numRows, a.numCols, y, x);
      IndexJoin(a.numCols, y, x);
      assert FlatCell(a, Index(a.numCols, y, x)) == FlatCell(b, Index(a.numCols, y, x));
    }
    SameCells(a, b);
  }

  /** Whether two canvases show the same. */
  method Equal(a: Canvas, b: Canvas) returns (eq: bool)
    requires a.Valid() && b.Valid()
    ensures eq <==> a.Value() == b.Value()
  {
    if a.numCols != b.numCols || a.numRows != b.numRows {
      return false;
    }
    var size := a.numRows * a.numCols;
    for i := 0 to size
      invariant forall k :: 0 <= k < i ==> FlatCell(a.Value(), k) == FlatCell(b.Value(), k)
    {
      var c := GetCharI(a, i);
      var d := GetCharI(b, i);
      if c != d {
        return false;
      }
    }
    SameFlat(a.Value(), b.Value());
    return true;
  }

  /** A snapshot: the cells as serialized, as one line, loaded into a canvas of the same size. */
  method Snapshot(canvas: Canvas) returns (copy: Canvas)
    requires canvas.Valid() && PlainGrid(canvas.Value())
    ensures fresh(copy) && copy.Valid() && copy.Value() == canvas.Value()
  {
    var buf := new char[canvas.numRows * canvas.numCols];
    var n := Serialize(canvas, buf);
    copy := new Canvas(canvas.numRows, canvas.numCols);
    LoadFlat(canvas.Value(), copy.Value(), ['\n', NUL]);
    assert buf[..] == Flat(canvas.Value());
    Deserialize(buf[..] + ['\n', NUL], copy);
  }
}
