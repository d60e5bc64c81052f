/** The line protocol between server and clients: how lines are written, how they are taken apart
    with a tokenizer and a number reader, and that both sides read what was meant. */
module Wire {
  import opened Chars
  import opened Decimals

  // ---------------------------------------------------------------------------
  // Decimal numbers
  // ---------------------------------------------------------------------------

  /** The digits at the start of s, after `acc` has been read. */
  function ReadDigits(s: string, acc: nat): nat {
    if s == "" || !IsDigit(s[0]) then acc else ReadDigits(s[1..], acc * 10 + Digit(s[0]))
  }

  /** The values of the C type `int`. */
  predicate IsInt(i: int) { -0x8000_0000 <= i < 0x8000_0000 }

  /** The C function of this name, which is undefined where the number is not an `int`: white space, a sign,
      and as many digits as there are. */
  function Atoi(s: string): int {
    if s != "" && IsSpace(s[0]) then Atoi(s[1..])
    else if s != "" && s[0] == '-' then 0 - ReadDigits(s[1..], 0) as int
    else if s != "" && s[0] == '+' then ReadDigits(s[1..], 0)
    else ReadDigits(s, 0)
  }

  lemma {:induction false} ReadDigitsAppend(s: string, t: string, acc: nat)
    requires forall k :: 0 <= k < |s| ==> IsDigit(s[k])
    ensures ReadDigits(s + t, acc) == ReadDigits(t, ReadDigits(s, acc))
    decreases |s|
  {
    if s == "" {
      assert s + t == t;
    } else {
      assert (s + t)[1..] == s[1..] + t;
      ReadDigitsAppend(s[1..], t, acc * 10 + Digit(s[0]));
    }
  }

  /** Printing a number and reading it gives it back, whatever else than a digit follows. */
  lemma {:induction false} DecimalRoundTrip(n: nat, rest: string)
    requires rest == "" || !IsDigit(rest[0])
    ensures Atoi(ToDecimal(n) + rest) == n && ReadDigits(ToDecimal(n), 0) == n
    decreases n
  {
    var s := ToDecimal(n);
    if n < 10 {
      assert s == [DigitChar(n)] && s[1..] == "";
    } else {
      DecimalRoundTrip(n / 10, "");
      assert ToDecimal(n / 10) + "" == ToDecimal(n / 10);
      ReadDigitsAppend(ToDecimal(n / 10), [DigitChar(n % 10)], 0);
      assert [DigitChar(n % 10)][1..] == "";
    }
    ReadDigitsAppend(s, rest, 0);
    assert (s + rest)[0] == s[0];
  }

  lemma AtoiNegative(s: string)
    ensures Atoi("-" + s) == 0 - ReadDigits(s, 0) as int
  {
    assert ("-" + s)[1..] == s;
  }

  lemma NoMoreDigits(rest: string, n: nat)
    requires rest == "" || !IsDigit(rest[0])
    ensures ReadDigits(rest, n) == n
  {}

  /** A number as `%d` prints it. */
  function ToSigned(i: int): (s: string)
    ensures s != "" && forall k :: 0 <= k < |s| ==> IsDigit(s[k]) || s[k] == '-'
  {
    if i < 0 then "-" + ToDecimal(-i) else ToDecimal(i)
  }

  lemma SignedRoundTrip(i: int, rest: string)
    requires rest == "" || !IsDigit(rest[0])
    ensures Atoi(ToSigned(i) + rest) == i
  {
    hide ToDecimal, ReadDigits, Atoi;
    if i < 0 {
      var s := ToDecimal(-i);
      DecimalRoundTrip(-i, "");
      ReadDigitsAppend(s, rest, 0);
      NoMoreDigits(rest, -i);
      assert ToSigned(i) == "-" + s;
      AtoiNegative(s + rest);
      assert "-" + s + rest == "-" + (s + rest);
    } else {
      DecimalRoundTrip(i, rest);
    }
  }

  // ---------------------------------------------------------------------------
  // Tokens
  // ---------------------------------------------------------------------------

  /** A token and the text behind the delimiter that ends it. */
  datatype Token = End | Token(text: string, rest: string)

  /** The end of the token that starts at s. */
  function Scan(s: string, delims: string): (n: nat)
    ensures n <= |s|
  {
    if s == "" || s[0] in delims then 0 else 1 + Scan(s[1..], delims)
  }

  /** The next token of a string that ends at a NUL elsewhere: leading delimiters are skipped. */
  function NextToken(s: string, delims: string): Token {
    if s == "" then End
    else if s[0] in delims then NextToken(s[1..], delims)
    else
      var n := Scan(s, delims);
      Token(s[..n], if n < |s| then s[n + 1..] else "")
  }

  lemma {:induction false} ScanToken(t: string, d: char, rest: string, delims: string)
    requires d in delims && forall k :: 0 <= k < |t| ==> t[k] !in delims
    ensures Scan(t + [d] + rest, delims) == |t|
  {
    var s := t + [d] + rest;
    if t != "" {
      assert s[1..] == t[1..] + [d] + rest;
      ScanToken(t[1..], d, rest, delims);
    }
  }

  /** A token in front of a delimiter is read whole. */
  lemma TokenRead(t: string, d: char, rest: string, delims: string)
    requires t != "" && d in delims && forall k :: 0 <= k < |t| ==> t[k] !in delims
    ensures NextToken(t + [d] + rest, delims) == Token(t, rest)
  {
    ScanToken(t, d, rest, delims);
    var s := t + [d] + rest;
    assert s[..|t|] == t && s[|t| + 1..] == rest;
  }

  /** The words between the blanks of a string. */
  function Words(s: string): (w: seq<string>)
    ensures s != "" && s[0] != ' ' ==> w != []
  {
    if s == "" then []
    else if s[0] == ' ' then Words(s[1..])
    else if |s| == 1 || s[1] == ' ' then [[s[0]]] + Words(s[1..])
    else
      var w := Words(s[1..]);
      [[s[0]] + w[0]] + w[1..]
  }

  /** The tokenizer gives the words in turn. */
  lemma {:induction false} NextWord(s: string)
    ensures NextToken(s, " ") == End <==> Words(s) == []
    ensures forall t, rest :: NextToken(s, " ") == Token(t, rest) ==> Words(s) == [t] + Words(rest)
    decreases |s|
  {
    if s != "" {
      NextWord(s[1..]);
      if s[0] != ' ' {
        assert Scan(s, " ") == 1 + Scan(s[1..], " ");
        var n := Scan(s[1..], " ");
        if |s| == 1 || s[1] == ' ' {
          assert n == 0 && s[..1] == [s[0]];
        } else {
          assert NextToken(s[1..], " ") == Token(s[1..][..n], if n < |s[1..]| then s[1..][n + 1..] else "");
          assert s[..n + 1] == [s[0]] + s[1..][..n];
        }
      }
    }
  }

  // ---------------------------------------------------------------------------
  // Lines
  // ---------------------------------------------------------------------------

  function SetLine(y: int, x: int, c: char): string {
    "s " + (ToSigned(y) + " " + (ToSigned(x) + " " + [c, '\n']))
  }

  /** `snprintf` keeps what fits the buffer with its terminator. */
  function Truncated(s: string, size: nat): string
    requires size > 0
  {
    if |s| < size then s else s[..size - 1]
  }

  const SEND_BUF: nat := 50

  /** The line a client sends for a cell it has set. */
  function SendChar(y: int, x: int, c: char): string {
    Truncated(SetLine(y, x, c), SEND_BUF)
  }

  /** Coordinates of 32 bits never overflow the send buffer. */
  lemma SendComplete(y: int, x: int, c: char)
    requires IsInt(y) && IsInt(x)
    ensures SendChar(y, x, c) == SetLine(y, x, c)
  {
    assert Power10(10) == 10000000000 by {
      assert Power10(5) == 100000;
      assert Power10(8) == 1000 * Power10(5);
      assert Power10(10) == 100 * Power10(8);
    }
    DecimalLength(if y < 0 then -y else y, 10, 10000000000);
    DecimalLength(if x < 0 then -x else x, 10, 10000000000);
  }

  /** The string up to its first carriage return or newline. */
  function Stripped(s: string): (t: string)
    ensures t <= s
  {
    if s == "" || s[0] == '\r' || s[0] == '\n' then "" else [s[0]] + Stripped(s[1..])
  }

  lemma {:induction false} StripLine(t: string)
    requires '\r' !in t && '\n' !in t
    ensures Stripped(t + ['\n']) == t
  {
    if t != "" {
      assert (t + ['\n'])[1..] == t[1..] + ['\n'];
      StripLine(t[1..]);
    }
  }

  /** What the server sees of a line: all in front of its first NUL or line end. */
  function Seen(buf: string): string { Stripped(CStr(buf)) }

  /** What a line asks for. `Malformed`: a token is missing that is used without a check. `Undefined`: C does
      not define which number is read. */
  datatype Command = Nothing | Quit | Set(y: int, x: int, c: char) | SendCanvas | Unknown | Malformed | Undefined

  /** The server's reading of a line: the character is the last one of what it sees. */
  function ServerParse(buf: string): Command {
    var s := Seen(buf);
    if s == "" then Nothing
    else
      match NextToken(s, " ")
      case End => Malformed
      case Token(command, rest) =>
        if command == "q" then Quit
        else if command == "s" then ParseSet(rest, s[|s| - 1])
        else if command == "c" then SendCanvas
        else Unknown
  }

  function ParseSet(rest: string, c: char): Command {
    match NextToken(rest, " ")
    case End => Malformed
    case Token(ty, more) =>
      match NextToken(more, " ")
      case End => Malformed
      case Token(tx, _) => if IsInt(Atoi(ty)) && IsInt(Atoi(tx)) then Set(Atoi(ty), Atoi(tx), c) else Undefined
  }

  /** A set command in terms of the words of the line. */
  lemma SetWords(rest: string, c: char)
    ensures ParseSet(rest, c) == var w := Words(rest);
      if |w| < 2 then Malformed else SetCommand(Atoi(w[0]), Atoi(w[1]), c)
  {
    hide Words, NextToken, Atoi;
    NextWord(rest);
    match NextToken(rest, " ")
    case End =>
    case Token(ty, more) => NextWord(more);
  }

  /** The server's reading in terms of the words of the line. */
  lemma ServerWords(line: string)
    ensures ServerParse(line) ==
      var s := Seen(line);
      var w := Words(s);
      if s == "" then Nothing
      else if w == [] then Malformed
      else if w[0] == "q" then Quit
      else if w[0] == "c" then SendCanvas
      else if w[0] != "s" then Unknown
      else if |w| < 3 then Malformed
      else SetCommand(Atoi(w[1]), Atoi(w[2]), s[|s| - 1])
  {
    hide Words, NextToken, Atoi, Stripped, CStr, ParseSet;
    var s := Seen(line);
    NextWord(s);
    match NextToken(s, " ")
    case End =>
    case Token(command, rest) =>
      if s != "" {
        SetWords(rest, s[|s| - 1]);
      }
  }

  /** The client's reading: the character is the one before the newline. */
  function ClientParse(buf: string): Command {
    var line := CStr(buf);
    if |line| < 2 then Malformed
    else
      match NextToken(line, " \n")
      case End => Malformed
      case Token(command, rest) =>
        if command == "s" then ParseSet(rest, line[|line| - 2])
        else if command == "q" then Quit
        else Unknown
  }

  lemma NoSpaceInNumber(i: int)
    ensures forall k :: 0 <= k < |ToSigned(i)| ==> ToSigned(i)[k] !in " " && ToSigned(i)[k] !in " \n"
  {}

  lemma NoBreakInNumber(i: int)
    ensures '\r' !in ToSigned(i) && '\n' !in ToSigned(i)
  {}

  lemma {:induction false} NoNul(s: string)
    requires NUL !in s
    ensures CStr(s) == s
  {
    if s != "" {
      NoNul(s[1..]);
    }
  }

  lemma NumbersHaveNoNul(y: int, x: int)
    ensures NUL !in ToSigned(y) && NUL !in ToSigned(x)
  {}

  /** What a set line says, for any integers. */
  function SetCommand(y: int, x: int, c: char): Command {
    if IsInt(y) && IsInt(x) then Set(y, x, c) else Undefined
  }

  /** The coordinates of a set line are read as written. */
  lemma SetCoordinates(y: int, x: int, tail: string, c: char)
    ensures ParseSet(ToSigned(y) + " " + (ToSigned(x) + " " + tail), c) == SetCommand(y, x, c)
  {
    var ty, tx := ToSigned(y), ToSigned(x);
    NoSpaceInNumber(y);
    NoSpaceInNumber(x);
    TokenRead(ty, ' ', tx + " " + tail, " ");
    TokenRead(tx, ' ', tail, " ");
    SignedRoundTrip(y, "");
    SignedRoundTrip(x, "");
    assert ty + "" == ty && tx + "" == tx;
  }

  /** The server reads from a client's line the cell and character that were sent, a space
      included. */
  lemma ServerReads(y: int, x: int, c: char)
    requires IsPrintable(c)
    ensures ServerParse(SetLine(y, x, c)) == SetCommand(y, x, c)
  {
    hide ToSigned, ParseSet, NextToken, Stripped, CStr;
    var ty, tx := ToSigned(y), ToSigned(x);
    var s := "s" + " " + (ty + " " + (tx + " " + [c]));
    assert SetLine(y, x, c) == s + ['\n'];
    NumbersHaveNoNul(y, x);
    NoNul(s + ['\n']);
    NoBreakInNumber(y);
    NoBreakInNumber(x);
    assert '\r' !in s && '\n' !in s;
    StripLine(s);
    TokenRead("s", ' ', ty + " " + (tx + " " + [c]), " ");
    SetCoordinates(y, x, [c], c);
    assert s[|s| - 1] == c;
  }

  /** A client reads from a relayed line what was set. */
  lemma ClientReads(y: int, x: int, c: char)
    requires c != NUL
    ensures ClientParse(SetLine(y, x, c)) == SetCommand(y, x, c)
  {
    hide ToSigned, ParseSet, NextToken, CStr;
    var ty, tx := ToSigned(y), ToSigned(x);
    var line := "s" + " " + (ty + " " + (tx + " " + [c, '\n']));
    assert SetLine(y, x, c) == line;
    NumbersHaveNoNul(y, x);
    NoNul(line);
    TokenRead("s", ' ', ty + " " + (tx + " " + [c, '\n']), " \n");
    SetCoordinates(y, x, [c, '\n'], c);
    assert line[|line| - 2] == c;
  }

  // ---------------------------------------------------------------------------
  // The handshake
  // ---------------------------------------------------------------------------

  function SizeLine(rows: nat, cols: nat): string {
    "cs " + (ToDecimal(rows) + " " + (ToDecimal(cols) + "\n"))
  }

  datatype Size = NoSize | Size(rows: int, cols: int)

  /** The client's reading of the canvas size. */
  function ParseSize(line: string): Size {
    match NextToken(line, " ")
    case End => NoSize
    case Token(command, rest) =>
      if command != "cs" then NoSize
      else
        match NextToken(rest, " ")
        case End => NoSize
        case Token(rows, more) =>
          match NextToken(more, " ")
          case End => NoSize
          case Token(cols, _) => Size(Atoi(rows), Atoi(cols))
  }

  lemma {:induction false} ScanAll(t: string, delims: string)
    requires forall k :: 0 <= k < |t| ==> t[k] !in delims
    ensures Scan(t, delims) == |t|
  {
    if t != "" {
      ScanAll(t[1..], delims);
    }
  }

  /** The size of the canvas arrives as it was sent. */
  lemma SizeReads(rows: nat, cols: nat)
    ensures ParseSize(SizeLine(rows, cols)) == Size(rows, cols)
  {
    var tr, tc := ToDecimal(rows), ToDecimal(cols);
    NoSpaceInNumber(rows);
    NoSpaceInNumber(cols);
    assert SizeLine(rows, cols) == "cs" + " " + (tr + " " + (tc + "\n"));
    TokenRead("cs", ' ', tr + " " + (tc + "\n"), " ");
    TokenRead(tr, ' ', tc + "\n", " ");
    ScanAll(tc + "\n", " ");
    assert (tc + "\n")[..|tc + "\n"|] == tc + "\n";
    DecimalRoundTrip(rows, "");
    assert tr + "" == tr;
    DecimalRoundTrip(cols, "\n");
  }

  /** Replaces the line ends of a C string in a buffer by NULs. */
  method StripNewline(buf: array<char>, len: nat)
    requires len < buf.Length && buf[len] == NUL && forall k :: 0 <= k < len ==> buf[k] != NUL
    modifies buf
    ensures CStr(buf[..]) == Stripped(old(buf[..len]))
    ensures forall k :: 0 <= k < buf.Length ==>
      buf[k] == if k < len && (old(buf[k]) == '\r' || old(buf[k]) == '\n') then NUL else old(buf[k])
  {
    var i := 0;
    while buf[i] != NUL
      invariant i <= len
      invariant forall k :: i <= k < buf.Length ==> buf[k] == old(buf[k])
      invariant forall k :: 0 <= k < i ==>
        buf[k] == if old(buf[k]) == '\r' || old(buf[k]) == '\n' then NUL else old(buf[k])
      decreases len - i
    {
      if buf[i] == '\r' || buf[i] == '\n' {
        buf[i] := NUL;
      }
      i := i + 1;
    }
    StrippedString(old(buf[..]), buf[..], len, 0);
    assert old(buf[..])[0..len] == old(buf[..len]) && buf[0..] == buf[..];
  }

  lemma {:induction false} StrippedString(was: string, now: string, len: nat, i: nat)
    requires i <= len < |was| == |now| && was[len] == NUL && forall k :: 0 <= k < len ==> was[k] != NUL
    requires forall k :: 0 <= k < |was| ==>
      now[k] == if k < len && (was[k] == '\r' || was[k] == '\n') then NUL else was[k]
    ensures CStr(now[i..]) == Stripped(was[i..len])
    decreases len - i
  {
    if i < len {
      StrippedString(was, now, len, i + 1);
      assert now[i..][1..] == now[i + 1..] && was[i..len][1..] == was[i + 1..len];
    }
  }
}
