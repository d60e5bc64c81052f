/** The growable string of the argument library, whose record of its length is repaired only when it is needed. */
module DynStrings {
  import opened Chars

  const ARG_DSTR_SIZE := 200
  const START_VSNBUFF := 16

  // ---------------------------------------------------------------------------
  // C strings in buffers
  // ---------------------------------------------------------------------------

  /** The buffer has a terminator. */
  ghost predicate Terminated(s: seq<char>) {
    |CStr(s)| < |s|
  }

  lemma CStrIs(s: seq<char>, n: nat)
    requires n < |s| && s[n] == NUL && NUL !in s[..n]
    ensures CStr(s) == s[..n] && Terminated(s)
  {}

  lemma EmptyAtNul(s: seq<char>)
    requires s != [] && s[0] == NUL
    ensures CStr(s) == "" && Terminated(s)
  {}

  lemma TerminatedLength(s: seq<char>)
    requires Terminated(s)
    ensures |CStr(s)| < |s|
  {}

  method StrLen(a: array<char>) returns (n: nat)
    requires Terminated(a[..])
    ensures n == |CStr(a[..])|
  {
    n := 0;
    while a[n] != NUL
      invariant n <= |CStr(a[..])|
      decreases a.Length - n
    {
      n := n + 1;
    }
  }

  /** Copies the string in src, with its terminator, to position n of dst. */
  method StrCpyAt(dst: array<char>, n: nat, src: array<char>)
    requires dst != src && Terminated(src[..]) && n + |CStr(src[..])| < dst.Length
    modifies dst
    ensures dst[..n] == old(dst[..n])
    ensures dst[n..n + |CStr(src[..])|] == CStr(src[..]) && dst[n + |CStr(src[..])|] == NUL
  {
    ghost var text := CStr(src[..]);
    var i := 0;
    while src[i] != NUL
      invariant i <= |text|
      invariant dst[..n] == old(dst[..n]) && dst[n..n + i] == text[..i]
      decreases src.Length - i
    {
      dst[n + i] := src[i];
      i := i + 1;
    }
    dst[n + i] := NUL;
  }

  method StrCpy(dst: array<char>, src: array<char>)
    requires dst != src && Terminated(src[..]) && |CStr(src[..])| < dst.Length
    modifies dst
    ensures CStr(dst[..]) == CStr(src[..]) && Terminated(dst[..])
  {
    ghost var n := |CStr(src[..])|;
    StrCpyAt(dst, 0, src);
    assert dst[..n] == dst[0..n];
    CStrIs(dst[..], n);
  }

  /** Appends the string in src to the one in dst. */
  method StrNCat(dst: array<char>, src: array<char>)
    requires dst != src && Terminated(src[..]) && Terminated(dst[..])
    requires |CStr(dst[..])| + |CStr(src[..])| < dst.Length
    modifies dst
    ensures CStr(dst[..]) == old(CStr(dst[..])) + CStr(src[..]) && Terminated(dst[..])
  {
    ghost var a, b := CStr(dst[..]), CStr(src[..]);
    var n := StrLen(dst);
    StrCpyAt(dst, n, src);
    assert dst[..n + |b|] == dst[..n] + dst[n..n + |b|];
    CStrIs(dst[..], n + |b|);
  }

  // ---------------------------------------------------------------------------
  // The string
  // ---------------------------------------------------------------------------

  datatype FreeProc = STATIC | VOLATILE | DYNAMIC | Callback(id: int)

  class DynString {
    const sbuf: array<char>
    var data: array<char>
    var freeProc: FreeProc
    var appendData: array?<char>
    var appendDataSize: nat
    var appendUsed: nat
    /** The allocated buffers that this string has to release. */
    ghost var live: set<array<char>>

    ghost predicate Valid()
      reads this, data
    {
      && sbuf.Length == ARG_DSTR_SIZE + 1
      && Terminated(data[..])
      && (appendData == null || data == appendData)
      && appendDataSize == (if appendData == null then 0 else appendData.Length)
      && (appendData != null ==> freeProc == STATIC && appendUsed <= |CStr(data[..])|)
      && freeProc != VOLATILE
      && live == (if appendData == null && freeProc == STATIC then {} else {data})
      && sbuf !in live
    }

    /** The string, as a caller sees it. */
    ghost function Text(): string
      reads this, data
    {
      CStr(data[..])
    }

    constructor ()
      ensures Valid() && Text() == "" && live == {} && fresh(sbuf) && data == sbuf
    {
      var buffer := new char[ARG_DSTR_SIZE + 1](_ => NUL);
      sbuf, data := buffer, buffer;
      freeProc, appendData, appendDataSize, appendUsed, live := STATIC, null, 0, 0, {};
    }

    /** Releases a buffer, which must be one that is still to be released. */
    ghost method XFree(buffer: array<char>)
      requires buffer in live
      modifies this`live
      ensures live == old(live) - {buffer}
    {
      live := live - {buffer};
    }

    /** Releases what the string was set to. */
    method Free()
      requires freeProc != STATIC ==> data in live
      modifies this`live, this`freeProc
      ensures freeProc == STATIC && live == (if old(freeProc) == STATIC then old(live) else old(live) - {data})
    {
      if freeProc != STATIC {
        XFree(data);
        freeProc := STATIC;
      }
    }

    method DropAppendBuffer()
      requires appendData != null && appendDataSize > 0 ==> appendData in live
      modifies this`live, this`appendData, this`appendDataSize
      ensures if old(appendData) != null && old(appendDataSize) > 0
              then appendData == null && appendDataSize == 0 && live == old(live) - {old(appendData)}
              else appendData == old(appendData) && appendDataSize == old(appendDataSize) && live == old(live)
    {
      if appendData != null && appendDataSize > 0 {
        XFree(appendData);
        appendData := null;
        appendDataSize := 0;
      }
    }

    method Reset()
      requires Valid()
      modifies this, sbuf
      ensures Valid() && Text() == "" && live == {}
    {
      Free();
      DropAppendBuffer();
      data := sbuf;
      sbuf[0] := NUL;
    }

    /** Sets the string to what str holds. A VOLATILE str is copied; any other one is kept as it is. */
    method Set(str: array?<char>, proc: FreeProc)
      requires Valid() && (str != null ==> str != sbuf && Terminated(str[..]))
      requires str != null && proc != VOLATILE ==> str !in live && str != data
      modifies this, sbuf
      ensures Valid() && Text() == (if str == null then "" else old(CStr(str[..])))
      ensures str != null && proc != VOLATILE ==> data == str && freeProc == proc
      ensures str == null || (proc == VOLATILE && |old(CStr(str[..]))| <= ARG_DSTR_SIZE) ==> data == sbuf && freeProc == STATIC
      ensures str != null && proc == VOLATILE && |old(CStr(str[..]))| > ARG_DSTR_SIZE ==> fresh(data) && freeProc == DYNAMIC
    {
      hide CStr, Terminated;
      TerminatedLength(data[..]);
      var oldFreeProc, oldResult := freeProc, data;
      if str == null {
        sbuf[0] := NUL;
        EmptyAtNul(sbuf[..]);
        data := sbuf;
        freeProc := STATIC;
      } else if proc == VOLATILE {
        var length := StrLen(str);
        if length > ARG_DSTR_SIZE {
          data := new char[length + 1];
          live := live + {data};
          freeProc := DYNAMIC;
        } else {
          data := sbuf;
          freeProc := STATIC;
        }
        StrCpy(data, str);
      } else {
        data := str;
        freeProc := proc;
        if proc != STATIC {
          live := live + {str};
        }
      }
      if oldFreeProc != STATIC && oldResult != data {
        XFree(oldResult);
      }
      DropAppendBuffer();
    }

    /** Appends what str holds. */
    method Cat(str: array<char>)
      requires Valid() && Terminated(str[..]) && str !in live
      modifies this, live
      ensures Valid() && Text() == old(Text()) + old(CStr(str[..]))
      ensures data in old(live) || fresh(data)
    {
      hide CStr, Terminated;
      var length := StrLen(str);
      SetupAppendBuf(length + 1);
      StrNCat(data, str);
    }

    /** Makes the append buffer the string's buffer, with room for newSpace more characters. */
    method SetupAppendBuf(newSpace: nat)
      requires Valid()
      modifies this, live
      ensures Valid() && Text() == old(Text())
      ensures data == appendData && data in live && (data in old(live) || fresh(data))
      ensures |Text()| + newSpace < appendDataSize && appendUsed == |Text()|
      ensures var total := newSpace + |old(Text())|;
              appendDataSize == if total < old(appendDataSize) then old(appendDataSize) else if total < 100 then 200 else 2 * total
    {
      hide CStr, Terminated;
      RepairUsed();
      var totalSpace := newSpace + appendUsed;
      if totalSpace >= appendDataSize {
        totalSpace := if totalSpace < 100 then 200 else totalSpace * 2;
        MoveToBuffer(totalSpace);
      } else if data != appendData {
        // Not reached: an append buffer is always the buffer of the string.
        assert false;
      }
      Free();
      data := appendData;
    }

    /** Finds the length again if the record of it is stale. */
    method RepairUsed()
      requires Valid()
      modifies this`appendUsed
      ensures Valid() && appendUsed == |Text()|
    {
      hide CStr;
      if data != appendData {
        if appendDataSize > 500 {
          // Not reached, for the same reason.
          assert false;
        }
        appendUsed := StrLen(data);
      } else if data[appendUsed] != NUL {
        appendUsed := StrLen(data);
      }
    }

    /** Copies the string to a new append buffer, in place of the old one. */
    method MoveToBuffer(totalSpace: nat)
      requires Valid() && totalSpace > |Text()|
      modifies this`appendData, this`appendDataSize, this`live
      ensures fresh(appendData) && appendData.Length == appendDataSize == totalSpace
      ensures Terminated(appendData[..]) && CStr(appendData[..]) == Text()
      ensures live == (if freeProc == STATIC then {appendData} else {data, appendData})
    {
      hide CStr, Terminated;
      var newbuf := new char[totalSpace];
      StrCpy(newbuf, data);
      live := live + {newbuf};
      if appendData != null {
        XFree(appendData);
      }
      appendData := newbuf;
      appendDataSize := totalSpace;
    }

    /** Appends formatted text, which a bounded print has cut off at n characters until n was large enough. */
    method CatF(fmtLength: nat, formatted: string)
      requires Valid() && NUL !in formatted
      modifies this, live
      ensures Valid() && Text() == old(Text()) + formatted
      ensures data in old(live) || fresh(data)
    {
      hide CStr, Terminated;
      var n := 2 * fmtLength;
      if n < START_VSNBUFF {
        n := START_VSNBUFF;
      }
      var buff := BoundedPrint(n, formatted);
      while true
        invariant n > 0 && fresh(buff) && Terminated(buff[..])
        invariant CStr(buff[..]) == if |formatted| <= n then formatted else formatted[..n]
        modifies {}
        decreases |formatted| + 1 - n
      {
        var length := StrLen(buff);
        if length < n {
          break;
        }
        n := if |formatted| > n then |formatted| else n + n;
        buff := BoundedPrint(n, formatted);
      }
      Cat(buff);
    }

    /** Any run of operations leaves the last text set followed by what was appended to it since. */
    method Run(ops: seq<Op>)
      requires Valid() && forall op :: op in ops ==> NUL !in op.Argument()
      modifies this, sbuf, live
      ensures Valid() && Text() == Replay(old(Text()), ops)
    {
      for i := 0 to |ops|
        invariant Valid() && fresh(live - old(live))
        invariant Replay(Text(), ops[i..]) == Replay(old(Text()), ops)
      {
        Perform(ops[i]);
        assert ops[i..][1..] == ops[i + 1..];
      }
    }

    method Perform(op: Op)
      requires Valid() && NUL !in op.Argument()
      modifies this, sbuf, live
      ensures Valid() && Text() == Effect(old(Text()), op)
      ensures fresh(live - old(live))
    {
      hide CStr, Terminated;
      match op
      case Clear => Set(null, STATIC);
      case Assign(text, proc) =>
        var str := Buffer(text);
        Set(str, proc);
      case Append(text) =>
        var str := Buffer(text);
        Cat(str);
      case Format(fmtLength, text) => CatF(fmtLength, text);
      case Reset => this.Reset();
    }
  }

  /** Prints text into a new buffer, at most n characters of it. */
  method BoundedPrint(n: nat, text: string) returns (buff: array<char>)
    requires NUL !in text
    ensures fresh(buff) && Terminated(buff[..])
    ensures CStr(buff[..]) == if |text| <= n then text else text[..n]
  {
    buff := Buffer(if |text| <= n then text else text[..n]);
  }

  /** A new buffer that holds text. */
  method Buffer(text: string) returns (buff: array<char>)
    requires NUL !in text
    ensures fresh(buff) && CStr(buff[..]) == text && Terminated(buff[..])
  {
    buff := new char[|text| + 1](i requires 0 <= i <= |text| => if i < |text| then text[i] else NUL);
    assert buff[..][..|text|] == text;
    CStrIs(buff[..], |text|);
  }

  /** What can be done to a string: `Assign` sets it with any release procedure, copied or not. */
  datatype Op =
    | Clear
    | Assign(text: string, proc: FreeProc)
    | Append(text: string)
    | Format(fmtLength: nat, text: string)
    | Reset
  {
    function Argument(): string {
      match this
      case Clear => ""
      case Assign(text, _) => text
      case Append(text) => text
      case Format(_, text) => text
      case Reset => ""
    }
  }

  ghost function Effect(text: string, op: Op): string {
    match op
    case Clear => ""
    case Assign(t, _) => t
    case Append(t) => text + t
    case Format(_, t) => text + t
    case Reset => ""
  }

  ghost function Replay(text: string, ops: seq<Op>): string
    decreases |ops|
  {
    if ops == [] then text else Replay(Effect(text, ops[0]), ops[1..])
  }
}
