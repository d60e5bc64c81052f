/** Optional values. */
module Wrappers {

  datatype Option<+T> = None | Some(value: T)
}

/** Characters as the C library classifies them in its default locale. */
module Chars {

  const NUL: char := 0 as char

  predicate IsDigit(c: char) { '0' <= c <= '9' }

  predicate IsSpace(c: char) { c == ' ' || 9 <= c as int <= 13 }

  predicate IsPrintable(c: char) { ' ' <= c <= '~' }

  /** The characters in front of the first NUL. */
  function CStr(s: seq<char>): (t: string)
    ensures |t| <= |s| && t == s[..|t|] && NUL !in t && (|t| < |s| ==> s[|t|] == NUL)
  {
    if s == [] || s[0] == NUL then [] else [s[0]] + CStr(s[1..])
  }
}

/** Numbers in decimal notation. */
module Decimals {
  import opened Chars

  function Power10(k: nat): (p: nat)
    ensures p > 0
  {
    if k == 0 then 1 else 10 * Power10(k - 1)
  }

  predicate IsNumeral(s: string) {
    s != "" && forall k :: 0 <= k < |s| ==> IsDigit(s[k])
  }

  function Digit(c: char): (d: nat)
    requires IsDigit(c)
    ensures d < 10
  {
    c as int - '0' as int
  }

  /** The number that digits stand for. */
  function Number(s: string): nat
    requires forall k :: 0 <= k < |s| ==> IsDigit(s[k])
  {
    if s == "" then 0 else 10 * Number(s[..|s| - 1]) + Digit(s[|s| - 1])
  }

  function DigitChar(d: nat): (c: char)
    requires d < 10
    ensures IsDigit(c) && Digit(c) == d
  {
    ('0' as int + d) as char
  }

  function ToDecimal(n: nat): (s: string)
    ensures s != "" && forall k :: 0 <= k < |s| ==> IsDigit(s[k])
  {
    if n < 10 then [DigitChar(n)] else ToDecimal(n / 10) + [DigitChar(n % 10)]
  }

  lemma {:induction false} DecimalLength(n: nat, digits: nat, limit: nat)
    requires digits > 0 && limit == Power10(digits) && n < limit
    ensures |ToDecimal(n)| <= digits
    decreases digits
  {
    if n >= 10 {
      if digits == 1 {
        assert false;
      } else {
        DecimalLength(n / 10, digits - 1, limit / 10);
      }
    }
  }

  /** The decimal notation of a number stands for it. */
  lemma {:induction false} NumberOfDecimal(n: nat)
    ensures IsNumeral(ToDecimal(n)) && Number(ToDecimal(n)) == n
  {
    var s := ToDecimal(n);
    if n >= 10 {
      NumberOfDecimal(n / 10);
      assert s[..|s| - 1] == ToDecimal(n / 10);
    } else {
      assert s[..0] == "";
    }
  }
}
