/** The bounds of a repetition, which are cut to sixteen bits: what a written quantifier is read as, and when
    that is what it says. */
module RegexBounds {
  import opened Chars
  import opened Decimals
  import opened RegexDecided
  import opened RegexLanguage
  import opened RegexRuns
  import opened RegexSyntax
  import opened Wrappers

  /** The quantifiers: the three signs, and those in braces by their numerals. */
  datatype Written = Any | Plus | Maybe | Exactly(n: string) | AtLeast(lo: string) | Between(lo: string, hi: string)

  predicate IsWritten(w: Written) {
    match w
    case Exactly(n) => IsNumeral(n)
    case AtLeast(lo) => IsNumeral(lo)
    case Between(lo, hi) => IsNumeral(lo) && IsNumeral(hi)
    case _ => true
  }

  function Text(w: Written): (s: string)
    ensures |s| >= 1
  {
    match w
    case Any => "*"
    case Plus => "+"
    case Maybe => "?"
    case Exactly(n) => "{" + n + "}"
    case AtLeast(lo) => "{" + lo + ",}"
    case Between(lo, hi) => "{" + lo + "," + hi + "}"
  }

  /** No numeral has more than nine digits. */
  predicate IsShort(w: Written) {
    match w
    case Exactly(n) => |n| <= 9
    case AtLeast(lo) => |lo| <= 9
    case Between(lo, hi) => |lo| <= 9 && |hi| <= 9
    case _ => true
  }

  /** The counts that a quantifier names. */
  predicate Names(w: Written, n: nat)
    requires IsWritten(w)
  {
    match w
    case Any => true
    case Plus => n > 0
    case Maybe => n <= 1
    case Exactly(m) => n == Number(m)
    case AtLeast(lo) => Number(lo) <= n
    case Between(lo, hi) => Number(lo) <= n <= Number(hi)
  }

  /** What remains of the bounds. */
  function Stored(w: Written): Bounds
    requires IsWritten(w)
  {
    match w
    case Any => Bounds(0, UNBOUNDED)
    case Plus => Bounds(1, UNBOUNDED)
    case Maybe => Bounds(0, 1)
    case Exactly(n) => Bounds(Number(n) % 0x10000, Number(n) % 0x10000)
    case AtLeast(lo) => Bounds(Number(lo) % 0x10000, UNBOUNDED)
    case Between(lo, hi) => Bounds(Number(lo) % 0x10000, Number(hi) % 0x10000)
  }

  // ---------------------------------------------------------------------------
  // Reading a quantifier
  // ---------------------------------------------------------------------------

  /** The pattern has this text at p. */
  predicate Reads(pat: string, p: nat, text: string) {
    p + |text| <= |pat| && pat[p..p + |text|] == text
  }

  lemma ReadsPart(pat: string, p: nat, s: string, t: string)
    requires Reads(pat, p, s + t)
    ensures Reads(pat, p, s) && Reads(pat, p + |s|, t)
  {
    assert pat[p..p + |s|] == (s + t)[..|s|] == s;
    assert pat[p + |s|..p + |s| + |t|] == (s + t)[|s|..] == t;
  }

  lemma ReadsFirst(pat: string, p: nat, s: string)
    requires Reads(pat, p, s) && s != ""
    ensures p < |pat| && pat[p] == s[0]
  {
    assert pat[p..p + |s|][0] == s[0];
  }

  lemma {:induction false} PowerGrows(k: nat, m: nat)
    requires k < m
    ensures Power10(k) < Power10(m)
    decreases m
  {
    if k < m - 1 {
      PowerGrows(k, m - 1);
    }
  }

  lemma NinePositions(k: nat)
    requires k <= 9
    ensures Power10(k) == 1000000000 <==> k == 9
  {
    assert Power10(9) == 1000000000 by {
      assert Power10(3) == 1000;
      assert Power10(6) == 1000 * Power10(3);
    }
    if k < 9 {
      PowerGrows(k, 9);
    }
  }

  /** The rest of a numeral of which k digits have been read. */
  lemma {:induction false} DigitsRead(pat: string, p: nat, n: string, k: nat)
    requires IsNumeral(n) && 1 <= k <= |n| && k <= 9 && Reads(pat, p, n) && !IsDigit(At(pat, p + |n|))
    ensures ParseDigits(pat, p + k, Number(n[..k]), Power10(k)) ==
      if |n| <= 9 then Parsed(Number(n), p + |n|, 0) else Rejected(NumberOverflow)
    decreases |n| - k
  {
    NinePositions(k);
    if k == |n| {
      assert n[..k] == n;
    } else {
      assert pat[p + k] == pat[p..p + |n|][k] == n[k];
      if k < 9 {
        DigitsRead(pat, p, n, k + 1);
        assert n[..k + 1][..k] == n[..k];
      }
    }
  }

  lemma NumberRead(pat: string, p: nat, n: string)
    requires IsNumeral(n) && Reads(pat, p, n) && !IsDigit(At(pat, p + |n|))
    ensures p < |pat| && pat[p] == n[0] && IsDigit(pat[p])
    ensures ParseNumber(pat, p) == if |n| <= 9 then Parsed(Number(n), p + |n|, 0) else Rejected(NumberOverflow)
  {
    ReadsFirst(pat, p, n);
    DigitsRead(pat, p, n, 1);
    assert n[..1] == [n[0]] && [n[0]][..0] == "";
    assert Number([n[0]]) == Digit(n[0]);
    assert Power10(1) == 10;
  }

  /** A numeral between a character and one that is not a digit. */
  lemma NumeralRead(pat: string, p: nat, c: char, n: string, rest: string)
    requires IsNumeral(n) && rest != "" && !IsDigit(rest[0]) && Reads(pat, p, [c] + n + rest)
    ensures p + 1 + |n| < |pat| && At(pat, p) == c && IsDigit(pat[p + 1])
    ensures At(pat, p + 1 + |n|) == rest[0] && Reads(pat, p + 1 + |n|, rest)
    ensures ParseNumber(pat, p + 1) == if |n| <= 9 then Parsed(Number(n), p + 1 + |n|, 0) else Rejected(NumberOverflow)
  {
    hide ParseNumber, Number, Reads;
    ReadsPart(pat, p, [c] + n, rest);
    ReadsPart(pat, p, [c], n);
    ReadsFirst(pat, p, [c]);
    ReadsFirst(pat, p + 1 + |n|, rest);
    ReadsFirst(pat, p + 1, n);
    NumberRead(pat, p + 1, n);
  }

  /** A quantifier is read as its bounds modulo 65536, or rejected for a numeral of more than nine digits. */
  lemma QuantifierRead(pat: string, p: nat, w: Written)
    requires IsWritten(w) && Reads(pat, p, Text(w))
    ensures ParseQuantifier(pat, p) ==
      if IsShort(w) then Parsed(Some(Stored(w)), p + |Text(w)|, 0) else Rejected(NumberOverflow)
  {
    hide ParseNumber, IsNumeral, Number, Reads, ParseQuantifier;
    match w
    case Exactly(n) => ExactlyRead(pat, p, n);
    case AtLeast(lo) => AtLeastRead(pat, p, lo);
    case Between(lo, hi) => BetweenRead(pat, p, lo, hi);
    case _ => SignRead(pat, p, w);
  }

  lemma SignRead(pat: string, p: nat, w: Written)
    requires (w.Any? || w.Plus? || w.Maybe?) && Reads(pat, p, Text(w))
    ensures p < |pat| && ParseQuantifier(pat, p) == Parsed(Some(Stored(w)), p + 1, 0)
  {
    ReadsFirst(pat, p, Text(w));
  }

  lemma ExactlyRead(pat: string, p: nat, n: string)
    requires IsNumeral(n) && Reads(pat, p, Text(Exactly(n)))
    ensures p < |pat| && ParseQuantifier(pat, p) ==
      if |n| <= 9 then Parsed(Some(Stored(Exactly(n))), p + |n| + 2, 0) else Rejected(NumberOverflow)
  {
    hide ParseNumber, IsNumeral, Number, Reads;
    NumeralRead(pat, p, '{', n, "}");
  }

  lemma AtLeastRead(pat: string, p: nat, lo: string)
    requires IsNumeral(lo) && Reads(pat, p, Text(AtLeast(lo)))
    ensures p < |pat| && ParseQuantifier(pat, p) ==
      if |lo| <= 9 then Parsed(Some(Stored(AtLeast(lo))), p + |lo| + 3, 0) else Rejected(NumberOverflow)
  {
    hide ParseNumber, IsNumeral, Number, Reads;
    NumeralRead(pat, p, '{', lo, ",}");
    assert ",}" == "," + "}";
    ReadsPart(pat, p + 1 + |lo|, ",", "}");
    ReadsFirst(pat, p + 2 + |lo|, "}");
  }

  lemma BetweenRead(pat: string, p: nat, lo: string, hi: string)
    requires IsNumeral(lo) && IsNumeral(hi) && Reads(pat, p, Text(Between(lo, hi)))
    ensures p < |pat| && ParseQuantifier(pat, p) ==
      if |lo| <= 9 && |hi| <= 9 then Parsed(Some(Stored(Between(lo, hi))), p + |lo| + |hi| + 3, 0) else Rejected(NumberOverflow)
  {
    hide ParseNumber, IsNumeral, Number, Reads;
    RangeRead(pat, p, lo, hi);
  }

  lemma RangeRead(pat: string, p: nat, lo: string, hi: string)
    requires IsNumeral(lo) && IsNumeral(hi) && Reads(pat, p, Text(Between(lo, hi)))
    ensures var q, q' := p + 1 + |lo|, p + 2 + |lo| + |hi|;
      && q' + 1 == p + |Text(Between(lo, hi))| <= |pat| && At(pat, p) == '{' && At(pat, q) == ',' && At(pat, q') == '}'
      && IsDigit(At(pat, p + 1)) && IsDigit(At(pat, q + 1))
      && ParseNumber(pat, p + 1) == (if |lo| <= 9 then Parsed(Number(lo), q, 0) else Rejected(NumberOverflow))
      && ParseNumber(pat, q + 1) == (if |hi| <= 9 then Parsed(Number(hi), q', 0) else Rejected(NumberOverflow))
  {
    hide ParseNumber, IsNumeral, Number, Reads, Text;
    BetweenText(lo, hi);
    Inside(pat, p, Text(Between(lo, hi)));
    NumeralRead(pat, p, '{', lo, "," + hi + "}");
    NumeralRead(pat, p + 1 + |lo|, ',', hi, "}");
  }

  lemma BetweenText(lo: string, hi: string)
    ensures Text(Between(lo, hi)) == "{" + lo + ("," + hi + "}") && |Text(Between(lo, hi))| == |lo| + |hi| + 3
  {}

  lemma Inside(pat: string, p: nat, text: string)
    requires Reads(pat, p, text)
    ensures p + |text| <= |pat|
  {}

  // ---------------------------------------------------------------------------
  // What a quantifier means
  // ---------------------------------------------------------------------------

  /** The cut changes nothing for a lower bound below 65536 and an upper bound below 65535, and for bounds that
      contradict each other before and after. */
  predicate SurvivesCut(w: Written)
    requires IsWritten(w)
  {
    match w
    case Exactly(n) => Number(n) < UNBOUNDED
    case AtLeast(lo) => Number(lo) <= UNBOUNDED
    case Between(lo, hi) =>
      || (Number(lo) <= UNBOUNDED && Number(hi) < UNBOUNDED)
      || (Number(lo) > Number(hi) && Stored(w).min > Stored(w).max && Stored(w).max != UNBOUNDED)
    case _ => true
  }

  /** A repetition admits the counts that its quantifier names if and only if the quantifier survives the
      cut. */
  lemma CountsExact(w: Written)
    requires IsWritten(w)
    ensures SurvivesCut(w) <==> forall n: nat :: InBounds(n, Stored(w).min, Stored(w).max) <==> Names(w, n)
  {
    hide Number;
    if !SurvivesCut(w) {
      var n := CutCount(w);
      assert InBounds(n, Stored(w).min, Stored(w).max) != Names(w, n);
    }
  }

  /** A count that the cut adds or takes away. */
  lemma CutCount(w: Written) returns (n: nat)
    requires IsWritten(w) && !SurvivesCut(w)
    ensures InBounds(n, Stored(w).min, Stored(w).max) != Names(w, n)
  {
    hide Number;
    var Bounds(min, max) := Stored(w);
    match w
    case Exactly(m) => n := if Number(m) == UNBOUNDED then UNBOUNDED + 1 else min;
    case AtLeast(_) => n := min;
    case Between(lo, hi) =>
      var l, h := Number(lo), Number(hi);
      assert l >= min && h >= max && (l <= UNBOUNDED ==> l == min) && (h <= UNBOUNDED ==> h == max);
      n := if max == UNBOUNDED then h + min + 1 else if min <= max && !Names(w, min) then min else h;
  }

  /** The letter `a` with a quantifier is read as its repetition. */
  lemma CountedLetter(w: Written)
    requires IsWritten(w)
    ensures ParsePattern("a" + Text(w)) ==
      if IsShort(w) then Parsed(Last(Repeat(A, Stored(w).min, Stored(w).max)), 1 + |Text(w)|, 3)
      else Rejected(NumberOverflow)
  {
    hide Text, Stored, ParseQuantifier, IsWritten, IsShort;
    var pat := "a" + Text(w);
    assert pat[1..1 + |Text(w)|] == Text(w);
    QuantifierRead(pat, 1, w);
    var r := if IsShort(w) then Parsed(Repeat(A, Stored(w).min, Stored(w).max), |pat|, 3) else Rejected(NumberOverflow);
    assert pat[0] == 'a' && At(pat, |pat|) == NUL;
    assert ParseItem(pat, 0, 1) == r by {
      assert ParseAtom(pat, 0, 1) == Parsed(A, 1, 2);
    }
    hide ParseItem;
    assert ParseElement(pat, 0, 1) == if r.Parsed? then Parsed(Last(r.value), r.p, r.n) else Rejected(r.reason);
    hide ParseElement;
    assert ParseList(pat, 0, 1) == ParseBranch(pat, 0, 1) == ParseElement(pat, 0, 1);
  }

  predicate IsRun(text: string) {
    forall k :: 0 <= k < |text| ==> text[k] == 'a'
  }

  /** The letter `a` with any quantifier matches the runs of an admitted number of letters, of which there can be
      65536 at most, and nothing else. */
  lemma CountedLetterMatches(mem: Memory, w: Written)
    requires IsWritten(w) && IsShort(w)
    ensures ParsePattern("a" + Text(w)).Parsed?
    ensures Matches(mem, ParsePattern("a" + Text(w)).value) <==>
      IsRun(mem.text) && InBounds(|mem.text|, Stored(w).min, Stored(w).max) && |mem.text| <= UNBOUNDED + 1
  {
    hide Matches, ParsePattern, IsWritten, IsShort, Text;
    CountedLetter(w);
    RunExact(mem, A, Stored(w).min, Stored(w).max);
    assert AllOf(A, mem.text) <==> IsRun(mem.text);
  }

  /** If the quantifier survives the cut, these are the runs it names. */
  lemma CountedLetterNames(mem: Memory, w: Written)
    requires IsWritten(w) && IsShort(w) && SurvivesCut(w)
    ensures ParsePattern("a" + Text(w)).Parsed?
    ensures Matches(mem, ParsePattern("a" + Text(w)).value) <==>
      IsRun(mem.text) && Names(w, |mem.text|) && |mem.text| <= UNBOUNDED + 1
  {
    hide Matches, ParsePattern, IsWritten, IsShort, Text, Names, IsRun, SurvivesCut;
    CountedLetterMatches(mem, w);
    CountsExact(w);
  }

  /** The three signs, on the patterns themselves. */
  lemma SignsExact(mem: Memory)
    ensures ParsePattern("a*").Parsed? && ParsePattern("a+").Parsed? && ParsePattern("a?").Parsed?
    ensures Matches(mem, ParsePattern("a*").value) <==> IsRun(mem.text) && |mem.text| <= 65536
    ensures Matches(mem, ParsePattern("a+").value) <==> IsRun(mem.text) && 1 <= |mem.text| <= 65536
    ensures Matches(mem, ParsePattern("a?").value) <==> IsRun(mem.text) && |mem.text| <= 1
  {
    hide Matches, ParsePattern, IsRun;
    assert "a" + Text(Any) == "a*" && "a" + Text(Plus) == "a+" && "a" + Text(Maybe) == "a?";
    CountedLetterNames(mem, Any);
    CountedLetterNames(mem, Plus);
    CountedLetterNames(mem, Maybe);
  }

  /** So `a{65536}` matches the empty text alone. */
  lemma FullTurn(mem: Memory)
    ensures ParsePattern("a{65536}") == Parsed(Last(Repeat(A, 0, 0)), 8, 3)
    ensures Matches(mem, ParsePattern("a{65536}").value) <==> mem.text == ""
  {
    hide Matches, ParsePattern;
    var n := "65536";
    assert Number(n) == 65536 by {
      assert n[..4] == "6553" && "6553"[..3] == "655" && "655"[..2] == "65" && "65"[..1] == "6" && "6"[..0] == "";
      assert Number("6") == 6;
      assert Number("65") == 65;
      assert Number("655") == 655;
      assert Number("6553") == 6553;
    }
    assert "a{65536}" == "a" + Text(Exactly(n));
    CountedLetter(Exactly(n));
    CountedLetterMatches(mem, Exactly(n));
  }
}
