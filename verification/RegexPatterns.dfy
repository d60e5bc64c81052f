/** Which patterns the parser can run past the end of: only those whose last backslash has
    nothing to escape, and none of those compiles. */
module RegexPatterns {
  import opened RegexSyntax
  import opened RegexLanguage
  import opened Chars
  import opened Decimals
  import opened Wrappers

  /** The run of backslashes that ends at position p has even length, so a new token starts at p. */
  predicate TokenStart(pat: string, p: nat)
    requires p <= |pat|
  {
    p == 0 || pat[p - 1] != '\\' || !TokenStart(pat, p - 1)
  }

  /** The pattern ends in a backslash that is not itself escaped. */
  predicate LoneBackslash(pat: string) {
    !TokenStart(pat, |pat|)
  }

  /** A parse that starts at a token ends at one, and overruns only a lone backslash. */
  ghost predicate Tame<T>(pat: string, r: Parsed<T>) {
    match r
    case Parsed(_, p, _) => p <= |pat| && TokenStart(pat, p)
    case Rejected(_) => true
    case Overrun => LoneBackslash(pat)
  }

  lemma StepPlain(pat: string, p: nat)
    requires p < |pat| && pat[p] != '\\'
    ensures TokenStart(pat, p + 1)
  {}

  lemma CharNodeTame(pat: string, p: nat, n: nat, isClass: bool)
    requires p <= |pat| && TokenStart(pat, p)
    ensures Tame(pat, ParseCharNode(pat, p, n, isClass)) && Tame(pat, ParseEscapeChar(pat, p, n))
  {}

  lemma {:induction false} MembersTame(pat: string, p: nat, n: nat, done: seq<SetItem>, held: Option<Held>)
    requires p <= |pat| && TokenStart(pat, p)
    ensures Tame(pat, ParseMembers(pat, p, n, done, held))
    decreases |pat| - p
  {
    var c := At(pat, p);
    if c == ']' {
    } else if c == '-' && held.Some? {
      StepPlain(pat, p);
      CharNodeTame(pat, p + 1, n + 1, true);
      var t := ParseEscapeChar(pat, p + 1, n + 1);
      if t.Parsed? && held.value.item.Char? {
        MembersTame(pat, t.p, t.n, done + [Range(held.value.item.code, t.value as int)], None);
      }
    } else {
      CharNodeTame(pat, p, n, true);
      var t := ParseCharNode(pat, p, n, true);
      if t.Parsed? {
        MembersTame(pat, t.p, t.n, Release(done, held), Some(Held(n, t.value)));
      }
    }
  }

  lemma ClassTame(pat: string, p: nat, n: nat)
    requires p < |pat| && TokenStart(pat, p)
    requires pat[p] == '['
    ensures var r := ParseClass(pat, p + 1, n);
            match r case Parsed(_, q, _) => q < |pat| && TokenStart(pat, q + 1) case Rejected(_) => true case Overrun => LoneBackslash(pat)
  {
    StepPlain(pat, p);
    if At(pat, p + 1) == '^' {
      StepPlain(pat, p + 1);
      MembersTame(pat, p + 2, n + 1, [], None);
    } else {
      MembersTame(pat, p + 1, n + 1, [], None);
    }
    var r := ParseClass(pat, p + 1, n);
    if r.Parsed? {
      StepPlain(pat, r.p);
    }
  }

  lemma {:induction false} DigitsTame(pat: string, p: nat, acc: nat, positions: nat)
    requires p <= |pat| && TokenStart(pat, p)
    ensures !ParseDigits(pat, p, acc, positions).Overrun? && Tame(pat, ParseDigits(pat, p, acc, positions))
    decreases |pat| - p
  {
    if IsDigit(At(pat, p)) && positions != 1000000000 {
      StepPlain(pat, p);
      DigitsTame(pat, p + 1, acc * 10 + Digit(pat[p]), positions * 10);
    }
  }

  lemma NumberTame(pat: string, p: nat)
    requires p < |pat| && IsDigit(pat[p])
    ensures !ParseNumber(pat, p).Overrun? && Tame(pat, ParseNumber(pat, p))
  {
    StepPlain(pat, p);
    DigitsTame(pat, p + 1, Digit(pat[p]), 10);
  }

  lemma QuantifierTame(pat: string, p: nat)
    requires p <= |pat| && TokenStart(pat, p)
    ensures Tame(pat, ParseQuantifier(pat, p))
  {
    if p < |pat| && pat[p] in "*+?{" {
      StepPlain(pat, p);
      if pat[p] == '{' && IsDigit(At(pat, p + 1)) {
        NumberTame(pat, p + 1);
        var lo := ParseNumber(pat, p + 1);
        if lo.Parsed? && lo.p < |pat| && pat[lo.p] in "}," {
          StepPlain(pat, lo.p);
          if pat[lo.p] == ',' && lo.p + 1 < |pat| {
            if IsDigit(pat[lo.p + 1]) {
              NumberTame(pat, lo.p + 1);
              var hi := ParseNumber(pat, lo.p + 1);
              if hi.Parsed? && At(pat, hi.p) == '}' {
                StepPlain(pat, hi.p);
              }
            } else if pat[lo.p + 1] == '}' {
              StepPlain(pat, lo.p + 1);
            }
          }
        }
      }
    }
  }

  lemma {:induction false} ListTame(pat: string, p: nat, n: nat)
    requires p <= |pat| && TokenStart(pat, p)
    ensures Tame(pat, ParseList(pat, p, n))
    decreases |pat| - p, 5
  {
    BranchTame(pat, p, n);
    var left := ParseBranch(pat, p, n);
    if left.Parsed? && At(pat, left.p) == '|' {
      StepPlain(pat, left.p);
      ListTame(pat, left.p + 1, left.n + 1);
    }
  }

  lemma {:induction false} BranchTame(pat: string, p: nat, n: nat)
    requires p <= |pat| && TokenStart(pat, p)
    ensures Tame(pat, ParseBranch(pat, p, n))
    decreases |pat| - p, 4
  {
    if At(pat, p) == '^' {
      StepPlain(pat, p);
      ElementTame(pat, p + 1, n + 1);
    } else {
      ElementTame(pat, p, n);
    }
  }

  lemma {:induction false} ElementTame(pat: string, p: nat, n: nat)
    requires p <= |pat| && TokenStart(pat, p)
    ensures Tame(pat, ParseElement(pat, p, n))
    decreases |pat| - p, 3
  {
    AtomTame(pat, p, n);
    var atom := ParseAtom(pat, p, n);
    if atom.Parsed? {
      QuantifierTame(pat, atom.p);
    }
    var item := ParseItem(pat, p, n);
    if item.Parsed? && !EndsSequence(At(pat, item.p)) {
      ElementTame(pat, item.p, item.n);
    }
  }

  lemma {:induction false} AtomTame(pat: string, p: nat, n: nat)
    requires p <= |pat| && TokenStart(pat, p)
    ensures Tame(pat, ParseAtom(pat, p, n))
    decreases |pat| - p, 1
  {
    match At(pat, p)
    case '(' => GroupTame(pat, p, n);
    case '[' => ClassTame(pat, p, n);
    case '$' => StepPlain(pat, p);
    case '.' => StepPlain(pat, p);
    case _ => CharNodeTame(pat, p, n, false);
  }

  lemma {:induction false} GroupTame(pat: string, p: nat, n: nat)
    requires p < |pat| && pat[p] == '(' && TokenStart(pat, p)
    ensures Tame(pat, ParseGroup(pat, p, n))
    decreases |pat| - p, 0
  {
    StepPlain(pat, p);
    var q := p + 1;
    if At(pat, p + 1) == '?' {
      StepPlain(pat, p + 1);
      if At(pat, p + 2) == ':' {
        StepPlain(pat, p + 2);
        q := p + 3;
      }
    }
    if At(pat, p + 1) != '?' || At(pat, p + 2) == ':' {
      ListTame(pat, q, n + 1);
      var body := ParseList(pat, q, n + 1);
      if body.Parsed? && At(pat, body.p) == ')' {
        StepPlain(pat, body.p);
      }
    }
  }

  /** No pattern but one ending in a lone backslash is read past its end, and no pattern that
      ends in a lone backslash is accepted. */
  lemma PatternEnds(pat: string)
    requires IsPattern(pat)
    ensures ParsePattern(pat).Overrun? ==> LoneBackslash(pat)
    ensures ParsePattern(pat).Parsed? ==> !LoneBackslash(pat) && ParsePattern(pat).p == |pat|
  {
    ListTame(pat, 0, 1);
  }

  // ---------------------------------------------------------------------------
  // Ranges written backwards
  // ---------------------------------------------------------------------------

  /** A character that stands for itself outside classes. */
  predicate IsOrdinary(c: char) {
    IsPrintable(c) && c !in "\\([$.|)*+?{^"
  }

  predicate IsBound(c: char) {
    IsPrintable(c) && c != '\\'
  }

  /** A class of one range, behind ordinary characters. */
  function RangePattern(w: string, a: char, b: char): string {
    w + ['[', a, '-', b, ']']
  }

  function RangeClass(a: char, b: char): Item {
    Class(false, [Range(a as int, b as int)])
  }

  function Literals(w: string, rest: Items): Items {
    if w == "" then rest else More(Char(w[0] as int), Literals(w[1..], rest))
  }

  /** At the dash of a range that ends its class, what decides is the index of the node held back and the end
      of the range; the start of the range is not looked at. */
  lemma OrderCheck(pat: string, p: nat, n: nat, done: seq<SetItem>, held: Held)
    requires p + 2 < |pat| && pat[p] == '-' && pat[p + 2] == ']' && IsBound(pat[p + 1]) && held.item.Char?
    ensures var r := ParseMembers(pat, p, n, done, Some(held));
            && (r == Rejected(InvalidRange) <==> held.index > pat[p + 1] as int)
            && (r != Rejected(InvalidRange) ==>
                  r == Parsed(done + [Range(held.item.code, pat[p + 1] as int)], p + 2, n + 1))
  {
    var range := Range(held.item.code, pat[p + 1] as int);
    assert ParseEscapeChar(pat, p + 1, n + 1) == Parsed(pat[p + 1], p + 2, n + 1);
    assert ParseMembers(pat, p + 2, n + 1, done + [range], None) == Parsed(done + [range], p + 2, n + 1);
  }

  lemma RangeAt(pat: string, p: nat, n: nat, a: char, b: char)
    requires p + 5 == |pat| && pat[p..] == ['[', a, '-', b, ']']
    requires IsBound(a) && a !in "^]" && IsBound(b)
    ensures ParseElement(pat, p, n) ==
      if n + 1 > b as int then Rejected(InvalidRange) else Parsed(Last(RangeClass(a, b)), p + 5, n + 3)
  {
    var s := pat[p..];
    assert pat[p] == s[0] && pat[p + 1] == s[1] && pat[p + 2] == s[2] && pat[p + 3] == s[3] && pat[p + 4] == s[4];
    var held := Held(n + 1, Char(a as int));
    assert ParseCharNode(pat, p + 1, n + 1, true) == Parsed(Char(a as int), p + 2, n + 2);
    OrderCheck(pat, p + 2, n + 2, [], held);
    assert [] + [Range(a as int, b as int)] == [Range(a as int, b as int)];
    assert ParseMembers(pat, p + 1, n + 1, [], None) == ParseMembers(pat, p + 2, n + 2, [], Some(held));
    if n + 1 > b as int {
      assert ParseClass(pat, p + 1, n) == Rejected(InvalidRange);
      assert ParseItem(pat, p, n) == Rejected(InvalidRange);
    } else {
      assert ParseClass(pat, p + 1, n) == Parsed(RangeClass(a, b), p + 4, n + 3);
      assert ParseAtom(pat, p, n) == Parsed(RangeClass(a, b), p + 5, n + 3);
      assert ParseItem(pat, p, n) == Parsed(RangeClass(a, b), p + 5, n + 3);
    }
  }

  lemma {:induction false} RangeBehind(w: string, a: char, b: char, p: nat)
    requires p <= |w| && (forall k :: 0 <= k < |w| ==> IsOrdinary(w[k]))
    requires IsBound(a) && a !in "^]" && IsBound(b)
    ensures var pat := RangePattern(w, a, b);
      ParseElement(pat, p, p + 1) ==
        if |w| + 2 > b as int then Rejected(InvalidRange)
        else Parsed(Literals(w[p..], Last(RangeClass(a, b))), |pat|, |w| + 4)
    decreases |w| - p
  {
    var pat := RangePattern(w, a, b);
    if p == |w| {
      assert pat[p..] == ['[', a, '-', b, ']'];
      RangeAt(pat, p, p + 1, a, b);
    } else {
      RangeBehind(w, a, b, p + 1);
      assert pat[p] == w[p] && (p + 1 < |w| ==> pat[p + 1] == w[p + 1]) && (p + 1 == |w| ==> pat[p + 1] == '[');
      assert ParseAtom(pat, p, p + 1) == Parsed(Char(w[p] as int), p + 1, p + 2);
      assert ParseItem(pat, p, p + 1) == Parsed(Char(w[p] as int), p + 1, p + 2);
      assert w[p..][1..] == w[p + 1..];
    }
  }

  lemma OneBranch(pat: string)
    requires pat != "" && pat[0] != '^'
    ensures var r := ParseElement(pat, 0, 1);
            r.Rejected? || (r.Parsed? && r.p == |pat|) ==> ParsePattern(pat) == r
  {
    hide ParseElement;
    assert ParseBranch(pat, 0, 1) == ParseElement(pat, 0, 1);
  }

  /** A range is accepted or not by the number of characters in front of it and its end alone: the check
      compares the index of a node with a character. */
  lemma RangeCheckExact(w: string, a: char, b: char)
    requires forall k :: 0 <= k < |w| ==> IsOrdinary(w[k])
    requires IsBound(a) && a !in "^]" && IsBound(b)
    ensures ParsePattern(RangePattern(w, a, b)) ==
      if |w| + 2 > b as int then Rejected(InvalidRange)
      else Parsed(Literals(w, Last(RangeClass(a, b))), |w| + 5, |w| + 4)
  {
    hide ParseElement, ParsePattern, Literals, RangeClass;
    RangeBehind(w, a, b, 0);
    var pat := RangePattern(w, a, b);
    assert w[0..] == w && pat[0] == (if w == "" then '[' else w[0]);
    OneBranch(pat);
  }

  /** So a range written backwards is accepted at the start of every pattern, and it contains nothing; and
      one written forwards is rejected behind enough characters. */
  lemma BackwardRangeAccepted(a: char, b: char)
    requires IsBound(a) && a !in "^]" && IsBound(b) && a > b
    ensures ParsePattern(['[', a, '-', b, ']']) == Parsed(Last(RangeClass(a, b)), 5, 4)
    ensures forall c :: !InSet(RangeClass(a, b).members, c)
  {
    RangeCheckExact("", a, b);
    assert RangePattern("", a, b) == ['[', a, '-', b, ']'];
  }

  lemma ForwardRangeRejected(w: string, a: char, b: char)
    requires |w| >= b as int && forall k :: 0 <= k < |w| ==> IsOrdinary(w[k])
    requires IsBound(a) && a !in "^]" && IsBound(b) && a <= b
    ensures ParsePattern(RangePattern(w, a, b)) == Rejected(InvalidRange)
  {
    RangeCheckExact(w, a, b);
  }
}
