/** Patterns that end in a lone backslash: the parser runs past the end of exactly those that could be
    completed to a pattern it accepts, and rejects the others for something in front of the backslash. */
module RegexBackslash {
  import opened Chars
  import opened Decimals
  import opened RegexPatterns
  import opened RegexSyntax
  import opened Wrappers

  // ---------------------------------------------------------------------------
  // Whatever is decided in front of the backslash does not depend on what follows it
  // ---------------------------------------------------------------------------

  /** A parse that does not run past the end is the same when the pattern goes on. */
  ghost predicate Steady<T>(r: Parsed<T>, longer: Parsed<T>) {
    !r.Overrun? ==> longer == r
  }

  /** A token starts inside the pattern, and is the same when the pattern goes on. */
  lemma TokenInside(pat: string, t: string, p: nat)
    requires LoneBackslash(pat) && p <= |pat| && TokenStart(pat, p)
    ensures p < |pat| && At(pat, p) == At(pat + t, p) == pat[p]
    ensures pat[p] != '\\' ==> p + 1 < |pat| && TokenStart(pat, p + 1) && At(pat, p + 1) == At(pat + t, p + 1)
    ensures pat[p] == '\\' && p + 1 < |pat| ==> (pat + t)[p + 1] == pat[p + 1]
  {
    assert p < |pat|;
    if pat[p] != '\\' {
      StepPlain(pat, p);
    }
  }

  lemma CharNodeSteady(pat: string, t: string, p: nat, n: nat, isClass: bool)
    requires LoneBackslash(pat) && p <= |pat| && TokenStart(pat, p)
    ensures Steady(ParseCharNode(pat, p, n, isClass), ParseCharNode(pat + t, p, n, isClass))
    ensures Steady(ParseEscapeChar(pat, p, n), ParseEscapeChar(pat + t, p, n))
  {
    TokenInside(pat, t, p);
  }

  lemma {:induction false} MembersSteady(pat: string, t: string, p: nat, n: nat, done: seq<SetItem>, held: Option<Held>)
    requires LoneBackslash(pat) && p <= |pat| && TokenStart(pat, p)
    ensures Steady(ParseMembers(pat, p, n, done, held), ParseMembers(pat + t, p, n, done, held))
    decreases |pat| - p
  {
    hide TokenStart, LoneBackslash, ParseCharNode, ParseEscapeChar;
    TokenInside(pat, t, p);
    if pat[p] == ']' {
    } else if pat[p] == '-' && held.Some? {
      CharNodeTame(pat, p + 1, n + 1, true);
      CharNodeSteady(pat, t, p + 1, n + 1, true);
      var c := ParseEscapeChar(pat, p + 1, n + 1);
      if c.Parsed? && held.value.item.Char? {
        MembersSteady(pat, t, c.p, c.n, done + [Range(held.value.item.code, c.value as int)], None);
      }
    } else {
      CharNodeTame(pat, p, n, true);
      CharNodeSteady(pat, t, p, n, true);
      var c := ParseCharNode(pat, p, n, true);
      if c.Parsed? {
        MembersSteady(pat, t, c.p, c.n, Release(done, held), Some(Held(n, c.value)));
      }
    }
  }

  lemma ClassSteady(pat: string, t: string, p: nat, n: nat)
    requires LoneBackslash(pat) && p < |pat| && TokenStart(pat, p) && pat[p] == '['
    ensures Steady(ParseClass(pat, p + 1, n), ParseClass(pat + t, p + 1, n))
  {
    hide TokenStart, LoneBackslash, ParseMembers;
    TokenInside(pat, t, p);
    TokenInside(pat, t, p + 1);
    if pat[p + 1] == '^' {
      TokenInside(pat, t, p + 2);
      MembersSteady(pat, t, p + 2, n + 1, [], None);
    } else {
      MembersSteady(pat, t, p + 1, n + 1, [], None);
    }
  }

  lemma {:induction false} DigitsSteady(pat: string, t: string, p: nat, acc: nat, positions: nat)
    requires LoneBackslash(pat) && p <= |pat| && TokenStart(pat, p)
    ensures ParseDigits(pat + t, p, acc, positions) == ParseDigits(pat, p, acc, positions)
    decreases |pat| - p
  {
    hide TokenStart, LoneBackslash;
    TokenInside(pat, t, p);
    if IsDigit(pat[p]) && positions != 1000000000 {
      DigitsSteady(pat, t, p + 1, acc * 10 + Digit(pat[p]), positions * 10);
    }
  }

  lemma NumberSteady(pat: string, t: string, p: nat)
    requires LoneBackslash(pat) && p < |pat| && TokenStart(pat, p) && IsDigit(pat[p])
    ensures IsDigit((pat + t)[p]) && ParseNumber(pat + t, p) == ParseNumber(pat, p)
  {
    TokenInside(pat, t, p);
    DigitsSteady(pat, t, p + 1, Digit(pat[p]), 10);
  }

  lemma QuantifierSteady(pat: string, t: string, p: nat)
    requires LoneBackslash(pat) && p <= |pat| && TokenStart(pat, p)
    ensures ParseQuantifier(pat + t, p) == ParseQuantifier(pat, p)
  {
    hide TokenStart, LoneBackslash, ParseNumber;
    TokenInside(pat, t, p);
    if pat[p] == '{' && IsDigit(At(pat, p + 1)) {
      NumberTame(pat, p + 1);
      NumberSteady(pat, t, p + 1);
      var lo := ParseNumber(pat, p + 1);
      if lo.Parsed? {
        TokenInside(pat, t, lo.p);
        if pat[lo.p] == ',' && IsDigit(At(pat, lo.p + 1)) {
          NumberTame(pat, lo.p + 1);
          NumberSteady(pat, t, lo.p + 1);
          var hi := ParseNumber(pat, lo.p + 1);
          if hi.Parsed? {
            TokenInside(pat, t, hi.p);
          }
        }
      }
    }
  }

  lemma {:induction false} ListSteady(pat: string, t: string, p: nat, n: nat)
    requires LoneBackslash(pat) && p <= |pat| && TokenStart(pat, p)
    ensures Steady(ParseList(pat, p, n), ParseList(pat + t, p, n))
    decreases |pat| - p, 5
  {
    hide TokenStart, LoneBackslash, ParseBranch;
    BranchSteady(pat, t, p, n);
    BranchTame(pat, p, n);
    var left := ParseBranch(pat, p, n);
    if left.Parsed? {
      TokenInside(pat, t, left.p);
      if pat[left.p] == '|' {
        ListSteady(pat, t, left.p + 1, left.n + 1);
      }
    }
  }

  lemma {:induction false} BranchSteady(pat: string, t: string, p: nat, n: nat)
    requires LoneBackslash(pat) && p <= |pat| && TokenStart(pat, p)
    ensures Steady(ParseBranch(pat, p, n), ParseBranch(pat + t, p, n))
    decreases |pat| - p, 4
  {
    hide TokenStart, LoneBackslash, ParseElement;
    TokenInside(pat, t, p);
    if pat[p] == '^' {
      ElementSteady(pat, t, p + 1, n + 1);
    } else {
      ElementSteady(pat, t, p, n);
    }
  }

  lemma {:induction false} ElementSteady(pat: string, t: string, p: nat, n: nat)
    requires LoneBackslash(pat) && p <= |pat| && TokenStart(pat, p)
    ensures Steady(ParseElement(pat, p, n), ParseElement(pat + t, p, n))
    decreases |pat| - p, 3
  {
    hide TokenStart, LoneBackslash, ParseItem;
    ItemSteady(pat, t, p, n);
    var item := ParseItem(pat, p, n);
    if item.Parsed? {
      TokenInside(pat, t, item.p);
      if !EndsSequence(pat[item.p]) {
        ElementSteady(pat, t, item.p, item.n);
      }
    }
  }

  lemma {:induction false} ItemSteady(pat: string, t: string, p: nat, n: nat)
    requires LoneBackslash(pat) && p <= |pat| && TokenStart(pat, p)
    ensures Steady(ParseItem(pat, p, n), ParseItem(pat + t, p, n)) && Tame(pat, ParseItem(pat, p, n))
    decreases |pat| - p, 2
  {
    hide TokenStart, LoneBackslash, ParseAtom, ParseQuantifier;
    AtomSteady(pat, t, p, n);
    AtomTame(pat, p, n);
    var atom := ParseAtom(pat, p, n);
    if atom.Parsed? {
      QuantifierSteady(pat, t, atom.p);
      QuantifierTame(pat, atom.p);
    }
  }

  lemma {:induction false} AtomSteady(pat: string, t: string, p: nat, n: nat)
    requires LoneBackslash(pat) && p <= |pat| && TokenStart(pat, p)
    ensures Steady(ParseAtom(pat, p, n), ParseAtom(pat + t, p, n))
    decreases |pat| - p, 1
  {
    hide TokenStart, LoneBackslash, ParseGroup, ParseClass, ParseCharNode;
    TokenInside(pat, t, p);
    match pat[p]
    case '(' => GroupSteady(pat, t, p, n);
    case '[' => ClassSteady(pat, t, p, n);
    case '$' =>
    case '.' =>
    case _ => CharNodeSteady(pat, t, p, n, false);
  }

  lemma {:induction false} GroupSteady(pat: string, t: string, p: nat, n: nat)
    requires LoneBackslash(pat) && p < |pat| && TokenStart(pat, p) && pat[p] == '('
    ensures Steady(ParseGroup(pat, p, n), ParseGroup(pat + t, p, n))
    decreases |pat| - p, 0
  {
    hide TokenStart, LoneBackslash, ParseList;
    TokenInside(pat, t, p);
    TokenInside(pat, t, p + 1);
    var q := p + 1;
    if pat[p + 1] == '?' {
      TokenInside(pat, t, p + 2);
      q := p + 3;
    }
    if pat[p + 1] != '?' || pat[p + 2] == ':' {
      ListSteady(pat, t, q, n + 1);
      ListTame(pat, q, n + 1);
      var body := ParseList(pat, q, n + 1);
      if body.Parsed? {
        TokenInside(pat, t, body.p);
      }
    }
  }

  // ---------------------------------------------------------------------------
  // What runs past the end could be completed
  // ---------------------------------------------------------------------------

  /** Text that may follow a whole list of alternatives. */
  predicate Closing(u: string) {
    u == "" || u[0] == ')'
  }

  /** A parse that succeeds and ends at q. */
  ghost predicate Ends<T>(r: Parsed<T>, q: int) {
    r.Parsed? && r.p == q
  }

  lemma Assoc(a: string, b: string, c: string)
    ensures a + b + c == a + (b + c)
  {}

  lemma CharNodeCompletes(pat: string, u: string, p: nat, n: nat, isClass: bool)
    requires p <= |pat|
    ensures ParseCharNode(pat, p, n, isClass).Overrun? ==> Ends(ParseCharNode(pat + "n" + u, p, n, isClass), |pat + "n"|)
    ensures ParseEscapeChar(pat, p, n).Overrun? ==> Ends(ParseEscapeChar(pat + "n" + u, p, n), |pat + "n"|)
  {}

  /** Inside a class an escaped letter and the bracket are missing. */
  lemma {:induction false} MembersComplete(pat: string, u: string, p: nat, n: nat, done: seq<SetItem>, held: Option<Held>)
    requires LoneBackslash(pat) && p <= |pat| && TokenStart(pat, p) && ParseMembers(pat, p, n, done, held).Overrun?
    ensures Ends(ParseMembers(pat + "n]" + u, p, n, done, held), |pat + "n"|)
    decreases |pat| - p
  {
    hide TokenStart, LoneBackslash, ParseCharNode, ParseEscapeChar;
    var t := "n]" + u;
    assert pat + "n]" + u == pat + t == pat + "n" + ("]" + u);
    TokenInside(pat, t, p);
    if pat[p] == '-' && held.Some? {
      CharNodeTame(pat, p + 1, n + 1, true);
      CharNodeSteady(pat, t, p + 1, n + 1, true);
      CharNodeCompletes(pat, "]" + u, p + 1, n + 1, true);
      var c := ParseEscapeChar(pat, p + 1, n + 1);
      if c.Parsed? {
        MembersComplete(pat, u, c.p, c.n, done + [Range(held.value.item.code, c.value as int)], None);
      }
    } else {
      CharNodeTame(pat, p, n, true);
      CharNodeSteady(pat, t, p, n, true);
      CharNodeCompletes(pat, "]" + u, p, n, true);
      var c := ParseCharNode(pat, p, n, true);
      if c.Parsed? {
        MembersComplete(pat, u, c.p, c.n, Release(done, held), Some(Held(n, c.value)));
      }
    }
  }

  lemma ClassCompletes(pat: string, u: string, p: nat, n: nat)
    requires LoneBackslash(pat) && p < |pat| && TokenStart(pat, p) && pat[p] == '[' && ParseClass(pat, p + 1, n).Overrun?
    ensures Ends(ParseClass(pat + "n]" + u, p + 1, n), |pat + "n"|)
  {
    hide TokenStart, LoneBackslash, ParseMembers;
    assert pat + "n]" + u == pat + ("n]" + u);
    TokenInside(pat, "n]" + u, p);
    TokenInside(pat, "n]" + u, p + 1);
    if pat[p + 1] == '^' {
      TokenInside(pat, "n]" + u, p + 2);
      MembersComplete(pat, u, p + 2, n + 1, [], None);
    } else {
      MembersComplete(pat, u, p + 1, n + 1, [], None);
    }
  }

  /** The completion ends what was being parsed, whatever closing text follows it. */
  ghost predicate ListEnds(pat: string, c: string, p: nat, n: nat)
    requires p <= |pat|
  {
    forall u :: Closing(u) ==> Ends(ParseList(pat + c + u, p, n), |pat + c|)
  }

  ghost predicate BranchEnds(pat: string, c: string, p: nat, n: nat)
    requires p <= |pat|
  {
    forall u :: Closing(u) ==> Ends(ParseBranch(pat + c + u, p, n), |pat + c|)
  }

  ghost predicate ElementEnds(pat: string, c: string, p: nat, n: nat)
    requires p <= |pat|
  {
    forall u :: Closing(u) ==> Ends(ParseElement(pat + c + u, p, n), |pat + c|)
  }

  ghost predicate AtomEnds(pat: string, c: string, p: nat, n: nat)
    requires p <= |pat|
  {
    forall u :: Closing(u) ==> Ends(ParseAtom(pat + c + u, p, n), |pat + c|)
  }

  lemma {:induction false} ListCompletes(pat: string, p: nat, n: nat) returns (c: string)
    requires LoneBackslash(pat) && p <= |pat| && TokenStart(pat, p) && ParseList(pat, p, n).Overrun?
    ensures ListEnds(pat, c, p, n)
    decreases |pat| - p, 5
  {
    hide TokenStart, LoneBackslash, ParseBranch;
    BranchTame(pat, p, n);
    var left := ParseBranch(pat, p, n);
    if left.Overrun? {
      c := BranchCompletes(pat, p, n);
      forall u | Closing(u)
        ensures Ends(ParseList(pat + c + u, p, n), |pat + c|)
      {
        assert Ends(ParseBranch(pat + c + u, p, n), |pat + c|);
        AtEnd(pat + c, u);
      }
    } else {
      TokenInside(pat, "", left.p);
      c := ListCompletes(pat, left.p + 1, left.n + 1);
      forall u | Closing(u)
        ensures Ends(ParseList(pat + c + u, p, n), |pat + c|)
      {
        Assoc(pat, c, u);
        BranchSteady(pat, c + u, p, n);
        TokenInside(pat, c + u, left.p);
        assert Ends(ParseList(pat + c + u, left.p + 1, left.n + 1), |pat + c|);
      }
    }
  }

  /** Behind a completion the parser finds the end of the pattern or a closing parenthesis. */
  lemma AtEnd(s: string, u: string)
    requires Closing(u)
    ensures At(s + u, |s|) == NUL || At(s + u, |s|) == ')'
    ensures ParseQuantifier(s + u, |s|) == Parsed(None, |s|, 0)
  {}

  lemma {:induction false} BranchCompletes(pat: string, p: nat, n: nat) returns (c: string)
    requires LoneBackslash(pat) && p <= |pat| && TokenStart(pat, p) && ParseBranch(pat, p, n).Overrun?
    ensures BranchEnds(pat, c, p, n)
    decreases |pat| - p, 4
  {
    hide TokenStart, LoneBackslash, ParseElement;
    TokenInside(pat, "", p);
    var caret := pat[p] == '^';
    c := ElementCompletes(pat, if caret then p + 1 else p, if caret then n + 1 else n);
    forall u | Closing(u)
      ensures Ends(ParseBranch(pat + c + u, p, n), |pat + c|)
    {
      Assoc(pat, c, u);
      TokenInside(pat, c + u, p);
      assert Ends(ParseElement(pat + c + u, if caret then p + 1 else p, if caret then n + 1 else n), |pat + c|);
    }
  }

  lemma {:induction false} ElementCompletes(pat: string, p: nat, n: nat) returns (c: string)
    requires LoneBackslash(pat) && p <= |pat| && TokenStart(pat, p) && ParseElement(pat, p, n).Overrun?
    ensures ElementEnds(pat, c, p, n)
    decreases |pat| - p, 3
  {
    hide TokenStart, LoneBackslash, ParseAtom, ParseQuantifier;
    AtomTame(pat, p, n);
    ItemSteady(pat, "", p, n);
    if ParseAtom(pat, p, n).Overrun? {
      c := AtomCompletes(pat, p, n);
      forall u | Closing(u)
        ensures Ends(ParseElement(pat + c + u, p, n), |pat + c|)
      {
        assert Ends(ParseAtom(pat + c + u, p, n), |pat + c|);
        AtEnd(pat + c, u);
      }
    } else {
      var atom := ParseAtom(pat, p, n);
      QuantifierSteady(pat, "", atom.p);
      QuantifierTame(pat, atom.p);
      QuantifierStays(pat, atom.p);
      var item := ParseItem(pat, p, n);
      TokenInside(pat, "", item.p);
      c := ElementCompletes(pat, item.p, item.n);
      forall u | Closing(u)
        ensures Ends(ParseElement(pat + c + u, p, n), |pat + c|)
      {
        hide ParseItem;
        Assoc(pat, c, u);
        ItemSteady(pat, c + u, p, n);
        TokenInside(pat, c + u, item.p);
        assert Ends(ParseElement(pat + c + u, item.p, item.n), |pat + c|);
      }
    }
  }

  lemma QuantifierStays(pat: string, p: nat)
    requires p <= |pat|
    ensures !ParseQuantifier(pat, p).Overrun?
  {
    if At(pat, p) == '{' && IsDigit(At(pat, p + 1)) {
      DigitsStay(pat, p + 2, Digit(pat[p + 1]), 10);
      var lo := ParseNumber(pat, p + 1);
      if lo.Parsed? && At(pat, lo.p) == ',' && IsDigit(At(pat, lo.p + 1)) {
        DigitsStay(pat, lo.p + 2, Digit(pat[lo.p + 1]), 10);
      }
    }
  }

  lemma {:induction false} DigitsStay(pat: string, p: nat, acc: nat, positions: nat)
    requires p <= |pat|
    ensures !ParseDigits(pat, p, acc, positions).Overrun?
    decreases |pat| - p
  {
    if IsDigit(At(pat, p)) && positions != 1000000000 {
      DigitsStay(pat, p + 1, acc * 10 + Digit(pat[p]), positions * 10);
    }
  }

  lemma {:induction false} AtomCompletes(pat: string, p: nat, n: nat) returns (c: string)
    requires LoneBackslash(pat) && p <= |pat| && TokenStart(pat, p) && ParseAtom(pat, p, n).Overrun?
    ensures AtomEnds(pat, c, p, n)
    decreases |pat| - p, 1
  {
    hide TokenStart, LoneBackslash, ParseGroup, ParseClass, ParseCharNode;
    TokenInside(pat, "", p);
    if pat[p] == '(' {
      c := GroupCompletes(pat, p, n);
    } else {
      c := if pat[p] == '[' then "n]" else "n";
      forall u | Closing(u)
        ensures Ends(ParseAtom(pat + c + u, p, n), |pat + c|)
      {
        Assoc(pat, c, u);
        TokenInside(pat, c + u, p);
        if pat[p] == '[' {
          ClassCompletes(pat, u, p, n);
        } else {
          CharNodeCompletes(pat, u, p, n, false);
        }
      }
    }
  }

  lemma {:induction false} GroupCompletes(pat: string, p: nat, n: nat) returns (c: string)
    requires LoneBackslash(pat) && p < |pat| && TokenStart(pat, p) && pat[p] == '(' && ParseGroup(pat, p, n).Overrun?
    ensures AtomEnds(pat, c, p, n)
    decreases |pat| - p, 0
  {
    hide TokenStart, LoneBackslash, ParseList;
    TokenInside(pat, "", p);
    TokenInside(pat, "", p + 1);
    var plain := pat[p + 1] != '?';
    if !plain {
      TokenInside(pat, "", p + 2);
    }
    var q := if plain then p + 1 else p + 3;
    var inner := ListCompletes(pat, q, n + 1);
    c := inner + ")";
    forall u | Closing(u)
      ensures Ends(ParseAtom(pat + c + u, p, n), |pat + c|)
    {
      GroupEnd(pat, inner, u);
      Assoc(pat, c, u);
      TokenInside(pat, c + u, p);
      TokenInside(pat, c + u, p + 1);
      assert Ends(ParseList(pat + inner + (")" + u), q, n + 1), |pat + inner|);
      assert ParseAtom(pat + c + u, p, n) == ParseGroup(pat + c + u, p, n);
    }
  }

  lemma GroupEnd(pat: string, inner: string, u: string)
    ensures Closing(")" + u) && pat + (inner + ")") + u == pat + inner + (")" + u)
    ensures At(pat + inner + (")" + u), |pat + inner|) == ')'
    ensures |pat + (inner + ")")| == |pat + inner| + 1
  {
    assert (")" + u)[0] == ')';
  }

  // ---------------------------------------------------------------------------
  // The whole pattern
  // ---------------------------------------------------------------------------

  /** A pattern that ends in a lone backslash is never accepted. The parser runs past its end exactly if some
      continuation of it is accepted; otherwise it rejects it, and every continuation for the same reason. */
  lemma LoneBackslashExact(pat: string)
    requires IsPattern(pat) && LoneBackslash(pat)
    ensures !ParsePattern(pat).Parsed?
    ensures ParsePattern(pat).Overrun? <==> exists t :: ParsePattern(pat + t).Parsed?
    ensures ParsePattern(pat).Rejected? ==> forall t :: ParsePattern(pat + t) == ParsePattern(pat)
  {
    PatternEnds(pat);
    var r := ParseList(pat, 0, 1);
    if r.Overrun? {
      var c := ListCompletes(pat, 0, 1);
      assert Closing("") && pat + c + "" == pat + c;
      assert Ends(ParseList(pat + c + "", 0, 1), |pat + c|);
      assert ParsePattern(pat + c).Parsed?;
    } else {
      ListTame(pat, 0, 1);
      forall t
        ensures ParsePattern(pat + t) == ParsePattern(pat)
      {
        ListSteady(pat, t, 0, 1);
        if r.Parsed? {
          TokenInside(pat, t, r.p);
        }
      }
    }
  }

  /** There are patterns of both kinds. */
  lemma LoneBackslashes()
    ensures LoneBackslash("\\") && ParsePattern("\\") == Overrun
    ensures LoneBackslash("a)\\") && ParsePattern("a)\\") == Rejected(UnexpectedCharacter)
  {
    assert ParseAtom("\\", 0, 1) == Overrun;
    var pat := "a)\\";
    assert ParseItem(pat, 0, 1) == Parsed(Char('a' as int), 1, 2);
    assert ParseList(pat, 0, 1) == Parsed(Last(Char('a' as int)), 1, 2);
  }
}
