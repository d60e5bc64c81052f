/** The trees that patterns have: whatever is parsed is such a tree, so they are exactly the trees that can be
    written. */
module RegexTrees {
  import opened Chars
  import opened Decimals
  import opened RegexBounds
  import opened RegexShow
  import opened RegexSyntax
  import opened Wrappers

  lemma CharTree(pat: string, p: nat, n: nat, isClass: bool)
    requires IsPattern(pat) && p <= |pat|
    ensures var r := ParseCharNode(pat, p, n, isClass);
      r.Parsed? ==> IsAtom(r.value, n) && r.n == n + 1 && Nodes(r.value) == 1
                    && (isClass ==> r.value.Char? || r.value.CharClass?)
  {}

  /** The text of the end of a range begins with a character that is not larger than the first one of the text it is
      written with here. */
  lemma EndTree(pat: string, p: nat, n: nat)
    requires IsPattern(pat) && p <= |pat|
    ensures var r := ParseEscapeChar(pat, p, n);
      r.Parsed? ==> IsCode(r.value as int) && r.n == n && At(pat, p) <= EndText(r.value as int)[0]
  {}

  predicate IsHeld(held: Option<Held>, n: nat) {
    held.Some? ==> n == held.value.index + 1 && (held.value.item.Char? || held.value.item.CharClass?) && IsAtom(held.value.item, n)
  }

  /** The node of the first member that is not done. */
  function Start(held: Option<Held>, n: nat): nat {
    if held.Some? then held.value.index else n
  }

  /** The members v are those done and others that can be written from node n on, n' being the node behind them. */
  ghost predicate Extends(done: seq<SetItem>, v: seq<SetItem>, n: nat, n': nat) {
    done <= v && OkMembers(v[|done|..], n) && n' == n + MembersNodes(v[|done|..])
  }

  lemma ExtendsFirst(done: seq<SetItem>, m: SetItem, v: seq<SetItem>, n: nat, n': nat)
    requires OkMember(m, n) && Extends(done + [m], v, n + MemberNodes(m), n')
    ensures Extends(done, v, n, n')
  {
    var ms := v[|done|..];
    assert ms[0] == v[|done|] == (done + [m])[|done|] == m;
    assert ms[1..] == v[|done + [m]|..];
    assert done <= done + [m] <= v;
  }

  lemma HeldMember(held: Held, n: nat)
    requires IsHeld(Some(held), n)
    ensures OkMember(AsMember(held.item), held.index) && MemberNodes(AsMember(held.item)) == 1
  {}

  lemma {:induction false} MembersTree(pat: string, p: nat, n: nat, done: seq<SetItem>, held: Option<Held>)
    requires IsPattern(pat) && p <= |pat| && IsHeld(held, n)
    ensures var r := ParseMembers(pat, p, n, done, held); r.Parsed? ==> Extends(done, r.value, Start(held, n), r.n)
    decreases |pat| - p
  {
    hide Extends, OkMember, EndText, ParseEscapeChar, ParseCharNode;
    var c, r := At(pat, p), ParseMembers(pat, p, n, done, held);
    if held.Some? {
      HeldMember(held.value, n);
    }
    if c == ']' {
      ExtendsNone(Release(done, held), n);
      if held.Some? {
        ExtendsFirst(done, AsMember(held.value.item), r.value, held.value.index, n);
      }
    } else if c == '-' && held.Some? {
      if r.Parsed? {
        EndTree(pat, p + 1, n + 1);
        var t := ParseEscapeChar(pat, p + 1, n + 1);
        var m := Range(held.value.item.code, t.value as int);
        MembersTree(pat, t.p, t.n, done + [m], None);
        RangeOk(held.value, n, t.value, At(pat, p + 1));
        ExtendsFirst(done, m, r.value, held.value.index, r.n);
      }
    } else {
      CharTree(pat, p, n, true);
      var t := ParseCharNode(pat, p, n, true);
      if t.Parsed? {
        MembersTree(pat, t.p, t.n, Release(done, held), Some(Held(n, t.value)));
        if held.Some? && r.Parsed? {
          ExtendsFirst(done, AsMember(held.value.item), r.value, held.value.index, r.n);
        }
      }
    }
  }

  lemma RangeOk(held: Held, n: nat, to: char, c: char)
    requires IsHeld(Some(held), n) && held.item.Char? && IsCode(to as int) && held.index <= c as int && c <= EndText(to as int)[0]
    ensures OkMember(Range(held.item.code, to as int), held.index)
  {}

  lemma ExtendsNone(done: seq<SetItem>, n: nat)
    ensures Extends(done, done, n, n)
  {
    assert done[|done|..] == [];
  }

  lemma ClassTree(pat: string, p: nat, n: nat)
    requires IsPattern(pat) && p <= |pat|
    ensures var r := ParseClass(pat, p, n); r.Parsed? ==> IsAtom(r.value, n) && r.n == n + Nodes(r.value)
  {
    hide OkMembers, ParseMembers;
    var q := if At(pat, p) == '^' then p + 1 else p;
    MembersTree(pat, q, n + 1, [], None);
    var r := ParseMembers(pat, q, n + 1, [], None);
    if r.Parsed? {
      assert r.value[0..] == r.value;
    }
  }

  lemma {:induction false} AtomTree(pat: string, p: nat, n: nat)
    requires IsPattern(pat) && p <= |pat|
    ensures var r := ParseAtom(pat, p, n); r.Parsed? ==> IsAtom(r.value, n) && r.n == n + Nodes(r.value)
    decreases |pat| - p, 1
  {
    hide ParseCharNode, ParseClass, ParseList, OkMembers, IsList;
    match At(pat, p)
    case '(' =>
      var q := if At(pat, p + 1) != '?' then p + 1 else p + 3;
      if q <= |pat| {
        ListTree(pat, q, n + 1);
      }
    case '[' => ClassTree(pat, p + 1, n);
    case _ => CharTree(pat, p, n, false);
  }

  lemma {:induction false} ItemTree(pat: string, p: nat, n: nat)
    requires IsPattern(pat) && p <= |pat|
    ensures var r := ParseItem(pat, p, n); r.Parsed? ==> IsElement(r.value, n) && r.n == n + Nodes(r.value)
    decreases |pat| - p, 2
  {
    hide ParseAtom, ParseQuantifier, IsAtom;
    AtomTree(pat, p, n);
    AtomNoRepeat(pat, p, n);
  }

  lemma AtomNoRepeat(pat: string, p: nat, n: nat)
    requires p <= |pat|
    ensures var r := ParseAtom(pat, p, n); r.Parsed? ==> !r.value.Repeat? && !r.value.Either? && !r.value.LineStart?
  {
    hide ParseList, ParseMembers;
  }

  lemma {:induction false} SequenceTree(pat: string, p: nat, n: nat)
    requires IsPattern(pat) && p <= |pat|
    ensures var r := ParseElement(pat, p, n);
      r.Parsed? ==> IsSequence(r.value, n) && r.n == n + AllNodes(r.value) && !r.value.head.Either? && !r.value.head.LineStart?
    decreases |pat| - p, 3
  {
    hide ParseItem, IsElement;
    ItemTree(pat, p, n);
    ItemPlain(pat, p, n);
    var t := ParseItem(pat, p, n);
    if t.Parsed? && !EndsSequence(At(pat, t.p)) {
      SequenceTree(pat, t.p, t.n);
    }
  }

  lemma ItemPlain(pat: string, p: nat, n: nat)
    requires p <= |pat|
    ensures var r := ParseItem(pat, p, n); r.Parsed? ==> !r.value.Either? && !r.value.LineStart?
  {
    hide ParseAtom, ParseQuantifier;
    AtomNoRepeat(pat, p, n);
  }

  lemma {:induction false} BranchTree(pat: string, p: nat, n: nat)
    requires IsPattern(pat) && p <= |pat|
    ensures var r := ParseBranch(pat, p, n);
      r.Parsed? ==> IsBranch(r.value, n) && r.n == n + AllNodes(r.value) && !(r.value.Last? && r.value.head.Either?)
    decreases |pat| - p, 4
  {
    hide ParseElement, IsSequence;
    if At(pat, p) == '^' {
      SequenceTree(pat, p + 1, n + 1);
    } else {
      SequenceTree(pat, p, n);
    }
  }

  lemma {:induction false} ListTree(pat: string, p: nat, n: nat)
    requires IsPattern(pat) && p <= |pat|
    ensures var r := ParseList(pat, p, n); r.Parsed? ==> IsList(r.value, n) && r.n == n + AllNodes(r.value)
    decreases |pat| - p, 5
  {
    hide ParseBranch, IsBranch;
    BranchTree(pat, p, n);
    var t := ParseBranch(pat, p, n);
    if t.Parsed? && At(pat, t.p) == '|' {
      ListTree(pat, t.p + 1, t.n + 1);
    }
  }

  // ---------------------------------------------------------------------------
  // What is written is a pattern
  // ---------------------------------------------------------------------------

  lemma CodeIsPattern(code: int, special: string)
    ensures IsPattern(CodeText(code, special)) && IsPattern(EndText(code))
  {}

  lemma PatternJoin(s: string, t: string)
    requires IsPattern(s) && IsPattern(t)
    ensures IsPattern(s + t)
  {}

  lemma {:induction false} MembersArePattern(ms: seq<SetItem>, n: nat)
    requires OkMembers(ms, n)
    ensures IsPattern(MembersText(ms))
    decreases |ms|
  {
    if ms != [] {
      hide CodeText, EndText, IsPattern;
      MemberIsPattern(ms[0], n);
      MembersArePattern(ms[1..], n + MemberNodes(ms[0]));
      PatternJoin(MemberText(ms[0]), MembersText(ms[1..]));
    }
  }

  lemma MemberIsPattern(m: SetItem, n: nat)
    requires OkMember(m, n)
    ensures IsPattern(MemberText(m))
  {
    hide CodeText, EndText;
    match m
    case One(code) => CodeIsPattern(code, CLASS_SPECIAL);
    case Escape(_) =>
    case Range(from, to) =>
      CodeIsPattern(from, CLASS_SPECIAL);
      CodeIsPattern(to, CLASS_SPECIAL);
  }

  lemma QuantifierIsPattern(min: nat, max: nat)
    ensures IsPattern(Text(Quantifier(min, max)))
  {
    hide ToDecimal;
    assert forall c: char :: IsDigit(c) ==> 0 < c as int <= MAX_CHAR;
    var a, b := ToDecimal(min), ToDecimal(max);
    assert IsPattern(a) && IsPattern(b);
  }

  lemma {:induction false} ItemIsPattern(item: Item, n: nat)
    requires IsElement(item, n)
    ensures IsPattern(ShowItem(item))
    decreases item, 0
  {
    hide IsPattern, CodeText, OkMembers, MembersText, Text, Quantifier, Show;
    match item
    case Char(code) => CodeIsPattern(code, SPECIAL);
    case Class(negated, members) =>
      MembersArePattern(members, n + 1);
      Fixed();
      PatternJoin(MembersText(members), "]");
      PatternJoin(if negated then "[^" else "[", MembersText(members) + "]");
    case Group(capture, body) =>
      ListIsPattern(body, n + 1);
      Fixed();
      PatternJoin(Show(body), ")");
      PatternJoin(if capture then "(" else "(?:", Show(body) + ")");
    case Repeat(it, min, max) =>
      assert IsElement(it, n);
      ItemIsPattern(it, n);
      QuantifierIsPattern(min, max);
      PatternJoin(ShowItem(it), Text(Quantifier(min, max)));
    case CharClass(id) => EscapeIsPattern(id);
    case WordBoundary(id) => EscapeIsPattern(id);
    case _ => Fixed();
  }

  lemma EscapeIsPattern(id: char)
    requires IsClassEscape(id) || id == 'b' || id == 'B'
    ensures IsPattern(['\\', id])
  {}

  lemma Fixed()
    ensures IsPattern("]") && IsPattern("[") && IsPattern("[^") && IsPattern(")") && IsPattern("(") && IsPattern("(?:")
    ensures IsPattern(".") && IsPattern("$") && IsPattern("^") && IsPattern("|")
  {}

  lemma {:induction false} SequenceIsPattern(items: Items, n: nat)
    requires IsSequence(items, n)
    ensures IsPattern(Show(items))
    decreases items, 1
  {
    hide IsPattern, IsElement;
    ItemIsPattern(items.head, n);
    if items.More? {
      SequenceIsPattern(items.tail, n + Nodes(items.head));
      PatternJoin(ShowItem(items.head), Show(items.tail));
    }
  }

  lemma BranchIsPattern(items: Items, n: nat)
    requires IsBranch(items, n)
    ensures IsPattern(Show(items))
    decreases items, 2
  {
    hide IsPattern, IsSequence;
    if items.More? && items.head.LineStart? {
      SequenceIsPattern(items.tail, n + 1);
      Fixed();
      PatternJoin("^", Show(items.tail));
    } else {
      SequenceIsPattern(items, n);
    }
  }

  lemma {:induction false} ListIsPattern(items: Items, n: nat)
    requires IsList(items, n)
    ensures IsPattern(Show(items))
    decreases items, 3
  {
    hide IsPattern, IsBranch;
    if items.Last? && items.head.Either? {
      var l, r := items.head.left, items.head.right;
      BranchIsPattern(l, n);
      ListIsPattern(r, n + AllNodes(l) + 1);
      Fixed();
      PatternJoin("|", Show(r));
      PatternJoin(Show(l), "|" + Show(r));
    } else {
      BranchIsPattern(items, n);
    }
  }

  /** The trees of patterns are exactly those that can be written. */
  lemma TreesExact(items: Items)
    ensures IsList(items, 1) <==>
      exists pat :: IsPattern(pat) && ParsePattern(pat).Parsed? && ParsePattern(pat).value == items
  {
    hide IsList, ParseList, Show, IsPattern;
    if IsList(items, 1) {
      PatternRead(items);
      ListIsPattern(items, 1);
      var pat := Show(items);
      assert IsPattern(pat) && ParsePattern(pat).value == items;
    }
    if pat :| IsPattern(pat) && ParsePattern(pat).Parsed? && ParsePattern(pat).value == items {
      ListTree(pat, 0, 1);
    }
  }
}
