/** Syntax trees as patterns. Every tree that a pattern can have is written as a pattern here, and that pattern is
    read as the tree. */
module RegexShow {
  import opened Chars
  import opened Decimals
  import opened RegexBounds
  import opened RegexSyntax
  import opened Wrappers

  // ---------------------------------------------------------------------------
  // Characters
  // ---------------------------------------------------------------------------

  const SPECIAL: string := "\\.[()*+?{|^$"
  const CLASS_SPECIAL: string := "\\]^-"

  predicate IsCode(code: int) { 0 < code <= MAX_CHAR }

  function ControlLetter(c: char): Option<char> {
    match c as int
    case 9 => Some('t')
    case 10 => Some('n')
    case 11 => Some('v')
    case 12 => Some('f')
    case 13 => Some('r')
    case _ => None
  }

  /** A character as itself, by its letter, or behind a backslash. */
  function CharText(c: char, special: string): (s: string)
    ensures s != ""
  {
    if ControlLetter(c).Some? then ['\\', ControlLetter(c).value]
    else if IsPrintable(c) && c !in special then [c]
    else ['\\', c]
  }

  function CodeText(code: int, special: string): (s: string)
    ensures s != ""
  {
    if IsCode(code) then CharText(code as char, special) else "?"
  }

  predicate IsSpecial(special: string) {
    '\\' in special && forall c :: c in special ==> !IsAlpha(c)
  }

  lemma ReadsTwo(pat: string, p: nat, a: char, b: char)
    requires Reads(pat, p, [a, b])
    ensures p + 1 < |pat| && pat[p] == a && pat[p + 1] == b
  {
    assert pat[p..p + 2][0] == a && pat[p..p + 2][1] == b;
  }

  lemma CharRead(pat: string, p: nat, n: nat, code: int, special: string, isClass: bool)
    requires IsCode(code) && IsSpecial(special) && Reads(pat, p, CodeText(code, special))
    ensures ParseCharNode(pat, p, n, isClass) == Parsed(Char(code), p + |CodeText(code, special)|, n + 1)
    ensures ParseEscapeChar(pat, p, n) == Parsed(code as char, p + |CodeText(code, special)|, n)
  {
    var c := code as char;
    var s := CharText(c, special);
    if ControlLetter(c).Some? {
      ReadsTwo(pat, p, '\\', ControlLetter(c).value);
    } else if IsPrintable(c) && c !in special {
      ReadsFirst(pat, p, [c]);
    } else {
      ReadsTwo(pat, p, '\\', c);
      assert !IsAlpha(c);
    }
  }

  /** Escapes of classes and word boundaries. */
  lemma EscapeRead(pat: string, p: nat, n: nat, id: char, isClass: bool)
    requires Reads(pat, p, ['\\', id]) && (IsClassEscape(id) || (!isClass && (id == 'b' || id == 'B')))
    ensures ParseCharNode(pat, p, n, isClass) ==
      Parsed(if IsClassEscape(id) then CharClass(id) else WordBoundary(id), p + 2, n + 1)
  {
    ReadsTwo(pat, p, '\\', id);
  }

  // ---------------------------------------------------------------------------
  // Classes
  // ---------------------------------------------------------------------------

  /** The end of a range, so that its first character is as large as it can be. */
  function EndText(code: int): (s: string)
    ensures s != ""
  {
    if !IsCode(code) then "?"
    else
      var c := code as char;
      if ControlLetter(c).Some? then ['\\', ControlLetter(c).value]
      else if IsPrintable(c) && c > '\\' then [c]
      else ['\\', c]
  }

  lemma EndRead(pat: string, p: nat, n: nat, code: int)
    requires IsCode(code) && Reads(pat, p, EndText(code))
    ensures ParseEscapeChar(pat, p, n) == Parsed(code as char, p + |EndText(code)|, n)
  {
    var c := code as char;
    if ControlLetter(c).Some? {
      ReadsTwo(pat, p, '\\', ControlLetter(c).value);
    } else if IsPrintable(c) && c > '\\' {
      ReadsFirst(pat, p, [c]);
    } else {
      ReadsTwo(pat, p, '\\', c);
    }
  }

  function MemberText(m: SetItem): (s: string)
    ensures s != ""
  {
    match m
    case One(code) => CodeText(code, CLASS_SPECIAL)
    case Escape(id) => ['\\', id]
    case Range(from, to) => CodeText(from, CLASS_SPECIAL) + ("-" + EndText(to))
  }

  function MembersText(ms: seq<SetItem>): string {
    if ms == [] then "" else MemberText(ms[0]) + MembersText(ms[1..])
  }

  /** The nodes that the compiler makes for a member. */
  function MemberNodes(m: SetItem): nat { if m.Range? then 2 else 1 }

  function MembersNodes(ms: seq<SetItem>): nat {
    if ms == [] then 0 else MemberNodes(ms[0]) + MembersNodes(ms[1..])
  }

  /** The member can be written, as the n-th node; a range only if it passes the check of its order. */
  predicate OkMember(m: SetItem, n: nat) {
    match m
    case One(code) => IsCode(code)
    case Escape(id) => IsClassEscape(id)
    case Range(from, to) => IsCode(from) && IsCode(to) && n <= EndText(to)[0] as int
  }

  predicate OkMembers(ms: seq<SetItem>, n: nat)
    decreases |ms|
  {
    ms != [] ==> OkMember(ms[0], n) && OkMembers(ms[1..], n + MemberNodes(ms[0]))
  }

  lemma MemberStarts(m: SetItem, n: nat)
    requires OkMember(m, n)
    ensures MemberText(m)[0] != ']' && MemberText(m)[0] != '-' && MemberText(m)[0] != '^'
  {}

  lemma ClassSpecial()
    ensures IsSpecial(CLASS_SPECIAL) && IsSpecial(SPECIAL)
  {}

  /** The element that is held for a single member. */
  function MemberItem(m: SetItem): Item {
    match m
    case One(code) => Char(code)
    case Escape(id) => CharClass(id)
    case Range(from, _) => Char(from)
  }

  /** One character or escape of a class. */
  lemma SingleRead(pat: string, p: nat, n: nat, done: seq<SetItem>, held: Option<Held>, m: SetItem)
    requires !m.Range? && OkMember(m, n) && Reads(pat, p, MemberText(m))
    ensures p + |MemberText(m)| <= |pat| && ParseMembers(pat, p, n, done, held) ==
      ParseMembers(pat, p + |MemberText(m)|, n + 1, Release(done, held), Some(Held(n, MemberItem(m))))
  {
    MemberStarts(m, n);
    ReadsFirst(pat, p, MemberText(m));
    ClassSpecial();
    match m
    case One(code) => CharRead(pat, p, n, code, CLASS_SPECIAL, true);
    case Escape(id) => EscapeRead(pat, p, n, id, true);
  }

  /** The rest of a range, behind its start. */
  lemma DashRead(pat: string, q: nat, n: nat, done: seq<SetItem>, from: int, to: int)
    requires OkMember(Range(from, to), n) && Reads(pat, q, "-" + EndText(to))
    ensures q + 1 + |EndText(to)| <= |pat| && ParseMembers(pat, q, n + 1, done, Some(Held(n, Char(from)))) ==
            ParseMembers(pat, q + 1 + |EndText(to)|, n + 2, done + [Range(from, to)], None)
  {
    hide EndText;
    var s := EndText(to);
    ReadsPart(pat, q, "-", s);
    ReadsFirst(pat, q, "-");
    ReadsFirst(pat, q + 1, s);
    EndRead(pat, q + 1, n + 2, to);
  }

  lemma RangeRead(pat: string, p: nat, n: nat, done: seq<SetItem>, held: Option<Held>, m: SetItem)
    requires m.Range? && OkMember(m, n) && Reads(pat, p, MemberText(m))
    ensures p + |MemberText(m)| <= |pat| && ParseMembers(pat, p, n, done, held) ==
      ParseMembers(pat, p + |MemberText(m)|, n + 2, Release(done, held) + [m], None)
  {
    hide ParseMembers, CodeText, EndText, Reads;
    var from, to := CodeText(m.from, CLASS_SPECIAL), EndText(m.to);
    ReadsPart(pat, p, from, "-" + to);
    SingleRead(pat, p, n, done, held, One(m.from));
    DashRead(pat, p + |from|, n, Release(done, held), m.from, m.to);
  }

  /** The members up to the closing bracket. */
  lemma {:induction false} MembersRead(pat: string, p: nat, n: nat, done: seq<SetItem>, held: Option<Held>, ms: seq<SetItem>)
    requires OkMembers(ms, n) && Reads(pat, p, MembersText(ms) + "]")
    ensures p <= |pat| && ParseMembers(pat, p, n, done, held) ==
            Parsed(Release(done, held) + ms, p + |MembersText(ms)|, n + MembersNodes(ms))
    decreases |ms|
  {
    hide Reads, MemberText, OkMember, AsMember, ParseMembers;
    if ms == [] {
      MembersEnd(pat, p, n, done, held);
    } else {
      var m, more, before := ms[0], MembersText(ms[1..]), Release(done, held);
      Behind(MemberText(m), more, "]");
      ReadsPart(pat, p, MemberText(m), more + "]");
      var q := p + |MemberText(m)|;
      if m.Range? {
        RangeRead(pat, p, n, done, held, m);
        MembersRead(pat, q, n + 2, before + [m], None, ms[1..]);
      } else {
        SingleRead(pat, p, n, done, held, m);
        MembersRead(pat, q, n + 1, before, Some(Held(n, MemberItem(m))), ms[1..]);
        ReleaseSingle(before, n, m);
      }
      FirstAndRest(before, ms);
    }
  }

  lemma Behind(a: string, b: string, c: string)
    ensures a + b + c == a + (b + c)
  {}

  lemma FirstAndRest<T>(before: seq<T>, s: seq<T>)
    requires s != []
    ensures before + [s[0]] + s[1..] == before + s
  {}

  lemma ReleaseSingle(done: seq<SetItem>, n: nat, m: SetItem)
    requires !m.Range?
    ensures Release(done, Some(Held(n, MemberItem(m)))) == done + [m]
  {}

  lemma MembersEnd(pat: string, p: nat, n: nat, done: seq<SetItem>, held: Option<Held>)
    requires Reads(pat, p, "" + "]")
    ensures p <= |pat| && ParseMembers(pat, p, n, done, held) == Parsed(Release(done, held) + [], p, n)
  {
    ReadsFirst(pat, p, "" + "]");
    assert Release(done, held) + [] == Release(done, held);
  }

  // ---------------------------------------------------------------------------
  // Trees
  // ---------------------------------------------------------------------------

  /** The shortest quantifier for the bounds. */
  function Quantifier(min: nat, max: nat): Written {
    if min == 0 && max == UNBOUNDED then Any
    else if min == 1 && max == UNBOUNDED then Plus
    else if min == 0 && max == 1 then Maybe
    else if min == max then Exactly(ToDecimal(min))
    else if max == UNBOUNDED then AtLeast(ToDecimal(min))
    else Between(ToDecimal(min), ToDecimal(max))
  }

  function ShowItem(item: Item): string {
    match item
    case Char(code) => CodeText(code, SPECIAL)
    case Dot => "."
    case CharClass(id) => ['\\', id]
    case Class(negated, members) => (if negated then "[^" else "[") + (MembersText(members) + "]")
    case Group(capture, body) => (if capture then "(" else "(?:") + (Show(body) + ")")
    case Repeat(it, min, max) => ShowItem(it) + Text(Quantifier(min, max))
    case Either(l, r) => Show(l) + ("|" + Show(r))
    case LineStart => "^"
    case LineEnd => "$"
    case WordBoundary(id) => ['\\', id]
  }

  function Show(items: Items): string {
    match items
    case Last(head) => ShowItem(head)
    case More(head, tail) => ShowItem(head) + Show(tail)
  }

  /** The nodes that the compiler makes for an element. */
  function Nodes(item: Item): nat {
    match item
    case Class(_, members) => 1 + MembersNodes(members)
    case Group(_, body) => 1 + AllNodes(body)
    case Repeat(it, _, _) => Nodes(it) + 1
    case Either(l, r) => AllNodes(l) + 1 + AllNodes(r)
    case _ => 1
  }

  function AllNodes(items: Items): nat {
    match items
    case Last(head) => Nodes(head)
    case More(head, tail) => Nodes(head) + AllNodes(tail)
  }

  /** The trees that a pattern can have, from the n-th node on: an atom, an atom with a quantifier, a sequence of
      these, the same after a line start, and alternatives. */
  predicate IsAtom(item: Item, n: nat)
    decreases item, 0
  {
    match item
    case Char(code) => IsCode(code)
    case Dot => true
    case CharClass(id) => IsClassEscape(id)
    case Class(_, members) => members != [] && OkMembers(members, n + 1)
    case Group(_, body) => IsList(body, n + 1)
    case LineEnd => true
    case WordBoundary(id) => id == 'b' || id == 'B'
    case _ => false
  }

  predicate IsElement(item: Item, n: nat)
    decreases item, 1
  {
    if item.Repeat? then IsAtom(item.item, n) && item.min <= UNBOUNDED && item.max <= UNBOUNDED else IsAtom(item, n)
  }

  predicate IsSequence(items: Items, n: nat)
    decreases items, 2
  {
    IsElement(items.head, n) && (items.More? ==> IsSequence(items.tail, n + Nodes(items.head)))
  }

  predicate IsBranch(items: Items, n: nat)
    decreases items, 3
  {
    if items.More? && items.head.LineStart? then IsSequence(items.tail, n + 1) else IsSequence(items, n)
  }

  predicate IsList(items: Items, n: nat)
    decreases items, 4
  {
    if items.Last? && items.head.Either? then
      IsBranch(items.head.left, n) && IsList(items.head.right, n + AllNodes(items.head.left) + 1)
    else IsBranch(items, n)
  }

  // ---------------------------------------------------------------------------
  // How trees begin
  // ---------------------------------------------------------------------------

  predicate IsSign(c: char) { c == '*' || c == '+' || c == '?' || c == '{' }

  /** Neither a quantifier nor the end of a sequence. */
  predicate Begins(c: char) {
    !IsSign(c) && c != '|' && c != ')' && c != NUL
  }

  lemma CodeStarts(code: int)
    requires IsCode(code)
    ensures var c := CodeText(code, SPECIAL)[0]; Begins(c) && c != '(' && c != '[' && c != '$' && c != '.' && c != '^'
  {}

  lemma ElementStarts(item: Item, n: nat)
    requires IsElement(item, n)
    ensures ShowItem(item) != "" && Begins(ShowItem(item)[0]) && ShowItem(item)[0] != '^'
    decreases item
  {
    if item.Repeat? {
      ElementStarts(item.item, n);
    } else if item.Char? {
      CodeStarts(item.code);
    }
  }

  lemma SequenceStarts(items: Items, n: nat)
    requires IsSequence(items, n)
    ensures Show(items) != "" && Begins(Show(items)[0]) && Show(items)[0] != '^'
  {
    ElementStarts(items.head, n);
  }

  lemma BranchStarts(items: Items, n: nat)
    requires IsBranch(items, n)
    ensures Show(items) != "" && Begins(Show(items)[0])
  {
    if !(items.More? && items.head.LineStart?) {
      SequenceStarts(items, n);
    }
  }

  lemma ListStarts(items: Items, n: nat)
    requires IsList(items, n)
    ensures Show(items) != "" && Begins(Show(items)[0])
  {
    if items.Last? && items.head.Either? {
      BranchStarts(items.head.left, n);
    } else {
      BranchStarts(items, n);
    }
  }

  // ---------------------------------------------------------------------------
  // Reading what is shown
  // ---------------------------------------------------------------------------

  lemma DecimalOk(n: nat)
    requires n <= UNBOUNDED
    ensures var s := ToDecimal(n); IsNumeral(s) && |s| <= 9 && Number(s) == n
  {
    NumberOfDecimal(n);
    hide ToDecimal, Number;
    assert Power10(5) == 100000;
    DecimalLength(n, 5, 100000);
  }

  lemma QuantifierOk(min: nat, max: nat)
    requires min <= UNBOUNDED && max <= UNBOUNDED
    ensures var w := Quantifier(min, max); IsWritten(w) && IsShort(w) && Stored(w) == Bounds(min, max)
  {
    hide ToDecimal, Number, IsNumeral;
    DecimalOk(min);
    DecimalOk(max);
  }

  lemma NoQuantifier(pat: string, q: nat)
    requires q <= |pat| && !IsSign(At(pat, q))
    ensures ParseQuantifier(pat, q) == Parsed(None, q, 0)
  {}

  lemma ReadsWhole(pat: string, p: nat, s: string)
    requires Reads(pat, p, s)
    ensures p + |s| <= |pat|
  {}

  lemma ClassRead(pat: string, p: nat, n: nat, item: Item)
    requires item.Class? && IsAtom(item, n) && Reads(pat, p, ShowItem(item))
    ensures p + |ShowItem(item)| <= |pat| && ParseAtom(pat, p, n) == Parsed(item, p + |ShowItem(item)|, n + Nodes(item))
  {
    hide Reads, ParseMembers, MemberText, OkMembers;
    var ms, head := item.members, if item.negated then "[^" else "[";
    var body := MembersText(ms) + "]";
    ReadsPart(pat, p, head, body);
    ReadsFirst(pat, p, head);
    if item.negated {
      ReadsTwo(pat, p, '[', '^');
    }
    var q := p + |head|;
    OpensMembers(ms, n + 1);
    ReadsFirst(pat, q, body);
    MembersRead(pat, q, n + 1, [], None, ms);
    ReadsPart(pat, q, MembersText(ms), "]");
    ReadsFirst(pat, q + |MembersText(ms)|, "]");
    assert [] + ms == ms;
  }

  lemma OpensMembers(ms: seq<SetItem>, n: nat)
    requires ms != [] && OkMembers(ms, n)
    ensures var s := MembersText(ms) + "]"; s[0] != ']' && s[0] != '^' && s[0] != '-'
  {
    MemberStarts(ms[0], n);
  }

  lemma {:induction false} AtomRead(pat: string, p: nat, n: nat, item: Item)
    requires IsAtom(item, n) && Reads(pat, p, ShowItem(item))
    ensures p + |ShowItem(item)| <= |pat| && ParseAtom(pat, p, n) == Parsed(item, p + |ShowItem(item)|, n + Nodes(item))
    decreases item, 0
  {
    hide Reads;
    match item
    case Char(code) =>
      ClassSpecial();
      CodeStarts(code);
      ReadsFirst(pat, p, ShowItem(item));
      CharRead(pat, p, n, code, SPECIAL, false);
    case CharClass(id) =>
      ReadsTwo(pat, p, '\\', id);
      EscapeRead(pat, p, n, id, false);
    case WordBoundary(id) =>
      ReadsTwo(pat, p, '\\', id);
      EscapeRead(pat, p, n, id, false);
    case Class(_, _) => ClassRead(pat, p, n, item);
    case Group(capture, body) => GroupRead(pat, p, n, capture, body);
    case _ => ReadsFirst(pat, p, ShowItem(item));
  }

  lemma {:induction false} GroupRead(pat: string, p: nat, n: nat, capture: bool, body: Items)
    requires IsList(body, n + 1) && Reads(pat, p, ShowItem(Group(capture, body)))
    ensures var item := Group(capture, body);
      p + |ShowItem(item)| <= |pat| && ParseAtom(pat, p, n) == Parsed(item, p + |ShowItem(item)|, n + Nodes(item))
    decreases body, 6
  {
    hide Reads, ParseList, IsList, Nodes;
    var head, s := if capture then "(" else "(?:", Show(body);
    ReadsPart(pat, p, head, s + ")");
    var q := p + |head|;
    ReadsPart(pat, q, s, ")");
    ReadsFirst(pat, q + |s|, ")");
    ListStarts(body, n + 1);
    ReadsFirst(pat, q, s);
    GroupHead(pat, p, capture);
    ListRead(pat, q, n + 1, body);
    NodesOfGroup(capture, body);
  }

  lemma NodesOfGroup(capture: bool, body: Items)
    ensures Nodes(Group(capture, body)) == 1 + AllNodes(body)
  {}

  lemma GroupHead(pat: string, p: nat, capture: bool)
    requires Reads(pat, p, if capture then "(" else "(?:")
    ensures p < |pat| && pat[p] == '(' && (!capture ==> p + 2 < |pat| && pat[p + 1] == '?' && pat[p + 2] == ':')
  {
    ReadsFirst(pat, p, if capture then "(" else "(?:");
    if !capture {
      assert pat[p..p + 3][1] == '?' && pat[p..p + 3][2] == ':';
    }
  }

  lemma {:induction false} ElementRead(pat: string, p: nat, n: nat, item: Item)
    requires IsElement(item, n) && Reads(pat, p, ShowItem(item)) && !IsSign(At(pat, p + |ShowItem(item)|))
    ensures p + |ShowItem(item)| <= |pat| && ParseItem(pat, p, n) == Parsed(item, p + |ShowItem(item)|, n + Nodes(item))
    decreases item, 1
  {
    hide Reads, ParseAtom, ParseQuantifier, IsAtom, Text, Stored;
    if item.Repeat? {
      var w := Quantifier(item.min, item.max);
      QuantifierOk(item.min, item.max);
      ReadsPart(pat, p, ShowItem(item.item), Text(w));
      AtomRead(pat, p, n, item.item);
      QuantifierRead(pat, p + |ShowItem(item.item)|, w);
      ReadsWhole(pat, p, ShowItem(item));
    } else {
      AtomRead(pat, p, n, item);
      NoQuantifier(pat, p + |ShowItem(item)|);
    }
  }

  /** What ends a sequence here: an alternative, the end of a group, or the end of the pattern. */
  predicate Closes(c: char) { c == '|' || c == ')' || c == NUL }

  lemma {:induction false} SequenceRead(pat: string, p: nat, n: nat, items: Items)
    requires IsSequence(items, n) && Reads(pat, p, Show(items)) && Closes(At(pat, p + |Show(items)|))
    ensures p + |Show(items)| <= |pat| && ParseElement(pat, p, n) == Parsed(items, p + |Show(items)|, n + AllNodes(items))
    decreases items, 2
  {
    hide Reads, ParseItem, IsElement, ShowItem;
    match items
    case Last(head) => ElementRead(pat, p, n, head);
    case More(head, tail) =>
      ReadsPart(pat, p, ShowItem(head), Show(tail));
      var q := p + |ShowItem(head)|;
      SequenceStarts(tail, n + Nodes(head));
      ReadsFirst(pat, q, Show(tail));
      ElementRead(pat, p, n, head);
      SequenceRead(pat, q, n + Nodes(head), tail);
  }

  lemma {:induction false} BranchRead(pat: string, p: nat, n: nat, items: Items)
    requires IsBranch(items, n) && Reads(pat, p, Show(items)) && Closes(At(pat, p + |Show(items)|))
    ensures p + |Show(items)| <= |pat| && ParseBranch(pat, p, n) == Parsed(items, p + |Show(items)|, n + AllNodes(items))
    decreases items, 3
  {
    hide Reads, ParseElement, IsSequence;
    if items.More? && items.head.LineStart? {
      ReadsPart(pat, p, "^", Show(items.tail));
      ReadsFirst(pat, p, "^");
      SequenceRead(pat, p + 1, n + 1, items.tail);
    } else {
      SequenceStarts(items, n);
      ReadsFirst(pat, p, Show(items));
      SequenceRead(pat, p, n, items);
    }
  }

  lemma {:induction false} ListRead(pat: string, p: nat, n: nat, items: Items)
    requires IsList(items, n) && Reads(pat, p, Show(items))
    requires var c := At(pat, p + |Show(items)|); c == ')' || c == NUL
    ensures p + |Show(items)| <= |pat| && ParseList(pat, p, n) == Parsed(items, p + |Show(items)|, n + AllNodes(items))
    decreases items, 4
  {
    hide Reads, ParseBranch, IsBranch;
    if items.Last? && items.head.Either? {
      var l, r := items.head.left, items.head.right;
      ReadsPart(pat, p, Show(l), "|" + Show(r));
      var q := p + |Show(l)|;
      ReadsPart(pat, q, "|", Show(r));
      ReadsFirst(pat, q, "|");
      BranchRead(pat, p, n, l);
      ListRead(pat, q + 1, n + AllNodes(l) + 1, r);
    } else {
      BranchRead(pat, p, n, items);
    }
  }

  /** The pattern that is written for a tree is read as that tree. */
  lemma PatternRead(items: Items)
    requires IsList(items, 1)
    ensures ParsePattern(Show(items)) == Parsed(items, |Show(items)|, 1 + AllNodes(items))
  {
    hide ParseList, IsList, Show;
    var pat := Show(items);
    assert pat[0..0 + |pat|] == pat;
    ListRead(pat, 0, 1, items);
  }
}
