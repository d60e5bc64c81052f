/** What single elements match: the classes of the class escapes by their characters, bracket classes by their
    members, and where word boundaries are. */
module RegexClasses {
  import opened Chars
  import opened RegexDecided
  import opened RegexLanguage
  import opened RegexRuns
  import opened RegexShow
  import opened RegexSyntax
  import opened Wrappers

  /** A capital letter stands for the complement of its small letter's class; `l` and `u` have none. */
  lemma Complements(c: char)
    ensures MatchesClassEscape('A', c) != MatchesClassEscape('a', c) && MatchesClassEscape('W', c) != MatchesClassEscape('w', c)
    ensures MatchesClassEscape('S', c) != MatchesClassEscape('s', c) && MatchesClassEscape('D', c) != MatchesClassEscape('d', c)
    ensures MatchesClassEscape('X', c) != MatchesClassEscape('x', c) && MatchesClassEscape('C', c) != MatchesClassEscape('c', c)
    ensures MatchesClassEscape('P', c) != MatchesClassEscape('p', c)
    ensures !MatchesClassEscape('L', c) && !MatchesClassEscape('U', c)
  {}

  predicate Within(c: char, from: int, to: int) {
    from <= c as int <= to
  }

  /** The classes by their codes. */
  lemma Codes(c: char)
    ensures MatchesClassEscape('d', c) <==> Within(c, 48, 57)
    ensures MatchesClassEscape('u', c) <==> Within(c, 65, 90)
    ensures MatchesClassEscape('l', c) <==> Within(c, 97, 122)
    ensures MatchesClassEscape('x', c) <==> Within(c, 48, 57) || Within(c, 65, 70) || Within(c, 97, 102)
    ensures MatchesClassEscape('s', c) <==> c == ' ' || Within(c, 9, 13)
    ensures MatchesClassEscape('c', c) <==> Within(c, 0, 31) || c as int == 127
    ensures MatchesClassEscape('p', c) <==> Within(c, 33, 47) || Within(c, 58, 64) || Within(c, 91, 96) || Within(c, 123, 126)
    ensures MatchesClassEscape('a', c) <==> MatchesClassEscape('l', c) || MatchesClassEscape('u', c)
    ensures MatchesClassEscape('w', c) <==> MatchesClassEscape('a', c) || MatchesClassEscape('d', c) || c == '_'
  {}

  predicate OneOf(a: bool, b: bool, c: bool, d: bool, e: bool) {
    (if a then 1 else 0) + (if b then 1 else 0) + (if c then 1 else 0) + (if d then 1 else 0) + (if e then 1 else 0) == 1
  }

  /** Every character of ASCII is a control character, the blank, a letter, a digit or punctuation, and only one of
      these. */
  lemma Partition(c: char)
    requires c as int < 128
    ensures OneOf(MatchesClassEscape('c', c), c == ' ', MatchesClassEscape('a', c), MatchesClassEscape('d', c),
                  MatchesClassEscape('p', c))
  {
    Codes(c);
    hide MatchesClassEscape;
  }

  // ---------------------------------------------------------------------------
  // Patterns of one element
  // ---------------------------------------------------------------------------

  /** An element that takes one character, alone. */
  lemma SingleExact(mem: Memory, it: Item)
    requires IsSingle(it)
    ensures Matches(mem, Last(it)) <==> |mem.text| == 1 && IsOne(it, mem.text[0])
  {
    hide IsOne;
    var body := Last(it);
    assert SizeAll(body) == 1;
    SingleMatch(mem, body, 1, Nothing, 0);
    hide MatchNode;
    assert MatchChain(mem, body, 1, Nothing, true, 0) == MatchNode(mem, body, 1, Nothing, 0);
    assert Matches(mem, body) <==> MatchNode(mem, body, 1, Nothing, 0) == Some(|mem.text|) by {
      GroupNode(mem, Last(Group(true, body)), 2, Nothing, 0);
    }
  }

  /** A class escape matches one character of its class. */
  lemma EscapeTexts(mem: Memory, id: char)
    requires IsClassEscape(id)
    ensures var r := ParsePattern(['\\', id]);
      r.Parsed? && (Matches(mem, r.value) <==> |mem.text| == 1 && MatchesClassEscape(id, mem.text[0]))
  {
    hide Matches, ParsePattern, MatchesClassEscape;
    ListOfOne(CharClass(id));
    PatternRead(Last(CharClass(id)));
    SingleExact(mem, CharClass(id));
  }

  /** A bracket class of one range matches one character from its start to its end, and with a caret one that is
      not. */
  lemma RangeTexts(mem: Memory, negated: bool, from: int, to: int)
    requires OkMember(Range(from, to), 2)
    ensures var r := ParsePattern((if negated then "[^" else "[") + (CodeText(from, CLASS_SPECIAL) + ("-" + EndText(to)) + "]"));
      r.Parsed? && (Matches(mem, r.value) <==> |mem.text| == 1 && ((from <= mem.text[0] as int <= to) != negated))
  {
    hide Matches, ParsePattern, CodeText, EndText, OkMember;
    var m := Range(from, to);
    ClassTexts(mem, negated, [m]);
    assert MembersText([m]) == MemberText(m);
    assert |mem.text| == 1 ==> (InSet([m], mem.text[0]) <==> IsMember([m][0], mem.text[0]));
  }

  /** A bracket class holds what its parts hold, and a caret makes the complement. */
  lemma ClassTexts(mem: Memory, negated: bool, ms: seq<SetItem>)
    requires ms != [] && OkMembers(ms, 2)
    ensures var r := ParsePattern((if negated then "[^" else "[") + (MembersText(ms) + "]"));
      r.Parsed? && (Matches(mem, r.value) <==> |mem.text| == 1 && InSet(ms, mem.text[0]) != negated)
  {
    hide Matches, ParsePattern, MembersText, OkMembers;
    var body := Last(Class(negated, ms));
    ListOfOne(body.head);
    PatternRead(body);
    SingleExact(mem, body.head);
  }

  lemma SetUnion(ms: seq<SetItem>, ns: seq<SetItem>, c: char)
    ensures InSet(ms + ns, c) <==> InSet(ms, c) || InSet(ns, c)
  {
    hide IsMember;
    if InSet(ms + ns, c) {
      var k :| 0 <= k < |ms + ns| && IsMember((ms + ns)[k], c);
      if k >= |ms| {
        assert IsMember(ns[k - |ms|], c);
      }
    }
    if k :| 0 <= k < |ms| && IsMember(ms[k], c) {
      assert IsMember((ms + ns)[k], c);
    }
    if k :| 0 <= k < |ns| && IsMember(ns[k], c) {
      assert IsMember((ms + ns)[|ms| + k], c);
    }
  }

  lemma ListOfOne(item: Item)
    requires IsElement(item, 1) && !item.Either? && !item.LineStart?
    ensures IsList(Last(item), 1)
  {
    hide IsElement;
    assert IsSequence(Last(item), 1);
    assert IsBranch(Last(item), 1);
  }

  // ---------------------------------------------------------------------------
  // Word boundaries
  // ---------------------------------------------------------------------------

  /** Where the word boundaries of a text are: at the start of a text that begins with a word, at the end of one that
      ends with a word, and else where the character at hand is blank and the one behind it is not, or the other
      way round. */
  lemma BoundaryPlaces(mem: Memory, s: nat)
    requires s < |mem.text|
    ensures AtBoundary(mem, s) <==>
      (s == 0 && !IsSpace(mem.text[0])) || (IsSpace(mem.text[s]) != (s + 1 < |mem.text| && IsSpace(mem.text[s + 1])))
    ensures AtBoundary(mem, |mem.text|) <==> !IsSpace(mem.text[|mem.text| - 1]) || IsSpace(mem.beyond(0))
  {}

  /** So a boundary lies in front of the last letter of a word, and none between a word and two blanks. */
  lemma BoundaryEarly(beyond: nat -> char)
    ensures AtBoundary(Memory("ab c", beyond), 1) && !AtBoundary(Memory("ab  c", beyond), 2)
    ensures ParsePattern("a\\bb c").Parsed? && Matches(Memory("ab c", beyond), ParsePattern("a\\bb c").value)
  {
    var mem := Memory("ab c", beyond);
    BoundaryPlaces(mem, 1);
    BoundaryPlaces(Memory("ab  c", beyond), 2);
    var rest := More(Char('b' as int), More(Char(' ' as int), Last(Char('c' as int))));
    var body := More(A, More(WordBoundary('b'), rest));
    BoundaryShown();
    hide ParsePattern, Show, Matches, AtBoundary;
    PatternRead(body);
    RigidExact(mem, body);
    assert In(mem, rest.head, 1, 2) && In(mem, rest.tail.head, 2, 3) && In(mem, rest.tail.tail.head, 3, 4);
    assert InItems(mem, rest.tail.tail, 3, 4);
    assert InItems(mem, rest.tail, 2, 4);
    assert InItems(mem, rest, 1, 4);
    assert In(mem, body.tail.head, 1, 1) && InItems(mem, body.tail, 1, 4) && In(mem, A, 0, 1);
  }

  lemma BoundaryShown()
    ensures var rest := More(Char('b' as int), More(Char(' ' as int), Last(Char('c' as int))));
      var body := More(A, More(WordBoundary('b'), rest));
      IsList(body, 1) && Show(body) == "a\\bb c" && RigidAll(body)
  {
    var rest := More(Char('b' as int), More(Char(' ' as int), Last(Char('c' as int))));
    var body := More(A, More(WordBoundary('b'), rest));
    hide ShowItem, Show, IsElement, IsSequence, RigidAll;
    LetterShown('a', 1);
    LetterShown('b', 3);
    LetterShown(' ', 4);
    LetterShown('c', 5);
    WordBoundaryShown(2);
    ShownNext(rest.tail.head, rest.tail.tail, 4);
    ShownNext(rest.head, rest.tail, 3);
    ShownNext(WordBoundary('b'), rest, 2);
    ShownNext(A, body.tail, 1);
    assert "a" + ("\\b" + ("b" + (" " + "c"))) == "a\\bb c";
    assert IsBranch(body, 1);
  }

  lemma LetterShown(c: char, n: nat)
    requires IsLower(c) || c == ' '
    ensures var item := Char(c as int);
      ShowItem(item) == [c] == Show(Last(item)) && IsElement(item, n) && IsSequence(Last(item), n) && RigidAll(Last(item))
  {}

  lemma WordBoundaryShown(n: nat)
    ensures ShowItem(WordBoundary('b')) == "\\b" && IsElement(WordBoundary('b'), n)
  {}

  lemma ShownNext(item: Item, tail: Items, n: nat)
    requires (item.Char? || item.WordBoundary?) && IsElement(item, n) && IsSequence(tail, n + 1) && RigidAll(tail)
    ensures IsSequence(More(item, tail), n) && RigidAll(More(item, tail))
    ensures Show(More(item, tail)) == ShowItem(item) + Show(tail)
  {}
}
