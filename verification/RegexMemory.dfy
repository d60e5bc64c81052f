/** The matcher looks at the memory behind the text, and what it finds there can decide. When it does not. */
module RegexMemory {
  import opened Chars
  import opened RegexDecided
  import opened RegexLanguage
  import opened RegexSyntax
  import opened Wrappers

  /** The same text in other memory. */
  ghost predicate SameText(m: Memory, o: Memory) {
    m.text == o.text
  }

  /** The test of a word boundary at the end of the text does not look behind its NUL. */
  predicate EndsSolid(text: string) {
    text == "" || !IsSpace(text[|text| - 1])
  }

  /** A match of the element can take the NUL. */
  predicate CanLeave(item: Item) {
    match item
    case Repeat(it, _, _) => CanLeave(it)
    case Group(_, body) => CanLeaveAny(body)
    case Either(l, r) => CanLeaveAny(l) || CanLeaveAny(r)
    case _ => IsOne(item, NUL)
  }

  predicate CanLeaveAny(items: Items) {
    CanLeave(items.head) || (items.More? && CanLeaveAny(items.tail))
  }

  /** Nothing comes behind an element that can take the NUL, and word boundaries are tested in texts with a
      solid end only. */
  predicate Confined(item: Item, solid: bool) {
    match item
    case Repeat(it, _, _) => Confined(it, solid)
    case Group(_, body) => AllConfined(body, solid)
    case Either(l, r) => AllConfined(l, solid) && AllConfined(r, solid)
    case WordBoundary(_) => solid
    case _ => true
  }

  predicate AllConfined(items: Items, solid: bool) {
    Confined(items.head, solid) && (items.More? ==> !CanLeave(items.head) && AllConfined(items.tail, solid))
  }

  /** What comes next is confined, too, and is there only behind elements that stay inside. */
  ghost predicate Settled(items: Items, rank: nat, next: Next, solid: bool)
    requires SizeAll(items) <= rank
  {
    && AllConfined(items, solid)
    && (next.Go? ==> AllConfined(next.items, solid) && (next == Tail(items, rank) || !CanLeaveAny(items)))
  }

  /** Both memories give the same result, which is inside the text if the element cannot leave it. */
  ghost predicate Alike(m: Memory, inside: bool, r: Option<nat>, q: Option<nat>) {
    r == q && (inside && r.Some? ==> r.value <= |m.text|)
  }

  lemma BoundaryAlike(m: Memory, o: Memory, s: nat)
    requires SameText(m, o) && s <= |m.text| && (s < |m.text| || EndsSolid(m.text))
    ensures AtBoundary(m, s) == AtBoundary(o, s)
  {}

  lemma StopSettled(items: Items, rank: nat, next: Next, solid: bool)
    requires Ordered(items, rank, next) && Settled(items, rank, next, solid)
    ensures var stop := Following(items, rank, next);
      stop.Go? ==>
        && SizeAll(stop.items) <= stop.rank <= rank - Size(items.head)
        && Ordered(stop.items, stop.rank, AfterStop(stop, next))
        && Settled(stop.items, stop.rank, AfterStop(stop, next), solid)
        && !CanLeave(items.head)
  {
    LookAheadOrdered(items, rank, next);
  }

  lemma {:induction false} NodeAlike(m: Memory, o: Memory, items: Items, rank: nat, next: Next, s: nat)
    requires Ordered(items, rank, next) && Settled(items, rank, next, EndsSolid(m.text))
    requires SameText(m, o) && s <= |m.text|
    ensures Alike(m, !CanLeave(items.head), MatchNode(m, items, rank, next, s), MatchNode(o, items, rank, next, s))
    decreases rank, 1, 0
  {
    hide InSet, MatchesClassEscape, EndsSolid;
    assert Confined(items.head, EndsSolid(m.text)) && (next.Go? ==> !CanLeave(items.head));
    hide CanLeaveAny, AllConfined;
    match items.head
    case Repeat(it, min, max) =>
      hide MatchChain, MatchRepeat;
      RepeatAlike(m, o, items, rank, next, 0, s);
    case Either(l, r) =>
      hide MatchChain, MatchRepeat;
      ChainAlike(m, o, l, rank - 1, Nothing, false, s);
      ChainAlike(m, o, r, rank - 1, Nothing, false, s);
    case Group(_, body) =>
      hide MatchChain, MatchRepeat;
      ChainAlike(m, o, body, rank - 1, next, true, s);
    case WordBoundary(_) => BoundaryAlike(m, o, s);
    case _ =>
  }

  lemma {:induction false} RepeatAlike(m: Memory, o: Memory, items: Items, rank: nat, next: Next, n: nat, good: nat)
    requires items.head.Repeat? && Ordered(items, rank, next) && Settled(items, rank, next, EndsSolid(m.text))
    requires SameText(m, o) && good <= |m.text|
    ensures Alike(m, !CanLeave(items.head), MatchRepeat(m, items, rank, next, n, good), MatchRepeat(o, items, rank, next, n, good))
    decreases rank, 0, UNBOUNDED + items.head.max + 1 - n
  {
    hide MatchNode;
    var Repeat(it, min, max) := items.head;
    var stop := Following(items, rank, next);
    StopSettled(items, rank, next, EndsSolid(m.text));
    assert Confined(items.head, EndsSolid(m.text));
    assert AllConfined(Last(it), EndsSolid(m.text)) && CanLeaveAny(Last(it)) == CanLeave(it);
    if n == UNBOUNDED || n < max {
      NodeAlike(m, o, Last(it), rank - 1, stop, good);
      var r := MatchNode(m, Last(it), rank - 1, stop, good);
      if r.Some? {
        if stop.Go? {
          NodeAlike(m, o, stop.items, stop.rank, AfterStop(stop, next), r.value);
        }
        if r.value < |m.text| {
          RepeatAlike(m, o, items, rank, next, n + 1, r.value);
        }
      }
    }
  }

  lemma {:induction false} ChainAlike(m: Memory, o: Memory, items: Items, rank: nat, next: Next, inGroup: bool, s: nat)
    requires SizeAll(items) <= rank && AllConfined(items, EndsSolid(m.text))
    requires next.Go? ==> SizeAll(next.items) <= next.rank <= rank - SizeAll(items)
    requires next.Go? ==> AllConfined(next.items, EndsSolid(m.text)) && !CanLeaveAny(items)
    requires SameText(m, o) && s <= |m.text|
    ensures Alike(m, !CanLeaveAny(items), MatchChain(m, items, rank, next, inGroup, s), MatchChain(o, items, rank, next, inGroup, s))
    decreases rank, 2, 0
  {
    hide MatchNode;
    var n := if inGroup then Following(items, rank, next) else Nothing;
    NodeAlike(m, o, items, rank, n, s);
    var r := MatchNode(m, items, rank, n, s);
    if r.Some? && items.More? {
      ChainAlike(m, o, items.tail, rank - Size(items.head), next, inGroup, r.value);
    }
  }

  /** A confined pattern matches a text whatever lies behind it. */
  lemma MemoryIrrelevant(m: Memory, o: Memory, body: Items)
    requires SameText(m, o) && AllConfined(body, EndsSolid(m.text))
    ensures Matches(m, body) <==> Matches(o, body)
  {
    var root := Last(Group(true, body));
    assert Confined(root.head, EndsSolid(m.text)) && AllConfined(root, EndsSolid(m.text));
    NodeAlike(m, o, root, SizeAll(root), Nothing, 0);
  }

  // ---------------------------------------------------------------------------
  // The language looks at the text only, so a decided pattern does as well
  // ---------------------------------------------------------------------------

  /** Word boundaries are tested in texts with a solid end only. */
  predicate Bounded(item: Item, solid: bool) {
    match item
    case Repeat(it, _, _) => Bounded(it, solid)
    case Group(_, body) => AllBounded(body, solid)
    case Either(l, r) => AllBounded(l, solid) && AllBounded(r, solid)
    case WordBoundary(_) => solid
    case _ => true
  }

  predicate AllBounded(items: Items, solid: bool) {
    Bounded(items.head, solid) && (items.More? ==> AllBounded(items.tail, solid))
  }

  lemma {:induction false} LanguageOfText(m: Memory, o: Memory, item: Item, i: nat, j: nat)
    requires SameText(m, o) && Bounded(item, EndsSolid(m.text)) && In(m, item, i, j)
    ensures In(o, item, i, j)
    decreases item, 2, 0
  {
    match item
    case Repeat(it, min, max) =>
      var n: nat :| InBounds(n, min, max) && Times(m, it, n, i, j);
      PiecesOfText(m, o, it, n, i, j);
    case Group(_, body) => LanguageOfTexts(m, o, body, i, j);
    case Either(l, r) =>
      if InItems(m, l, i, j) {
        LanguageOfTexts(m, o, l, i, j);
      } else {
        LanguageOfTexts(m, o, r, i, j);
      }
    case WordBoundary(_) => BoundaryAlike(m, o, i);
    case _ =>
  }

  lemma {:induction false} PiecesOfText(m: Memory, o: Memory, item: Item, n: nat, i: nat, j: nat)
    requires SameText(m, o) && Bounded(item, EndsSolid(m.text)) && Times(m, item, n, i, j)
    ensures Times(o, item, n, i, j)
    decreases item, 3, n
  {
    if n > 0 {
      var k: nat :| i <= k <= j && Times(m, item, n - 1, i, k) && In(m, item, k, j);
      PiecesOfText(m, o, item, n - 1, i, k);
      LanguageOfText(m, o, item, k, j);
    }
  }

  lemma {:induction false} LanguageOfTexts(m: Memory, o: Memory, items: Items, i: nat, j: nat)
    requires SameText(m, o) && AllBounded(items, EndsSolid(m.text)) && InItems(m, items, i, j)
    ensures InItems(o, items, i, j)
    decreases items, 4, 0
  {
    match items
    case Last(head) => LanguageOfText(m, o, head, i, j);
    case More(head, tail) =>
      var k: nat :| i <= k <= j && In(m, head, i, k) && InItems(m, tail, k, j);
      LanguageOfText(m, o, head, i, k);
      LanguageOfTexts(m, o, tail, k, j);
  }

  /** So does a decided pattern, even if something follows an element that can take the NUL. */
  lemma DecidedIrrelevant(m: Memory, o: Memory, body: Items)
    requires SameText(m, o) && AllBounded(body, EndsSolid(m.text))
    requires DecidedAll(body, IsLong(m)) && !GoesOnAll(body, NUL)
    ensures Matches(m, body) <==> Matches(o, body)
  {
    hide Matches, InItems, DecidedAll, GoesOnAll;
    DecidedExact(m, body);
    DecidedExact(o, body);
    if InItems(m, body, 0, |m.text|) {
      LanguageOfTexts(m, o, body, 0, |m.text|);
    }
    if InItems(o, body, 0, |m.text|) {
      LanguageOfTexts(o, m, body, 0, |m.text|);
    }
  }

  /** Without these conditions the memory can decide: `..x|a` matches `a` unless an `x` lies behind its NUL. */
  lemma MemoryDecides(beyond: nat -> char)
    ensures var mem := Memory("a", beyond);
      && ParsePattern("..x|a").Parsed?
      && var body := ParsePattern("..x|a").value;
         InItems(mem, body, 0, 1) && (Matches(mem, body) <==> beyond(0) != 'x')
  {
    hide MatchChain, Matches, ParsePattern;
    var mem := Memory("a", beyond);
    var body := Last(Either(Dots(), Last(A)));
    DotsParsed();
    assert In(mem, A, 0, 1) && InItems(mem, Last(A), 0, 1) && In(mem, body.head, 0, 1);
    DotsSize();
    DotsMatched(mem, 4);
    EitherMatched(mem);
  }

  function Dots(): Items {
    More(Dot, More(Dot, Last(Char('x' as int))))
  }

  lemma DotsMatched(mem: Memory, rank: nat)
    requires SizeAll(Dots()) <= rank && mem.text == "a"
    ensures MatchChain(mem, Dots(), rank, Nothing, false, 0) == if mem.beyond(0) == 'x' then Some(3) else None
  {
    var x := Dots().tail.tail;
    assert MatchChain(mem, x, rank - 2, Nothing, false, 2) == if mem.beyond(0) == 'x' then Some(3) else None;
    assert MatchChain(mem, Dots().tail, rank - 1, Nothing, false, 1) == MatchChain(mem, x, rank - 2, Nothing, false, 2);
  }

  lemma EitherMatched(mem: Memory)
    requires mem.text == "a" && SizeAll(Dots()) <= 4
    requires MatchChain(mem, Dots(), 4, Nothing, false, 0) == if mem.beyond(0) == 'x' then Some(3) else None
    ensures Matches(mem, Last(Either(Dots(), Last(A)))) <==> mem.beyond(0) != 'x'
  {
    hide Dots;
    var body := Last(Either(Dots(), Last(A)));
    assert SizeAll(body) == 5 by {
      DotsSize();
      assert SizeAll(Last(A)) == 1;
    }
    assert MatchChain(mem, Last(A), 4, Nothing, false, 0) == Some(1);
    assert MatchChain(mem, body, 5, Nothing, true, 0) == MatchNode(mem, body, 5, Nothing, 0);
  }

  lemma DotsSize()
    ensures SizeAll(Dots()) == 3
  {
    assert SizeAll(Dots().tail) == 2;
  }

  lemma DotsParsed()
    ensures ParsePattern("..x|a").Parsed?
    ensures ParsePattern("..x|a").value == Last(Either(Dots(), Last(A)))
  {
    var pat := "..x|a";
    assert ParseElement(pat, 2, 3) == Parsed(Last(Char('x' as int)), 3, 4);
    assert ParseElement(pat, 1, 2) == Parsed(More(Dot, Last(Char('x' as int))), 3, 4);
    assert ParseElement(pat, 0, 1) == Parsed(Dots(), 3, 4);
    assert ParseElement(pat, 4, 5) == Parsed(Last(A), 5, 6);
    assert ParseList(pat, 4, 5) == Parsed(Last(A), 5, 6);
  }
}
