/** Patterns that one character decides. The matcher never goes back on a choice, so it can miss texts of the
    language; it misses none where the next character settles every choice. */
module RegexDecided {
  import opened Chars
  import opened RegexLanguage
  import opened RegexSyntax
  import opened Wrappers

  // ---------------------------------------------------------------------------
  // What a character can do to an element
  // ---------------------------------------------------------------------------

  /** The element is one character, and c is such a character. */
  predicate IsOne(item: Item, c: char) {
    match item
    case Char(code) => c as int == code
    case Dot => true
    case CharClass(id) => MatchesClassEscape(id, c)
    case Class(negated, members) => InSet(members, c) != negated
    case _ => false
  }

  /** The element can be passed over without a character. */
  predicate Nullable(item: Item) {
    match item
    case Repeat(it, min, _) => min == 0 || Nullable(it)
    case Group(_, body) => NullableAll(body)
    case Either(l, r) => NullableAll(l) || NullableAll(r)
    case LineStart => true
    case LineEnd => true
    case WordBoundary(_) => true
    case _ => false
  }

  predicate NullableAll(items: Items) {
    Nullable(items.head) && (items.More? ==> NullableAll(items.tail))
  }

  /** A text of the language can begin with c. */
  predicate Begins(item: Item, c: char) {
    match item
    case Repeat(it, _, _) => Begins(it, c)
    case Group(_, body) => BeginsAll(body, c)
    case Either(l, r) => BeginsAll(l, c) || BeginsAll(r, c)
    case _ => IsOne(item, c)
  }

  predicate BeginsAll(items: Items, c: char) {
    Begins(items.head, c) || (items.More? && Nullable(items.head) && BeginsAll(items.tail, c))
  }

  /** The matcher may succeed on the element when it stands at c, be it only to fail later. */
  predicate Catches(item: Item, c: char) {
    match item
    case Repeat(it, min, _) => min == 0 || Catches(it, c)
    case Group(_, body) => Catches(body.head, c)
    case Either(l, r) => Catches(l.head, c) || Catches(r.head, c)
    case LineStart => true
    case LineEnd => c == NUL
    case WordBoundary(_) => true
    case _ => IsOne(item, c)
  }

  /** A repetition at the end of the element may want to go on at c. */
  predicate GoesOn(item: Item, c: char) {
    match item
    case Repeat(it, _, _) => Catches(it, c) || Begins(it, c) || GoesOn(it, c)
    case Group(_, body) => GoesOnAll(body, c)
    case Either(l, r) => GoesOnAll(l, c) || GoesOnAll(r, c)
    case _ => false
  }

  predicate GoesOnAll(items: Items, c: char) {
    match items
    case Last(head) => GoesOn(head, c)
    case More(head, tail) => GoesOnAll(tail, c) || (NullableAll(tail) && GoesOn(head, c))
  }

  /** Looking ahead at c to the element does not stop a repetition in front of it. */
  predicate Lets(item: Item, c: char) {
    !LooksAhead(item) || !Catches(item, c)
  }

  // ---------------------------------------------------------------------------
  // Decided patterns
  // ---------------------------------------------------------------------------

  /** One character settles whether a repetition goes on and which alternative is taken. A repetition
      without upper bound stops by itself after 65536 times, so it is decided in texts of that length. */
  ghost predicate Decided(item: Item, long: bool) {
    match item
    case Repeat(it, _, max) =>
      && Decided(it, long) && !Nullable(it) && (long ==> max < UNBOUNDED)
      && forall c :: GoesOn(it, c) ==> !Begins(it, c)
    case Group(_, body) => DecidedAll(body, long)
    case Either(l, r) =>
      && DecidedAll(l, long) && DecidedAll(r, long) && !NullableAll(r)
      && forall c :: BeginsAll(r, c) ==> !Catches(l.head, c)
    case _ => true
  }

  ghost predicate DecidedAll(items: Items, long: bool) {
    && Decided(items.head, long)
    && (items.More? ==>
          && DecidedAll(items.tail, long)
          && forall c :: GoesOn(items.head, c) ==> !BeginsAll(items.tail, c) && Lets(items.tail.head, c))
  }

  ghost predicate IsLong(mem: Memory) {
    |mem.text| > UNBOUNDED + 1
  }

  // ---------------------------------------------------------------------------
  // What the language says about the characters of a text
  // ---------------------------------------------------------------------------

  /** The first of several pieces. */
  lemma {:induction false} FirstPiece(mem: Memory, item: Item, n: nat, i: nat, j: nat) returns (m: nat)
    requires n > 0 && Times(mem, item, n, i, j)
    ensures i <= m <= j && In(mem, item, i, m) && Times(mem, item, n - 1, m, j)
    decreases n
  {
    var k: nat :| i <= k <= j && Times(mem, item, n - 1, i, k) && In(mem, item, k, j);
    if n == 1 {
      m := j;
    } else {
      m := FirstPiece(mem, item, n - 1, i, k);
      assert Times(mem, item, n - 2, m, k) && In(mem, item, k, j);
    }
  }

  lemma {:induction false} ItemsInside(mem: Memory, items: Items, i: nat, j: nat)
    requires InItems(mem, items, i, j)
    ensures i <= j <= |mem.text|
    decreases items
  {
    if items.More? {
      var m: nat :| i <= m <= j && In(mem, items.head, i, m) && InItems(mem, items.tail, m, j);
      ItemsInside(mem, items.tail, m, j);
    }
  }

  lemma {:induction false} EmptyIsNullable(mem: Memory, item: Item, i: nat)
    requires In(mem, item, i, i)
    ensures Nullable(item)
    decreases item, 0
  {
    match item
    case Repeat(it, min, max) =>
      var n: nat :| InBounds(n, min, max) && Times(mem, it, n, i, i);
      if n > 0 {
        var m := FirstPiece(mem, it, n, i, i);
        EmptyIsNullable(mem, it, i);
      }
    case Group(_, body) => EmptyAreNullable(mem, body, i);
    case Either(l, r) =>
      if InItems(mem, l, i, i) {
        EmptyAreNullable(mem, l, i);
      } else {
        EmptyAreNullable(mem, r, i);
      }
    case _ =>
  }

  lemma {:induction false} EmptyAreNullable(mem: Memory, items: Items, i: nat)
    requires InItems(mem, items, i, i)
    ensures NullableAll(items)
    decreases items, 1
  {
    if items.More? {
      var m: nat :| i <= m <= i && In(mem, items.head, i, m) && InItems(mem, items.tail, m, i);
      EmptyAreNullable(mem, items.tail, i);
    }
    EmptyIsNullable(mem, items.head, i);
  }

  lemma {:induction false} FirstBegins(mem: Memory, item: Item, long: bool, i: nat, j: nat)
    requires Decided(item, long) && In(mem, item, i, j) && i < j
    ensures Begins(item, mem.text[i])
    decreases item, 0
  {
    match item
    case Repeat(it, min, max) =>
      var n: nat :| InBounds(n, min, max) && Times(mem, it, n, i, j);
      var m := FirstPiece(mem, it, n, i, j);
      if m == i {
        EmptyIsNullable(mem, it, i);
      }
      FirstBegins(mem, it, long, i, m);
    case Group(_, body) => FirstBeginsAll(mem, body, long, i, j);
    case Either(l, r) =>
      if InItems(mem, l, i, j) {
        FirstBeginsAll(mem, l, long, i, j);
      } else {
        FirstBeginsAll(mem, r, long, i, j);
      }
    case _ =>
  }

  lemma {:induction false} FirstBeginsAll(mem: Memory, items: Items, long: bool, i: nat, j: nat)
    requires DecidedAll(items, long) && InItems(mem, items, i, j) && i < j
    ensures j <= |mem.text| && BeginsAll(items, mem.text[i])
    decreases items, 1
  {
    ItemsInside(mem, items, i, j);
    match items
    case Last(head) => FirstBegins(mem, head, long, i, j);
    case More(head, tail) =>
      var m: nat :| i <= m <= j && In(mem, head, i, m) && InItems(mem, tail, m, j);
      if m == i {
        EmptyIsNullable(mem, head, i);
        FirstBeginsAll(mem, tail, long, i, j);
      } else {
        FirstBegins(mem, head, long, i, m);
      }
  }

  // ---------------------------------------------------------------------------
  // The matcher does what the characters say
  // ---------------------------------------------------------------------------

  /** The matcher stops repeating after n times if it may, and if it has to or the element does not match. */
  lemma RepeatStops(mem: Memory, items: Items, rank: nat, next: Next, n: nat, good: nat)
    requires items.head.Repeat? && Ordered(items, rank, next)
    requires n == UNBOUNDED || n < items.head.max ==>
      MatchNode(mem, Last(items.head.item), rank - 1, Following(items, rank, next), good) == None
    ensures MatchRepeat(mem, items, rank, next, n, good) ==
      if Accepts(n, items.head.min, items.head.max) then Some(good) else None
  {
    hide MatchNode;
  }

  /** One more time, after which the rest ends at j. */
  lemma RepeatTurns(mem: Memory, items: Items, rank: nat, next: Next, n: nat, good: nat, s: nat, j: nat)
    requires items.head.Repeat? && Ordered(items, rank, next) && (n == UNBOUNDED || n < items.head.max)
    requires var stop := Following(items, rank, next);
      && MatchNode(mem, Last(items.head.item), rank - 1, stop, good) == Some(s)
      && (s == j || !stop.Go? || !LooksAhead(stop.items.head) || (stop.Go? && SizeAll(stop.items) <= stop.rank
            && Ordered(stop.items, stop.rank, AfterStop(stop, next))
            && MatchNode(mem, stop.items, stop.rank, AfterStop(stop, next), s) == None))
    requires s == j ==> Accepts(n + 1, items.head.min, items.head.max)
    requires s < |mem.text| || s == j
    requires MatchRepeat(mem, items, rank, next, n + 1, s) == Some(j)
    ensures MatchRepeat(mem, items, rank, next, n, good) == Some(j)
  {
    hide MatchNode;
  }

  lemma {:induction false} Refuses(mem: Memory, items: Items, rank: nat, next: Next, s: nat)
    requires Ordered(items, rank, next) && !Catches(items.head, Peek(mem, s))
    ensures MatchNode(mem, items, rank, next, s) == None
    decreases rank, 0
  {
    match items.head
    case Repeat(it, min, max) =>
      hide MatchChain, MatchRepeat;
      LookAheadOrdered(items, rank, next);
      Refuses(mem, Last(it), rank - 1, Following(items, rank, next), s);
      RepeatStops(mem, items, rank, next, 0, s);
    case Either(l, r) =>
      hide MatchRepeat, MatchChain;
      RefusesAll(mem, l, rank - 1, Nothing, false, s);
      RefusesAll(mem, r, rank - 1, Nothing, false, s);
    case Group(_, body) =>
      hide MatchRepeat, MatchChain;
      RefusesAll(mem, body, rank - 1, next, true, s);
    case _ =>
  }

  lemma {:induction false} RefusesAll(mem: Memory, items: Items, rank: nat, next: Next, inGroup: bool, s: nat)
    requires SizeAll(items) <= rank && !Catches(items.head, Peek(mem, s))
    requires next.Go? ==> SizeAll(next.items) <= next.rank <= rank - SizeAll(items)
    ensures MatchChain(mem, items, rank, next, inGroup, s) == None
    decreases rank, 1
  {
    hide MatchNode;
    Refuses(mem, items, rank, if inGroup then Following(items, rank, next) else Nothing, s);
  }

  /** What comes next does not stop the repetitions of the element. */
  ghost predicate LetsGoOn(item: Item, next: Next) {
    next.Go? ==> forall c :: GoesOn(item, c) ==> Lets(next.items.head, c)
  }

  ghost predicate LetsAllGoOn(items: Items, next: Next) {
    next.Go? ==> forall c :: GoesOnAll(items, c) ==> Lets(next.items.head, c)
  }

  lemma {:induction false} NodeComplete(mem: Memory, items: Items, rank: nat, next: Next, i: nat, j: nat)
    requires Ordered(items, rank, next) && Decided(items.head, IsLong(mem)) && In(mem, items.head, i, j)
    requires !GoesOn(items.head, Peek(mem, j))
    requires LetsGoOn(items.head, next) && LetsGoOn(items.head, Following(items, rank, next))
    ensures MatchNode(mem, items, rank, next, i) == Some(j)
    decreases rank, 1, 0
  {
    match items.head
    case Repeat(it, min, max) =>
      hide MatchChain, MatchRepeat, Begins, Catches, Nullable, Decided, GoesOn, LetsGoOn, Times, InItems;
      var total: nat :| InBounds(total, min, max) && Times(mem, it, total, i, j);
      NotNullable(items.head, IsLong(mem));
      PiecesFit(mem, it, total, i, j);
      RepeatComplete(mem, items, rank, next, 0, i, total, j);
    case Either(l, r) =>
      hide MatchRepeat, MatchChain, Begins, Catches, Nullable, InItems, DecidedAll, GoesOnAll;
      EitherComplete(mem, l, r, rank - 1, i, j);
    case Group(_, body) =>
      hide MatchRepeat, MatchChain, Begins, Catches, Nullable, InItems, DecidedAll, GoesOnAll;
      ChainComplete(mem, body, rank - 1, next, true, i, j);
    case _ =>
  }

  lemma {:induction false} EitherComplete(mem: Memory, l: Items, r: Items, rank: nat, i: nat, j: nat)
    requires SizeAll(l) <= rank && SizeAll(r) <= rank && Decided(Either(l, r), IsLong(mem))
    requires InItems(mem, l, i, j) || InItems(mem, r, i, j)
    requires !GoesOnAll(l, Peek(mem, j)) && !GoesOnAll(r, Peek(mem, j))
    ensures var left := MatchChain(mem, l, rank, Nothing, false, i);
            (if left.Some? then left else MatchChain(mem, r, rank, Nothing, false, i)) == Some(j)
    decreases rank, 3, 0
  {
    hide MatchRepeat, MatchChain, MatchNode, InItems, GoesOn;
    if InItems(mem, l, i, j) {
      ChainComplete(mem, l, rank, Nothing, false, i, j);
    } else {
      ItemsInside(mem, r, i, j);
      if i == j {
        EmptyAreNullable(mem, r, i);
      }
      FirstBeginsAll(mem, r, IsLong(mem), i, j);
      RefusesAll(mem, l, rank, Nothing, false, i);
      ChainComplete(mem, r, rank, Nothing, false, i, j);
    }
  }

  /** Pieces that are not empty. */
  lemma {:induction false} PiecesFit(mem: Memory, item: Item, n: nat, i: nat, j: nat)
    requires !Nullable(item) && Times(mem, item, n, i, j)
    ensures i + n <= j <= |mem.text|
    decreases n
  {
    if n > 0 {
      var k: nat :| i <= k <= j && Times(mem, item, n - 1, i, k) && In(mem, item, k, j);
      if k == j {
        EmptyIsNullable(mem, item, j);
      }
      PiecesFit(mem, item, n - 1, i, k);
    }
  }

  /** In the middle of a repetition the look ahead fails. */
  lemma AheadRefuses(mem: Memory, items: Items, rank: nat, next: Next, s: nat)
    requires Ordered(items, rank, next) && GoesOn(items.head, Peek(mem, s))
    requires LetsGoOn(items.head, Following(items, rank, next))
    ensures var stop := Following(items, rank, next);
      stop.Go? && LooksAhead(stop.items.head) ==>
        && SizeAll(stop.items) <= stop.rank && Ordered(stop.items, stop.rank, AfterStop(stop, next))
        && MatchNode(mem, stop.items, stop.rank, AfterStop(stop, next), s) == None
  {
    hide MatchNode, GoesOn;
    var stop := Following(items, rank, next);
    LookAheadOrdered(items, rank, next);
    if stop.Go? && LooksAhead(stop.items.head) {
      Refuses(mem, stop.items, stop.rank, AfterStop(stop, next), s);
    }
  }

  lemma RepeatDecided(item: Item, long: bool, next: Next)
    requires item.Repeat? && Decided(item, long) && LetsGoOn(item, next)
    ensures Decided(item.item, long) && !Nullable(item.item) && (long ==> item.max < UNBOUNDED)
    ensures forall c :: Begins(item.item, c) ==> GoesOn(item, c) && !GoesOn(item.item, c)
    ensures forall c :: !GoesOn(item, c) ==> !Catches(item.item, c) && !GoesOn(item.item, c)
    ensures LetsGoOn(item.item, next)
  {
    hide Begins, Catches, Nullable;
  }

  lemma NotNullable(item: Item, long: bool)
    requires item.Repeat? && Decided(item, long)
    ensures !Nullable(item.item)
  {}

  lemma InnerOrdered(items: Items, rank: nat, next: Next)
    requires items.head.Repeat? && Ordered(items, rank, next)
    ensures SizeAll(items) <= rank
    ensures var stop := Following(items, rank, next);
            && rank > 0 && Ordered(Last(items.head.item), rank - 1, stop)
            && Following(Last(items.head.item), rank - 1, stop) == stop
  {
    LookAheadOrdered(items, rank, next);
  }

  /** After n of the pieces, up to `good`, the matcher takes the other ones, and no more. */
  lemma {:induction false} RepeatComplete(mem: Memory, items: Items, rank: nat, next: Next, n: nat, good: nat,
                                          total: nat, j: nat)
    requires items.head.Repeat? && Ordered(items, rank, next) && Decided(items.head, IsLong(mem))
    requires n <= total <= |mem.text| && InBounds(total, items.head.min, items.head.max)
    requires Times(mem, items.head.item, total - n, good, j) && !GoesOn(items.head, Peek(mem, j))
    requires LetsGoOn(items.head, Following(items, rank, next))
    ensures MatchRepeat(mem, items, rank, next, n, good) == Some(j)
    decreases rank, 0, total - n
  {
    hide Decided, GoesOn, Begins, Catches, Nullable, MatchNode, MatchChain, MatchRepeat, Times, Ordered, LetsGoOn, In;
    var Repeat(it, min, max) := items.head;
    InnerOrdered(items, rank, next);
    var stop := Following(items, rank, next);
    RepeatDecided(items.head, IsLong(mem), stop);
    if n == total {
      PiecesNone(mem, it, good, j);
      Refuses(mem, Last(it), rank - 1, stop, good);
      RepeatStops(mem, items, rank, next, n, good);
    } else {
      var m := FirstPiece(mem, it, total - n, good, j);
      PiecesFit(mem, it, total - n - 1, m, j);
      if m < j {
        NextPiece(mem, it, total - n - 1, m, j);
        AheadRefuses(mem, items, rank, next, m);
      }
      NodeComplete(mem, Last(it), rank - 1, stop, good, m);
      RepeatComplete(mem, items, rank, next, n + 1, m, total, j);
      RepeatTurns(mem, items, rank, next, n, good, m, j);
    }
  }

  lemma PiecesNone(mem: Memory, item: Item, i: nat, j: nat)
    requires Times(mem, item, 0, i, j)
    ensures i == j
  {}

  lemma NextPiece(mem: Memory, it: Item, n: nat, m: nat, j: nat)
    requires Decided(it, IsLong(mem)) && !Nullable(it) && Times(mem, it, n, m, j) && m < j
    ensures Begins(it, Peek(mem, m))
  {
    var k := FirstPiece(mem, it, n, m, j);
    if k == m {
      EmptyIsNullable(mem, it, m);
    }
    FirstBegins(mem, it, IsLong(mem), m, k);
  }

  lemma {:induction false} ChainComplete(mem: Memory, items: Items, rank: nat, next: Next, inGroup: bool, i: nat, j: nat)
    requires SizeAll(items) <= rank
    requires next.Go? ==> SizeAll(next.items) <= next.rank <= rank - SizeAll(items)
    requires DecidedAll(items, IsLong(mem)) && InItems(mem, items, i, j)
    requires !GoesOnAll(items, Peek(mem, j)) && (inGroup ==> LetsAllGoOn(items, next)) && (!inGroup ==> next == Nothing)
    ensures MatchChain(mem, items, rank, next, inGroup, i) == Some(j)
    decreases rank, 2, 0
  {
    var n := if inGroup then Following(items, rank, next) else Nothing;
    match items
    case Last(_) => NodeComplete(mem, items, rank, n, i, j);
    case More(head, tail) =>
      var m: nat :| i <= m <= j && In(mem, head, i, m) && InItems(mem, tail, m, j);
      if m == j {
        EmptyAreNullable(mem, tail, m);
      } else {
        FirstBeginsAll(mem, tail, IsLong(mem), m, j);
      }
      NodeComplete(mem, items, rank, n, i, m);
      ChainComplete(mem, tail, rank - Size(head), next, inGroup, m, j);
  }

  /** A decided pattern matches exactly its language, provided that no repetition at its end takes the NUL
      behind the text for one more character. */
  lemma DecidedExact(mem: Memory, body: Items)
    requires DecidedAll(body, IsLong(mem)) && !GoesOnAll(body, NUL)
    ensures Matches(mem, body) <==> InItems(mem, body, 0, |mem.text|)
  {
    if Matches(mem, body) {
      MatchesSound(mem, body);
    }
    if InItems(mem, body, 0, |mem.text|) {
      var root := Last(Group(true, body));
      NodeComplete(mem, root, SizeAll(root), Nothing, 0, |mem.text|);
    }
  }

  /** No repetition and no alternative. */
  predicate Rigid(item: Item) {
    match item
    case Repeat(_, _, _) => false
    case Either(_, _) => false
    case Group(_, body) => RigidAll(body)
    case _ => true
  }

  predicate RigidAll(items: Items) {
    Rigid(items.head) && (items.More? ==> RigidAll(items.tail))
  }

  lemma RigidDecided(item: Item, long: bool)
    requires Rigid(item)
    ensures Decided(item, long) && forall c :: !GoesOn(item, c)
    decreases item, 0
  {
    if item.Group? {
      RigidAllDecided(item.body, long);
    }
  }

  lemma RigidAllDecided(items: Items, long: bool)
    requires RigidAll(items)
    ensures DecidedAll(items, long) && forall c :: !GoesOnAll(items, c)
    decreases items, 1
  {
    RigidDecided(items.head, long);
    if items.More? {
      RigidAllDecided(items.tail, long);
    }
  }

  /** A pattern without repetition and alternatives matches exactly its language. */
  lemma RigidExact(mem: Memory, body: Items)
    requires RigidAll(body)
    ensures Matches(mem, body) <==> InItems(mem, body, 0, |mem.text|)
  {
    RigidAllDecided(body, IsLong(mem));
    DecidedExact(mem, body);
  }

  // ---------------------------------------------------------------------------
  // Where a condition is not met, the matcher can fail
  // ---------------------------------------------------------------------------

  const A: Item := Char('a' as int)
  const B: Item := Char('b' as int)
  const C: Item := Char('c' as int)

  function Star(item: Item): Item { Repeat(item, 0, UNBOUNDED) }

  lemma OneChar(code: int, c: char)
    ensures !GoesOn(Char(code), c) && !GoesOnAll(Last(Char(code)), c)
    ensures !Nullable(Char(code)) && !NullableAll(Last(Char(code)))
    ensures (BeginsAll(Last(Char(code)), c) <==> c as int == code) && (Begins(Char(code), c) <==> c as int == code)
    ensures Catches(Char(code), c) <==> c as int == code
  {}

  /** An example with a repetition that the theorem covers: a letter any number of times, then another one. */
  lemma StarThenOther(mem: Memory, a: int, b: int)
    requires a != b && a > 0 && b > 0 && |mem.text| <= UNBOUNDED + 1
    ensures var body := More(Star(Char(a)), Last(Char(b)));
            Matches(mem, body) <==> InItems(mem, body, 0, |mem.text|)
  {
    var body := More(Star(Char(a)), Last(Char(b)));
    assert Decided(Char(a), IsLong(mem)) && Decided(Star(Char(a)), IsLong(mem));
    forall c
      ensures GoesOn(body.head, c) ==> !BeginsAll(body.tail, c) && Lets(body.tail.head, c)
      ensures !GoesOnAll(body, c)
    {
      OneChar(a, c);
      OneChar(b, c);
    }
    assert DecidedAll(body.tail, IsLong(mem));
    DecidedExact(mem, body);
  }

  /** Alternatives are tried once and not revisited: (a|ab)c does not match abc. */
  lemma AlternativesIncomplete(beyond: nat -> char)
    ensures var mem := Memory("abc", beyond);
            var body := More(Group(true, Last(Either(Last(A), More(A, Last(B))))), Last(C));
            InItems(mem, body, 0, 3) && !Matches(mem, body)
  {
    var mem := Memory("abc", beyond);
    var either := Last(Either(Last(A), More(A, Last(B))));
    var body := More(Group(true, either), Last(C));
    assert In(mem, A, 0, 1) && In(mem, B, 1, 2) && In(mem, C, 2, 3);
    assert InItems(mem, More(A, Last(B)), 0, 2);
    assert In(mem, Group(true, either), 0, 2) by {
      assert In(mem, either.head, 0, 2);
    }
    assert InItems(mem, body, 0, 3);
    assert SizeAll(Last(A)) == 1 && SizeAll(More(A, Last(B))) == 1 + SizeAll(Last(B)) == 2;
    assert SizeAll(either) == Size(either.head) == 4;
    assert SizeAll(body) == Size(body.head) + SizeAll(Last(C)) == 6;
    var next := Go(Last(C), 1);
    assert MatchChain(mem, Last(A), 4, Nothing, false, 0) == Some(1);
    assert MatchNode(mem, either, 5, next, 0) == Some(1);
    assert MatchChain(mem, either, 5, next, true, 0) == Some(1);
    assert MatchNode(mem, body, 6, next, 0) == Some(1);
    assert MatchChain(mem, Last(C), 1, Nothing, true, 1) == None;
    assert MatchChain(mem, body, 6, Nothing, true, 0) == None;
  }

  lemma StarSize(item: Item)
    requires Size(item) == 1
    ensures Size(Star(item)) == 2 && SizeAll(Last(Star(item))) == 2
  {}

  lemma {:induction false} RunIsIn(mem: Memory, n: nat, j: nat)
    requires j <= |mem.text| && n <= j && forall k :: j - n <= k < j ==> mem.text[k] == 'a'
    ensures Times(mem, A, n, j - n, j)
    decreases n
  {
    if n > 0 {
      RunIsIn(mem, n - 1, j - 1);
      assert Times(mem, A, n - 1, j - n, j - 1) && In(mem, A, j - 1, j);
    }
  }

  /** A repetition takes all it can get, even what the rest needs: a*a does not match aaa. */
  lemma RepetitionsIncomplete(beyond: nat -> char)
    ensures var mem := Memory("aaa", beyond);
            var body := More(Star(A), Last(A));
            InItems(mem, body, 0, 3) && !Matches(mem, body)
  {
    var mem := Memory("aaa", beyond);
    var body := More(Star(A), Last(A));
    StarSize(A);
    RunIsIn(mem, 2, 2);
    assert InBounds(2, 0, UNBOUNDED) && In(mem, Star(A), 0, 2) && InItems(mem, Last(A), 2, 3);
    assert SizeAll(Last(A)) == Size(A) == 1;
    assert SizeAll(body) == Size(Star(A)) + SizeAll(Last(A)) == 3;
    assert MatchRepeat(mem, body, 3, Nothing, 0, 0) == Some(1);
    assert MatchChain(mem, Last(A), 1, Nothing, true, 1) == Some(2);
    assert MatchChain(mem, body, 3, Nothing, true, 0) == Some(2);
  }

  /** The look ahead is fooled by what may be empty: a*(b*)c does not match aac. */
  lemma LookAheadIncomplete(beyond: nat -> char)
    ensures var mem := Memory("aac", beyond);
            var body := More(Star(A), More(Group(true, Last(Star(B))), Last(C)));
            InItems(mem, body, 0, 3) && !Matches(mem, body)
  {
    var mem := Memory("aac", beyond);
    var g := Group(true, Last(Star(B)));
    StarSize(A);
    StarSize(B);
    var tail := More(g, Last(C));
    var body := More(Star(A), tail);
    RunIsIn(mem, 2, 2);
    assert InBounds(2, 0, UNBOUNDED) && In(mem, Star(A), 0, 2);
    assert InBounds(0, 0, UNBOUNDED) && Times(mem, B, 0, 2, 2) && In(mem, g, 2, 2);
    assert InItems(mem, tail, 2, 3) by {
      assert In(mem, tail.head, 2, 2) && InItems(mem, tail.tail, 2, 3);
    }
    assert In(mem, body.head, 0, 2) && InItems(mem, body.tail, 2, 3);
    assert Size(g) == 1 + SizeAll(Last(Star(B))) == 3;
    assert SizeAll(tail) == Size(g) + SizeAll(Last(C)) == 4;
    assert SizeAll(body) == Size(Star(A)) + SizeAll(tail) == 6;
    assert MatchRepeat(mem, Last(Star(B)), 3, Go(Last(C), 1), 0, 1) == Some(1);
    assert MatchNode(mem, tail, 4, Go(Last(C), 1), 1) == Some(1);
    assert MatchRepeat(mem, body, 6, Go(tail, 4), 0, 0) == Some(1);
    assert MatchChain(mem, Last(C), 1, Nothing, true, 1) == None;
    assert MatchChain(mem, body, 6, Nothing, true, 0) == None;
  }

  /** The dot takes the NUL behind the text: .* does not match the empty text. */
  lemma EndIncomplete(beyond: nat -> char)
    ensures var mem := Memory("", beyond);
            InItems(mem, Last(Star(Dot)), 0, 0) && !Matches(mem, Last(Star(Dot)))
  {
    var mem := Memory("", beyond);
    StarSize(Dot);
    assert InBounds(0, 0, UNBOUNDED) && Times(mem, Dot, 0, 0, 0);
    assert MatchRepeat(mem, Last(Star(Dot)), 2, Nothing, 0, 0) == Some(1);
  }

  lemma {:induction false} RunOfA(mem: Memory, n: nat)
    requires SizeAll(Last(Star(A))) == 2
    requires n <= |mem.text| && n <= UNBOUNDED + 1 && forall k :: 0 <= k < |mem.text| ==> mem.text[k] == 'a'
    ensures MatchRepeat(mem, Last(Star(A)), 2, Nothing, n, n) ==
            Some(if |mem.text| <= UNBOUNDED + 1 then |mem.text| else UNBOUNDED + 1)
    decreases UNBOUNDED + 1 - n
  {
    if n < |mem.text| && n <= UNBOUNDED {
      assert MatchNode(mem, Last(A), 1, Nothing, n) == Some(n + 1);
      if n + 1 < |mem.text| {
        RunOfA(mem, n + 1);
      }
    }
  }

  /** A repetition without upper bound stops after 65536 times: a* matches as many letters, and no more. */
  lemma LongRunsExact(mem: Memory)
    requires forall k :: 0 <= k < |mem.text| ==> mem.text[k] == 'a'
    ensures InItems(mem, Last(Star(A)), 0, |mem.text|)
    ensures Matches(mem, Last(Star(A))) <==> |mem.text| <= UNBOUNDED + 1
  {
    RunIsIn(mem, |mem.text|, |mem.text|);
    assert InBounds(|mem.text|, 0, UNBOUNDED);
    StarSize(A);
    RunOfA(mem, 0);
    assert MatchChain(mem, Last(Star(A)), 2, Nothing, true, 0) == MatchRepeat(mem, Last(Star(A)), 2, Nothing, 0, 0);
  }
}
