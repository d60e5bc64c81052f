/** The language of a regular expression, and the matcher as a function on syntax trees: greedy,
    with a look at the element that comes next, and without backtracking. */
module RegexLanguage {
  import opened RegexSyntax
  import opened Chars
  import opened Wrappers

  /** A C string in memory: the text, its NUL, and whatever bytes lie behind it. */
  datatype Memory = Memory(text: string, beyond: nat -> char)

  function Peek(mem: Memory, i: nat): char {
    if i < |mem.text| then mem.text[i]
    else if i == |mem.text| then NUL
    else mem.beyond(i - |mem.text| - 1)
  }

  // ---------------------------------------------------------------------------
  // Single characters and positions
  // ---------------------------------------------------------------------------

  predicate IsMember(m: SetItem, c: char) {
    match m
    case One(code) => c as int == code
    case Escape(id) => MatchesClassEscape(id, c)
    case Range(from, to) => from <= c as int <= to
  }

  predicate InSet(members: seq<SetItem>, c: char) {
    exists k :: 0 <= k < |members| && IsMember(members[k], c)
  }

  /** The boundary test, with its look at the character behind the current one. */
  predicate AtBoundary(mem: Memory, s: nat) {
    || (s == 0 && !IsSpace(Peek(mem, s)))
    || (s == |mem.text| > 0 && !IsSpace(Peek(mem, s - 1)))
    || (!IsSpace(Peek(mem, s)) && IsSpace(Peek(mem, s + 1)))
    || (IsSpace(Peek(mem, s)) && !IsSpace(Peek(mem, s + 1)))
  }

  // ---------------------------------------------------------------------------
  // The language
  // ---------------------------------------------------------------------------

  /** The characters from i to j of the text belong to the language of the element. */
  ghost predicate In(mem: Memory, item: Item, i: nat, j: nat)
    decreases item, 2, 0
  {
    && i <= j <= |mem.text|
    && match item
       case Char(c) => j == i + 1 && mem.text[i] as int == c
       case Dot => j == i + 1
       case CharClass(id) => j == i + 1 && MatchesClassEscape(id, mem.text[i])
       case Class(negated, members) => j == i + 1 && InSet(members, mem.text[i]) != negated
       case Group(_, body) => InItems(mem, body, i, j)
       case Repeat(it, min, max) => exists n: nat :: InBounds(n, min, max) && Times(mem, it, n, i, j)
       case Either(l, r) => InItems(mem, l, i, j) || InItems(mem, r, i, j)
       case LineStart => i == j == 0
       case LineEnd => i == j == |mem.text|
       case WordBoundary(id) => i == j && (AtBoundary(mem, i) <==> id == 'b')
  }

  predicate InBounds(n: nat, min: nat, max: nat) {
    min <= n && (max == UNBOUNDED || n <= max)
  }

  /** n consecutive pieces, each in the language of the element. */
  ghost predicate Times(mem: Memory, item: Item, n: nat, i: nat, j: nat)
    decreases item, 3, n
  {
    if n == 0 then i == j <= |mem.text|
    else exists m: nat :: i <= m <= j && Times(mem, item, n - 1, i, m) && In(mem, item, m, j)
  }

  ghost predicate InItems(mem: Memory, items: Items, i: nat, j: nat)
    decreases items, 4, 0
  {
    match items
    case Last(head) => In(mem, head, i, j)
    case More(head, tail) => exists m: nat :: i <= m <= j && In(mem, head, i, m) && InItems(mem, tail, m, j)
  }

  // ---------------------------------------------------------------------------
  // Ranks. Every element gets a number that falls from left to right and from outside
  // to inside; a look ahead and a step inside both go down, so matching ends.
  // ---------------------------------------------------------------------------

  ghost function Size(item: Item): (n: nat)
    ensures n > 0
  {
    match item
    case Group(_, body) => 1 + SizeAll(body)
    case Repeat(it, _, _) => 1 + Size(it)
    case Either(l, r) => 1 + SizeAll(l) + SizeAll(r)
    case _ => 1
  }

  ghost function SizeAll(items: Items): (n: nat)
    ensures n >= Size(items.head)
  {
    match items
    case Last(head) => Size(head)
    case More(head, tail) => Size(head) + SizeAll(tail)
  }

  /** A sequence of elements that comes next, with its rank; or nothing. */
  datatype Next = Nothing | Go(items: Items, rank: nat)

  ghost function Tail(items: Items, rank: nat): Next
    requires SizeAll(items) <= rank
  {
    if items.More? then Go(items.tail, rank - Size(items.head)) else Nothing
  }

  /** The element after the first one of `items`: a sibling, or what comes next outside. */
  ghost function Following(items: Items, rank: nat, next: Next): Next
    requires SizeAll(items) <= rank
  {
    if items.More? then Tail(items, rank) else next
  }

  /** `next` lies behind the sequence, or is its tail. */
  ghost predicate Ordered(items: Items, rank: nat, next: Next) {
    && SizeAll(items) <= rank
    && (next.Go? ==> SizeAll(next.items) <= next.rank && (next == Tail(items, rank) || next.rank <= rank - SizeAll(items)))
  }

  /** What the look ahead takes as next: the sibling of the element looked at, or of `next`. */
  ghost function AfterStop(stop: Next, next: Next): Next
    requires stop.Go? && SizeAll(stop.items) <= stop.rank
    requires next.Go? ==> SizeAll(next.items) <= next.rank
  {
    if stop.items.More? then Tail(stop.items, stop.rank)
    else if next.Go? then Tail(next.items, next.rank)
    else Nothing
  }

  lemma LookAheadOrdered(items: Items, rank: nat, next: Next)
    requires Ordered(items, rank, next)
    ensures var stop := Following(items, rank, next);
            stop.Go? ==>
              && SizeAll(stop.items) <= stop.rank <= rank - Size(items.head)
              && Ordered(stop.items, stop.rank, AfterStop(stop, next))
  {}

  // ---------------------------------------------------------------------------
  // The matcher
  // ---------------------------------------------------------------------------

  /** The conditions under which a count of repetitions is accepted. */
  predicate Accepts(n: nat, min: nat, max: nat) {
    (min == max == n) || (n >= min && max == UNBOUNDED) || (min <= n <= max)
  }

  /** The look ahead is skipped for a repetition that may be empty. */
  predicate LooksAhead(item: Item) {
    item.Repeat? ==> item.min != 0
  }

  /** Matches the first element of `items` at s and returns where it ends. */
  ghost function MatchNode(mem: Memory, items: Items, rank: nat, next: Next, s: nat): Option<nat>
    requires Ordered(items, rank, next)
    decreases rank, 1, 0
  {
    match items.head
    case Repeat(it, min, max) => MatchRepeat(mem, items, rank, next, 0, s)
    case Either(l, r) =>
      var left := MatchChain(mem, l, rank - 1, Nothing, false, s);
      if left.Some? then left else MatchChain(mem, r, rank - 1, Nothing, false, s)
    case Group(_, body) => MatchChain(mem, body, rank - 1, next, true, s)
    case WordBoundary(id) => if AtBoundary(mem, s) <==> id == 'b' then Some(s) else None
    case LineStart => if s == 0 then Some(s) else None
    case LineEnd => if s == |mem.text| then Some(s) else None
    case Dot => Some(s + 1)
    case Class(negated, members) => if InSet(members, Peek(mem, s)) != negated then Some(s + 1) else None
    case CharClass(id) => if MatchesClassEscape(id, Peek(mem, s)) then Some(s + 1) else None
    case Char(c) => if Peek(mem, s) as int == c then Some(s + 1) else None
  }

  /** A repetition after n repetitions up to `good`: one more, unless what follows already fits. */
  ghost function MatchRepeat(mem: Memory, items: Items, rank: nat, next: Next, n: nat, good: nat): Option<nat>
    requires items.head.Repeat? && Ordered(items, rank, next)
    decreases rank, 0, UNBOUNDED + items.head.max + 1 - n
  {
    var Repeat(it, min, max) := items.head;
    var result := if Accepts(n, min, max) then Some(good) else None;
    var stop := Following(items, rank, next);
    LookAheadOrdered(items, rank, next);
    if !(n == UNBOUNDED || n < max) then result
    else
      match MatchNode(mem, Last(it), rank - 1, stop, good)
      case None => result
      case Some(s) =>
        if stop.Go? && LooksAhead(stop.items.head) && Accepts(n + 1, min, max)
           && MatchNode(mem, stop.items, stop.rank, AfterStop(stop, next), s).Some? then Some(s)
        else if s >= |mem.text| then
          if Accepts(n + 1, min, max) then Some(s) else None
        else MatchRepeat(mem, items, rank, next, n + 1, s)
  }

  /** Matches the elements one after another; in a group the last of them sees what comes next. */
  ghost function MatchChain(mem: Memory, items: Items, rank: nat, next: Next, inGroup: bool, s: nat): Option<nat>
    requires SizeAll(items) <= rank
    requires next.Go? ==> SizeAll(next.items) <= next.rank <= rank - SizeAll(items)
    decreases rank, 2, 0
  {
    match MatchNode(mem, items, rank, if inGroup then Following(items, rank, next) else Nothing, s)
    case None => None
    case Some(e) =>
      if items.More? then MatchChain(mem, items.tail, rank - Size(items.head), next, inGroup, e) else Some(e)
  }

  /** The whole text matches the pattern with this body. */
  ghost predicate Matches(mem: Memory, body: Items) {
    var root := Last(Group(true, body));
    MatchNode(mem, root, SizeAll(root), Nothing, 0) == Some(|mem.text|)
  }

  // ---------------------------------------------------------------------------
  // Soundness
  // ---------------------------------------------------------------------------

  /** A match never goes backwards, and what it passes over inside the text is in the language. */
  ghost predicate SoundItem(mem: Memory, item: Item, s: nat, r: Option<nat>) {
    r.Some? ==> s <= r.value && (r.value <= |mem.text| ==> In(mem, item, s, r.value))
  }

  ghost predicate SoundItems(mem: Memory, items: Items, s: nat, r: Option<nat>) {
    r.Some? ==> s <= r.value && (r.value <= |mem.text| ==> InItems(mem, items, s, r.value))
  }

  lemma {:induction false} NodeSound(mem: Memory, items: Items, rank: nat, next: Next, s: nat)
    requires Ordered(items, rank, next)
    ensures SoundItem(mem, items.head, s, MatchNode(mem, items, rank, next, s))
    decreases rank, 1, 0
  {
    match items.head
    case Repeat(it, min, max) => RepeatSound(mem, items, rank, next, s, 0, s);
    case Either(l, r) =>
      ChainSound(mem, l, rank - 1, Nothing, false, s);
      ChainSound(mem, r, rank - 1, Nothing, false, s);
    case Group(_, body) => ChainSound(mem, body, rank - 1, next, true, s);
    case _ =>
  }

  lemma {:induction false} RepeatSound(mem: Memory, items: Items, rank: nat, next: Next, start: nat, n: nat, good: nat)
    requires items.head.Repeat? && Ordered(items, rank, next)
    requires start <= good && (good <= |mem.text| ==> Times(mem, items.head.item, n, start, good))
    ensures SoundItem(mem, items.head, start, MatchRepeat(mem, items, rank, next, n, good))
    decreases rank, 0, UNBOUNDED + items.head.max + 1 - n
  {
    var Repeat(it, min, max) := items.head;
    var stop := Following(items, rank, next);
    LookAheadOrdered(items, rank, next);
    if n == UNBOUNDED || n < max {
      NodeSound(mem, Last(it), rank - 1, stop, good);
      var r := MatchNode(mem, Last(it), rank - 1, stop, good);
      if r.Some? {
        assert r.value <= |mem.text| ==> Times(mem, it, n + 1, start, r.value);
        RepeatSound(mem, items, rank, next, start, n + 1, r.value);
      }
    }
  }

  lemma {:induction false} ChainSound(mem: Memory, items: Items, rank: nat, next: Next, inGroup: bool, s: nat)
    requires SizeAll(items) <= rank
    requires next.Go? ==> SizeAll(next.items) <= next.rank <= rank - SizeAll(items)
    ensures SoundItems(mem, items, s, MatchChain(mem, items, rank, next, inGroup, s))
    decreases rank, 2, 0
  {
    var n := if inGroup then Following(items, rank, next) else Nothing;
    NodeSound(mem, items, rank, n, s);
    var r := MatchNode(mem, items, rank, n, s);
    if r.Some? && items.More? {
      ChainSound(mem, items.tail, rank - Size(items.head), next, inGroup, r.value);
    }
  }

  /** A match means that the whole text is in the language of the pattern. */
  lemma MatchesSound(mem: Memory, body: Items)
    requires Matches(mem, body)
    ensures InItems(mem, body, 0, |mem.text|)
  {
    var root := Last(Group(true, body));
    NodeSound(mem, root, SizeAll(root), Nothing, 0);
  }
}
