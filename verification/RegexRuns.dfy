/** Repetitions of single characters, exactly: where the loop of a repetition stops, with and without a look at
    what comes next. */
module RegexRuns {
  import opened Chars
  import opened RegexDecided
  import opened RegexLanguage
  import opened RegexSyntax
  import opened Wrappers

  /** An element that takes one character. */
  predicate IsSingle(item: Item) {
    item.Char? || item.Dot? || item.CharClass? || item.Class?
  }

  /** The character after a repetition that ends it, if what comes next is looked at. */
  predicate Fits(awaited: Option<Item>, c: char) {
    awaited.Some? && IsOne(awaited.value, c)
  }

  /** At k, inside the text, a repetition from s goes on. */
  predicate Passes(mem: Memory, min: nat, max: nat, awaited: Option<Item>, s: nat, k: nat)
    requires s < k
  {
    k < |mem.text| && !(InBounds(k - s, min, max) && Fits(awaited, Peek(mem, k)))
  }

  /** A repetition of single characters from s ends at e: all characters in between are of the kind, their
      number is admitted, at none of them in between has it been admitted with a fitting character next, and
      there is a reason to stop at e. */
  ghost predicate EndsAt(mem: Memory, it: Item, min: nat, max: nat, awaited: Option<Item>, s: nat, e: nat) {
    && s <= e && (forall k :: s <= k < e ==> IsOne(it, Peek(mem, k)))
    && InBounds(e - s, min, max) && e - s <= UNBOUNDED + 1
    && (forall k :: s < k < e ==> Passes(mem, min, max, awaited, s, k))
    && (|| (s < e && (Fits(awaited, Peek(mem, e)) || e >= |mem.text|))
        || !IsOne(it, Peek(mem, e))
        || e - s == (if max == UNBOUNDED then UNBOUNDED + 1 else max))
  }

  /** What the repetition looks at. */
  ghost predicate Awaits(items: Items, rank: nat, next: Next, awaited: Option<Item>)
    requires Ordered(items, rank, next)
  {
    var stop := Following(items, rank, next);
    if stop.Go? && LooksAhead(stop.items.head) then IsSingle(stop.items.head) && awaited == Some(stop.items.head)
    else awaited == None
  }

  lemma SingleMatch(mem: Memory, items: Items, rank: nat, next: Next, s: nat)
    requires Ordered(items, rank, next) && IsSingle(items.head)
    ensures MatchNode(mem, items, rank, next, s) == if IsOne(items.head, Peek(mem, s)) then Some(s + 1) else None
  {}

  /** n characters have been taken, and there was no reason to stop so far. */
  ghost predicate Going(mem: Memory, it: Item, min: nat, max: nat, awaited: Option<Item>, s: nat, n: nat) {
    && n <= (if max == UNBOUNDED then UNBOUNDED + 1 else max) && max <= UNBOUNDED
    && (forall k :: s <= k < s + n ==> IsOne(it, Peek(mem, k)))
    && (forall k :: s < k <= s + n ==> Passes(mem, min, max, awaited, s, k))
  }

  /** One turn of the loop. */
  lemma RepeatTurn(mem: Memory, items: Items, rank: nat, next: Next, awaited: Option<Item>, n: nat, good: nat)
    requires items.head.Repeat? && IsSingle(items.head.item) && Ordered(items, rank, next) && Awaits(items, rank, next, awaited)
    ensures var Repeat(it, min, max) := items.head;
      MatchRepeat(mem, items, rank, next, n, good) ==
        if !(n == UNBOUNDED || n < max) || !IsOne(it, Peek(mem, good)) then
          if InBounds(n, min, max) then Some(good) else None
        else if InBounds(n + 1, min, max) && Fits(awaited, Peek(mem, good + 1)) then Some(good + 1)
        else if good + 1 >= |mem.text| then if InBounds(n + 1, min, max) then Some(good + 1) else None
        else MatchRepeat(mem, items, rank, next, n + 1, good + 1)
  {
    hide MatchNode, IsOne;
    var it := items.head.item;
    var stop := Following(items, rank, next);
    LookAheadOrdered(items, rank, next);
    SingleMatch(mem, Last(it), rank - 1, stop, good);
    if stop.Go? && LooksAhead(stop.items.head) {
      SingleMatch(mem, stop.items, stop.rank, AfterStop(stop, next), good + 1);
    }
  }

  /** The loop ends where the definition says. */
  lemma {:induction false} RepeatEnds(mem: Memory, items: Items, rank: nat, next: Next, awaited: Option<Item>, s: nat, n: nat, e: nat)
    requires items.head.Repeat? && IsSingle(items.head.item) && Ordered(items, rank, next) && Awaits(items, rank, next, awaited)
    requires var Repeat(it, min, max) := items.head; Going(mem, it, min, max, awaited, s, n)
    ensures var Repeat(it, min, max) := items.head;
      MatchRepeat(mem, items, rank, next, n, s + n) == Some(e) <==> EndsAt(mem, it, min, max, awaited, s, e)
    decreases UNBOUNDED + 1 - n
  {
    hide MatchRepeat, IsOne, Awaits, Ordered, Peek;
    var Repeat(it, min, max) := items.head;
    RepeatTurn(mem, items, rank, next, awaited, n, s + n);
    if !(n == UNBOUNDED || n < max) || !IsOne(it, Peek(mem, s + n)) {
      LastTurn(mem, it, min, max, awaited, s, n, e);
    } else if (InBounds(n + 1, min, max) && Fits(awaited, Peek(mem, s + n + 1))) || s + n + 1 >= |mem.text| {
      StopTurn(mem, it, min, max, awaited, s, n, e);
    } else {
      RepeatEnds(mem, items, rank, next, awaited, s, n + 1, e);
    }
  }

  /** Where the limit is reached or the next character is of another kind, there is one end, if the number is
      admitted. */
  lemma LastTurn(mem: Memory, it: Item, min: nat, max: nat, awaited: Option<Item>, s: nat, n: nat, e: nat)
    requires Going(mem, it, min, max, awaited, s, n)
    requires !(n == UNBOUNDED || n < max) || !IsOne(it, Peek(mem, s + n))
    ensures EndsAt(mem, it, min, max, awaited, s, e) <==> e == s + n && InBounds(n, min, max)
  {
    hide IsOne, Peek, Fits;
    if EndsAt(mem, it, min, max, awaited, s, e) {
      NotBefore(mem, it, min, max, awaited, s, n, e);
    }
  }

  /** Where the next character but one fits or the text is over, there is one end, if the number is admitted. */
  lemma StopTurn(mem: Memory, it: Item, min: nat, max: nat, awaited: Option<Item>, s: nat, n: nat, e: nat)
    requires Going(mem, it, min, max, awaited, s, n)
    requires (n == UNBOUNDED || n < max) && IsOne(it, Peek(mem, s + n))
    requires (InBounds(n + 1, min, max) && Fits(awaited, Peek(mem, s + n + 1))) || s + n + 1 >= |mem.text|
    ensures EndsAt(mem, it, min, max, awaited, s, e) <==> e == s + n + 1 && InBounds(n + 1, min, max)
  {
    hide IsOne, Peek, Fits;
    assert !Passes(mem, min, max, awaited, s, s + n + 1);
    assert n > 0 ==> Passes(mem, min, max, awaited, s, s + n);
    if EndsAt(mem, it, min, max, awaited, s, e) {
      NotBefore(mem, it, min, max, awaited, s, n, e);
    }
  }

  /** It does not end before the loop has got there. */
  lemma NotBefore(mem: Memory, it: Item, min: nat, max: nat, awaited: Option<Item>, s: nat, n: nat, e: nat)
    requires Going(mem, it, min, max, awaited, s, n) && EndsAt(mem, it, min, max, awaited, s, e)
    ensures s + n <= e
  {
    hide IsOne, Peek, Fits;
    assert s < e < s + n ==> Passes(mem, min, max, awaited, s, e);
  }

  // ---------------------------------------------------------------------------
  // Whole patterns
  // ---------------------------------------------------------------------------

  predicate AllOf(it: Item, text: string) {
    forall k :: 0 <= k < |text| ==> IsOne(it, text[k])
  }

  /** Where a repetition of single characters ends that is matched at s. */
  lemma FrontEnds(mem: Memory, items: Items, rank: nat, next: Next, awaited: Option<Item>, s: nat, e: nat)
    requires items.head.Repeat? && IsSingle(items.head.item) && Ordered(items, rank, next) && Awaits(items, rank, next, awaited)
    requires items.head.max <= UNBOUNDED
    ensures var Repeat(it, min, max) := items.head;
      MatchNode(mem, items, rank, next, s) == Some(e) <==> EndsAt(mem, it, min, max, awaited, s, e)
  {
    hide MatchRepeat, EndsAt, Awaits;
    RepeatEnds(mem, items, rank, next, awaited, s, 0, e);
  }

  lemma TakenText(mem: Memory, it: Item, s: nat, e: nat)
    requires s <= e <= |mem.text|
    ensures AllOf(it, mem.text[s..e]) <==> forall k :: s <= k < e ==> IsOne(it, Peek(mem, k))
  {
    hide IsOne;
    var part := mem.text[s..e];
    if AllOf(it, part) {
      forall k | s <= k < e
        ensures IsOne(it, Peek(mem, k))
      {
        assert part[k - s] == Peek(mem, k);
      }
    }
    if forall k :: s <= k < e ==> IsOne(it, Peek(mem, k)) {
      forall k | 0 <= k < e - s
        ensures IsOne(it, part[k])
      {
        assert part[k] == Peek(mem, s + k);
      }
    }
  }

  /** A repetition alone matches a text of admitted characters whose number is admitted, unless it could take
      the NUL behind an empty text. */
  lemma RunExact(mem: Memory, it: Item, min: nat, max: nat)
    requires IsSingle(it) && max <= UNBOUNDED
    ensures Matches(mem, Last(Repeat(it, min, max))) <==>
      && AllOf(it, mem.text) && InBounds(|mem.text|, min, max) && |mem.text| <= UNBOUNDED + 1
      && (mem.text == "" ==> max == 0 || !IsOne(it, NUL))
  {
    hide IsOne, AllOf;
    var body := Last(Repeat(it, min, max));
    assert Size(it) == 1 && Size(body.head) == 2;
    hide MatchNode;
    FrontEnds(mem, body, 2, Nothing, None, 0, |mem.text|);
    RootLast(mem, body);
    TakenText(mem, it, 0, |mem.text|);
    assert mem.text[0..|mem.text|] == mem.text;
  }

  lemma RootLast(mem: Memory, body: Items)
    requires body.Last? && SizeAll(body) == 2
    ensures Matches(mem, body) <==> MatchNode(mem, body, 2, Nothing, 0) == Some(|mem.text|)
  {
    hide MatchRepeat;
    assert MatchChain(mem, body, 2, Nothing, true, 0) == MatchNode(mem, body, 2, Nothing, 0);
  }

  /** A repetition stops at the first character that the next element takes: with a single character behind it, a
      repetition matches the text whose last character is of the second kind, whose other characters are of the
      first kind and of an admitted number, none of them, where the repetition could have ended before it, of the
      second kind. */
  lemma LookAheadExact(mem: Memory, it: Item, min: nat, max: nat, last: Item)
    requires IsSingle(it) && IsSingle(last) && max <= UNBOUNDED
    ensures Matches(mem, More(Repeat(it, min, max), Last(last))) <==> mem.text != "" && StopsBefore(mem.text, it, min, max, last)
  {
    hide IsOne, StopsBefore;
    var body := More(Repeat(it, min, max), Last(last));
    assert Size(it) == 1 && Size(body.head) == 2 && SizeAll(body.tail) == 1;
    hide MatchNode, Matches, EndsAt;
    RootPair(mem, body, 3);
    var next := Tail(body, 3);
    if mem.text != "" {
      var m := |mem.text| - 1;
      FrontEnds(mem, body, 3, next, Some(last), 0, m);
      SingleMatch(mem, body.tail, 1, Nothing, m);
      EndsBeforeLast(mem, it, min, max, last);
    }
    forall e: nat | MatchNode(mem, body, 3, next, 0) == Some(e) && MatchNode(mem, body.tail, 1, Nothing, e) == Some(|mem.text|)
      ensures e + 1 == |mem.text|
    {
      SingleMatch(mem, body.tail, 1, Nothing, e);
    }
  }

  /** Its last character is the first one behind the start at which the repetition can end. */
  predicate StopsBefore(text: string, it: Item, min: nat, max: nat, last: Item)
    requires text != ""
  {
    var m := |text| - 1;
    && IsOne(last, text[m]) && AllOf(it, text[..m]) && InBounds(m, min, max) && m <= UNBOUNDED + 1
    && (forall k :: 0 < k < m && InBounds(k, min, max) ==> !IsOne(last, text[k]))
    && (m == 0 ==> max == 0 || !IsOne(it, text[0]))
  }

  lemma EndsBeforeLast(mem: Memory, it: Item, min: nat, max: nat, last: Item)
    requires mem.text != "" && max <= UNBOUNDED
    ensures var m := |mem.text| - 1;
      StopsBefore(mem.text, it, min, max, last) <==>
        IsOne(last, mem.text[m]) && EndsAt(mem, it, min, max, Some(last), 0, m)
  {
    hide IsOne, AllOf;
    var m := |mem.text| - 1;
    TakenText(mem, it, 0, m);
    assert mem.text[0..m] == mem.text[..m];
    forall k | 0 < k < m
      ensures Passes(mem, min, max, Some(last), 0, k) <==> !(InBounds(k, min, max) && IsOne(last, mem.text[k]))
    {}
    assert m > 0 ==> Peek(mem, m) == mem.text[m];
  }

  lemma RootPair(mem: Memory, body: Items, rank: nat)
    requires body.More? && body.tail.Last? && SizeAll(body) == rank
    ensures var size := SizeAll(body.tail);
      && Ordered(body, rank, Tail(body, rank)) && Ordered(body.tail, size, Nothing) && Tail(body, rank) == Go(body.tail, size)
      && (Matches(mem, body) <==> exists e: nat :: MatchNode(mem, body, rank, Tail(body, rank), 0) == Some(e)
                                                   && MatchNode(mem, body.tail, size, Nothing, e) == Some(|mem.text|))
  {
    hide MatchRepeat;
    var size := SizeAll(body.tail);
    assert MatchChain(mem, body, rank, Nothing, true, 0) ==
      match MatchNode(mem, body, rank, Tail(body, rank), 0) case None => None case Some(e) => MatchChain(mem, body.tail, size, Nothing, true, e);
  }

  /** The dot with a star, and a character: the text ends with the first such character behind its start. */
  lemma DotStarExact(mem: Memory, c: char)
    requires |mem.text| <= UNBOUNDED + 2
    ensures Matches(mem, More(Star(Dot), Last(Char(c as int)))) <==>
      |mem.text| >= 2 && mem.text[|mem.text| - 1] == c && c !in mem.text[1..|mem.text| - 1]
  {
    hide Matches;
    var last := Char(c as int);
    LookAheadExact(mem, Dot, 0, UNBOUNDED, last);
    if |mem.text| >= 2 {
      var m := |mem.text| - 1;
      var inside := mem.text[1..m];
      assert forall k :: 0 < k < m ==> mem.text[k] == inside[k - 1];
      assert c in inside <==> exists k :: 0 < k < m && IsOne(last, mem.text[k]);
    }
  }

  /** The look ahead sees past the end of a group. */
  lemma GroupLookAheadExact(mem: Memory, capture: bool, it: Item, min: nat, max: nat, last: Item)
    requires IsSingle(it) && IsSingle(last) && max <= UNBOUNDED
    ensures Matches(mem, More(Group(capture, Last(Repeat(it, min, max))), Last(last))) <==>
            Matches(mem, More(Repeat(it, min, max), Last(last)))
  {
    hide IsOne;
    var inner := Last(Repeat(it, min, max));
    var body, plain := More(Group(capture, inner), Last(last)), More(inner.head, Last(last));
    assert Size(it) == 1 && Size(inner.head) == 2 && SizeAll(inner) == 2 && Size(body.head) == 3 && SizeAll(body.tail) == 1;
    hide Matches, EndsAt, MatchRepeat;
    RootPair(mem, body, 4);
    RootPair(mem, plain, 3);
    var next := Go(Last(last), 1);
    assert MatchNode(mem, body, 4, next, 0) == MatchChain(mem, inner, 3, next, true, 0) == MatchNode(mem, inner, 3, next, 0);
    hide MatchNode;
    forall e: nat
      ensures MatchNode(mem, inner, 3, next, 0) == Some(e) <==> MatchNode(mem, plain, 3, next, 0) == Some(e)
    {
      FrontEnds(mem, inner, 3, next, Some(last), 0, e);
      FrontEnds(mem, plain, 3, next, Some(last), 0, e);
    }
  }

  /** Inside an alternative nothing is seen of what comes behind the group: the repetition takes all it can, and the
      other side is never tried. */
  lemma AlternativeExact(mem: Memory, capture: bool, it: Item, right: Items, last: Item)
    requires IsSingle(it) && IsSingle(last) && !IsOne(it, NUL) && |mem.text| <= UNBOUNDED + 1
    ensures Matches(mem, More(Group(capture, Last(Either(Last(Star(it)), right))), Last(last))) <==>
      exists e :: 0 <= e < |mem.text| && LongestRun(it, mem.text, e) && e + 1 == |mem.text| && IsOne(last, mem.text[e])
  {
    hide IsOne, LongestRun, Matches, MatchNode;
    var body := More(Group(capture, Last(Either(Last(Star(it)), right))), Last(last));
    var rank := SizeAll(body);
    RootPair(mem, body, rank);
    var run := LongestExists(it, mem.text);
    AlternativeEnds(mem, body, rank, run);
    forall e | LongestRun(it, mem.text, e)
      ensures e == run
    {
      LongestUnique(it, mem.text, e, run);
    }
    SingleMatch(mem, body.tail, 1, Nothing, run);
  }

  lemma AlternativeEnds(mem: Memory, body: Items, rank: nat, run: nat)
    requires body.More? && body.head.Group? && body.head.body.Last? && body.head.body.head.Either? && rank == SizeAll(body)
    requires var left := body.head.body.head.left; left.Last? && left.head.Repeat? && left.head == Star(left.head.item) && IsSingle(left.head.item)
    requires var it := body.head.body.head.left.head.item; !IsOne(it, NUL) && LongestRun(it, mem.text, run)
    requires |mem.text| <= UNBOUNDED + 1 && Ordered(body, rank, Tail(body, rank))
    ensures MatchNode(mem, body, rank, Tail(body, rank), 0) == Some(run)
  {
    hide IsOne, LongestRun, EndsAt, MatchRepeat;
    var left := body.head.body.head.left;
    AlternativeSize(body);
    hide Size, SizeAll;
    LeftTaken(mem, body, rank);
    hide MatchNode;
    FrontEnds(mem, left, rank - 2, Nothing, None, 0, run);
    assert mem.text[0..] == mem.text;
    EndsOfRun(mem, left.head.item, 0, run);
  }

  /** A group around an alternative whose left side matches. */
  lemma LeftTaken(mem: Memory, body: Items, rank: nat)
    requires body.More? && body.head.Group? && body.head.body.Last? && body.head.body.head.Either? && rank == SizeAll(body)
    requires Ordered(body, rank, Tail(body, rank)) && body.head.body.head.left.Last?
    requires var either := body.head.body;
      SizeAll(either) == Size(either.head) == rank - SizeAll(body.tail) - 1 && SizeAll(either.head.left) <= rank - 2
    ensures var left := MatchNode(mem, body.head.body.head.left, rank - 2, Nothing, 0);
      left.Some? ==> MatchNode(mem, body, rank, Tail(body, rank), 0) == left
  {
    hide MatchNode, MatchChain;
    var either, next := body.head.body, Tail(body, rank);
    GroupNode(mem, body, rank, next, 0);
    ChainOne(mem, either, rank - 1, next, true, 0);
    EitherNode(mem, either, rank - 1, next, 0);
    ChainOne(mem, either.head.left, rank - 2, Nothing, false, 0);
  }

  lemma ChainOne(mem: Memory, items: Items, rank: nat, next: Next, inGroup: bool, s: nat)
    requires items.Last? && SizeAll(items) <= rank
    requires next.Go? ==> SizeAll(next.items) <= next.rank <= rank - SizeAll(items)
    ensures Ordered(items, rank, next) && Ordered(items, rank, Nothing)
    ensures MatchChain(mem, items, rank, next, inGroup, s) == MatchNode(mem, items, rank, if inGroup then next else Nothing, s)
  {
    hide MatchNode;
  }

  lemma GroupNode(mem: Memory, items: Items, rank: nat, next: Next, s: nat)
    requires items.head.Group? && Ordered(items, rank, next)
    ensures SizeAll(items.head.body) <= rank - 1 && (next.Go? ==> SizeAll(next.items) <= next.rank <= rank - 1 - SizeAll(items.head.body))
    ensures MatchNode(mem, items, rank, next, s) == MatchChain(mem, items.head.body, rank - 1, next, true, s)
  {
    hide MatchChain, MatchRepeat;
  }

  lemma EitherNode(mem: Memory, items: Items, rank: nat, next: Next, s: nat)
    requires items.head.Either? && Ordered(items, rank, next)
    ensures SizeAll(items.head.left) <= rank - 1
    ensures var left := MatchChain(mem, items.head.left, rank - 1, Nothing, false, s);
      left.Some? ==> MatchNode(mem, items, rank, next, s) == left
  {
    hide MatchChain, MatchRepeat;
  }

  lemma AlternativeSize(body: Items)
    requires body.More? && body.head.Group? && body.head.body.Last? && body.head.body.head.Either?
    requires var left := body.head.body.head.left; left.Last? && left.head.Repeat? && IsSingle(left.head.item)
    ensures var either := body.head.body;
      && SizeAll(either.head.left) == Size(either.head.left.head) == 2
      && Size(either.head) == 3 + SizeAll(either.head.right) == SizeAll(either)
      && Size(body.head) == 1 + SizeAll(either) && SizeAll(body) == Size(body.head) + SizeAll(body.tail)
  {
    var either := body.head.body;
    assert Size(either.head.left.head) == 2;
    assert SizeAll(either.head.left) == 2;
    assert SizeAll(either) == Size(either.head);
  }

  lemma {:induction false} LongestExists(it: Item, text: string) returns (e: nat)
    ensures LongestRun(it, text, e)
  {
    e := 0;
    while e < |text| && IsOne(it, text[e])
      invariant e <= |text| && AllOf(it, text[..e])
    {
      e := e + 1;
    }
  }

  lemma LongestUnique(it: Item, text: string, e: int, d: int)
    requires LongestRun(it, text, e) && LongestRun(it, text, d)
    ensures e == d
  {}

  /** A repetition that may be empty is not looked at: of two repetitions the first takes all it can. */
  lemma TwoRunsExact(mem: Memory, it: Item, other: Item)
    requires IsSingle(it) && IsSingle(other) && !IsOne(it, NUL) && !IsOne(other, NUL) && |mem.text| <= UNBOUNDED + 1
    ensures Matches(mem, More(Star(it), Last(Star(other)))) <==>
      exists e: nat :: TwoEnds(mem.text, it, other, e)
  {
    hide Matches, MatchNode, TwoEnds;
    var body := More(Star(it), Last(Star(other)));
    assert Size(it) == 1 && Size(other) == 1 && Size(body.head) == 2 && SizeAll(body.tail) == 2;
    RootPair(mem, body, 4);
    hide Ordered, Tail, SizeAll;
    forall e: nat
      ensures MatchNode(mem, body, 4, Tail(body, 4), 0) == Some(e) && MatchNode(mem, body.tail, 2, Nothing, e) == Some(|mem.text|)
              <==> TwoEnds(mem.text, it, other, e)
    {
      TwoRunsEnd(mem, body, e);
    }
  }

  /** The first run ends at e and is the longest, and the rest is a run of the second kind. */
  predicate TwoEnds(text: string, it: Item, other: Item, e: nat) {
    e <= |text| && LongestRun(it, text, e) && AllOf(other, text[e..])
  }

  lemma TwoRunsEnd(mem: Memory, body: Items, e: nat)
    requires body.More? && body.tail.Last? && body.head.Repeat? && body.tail.head.Repeat?
    requires var it, other := body.head.item, body.tail.head.item;
      && body.head == Star(it) && body.tail.head == Star(other) && IsSingle(it) && IsSingle(other)
      && !IsOne(it, NUL) && !IsOne(other, NUL)
    requires |mem.text| <= UNBOUNDED + 1 && SizeAll(body) == 4 && SizeAll(body.tail) == 2
    requires Ordered(body, 4, Tail(body, 4)) && Ordered(body.tail, 2, Nothing)
    ensures MatchNode(mem, body, 4, Tail(body, 4), 0) == Some(e) && MatchNode(mem, body.tail, 2, Nothing, e) == Some(|mem.text|)
            <==> TwoEnds(mem.text, body.head.item, body.tail.head.item, e)
  {
    hide IsOne, LongestRun, EndsAt, MatchNode, AllOf;
    var it, other, n := body.head.item, body.tail.head.item, |mem.text|;
    assert Awaits(body, 4, Tail(body, 4), None) && Awaits(body.tail, 2, Nothing, None);
    hide Awaits;
    FrontEnds(mem, body, 4, Tail(body, 4), None, 0, e);
    EndsOfRun(mem, it, 0, e);
    assert mem.text[0..] == mem.text;
    RunInside(it, mem.text, e);
    if e <= n {
      FrontEnds(mem, body.tail, 2, Nothing, None, e, n);
      EndsOfRun(mem, other, e, n);
      WholeRun(other, mem.text[e..]);
    }
  }

  lemma RunInside(it: Item, text: string, e: int)
    ensures LongestRun(it, text, e) ==> 0 <= e <= |text|
  {}

  /** The first e characters, and no more, are of the kind. */
  predicate LongestRun(it: Item, text: string, e: int) {
    0 <= e <= |text| && AllOf(it, text[..e]) && (e < |text| ==> !IsOne(it, text[e]))
  }

  lemma WholeRun(it: Item, text: string)
    ensures LongestRun(it, text, |text|) <==> AllOf(it, text)
  {
    assert text[..|text|] == text;
  }

  lemma EndsOfRun(mem: Memory, it: Item, s: nat, e: nat)
    requires s <= |mem.text| <= UNBOUNDED + 1 && !IsOne(it, NUL)
    ensures EndsAt(mem, it, 0, UNBOUNDED, None, s, e) <==> LongestRun(it, mem.text[s..], e - s)
  {
    hide IsOne;
    var n := |mem.text|;
    assert Peek(mem, n) == NUL;
    if s <= e <= n {
      TakenText(mem, it, s, e);
      assert mem.text[s..][..e - s] == mem.text[s..e];
      assert e < n ==> mem.text[s..][e - s] == Peek(mem, e);
      forall k | s < k < e
        ensures Passes(mem, 0, UNBOUNDED, None, s, k)
      {}
    }
  }
}
