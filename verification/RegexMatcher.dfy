/** The recursive matcher over the node array, tied to the matcher on syntax trees; and the two
    together: what it means when a text is accepted for a pattern. */
module RegexMatcher {
  import opened Chars
  import opened RegexSyntax
  import opened Wrappers
  import opened RegexGraph
  import opened RegexDecided
  import opened RegexLanguage
  import RegexBackslash
  import RegexPatterns
  import RegexCompiler

  /** The node index `next` is where the sequence `nx` starts. */
  ghost predicate HoldsNext(nodes: seq<Node>, next: int, nx: Next) {
    match nx
    case Nothing => next == -1
    case Go(items, _) => HoldsItems(nodes, next, items)
  }

  /** Walks the members of a class. */
  method TrexMatchClass(nodes: seq<Node>, first: int, c: char, ghost members: seq<SetItem>) returns (found: bool)
    requires HoldsSet(nodes, first, members)
    ensures found == InSet(members, c)
  {
    var i := first;
    ghost var k := 0;
    while true
      invariant 0 <= k < |members| && HoldsSet(nodes, i, members[k..])
      invariant forall j :: 0 <= j < k ==> !IsMember(members[j], c)
      decreases |members| - k
    {
      var node := nodes[i];
      assert HoldsMember(node, members[k]);
      if node.kind == OP_RANGE {
        if c as int >= node.left && c as int <= node.right {
          return true;
        }
      } else if node.kind == OP_CCLASS {
        if 0 <= node.left <= MAX_CHAR && MatchesClassEscape(node.left as char, c) {
          return true;
        }
      } else if c as int == node.kind {
        return true;
      }
      if node.next == -1 {
        return false;
      }
      assert members[k..][1..] == members[k + 1..];
      i := node.next;
      k := k + 1;
    }
  }

  lemma HeldInRange(nodes: seq<Node>, i: int, items: Items)
    requires HoldsItems(nodes, i, items)
    ensures InRange(nodes, i) && (nodes[i].next == -1 <==> items.Last?)
    ensures items.More? ==> HoldsItems(nodes, nodes[i].next, items.tail)
    ensures nodes[i].kind == OP_GREEDY <==> items.head.Repeat?
    ensures items.head.Repeat? ==>
      items.head.min <= UNBOUNDED && items.head.max <= UNBOUNDED && nodes[i].right == Pack(items.head.min, items.head.max)
  {
    assert HoldsItem(nodes, i, items.head);
    if items.More? {
      assert HoldsItem(nodes, nodes[i].next, items.tail.head);
    }
  }

  /** The sequence behind the first element of a chain, or what comes next. */
  lemma FollowingHeld(nodes: seq<Node>, i: int, items: Items, rank: nat, next: int, nx: Next)
    requires InRange(nodes, i) && HoldsItems(nodes, i, items) && SizeAll(items) <= rank && HoldsNext(nodes, next, nx)
    ensures HoldsNext(nodes, if nodes[i].next != -1 then nodes[i].next else next, Following(items, rank, nx))
    ensures HoldsNext(nodes, nodes[i].next, Tail(items, rank))
  {
    HeldInRange(nodes, i, items);
  }

  /** What the look ahead passes as next. */
  lemma AfterStopHeld(nodes: seq<Node>, stop: int, st: Next, next: int, nx: Next)
    requires st.Go? && HoldsNext(nodes, stop, st) && HoldsNext(nodes, next, nx)
    requires SizeAll(st.items) <= st.rank && (nx.Go? ==> SizeAll(nx.items) <= nx.rank)
    ensures InRange(nodes, stop) && (next != -1 ==> InRange(nodes, next))
    ensures HoldsNext(nodes,
      if nodes[stop].next != -1 then nodes[stop].next
      else if next != -1 && nodes[next].next != -1 then nodes[next].next
      else -1, AfterStop(st, nx))
    ensures nodes[stop].kind != OP_GREEDY || PackedMin(nodes[stop].right) != 0 <==> LooksAhead(st.items.head)
  {
    HeldInRange(nodes, stop, st.items);
    if st.items.head.Repeat? {
      PackRoundTrip(st.items.head.min, st.items.head.max);
    }
    if nx.Go? {
      HeldInRange(nodes, next, nx.items);
    }
  }

  /** Matches node i at s; returns where the match ends. */
  method TrexMatchNode(nodes: seq<Node>, mem: Memory, i: int, s: nat, next: int, ghost items: Items, ghost rank: nat,
                       ghost nx: Next)
    returns (r: Option<nat>)
    requires HoldsItems(nodes, i, items) && HoldsNext(nodes, next, nx) && Ordered(items, rank, nx)
    ensures r == MatchNode(mem, items, rank, nx, s)
    decreases rank, 1
  {
    hide MatchRepeat, MatchChain, AtBoundary, InSet;
    var node := nodes[i];
    if node.kind == OP_GREEDY {
      r := TrexMatchGreedy(nodes, mem, i, s, next, items, rank, nx);
    } else if node.kind == OP_OR {
      r := TrexMatchAlternative(nodes, mem, node.left, s, items.head.left, rank - 1);
      if r == None {
        r := TrexMatchAlternative(nodes, mem, node.right, s, items.head.right, rank - 1);
      }
    } else if node.kind == OP_EXPR || node.kind == OP_NOCAPEXPR {
      r := TrexMatchGroup(nodes, mem, node.left, s, next, items.head.body, rank - 1, nx);
    } else if node.kind == OP_WB {
      if AtBoundary(mem, s) {
        return if node.left == 'b' as int then Some(s) else None;
      }
      return if node.left == 'b' as int then None else Some(s);
    } else if node.kind == OP_BOL {
      return if s == 0 then Some(s) else None;
    } else if node.kind == OP_EOL {
      return if s == |mem.text| then Some(s) else None;
    } else if node.kind == OP_DOT {
      return Some(s + 1);
    } else if node.kind == OP_NCLASS || node.kind == OP_CLASS {
      var found := TrexMatchClass(nodes, node.left, Peek(mem, s), items.head.members);
      return if (if found then node.kind == OP_CLASS else node.kind == OP_NCLASS) then Some(s + 1) else None;
    } else if node.kind == OP_CCLASS {
      return if 0 <= node.left <= MAX_CHAR && MatchesClassEscape(node.left as char, Peek(mem, s)) then Some(s + 1) else None;
    } else {
      return if Peek(mem, s) as int == node.kind then Some(s + 1) else None;
    }
  }

  /** One side of an alternative: its nodes in turn, each without a next node. */
  method TrexMatchAlternative(nodes: seq<Node>, mem: Memory, first: int, s: nat, ghost items: Items, ghost rank: nat)
    returns (r: Option<nat>)
    requires HoldsItems(nodes, first, items) && SizeAll(items) <= rank
    ensures r == MatchChain(mem, items, rank, Nothing, false, s)
    decreases rank, 2
  {
    var temp, asd := first, s;
    ghost var here, k := items, rank;
    while true
      invariant HoldsItems(nodes, temp, here) && SizeAll(here) <= k <= rank
      invariant MatchChain(mem, items, rank, Nothing, false, s) == MatchChain(mem, here, k, Nothing, false, asd)
      decreases k
    {
      HeldInRange(nodes, temp, here);
      r := TrexMatchNode(nodes, mem, temp, asd, -1, here, k, Nothing);
      if r == None || nodes[temp].next == -1 {
        return r;
      }
      asd := r.value;
      temp := nodes[temp].next;
      here, k := here.tail, k - Size(here.head);
    }
  }

  /** The body of a group: its nodes in turn, each seeing the one behind it. */
  method TrexMatchGroup(nodes: seq<Node>, mem: Memory, first: int, s: nat, next: int, ghost items: Items,
                        ghost rank: nat, ghost nx: Next) returns (r: Option<nat>)
    requires HoldsItems(nodes, first, items) && SizeAll(items) <= rank && HoldsNext(nodes, next, nx)
    requires nx.Go? ==> SizeAll(nx.items) <= nx.rank <= rank - SizeAll(items)
    ensures r == MatchChain(mem, items, rank, nx, true, s)
    decreases rank, 2
  {
    var n, cur := first, s;
    ghost var here, k := items, rank;
    while true
      invariant HoldsItems(nodes, n, here) && SizeAll(here) <= k <= rank
      invariant nx.Go? ==> SizeAll(nx.items) <= nx.rank <= k - SizeAll(here)
      invariant MatchChain(mem, items, rank, nx, true, s) == MatchChain(mem, here, k, nx, true, cur)
      decreases k
    {
      HeldInRange(nodes, n, here);
      var subnext := if nodes[n].next != -1 then nodes[n].next else next;
      FollowingHeld(nodes, n, here, k, next, nx);
      r := TrexMatchNode(nodes, mem, n, cur, subnext, here, k, Following(here, k, nx));
      if r == None || nodes[n].next == -1 {
        return r;
      }
      cur := r.value;
      n := nodes[n].next;
      here, k := here.tail, k - Size(here.head);
    }
  }

  /** A repetition, stopping as soon as enough has been matched and what follows fits. */
  method TrexMatchGreedy(nodes: seq<Node>, mem: Memory, i: int, s: nat, next: int, ghost items: Items,
                         ghost rank: nat, ghost nx: Next)
    returns (r: Option<nat>)
    requires HoldsItems(nodes, i, items) && HoldsNext(nodes, next, nx) && Ordered(items, rank, nx) && items.head.Repeat?
    ensures r == MatchRepeat(mem, items, rank, nx, 0, s)
    decreases rank, 0
  {
    hide MatchNode, MatchChain;
    var node := nodes[i];
    var p0, p1 := PackedMin(node.right), PackedMax(node.right);
    PackRoundTrip(items.head.min, items.head.max);
    var stop := if node.next != -1 then node.next else next;
    ghost var st := Following(items, rank, nx);
    FollowingHeld(nodes, i, items, rank, next, nx);
    LookAheadOrdered(items, rank, nx);
    if st.Go? {
      AfterStopHeld(nodes, stop, st, next, nx);
    }
    var n, good: nat := 0, s;
    while n == UNBOUNDED || n < p1
      invariant n <= UNBOUNDED + 1
      invariant MatchRepeat(mem, items, rank, nx, 0, s) == MatchRepeat(mem, items, rank, nx, n, good)
      decreases UNBOUNDED + 1 - n
    {
      var e := TrexMatchNode(nodes, mem, node.left, good, stop, Last(items.head.item), rank - 1, st);
      if e == None {
        break;
      }
      n := n + 1;
      good := e.value;
      if stop != -1 {
        if nodes[stop].kind != OP_GREEDY || PackedMin(nodes[stop].right) != 0 {
          var gnext := -1;
          if nodes[stop].next != -1 {
            gnext := nodes[stop].next;
          } else if next != -1 && nodes[next].next != -1 {
            gnext := nodes[next].next;
          }
          var fits := TrexMatchNode(nodes, mem, stop, good, gnext, st.items, st.rank, AfterStop(st, nx));
          if fits.Some? && Accepts(n, p0, p1) {
            break;
          }
        }
      }
      if good >= |mem.text| {
        break;
      }
    }
    return if Accepts(n, p0, p1) then Some(good) else None;
  }

  /** The whole text, and nothing less, is matched by the group at node 0. */
  method TrexMatch(nodes: seq<Node>, mem: Memory, ghost body: Items) returns (r: bool)
    requires HoldsItems(nodes, 0, Last(Group(true, body)))
    ensures r <==> Matches(mem, body)
  {
    var e := TrexMatchNode(nodes, mem, 0, 0, -1, Last(Group(true, body)), SizeAll(Last(Group(true, body))), Nothing);
    return e == Some(|mem.text|);
  }

  /** Compiles the pattern and matches the text. A text is accepted only if all of it is in the
      language of the pattern as the reference parser reads it, and exactly then if one character decides every
      choice of the pattern. Memory outside the pattern is touched for the empty pattern and for a beginning of
      an accepted pattern that ends in a lone backslash, and for no other one. */
  method Accepted(pattern: string, mem: Memory) returns (s: RegexCompiler.Status, matched: bool)
    requires IsPattern(pattern)
    ensures s.OutOfBounds? <==>
      |pattern| == 0 || (RegexPatterns.LoneBackslash(pattern) && exists t :: ParsePattern(pattern + t).Parsed?)
    ensures s.Failed? ==> |pattern| > 0 && ParsePattern(pattern) == Rejected(s.reason)
    ensures s.Fine? ==> |pattern| > 0 && !RegexPatterns.LoneBackslash(pattern) && ParsePattern(pattern).Parsed?
    ensures s.Fine? ==> (matched <==> Matches(mem, ParsePattern(pattern).value))
    ensures s.Fine? && matched ==> InItems(mem, ParsePattern(pattern).value, 0, |mem.text|)
    ensures s.Fine? && !matched && DecidedAll(ParsePattern(pattern).value, IsLong(mem))
              && !GoesOnAll(ParsePattern(pattern).value, NUL) ==>
            !InItems(mem, ParsePattern(pattern).value, 0, |mem.text|)
    ensures matched ==> s.Fine?
  {
    hide DecidedAll, GoesOnAll, InItems, Matches, ParsePattern, RegexPatterns.LoneBackslash;
    matched := false;
    var exp := new RegexCompiler.Compiler(pattern);
    s := exp.TrexCompile();
    if |pattern| > 0 {
      RegexPatterns.PatternEnds(pattern);
      if RegexPatterns.LoneBackslash(pattern) {
        RegexBackslash.LoneBackslashExact(pattern);
      }
    }
    if s.Fine? {
      ghost var body := ParsePattern(pattern).value;
      matched := TrexMatch(exp.nodes[..exp.nsize], mem, body);
      if matched {
        MatchesSound(mem, body);
      } else if DecidedAll(body, IsLong(mem)) && !GoesOnAll(body, NUL) {
        DecidedExact(mem, body);
      }
    }
  }
}
