/** The regular expression compiler: recursive descent over the pattern, appending nodes to an
    array that doubles when it is full and patching links into nodes already written. */
module RegexCompiler {
  import opened RegexSyntax
  import opened Chars
  import opened Decimals
  import opened Wrappers
  import opened RegexGraph
  import opened RegexPatterns

  /** How a step of the compiler ends; a failure abandons the whole compilation. */
  datatype Status = Fine | Failed(reason: Reason) | OutOfBounds

  /** Nodes are only added: what was there before is unchanged. */
  ghost predicate Grew(before: seq<Node>, after: seq<Node>) {
    |before| <= |after| && after[..|before|] == before
  }

  /** `ret` holds `item`, in nodes that were added to `before`, and is not linked to anything yet. */
  ghost predicate NewItem(before: seq<Node>, after: seq<Node>, ret: int, item: Item) {
    && Grew(before, after) && LinksOk(after)
    && HoldsItem(after, ret, item) && after[ret].next == -1
    && |before| <= ret && Within(Below(after, ret, item), |before|, |after|) && ret !in Below(after, ret, item)
  }

  ghost predicate NewItems(before: seq<Node>, after: seq<Node>, ret: int, items: Items) {
    && Grew(before, after) && LinksOk(after)
    && HoldsItems(after, ret, items) && Within(Cells(after, ret, items), |before|, |after|)
  }

  // ---------------------------------------------------------------------------
  // Effects of appending and patching on values
  // ---------------------------------------------------------------------------

  function Fresh(kind: int, nsubexpr: nat): Node {
    Node(kind, -1, if kind == OP_EXPR then nsubexpr else -1, -1)
  }

  lemma AppendKeepsLinks(g: seq<Node>, node: Node)
    requires LinksOk(g) && NodeLinksOk(g, node)
    ensures LinksOk(g + [node])
  {}

  lemma PatchKeepsLinks(g: seq<Node>, i: nat, node: Node)
    requires LinksOk(g) && i < |g| && NodeLinksOk(g, node)
    ensures LinksOk(g[i := node])
  {}

  /** A single new node without nodes below it. */
  lemma NewLeaf(g: seq<Node>, node: Node, item: Item)
    requires LinksOk(g) && NodeLinksOk(g, node) && node.next == -1
    requires item.Char? || item.Dot? || item.CharClass? || item.LineStart? || item.LineEnd? || item.WordBoundary?
    requires HoldsItem(g + [node], |g|, item)
    ensures NewItem(g, g + [node], |g|, item)
  {}

  /** Wraps a new element in a repetition node. */
  lemma NewRepeat(before: seq<Node>, g: seq<Node>, ret: int, item: Item, min: nat, max: nat)
    requires NewItem(before, g, ret, item) && min <= UNBOUNDED && max <= UNBOUNDED
    ensures NewItem(before, g + [Node(OP_GREEDY, ret, Pack(min, max), -1)], |g|, Repeat(item, min, max))
  {
    var node := Node(OP_GREEDY, ret, Pack(min, max), -1);
    AppendKeepsLinks(g, node);
    ItemFrame(g, g + [node], ret, item);
  }

  /** A sequence of one element. */
  lemma NewLast(before: seq<Node>, g: seq<Node>, ret: int, item: Item)
    requires NewItem(before, g, ret, item)
    ensures NewItems(before, g, ret, Last(item))
  {}

  /** Links an element to the sequence that was added after it. */
  lemma NewMore(before: seq<Node>, mid: seq<Node>, after: seq<Node>, ret: nat, item: Item, rest: int, tail: Items)
    requires NewItem(before, mid, ret, item) && NewItems(mid, after, rest, tail)
    ensures ret < |after| && NewItems(before, after[ret := after[ret].(next := rest)], ret, More(item, tail))
  {
    assert after[..|mid|][ret] == mid[ret];
    var linked := after[ret := after[ret].(next := rest)];
    assert NodeLinksOk(after, after[ret]);
    PatchKeepsLinks(after, ret, after[ret].(next := rest));
    forall c | c in Below(mid, ret, item)
      ensures linked[c] == mid[c]
    {
      assert after[..|mid|][c] == mid[c];
    }
    ItemFrame(mid, linked, ret, item);
    ItemsFrame(after, linked, rest, tail);
    forall k | 0 <= k < |before|
      ensures linked[k] == before[k]
    {
      assert mid[..|before|][k] == before[k] && after[..|mid|][k] == mid[k];
    }
    assert linked[..|before|] == before;
  }

  lemma WithinApart(a: set<int>, lo: int, hi: int, b: set<int>, lo': int, hi': int)
    requires Within(a, lo, hi) && Within(b, lo', hi') && hi <= lo'
    ensures a !! b
  {
    forall c | c in a
      ensures c !in b
    {
      assert c < hi;
    }
  }

  /** An alternative: the left sequence, then the node, then the right sequence. */
  lemma NewEither(before: seq<Node>, mid: seq<Node>, after: seq<Node>, left: int, l: Items, right: int, r: Items)
    requires NewItems(before, mid, left, l)
    requires NewItems(mid + [Node(OP_OR, left, -1, -1)], after, right, r)
    ensures |mid| < |after| && NewItems(before, after[|mid| := after[|mid|].(right := right)], |mid|, Last(Either(l, r)))
    ensures var linked := after[|mid| := after[|mid|].(right := right)];
            HoldsItems(linked, left, l) && HoldsItems(linked, right, r) && Cells(linked, left, l) !! Cells(linked, right, r)
  {
    var or := |mid|;
    var start := mid + [Node(OP_OR, left, -1, -1)];
    assert after[..|start|][or] == start[or];
    var linked := after[or := after[or].(right := right)];
    assert NodeLinksOk(after, after[or]);
    assert InRange(after, right);
    PatchKeepsLinks(after, or, after[or].(right := right));
    forall k | 0 <= k < |mid|
      ensures linked[k] == mid[k]
    {
      assert after[..|start|][k] == start[k];
    }
    ItemsFrame(mid, linked, left, l);
    ItemsFrame(after, linked, right, r);
    WithinApart(Cells(mid, left, l), |before|, |mid|, Cells(after, right, r), |start|, |after|);
    var e := Last(Either(l, r));
    assert HoldsItem(linked, or, e.head) && Below(linked, or, e.head) == Cells(mid, left, l) + Cells(after, right, r);
    assert Cells(linked, or, e) == {or} + Below(linked, or, e.head);
    assert linked[..|before|] == before by {
      forall k | 0 <= k < |before|
        ensures linked[k] == before[k]
      {
        assert mid[..|before|][k] == before[k];
      }
    }
  }

  /** A group: its node, then its body. */
  lemma NewGroup(before: seq<Node>, node: Node, after: seq<Node>, left: int, body: Items, capture: bool)
    requires node.kind == (if capture then OP_EXPR else OP_NOCAPEXPR) && node.next == -1
    requires NewItems(before + [node], after, left, body)
    ensures |before| < |after| && NewItem(before, after[|before| := after[|before|].(left := left)], |before|, Group(capture, body))
  {
    var i := |before|;
    var start := before + [node];
    assert after[..|start|][i] == start[i];
    var linked := after[i := after[i].(left := left)];
    assert NodeLinksOk(after, after[i]);
    assert InRange(after, left);
    PatchKeepsLinks(after, i, after[i].(left := left));
    ItemsFrame(after, linked, left, body);
    assert linked[..i] == before by {
      forall k | 0 <= k < i
        ensures linked[k] == before[k]
      {
        assert after[..|start|][k] == start[k];
      }
    }
  }

  // ---------------------------------------------------------------------------
  // The members of a bracket class, linked one behind the other
  // ---------------------------------------------------------------------------

  /** `link` lists the nodes from the class node `ret` through the members read so far. */
  ghost predicate Linked(g: seq<Node>, link: seq<int>, done: seq<SetItem>) {
    && |link| == |done| + 1
    && (forall k :: 0 <= k < |link| ==> InRange(g, link[k]))
    && (forall j, k :: 0 <= j < k < |link| ==> link[j] != link[k])
    && (forall k :: 0 <= k < |done| ==> g[link[k]].next == link[k + 1])
    && (forall k :: 0 <= k < |done| ==> HoldsMember(g[link[k + 1]], done[k]))
    && g[link[|done|]].next == -1
  }

  /** These nodes were all added to `before`. */
  ghost predicate Added(before: seq<Node>, link: seq<int>) {
    forall k :: 0 <= k < |link| ==> |before| <= link[k]
  }

  lemma LinkedFrame(g: seq<Node>, h: seq<Node>, link: seq<int>, done: seq<SetItem>)
    requires Linked(g, link, done) && Grew(g, h)
    ensures Linked(h, link, done)
  {}

  /** Links one more member behind the chain. */
  lemma LinkMember(g: seq<Node>, link: seq<int>, done: seq<SetItem>, c: int, m: SetItem)
    requires Linked(g, link, done) && LinksOk(g)
    requires InRange(g, c) && c !in link && g[c].next == -1 && HoldsMember(g[c], m)
    ensures var chain := link[|done|];
            var h := g[chain := g[chain].(next := c)];
            Linked(h, link + [c], done + [m]) && LinksOk(h)
  {}

  /** Node k of a finished chain. */
  ghost predicate ChainNode(g: seq<Node>, link: seq<int>, members: seq<SetItem>, k: int)
    requires |link| == |members| && 0 <= k < |link|
  {
    && InRange(g, link[k]) && HoldsMember(g[link[k]], members[k])
    && g[link[k]].next == (if k + 1 < |link| then link[k + 1] else -1)
  }

  /** A finished chain is the set of its members. */
  lemma {:induction false} ChainHoldsSet(g: seq<Node>, link: seq<int>, members: seq<SetItem>)
    requires |link| == |members| > 0
    requires forall k :: 0 <= k < |link| ==> ChainNode(g, link, members, k)
    ensures HoldsSet(g, link[0], members)
    ensures forall c :: c in SetCells(g, link[0], members) ==> c in link
    decreases |members|
  {
    assert ChainNode(g, link, members, 0);
    if |members| > 1 {
      forall k | 0 <= k < |link[1..]|
        ensures ChainNode(g, link[1..], members[1..], k)
      {
        assert ChainNode(g, link, members, k + 1);
      }
      ChainHoldsSet(g, link[1..], members[1..]);
    }
  }

  /** The class node takes the chain over from its `next` link into `left`. */
  lemma NewClass(before: seq<Node>, g: seq<Node>, chain: int, st: ClassState)
    requires ClassOk(before, g, chain, -1, st) && st.done != []
    ensures var ret := |before|;
            && InRange(g, ret)
            && NewItem(before, g[ret := g[ret].(left := g[ret].next, next := -1)], ret, Class(st.negated, st.done))
  {
    var ret, members := st.link[0], st.done;
    assert NodeLinksOk(g, g[ret]);
    var node := g[ret].(left := g[ret].next, next := -1);
    PatchKeepsLinks(g, ret, node);
    var h := g[ret := node];
    var rest := st.link[1..];
    forall k | 0 <= k < |rest|
      ensures ChainNode(h, rest, members, k)
    {
      assert rest[k] == st.link[k + 1] != ret;
      if k + 1 < |rest| {
        assert g[st.link[k + 1]].next == st.link[k + 2];
      }
    }
    ChainHoldsSet(h, rest, members);
    assert HoldsItem(h, ret, Class(st.negated, members));
  }

  // ---------------------------------------------------------------------------
  // The compiler object
  // ---------------------------------------------------------------------------

  class Compiler {
    const pattern: string
    var p: nat
    var nodes: array<Node>
    var nsize: nat
    var nsubexpr: nat

    constructor (pattern: string)
      ensures this.pattern == pattern && p == 0 && nsize == 0 && nsubexpr == 0
      ensures fresh(nodes) && nodes.Length == |pattern|
    {
      this.pattern := pattern;
      p, nsize, nsubexpr := 0, 0, 0;
      nodes := new Node[|pattern|](_ => Node(0, 0, 0, 0));
    }

    ghost predicate Valid()
      reads this, nodes
    {
      && p <= |pattern| && nsize <= nodes.Length && nodes.Length > 0
      && IsPattern(pattern) && LinksOk(Graph())
    }

    ghost function Graph(): (g: seq<Node>)
      requires nsize <= nodes.Length
      reads this, nodes
      ensures |g| == nsize
    {
      nodes[..nsize]
    }

    /** Appends a node, doubling the array if it is full. */
    method NewNode(kind: int) returns (id: nat)
      requires Valid()
      modifies this`nodes, this`nsize, this`nsubexpr, nodes
      ensures Valid() && (nodes == old(nodes) || fresh(nodes))
      ensures id == old(nsize) && nsize == id + 1
      ensures Graph() == old(Graph()) + [Fresh(kind, old(nsubexpr))]
    {
      var right: int := -1;
      ghost var g := Graph();
      ghost var sub := nsubexpr;
      if kind == OP_EXPR {
        right := nsubexpr;
        nsubexpr := nsubexpr + 1;
      }
      if nodes.Length < nsize + 1 {
        var old_, bigger := nodes, new Node[nodes.Length * 2](_ => Node(0, 0, 0, 0));
        for i := 0 to nsize
          invariant nodes == old_ && nsize == |g| && Graph() == g
          invariant bigger[..i] == g[..i]
        {
          bigger[i] := nodes[i];
        }
        nodes := bigger;
      }
      nodes[nsize] := Node(kind, -1, right, -1);
      nsize := nsize + 1;
      AppendKeepsLinks(g, Fresh(kind, sub));
      assert Graph() == g + [Fresh(kind, sub)];
      return nsize - 1;
    }

    function NodeAt(i: nat): (node: Node)
      requires i < nsize <= nodes.Length
      reads this, nodes
      ensures node == Graph()[i]
    {
      nodes[i]
    }

    /** Overwrites a node. */
    method SetNode(i: nat, node: Node)
      requires i < nsize <= nodes.Length
      modifies nodes
      ensures Graph() == old(Graph())[i := node]
    {
      nodes[i] := node;
    }

    /** Appends a node without links whose `left` field is a plain value. */
    method NewLeafNode(kind: int, left: int, ghost item: Item) returns (id: nat)
      requires Valid() && kind != OP_EXPR
      requires item.Char? || item.Dot? || item.CharClass? || item.LineStart? || item.LineEnd? || item.WordBoundary?
      requires HoldsItem([Node(kind, left, -1, -1)], 0, item)
      modifies this`nodes, this`nsize, this`nsubexpr, nodes
      ensures Valid() && (nodes == old(nodes) || fresh(nodes))
      ensures id == old(nsize) && nsize == id + 1 && NewItem(old(Graph()), Graph(), id, item)
    {
      ghost var g := Graph();
      id := NewNode(kind);
      SetNode(id, NodeAt(id).(left := left));
      assert Graph() == g + [Node(kind, left, -1, -1)];
      NewLeaf(g, Node(kind, left, -1, -1), item);
    }

    /** The character at the current position. */
    function Cur(): char
      requires p <= |pattern|
      reads this
    {
      At(pattern, p)
    }

    method TrexEscapeChar() returns (s: Status, c: char)
      requires p <= |pattern|
      modifies this`p
      ensures p <= |pattern|
      ensures match ParseEscapeChar(pattern, old(p), nsize)
        case Rejected(e) => s == Failed(e)
        case Overrun => s == OutOfBounds
        case Parsed(v, q, _) => s == Fine && c == v && p == q
    {
      c := ' ';
      if Cur() == '\\' {
        if p + 1 == |pattern| {
          return OutOfBounds, c;
        }
        p := p + 1;
        c := if ControlEscape(Cur()).Some? then ControlEscape(Cur()).value else Cur();
        p := p + 1;
        return Fine, c;
      } else if !IsPrintable(Cur()) {
        return Failed(LetterExpected), c;
      }
      c := Cur();
      p := p + 1;
      return Fine, c;
    }

    method TrexCharNode(isClass: bool) returns (s: Status, ret: nat)
      requires Valid()
      modifies this`p, this`nodes, this`nsize, this`nsubexpr, nodes
      ensures Valid() && (nodes == old(nodes) || fresh(nodes))
      ensures match ParseCharNode(pattern, old(p), old(nsize), isClass)
        case Rejected(e) => s == Failed(e)
        case Overrun => s == OutOfBounds
        case Parsed(item, q, m) =>
          && s == Fine && p == q && nsize == m && ret == old(nsize)
          && NewItem(old(Graph()), Graph(), ret, item) && Below(Graph(), ret, item) == {}
    {
      var c := Cur();
      if c == '\\' {
        if p + 1 == |pattern| {
          return OutOfBounds, 0;
        }
        p := p + 1;
        var e := Cur();
        p := p + 1;
        if ControlEscape(e).Some? {
          ret := NewLeafNode(ControlEscape(e).value as int, -1, Char(ControlEscape(e).value as int));
        } else if IsClassEscape(e) {
          ret := NewLeafNode(OP_CCLASS, e as int, CharClass(e));
        } else if !isClass && (e == 'b' || e == 'B') {
          ret := NewLeafNode(OP_WB, e as int, WordBoundary(e));
        } else {
          ret := NewLeafNode(e as int, -1, Char(e as int));
        }
        return Fine, ret;
      } else if !IsPrintable(c) {
        return Failed(LetterExpected), 0;
      }
      p := p + 1;
      ret := NewLeafNode(c as int, -1, Char(c as int));
      return Fine, ret;
    }

    method TrexParseNumber() returns (s: Status, ret: nat)
      requires p < |pattern| && IsDigit(pattern[p])
      modifies this`p
      ensures p <= |pattern|
      ensures match ParseNumber(pattern, old(p))
        case Rejected(e) => s == Failed(e)
        case Overrun => s == OutOfBounds
        case Parsed(v, q, _) => s == Fine && ret == v && p == q
    {
      ret := Digit(Cur());
      var positions := 10;
      p := p + 1;
      while IsDigit(Cur())
        invariant p <= |pattern| && positions >= 0
        invariant ParseNumber(pattern, old(p)) == ParseDigits(pattern, p, ret, positions)
        decreases |pattern| - p
      {
        var d := Digit(Cur());
        p := p + 1;
        if positions == 1000000000 {
          return Failed(NumberOverflow), 0;
        }
        ret := ret * 10 + d;
        positions := positions * 10;
      }
      return Fine, ret;
    }

    /** The optional quantifier after an element. */
    method TrexQuantifier() returns (s: Status, b: Option<Bounds>)
      requires p <= |pattern|
      modifies this`p
      ensures p <= |pattern|
      ensures match ParseQuantifier(pattern, old(p))
        case Rejected(e) => s == Failed(e)
        case Overrun => s == OutOfBounds
        case Parsed(v, q, _) => s == Fine && b == v && p == q
    {
      b := None;
      match Cur()
      case '*' => p := p + 1; return Fine, Some(Bounds(0, UNBOUNDED));
      case '+' => p := p + 1; return Fine, Some(Bounds(1, UNBOUNDED));
      case '?' => p := p + 1; return Fine, Some(Bounds(0, 1));
      case '{' =>
        p := p + 1;
        if !IsDigit(Cur()) {
          return Failed(NumberExpected), None;
        }
        var lo: nat;
        s, lo := TrexParseNumber();
        if s != Fine {
          return s, None;
        }
        if Cur() == '}' {
          p := p + 1;
          return Fine, Some(Bounds(Narrow(lo), Narrow(lo)));
        }
        if Cur() != ',' {
          return Failed(CommaOrBraceExpected), None;
        }
        p := p + 1;
        var max := UNBOUNDED;
        if IsDigit(Cur()) {
          var hi: nat;
          s, hi := TrexParseNumber();
          if s != Fine {
            return s, None;
          }
          max := Narrow(hi);
        }
        if Cur() != '}' {
          return Failed(ExpectedParen), None;
        }
        p := p + 1;
        return Fine, Some(Bounds(Narrow(lo), max));
      case _ => return Fine, None;
    }

    /** Links the member being held, if there is one. */
    method LinkHeld(chain: nat, first: int, ghost before: seq<Node>, ghost st: ClassState)
      returns (last: nat, ghost t: ClassState)
      requires Valid() && ClassOk(before, Graph(), chain, first, st)
      modifies nodes
      ensures Valid() && nsize == old(nsize)
      ensures ClassOk(before, Graph(), last, -1, t) && t == st.(link := t.link, done := Release(st.done, st.held), held := None)
      ensures t.link == if first == -1 then st.link else st.link + [first]
    {
      last, t := chain, st;
      if first != -1 {
        ghost var g := Graph();
        LinkMember(g, st.link, st.done, first, AsMember(st.held.value.item));
        SetNode(chain, NodeAt(chain).(next := first));
        assert Graph() == g[chain := g[chain].(next := first)];
        last := first;
        t := st.(link := st.link + [first], done := st.done + [AsMember(st.held.value.item)], held := None);
      }
    }

    /** Makes the node of a range, which starts with the character of node first. */
    method StartRange(first: nat) returns (s: Status, r: nat)
      requires Valid() && first < nsize && Cur() == '-'
      modifies this`p, this`nodes, this`nsize, this`nsubexpr, nodes
      ensures Valid() && (nodes == old(nodes) || fresh(nodes))
      ensures var g := old(Graph());
        if first > At(pattern, old(p) + 1) as int then s == Failed(InvalidRange)
        else if g[first].kind == OP_CCLASS then s == Failed(ClassInRange)
        else s == Fine && p == old(p) + 1 && r == |g| && Graph() == g + [Node(OP_RANGE, g[first].kind, -1, -1)]
    {
      hide LinksOk;
      ghost var g := Graph();
      p := p + 1;
      r := NewNode(OP_RANGE);
      if first > Cur() as int {
        return Failed(InvalidRange), r;
      }
      var start := nodes[first].kind;
      assert start == Graph()[first].kind == g[first].kind;
      if start == OP_CCLASS {
        return Failed(ClassInRange), r;
      }
      SetNode(r, NodeAt(r).(left := start));
      assert Graph() == g + [Node(OP_RANGE, start, -1, -1)];
      AppendKeepsLinks(g, Node(OP_RANGE, start, -1, -1));
      s := Fine;
    }

    /** A range that starts at the member being held, from its dash on. */
    method AddRange(chain: nat, first: nat, ghost before: seq<Node>, ghost st: ClassState)
      returns (s: Status, last: nat, ghost t: ClassState)
      requires Valid() && ClassOk(before, Graph(), chain, first, st) && Cur() == '-'
      modifies this`p, this`nodes, this`nsize, this`nsubexpr, nodes
      ensures Valid() && (nodes == old(nodes) || fresh(nodes))
      ensures
        if first > At(pattern, old(p) + 1) as int then s == Failed(InvalidRange)
        else if !st.held.value.item.Char? then s == Failed(ClassInRange)
        else match ParseEscapeChar(pattern, old(p) + 1, old(nsize) + 1)
          case Rejected(e) => s == Failed(e)
          case Overrun => s == OutOfBounds
          case Parsed(c, q, m) =>
            && s == Fine && p == q && nsize == m && ClassOk(before, Graph(), last, -1, t)
            && t == st.(link := t.link, done := st.done + [Range(st.held.value.item.code, c as int)], held := None)
    {
      hide ClassOk, LinksOk;
      ghost var g := Graph();
      last, t := chain, st;
      HeldKind(before, g, chain, first, st);
      var r: nat;
      s, r := StartRange(first);
      if s != Fine {
        return s, last, t;
      }
      ghost var from := st.held.value.item.code;
      var c: char;
      s, c := TrexEscapeChar();
      if s != Fine {
        return s, last, t;
      }
      SetNode(r, NodeAt(r).(right := c as int));
      ghost var m := Range(from, c as int);
      ghost var h := g + [Node(OP_RANGE, from, c as int, -1)];
      assert Graph() == h;
      RangeAppended(before, g, chain, first, st, m);
      SetNode(chain, NodeAt(chain).(next := r));
      assert Graph() == h[chain := h[chain].(next := r)];
      return Fine, r, st.(link := st.link + [r], done := st.done + [m], held := None);
    }

    /** What a failed step says about the rest of the parse. */
    static ghost predicate Ends<T>(s: Status, r: Parsed<T>) {
      match s
      case Fine => true
      case Failed(e) => r == Rejected(e)
      case OutOfBounds => r == Overrun
    }

    /** One turn of the loop over the members: a range, or a member to hold back. */
    method TrexMember(chain: nat, first: int, ghost before: seq<Node>, ghost st: ClassState)
      returns (s: Status, last: nat, held: int, ghost t: ClassState)
      requires Valid() && ClassOk(before, Graph(), chain, first, st) && Cur() != ']'
      modifies this`p, this`nodes, this`nsize, this`nsubexpr, nodes
      ensures Valid() && (nodes == old(nodes) || fresh(nodes))
      ensures Ends(s, ParseMembers(pattern, old(p), old(nsize), st.done, st.held))
      ensures s == Fine ==>
        && p > old(p) && t.negated == st.negated && ClassOk(before, Graph(), last, held, t)
        && ParseMembers(pattern, p, nsize, t.done, t.held) == ParseMembers(pattern, old(p), old(nsize), st.done, st.held)
    {
      hide NewItem, ClassOk, LinksOk;
      ClassHeld(before, Graph(), chain, first, st);
      if Cur() == '-' && first != -1 {
        s, last, t := AddRange(chain, first, before, st);
        return s, last, -1, t;
      }
      last, t := LinkHeld(chain, first, before, st);
      ghost var g := Graph();
      ghost var item := ParseCharNode(pattern, p, nsize, true);
      s, held := TrexCharNode(true);
      if s == Fine {
        ClassHolds(before, g, Graph(), last, held, item.value, t);
        t := t.(held := Some(Held(held, item.value)));
      }
    }

    /** A bracket class after its `[`, up to its `]`. */
    method TrexClass() returns (s: Status, ret: nat)
      requires Valid()
      modifies this`p, this`nodes, this`nsize, this`nsubexpr, nodes
      ensures Valid() && (nodes == old(nodes) || fresh(nodes))
      ensures var r := ParseClass(pattern, old(p), old(nsize));
              Ends(s, r) && (s == Fine ==>
                r.Parsed? && p == r.p && nsize == r.n && ret == old(nsize) && NewItem(old(Graph()), Graph(), ret, r.value))
    {
      hide NewItem, ClassOk, LinksOk, ParseMembers;
      ghost var before := Graph();
      var negated := Cur() == '^';
      ret := NewNode(if negated then OP_NCLASS else OP_CLASS);
      if negated {
        p := p + 1;
      }
      if Cur() == ']' {
        return Failed(EmptyClass), 0;
      }
      ghost var whole := ParseMembers(pattern, p, nsize, [], None);
      var chain := ret;
      var first: int := -1;
      ghost var st := ClassState(negated, [ret as int], [], None);
      ClassStart(before, Graph(), negated);
      while Cur() != ']'
        invariant Valid() && (nodes == old(nodes) || fresh(nodes))
        invariant ClassOk(before, Graph(), chain, first, st) && st.negated == negated
        invariant whole == ParseMembers(pattern, p, nsize, st.done, st.held)
        decreases |pattern| - p
      {
        s, chain, first, st := TrexMember(chain, first, before, st);
        if s != Fine {
          return s, 0;
        }
      }
      MembersEnd(pattern, p, nsize, st.done, st.held);
      chain, st := LinkHeld(chain, first, before, st);
      ghost var g := Graph();
      NewClass(before, g, chain, st);
      SetNode(ret, NodeAt(ret).(left := NodeAt(ret).next, next := -1));
      assert Graph() == g[ret := g[ret].(left := g[ret].next, next := -1)];
      ItemLinks(before, Graph(), ret, Class(negated, st.done));
      return Fine, ret;
    }

    /** A group, at its `(`. */
    method TrexGroup() returns (s: Status, ret: nat)
      requires Valid() && Cur() == '('
      modifies this`p, this`nodes, this`nsize, this`nsubexpr, nodes
      ensures Valid() && (nodes == old(nodes) || fresh(nodes))
      ensures var r := ParseGroup(pattern, old(p), old(nsize));
              Ends(s, r) && (s == Fine ==>
                r.Parsed? && p == r.p && nsize == r.n && NewItem(old(Graph()), Graph(), ret, r.value))
      decreases |pattern| - p, 0
    {
      hide NewItem, NewItems, LinksOk;
      ghost var before := Graph();
      p := p + 1;
      var capture := true;
      if Cur() == '?' {
        p := p + 1;
        if Cur() != ':' {
          return Failed(ExpectedParen), 0;
        }
        p := p + 1;
        capture := false;
      }
      ghost var node := Fresh(if capture then OP_EXPR else OP_NOCAPEXPR, nsubexpr);
      ret := NewNode(if capture then OP_EXPR else OP_NOCAPEXPR);
      var newn: nat;
      ghost var body := ParseList(pattern, p, nsize);
      s, newn := TrexList();
      if s != Fine {
        return s, 0;
      }
      ghost var after := Graph();
      NewGroup(before, node, after, newn, body.value, capture);
      SetNode(ret, NodeAt(ret).(left := newn));
      assert Graph() == after[ret := after[ret].(left := newn)];
      ItemLinks(before, Graph(), ret, Group(capture, body.value));
      if Cur() != ')' {
        return Failed(ExpectedParen), 0;
      }
      p := p + 1;
      return Fine, ret;
    }

    /** One element without its quantifier. */
    method TrexAtom() returns (s: Status, ret: nat)
      requires Valid()
      modifies this`p, this`nodes, this`nsize, this`nsubexpr, nodes
      ensures Valid() && (nodes == old(nodes) || fresh(nodes))
      ensures var r := ParseAtom(pattern, old(p), old(nsize));
              Ends(s, r) && (s == Fine ==>
                r.Parsed? && p == r.p && nsize == r.n && NewItem(old(Graph()), Graph(), ret, r.value))
      decreases |pattern| - p, 1
    {
      hide NewItem, LinksOk, ParseGroup, ParseClass;
      match Cur()
      case '(' => s, ret := TrexGroup();
      case '[' =>
        p := p + 1;
        s, ret := TrexClass();
        if s == Fine {
          assert Cur() == ']';
          p := p + 1;
        }
      case '$' =>
        p := p + 1;
        ret := NewLeafNode(OP_EOL, -1, LineEnd);
        s := Fine;
      case '.' =>
        p := p + 1;
        ret := NewLeafNode(OP_DOT, -1, Dot);
        s := Fine;
      case _ => s, ret := TrexCharNode(false);
    }

    /** One element with its quantifier. */
    method TrexItem() returns (s: Status, ret: nat)
      requires Valid()
      modifies this`p, this`nodes, this`nsize, this`nsubexpr, nodes
      ensures Valid() && (nodes == old(nodes) || fresh(nodes))
      ensures var r := ParseItem(pattern, old(p), old(nsize));
              Ends(s, r) && (s == Fine ==>
                r.Parsed? && p == r.p && nsize == r.n && NewItem(old(Graph()), Graph(), ret, r.value))
      decreases |pattern| - p, 2
    {
      hide NewItem, LinksOk, ParseAtom, ParseQuantifier;
      ghost var before := Graph();
      ghost var atom := ParseAtom(pattern, p, nsize);
      s, ret := TrexAtom();
      if s != Fine {
        return s, 0;
      }
      var b: Option<Bounds>;
      s, b := TrexQuantifier();
      if s != Fine {
        return s, 0;
      }
      if b.Some? {
        ghost var g := Graph();
        ghost var sub := nsubexpr;
        NewRepeat(before, g, ret, atom.value, b.value.min, b.value.max);
        var nnode := NewNode(OP_GREEDY);
        SetNode(nnode, NodeAt(nnode).(left := ret, right := Pack(b.value.min, b.value.max)));
        assert Graph() == g + [Node(OP_GREEDY, ret, Pack(b.value.min, b.value.max), -1)];
        ItemLinks(before, Graph(), nnode, Repeat(atom.value, b.value.min, b.value.max));
        ret := nnode;
      }
    }

    /** One element and the elements that follow it. */
    method TrexElement() returns (s: Status, ret: nat)
      requires Valid()
      modifies this`p, this`nodes, this`nsize, this`nsubexpr, nodes
      ensures Valid() && (nodes == old(nodes) || fresh(nodes))
      ensures var r := ParseElement(pattern, old(p), old(nsize));
              Ends(s, r) && (s == Fine ==>
                r.Parsed? && p == r.p && nsize == r.n && NewItems(old(Graph()), Graph(), ret, r.value))
      decreases |pattern| - p, 3
    {
      hide NewItem, NewItems, LinksOk, ParseItem;
      ghost var before := Graph();
      ghost var item := ParseItem(pattern, p, nsize);
      s, ret := TrexItem();
      if s != Fine {
        return s, 0;
      }
      ghost var mid := Graph();
      if EndsSequence(Cur()) {
        NewLast(before, mid, ret, item.value);
      } else {
        ghost var tail := ParseElement(pattern, p, nsize);
        var nnode: nat;
        s, nnode := TrexElement();
        if s != Fine {
          return s, 0;
        }
        ghost var after := Graph();
        NewMore(before, mid, after, ret, item.value, nnode, tail.value);
        SetNode(ret, NodeAt(ret).(next := nnode));
        assert Graph() == after[ret := after[ret].(next := nnode)];
        ItemsLinks(before, Graph(), ret, More(item.value, tail.value));
      }
    }

    /** One alternative: a sequence, after an optional `^`. */
    method TrexBranch() returns (s: Status, ret: nat)
      requires Valid()
      modifies this`p, this`nodes, this`nsize, this`nsubexpr, nodes
      ensures Valid() && (nodes == old(nodes) || fresh(nodes))
      ensures var r := ParseBranch(pattern, old(p), old(nsize));
              Ends(s, r) && (s == Fine ==>
                r.Parsed? && p == r.p && nsize == r.n && NewItems(old(Graph()), Graph(), ret, r.value))
      decreases |pattern| - p, 4
    {
      hide NewItem, NewItems, LinksOk, ParseElement;
      if Cur() != '^' {
        s, ret := TrexElement();
        return s, ret;
      }
      ghost var before := Graph();
      p := p + 1;
      ret := NewLeafNode(OP_BOL, -1, LineStart);
      ghost var mid := Graph();
      ghost var tail := ParseElement(pattern, p, nsize);
      var e: nat;
      s, e := TrexElement();
      if s != Fine {
        return s, 0;
      }
      ghost var after := Graph();
      NewMore(before, mid, after, ret, LineStart, e, tail.value);
      SetNode(ret, NodeAt(ret).(next := e));
      assert Graph() == after[ret := after[ret].(next := e)];
      ItemsLinks(before, Graph(), ret, More(LineStart, tail.value));
    }

    /** Alternatives separated by `|`. */
    method TrexList() returns (s: Status, ret: nat)
      requires Valid()
      modifies this`p, this`nodes, this`nsize, this`nsubexpr, nodes
      ensures Valid() && (nodes == old(nodes) || fresh(nodes))
      ensures var r := ParseList(pattern, old(p), old(nsize));
              Ends(s, r) && (s == Fine ==>
                r.Parsed? && p == r.p && nsize == r.n && NewItems(old(Graph()), Graph(), ret, r.value))
      decreases |pattern| - p, 5
    {
      hide NewItem, NewItems, LinksOk, ParseBranch;
      ghost var before := Graph();
      ghost var left := ParseBranch(pattern, p, nsize);
      s, ret := TrexBranch();
      if s != Fine {
        return s, 0;
      }
      if Cur() == '|' {
        ghost var mid := Graph();
        ghost var or := Node(OP_OR, ret, -1, -1);
        p := p + 1;
        var temp := NewNode(OP_OR);
        ItemsLinks(before, mid, ret, left.value);
        AppendKeepsLinks(mid, or) by {
          assert NodeLinksOk(mid, or);
        }
        SetNode(temp, NodeAt(temp).(left := ret));
        assert Graph() == mid + [or];
        ghost var right := ParseList(pattern, p, nsize);
        var tright: nat;
        s, tright := TrexList();
        if s != Fine {
          return s, 0;
        }
        ghost var after := Graph();
        NewEither(before, mid, after, ret, left.value, tright, right.value);
        SetNode(temp, NodeAt(temp).(right := tright));
        assert Graph() == after[temp := after[temp].(right := tright)];
        ItemsLinks(before, Graph(), temp, Last(Either(left.value, right.value)));
        ret := temp;
      }
    }

    /** Compiles the whole pattern into the group at node 0. */
    method TrexCompile() returns (s: Status)
      requires IsPattern(pattern) && p == nsize == nsubexpr == 0 && nodes.Length == |pattern|
      modifies this`p, this`nodes, this`nsize, this`nsubexpr, nodes
      ensures if |pattern| == 0 then s == OutOfBounds
              else
                var r := ParsePattern(pattern);
                && Valid() && Ends(s, r)
                && (s == Fine ==>
                      r.Parsed? && nsize == r.n && p == |pattern| && HoldsItems(Graph(), 0, Last(Group(true, r.value))))
      ensures s == OutOfBounds ==> |pattern| == 0 || LoneBackslash(pattern)
      ensures s == Fine ==> |pattern| > 0 && !LoneBackslash(pattern)
    {
      if |pattern| == 0 {
        // The array has no room, and doubling nothing leaves none: the first node would not fit.
        return OutOfBounds;
      }
      PatternEnds(pattern);
      hide NewItem, NewItems, LinksOk, ParseList, LoneBackslash;
      NoLinks(Graph());
      var first := NewNode(OP_EXPR);
      ghost var body := ParseList(pattern, p, nsize);
      var res: nat;
      s, res := TrexList();
      if s != Fine {
        return s;
      }
      ghost var after := Graph();
      NewGroup([], Fresh(OP_EXPR, 0), after, res, body.value, true);
      SetNode(first, NodeAt(first).(left := res));
      assert Graph() == after[first := after[first].(left := res)];
      ItemLinks([], Graph(), first, Group(true, body.value));
      RootHolds(Graph(), body.value);
      if Cur() != NUL {
        return Failed(UnexpectedCharacter);
      }
    }
  }

  lemma NoLinks(g: seq<Node>)
    requires g == []
    ensures LinksOk(g)
  {}

  lemma RootHolds(g: seq<Node>, body: Items)
    requires NewItem([], g, 0, Group(true, body))
    ensures HoldsItems(g, 0, Last(Group(true, body)))
  {}

  lemma ItemsLinks(before: seq<Node>, g: seq<Node>, ret: int, items: Items)
    requires NewItems(before, g, ret, items)
    ensures LinksOk(g) && Grew(before, g) && 0 <= ret < |g|
  {}

  lemma MembersEnd(pat: string, p: nat, n: nat, done: seq<SetItem>, held: Option<Held>)
    requires p <= |pat| && At(pat, p) == ']'
    ensures ParseMembers(pat, p, n, done, held) == Parsed(Release(done, held), p, n)
  {}

  lemma ItemLinks(before: seq<Node>, g: seq<Node>, ret: int, item: Item)
    requires NewItem(before, g, ret, item)
    ensures LinksOk(g) && Grew(before, g) && |before| <= ret < |g|
  {}

  /** The state of reading a class: the nodes linked so far, what they hold, and the member held back. */
  datatype ClassState = ClassState(negated: bool, link: seq<int>, done: seq<SetItem>, held: Option<Held>)

  ghost predicate ClassOk(before: seq<Node>, g: seq<Node>, chain: int, first: int, st: ClassState) {
    && Grew(before, g) && LinksOk(g) && Linked(g, st.link, st.done) && chain == st.link[|st.done|]
    && st.link[0] == |before| && Added(before, st.link)
    && g[st.link[0]].kind == (if st.negated then OP_NCLASS else OP_CLASS)
    && HeldOk(before, g, st.link, first, st.held)
  }

  /** The member being held is a node that is not linked yet. */
  ghost predicate HeldOk(before: seq<Node>, g: seq<Node>, link: seq<int>, first: int, held: Option<Held>) {
    if held.None? then first == -1
    else
      && held.value.index == first && |before| <= first && InRange(g, first) && first !in link
      && (held.value.item.Char? || held.value.item.CharClass?)
      && HoldsItem(g, first, held.value.item) && g[first].next == -1
  }

  lemma ClassStart(before: seq<Node>, g: seq<Node>, negated: bool)
    requires LinksOk(g) && g == before + [Node(if negated then OP_NCLASS else OP_CLASS, -1, -1, -1)]
    ensures ClassOk(before, g, |before|, -1, ClassState(negated, [|before|], [], None))
  {}

  lemma ClassHeld(before: seq<Node>, g: seq<Node>, chain: int, first: int, st: ClassState)
    requires ClassOk(before, g, chain, first, st)
    ensures InRange(g, chain) && -1 <= first < |g|
    ensures if first == -1 then st.held.None? else
      st.held.Some? && st.held.value.index == first && (st.held.value.item.Char? || st.held.value.item.CharClass?)
  {}

  /** A new member node is held back. */
  lemma ClassHolds(before: seq<Node>, g: seq<Node>, h: seq<Node>, chain: int, ret: nat, item: Item, st: ClassState)
    requires ClassOk(before, g, chain, -1, st) && ret == |g| && NewItem(g, h, ret, item) && (item.Char? || item.CharClass?)
    ensures ClassOk(before, h, chain, ret, st.(held := Some(Held(ret, item))))
  {
    LinkedFrame(g, h, st.link, st.done);
    forall k | 0 <= k < |g|
      ensures h[k] == g[k]
    {
      assert h[..|g|][k] == g[k];
    }
    assert h[..|before|] == before by {
      forall k | 0 <= k < |before|
        ensures h[k] == before[k]
      {
        assert g[..|before|][k] == before[k];
      }
    }
  }

  lemma HeldKind(before: seq<Node>, g: seq<Node>, chain: int, first: nat, st: ClassState)
    requires ClassOk(before, g, chain, first, st)
    ensures InRange(g, chain) && InRange(g, first) && st.held.Some?
    ensures match st.held.value.item
      case Char(c) => g[first].kind == c <= MAX_CHAR
      case _ => g[first].kind == OP_CCLASS
  {}

  lemma RangeAppended(before: seq<Node>, g: seq<Node>, chain: int, first: int, st: ClassState, m: SetItem)
    requires ClassOk(before, g, chain, first, st) && m.Range?
    ensures var h := g + [Node(OP_RANGE, m.from, m.to, -1)];
            && InRange(h, chain)
            && ClassOk(before, h[chain := h[chain].(next := |g|)], |g|, -1,
                       st.(link := st.link + [|g|], done := st.done + [m], held := None))
  {
    var node := Node(OP_RANGE, m.from, m.to, -1);
    AppendKeepsLinks(g, node);
    LinkedFrame(g, g + [node], st.link, st.done);
    LinkMember(g + [node], st.link, st.done, |g|, m);
  }
}
