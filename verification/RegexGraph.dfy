/** The node array a pattern is compiled to, and what it means for a part of the array to hold
    a given syntax tree. */
module RegexGraph {
  import opened RegexSyntax

  const OP_GREEDY: int := MAX_CHAR + 1
  const OP_OR: int := MAX_CHAR + 2
  const OP_EXPR: int := MAX_CHAR + 3
  const OP_NOCAPEXPR: int := MAX_CHAR + 4
  const OP_DOT: int := MAX_CHAR + 5
  const OP_CLASS: int := MAX_CHAR + 6
  const OP_CCLASS: int := MAX_CHAR + 7
  const OP_NCLASS: int := MAX_CHAR + 8
  const OP_RANGE: int := MAX_CHAR + 9
  const OP_EOL: int := MAX_CHAR + 11
  const OP_BOL: int := MAX_CHAR + 12
  const OP_WB: int := MAX_CHAR + 13

  datatype Node = Node(kind: int, left: int, right: int, next: int)

  /** A repetition's bounds, sixteen bits each, in one field. */
  function Pack(min: nat, max: nat): int { min * 0x10000 + max }
  function PackedMin(right: int): nat { (right / 0x10000) % 0x10000 }
  function PackedMax(right: int): nat { right % 0x10000 }

  lemma PackRoundTrip(min: nat, max: nat)
    requires min <= UNBOUNDED && max <= UNBOUNDED
    ensures PackedMin(Pack(min, max)) == min && PackedMax(Pack(min, max)) == max
  {}

  ghost predicate InRange(nodes: seq<Node>, i: int) {
    0 <= i < |nodes|
  }

  /** The chain of class members that starts at node i. */
  ghost predicate HoldsSet(nodes: seq<Node>, i: int, members: seq<SetItem>)
    decreases |members|
  {
    && members != [] && InRange(nodes, i)
    && HoldsMember(nodes[i], members[0])
    && if |members| == 1 then nodes[i].next == -1 else HoldsSet(nodes, nodes[i].next, members[1..])
  }

  ghost predicate HoldsMember(node: Node, m: SetItem) {
    match m
    case One(c) => node.kind == c && c <= MAX_CHAR
    case Escape(id) => node.kind == OP_CCLASS && node.left == id as int
    case Range(from, to) => node.kind == OP_RANGE && node.left == from && node.right == to
  }

  /** Node i, without regard to its `next` link, is the element `item`. */
  ghost predicate HoldsItem(nodes: seq<Node>, i: int, item: Item)
    decreases item, 0
  {
    && InRange(nodes, i)
    && var node := nodes[i];
    match item
    case Char(c) => node.kind == c && c <= MAX_CHAR
    case Dot => node.kind == OP_DOT
    case CharClass(id) => node.kind == OP_CCLASS && node.left == id as int
    case Class(negated, members) =>
      node.kind == (if negated then OP_NCLASS else OP_CLASS) && HoldsSet(nodes, node.left, members)
    case Group(capture, body) =>
      node.kind == (if capture then OP_EXPR else OP_NOCAPEXPR) && HoldsItems(nodes, node.left, body)
    case Repeat(it, min, max) =>
      && node.kind == OP_GREEDY && min <= UNBOUNDED && max <= UNBOUNDED && node.right == Pack(min, max)
      && HoldsItem(nodes, node.left, it) && nodes[node.left].next == -1
    case Either(l, r) => node.kind == OP_OR && HoldsItems(nodes, node.left, l) && HoldsItems(nodes, node.right, r)
    case LineStart => node.kind == OP_BOL
    case LineEnd => node.kind == OP_EOL
    case WordBoundary(id) => node.kind == OP_WB && node.left == id as int
  }

  /** The chain of elements that starts at node i. */
  ghost predicate HoldsItems(nodes: seq<Node>, i: int, items: Items)
    decreases items, 1
  {
    && HoldsItem(nodes, i, items.head)
    && match items
       case Last(_) => nodes[i].next == -1
       case More(_, tail) => HoldsItems(nodes, nodes[i].next, tail)
  }

  // ---------------------------------------------------------------------------
  // Footprints: which nodes a tree occupies
  // ---------------------------------------------------------------------------

  ghost function SetCells(nodes: seq<Node>, i: int, members: seq<SetItem>): set<int>
    requires HoldsSet(nodes, i, members)
    decreases |members|
  {
    if |members| == 1 then {i} else {i} + SetCells(nodes, nodes[i].next, members[1..])
  }

  /** The nodes below node i. */
  ghost function Below(nodes: seq<Node>, i: int, item: Item): set<int>
    requires HoldsItem(nodes, i, item)
    decreases item, 0
  {
    match item
    case Class(_, members) => SetCells(nodes, nodes[i].left, members)
    case Group(_, body) => Cells(nodes, nodes[i].left, body)
    case Repeat(it, _, _) => {nodes[i].left} + Below(nodes, nodes[i].left, it)
    case Either(l, r) => Cells(nodes, nodes[i].left, l) + Cells(nodes, nodes[i].right, r)
    case _ => {}
  }

  /** The nodes of the chain that starts at node i, with all nodes below them. */
  ghost function Cells(nodes: seq<Node>, i: int, items: Items): set<int>
    requires HoldsItems(nodes, i, items)
    decreases items, 1
  {
    var here := {i} + Below(nodes, i, items.head);
    match items
    case Last(_) => here
    case More(_, tail) => here + Cells(nodes, nodes[i].next, tail)
  }

  /** The arrays agree on these nodes. */
  ghost predicate Agree(nodes: seq<Node>, other: seq<Node>, cells: set<int>) {
    forall c :: c in cells && 0 <= c < |nodes| ==> c < |other| && other[c] == nodes[c]
  }

  lemma {:induction false} SetFrame(nodes: seq<Node>, other: seq<Node>, i: int, members: seq<SetItem>)
    requires HoldsSet(nodes, i, members) && Agree(nodes, other, SetCells(nodes, i, members))
    ensures HoldsSet(other, i, members) && SetCells(other, i, members) == SetCells(nodes, i, members)
    decreases |members|
  {
    if |members| > 1 {
      SetFrame(nodes, other, nodes[i].next, members[1..]);
    }
  }

  /** A tree is not disturbed by writing elsewhere; node i itself may get a new `next` link. */
  lemma {:induction false} ItemFrame(nodes: seq<Node>, other: seq<Node>, i: int, item: Item)
    requires HoldsItem(nodes, i, item) && Agree(nodes, other, Below(nodes, i, item))
    requires InRange(other, i) && other[i].(next := 0) == nodes[i].(next := 0)
    ensures HoldsItem(other, i, item) && Below(other, i, item) == Below(nodes, i, item)
    decreases item, 0
  {
    match item
    case Class(_, members) => SetFrame(nodes, other, nodes[i].left, members);
    case Group(_, body) => ItemsFrame(nodes, other, nodes[i].left, body);
    case Repeat(it, _, _) => ItemFrame(nodes, other, nodes[i].left, it);
    case Either(l, r) =>
      ItemsFrame(nodes, other, nodes[i].left, l);
      ItemsFrame(nodes, other, nodes[i].right, r);
    case _ =>
  }

  lemma {:induction false} ItemsFrame(nodes: seq<Node>, other: seq<Node>, i: int, items: Items)
    requires HoldsItems(nodes, i, items) && Agree(nodes, other, Cells(nodes, i, items))
    ensures HoldsItems(other, i, items) && Cells(other, i, items) == Cells(nodes, i, items)
    decreases items, 1
  {
    ItemFrame(nodes, other, i, items.head);
    if items.More? {
      ItemsFrame(nodes, other, nodes[i].next, items.tail);
    }
  }

  /** Every node of a tree is a node of the array. */
  ghost predicate Within(cells: set<int>, lo: int, hi: int) {
    forall c :: c in cells ==> lo <= c < hi
  }

  // ---------------------------------------------------------------------------
  // Links
  // ---------------------------------------------------------------------------

  ghost predicate LinkOk(nodes: seq<Node>, l: int) {
    l == -1 || InRange(nodes, l)
  }

  /** Every field that the matcher follows as a link is a node of the array, or -1. */
  ghost predicate LinksOk(nodes: seq<Node>) {
    forall i :: 0 <= i < |nodes| ==> NodeLinksOk(nodes, nodes[i])
  }

  ghost predicate NodeLinksOk(nodes: seq<Node>, node: Node) {
    && LinkOk(nodes, node.next)
    && (node.kind in {OP_GREEDY, OP_OR, OP_EXPR, OP_NOCAPEXPR, OP_CLASS, OP_NCLASS} ==> LinkOk(nodes, node.left))
    && (node.kind == OP_OR ==> LinkOk(nodes, node.right))
  }
}
