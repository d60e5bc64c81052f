/** The regular expressions of the embedded matcher: their syntax trees, and a functional
    reference parser that reads a pattern exactly as the compiler does. */
module RegexSyntax {
  import opened Chars
  import opened Decimals
  import opened Wrappers

  /** A member of a bracket class. */
  datatype SetItem = One(code: int) | Escape(id: char) | Range(from: int, to: int)

  /** One element of a pattern. `Repeat` with max UNBOUNDED has no upper bound. */
  datatype Item =
    | Char(code: int)
    | Dot
    | CharClass(id: char)
    | Class(negated: bool, members: seq<SetItem>)
    | Group(capture: bool, body: Items)
    | Repeat(item: Item, min: nat, max: nat)
    | Either(left: Items, right: Items)
    | LineStart
    | LineEnd
    | WordBoundary(id: char)

  /** A non-empty sequence of elements. */
  datatype Items = Last(head: Item) | More(head: Item, tail: Items)

  const UNBOUNDED: nat := 0xFFFF
  const MAX_CHAR: int := 255

  // ---------------------------------------------------------------------------
  // Character classes of the "C" locale
  // ---------------------------------------------------------------------------

  predicate IsLower(c: char) { 'a' <= c <= 'z' }
  predicate IsUpper(c: char) { 'A' <= c <= 'Z' }
  predicate IsAlpha(c: char) { IsLower(c) || IsUpper(c) }
  predicate IsAlnum(c: char) { IsAlpha(c) || IsDigit(c) }
  predicate IsXDigit(c: char) { IsDigit(c) || 'a' <= c <= 'f' || 'A' <= c <= 'F' }
  predicate IsCntrl(c: char) { c as int < 32 || c as int == 127 }
  predicate IsPunct(c: char) { IsPrintable(c) && c != ' ' && !IsAlnum(c) }

  /** The class escapes: a capital letter is the complement, except for `l` and `u`. */
  predicate MatchesClassEscape(id: char, c: char) {
    match id
    case 'a' => IsAlpha(c)
    case 'A' => !IsAlpha(c)
    case 'w' => IsAlnum(c) || c == '_'
    case 'W' => !IsAlnum(c) && c != '_'
    case 's' => IsSpace(c)
    case 'S' => !IsSpace(c)
    case 'd' => IsDigit(c)
    case 'D' => !IsDigit(c)
    case 'x' => IsXDigit(c)
    case 'X' => !IsXDigit(c)
    case 'c' => IsCntrl(c)
    case 'C' => !IsCntrl(c)
    case 'p' => IsPunct(c)
    case 'P' => !IsPunct(c)
    case 'l' => IsLower(c)
    case 'u' => IsUpper(c)
    case _ => false
  }

  predicate IsClassEscape(c: char) {
    c in "aAwWsSdDxXcCpPlu"
  }

  /** The control character that an escape letter stands for. */
  function ControlEscape(c: char): Option<char> {
    match c
    case 'n' => Some(10 as char)
    case 't' => Some(9 as char)
    case 'r' => Some(13 as char)
    case 'f' => Some(12 as char)
    case 'v' => Some(11 as char)
    case _ => None
  }

  // ---------------------------------------------------------------------------
  // The reference parser. `p` is the position in the pattern; `n` counts the nodes
  // the compiler has allocated, which one of its checks looks at.
  // ---------------------------------------------------------------------------

  datatype Reason = ExpectedParen | LetterExpected | EmptyClass | InvalidRange | ClassInRange
                  | NumberOverflow | NumberExpected | CommaOrBraceExpected | UnexpectedCharacter

  /** `Overrun`: the character after the terminator would be read. */
  datatype Parsed<+T> = Parsed(value: T, p: nat, n: nat) | Rejected(reason: Reason) | Overrun

  /** The pattern is a C string: the position after its last character holds a NUL. */
  function At(pat: string, p: nat): char
    requires p <= |pat|
  {
    if p < |pat| then pat[p] else NUL
  }

  ghost predicate IsPattern(pat: string) {
    forall k :: 0 <= k < |pat| ==> 0 < pat[k] as int <= MAX_CHAR
  }

  ghost predicate Advanced<T>(pat: string, p: nat, n: nat, r: Parsed<T>) {
    r.Parsed? ==> p < r.p <= |pat| && n <= r.n
  }

  function ParseCharNode(pat: string, p: nat, n: nat, isClass: bool): (r: Parsed<Item>)
    requires p <= |pat|
    ensures Advanced(pat, p, n, r)
    ensures r.Parsed? ==> r.n == n + 1
  {
    var c := At(pat, p);
    if c == '\\' then
      if p + 1 == |pat| then Overrun
      else
        var e := pat[p + 1];
        Parsed(
          if ControlEscape(e).Some? then Char(ControlEscape(e).value as int)
          else if IsClassEscape(e) then CharClass(e)
          else if (e == 'b' || e == 'B') && !isClass then WordBoundary(e)
          else Char(e as int),
          p + 2, n + 1)
    else if !IsPrintable(c) then Rejected(LetterExpected)
    else Parsed(Char(c as int), p + 1, n + 1)
  }

  function ParseEscapeChar(pat: string, p: nat, n: nat): (r: Parsed<char>)
    requires p <= |pat|
    ensures Advanced(pat, p, n, r)
  {
    var c := At(pat, p);
    if c == '\\' then
      if p + 1 == |pat| then Overrun
      else
        var e := pat[p + 1];
        Parsed(if ControlEscape(e).Some? then ControlEscape(e).value else e, p + 2, n)
    else if !IsPrintable(c) then Rejected(LetterExpected)
    else Parsed(c, p + 1, n)
  }

  /** A class member that has been read and may still become the start of a range. */
  datatype Held = Held(index: nat, item: Item)

  function AsMember(item: Item): SetItem {
    match item
    case Char(c) => One(c)
    case CharClass(id) => Escape(id)
    case _ => One(0)
  }

  function Release(done: seq<SetItem>, held: Option<Held>): seq<SetItem> {
    if held.Some? then done + [AsMember(held.value.item)] else done
  }

  /** The members of a class up to its `]`. */
  function ParseMembers(pat: string, p: nat, n: nat, done: seq<SetItem>, held: Option<Held>): (r: Parsed<seq<SetItem>>)
    requires p <= |pat|
    ensures r.Parsed? ==> p <= r.p < |pat| && pat[r.p] == ']' && n <= r.n
    ensures r.Parsed? && (done != [] || held.Some? || At(pat, p) != ']') ==> r.value != []
    decreases |pat| - p
  {
    var c := At(pat, p);
    if c == ']' then Parsed(Release(done, held), p, n)
    else if c == '-' && held.Some? then
      if held.value.index > At(pat, p + 1) as int then Rejected(InvalidRange)
      else if !held.value.item.Char? then Rejected(ClassInRange)
      else
        match ParseEscapeChar(pat, p + 1, n + 1)
        case Rejected(e) => Rejected(e)
        case Overrun => Overrun
        case Parsed(t, p', n') => ParseMembers(pat, p', n', done + [Range(held.value.item.code, t as int)], None)
    else
      match ParseCharNode(pat, p, n, true)
      case Rejected(e) => Rejected(e)
      case Overrun => Overrun
      case Parsed(item, p', n') => ParseMembers(pat, p', n', Release(done, held), Some(Held(n, item)))
  }

  /** A bracket class after its `[`; the result stands at the `]`. */
  function ParseClass(pat: string, p: nat, n: nat): (r: Parsed<Item>)
    requires p <= |pat|
    ensures r.Parsed? ==> p <= r.p < |pat| && pat[r.p] == ']' && n <= r.n && r.value.Class? && r.value.members != []
  {
    var negated := At(pat, p) == '^';
    var q := if negated then p + 1 else p;
    if At(pat, q) == ']' then Rejected(EmptyClass)
    else
      match ParseMembers(pat, q, n + 1, [], None)
      case Rejected(e) => Rejected(e)
      case Overrun => Overrun
      case Parsed(members, p', n') => Parsed(Class(negated, members), p', n')
  }

  /** More digits of a number of which `acc` has been read; `positions` limits them to nine. */
  function ParseDigits(pat: string, p: nat, acc: nat, positions: nat): (r: Parsed<nat>)
    requires p <= |pat|
    ensures r.Parsed? ==> p <= r.p <= |pat|
    decreases |pat| - p
  {
    if !IsDigit(At(pat, p)) then Parsed(acc, p, 0)
    else if positions == 1000000000 then Rejected(NumberOverflow)
    else ParseDigits(pat, p + 1, acc * 10 + Digit(pat[p]), positions * 10)
  }

  function ParseNumber(pat: string, p: nat): (r: Parsed<nat>)
    requires p < |pat| && IsDigit(pat[p])
    ensures r.Parsed? ==> p < r.p <= |pat|
  {
    ParseDigits(pat, p + 1, Digit(pat[p]), 10)
  }

  /** Bounds are stored in sixteen bits. */
  function Narrow(x: nat): nat { x % 0x10000 }

  datatype Bounds = Bounds(min: nat, max: nat)

  /** An optional quantifier. */
  function ParseQuantifier(pat: string, p: nat): (r: Parsed<Option<Bounds>>)
    requires p <= |pat|
    ensures r.Parsed? ==> p <= r.p <= |pat| && (r.value.Some? ==> p < r.p)
    ensures r.Parsed? && r.value.Some? ==> r.value.value.min <= UNBOUNDED && r.value.value.max <= UNBOUNDED
  {
    match At(pat, p)
    case '*' => Parsed(Some(Bounds(0, UNBOUNDED)), p + 1, 0)
    case '+' => Parsed(Some(Bounds(1, UNBOUNDED)), p + 1, 0)
    case '?' => Parsed(Some(Bounds(0, 1)), p + 1, 0)
    case '{' =>
      if !IsDigit(At(pat, p + 1)) then Rejected(NumberExpected)
      else
        (match ParseNumber(pat, p + 1)
        case Rejected(e) => Rejected(e)
        case Overrun => Overrun
        case Parsed(lo, q, _) =>
          if At(pat, q) == '}' then Parsed(Some(Bounds(Narrow(lo), Narrow(lo))), q + 1, 0)
          else if At(pat, q) != ',' then Rejected(CommaOrBraceExpected)
          else if !IsDigit(At(pat, q + 1)) then
            if At(pat, q + 1) != '}' then Rejected(ExpectedParen)
            else Parsed(Some(Bounds(Narrow(lo), UNBOUNDED)), q + 2, 0)
          else
            match ParseNumber(pat, q + 1)
            case Rejected(e) => Rejected(e)
            case Overrun => Overrun
            case Parsed(hi, q', _) =>
              if At(pat, q') != '}' then Rejected(ExpectedParen)
              else Parsed(Some(Bounds(Narrow(lo), Narrow(hi))), q' + 1, 0))
    case _ => Parsed(None, p, 0)
  }

  /** A parenthesised group, at its `(`. */
  function ParseGroup(pat: string, p: nat, n: nat): (r: Parsed<Item>)
    requires p < |pat| && pat[p] == '('
    ensures Advanced(pat, p, n, r)
    decreases |pat| - p, 0
  {
    var plain := At(pat, p + 1) != '?';
    if !plain && At(pat, p + 2) != ':' then Rejected(ExpectedParen)
    else
      match ParseList(pat, if plain then p + 1 else p + 3, n + 1)
      case Rejected(e) => Rejected(e)
      case Overrun => Overrun
      case Parsed(body, q, m) =>
        if At(pat, q) != ')' then Rejected(ExpectedParen)
        else Parsed(Group(plain, body), q + 1, m)
  }

  /** One element without quantifier. */
  function ParseAtom(pat: string, p: nat, n: nat): (r: Parsed<Item>)
    requires p <= |pat|
    ensures Advanced(pat, p, n, r)
    decreases |pat| - p, 1
  {
    match At(pat, p)
    case '(' => ParseGroup(pat, p, n)
    case '[' =>
      (match ParseClass(pat, p + 1, n)
      case Rejected(e) => Rejected(e)
      case Overrun => Overrun
      case Parsed(item, q, m) => Parsed(item, q + 1, m))
    case '$' => Parsed(LineEnd, p + 1, n + 1)
    case '.' => Parsed(Dot, p + 1, n + 1)
    case _ => ParseCharNode(pat, p, n, false)
  }

  /** One element with its quantifier. */
  function ParseItem(pat: string, p: nat, n: nat): (r: Parsed<Item>)
    requires p <= |pat|
    ensures Advanced(pat, p, n, r)
    decreases |pat| - p, 2
  {
    match ParseAtom(pat, p, n)
    case Rejected(e) => Rejected(e)
    case Overrun => Overrun
    case Parsed(item, q, m) =>
      match ParseQuantifier(pat, q)
      case Rejected(e) => Rejected(e)
      case Overrun => Overrun
      case Parsed(None, q', _) => Parsed(item, q', m)
      case Parsed(Some(b), q', _) => Parsed(Repeat(item, b.min, b.max), q', m + 1)
  }

  /** What ends a sequence of elements; `?` and `{` do not. */
  predicate EndsSequence(c: char) {
    c == '|' || c == ')' || c == '*' || c == '+' || c == NUL
  }

  function ParseElement(pat: string, p: nat, n: nat): (r: Parsed<Items>)
    requires p <= |pat|
    ensures Advanced(pat, p, n, r)
    decreases |pat| - p, 3
  {
    match ParseItem(pat, p, n)
    case Rejected(e) => Rejected(e)
    case Overrun => Overrun
    case Parsed(item, q, m) =>
      if EndsSequence(At(pat, q)) then Parsed(Last(item), q, m)
      else
        match ParseElement(pat, q, m)
        case Rejected(e) => Rejected(e)
        case Overrun => Overrun
        case Parsed(tail, q', m') => Parsed(More(item, tail), q', m')
  }

  /** One alternative: a sequence, after an optional `^`. */
  function ParseBranch(pat: string, p: nat, n: nat): (r: Parsed<Items>)
    requires p <= |pat|
    ensures Advanced(pat, p, n, r)
    decreases |pat| - p, 4
  {
    if At(pat, p) == '^' then
      match ParseElement(pat, p + 1, n + 1)
      case Rejected(e) => Rejected(e)
      case Overrun => Overrun
      case Parsed(tail, q, m) => Parsed(More(LineStart, tail), q, m)
    else ParseElement(pat, p, n)
  }

  function ParseList(pat: string, p: nat, n: nat): (r: Parsed<Items>)
    requires p <= |pat|
    ensures Advanced(pat, p, n, r)
    decreases |pat| - p, 5
  {
    match ParseBranch(pat, p, n)
    case Rejected(e) => Rejected(e)
    case Overrun => Overrun
    case Parsed(left, q, m) =>
      if At(pat, q) != '|' then Parsed(left, q, m)
      else
        match ParseList(pat, q + 1, m + 1)
        case Rejected(e) => Rejected(e)
        case Overrun => Overrun
        case Parsed(right, q', m') => Parsed(Last(Either(left, right)), q', m')
  }

  /** The whole pattern, as the body of an outermost group. */
  function ParsePattern(pat: string): (r: Parsed<Items>) {
    match ParseList(pat, 0, 1)
    case Rejected(e) => Rejected(e)
    case Overrun => Overrun
    case Parsed(body, q, m) => if At(pat, q) != NUL then Rejected(UnexpectedCharacter) else Parsed(body, q, m)
  }
}
