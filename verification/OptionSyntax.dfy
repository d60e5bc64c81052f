/** What a command line means: a list-recursive reference parser for option words, with the
    same treatment of abbreviations, clusters and missing arguments as the embedded getopt,
    but without positions, permutation or parser state. */
module OptionSyntax {
  import opened Wrappers

  datatype HasArg = NoArgument | RequiredArgument | OptionalArgument

  datatype LongOption = LongOption(name: string, hasArg: HasArg, hasFlag: bool, val: int)

  /** What to do with a word that is not an option. */
  datatype Mode = Permute | InOrder | StopEarly

  datatype Config = Config(options: string, longs: seq<LongOption>, longOnly: bool, mode: Mode)

  /** One report to the caller: the code returned, `optarg`, the value stored in `optopt` if one
      is stored, and the index of the long option if one was recognised. */
  datatype Event = Event(ret: int, optarg: Option<string>, optopt: Option<int>, longIndex: Option<nat>)

  /** The whole command line: the reports in order, the words that belong to options (with `--`),
      and all other words. */
  datatype Parse = Parse(events: seq<Event>, optWords: seq<string>, operands: seq<string>)

  /** A leading '+' or '-' of the option letters chooses the mode and is not an option letter. */
  function Configure(options: string, longs: seq<LongOption>, longOnly: bool): Config {
    if |options| > 0 && options[0] == '+' then Config(options[1..], longs, longOnly, StopEarly)
    else if |options| > 0 && options[0] == '-' then Config(options[1..], longs, longOnly, InOrder)
    else Config(options, longs, longOnly, Permute)
  }

  /** Option letters without the `W;` extension, and long options whose code is not the
      end-of-options code. */
  ghost predicate Supported(cfg: Config) {
    && (forall i :: 0 <= i < |cfg.options| - 1 && cfg.options[i] == 'W' ==> cfg.options[i + 1] != ';')
    && (forall i :: 0 <= i < |cfg.longs| && !cfg.longs[i].hasFlag ==> cfg.longs[i].val != -1)
  }

  const UNKNOWN: int := '?' as int

  /** The code for an option whose argument is wrong: ':' if the option letters ask for it. */
  function BadArg(cfg: Config): int {
    if |cfg.options| > 0 && cfg.options[0] == ':' then ':' as int else '?' as int
  }

  // ---------------------------------------------------------------------------
  // Long options
  // ---------------------------------------------------------------------------

  function Find(s: string, c: char): (k: nat)
    ensures k <= |s|
    ensures k < |s| ==> s[k] == c
    ensures c !in s[..k]
  {
    if |s| == 0 || s[0] == c then 0
    else
      var k := Find(s[1..], c);
      assert s[..k + 1] == [s[0]] + s[1..][..k];
      k + 1
  }

  datatype Resolution = Unmatched | Ambiguous | Matched(index: nat)

  predicate Exact(longs: seq<LongOption>, name: string, i: nat)
    requires i < |longs|
  {
    longs[i].name == name
  }

  /** A longer name that starts with the one given; a single letter that may be a short option
      does not abbreviate a long one. */
  predicate Abbreviates(longs: seq<LongOption>, name: string, shortToo: bool, i: nat)
    requires i < |longs|
  {
    name < longs[i].name && !(shortToo && |name| == 1)
  }

  /** Scans the table from index i on, with the abbreviation found so far. */
  function Resolve(longs: seq<LongOption>, name: string, shortToo: bool, i: nat, found: Option<nat>): (r: Resolution)
    requires i <= |longs|
    requires found.Some? ==> found.value < i
    ensures r.Matched? ==> r.index < |longs|
    decreases |longs| - i
  {
    if i == |longs| then
      if found.Some? then Matched(found.value) else Unmatched
    else if Exact(longs, name, i) then Matched(i)
    else if Abbreviates(longs, name, shortToo, i) then
      if found.Some? then Ambiguous else Resolve(longs, name, shortToo, i + 1, Some(i))
    else Resolve(longs, name, shortToo, i + 1, found)
  }

  /** No exact match among the first n entries. */
  ghost predicate NoExact(longs: seq<LongOption>, name: string, n: nat)
    requires n <= |longs|
  {
    forall k :: 0 <= k < n ==> !Exact(longs, name, k)
  }

  /** `found` is the only abbreviated entry among the first n, or there is none. */
  ghost predicate OnlyAbbreviation(longs: seq<LongOption>, name: string, shortToo: bool, n: nat, found: Option<nat>)
    requires n <= |longs|
  {
    && (found.Some? ==> found.value < n && Abbreviates(longs, name, shortToo, found.value))
    && (forall k :: 0 <= k < n && Abbreviates(longs, name, shortToo, k) ==> found == Some(k))
  }

  /** The three outcomes of matching a name against the table, without a scan. An exact match
      wins only if fewer than two abbreviated entries come before it. */
  ghost predicate Meaning(longs: seq<LongOption>, name: string, shortToo: bool, r: Resolution) {
    match r
    case Unmatched =>
      NoExact(longs, name, |longs|) && OnlyAbbreviation(longs, name, shortToo, |longs|, None)
    case Ambiguous =>
      exists j: nat, k: nat :: j < k < |longs| && NoExact(longs, name, k)
        && Abbreviates(longs, name, shortToo, j) && Abbreviates(longs, name, shortToo, k)
    case Matched(i) =>
      && i < |longs|
      && if Exact(longs, name, i) then
           NoExact(longs, name, i) && exists found :: OnlyAbbreviation(longs, name, shortToo, i, found)
         else
           NoExact(longs, name, |longs|) && OnlyAbbreviation(longs, name, shortToo, |longs|, Some(i))
  }

  lemma {:induction false} ResolveFrom(longs: seq<LongOption>, name: string, shortToo: bool, i: nat, found: Option<nat>)
    requires i <= |longs| && NoExact(longs, name, i)
    requires OnlyAbbreviation(longs, name, shortToo, i, found)
    ensures Meaning(longs, name, shortToo, Resolve(longs, name, shortToo, i, found))
    decreases |longs| - i
  {
    if i == |longs| || Exact(longs, name, i) {
    } else if Abbreviates(longs, name, shortToo, i) {
      if found.None? {
        ResolveFrom(longs, name, shortToo, i + 1, Some(i));
      }
    } else {
      ResolveFrom(longs, name, shortToo, i + 1, found);
    }
  }

  /** The scan decides exactly as the declarative reading says. */
  lemma ResolveMeaning(longs: seq<LongOption>, name: string, shortToo: bool, r: Resolution)
    ensures Meaning(longs, name, shortToo, r) <==> r == Resolve(longs, name, shortToo, 0, None)
  {
    ResolveFrom(longs, name, shortToo, 0, None);
    var q := Resolve(longs, name, shortToo, 0, None);
    if Meaning(longs, name, shortToo, r) {
      MeaningUnique(longs, name, shortToo, q, r);
    }
  }

  lemma MeaningUnique(longs: seq<LongOption>, name: string, shortToo: bool, q: Resolution, r: Resolution)
    requires Meaning(longs, name, shortToo, q) && Meaning(longs, name, shortToo, r)
    ensures q == r
  {}

  /** Behind two longer names that start with it, an exact name is not found. */
  lemma ExactNameMissed(longs: seq<LongOption>, name: string, i: nat, j: nat, k: nat)
    requires i < j < k < |longs| && |name| > 1 && NoExact(longs, name, k) && Exact(longs, name, k)
    requires name < longs[i].name && name < longs[j].name
    ensures Resolve(longs, name, false, 0, None) == Resolve(longs, name, true, 0, None) == Ambiguous
  {
    assert Meaning(longs, name, false, Ambiguous) by {
      assert NoExact(longs, name, j) && Abbreviates(longs, name, false, i) && Abbreviates(longs, name, false, j);
    }
    assert Meaning(longs, name, true, Ambiguous) by {
      assert NoExact(longs, name, j) && Abbreviates(longs, name, true, i) && Abbreviates(longs, name, true, j);
    }
    ResolveMeaning(longs, name, false, Ambiguous);
    ResolveMeaning(longs, name, true, Ambiguous);
  }

  /** So `--a` is ambiguous in a table that lists `ab` and `ac` before `a`. */
  lemma ExactNameAmbiguous(longs: seq<LongOption>)
    requires |longs| == 3 && longs[0].name == "ab" && longs[1].name == "ac" && longs[2].name == "a"
    ensures Resolve(longs, "a", false, 0, None) == Ambiguous && Exact(longs, "a", 2)
  {}

  datatype LongResult = NotLong | Long(event: Event, used: nat)

  /** `text` is what follows the dashes; `rest` the words after it. */
  function LongEvent(cfg: Config, text: string, rest: seq<string>, shortToo: bool): (r: LongResult)
    ensures r.Long? ==> r.used <= |rest| && r.used <= 1
    ensures r.NotLong? ==> shortToo
  {
    var n := Find(text, '=');
    var name, value := text[..n], if n < |text| then Some(text[n + 1..]) else None;
    match Resolve(cfg.longs, name, shortToo, 0, None)
    case Ambiguous => Long(Event(UNKNOWN, None, Some(0), None), 0)
    case Unmatched => if shortToo then NotLong else Long(Event(UNKNOWN, None, Some(0), None), 0)
    case Matched(i) =>
      var o := cfg.longs[i];
      var reported := if o.hasFlag then 0 else o.val;
      if o.hasArg.NoArgument? && value.Some? then Long(Event(BadArg(cfg), None, Some(reported), None), 0)
      else if o.hasArg.RequiredArgument? && value.None? then
        if rest == [] then Long(Event(BadArg(cfg), None, Some(reported), None), 0)
        else Long(Event(reported, Some(rest[0]), None, Some(i)), 1)
      else Long(Event(reported, value, None, Some(i)), 0)
  }

  // ---------------------------------------------------------------------------
  // Short options
  // ---------------------------------------------------------------------------

  /** How an option letter is declared. */
  datatype Declared = Undeclared | Declared(hasArg: HasArg)

  function Lookup(options: string, c: char): Declared {
    var k := Find(options, c);
    if c == ':' || k == |options| then Undeclared
    else if k + 1 < |options| && options[k + 1] == ':' then
      Declared(if k + 2 < |options| && options[k + 2] == ':' then OptionalArgument else RequiredArgument)
    else Declared(NoArgument)
  }

  /** What one letter of an option word reports: the event, the text of the word that is left,
      and how many of the following words were used. */
  datatype Step = Step(event: Event, left: string, used: nat)

  function ShortEvent(cfg: Config, c: char, tail: string, rest: seq<string>): (r: Step)
    ensures |r.left| <= |tail| && r.used <= |rest| && (r.used > 0 ==> r.left == "")
  {
    match Lookup(cfg.options, c)
    case Undeclared => Step(Event(UNKNOWN, None, Some(c as int), None), tail, 0)
    case Declared(NoArgument) => Step(Event(c as int, None, None, None), tail, 0)
    case Declared(OptionalArgument) =>
      Step(Event(c as int, if tail == "" then None else Some(tail), None, None), "", 0)
    case Declared(RequiredArgument) =>
      if tail != "" then Step(Event(c as int, Some(tail), None, None), "", 0)
      else if rest == [] then Step(Event(BadArg(cfg), None, Some(c as int), None), "", 0)
      else Step(Event(c as int, Some(rest[0]), None, None), "", 1)
  }

  /** The first report of the option text `body`; `lone` says that it is the word "-" itself. */
  function FirstEvent(cfg: Config, body: string, rest: seq<string>, lone: bool): (r: Step)
    requires body != ""
    ensures |r.left| < |body| && r.used <= |rest| && (r.used > 0 ==> r.left == "")
  {
    var c := body[0];
    var shortToo := c != '-' && c != ':' && c in cfg.options;
    var asLong :=
      if lone || (c != '-' && !cfg.longOnly) then NotLong
      else LongEvent(cfg, if c == '-' then body[1..] else body, rest, shortToo);
    match asLong
    case Long(e, used) => Step(e, "", used)
    case NotLong => ShortEvent(cfg, c, body[1..], rest)
  }

  datatype WordParse = WordParse(events: seq<Event>, used: nat)

  /** All the reports of one option word. */
  function ParseWord(cfg: Config, body: string, rest: seq<string>, lone: bool): (r: WordParse)
    ensures r.used <= |rest|
    ensures body != "" ==> r.events != []
    decreases |body|
  {
    if body == "" then WordParse([], 0)
    else
      var s := FirstEvent(cfg, body, rest, lone);
      if s.left == "" then WordParse([s.event], s.used)
      else
        var more := ParseWord(cfg, s.left, rest, false);
        WordParse([s.event] + more.events, more.used)
  }

  // ---------------------------------------------------------------------------
  // The command line
  // ---------------------------------------------------------------------------

  predicate IsOperand(cfg: Config, w: string) {
    |w| == 0 || w[0] != '-' || (|w| == 1 && '-' !in cfg.options)
  }

  /** The text of an option word that is left to read after its first dash. */
  function Body(w: string): string
    requires |w| > 0
  {
    if |w| == 1 then w else w[1..]
  }

  const IN_ORDER: int := 1

  function Reference(cfg: Config, words: seq<string>): (p: Parse)
    decreases |words|
  {
    if words == [] then Parse([], [], [])
    else
      var w, rest := words[0], words[1..];
      if IsOperand(cfg, w) then
        match cfg.mode
        case StopEarly => Parse([], [], words)
        case InOrder =>
          var p := Reference(cfg, rest);
          Parse([Event(IN_ORDER, Some(w), None, None)] + p.events, [w] + p.optWords, p.operands)
        case Permute =>
          var p := Reference(cfg, rest);
          Parse(p.events, p.optWords, [w] + p.operands)
      else if w == "--" then Parse([], [w], rest)
      else AfterWord(cfg, Body(w), |w| == 1, words)
  }

  /** The option word words[0], of which `body` is left to read, and then the words after it. */
  function AfterWord(cfg: Config, body: string, lone: bool, words: seq<string>): (p: Parse)
    requires words != []
    decreases |words|, 0
  {
    var r := ParseWord(cfg, body, words[1..], lone);
    var p := Reference(cfg, words[1 + r.used..]);
    Parse(r.events + p.events, words[..1 + r.used] + p.optWords, p.operands)
  }

  /** `all` is made of `xs` and `ys`, each in its own order. */
  ghost predicate Interleaves<T>(xs: seq<T>, ys: seq<T>, all: seq<T>) {
    if all == [] then xs == [] && ys == []
    else
      || (xs != [] && xs[0] == all[0] && Interleaves(xs[1..], ys, all[1..]))
      || (ys != [] && ys[0] == all[0] && Interleaves(xs, ys[1..], all[1..]))
  }

  lemma {:induction false} InterleavePrefix<T>(pre: seq<T>, xs: seq<T>, ys: seq<T>, all: seq<T>)
    requires Interleaves(xs, ys, all)
    ensures Interleaves(pre + xs, ys, pre + all)
  {
    if pre == [] {
      assert pre + xs == xs && pre + all == all;
    } else {
      InterleavePrefix(pre[1..], xs, ys, all);
      assert (pre + xs)[1..] == pre[1..] + xs && (pre + all)[1..] == pre[1..] + all;
    }
  }

  lemma {:induction false} InterleaveRest<T>(ys: seq<T>)
    ensures Interleaves([], ys, ys)
  {
    if ys != [] {
      InterleaveRest(ys[1..]);
    }
  }

  /** Sorting the words into option words and operands loses, invents and reorders none. */
  lemma {:induction false} WordsKeepOrder(cfg: Config, words: seq<string>)
    ensures var p := Reference(cfg, words); Interleaves(p.optWords, p.operands, words)
    decreases |words|
  {
    if words != [] {
      var w, rest := words[0], words[1..];
      var p := Reference(cfg, words);
      if IsOperand(cfg, w) {
        InterleaveRest(words);
        WordsKeepOrder(cfg, rest);
        if cfg.mode.InOrder? {
          var q := Reference(cfg, rest);
          assert p.optWords[1..] == q.optWords;
        } else if cfg.mode.Permute? {
          var q := Reference(cfg, rest);
          assert p.operands[1..] == q.operands;
        }
      } else if w == "--" {
        InterleaveRest(rest);
      } else {
        var u := 1 + ParseWord(cfg, Body(w), rest, |w| == 1).used;
        WordsKeepOrder(cfg, words[u..]);
        var q := Reference(cfg, words[u..]);
        assert p == AfterWord(cfg, Body(w), |w| == 1, words);
        InterleavePrefix(words[..u], q.optWords, q.operands, words[u..]);
        assert words == words[..u] + words[u..];
      }
    }
  }
}
