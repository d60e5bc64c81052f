/** Command lines as they are written: each way of writing an option or an operand, the words it takes, and what
    is reported for it. Reading such a line gives back what was written. */
module OptionLines {
  import opened OptionSyntax
  import opened Wrappers

  /** The ways to write an option, by its name or its letter, and an operand. */
  datatype Arg =
    | Name(name: string)
    | NameValue(name: string, value: string)
    | NameSpaceValue(name: string, value: string)
    | Letter(c: char)
    | LetterValue(c: char, value: string)
    | LetterSpaceValue(c: char, value: string)
    | Operand(word: string)

  function Dashed(c: char, text: string): (w: string)
    ensures |w| == 2 + |text| && w[0] == '-' && w[1] == c && w[1..] == [c] + text && w[2..] == text
  {
    "-" + [c] + text
  }

  /** The words of an argument. */
  function ArgWords(a: Arg): seq<string> {
    match a
    case Name(name) => [Dashed('-', name)]
    case NameValue(name, value) => [Dashed('-', name + "=" + value)]
    case NameSpaceValue(name, value) => [Dashed('-', name), value]
    case Letter(c) => [Dashed(c, "")]
    case LetterValue(c, value) => [Dashed(c, value)]
    case LetterSpaceValue(c, value) => [Dashed(c, ""), value]
    case Operand(word) => [word]
  }

  /** The entry of the table that the name stands for. */
  predicate Names(cfg: Config, name: string, i: nat) {
    '=' !in name && i < |cfg.longs| && Resolve(cfg.longs, name, false, 0, None) == Matched(i)
  }

  predicate Letters(cfg: Config, c: char, kind: HasArg) {
    c != '-' && !cfg.longOnly && Lookup(cfg.options, c) == Declared(kind)
  }

  /** The word does not begin with a dash, or is a dash alone and that is no option letter. */
  predicate NoDash(cfg: Config, word: string) {
    word == "" || word[0] != '-' || (word == "-" && '-' !in cfg.options)
  }

  /** The argument is written as its option demands; i is the index of the option, if it has a name. */
  predicate Proper(cfg: Config, a: Arg, i: nat) {
    match a
    case Name(name) => name != "" && Names(cfg, name, i) && !cfg.longs[i].hasArg.RequiredArgument?
    case NameValue(name, _) => Names(cfg, name, i) && !cfg.longs[i].hasArg.NoArgument?
    case NameSpaceValue(name, _) => name != "" && Names(cfg, name, i) && cfg.longs[i].hasArg.RequiredArgument?
    case Letter(c) => Letters(cfg, c, NoArgument) || Letters(cfg, c, OptionalArgument)
    case LetterValue(c, value) => value != "" && (Letters(cfg, c, RequiredArgument) || Letters(cfg, c, OptionalArgument))
    case LetterSpaceValue(c, _) => Letters(cfg, c, RequiredArgument)
    case Operand(word) => NoDash(cfg, word) && !cfg.mode.StopEarly?
  }

  /** The value that is written. */
  function Value(a: Arg): Option<string> {
    match a
    case Name(_) => None
    case Letter(_) => None
    case Operand(word) => Some(word)
    case _ => Some(a.value)
  }

  /** What is reported: the code of the option and its value, and nothing for an operand that is moved. */
  function Reports(cfg: Config, a: Arg, i: nat): seq<Event>
    requires Proper(cfg, a, i)
  {
    match a
    case Operand(word) => if cfg.mode.InOrder? then [Event(IN_ORDER, Some(word), None, None)] else []
    case Letter(c) => [Event(c as int, None, None, None)]
    case LetterValue(c, value) => [Event(c as int, Some(value), None, None)]
    case LetterSpaceValue(c, value) => [Event(c as int, Some(value), None, None)]
    case _ => [Event(if cfg.longs[i].hasFlag then 0 else cfg.longs[i].val, Value(a), None, Some(i))]
  }

  predicate Moves(cfg: Config, a: Arg) {
    a.Operand? && cfg.mode.Permute?
  }

  /** A parse with the words and reports of an argument in front. */
  function Before(cfg: Config, a: Arg, i: nat, p: Parse): Parse
    requires Proper(cfg, a, i)
  {
    if Moves(cfg, a) then p.(operands := ArgWords(a) + p.operands)
    else Parse(Reports(cfg, a, i) + p.events, ArgWords(a) + p.optWords, p.operands)
  }

  // ---------------------------------------------------------------------------
  // One argument
  // ---------------------------------------------------------------------------

  lemma {:induction false} FindEquals(name: string, rest: string)
    requires '=' !in name
    ensures Find(name + "=" + rest, '=') == |name| && Find(name, '=') == |name|
  {
    if name != "" {
      FindEquals(name[1..], rest);
      assert (name + "=" + rest)[1..] == name[1..] + "=" + rest;
    }
  }

  /** An option word whose text is read in one report. */
  lemma OneReport(cfg: Config, c: char, text: string, rest: seq<string>, event: Event, used: nat)
    requires c == '-' ==> text != ""
    requires FirstEvent(cfg, [c] + text, rest, false) == Step(event, "", used)
    ensures Reference(cfg, [Dashed(c, text)] + rest) ==
      var p := Reference(cfg, rest[used..]); Parse([event] + p.events, [Dashed(c, text)] + rest[..used] + p.optWords, p.operands)
  {
    hide FirstEvent, LongEvent, ShortEvent;
    var w := Dashed(c, text);
    var words := [w] + rest;
    assert words[1..] == rest && words[1 + used..] == rest[used..] && words[..1 + used] == [w] + rest[..used];
    assert ParseWord(cfg, [c] + text, rest, false) == WordParse([event], used);
    assert !IsOperand(cfg, w) && w != "--" && w[1..] == [c] + text;
  }

  lemma LongRead(cfg: Config, text: string, rest: seq<string>)
    requires text != ""
    ensures FirstEvent(cfg, ['-'] + text, rest, false) ==
      var r := LongEvent(cfg, text, rest, false); Step(r.event, "", r.used)
  {
    assert (['-'] + text)[1..] == text;
  }

  lemma LetterRead(cfg: Config, c: char, text: string, rest: seq<string>)
    requires c != '-' && !cfg.longOnly
    ensures FirstEvent(cfg, [c] + text, rest, false) == ShortEvent(cfg, c, text, rest)
  {
    assert ([c] + text)[1..] == text;
  }

  /** What the table says of a name, with its value or without. */
  lemma NamedEvent(cfg: Config, name: string, value: Option<string>, i: nat, rest: seq<string>)
    requires Names(cfg, name, i)
    ensures var text := if value.Some? then name + "=" + value.value else name;
      var o := cfg.longs[i];
      var code := if o.hasFlag then 0 else o.val;
      LongEvent(cfg, text, rest, false) ==
        if o.hasArg.NoArgument? && value.Some? then Long(Event(BadArg(cfg), None, Some(code), None), 0)
        else if o.hasArg.RequiredArgument? && value.None? then
          if rest == [] then Long(Event(BadArg(cfg), None, Some(code), None), 0)
          else Long(Event(code, Some(rest[0]), None, Some(i)), 1)
        else Long(Event(code, value, None, Some(i)), 0)
  {
    hide Resolve, Find;
    FindEquals(name, if value.Some? then value.value else "");
    if value.Some? {
      var text := name + "=" + value.value;
      assert text[..|name|] == name && text[|name| + 1..] == value.value;
    } else {
      assert name[..|name|] == name;
    }
  }

  lemma NameRead(cfg: Config, name: string, i: nat, rest: seq<string>)
    requires Proper(cfg, Name(name), i)
    ensures Reference(cfg, ArgWords(Name(name)) + rest) == Before(cfg, Name(name), i, Reference(cfg, rest))
  {
    hide LongEvent, FirstEvent, Reference, Resolve;
    NamedEvent(cfg, name, None, i, rest);
    LongRead(cfg, name, rest);
    OneReport(cfg, '-', name, rest, Reports(cfg, Name(name), i)[0], 0);
    assert rest[0..] == rest && rest[..0] == [];
  }

  lemma NameValueRead(cfg: Config, name: string, value: string, i: nat, rest: seq<string>)
    requires Proper(cfg, NameValue(name, value), i)
    ensures Reference(cfg, ArgWords(NameValue(name, value)) + rest) == Before(cfg, NameValue(name, value), i, Reference(cfg, rest))
  {
    hide LongEvent, FirstEvent, Reference, Resolve;
    NamedEvent(cfg, name, Some(value), i, rest);
    LongRead(cfg, name + "=" + value, rest);
    OneReport(cfg, '-', name + "=" + value, rest, Reports(cfg, NameValue(name, value), i)[0], 0);
    assert rest[0..] == rest && rest[..0] == [];
  }

  lemma NameSpaceValueRead(cfg: Config, name: string, value: string, i: nat, rest: seq<string>)
    requires Proper(cfg, NameSpaceValue(name, value), i)
    ensures Reference(cfg, ArgWords(NameSpaceValue(name, value)) + rest) ==
            Before(cfg, NameSpaceValue(name, value), i, Reference(cfg, rest))
  {
    hide LongEvent, FirstEvent, Reference, Resolve;
    var more := [value] + rest;
    NamedEvent(cfg, name, None, i, more);
    LongRead(cfg, name, more);
    OneReport(cfg, '-', name, more, Reports(cfg, NameSpaceValue(name, value), i)[0], 1);
    assert more[1..] == rest && more[..1] == [value];
    assert [Dashed('-', name)] + more == ArgWords(NameSpaceValue(name, value)) + rest;
  }

  lemma LetterEventRead(cfg: Config, c: char, text: string, kind: HasArg, rest: seq<string>)
    requires Letters(cfg, c, kind) && (text != "" ==> !kind.NoArgument?) && (text == "" ==> !kind.RequiredArgument?)
    ensures Reference(cfg, [Dashed(c, text)] + rest) ==
      var p := Reference(cfg, rest);
      Parse([Event(c as int, if text == "" then None else Some(text), None, None)] + p.events, [Dashed(c, text)] + p.optWords, p.operands)
  {
    hide Lookup, FirstEvent, Reference;
    LetterRead(cfg, c, text, rest);
    OneReport(cfg, c, text, rest, Event(c as int, if text == "" then None else Some(text), None, None), 0);
    assert rest[0..] == rest && rest[..0] == [];
  }

  lemma LetterSpaceValueRead(cfg: Config, c: char, value: string, i: nat, rest: seq<string>)
    requires Letters(cfg, c, RequiredArgument)
    ensures Reference(cfg, ArgWords(LetterSpaceValue(c, value)) + rest) ==
            Before(cfg, LetterSpaceValue(c, value), i, Reference(cfg, rest))
  {
    hide Lookup, FirstEvent, Reference;
    var more := [value] + rest;
    LetterRead(cfg, c, "", more);
    OneReport(cfg, c, "", more, Event(c as int, Some(value), None, None), 1);
    assert more[1..] == rest && more[..1] == [value];
    assert [Dashed(c, "")] + more == ArgWords(LetterSpaceValue(c, value)) + rest;
  }

  lemma OperandRead(cfg: Config, word: string, rest: seq<string>)
    requires Proper(cfg, Operand(word), 0)
    ensures Reference(cfg, [word] + rest) == Before(cfg, Operand(word), 0, Reference(cfg, rest))
  {
    assert ([word] + rest)[1..] == rest;
  }

  /** Reading an argument in front of other words gives what is reported for it, and then the parse of the
      others. */
  lemma ArgRead(cfg: Config, a: Arg, i: nat, rest: seq<string>)
    requires Proper(cfg, a, i)
    ensures Reference(cfg, ArgWords(a) + rest) == Before(cfg, a, i, Reference(cfg, rest))
  {
    hide Reference, Lookup, Resolve;
    match a
    case Operand(word) => OperandRead(cfg, word, rest);
    case Name(name) => NameRead(cfg, name, i, rest);
    case NameValue(name, value) => NameValueRead(cfg, name, value, i, rest);
    case NameSpaceValue(name, value) => NameSpaceValueRead(cfg, name, value, i, rest);
    case Letter(c) =>
      LetterEventRead(cfg, c, "", if Letters(cfg, c, NoArgument) then NoArgument else OptionalArgument, rest);
    case LetterValue(c, value) =>
      LetterEventRead(cfg, c, value, if Letters(cfg, c, RequiredArgument) then RequiredArgument else OptionalArgument, rest);
    case LetterSpaceValue(c, value) => LetterSpaceValueRead(cfg, c, value, i, rest);
  }

  // ---------------------------------------------------------------------------
  // Whole lines
  // ---------------------------------------------------------------------------

  function AllWords(args: seq<Arg>): seq<string> {
    if args == [] then [] else ArgWords(args[0]) + AllWords(args[1..])
  }

  ghost predicate AllProper(cfg: Config, args: seq<Arg>, at: seq<nat>) {
    |at| == |args| && forall k :: 0 <= k < |args| ==> Proper(cfg, args[k], at[k])
  }

  function AllReports(cfg: Config, args: seq<Arg>, at: seq<nat>): seq<Event>
    requires |at| == |args| && forall k :: 0 <= k < |args| ==> Proper(cfg, args[k], at[k])
  {
    if args == [] then [] else Reports(cfg, args[0], at[0]) + AllReports(cfg, args[1..], at[1..])
  }

  /** The words of the arguments that are moved, or that are not. */
  function SomeWords(cfg: Config, args: seq<Arg>, moved: bool): seq<string> {
    if args == [] then []
    else (if Moves(cfg, args[0]) == moved then ArgWords(args[0]) else []) + SomeWords(cfg, args[1..], moved)
  }

  /** A line of properly written arguments, with anything behind a double dash, is read as what was written, in
      order; what is behind the double dash are operands. */
  lemma LineRead(cfg: Config, args: seq<Arg>, at: seq<nat>, rest: seq<string>)
    requires AllProper(cfg, args, at)
    ensures Reference(cfg, AllWords(args) + (["--"] + rest)) ==
      Parse(AllReports(cfg, args, at), SomeWords(cfg, args, false) + ["--"], SomeWords(cfg, args, true) + rest)
    ensures Reference(cfg, AllWords(args)) ==
      Parse(AllReports(cfg, args, at), SomeWords(cfg, args, false), SomeWords(cfg, args, true))
  {
    assert Reference(cfg, ["--"] + rest) == Parse([], ["--"], rest) by {
      assert (["--"] + rest)[1..] == rest;
    }
    NothingRead(cfg);
    hide Reference;
    LineBefore(cfg, args, at, ["--"] + rest, ["--"], rest);
    LineBefore(cfg, args, at, [], [], []);
    assert AllWords(args) + [] == AllWords(args);
    assert SomeWords(cfg, args, false) + [] == SomeWords(cfg, args, false);
    assert SomeWords(cfg, args, true) + [] == SomeWords(cfg, args, true);
  }

  /** The arguments in front of words that report nothing. */
  lemma {:induction false} LineBefore(cfg: Config, args: seq<Arg>, at: seq<nat>, tail: seq<string>, x: seq<string>, y: seq<string>)
    requires AllProper(cfg, args, at) && Reference(cfg, tail) == Parse([], x, y)
    ensures Reference(cfg, AllWords(args) + tail) ==
      Parse(AllReports(cfg, args, at), SomeWords(cfg, args, false) + x, SomeWords(cfg, args, true) + y)
    decreases |args|
  {
    hide Reference, Reports, ArgWords, Proper, Moves, Before;
    if args == [] {
      assert [] + tail == tail && [] + x == x && [] + y == y;
    } else {
      var a, i, more := args[0], at[0], args[1..];
      LineBefore(cfg, more, at[1..], tail, x, y);
      ArgRead(cfg, a, i, AllWords(more) + tail);
      Joined(ArgWords(a), AllWords(more), tail);
      Gathered(cfg, args, at, x, y);
      hide SomeWords, AllReports;
    }
  }

  lemma Gathered(cfg: Config, args: seq<Arg>, at: seq<nat>, x: seq<string>, y: seq<string>)
    requires args != [] && AllProper(cfg, args, at)
    ensures var more := args[1..];
      Before(cfg, args[0], at[0], Parse(AllReports(cfg, more, at[1..]), SomeWords(cfg, more, false) + x, SomeWords(cfg, more, true) + y))
      == Parse(AllReports(cfg, args, at), SomeWords(cfg, args, false) + x, SomeWords(cfg, args, true) + y)
  {
    hide Before, Reports, ArgWords, Moves, Proper;
    var more := args[1..];
    BeforeParts(cfg, args[0], at[0], AllReports(cfg, more, at[1..]), SomeWords(cfg, more, false), SomeWords(cfg, more, true), x, y);
  }

  lemma BeforeParts(cfg: Config, a: Arg, i: nat, es: seq<Event>, o: seq<string>, m: seq<string>, x: seq<string>, y: seq<string>)
    requires Proper(cfg, a, i)
    ensures var first, moved := if Moves(cfg, a) then [] else ArgWords(a), if Moves(cfg, a) then ArgWords(a) else [];
      Before(cfg, a, i, Parse(es, o + x, m + y)) == Parse(Reports(cfg, a, i) + es, first + o + x, moved + m + y)
  {
    assert Moves(cfg, a) ==> Reports(cfg, a, i) == [];
    hide Reports, ArgWords, Proper, Moves;
    Joined(ArgWords(a), o, x);
    Joined(ArgWords(a), m, y);
    assert [] + o == o && [] + m == m && [] + es == es;
  }

  lemma Joined<T>(a: seq<T>, b: seq<T>, c: seq<T>)
    ensures a + (b + c) == a + b + c
  {}

  /** A dash alone is the option of that letter, if there is one, in every mode: a flag, or an option whose value is
      the next word. */
  lemma DashLetter(cfg: Config, value: string, rest: seq<string>)
    ensures Lookup(cfg.options, '-') == Declared(NoArgument) ==>
      var p := Reference(cfg, rest);
      Reference(cfg, ["-"] + rest) == Parse([Event('-' as int, None, None, None)] + p.events, ["-"] + p.optWords, p.operands)
    ensures Lookup(cfg.options, '-') == Declared(RequiredArgument) ==>
      var p := Reference(cfg, rest);
      Reference(cfg, ["-"] + ([value] + rest)) ==
        Parse([Event('-' as int, Some(value), None, None)] + p.events, ["-"] + ([value] + p.optWords), p.operands)
  {
    if Lookup(cfg.options, '-') == Declared(NoArgument) {
      DashRead(cfg, rest, Event('-' as int, None, None, None), 0);
      assert rest[0..] == rest && rest[..0] == [];
    }
    if Lookup(cfg.options, '-') == Declared(RequiredArgument) {
      var more := [value] + rest;
      DashRead(cfg, more, Event('-' as int, Some(value), None, None), 1);
      assert more[1..] == rest && more[..1] == [value];
    }
  }

  lemma DashRead(cfg: Config, rest: seq<string>, event: Event, used: nat)
    requires Lookup(cfg.options, '-').Declared? && FirstEvent(cfg, "-", rest, true) == Step(event, "", used)
    ensures var p := Reference(cfg, rest[used..]);
      Reference(cfg, ["-"] + rest) == Parse([event] + p.events, ["-"] + (rest[..used] + p.optWords), p.operands)
  {
    assert '-' in cfg.options;
    hide FirstEvent, Lookup;
    var words := ["-"] + rest;
    assert words[1..] == rest && words[1 + used..] == rest[used..] && words[..1 + used] == ["-"] + rest[..used];
    assert ParseWord(cfg, "-", rest, true) == WordParse([event], used);
    Joined(["-"], rest[..used], Reference(cfg, rest[used..]).optWords);
  }

  /** Without permutation of any kind the first operand ends the options. */
  lemma StopsAtOperand(cfg: Config, word: string, rest: seq<string>)
    requires cfg.mode.StopEarly? && NoDash(cfg, word)
    ensures Reference(cfg, [word] + rest) == Parse([], [], [word] + rest)
  {}

  /** A plus or a dash in front of the option letters chooses what happens to operands. */
  lemma ModesRead(letters: string, longs: seq<LongOption>, longOnly: bool)
    ensures Configure("+" + letters, longs, longOnly) == Config(letters, longs, longOnly, StopEarly)
    ensures Configure("-" + letters, longs, longOnly) == Config(letters, longs, longOnly, InOrder)
    ensures letters == "" || letters[0] !in "+-" ==> Configure(letters, longs, longOnly) == Config(letters, longs, longOnly, Permute)
  {
    assert ("+" + letters)[1..] == letters && ("-" + letters)[1..] == letters;
  }

  // ---------------------------------------------------------------------------
  // What is not written properly
  // ---------------------------------------------------------------------------

  /** The code for a wrong argument: a colon if the option letters begin with one, and else a question mark. */
  predicate IsBadArg(cfg: Config, code: int) {
    code == (if |cfg.options| > 0 && cfg.options[0] == ':' then 58 else 63)
  }

  /** A name without its value at the end of the line, and a value for a name that takes none. */
  lemma NameErrors(cfg: Config, name: string, value: string, i: nat, rest: seq<string>)
    requires Names(cfg, name, i) && name != ""
    ensures var o := cfg.longs[i];
      o.hasArg.RequiredArgument? ==>
        var p := Reference(cfg, [Dashed('-', name)]);
        |p.events| == 1 && IsBadArg(cfg, p.events[0].ret) && p.events[0].optarg == None
        && p.events[0].optopt == Some(if o.hasFlag then 0 else o.val)
    ensures var o := cfg.longs[i];
      o.hasArg.NoArgument? ==>
        var p, q := Reference(cfg, [Dashed('-', name + "=" + value)] + rest), Reference(cfg, rest);
        && |p.events| == 1 + |q.events| && IsBadArg(cfg, p.events[0].ret) && p.events[0].optarg == None
        && p.events[0].optopt == Some(if o.hasFlag then 0 else o.val)
        && p.events[1..] == q.events && p.operands == q.operands
  {
    hide LongEvent, FirstEvent, Reference, Resolve;
    var o := cfg.longs[i];
    var wrong := Event(BadArg(cfg), None, Some(if o.hasFlag then 0 else o.val), None);
    if o.hasArg.RequiredArgument? {
      NamedEvent(cfg, name, None, i, []);
      LongRead(cfg, name, []);
      OneReport(cfg, '-', name, [], wrong, 0);
      NothingRead(cfg);
      assert [Dashed('-', name)] + [] == [Dashed('-', name)];
    }
    if o.hasArg.NoArgument? {
      NamedEvent(cfg, name, Some(value), i, rest);
      LongRead(cfg, name + "=" + value, rest);
      OneReport(cfg, '-', name + "=" + value, rest, wrong, 0);
      assert rest[0..] == rest;
    }
  }

  lemma NothingRead(cfg: Config)
    ensures Reference(cfg, []) == Parse([], [], [])
  {}

  /** A name that is not in the table, or not clear, is reported with a question mark, whatever its value. */
  lemma NameUnknown(cfg: Config, name: string, value: Option<string>, rest: seq<string>)
    requires '=' !in name && name != "" && !Resolve(cfg.longs, name, false, 0, None).Matched?
    ensures var p, q := Reference(cfg, [Dashed('-', if value.Some? then name + "=" + value.value else name)] + rest), Reference(cfg, rest);
      p.events == [Event(63, None, Some(0), None)] + q.events && p.operands == q.operands
  {
    hide Resolve, Find, Reference, FirstEvent;
    var text := if value.Some? then name + "=" + value.value else name;
    FindEquals(name, if value.Some? then value.value else "");
    assert text[..|name|] == name;
    LongRead(cfg, text, rest);
    OneReport(cfg, '-', text, rest, Event(63, None, Some(0), None), 0);
    assert rest[0..] == rest;
  }

  /** A letter without its value at the end of the line. */
  lemma LetterMissing(cfg: Config, c: char)
    requires Letters(cfg, c, RequiredArgument)
    ensures var p := Reference(cfg, [Dashed(c, "")]);
      |p.events| == 1 && IsBadArg(cfg, p.events[0].ret) && p.events[0].optarg == None && p.events[0].optopt == Some(c as int)
  {
    hide Lookup, FirstEvent, Reference;
    LetterRead(cfg, c, "", []);
    OneReport(cfg, c, "", [], Event(BadArg(cfg), None, Some(c as int), None), 0);
    NothingRead(cfg);
    assert [Dashed(c, "")] + [] == [Dashed(c, "")];
  }

  /** In the mode for long options only, a name behind one dash is read as behind two, unless it begins with an
      option letter. */
  lemma OneDashName(cfg: Config, c: char, text: string, rest: seq<string>)
    requires cfg.longOnly && c != '-' && (c == ':' || c !in cfg.options)
    ensures var p, q := Reference(cfg, [Dashed(c, text)] + rest), Reference(cfg, [Dashed('-', [c] + text)] + rest);
      p.events == q.events && p.operands == q.operands
  {
    hide LongEvent, FirstEvent, Reference;
    LongRead(cfg, [c] + text, rest);
    var r := LongEvent(cfg, [c] + text, rest, false);
    OneDashRead(cfg, c, text, rest);
    OneReport(cfg, c, text, rest, r.event, r.used);
    OneReport(cfg, '-', [c] + text, rest, r.event, r.used);
  }

  lemma OneDashRead(cfg: Config, c: char, text: string, rest: seq<string>)
    requires cfg.longOnly && c != '-' && (c == ':' || c !in cfg.options)
    ensures FirstEvent(cfg, [c] + text, rest, false) ==
      var r := LongEvent(cfg, [c] + text, rest, false); Step(r.event, "", r.used)
  {}

  // ---------------------------------------------------------------------------
  // Several letters in a word
  // ---------------------------------------------------------------------------

  /** The report for a letter that takes no value, known or not. */
  function LetterReport(cfg: Config, c: char): Event {
    if Lookup(cfg.options, c).Undeclared? then Event(63, None, Some(c as int), None) else Event(c as int, None, None, None)
  }

  /** A letter that takes no value, and more text in the same word: the same reports as of two words. */
  lemma ClusterRead(cfg: Config, c: char, text: string, rest: seq<string>)
    requires c != '-' && !cfg.longOnly && (Lookup(cfg.options, c).Undeclared? || Letters(cfg, c, NoArgument))
    requires text != "" && text != "-"
    ensures var p, q := Reference(cfg, [Dashed(c, text)] + rest), Reference(cfg, ["-" + text] + rest);
      p.events == [LetterReport(cfg, c)] + q.events && p.operands == q.operands
  {
    hide Lookup, FirstEvent, Reference, LongEvent;
    LetterRead(cfg, c, text, rest);
    WordRead(cfg, [c] + text, rest);
    WordRead(cfg, text, rest);
    assert Dashed(c, text) == "-" + ([c] + text);
    var more := ParseWord(cfg, text, rest, false);
    assert ParseWord(cfg, [c] + text, rest, false) == WordParse([LetterReport(cfg, c)] + more.events, more.used);
    var p := Reference(cfg, rest[more.used..]);
    assert [LetterReport(cfg, c)] + more.events + p.events == [LetterReport(cfg, c)] + (more.events + p.events);
  }

  lemma WordRead(cfg: Config, text: string, rest: seq<string>)
    requires text != "" && text != "-"
    ensures var r := ParseWord(cfg, text, rest, false);
      var p, q := Reference(cfg, ["-" + text] + rest), Reference(cfg, rest[r.used..]);
      p.events == r.events + q.events && p.operands == q.operands
  {
    hide ParseWord;
    var w := "-" + text;
    var words := [w] + rest;
    var r := ParseWord(cfg, text, rest, false);
    assert w[1..] == text && words[1..] == rest && words[1 + r.used..] == rest[r.used..] && !IsOperand(cfg, w) && w != "--";
  }

  // ---------------------------------------------------------------------------
  // The option letters
  // ---------------------------------------------------------------------------

  datatype Declaration = Declaration(c: char, kind: HasArg)

  function Spelled(d: Declaration): string {
    match d.kind
    case NoArgument => [d.c]
    case RequiredArgument => [d.c, ':']
    case OptionalArgument => [d.c, ':', ':']
  }

  function SpelledAll(ds: seq<Declaration>): string {
    if ds == [] then "" else Spelled(ds[0]) + SpelledAll(ds[1..])
  }

  /** A letter is looked up in the option letters as it was declared, the first time; a colon in front of them
      makes no difference. */
  lemma LettersRead(ds: seq<Declaration>, c: char)
    requires c != ':' && forall k :: 0 <= k < |ds| ==> ds[k].c != ':'
    ensures Lookup(SpelledAll(ds), c) == Lookup(":" + SpelledAll(ds), c) == DeclaredFirst(ds, c)
  {
    LookupBehind(":", SpelledAll(ds), c);
    DeclarationsRead(ds, c);
  }

  lemma {:induction false} DeclarationsRead(ds: seq<Declaration>, c: char)
    requires c != ':' && forall k :: 0 <= k < |ds| ==> ds[k].c != ':'
    ensures Lookup(SpelledAll(ds), c) == DeclaredFirst(ds, c)
  {
    if ds != [] {
      hide Lookup, Spelled;
      var more := SpelledAll(ds[1..]);
      if ds[0].c == c {
        NextLetter(ds[1..]);
        LookupFirst(ds[0], more);
      } else {
        DeclarationsRead(ds[1..], c);
        SpelledWithout(ds[0], c);
        LookupBehind(Spelled(ds[0]), more, c);
      }
    }
  }

  lemma SpelledWithout(d: Declaration, c: char)
    requires c != ':' && d.c != c
    ensures c !in Spelled(d)
  {}

  lemma LookupFirst(d: Declaration, more: string)
    requires d.c != ':' && (more != "" ==> more[0] != ':')
    ensures Lookup(Spelled(d) + more, d.c) == Declared(d.kind)
  {
    var s := Spelled(d) + more;
    assert s[0] == d.c && Find(s, d.c) == 0;
    assert |s| > 1 ==> s[1] == if d.kind.NoArgument? then more[0] else ':';
  }

  function DeclaredFirst(ds: seq<Declaration>, c: char): Declared {
    if ds == [] then Undeclared else if ds[0].c == c then Declared(ds[0].kind) else DeclaredFirst(ds[1..], c)
  }

  lemma NextLetter(ds: seq<Declaration>)
    requires forall k :: 0 <= k < |ds| ==> ds[k].c != ':'
    ensures SpelledAll(ds) != "" ==> SpelledAll(ds)[0] != ':'
  {}

  lemma {:induction false} LookupBehind(t: string, s: string, c: char)
    requires c !in t
    ensures Lookup(t + s, c) == Lookup(s, c)
  {
    FindBehind(t, s, c);
    var k := Find(s, c);
    assert k + 1 < |s| ==> (t + s)[|t| + k + 1] == s[k + 1];
    assert k + 2 < |s| ==> (t + s)[|t| + k + 2] == s[k + 2];
  }

  lemma {:induction false} FindBehind(t: string, s: string, c: char)
    requires c !in t
    ensures Find(t + s, c) == |t| + Find(s, c)
  {
    if t == "" {
      assert t + s == s;
    } else {
      assert (t + s)[1..] == t[1..] + s;
      FindBehind(t[1..], s, c);
    }
  }
}
