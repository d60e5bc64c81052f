/** The embedded `getopt_long` as it runs: global scan state, one report per call, and an
    argument vector that is permuted in place while it is read. */
module Getopt {
  import opened OptionSyntax
  import opened Wrappers
  import Rotation

  /** The scan state as a value: words before `optind` have been read; those between
      `nonoptStart` and `nonoptEnd` (or `optind`) are skipped operands not yet moved back. */
  datatype Scan = Scan(argv: seq<string>, optind: int, nonoptStart: int, nonoptEnd: int, place: string, atWord: bool)

  ghost predicate Valid(cfg: Config, s: Scan) {
    && 1 <= s.optind <= |s.argv|
    && (s.nonoptStart == -1 ==> s.nonoptEnd == -1)
    && (s.nonoptStart != -1 ==> 1 <= s.nonoptStart && cfg.mode.Permute?)
    && (s.nonoptStart != -1 && s.nonoptEnd == -1 ==> s.nonoptStart < s.optind && s.place == "")
    && (s.nonoptEnd != -1 ==> s.nonoptStart < s.nonoptEnd <= s.optind)
    && (s.nonoptEnd != -1 && s.place == "" ==> s.nonoptEnd < s.optind)
    && (s.place != "" ==> s.optind < |s.argv| && (s.atWord ==> s.place == "-" && '-' in cfg.options))
  }

  /** The words read so far that belong to options, in original order. */
  ghost function OptionsRead(cfg: Config, s: Scan): seq<string>
    requires Valid(cfg, s)
  {
    if s.nonoptStart == -1 then s.argv[..s.optind]
    else if s.nonoptEnd == -1 then s.argv[..s.nonoptStart]
    else s.argv[..s.nonoptStart] + s.argv[s.nonoptEnd..s.optind]
  }

  /** The operands read so far, in original order. */
  ghost function OperandsRead(cfg: Config, s: Scan): seq<string>
    requires Valid(cfg, s)
  {
    if s.nonoptStart == -1 then []
    else if s.nonoptEnd == -1 then s.argv[s.nonoptStart..s.optind]
    else s.argv[s.nonoptStart..s.nonoptEnd]
  }

  /** What the reference parser makes of the text not yet read. */
  ghost function Pending(cfg: Config, s: Scan): Parse
    requires Valid(cfg, s)
  {
    if s.place == "" then Reference(cfg, s.argv[s.optind..])
    else AfterWord(cfg, s.place, s.atWord, s.argv[s.optind..])
  }

  /** What is still to be reported, and all option words and operands of the whole vector. */
  ghost function Outcome(cfg: Config, s: Scan): Parse
    requires Valid(cfg, s)
  {
    var p := Pending(cfg, s);
    Parse(p.events, OptionsRead(cfg, s) + p.optWords, OperandsRead(cfg, s) + p.operands)
  }

  /** The vector a finished scan leaves: option words, then operands, `optind` between them. */
  ghost predicate Finished(argv: seq<string>, optind: int, o: Parse) {
    o.events == [] && argv == o.optWords + o.operands && optind == |o.optWords|
  }

  // ---------------------------------------------------------------------------
  // Transitions of the scan
  // ---------------------------------------------------------------------------

  /** Moves the pending operands behind the option words read after them. */
  ghost function Permuted(cfg: Config, s: Scan): (t: Scan)
    requires Valid(cfg, s) && s.nonoptEnd != -1 && s.nonoptEnd < s.optind
    ensures Valid(cfg, t.(place := ""))
    ensures OptionsRead(cfg, t.(place := "")) == OptionsRead(cfg, s)
    ensures OperandsRead(cfg, t.(place := "")) == OperandsRead(cfg, s)
    ensures t.argv[t.optind..] == s.argv[s.optind..] && t.optind == s.optind
    ensures t.nonoptStart == |OptionsRead(cfg, s)| && t.nonoptEnd == -1 && t.place == s.place
  {
    var a := Rotation.Exchange(s.argv, s.nonoptStart, s.nonoptEnd, s.optind);
    var t := s.(argv := a, nonoptStart := s.optind - (s.nonoptEnd - s.nonoptStart), nonoptEnd := -1);
    var opts := s.argv[..s.nonoptStart] + s.argv[s.nonoptEnd..s.optind];
    assert a == opts + (s.argv[s.nonoptStart..s.nonoptEnd] + s.argv[s.optind..]);
    assert a[..t.nonoptStart] == opts;
    assert a[t.nonoptStart..t.optind] == s.argv[s.nonoptStart..s.nonoptEnd];
    assert a[t.optind..] == s.argv[s.optind..];
    t
  }

  lemma SplitRest(a: seq<string>, i: nat)
    requires i < |a|
    ensures a[i..] == [a[i]] + a[i + 1..] && a[i..][0] == a[i] && a[i..][1..] == a[i + 1..]
  {}

  ghost function SkipOperand(cfg: Config, s: Scan): Scan
    requires Valid(cfg, s) && s.place == ""
  {
    var t :=
      if s.nonoptStart == -1 then s.(nonoptStart := s.optind)
      else if s.nonoptEnd != -1 then Permuted(cfg, s)
      else s;
    t.(optind := s.optind + 1)
  }

  /** Reading further: the words x became option words, the words y operands, and es was reported. */
  lemma Advance(cfg: Config, s: Scan, t: Scan, es: seq<Event>, x: seq<string>, y: seq<string>)
    requires Valid(cfg, s) && Valid(cfg, t)
    requires OptionsRead(cfg, t) == OptionsRead(cfg, s) + x && OperandsRead(cfg, t) == OperandsRead(cfg, s) + y
    requires Pending(cfg, s) ==
      Parse(es + Pending(cfg, t).events, x + Pending(cfg, t).optWords, y + Pending(cfg, t).operands)
    ensures Outcome(cfg, s) == Outcome(cfg, t).(events := es + Outcome(cfg, t).events)
  {
    hide Pending, OptionsRead, OperandsRead, Valid;
    var q := Pending(cfg, t);
    assert OptionsRead(cfg, s) + x + q.optWords == OptionsRead(cfg, s) + (x + q.optWords);
    assert OperandsRead(cfg, s) + y + q.operands == OperandsRead(cfg, s) + (y + q.operands);
  }

  lemma GrowOperands(cfg: Config, m: Scan)
    requires Valid(cfg, m) && m.place == "" && m.optind < |m.argv| && cfg.mode.Permute?
    requires m.nonoptStart != -1 && m.nonoptEnd == -1
    ensures var t := m.(optind := m.optind + 1);
            && Valid(cfg, t)
            && OptionsRead(cfg, t) == OptionsRead(cfg, m)
            && OperandsRead(cfg, t) == OperandsRead(cfg, m) + [m.argv[m.optind]]
  {}

  lemma SkipOperandReads(cfg: Config, s: Scan)
    requires Valid(cfg, s) && s.place == "" && s.optind < |s.argv| && cfg.mode.Permute?
    ensures var t := SkipOperand(cfg, s);
            && Valid(cfg, t) && t.argv[t.optind..] == s.argv[s.optind + 1..] && t.place == ""
            && OptionsRead(cfg, t) == OptionsRead(cfg, s)
            && OperandsRead(cfg, t) == OperandsRead(cfg, s) + [s.argv[s.optind]]
  {
    if s.nonoptStart == -1 {
    } else if s.nonoptEnd == -1 {
      GrowOperands(cfg, s);
    } else {
      SkipOperandPermuted(cfg, s);
    }
  }

  lemma SkipOperandPermuted(cfg: Config, s: Scan)
    requires Valid(cfg, s) && s.place == "" && s.optind < |s.argv| && cfg.mode.Permute? && s.nonoptEnd != -1
    ensures var t := SkipOperand(cfg, s);
            && Valid(cfg, t) && t.argv[t.optind..] == s.argv[s.optind + 1..] && t.place == ""
            && OptionsRead(cfg, t) == OptionsRead(cfg, s)
            && OperandsRead(cfg, t) == OperandsRead(cfg, s) + [s.argv[s.optind]]
  {
    hide OptionsRead, OperandsRead, Rotation.Exchange;
    var m := Permuted(cfg, s);
    assert m.(place := "") == m;
    SplitRest(s.argv, s.optind);
    SplitRest(m.argv, m.optind);
    GrowOperands(cfg, m);
  }

  lemma SkipOperandKeeps(cfg: Config, s: Scan)
    requires Valid(cfg, s) && s.place == "" && s.optind < |s.argv|
    requires cfg.mode.Permute? && IsOperand(cfg, s.argv[s.optind])
    ensures Valid(cfg, SkipOperand(cfg, s))
    ensures Outcome(cfg, SkipOperand(cfg, s)) == Outcome(cfg, s)
  {
    SkipOperandReads(cfg, s);
    SplitRest(s.argv, s.optind);
    Advance(cfg, s, SkipOperand(cfg, s), [], [], [s.argv[s.optind]]);
  }

  lemma ReportOperandKeeps(cfg: Config, s: Scan)
    requires Valid(cfg, s) && s.place == "" && s.optind < |s.argv|
    requires cfg.mode.InOrder? && IsOperand(cfg, s.argv[s.optind])
    ensures var t := s.(optind := s.optind + 1); var o := Outcome(cfg, s);
            && Valid(cfg, t) && o.events != []
            && o.events[0] == Event(IN_ORDER, Some(s.argv[s.optind]), None, None)
            && Outcome(cfg, t) == o.(events := o.events[1..])
  {}

  /** The scan has reached an option word and is about to read its text. */
  ghost function BeginWord(cfg: Config, s: Scan): Scan
    requires Valid(cfg, s) && s.place == "" && s.optind < |s.argv| && |s.argv[s.optind]| > 0
  {
    var w := s.argv[s.optind];
    s.(nonoptEnd := if s.nonoptStart != -1 && s.nonoptEnd == -1 then s.optind else s.nonoptEnd,
       place := Body(w), atWord := |w| == 1)
  }

  lemma BeginWordKeeps(cfg: Config, s: Scan)
    requires Valid(cfg, s) && s.place == "" && s.optind < |s.argv|
    requires !IsOperand(cfg, s.argv[s.optind]) && s.argv[s.optind] != "--"
    ensures Valid(cfg, BeginWord(cfg, s)) && BeginWord(cfg, s).place != ""
    ensures Outcome(cfg, BeginWord(cfg, s)) == Outcome(cfg, s)
  {
    SplitRest(s.argv, s.optind);
    var t := BeginWord(cfg, s);
    assert OptionsRead(cfg, t) == OptionsRead(cfg, s);
    assert OperandsRead(cfg, t) == OperandsRead(cfg, s);
  }

  /** The scan after one report: more text of the same word, or past the words it used. */
  ghost function AfterEvent(s: Scan, st: Step): Scan {
    if st.left != "" then s.(place := st.left, atWord := false)
    else s.(place := "", atWord := false, optind := s.optind + 1 + st.used)
  }

  lemma AfterEventKeeps(cfg: Config, s: Scan)
    requires Valid(cfg, s) && s.place != ""
    ensures var st := FirstEvent(cfg, s.place, s.argv[s.optind + 1..], s.atWord);
            var o := Outcome(cfg, s); var t := AfterEvent(s, st);
            && Valid(cfg, t) && o.events != [] && o.events[0] == st.event
            && Outcome(cfg, t) == o.(events := o.events[1..])
  {
    hide Pending, FirstEvent, Outcome, OptionsRead, OperandsRead;
    var st := FirstEvent(cfg, s.place, s.argv[s.optind + 1..], s.atWord);
    AfterEventPending(cfg, s);
    if st.left == "" {
      WordReads(cfg, s, 1 + st.used);
      Advance(cfg, s, AfterEvent(s, st), [st.event], s.argv[s.optind..s.optind + 1 + st.used], []);
    } else {
      TextReads(cfg, s, st.left);
      Advance(cfg, s, AfterEvent(s, st), [st.event], [], []);
    }
  }

  lemma TextReads(cfg: Config, s: Scan, left: string)
    requires Valid(cfg, s) && s.place != "" && left != ""
    ensures var t := s.(place := left, atWord := false);
            && Valid(cfg, t)
            && OptionsRead(cfg, t) == OptionsRead(cfg, s) + []
            && OperandsRead(cfg, t) == OperandsRead(cfg, s) + []
  {}

  lemma WordReads(cfg: Config, s: Scan, n: nat)
    requires Valid(cfg, s) && s.place != "" && 0 < n && s.optind + n <= |s.argv|
    ensures var t := s.(place := "", atWord := false, optind := s.optind + n);
            && Valid(cfg, t)
            && OptionsRead(cfg, t) == OptionsRead(cfg, s) + s.argv[s.optind..s.optind + n]
            && OperandsRead(cfg, t) == OperandsRead(cfg, s)
  {}

  /** What the reference parser makes of the rest of a word, one report at a time. */
  lemma AfterWordStep(cfg: Config, body: string, lone: bool, words: seq<string>)
    requires words != [] && body != ""
    ensures var st := FirstEvent(cfg, body, words[1..], lone);
            if st.left == "" then
              var p := Reference(cfg, words[1 + st.used..]);
              AfterWord(cfg, body, lone, words) == Parse([st.event] + p.events, words[..1 + st.used] + p.optWords, p.operands)
            else
              var p := AfterWord(cfg, st.left, false, words);
              AfterWord(cfg, body, lone, words) == p.(events := [st.event] + p.events)
  {
    hide FirstEvent, Reference;
    var st := FirstEvent(cfg, body, words[1..], lone);
    if st.left != "" {
      var more := ParseWord(cfg, st.left, words[1..], false);
      var rest := Reference(cfg, words[1 + more.used..]);
      assert [st.event] + more.events + rest.events == [st.event] + (more.events + rest.events);
    }
  }

  lemma AfterEventPending(cfg: Config, s: Scan)
    requires Valid(cfg, s) && s.place != ""
    ensures var st := FirstEvent(cfg, s.place, s.argv[s.optind + 1..], s.atWord);
            var t := AfterEvent(s, st);
            var x := if st.left == "" then s.argv[s.optind..s.optind + 1 + st.used] else [];
            && Valid(cfg, t)
            && Pending(cfg, s) == Parse([st.event] + Pending(cfg, t).events, x + Pending(cfg, t).optWords, Pending(cfg, t).operands)
  {
    hide FirstEvent, Reference, AfterWord;
    SplitRest(s.argv, s.optind);
    var words := s.argv[s.optind..];
    var st := FirstEvent(cfg, s.place, words[1..], s.atWord);
    AfterWordStep(cfg, s.place, s.atWord, words);
    if st.left == "" {
      assert words[1 + st.used..] == s.argv[s.optind + 1 + st.used..];
      assert words[..1 + st.used] == s.argv[s.optind..s.optind + 1 + st.used];
    } else {
      assert [] + AfterWord(cfg, st.left, false, words).optWords == AfterWord(cfg, st.left, false, words).optWords;
    }
  }

  /** The vector and `optind` after the last operands have been moved back. */
  ghost function Settle(cfg: Config, s: Scan): (seq<string>, int)
    requires Valid(cfg, s) && s.place == ""
  {
    if s.nonoptEnd != -1 then (Permuted(cfg, s).argv, s.optind - (s.nonoptEnd - s.nonoptStart))
    else if s.nonoptStart != -1 then (s.argv, s.nonoptStart)
    else (s.argv, s.optind)
  }

  /** Moving back turns what has been read into its option words, then its operands. */
  lemma SettleSorts(cfg: Config, s: Scan)
    requires Valid(cfg, s) && s.place == ""
    ensures var (a, i) := Settle(cfg, s);
            && i == |OptionsRead(cfg, s)|
            && a == OptionsRead(cfg, s) + (OperandsRead(cfg, s) + s.argv[s.optind..])
  {}

  lemma EndFinishes(cfg: Config, s: Scan)
    requires Valid(cfg, s) && s.place == "" && s.optind == |s.argv|
    ensures Finished(Settle(cfg, s).0, Settle(cfg, s).1, Outcome(cfg, s))
  {
    SettleSorts(cfg, s);
    hide Settle, OptionsRead, OperandsRead;
    assert s.argv[s.optind..] == [] && Reference(cfg, []) == Parse([], [], []);
    Unchanged(OptionsRead(cfg, s), OperandsRead(cfg, s));
  }

  lemma Unchanged<T>(a: seq<T>, b: seq<T>)
    ensures a + [] == a && b + [] == b
  {}

  /** The word `--` ends the options: it is read as an option word, and then everything settles. */
  ghost function PassDashes(cfg: Config, s: Scan): Scan
    requires Valid(cfg, s) && s.place == "" && s.optind < |s.argv|
  {
    s.(nonoptEnd := if s.nonoptStart != -1 && s.nonoptEnd == -1 then s.optind else s.nonoptEnd,
       optind := s.optind + 1)
  }

  lemma DashesFinish(cfg: Config, s: Scan)
    requires Valid(cfg, s) && s.place == "" && s.optind < |s.argv| && s.argv[s.optind] == "--"
    ensures Valid(cfg, PassDashes(cfg, s))
    ensures var (a, i) := Settle(cfg, PassDashes(cfg, s)); Finished(a, i, Outcome(cfg, s))
  {
    DashesRead(cfg, s);
    SplitRest(s.argv, s.optind);
    var t := PassDashes(cfg, s);
    SettleSorts(cfg, t);
    assert Reference(cfg, s.argv[s.optind..]) == Parse([], ["--"], t.argv[t.optind..]);
  }

  lemma DashesRead(cfg: Config, s: Scan)
    requires Valid(cfg, s) && s.place == "" && s.optind < |s.argv| && s.argv[s.optind] == "--"
    ensures var t := PassDashes(cfg, s);
            && Valid(cfg, t)
            && OptionsRead(cfg, t) == OptionsRead(cfg, s) + ["--"]
            && OperandsRead(cfg, t) == OperandsRead(cfg, s)
  {}

  lemma StopFinishes(cfg: Config, s: Scan)
    requires Valid(cfg, s) && s.place == "" && s.optind < |s.argv|
    requires cfg.mode.StopEarly? && IsOperand(cfg, s.argv[s.optind])
    ensures Finished(s.argv, s.optind, Outcome(cfg, s))
  {}

  // ---------------------------------------------------------------------------
  // The parser object
  // ---------------------------------------------------------------------------

  class Parser {
    const argv: array<string>
    var optind: int
    var optopt: int
    var optreset: bool
    var optarg: Option<string>
    var longIndex: Option<nat>
    var nonoptStart: int
    var nonoptEnd: int
    var place: string
    var atWord: bool

    constructor (argv: array<string>)
      ensures this.argv == argv && optind == 1 && !optreset && place == ""
      ensures nonoptStart == -1 && nonoptEnd == -1
    {
      this.argv := argv;
      optind, optopt, optreset, optarg, longIndex := 1, '?' as int, false, None, None;
      nonoptStart, nonoptEnd := -1, -1;
      place, atWord := "", false;
    }

    /** The state the next call starts from: a reset forgets all but `optind`. */
    ghost function State(): Scan
      reads this, argv
    {
      if optind == 0 || optreset then Scan(argv[..], if optind == 0 then 1 else optind, -1, -1, "", false)
      else Scan(argv[..], optind, nonoptStart, nonoptEnd, place, place != "" && atWord)
    }

    ghost predicate Settled()
      reads this
    {
      optind >= 1 && !optreset && place == "" && nonoptStart == nonoptEnd == -1
    }

    /** The state between calls, when no reset is wanted. */
    ghost predicate Running(cfg: Config)
      reads this, argv
    {
      optind >= 1 && !optreset && Valid(cfg, State())
    }

    /** The call has put event e into `optarg`, `optopt` and the long option index. */
    twostate predicate Reported(e: Event)
      reads this
    {
      && optarg == e.optarg && longIndex == e.longIndex
      && optopt == if e.optopt.Some? then e.optopt.value else old(optopt)
    }

    /** Reads one long option from `place`; returns -1 if it may be a short option after all. */
    method ParseLongOptions(cfg: Config, shortToo: bool) returns (c: int)
      requires Supported(cfg)
      requires 0 <= optind < argv.Length && optarg == None && longIndex == None
      modifies this`optind, this`optarg, this`optopt, this`longIndex
      ensures match LongEvent(cfg, place, argv[old(optind) + 1..], shortToo)
        case NotLong => c == -1 && optind == old(optind) && optarg == None && longIndex == None && optopt == old(optopt)
        case Long(e, used) =>
          && c == e.ret != -1 && Reported(e)
          && optind == old(optind) + 1 + used
    {
      hide Find;
      var longs := cfg.longs;
      var currentArgv := place;
      var match_ := -1;
      optind := optind + 1;

      var n := Find(currentArgv, '=');
      var hasEqual := n < |currentArgv|;
      var name := currentArgv[..n];

      var i := 0;
      while i < |longs|
        invariant 0 <= i <= |longs| && -1 <= match_ < i
        invariant Resolve(longs, name, shortToo, 0, None) ==
                  Resolve(longs, name, shortToo, i, if match_ == -1 then None else Some(match_))
      {
        if !(name <= longs[i].name) {
          i := i + 1;
          continue;
        }
        if |longs[i].name| == |name| {
          match_ := i;
          break;
        }
        if shortToo && |name| == 1 {
          i := i + 1;
          continue;
        }
        if match_ == -1 {
          match_ := i;
        } else {
          optopt := 0;
          return UNKNOWN;
        }
        i := i + 1;
      }

      assert Resolve(longs, name, shortToo, 0, None) == if match_ == -1 then Unmatched else Matched(match_);
      if match_ != -1 {
        var o := longs[match_];
        if o.hasArg.NoArgument? && hasEqual {
          optopt := if o.hasFlag then 0 else o.val;
          return BadArg(cfg);
        }
        if o.hasArg.RequiredArgument? || o.hasArg.OptionalArgument? {
          if hasEqual {
            optarg := Some(currentArgv[n + 1..]);
          } else if o.hasArg.RequiredArgument? {
            optarg := if optind < argv.Length then Some(argv[optind]) else None;
            optind := optind + 1;
          }
        }
        if o.hasArg.RequiredArgument? && optarg == None {
          optopt := if o.hasFlag then 0 else o.val;
          optind := optind - 1;
          return BadArg(cfg);
        }
        longIndex := Some(match_);
        ghost var rest := argv[old(optind) + 1..];
        assert rest != [] ==> rest[0] == argv[old(optind) + 1];
        return if o.hasFlag then 0 else o.val;
      } else {
        if shortToo {
          optind := optind - 1;
          return -1;
        }
        optopt := 0;
        return UNKNOWN;
      }
    }

    /** No word is left: the pending operands are moved back, or are already behind. */
    method EndOfVector(cfg: Config)
      requires Running(cfg) && place == "" && optind == argv.Length
      modifies this`optind, this`nonoptStart, this`nonoptEnd, argv
      ensures Settled() && Finished(argv[..], optind, old(Outcome(cfg, State())))
    {
      hide Outcome, OptionsRead, OperandsRead, Pending, Rotation.Exchange, Finished;
      EndFinishes(cfg, State());
      if nonoptEnd != -1 {
        Rotation.PermuteArgs(nonoptStart, nonoptEnd, optind, argv);
        optind := optind - (nonoptEnd - nonoptStart);
      } else if nonoptStart != -1 {
        optind := nonoptStart;
      }
      nonoptStart, nonoptEnd := -1, -1;
    }

    /** The word `--` ends the options; operands skipped before it have to move behind it. */
    method EndOfOptions(cfg: Config)
      requires Running(cfg) && place == "" && optind < argv.Length && argv[optind] == "--"
      modifies this`optind, this`nonoptStart, this`nonoptEnd, argv
      ensures Settled() && Finished(argv[..], optind, old(Outcome(cfg, State())))
    {
      hide Outcome, OptionsRead, OperandsRead, Pending, Rotation.Exchange, Finished;
      DashesFinish(cfg, State());
      if nonoptStart != -1 && nonoptEnd == -1 {
        nonoptEnd := optind;
      }
      optind := optind + 1;
      if nonoptEnd != -1 {
        Rotation.PermuteArgs(nonoptStart, nonoptEnd, optind, argv);
        optind := optind - (nonoptEnd - nonoptStart);
      }
      nonoptStart, nonoptEnd := -1, -1;
    }

    /** Skips an operand, first moving earlier ones behind the options read since. */
    method SkipWord(cfg: Config)
      requires Running(cfg) && place == "" && optind < argv.Length
      requires cfg.mode.Permute? && IsOperand(cfg, argv[optind])
      modifies this`optind, this`nonoptStart, this`nonoptEnd, argv
      ensures Running(cfg) && optind == old(optind) + 1
      ensures Outcome(cfg, State()) == old(Outcome(cfg, State()))
    {
      hide Outcome, OptionsRead, OperandsRead, Pending, Rotation.Exchange;
      ghost var s := State();
      SkipOperandKeeps(cfg, s);
      if nonoptStart == -1 {
        nonoptStart := optind;
      } else if nonoptEnd != -1 {
        Rotation.PermuteArgs(nonoptStart, nonoptEnd, optind, argv);
        nonoptStart := optind - (nonoptEnd - nonoptStart);
        nonoptEnd := -1;
      }
      optind := optind + 1;
      assert State() == SkipOperand(cfg, s);
    }

    /** Moves to the next word: skips or reports operands, and stops at the end, at `--` or at
        an option word, whose text is then in `place`. */
    method UpdatePlace(cfg: Config) returns (r: Option<int>)
      requires Running(cfg) && place == "" && optarg == None && longIndex == None
      modifies this, argv
      ensures optind >= 1 && !optreset && longIndex == None && optopt == old(optopt)
      ensures match r
        case None => Running(cfg) && place != "" && optarg == None && Outcome(cfg, State()) == old(Outcome(cfg, State()))
        case Some(c) =>
          var o := old(Outcome(cfg, State()));
          if c == -1 then Settled() && Finished(argv[..], optind, o)
          else
            && o.events != [] && c == o.events[0].ret && Reported(o.events[0])
            && Running(cfg) && Outcome(cfg, State()) == o.(events := o.events[1..])
    {
      hide Outcome, Finished;
      ghost var o := Outcome(cfg, State());
      while true
        invariant Running(cfg) && place == "" && optarg == None && longIndex == None && optopt == old(optopt)
        invariant Outcome(cfg, State()) == o
        decreases argv.Length - optind
      {
        ghost var s := State();
        if optind >= argv.Length {
          EndOfVector(cfg);
          return Some(-1);
        }
        var w := argv[optind];
        if IsOperand(cfg, w) {
          if cfg.mode.InOrder? {
            ReportOperandKeeps(cfg, s);
            optarg := Some(w);
            optind := optind + 1;
            return Some(IN_ORDER);
          }
          if !cfg.mode.Permute? {
            StopFinishes(cfg, s);
            return Some(-1);
          }
          SkipWord(cfg);
          continue;
        }
        if |w| == 2 && w[1] == '-' {
          EndOfOptions(cfg);
          return Some(-1);
        }
        BeginWordKeeps(cfg, s);
        if nonoptStart != -1 && nonoptEnd == -1 {
          nonoptEnd := optind;
        }
        place, atWord := Body(w), |w| == 1;
        return None;
      }
    }

    /** Reads the option letter at `place`. */
    method ReadLetter(cfg: Config) returns (c: int)
      requires 0 <= optind < argv.Length && place != "" && optarg == None && longIndex == None
      requires place[0] == '-' ==> place == "-" && '-' in cfg.options
      modifies this`place, this`optind, this`optarg, this`optopt, this`atWord
      ensures var st := ShortEvent(cfg, old(place)[0], old(place)[1..], argv[old(optind) + 1..]);
              && c == st.event.ret != -1 && Reported(st.event) && place == st.left
              && (place == "" ==> optind == old(optind) + 1 + st.used)
              && (place != "" ==> optind == old(optind) && !atWord)
    {
      hide Find;
      ghost var rest := argv[optind + 1..];
      assert rest != [] ==> rest[0] == argv[optind + 1];
      var optchar := place[0];
      place, atWord := place[1..], false;
      var oli := Find(cfg.options, optchar);
      if optchar == ':' || (optchar == '-' && place != "") || oli == |cfg.options| {
        if place == "" {
          optind := optind + 1;
        }
        optopt := optchar as int;
        return UNKNOWN;
      }
      oli := oli + 1;
      if oli == |cfg.options| || cfg.options[oli] != ':' {
        if place == "" {
          optind := optind + 1;
        }
      } else {
        optarg := None;
        if place != "" {
          optarg := Some(place);
        } else if oli + 1 == |cfg.options| || cfg.options[oli + 1] != ':' {
          optind := optind + 1;
          if optind >= argv.Length {
            place := "";
            optopt := optchar as int;
            return BadArg(cfg);
          }
          optarg := Some(argv[optind]);
        }
        place := "";
        optind := optind + 1;
      }
      return optchar as int;
    }

    /** Reads the next option from the text in `place`. */
    method ReadOption(cfg: Config) returns (c: int)
      requires Supported(cfg) && Running(cfg) && place != "" && optarg == None && longIndex == None
      modifies this`place, this`optind, this`optarg, this`optopt, this`atWord, this`longIndex
      ensures var st := FirstEvent(cfg, old(place), argv[old(optind) + 1..], old(atWord));
              && c == st.event.ret != -1 && Reported(st.event)
              && !optreset && optind >= 1 && State() == AfterEvent(old(State()), st)
    {
      hide LongEvent, ShortEvent;
      ghost var text := place;
      if !atWord && (place[0] == '-' || cfg.longOnly) {
        var shortToo := false;
        if place[0] == '-' {
          place := place[1..];
        } else if place[0] != ':' && place[0] in cfg.options {
          shortToo := true;
        }
        var optchar := ParseLongOptions(cfg, shortToo);
        if optchar != -1 {
          place := "";
          return optchar;
        }
      }
      c := ReadLetter(cfg);
    }

    /** The start of a call: `optind` zero or `optreset` forgets the scan in progress. */
    method Prepare(cfg: Config)
      requires optind >= 0 && Valid(cfg, State())
      modifies this`optind, this`optreset, this`optarg, this`longIndex, this`nonoptStart, this`nonoptEnd, this`place, this`atWord
      ensures State() == old(State()) && Running(cfg) && optarg == None && longIndex == None
    {
      if optind == 0 {
        optind, optreset := 1, true;
      }
      optarg, longIndex := None, None;
      if optreset {
        nonoptStart, nonoptEnd := -1, -1;
      }
      if optreset || place == "" {
        optreset := false;
        place, atWord := "", false;
      }
    }

    /** One call of `getopt_long` or, with `longOnly`, of `getopt_long_only`: it returns the next
        event of the reference parser, or -1 with the vector sorted and `optind` at the first
        operand. */
    method GetoptInternal(options: string, longs: seq<LongOption>, longOnly: bool) returns (c: int)
      requires Supported(Configure(options, longs, longOnly))
      requires optind >= 0 && Valid(Configure(options, longs, longOnly), State())
      modifies this, argv
      ensures var cfg := Configure(options, longs, longOnly); var o := old(Outcome(cfg, State()));
              if o.events == [] then c == -1 && Settled() && Finished(argv[..], optind, o)
              else
                && c == o.events[0].ret != -1 && Reported(o.events[0])
                && Running(cfg) && Outcome(cfg, State()) == o.(events := o.events[1..])
    {
      hide FirstEvent, Outcome, Valid, Configure, Supported, AfterEvent;
      var cfg := Configure(options, longs, longOnly);
      Prepare(cfg);
      if place == "" {
        var r := UpdatePlace(cfg);
        if r.Some? {
          return r.value;
        }
      }
      AfterEventKeeps(cfg, State());
      c := ReadOption(cfg);
    }

    /** The loop of `arg_parse_tagged`: resets the parser, whatever state an earlier parse left
        behind, and calls `getopt_long` until it returns -1. */
    method ReadAll(options: string, longs: seq<LongOption>, longOnly: bool) returns (reports: seq<Report>)
      requires Supported(Configure(options, longs, longOnly)) && argv.Length > 0
      modifies this, argv
      ensures var p := Reference(Configure(options, longs, longOnly), old(argv[1..]));
              && Agree(reports, p.events)
              && argv[..] == [old(argv[0])] + p.optWords + p.operands
              && optind == 1 + |p.optWords|
    {
      hide Reference, Configure, Supported;
      ghost var cfg := Configure(options, longs, longOnly);
      ghost var p := Reference(cfg, argv[1..]);
      ghost var o := Parse(p.events, [argv[0]] + p.optWords, p.operands);
      optind := 0;
      reports := [];
      assert argv[..1] == [argv[0]] && [] + p.operands == p.operands;
      assert Outcome(cfg, State()) == o;
      while true
        invariant optind >= 0 && Valid(cfg, State())
        invariant |reports| <= |o.events| && Agree(reports, o.events[..|reports|])
        invariant Outcome(cfg, State()) == o.(events := o.events[|reports|..])
        decreases |o.events| - |reports|
      {
        var c := GetoptInternal(options, longs, longOnly);
        if c == -1 {
          break;
        }
        AgreeMore(reports, o.events, Report(c, optarg, optopt));
        reports := reports + [Report(c, optarg, optopt)];
      }
    }
  }

  /** What the caller sees after a call: the code, `optarg` and `optopt`. */
  datatype Report = Report(ret: int, optarg: Option<string>, optopt: int)

  /** The caller has seen exactly these events; `optopt` counts where an event sets it. */
  ghost predicate Agree(reports: seq<Report>, events: seq<Event>) {
    && |reports| == |events|
    && forall k :: 0 <= k < |events| ==>
      && reports[k].ret == events[k].ret && reports[k].optarg == events[k].optarg
      && (events[k].optopt.Some? ==> reports[k].optopt == events[k].optopt.value)
  }

  lemma AgreeMore(reports: seq<Report>, events: seq<Event>, r: Report)
    requires |reports| < |events| && Agree(reports, events[..|reports|])
    requires var e := events[|reports|]; r.ret == e.ret && r.optarg == e.optarg && (e.optopt.Some? ==> r.optopt == e.optopt.value)
    ensures Agree(reports + [r], events[..|reports + [r]|])
    ensures events[|reports|..] != [] && events[|reports|..][0] == events[|reports|]
    ensures events[|reports|..][1..] == events[|reports| + 1..]
  {}
}
