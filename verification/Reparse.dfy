/** Is a sorted command line the same command? Reading it again gives the same reports exactly
    when no option at the very end of the original was short of its argument, or there is no
    operand that such an option would then swallow. */
module Reparse {
  import opened OptionSyntax
  import opened Wrappers

  /** The option text takes the next word as an argument if there is one. */
  predicate WantsWord(cfg: Config, body: string, lone: bool) {
    ParseWord(cfg, body, [""], lone).used == 1
  }

  /** The last option of the line takes a separate argument, and there is no word left for it. */
  predicate LastLacksArgument(cfg: Config, words: seq<string>)
    decreases |words|
  {
    if words == [] then false
    else
      var w, rest := words[0], words[1..];
      if IsOperand(cfg, w) then LastLacksArgument(cfg, rest)
      else if w == "--" then false
      else if rest == [] then WantsWord(cfg, Body(w), |w| == 1)
      else LastLacksArgument(cfg, rest[ParseWord(cfg, Body(w), rest, |w| == 1).used..])
  }

  /** Words that a parser in permuting mode skips. */
  predicate AllOperands(cfg: Config, words: seq<string>) {
    forall k :: 0 <= k < |words| ==> IsOperand(cfg, words[k])
  }

  lemma {:induction false} OperandsOnly(cfg: Config, words: seq<string>)
    requires cfg.mode.Permute? && AllOperands(cfg, words)
    ensures Reference(cfg, words) == Parse([], [], words)
  {
    if words != [] {
      OperandsOnly(cfg, words[1..]);
    }
  }

  lemma LongEventLocal(cfg: Config, text: string, rest: seq<string>, other: seq<string>, shortToo: bool)
    ensures var r := LongEvent(cfg, text, rest, shortToo); var o := LongEvent(cfg, text, other, shortToo);
            && (r.NotLong? <==> o.NotLong?)
            && (r.Long? ==>
                  && (rest != [] && other != [] ==> o.used == r.used)
                  && (rest != [] && r.used == 0 ==> o == r)
                  && (rest != [] && other != [] && rest[0] == other[0] ==> o == r)
                  && (rest != [] && r.used == 1 && other == [] ==>
                        o.used == 0 && o.event.optarg == None && r.event.optarg == Some(rest[0])))
  {}

  lemma ShortEventLocal(cfg: Config, c: char, tail: string, rest: seq<string>, other: seq<string>)
    ensures var r := ShortEvent(cfg, c, tail, rest); var o := ShortEvent(cfg, c, tail, other);
            && (rest != [] && other != [] ==> o.used == r.used && o.left == r.left)
            && (rest != [] && r.used == 0 ==> o == r)
            && (rest != [] && other != [] && rest[0] == other[0] ==> o == r)
            && (rest != [] && r.used == 1 && other == [] ==>
                  o.used == 0 && o.left == "" == r.left && o.event.optarg == None && r.event.optarg == Some(rest[0]))
            && r.used <= 1
  {}

  /** Only the presence of a next word, and that word if it is taken, matter to an option. */
  lemma FirstEventLocal(cfg: Config, body: string, lone: bool, rest: seq<string>, other: seq<string>)
    requires body != ""
    ensures var st := FirstEvent(cfg, body, rest, lone); var ot := FirstEvent(cfg, body, other, lone);
            && (rest != [] && other != [] ==> ot.used == st.used && ot.left == st.left)
            && (rest != [] && st.used == 0 ==> ot == st)
            && (rest != [] && other != [] && rest[0] == other[0] ==> ot == st)
            && (rest != [] && st.used == 1 && other == [] ==>
                  ot.used == 0 && ot.left == "" == st.left && ot.event.optarg == None && st.event.optarg == Some(rest[0]))
            && st.used <= 1
  {
    hide LongEvent, ShortEvent;
    var c := body[0];
    var shortToo := c != '-' && c != ':' && c in cfg.options;
    LongEventLocal(cfg, if c == '-' then body[1..] else body, rest, other, shortToo);
    ShortEventLocal(cfg, c, body[1..], rest, other);
  }

  lemma {:induction false} ParseWordLocal(cfg: Config, body: string, lone: bool, rest: seq<string>, other: seq<string>)
    requires rest != []
    ensures var r := ParseWord(cfg, body, rest, lone); var q := ParseWord(cfg, body, other, lone);
            && r.used <= 1 && |q.events| == |r.events|
            && (r.used == 0 ==> q == r)
            && (other != [] && rest[0] == other[0] ==> q == r)
            && (other != [] ==> q.used == r.used)
            && (r.used == 1 && other == [] ==>
                  q.used == 0 && r.events != [] && q.events[|q.events| - 1].optarg == None
                  && r.events[|r.events| - 1].optarg == Some(rest[0]))
    decreases |body|
  {
    hide FirstEvent;
    if body != "" {
      FirstEventLocal(cfg, body, lone, rest, other);
      var st := FirstEvent(cfg, body, rest, lone);
      if st.left == "" {
        assert ParseWord(cfg, body, rest, lone) == WordParse([st.event], st.used);
      } else {
        ParseWordLocal(cfg, st.left, false, rest, other);
        var more := ParseWord(cfg, st.left, rest, false);
        assert ParseWord(cfg, body, rest, lone) == WordParse([st.event] + more.events, more.used);
      }
    }
  }

  /** The options are ended by `--`. */
  predicate Dashed(cfg: Config, words: seq<string>)
    decreases |words|
  {
    if words == [] then false
    else
      var w, rest := words[0], words[1..];
      if IsOperand(cfg, w) then Dashed(cfg, rest)
      else w == "--" || Dashed(cfg, rest[ParseWord(cfg, Body(w), rest, |w| == 1).used..])
  }

  lemma {:induction false} SkippedWords(cfg: Config, words: seq<string>)
    requires cfg.mode.Permute?
    ensures Dashed(cfg, words) || AllOperands(cfg, Reference(cfg, words).operands)
    decreases |words|
  {
    if words != [] {
      var w, rest := words[0], words[1..];
      if IsOperand(cfg, w) {
        SkippedWords(cfg, rest);
      } else if w != "--" {
        var n := ParseWord(cfg, Body(w), rest, |w| == 1).used;
        assert rest[n..] == words[1 + n..];
        SkippedWords(cfg, rest[n..]);
      }
    }
  }

  /** An option word read in front of other words that still start with its argument. */
  lemma SameWord(cfg: Config, body: string, lone: bool, rest: seq<string>, line: seq<string>)
    requires rest == [] ==> !WantsWord(cfg, body, lone)
    requires var u := ParseWord(cfg, body, rest, lone).used; u <= |line| && line[..u] == rest[..u]
    ensures ParseWord(cfg, body, line, lone) == ParseWord(cfg, body, rest, lone)
  {
    if rest == [] {
      ParseWordLocal(cfg, body, lone, [""], rest);
      ParseWordLocal(cfg, body, lone, [""], line);
    } else {
      ParseWordLocal(cfg, body, lone, rest, line);
      var u := ParseWord(cfg, body, rest, lone).used;
      if u > 0 {
        assert line[..u][0] == rest[..u][0];
      }
    }
  }

  lemma NoWordsRead(cfg: Config)
    ensures Reference(cfg, []) == Parse([], [], [])
  {}

  lemma OperandMoves(cfg: Config, words: seq<string>)
    requires cfg.mode.Permute? && words != [] && IsOperand(cfg, words[0])
    ensures var p, q := Reference(cfg, words), Reference(cfg, words[1..]); p.events == q.events && p.optWords == q.optWords
  {}

  lemma DashesSame(cfg: Config, words: seq<string>, ops: seq<string>)
    requires words != [] && !IsOperand(cfg, words[0]) && words[0] == "--"
    ensures var p := Reference(cfg, words); Reference(cfg, p.optWords + ops) == Parse(p.events, p.optWords, ops)
  {
    assert (["--"] + ops)[1..] == ops;
  }

  /** Reading the option words again in front of other operands gives the same reports. */
  lemma {:induction false} SameReports(cfg: Config, words: seq<string>, ops: seq<string>)
    requires cfg.mode.Permute? && !LastLacksArgument(cfg, words)
    requires Dashed(cfg, words) || AllOperands(cfg, ops)
    ensures var p := Reference(cfg, words); Reference(cfg, p.optWords + ops) == Parse(p.events, p.optWords, ops)
    decreases |words|
  {
    hide ParseWord, AfterWord;
    if words == [] {
      OperandsOnly(cfg, ops);
      NoWordsRead(cfg);
      assert [] + ops == ops;
    } else {
      var w, rest := words[0], words[1..];
      if IsOperand(cfg, w) {
        OperandMoves(cfg, words);
        SameReports(cfg, rest, ops);
      } else if w == "--" {
        DashesSame(cfg, words, ops);
      } else {
        hide Reference;
        var u := 1 + ParseWord(cfg, Body(w), rest, |w| == 1).used;
        assert rest[u - 1..] == words[u..];
        SameReports(cfg, words[u..], ops);
        SameReportsWord(cfg, words, ops);
      }
    }
  }

  lemma SameReportsWord(cfg: Config, words: seq<string>, ops: seq<string>)
    requires words != [] && !IsOperand(cfg, words[0]) && words[0] != "--"
    requires |words| == 1 ==> !WantsWord(cfg, Body(words[0]), |words[0]| == 1)
    requires var q := Reference(cfg, words[1 + ParseWord(cfg, Body(words[0]), words[1..], |words[0]| == 1).used..]);
             Reference(cfg, q.optWords + ops) == Parse(q.events, q.optWords, ops)
    ensures var p := Reference(cfg, words); Reference(cfg, p.optWords + ops) == Parse(p.events, p.optWords, ops)
  {
    hide ParseWord, WantsWord, Reference;
    var w := words[0];
    var u := 1 + ParseWord(cfg, Body(w), words[1..], |w| == 1).used;
    var q := Reference(cfg, words[u..]);
    PrefixReads(cfg, words, q.optWords + ops);
    OptionWord(cfg, words);
    assert words[..u] + q.optWords + ops == words[..u] + (q.optWords + ops);
  }

  lemma OptionWord(cfg: Config, words: seq<string>)
    requires words != [] && !IsOperand(cfg, words[0]) && words[0] != "--"
    ensures var r := ParseWord(cfg, Body(words[0]), words[1..], |words[0]| == 1);
            var q := Reference(cfg, words[1 + r.used..]);
            Reference(cfg, words) == Parse(r.events + q.events, words[..1 + r.used] + q.optWords, q.operands)
  {}

  /** The first option word with its argument reads the same in front of any other words. */
  lemma PrefixReads(cfg: Config, words: seq<string>, more: seq<string>)
    requires words != [] && !IsOperand(cfg, words[0]) && words[0] != "--"
    requires |words| == 1 ==> !WantsWord(cfg, Body(words[0]), |words[0]| == 1)
    ensures var r := ParseWord(cfg, Body(words[0]), words[1..], |words[0]| == 1);
            var q := Reference(cfg, more);
            Reference(cfg, words[..1 + r.used] + more) == Parse(r.events + q.events, words[..1 + r.used] + q.optWords, q.operands)
  {
    var w, rest := words[0], words[1..];
    var r := ParseWord(cfg, Body(w), rest, |w| == 1);
    var u := 1 + r.used;
    var line := words[..u] + more;
    assert line[0] == w && line[1..][..r.used] == rest[..r.used];
    SameWord(cfg, Body(w), |w| == 1, rest, line[1..]);
    assert line[u..] == more && line[..u] == words[..u];
    assert Reference(cfg, line) == AfterWord(cfg, Body(w), |w| == 1, line);
  }

  lemma LoneWord(cfg: Config, w: string)
    requires !IsOperand(cfg, w) && w != "--"
    ensures Reference(cfg, [w]) == Parse(ParseWord(cfg, Body(w), [], |w| == 1).events, [w], [])
  {
    hide ParseWord;
    var r := ParseWord(cfg, Body(w), [], |w| == 1);
    assert [w][1..] == [] && [w][1 + r.used..] == [] && [w][..1 + r.used] == [w];
    assert Reference(cfg, [w]) == AfterWord(cfg, Body(w), |w| == 1, [w]);
    assert Reference(cfg, []) == Parse([], [], []);
    assert r.events + [] == r.events && [w] + [] == [w];
  }

  lemma SwallowsHere(cfg: Config, w: string, ops: seq<string>)
    requires !IsOperand(cfg, w) && w != "--" && WantsWord(cfg, Body(w), |w| == 1) && ops != []
    ensures Reference(cfg, [w] + ops).events != Reference(cfg, [w]).events
  {
    hide FirstEvent;
    ParseWordLocal(cfg, Body(w), |w| == 1, [""], ops);
    ParseWordLocal(cfg, Body(w), |w| == 1, ops, []);
    LoneWord(cfg, w);
    hide ParseWord;
    var s := ParseWord(cfg, Body(w), ops, |w| == 1);
    var line := [w] + ops;
    assert line[0] == w && line[1..] == ops;
    assert Reference(cfg, line) == AfterWord(cfg, Body(w), |w| == 1, line);
    assert Reference(cfg, line).events[|s.events| - 1] == s.events[|s.events| - 1];
  }

  /** An option short of its argument swallows the first operand that is moved behind it. */
  lemma {:induction false} SwallowsOperand(cfg: Config, words: seq<string>, ops: seq<string>)
    requires cfg.mode.Permute? && LastLacksArgument(cfg, words) && ops != []
    ensures var p := Reference(cfg, words); Reference(cfg, p.optWords + ops).events != p.events
    decreases |words|
  {
    var w, rest := words[0], words[1..];
    var p := Reference(cfg, words);
    if IsOperand(cfg, w) {
      SwallowsOperand(cfg, rest, ops);
    } else if rest == [] {
      assert words == [w];
      LoneWord(cfg, w);
      SwallowsHere(cfg, w, ops);
    } else {
      var u := 1 + ParseWord(cfg, Body(w), rest, |w| == 1).used;
      assert rest[u - 1..] == words[u..];
      SwallowsOperand(cfg, words[u..], ops);
      DifferLater(cfg, words, ops);
    }
  }

  lemma DifferLater(cfg: Config, words: seq<string>, ops: seq<string>)
    requires |words| > 1 && !IsOperand(cfg, words[0]) && words[0] != "--"
    requires var q := Reference(cfg, words[1 + ParseWord(cfg, Body(words[0]), words[1..], |words[0]| == 1).used..]);
             Reference(cfg, q.optWords + ops).events != q.events
    ensures var p := Reference(cfg, words); Reference(cfg, p.optWords + ops).events != p.events
  {
    hide ParseWord, WantsWord, Reference;
    var r := ParseWord(cfg, Body(words[0]), words[1..], |words[0]| == 1);
    var u := 1 + r.used;
    var q := Reference(cfg, words[u..]);
    var t := Reference(cfg, q.optWords + ops);
    PrefixReads(cfg, words, q.optWords + ops);
    OptionWord(cfg, words);
    assert words[..u] + q.optWords + ops == words[..u] + (q.optWords + ops);
    assert (r.events + t.events)[|r.events|..] == t.events;
    assert (r.events + q.events)[|r.events|..] == q.events;
  }

  /** Reading the sorted line again reports the same, except when an option at the end lacks its
      argument and there is an operand for it to swallow. */
  lemma ReparseExactly(cfg: Config, words: seq<string>)
    requires cfg.mode.Permute?
    ensures var p := Reference(cfg, words);
            Reference(cfg, p.optWords + p.operands) == p <==> !LastLacksArgument(cfg, words) || p.operands == []
  {
    var p := Reference(cfg, words);
    if !LastLacksArgument(cfg, words) {
      SkippedWords(cfg, words);
      SameReports(cfg, words, p.operands);
    } else if p.operands != [] {
      SwallowsOperand(cfg, words, p.operands);
    } else {
      NoOperands(cfg, words);
    }
  }

  lemma {:induction false} NoOperands(cfg: Config, words: seq<string>)
    requires cfg.mode.Permute? && Reference(cfg, words).operands == []
    ensures Reference(cfg, words).optWords + [] == words
    decreases |words|
  {
    if words != [] {
      var w, rest := words[0], words[1..];
      if w != "--" {
        var u := 1 + ParseWord(cfg, Body(w), rest, |w| == 1).used;
        assert Reference(cfg, words) == AfterWord(cfg, Body(w), |w| == 1, words);
        NoOperands(cfg, words[u..]);
        assert words == words[..u] + words[u..];
      }
    }
  }

  /** `op -a`, where -a takes an argument: read again in sorted order, -a takes `op`. */
  lemma OperandSwallowed()
    ensures var cfg := Configure("a:", [], false);
            var p := Reference(cfg, ["op", "-a"]);
            && p == Parse([Event('?' as int, None, Some('a' as int), None)], ["-a"], ["op"])
            && Reference(cfg, p.optWords + p.operands) == Parse([Event('a' as int, Some("op"), None, None)], ["-a", "op"], [])
  {
    var cfg := Configure("a:", [], false);
    assert Find("a:", 'a') == 0;
    assert FirstEvent(cfg, "a", [], false) == Step(Event('?' as int, None, Some('a' as int), None), "", 0);
    assert FirstEvent(cfg, "a", ["op"], false) == Step(Event('a' as int, Some("op"), None, None), "", 1);
    hide FirstEvent, Find;
    assert Reference(cfg, ["-a"]) == AfterWord(cfg, "a", false, ["-a"]);
    assert Reference(cfg, ["op", "-a"]) == Reference(cfg, ["-a"]).(operands := ["op"]) by {
      assert ["op", "-a"][1..] == ["-a"];
    }
    assert Reference(cfg, ["-a", "op"]) == AfterWord(cfg, "a", false, ["-a", "op"]);
    assert ["-a"] + ["op"] == ["-a", "op"];
  }
}
