/** The registry of commands: names mapped to procedures, kept in a hash table. */
module Commands {
  import opened HashTable
  import opened Wrappers

  const ARG_CMD_NAME_LEN := 100
  const ARG_CMD_DESCRIPTION_LEN := 256

  /** What is stored for a command; procedures are known by a number. */
  datatype Command = Command(name: string, procedure: int, description: string)

  // ---------------------------------------------------------------------------
  // Entries as a map
  // ---------------------------------------------------------------------------

  ghost predicate Unique<K, V>(cells: set<Entry<K, V>>) {
    forall e, f :: e in cells && f in cells && e.k == f.k ==> e == f
  }

  /** The map that the entries stand for. */
  ghost function Meaning<K, V>(cells: set<Entry<K, V>>): map<K, V>
    requires Unique(cells)
  {
    map e | e in cells :: e.k := e.v
  }

  /** As many keys as entries. */
  lemma {:induction false} MeaningCount<K, V>(cells: set<Entry<K, V>>)
    requires Unique(cells)
    ensures |Meaning(cells)| == |cells|
  {
    if cells == {} {
      assert Meaning(cells) == map[];
    } else {
      var e :| e in cells;
      MeaningCount(cells - {e});
      assert Meaning(cells) == Meaning(cells - {e})[e.k := e.v];
    }
  }

  lemma {:induction false} LookupFinds<K, V>(chain: seq<Entry<K, V>>, p: nat, k: K)
    requires p < |chain| && chain[p].k == k
    requires forall q :: 0 <= q < |chain| && chain[q].k == k ==> chain[q] == chain[p]
    ensures Lookup(chain, k) == Some(chain[p].v)
  {
    if chain[0].k != k {
      LookupFinds(chain[1..], p - 1, k);
    }
  }

  lemma {:induction false} LookupMisses<K, V>(chain: seq<Entry<K, V>>, k: K)
    requires forall q :: 0 <= q < |chain| ==> chain[q].k != k
    ensures Lookup(chain, k) == None
  {
    if chain != [] {
      LookupMisses(chain[1..], k);
    }
  }

  ghost function Value<K, V>(m: map<K, V>, k: K): Option<V> {
    if k in m then Some(m[k]) else None
  }

  /** With unique keys a search of one bucket is a lookup in the map. */
  lemma SearchMeaning<K, V>(chains: seq<seq<Entry<K, V>>>, cells: set<Entry<K, V>>, hash: K -> nat, k: K)
    requires Layout(chains, cells) && Hashed(cells, hash) && Unique(cells)
    ensures Lookup(chains[hash(k) % |chains|], k) == Value(Meaning(cells), k)
  {
    var chain := chains[hash(k) % |chains|];
    if e :| e in cells && e.k == k {
      assert e in chains[Home(e, |chains|)];
      var p :| 0 <= p < |chain| && chain[p] == e;
      LookupFinds(chain, p, k);
    } else {
      LookupMisses(chain, k);
    }
  }

  lemma MeaningGrows<K, V>(cells: set<Entry<K, V>>, e: Entry<K, V>)
    requires Unique(cells) && forall f :: f in cells ==> f.k != e.k
    ensures Unique(cells + {e}) && Meaning(cells + {e}) == Meaning(cells)[e.k := e.v]
  {}

  lemma MeaningWithout<K, V>(cells: set<Entry<K, V>>, k: K)
    requires Unique(cells) && forall e :: e in cells ==> e.k != k
    ensures Meaning(cells) - {k} == Meaning(cells)
  {}

  lemma NotThere<K, V>(cells: set<Entry<K, V>>, k: K)
    requires Unique(cells) && k !in Meaning(cells)
    ensures forall f :: f in cells ==> f.k != k
  {}

  lemma UpdateDropped<K, V>(m: map<K, V>, k: K, v: V)
    ensures (m - {k})[k := v] == m[k := v]
  {}

  lemma MeaningShrinks<K, V>(cells: set<Entry<K, V>>, e: Entry<K, V>)
    requires Unique(cells) && e in cells
    ensures Unique(cells - {e}) && Meaning(cells - {e}) == Meaning(cells) - {e.k}
    ensures forall f :: f in cells - {e} ==> f.k != e.k
  {}

  // ---------------------------------------------------------------------------
  // Runs of calls on the map
  // ---------------------------------------------------------------------------

  datatype Call =
    | Register(name: string, procedure: int, description: string)
    | Unregister(name: string)
    | Info(name: string)
    | Count
  {
    predicate Allowed() {
      Register? ==> |name| < ARG_CMD_NAME_LEN && |description| < ARG_CMD_DESCRIPTION_LEN
    }
  }

  datatype Answer = Done | Found(info: Option<Command>) | Total(n: nat)

  ghost function Effect(m: map<string, Command>, c: Call): map<string, Command> {
    match c
    case Register(name, procedure, description) => m[name := Command(name, procedure, description)]
    case Unregister(name) => m - {name}
    case Info(_) => m
    case Count => m
  }

  ghost function Reply(m: map<string, Command>, c: Call): Answer {
    match c
    case Register(_, _, _) => Done
    case Unregister(_) => Done
    case Info(name) => Found(Value(m, name))
    case Count => Total(|m|)
  }

  ghost function After(m: map<string, Command>, calls: seq<Call>): map<string, Command>
    decreases |calls|
  {
    if calls == [] then m else After(Effect(m, calls[0]), calls[1..])
  }

  ghost function Answers(m: map<string, Command>, calls: seq<Call>): seq<Answer>
    decreases |calls|
  {
    if calls == [] then [] else [Reply(m, calls[0])] + Answers(Effect(m, calls[0]), calls[1..])
  }

  lemma RunStep(m: map<string, Command>, calls: seq<Call>, i: nat, answers: seq<Answer>)
    requires i < |calls|
    ensures After(m, calls[i..]) == After(Effect(m, calls[i]), calls[i + 1..])
    ensures answers + Answers(m, calls[i..])
         == answers + [Reply(m, calls[i])] + Answers(Effect(m, calls[i]), calls[i + 1..])
  {}

  lemma RunEnds(m: map<string, Command>, none: seq<Call>, answers: seq<Answer>)
    requires none == []
    ensures After(m, none) == m && answers + Answers(m, none) == answers
  {}

  // ---------------------------------------------------------------------------
  // The registry
  // ---------------------------------------------------------------------------

  class Registry {
    const table: Table<string, Command>

    ghost predicate Valid()
      reads this, table, table.table, table.cells
    {
      table.Valid() && Unique(table.cells)
    }

    ghost function Map(): map<string, Command>
      requires Valid()
      reads this, table, table.table, table.cells
    {
      Meaning(table.cells)
    }

    constructor (hash: string -> nat, limit: nat -> nat)
      ensures Valid() && fresh(table) && fresh(table.table) && Map() == map[]
    {
      var t := Create(32, hash, limit);
      table := t;
    }

    method Info(name: string) returns (info: Option<Command>)
      requires Valid()
      ensures info == Value(Map(), name)
    {
      info := table.Search(name);
      SearchMeaning(table.chains, table.cells, table.hash, name);
    }

    method Unregister(name: string)
      requires Valid()
      modifies table, table.table, table.cells
      ensures Valid() && Map() == old(Map()) - {name}
      ensures table.table == old(table.table) && table.cells <= old(table.cells)
    {
      hide Meaning, Unique, Layout, Sized;
      ghost var cells := table.cells;
      ghost var victim := table.Remove(name);
      if victim != null {
        MeaningShrinks(cells, victim);
      } else {
        MeaningWithout(cells, name);
      }
    }

    method Register(name: string, procedure: int, description: string)
      requires Valid() && |name| < ARG_CMD_NAME_LEN && |description| < ARG_CMD_DESCRIPTION_LEN
      modifies table, table.table, table.cells
      ensures Valid() && Map() == old(Map())[name := Command(name, procedure, description)]
      ensures table.table == old(table.table) || fresh(table.table)
      ensures fresh(table.cells - old(table.cells))
    {
      hide Meaning, Unique, Layout, Lookup, Rehash, Prime;
      var info := Info(name);
      UpdateDropped(Map(), name, Command(name, procedure, description));
      if info.Some? {
        Unregister(name);
      }
      ghost var cells := table.cells;
      NotThere(cells, name);
      ghost var e := table.Insert(name, Command(name, procedure, description));
      MeaningGrows(cells, e);
    }

    method Count() returns (n: nat)
      requires Valid()
      ensures n == |Map()|
    {
      MeaningCount(table.cells);
      n := table.Count();
    }

    /** Any run of calls answers as the map does. */
    method Run(calls: seq<Call>) returns (answers: seq<Answer>)
      requires Valid() && forall c :: c in calls ==> c.Allowed()
      modifies table, table.table, table.cells
      ensures Valid() && Map() == After(old(Map()), calls) && answers == Answers(old(Map()), calls)
    {
      hide Meaning, Unique, After, Answers, Effect, Reply;
      ghost var m := Map();
      answers := [];
      assert calls[0..] == calls && [] + Answers(m, calls) == Answers(m, calls);
      for i := 0 to |calls|
        invariant Valid() && (table.table == old(table.table) || fresh(table.table))
        invariant fresh(table.cells - old(table.cells))
        invariant After(Map(), calls[i..]) == After(m, calls)
        invariant answers + Answers(Map(), calls[i..]) == Answers(m, calls)
      {
        RunStep(Map(), calls, i, answers);
        var answer := Perform(calls[i]);
        answers := answers + [answer];
      }
      RunEnds(Map(), calls[|calls|..], answers);
    }

    method Perform(c: Call) returns (answer: Answer)
      requires Valid() && c.Allowed()
      modifies table, table.table, table.cells
      ensures Valid() && Map() == Effect(old(Map()), c) && answer == Reply(old(Map()), c)
      ensures table.table == old(table.table) || fresh(table.table)
      ensures fresh(table.cells - old(table.cells))
    {
      hide Meaning;
      match c
      case Register(name, procedure, description) =>
        this.Register(name, procedure, description);
        answer := Done;
      case Unregister(name) =>
        this.Unregister(name);
        answer := Done;
      case Info(name) =>
        var info := this.Info(name);
        answer := Found(info);
      case Count =>
        var n := this.Count();
        answer := Total(n);
    }
  }
}
