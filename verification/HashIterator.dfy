/** Walking a hash table entry by entry, taking entries out on the way. */
module HashIterators {
  import opened HashTable

  // ---------------------------------------------------------------------------
  // Positions
  // ---------------------------------------------------------------------------

  ghost predicate InRange<K, V>(chains: seq<seq<Entry<K, V>>>, index: nat, pos: nat) {
    index <= |chains| && (if index < |chains| then pos <= |chains[index]| else pos == 0)
  }

  /** The entries from position pos of bucket index on. */
  ghost function From<K, V>(chains: seq<seq<Entry<K, V>>>, index: nat, pos: nat): seq<Entry<K, V>>
    requires InRange(chains, index, pos)
  {
    if index == |chains| then [] else chains[index][pos..] + Flat(chains[index + 1..])
  }

  /** The entries in front of position pos of bucket index. */
  ghost function Upto<K, V>(chains: seq<seq<Entry<K, V>>>, index: nat, pos: nat): seq<Entry<K, V>>
    requires InRange(chains, index, pos)
  {
    Flat(chains[..index]) + (if index == |chains| then [] else chains[index][..pos])
  }

  lemma FlatCons<K, V>(chain: seq<Entry<K, V>>, chains: seq<seq<Entry<K, V>>>)
    ensures Flat([chain] + chains) == chain + Flat(chains)
  {}

  lemma {:induction false} FlatConcat<K, V>(a: seq<seq<Entry<K, V>>>, b: seq<seq<Entry<K, V>>>)
    ensures Flat(a + b) == Flat(a) + Flat(b)
  {
    if a == [] {
      assert a + b == b;
    } else {
      FlatConcat(a[1..], b);
      FlatCons(a[0], a[1..]);
      FlatCons(a[0], a[1..] + b);
      hide Flat;
      assert a == [a[0]] + a[1..] && a + b == [a[0]] + (a[1..] + b);
      Assoc(a[0], Flat(a[1..]), Flat(b));
    }
  }

  lemma FlatOne<K, V>(chain: seq<Entry<K, V>>)
    ensures Flat([chain]) == chain
  {}

  lemma FlatAt<K, V>(chains: seq<seq<Entry<K, V>>>, index: nat)
    requires index < |chains|
    ensures Flat(chains[index..]) == chains[index] + Flat(chains[index + 1..])
    ensures Flat(chains[..index + 1]) == Flat(chains[..index]) + chains[index]
  {
    assert chains[index..][1..] == chains[index + 1..];
    assert chains[..index + 1] == chains[..index] + [chains[index]];
    FlatConcat(chains[..index], [chains[index]]);
    FlatOne(chains[index]);
  }

  lemma Assoc<T>(a: seq<T>, b: seq<T>, c: seq<T>)
    ensures a + b + c == a + (b + c)
    ensures a + [] == a == [] + a
  {}

  lemma Pieces<T>(chain: seq<T>, pos: nat)
    requires pos <= |chain|
    ensures chain[..pos] + chain[pos..] == chain
    ensures pos < |chain| ==> chain[pos..] == [chain[pos]] + chain[pos + 1..] && chain[..pos + 1] == chain[..pos] + [chain[pos]]
  {}

  /** A position splits the walk in two. */
  lemma Split<K, V>(chains: seq<seq<Entry<K, V>>>, index: nat, pos: nat)
    requires InRange(chains, index, pos)
    ensures Flat(chains) == Upto(chains, index, pos) + From(chains, index, pos)
  {
    hide Flat;
    assert chains == chains[..index] + chains[index..];
    FlatConcat(chains[..index], chains[index..]);
    if index == |chains| {
      assert chains[..index] == chains && chains[index..] == [];
      FlatNone<K, V>();
      Assoc(Flat(chains), [], []);
    } else {
      var chain, before, after := chains[index], Flat(chains[..index]), Flat(chains[index + 1..]);
      FlatAt(chains, index);
      Pieces(chain, pos);
      Assoc(before + chain[..pos], chain[pos..], after);
      Assoc(before, chain[..pos], chain[pos..]);
      Assoc(before, chain, after);
    }
  }

  lemma FlatNone<K, V>()
    ensures Flat<K, V>([]) == []
  {}

  /** The end of a bucket is the start of the next one. */
  lemma EndOfBucket<K, V>(chains: seq<seq<Entry<K, V>>>, index: nat)
    requires index < |chains|
    ensures Upto(chains, index, |chains[index]|) == Upto(chains, index + 1, 0)
    ensures From(chains, index, |chains[index]|) == From(chains, index + 1, 0)
  {
    hide Flat;
    FlatAt(chains, index);
    Assoc(Flat(chains[..index + 1]), [], []);
    assert chains[index][..|chains[index]|] == chains[index] && chains[index][|chains[index]|..] == [];
    Assoc(Flat(chains[index + 1..]), [], []);
    if index + 1 < |chains| {
      FlatAt(chains, index + 1);
      assert chains[index + 1][0..] == chains[index + 1] && chains[index + 1][..0] == [];
    } else {
      assert chains[index + 1..] == [];
      FlatNone<K, V>();
    }
  }

  lemma OneFurther<K, V>(chains: seq<seq<Entry<K, V>>>, index: nat, pos: nat)
    requires index < |chains| && pos < |chains[index]|
    ensures From(chains, index, pos) == [chains[index][pos]] + From(chains, index, pos + 1)
    ensures Upto(chains, index, pos + 1) == Upto(chains, index, pos) + [chains[index][pos]]
  {
    hide Flat;
    Pieces(chains[index], pos);
    Assoc([chains[index][pos]], chains[index][pos + 1..], Flat(chains[index + 1..]));
    Assoc(Flat(chains[..index]), chains[index][..pos], [chains[index][pos]]);
  }

  /** Taking out the entry at a position leaves what is in front of it and behind it. */
  lemma CutAt<K, V>(chains: seq<seq<Entry<K, V>>>, index: nat, pos: nat)
    requires index < |chains| && pos < |chains[index]|
    ensures var chains' := chains[index := chains[index][..pos] + chains[index][pos + 1..]];
            && |chains'| == |chains| && pos <= |chains'[index]|
            && Upto(chains', index, pos) == Upto(chains, index, pos)
            && From(chains', index, pos) == From(chains, index, pos + 1)
  {}

  /** Buckets that hold nothing are skipped. */
  lemma EmptyBucket<K, V>(chains: seq<seq<Entry<K, V>>>, index: nat)
    requires index < |chains| && chains[index] == []
    ensures Upto(chains, index, 0) == Upto(chains, index + 1, 0)
    ensures From(chains, index, 0) == From(chains, index + 1, 0)
  {
    EndOfBucket(chains, index);
  }

  // ---------------------------------------------------------------------------
  // The iterator
  // ---------------------------------------------------------------------------

  class Iterator<K(==), V> {
    const h: Table<K, V>
    var e: Entry?<K, V>
    var parent: Entry?<K, V>
    var index: nat
    ghost var pos: nat

    /** The current entry is the one at pos of bucket index; there is none at the end of the table. */
    ghost predicate Placed()
      reads this, h, h.table, h.cells
    {
      && h.Valid()
      && InRange(h.chains, index, pos)
      && (index < |h.chains| ==> pos < |h.chains[index]|)
      && e == (if index < |h.chains| then h.chains[index][pos] else null)
    }

    /** Besides, parent is the entry in front of the current one in its chain. */
    ghost predicate Valid()
      reads this, h, h.table, h.cells
    {
      Placed() && parent == (if pos == 0 then null else h.chains[index][pos - 1])
    }

    /** The entries that have been passed. */
    ghost function Passed(): seq<Entry<K, V>>
      requires Placed()
      reads this, h, h.table, h.cells
    {
      Upto(h.chains, index, pos)
    }

    /** The entries that are still to come, the current one first. */
    ghost function Rest(): seq<Entry<K, V>>
      requires Placed()
      reads this, h, h.table, h.cells
    {
      From(h.chains, index, pos)
    }

    constructor (h: Table<K, V>)
      requires h.Valid()
      ensures this.h == h && Valid() && Passed() == [] && Rest() == Flat(h.chains)
    {
      this.h := h;
      e, parent, index, pos := null, null, h.table.Length, 0;
      new;
      Outset(h.chains, h.cells);
      if h.entrycount != 0 {
        Seek(0);
      }
    }

    /** Finds the first bucket from j on that is not empty; at the end of the table there is no entry. */
    method Seek(j: nat)
      requires h.Valid() && j <= |h.chains| && parent == null
      modifies this
      ensures Placed() && parent == null && pos == 0
      ensures Passed() == Upto(h.chains, j, 0) && Rest() == From(h.chains, j, 0)
    {
      hide Flat, Layout, Linked, Upto, From, Sized;
      var i := j;
      while i < h.table.Length && h.table[i] == null
        invariant j <= i <= h.table.Length && parent == null
        invariant Upto(h.chains, i, 0) == Upto(h.chains, j, 0) && From(h.chains, i, 0) == From(h.chains, j, 0)
      {
        HeadOf(h.table, h.chains, h.cells, i);
        EmptyAt(h.chains[i]);
        EmptyBucket(h.chains, i);
        i := i + 1;
      }
      index, pos := i, 0;
      if i < h.table.Length {
        HeadOf(h.table, h.chains, h.cells, i);
        e := h.table[i];
      } else {
        e := null;
      }
    }

    /** The step of an advance, from an entry whose successor is at position q of the current bucket. */
    method Step(ghost q: nat)
      requires h.Valid() && e != null && index < |h.chains| && q <= |h.chains[index]|
      requires e.next == At(h.chains[index], q)
      modifies this
      ensures Placed()
      ensures Passed() == Upto(h.chains, old(index), q) && Rest() == From(h.chains, old(index), q)
      ensures if old(e.next) == null then parent == null && pos == 0 else parent == old(e) && index == old(index) && pos == q
    {
      hide Flat, Layout, Linked, Upto, From, Sized;
      var next := e.next;
      if next != null {
        parent, e, pos := e, next, q;
      } else {
        EndOfBucket(h.chains, index);
        parent := null;
        Seek(index + 1);
      }
    }

    /** Moves on to the next entry; the result says whether there is one. */
    method Advance() returns (more: bool)
      requires Valid()
      modifies this
      ensures Valid() && more == (e != null)
      ensures old(e) == null ==> Passed() == old(Passed()) && Rest() == old(Rest())
      ensures old(e) != null ==> old(Rest()) == [old(e)] + Rest() && Passed() == old(Passed()) + [old(e)]
    {
      hide Flat, Layout, ChainedAll, Upto, From, Sized;
      if e == null {
        return false;
      }
      NextOf(h.table, h.chains, h.cells, index, pos);
      OneFurther(h.chains, index, pos);
      Step(pos + 1);
      more := e != null;
    }

    /** Takes the current entry out of the table and moves on to the next one. */
    method Remove() returns (more: bool)
      requires Valid() && e != null
      modifies this, h, h.table, h.cells
      ensures Valid() && more == (e != null)
      ensures h.table == old(h.table) && h.cells == old(h.cells) - {old(e)} && old(e) in old(h.cells)
      ensures old(Rest()) == [old(e)] + Rest() && Passed() == old(Passed())
    {
      hide Flat, Layout, Linked, Upto, From, Sized;
      NextOf(h.table, h.chains, h.cells, index, pos);
      OneFurther(h.chains, index, pos);
      CutAt(h.chains, index, pos);
      if pos > 0 {
        NextOf(h.table, h.chains, h.cells, index, pos - 1);
      }
      var rememberE, rememberParent := e, parent;
      h.Cut(index, parent, e, pos);
      Step(pos);
      if parent == rememberE {
        parent := rememberParent;
      }
      more := e != null;
    }
  }

  /** The walk starts with nothing passed; a table without entries is all passed. */
  lemma Outset<K, V>(chains: seq<seq<Entry<K, V>>>, cells: set<Entry<K, V>>)
    requires Layout(chains, cells)
    ensures Upto(chains, 0, 0) == [] && From(chains, 0, 0) == Flat(chains)
    ensures cells == {} ==> Flat(chains) == [] == From(chains, |chains|, 0) == Upto(chains, |chains|, 0)
  {
    hide Flat;
    StartOfWalk(chains);
    if cells == {} {
      WalkMeetsEachOnce(chains, cells);
      assert chains[..|chains|] == chains;
      Assoc<Entry<K, V>>([], [], []);
    }
  }

  lemma StartOfWalk<K, V>(chains: seq<seq<Entry<K, V>>>)
    requires chains != []
    ensures Upto(chains, 0, 0) == [] && From(chains, 0, 0) == Flat(chains)
  {}

  // ---------------------------------------------------------------------------
  // The walk meets every entry once
  // ---------------------------------------------------------------------------

  lemma {:induction false} InFlat<K, V>(chains: seq<seq<Entry<K, V>>>, e: Entry<K, V>)
    ensures e in Flat(chains) <==> exists b :: 0 <= b < |chains| && e in chains[b]
  {
    if chains != [] {
      InFlat(chains[1..], e);
      assert forall b :: 1 <= b < |chains| ==> chains[b] == chains[1..][b - 1];
    }
  }

  /** No entry is in two chains, or twice in one. */
  ghost predicate Separate<K, V>(chains: seq<seq<Entry<K, V>>>) {
    && (forall b :: 0 <= b < |chains| ==> Distinct(chains[b]))
    && (forall b, c, e :: 0 <= b < c < |chains| && e in chains[b] ==> e !in chains[c])
  }

  lemma DistinctConcat<K, V>(a: seq<Entry<K, V>>, b: seq<Entry<K, V>>)
    requires Distinct(a) && Distinct(b) && forall e :: e in a ==> e !in b
    ensures Distinct(a + b)
  {
    forall p, q | 0 <= p < q < |a + b|
      ensures (a + b)[p] != (a + b)[q]
    {
      if p < |a| <= q {
        assert (a + b)[p] in a && (a + b)[q] in b;
      }
    }
  }

  lemma {:induction false} SeparateFlat<K, V>(chains: seq<seq<Entry<K, V>>>)
    requires Separate(chains)
    ensures Distinct(Flat(chains))
  {
    if chains != [] {
      SeparateFlat(chains[1..]);
      forall e | e in chains[0]
        ensures e !in Flat(chains[1..])
      {
        InFlat(chains[1..], e);
      }
      DistinctConcat(chains[0], Flat(chains[1..]));
    }
  }

  lemma LayoutSeparate<K, V>(chains: seq<seq<Entry<K, V>>>, cells: set<Entry<K, V>>)
    requires Layout(chains, cells)
    ensures Separate(chains)
  {}

  lemma InBucket<K, V>(chains: seq<seq<Entry<K, V>>>, cells: set<Entry<K, V>>, b: nat, e: Entry<K, V>)
    requires Layout(chains, cells) && b < |chains| && e in chains[b]
    ensures e in cells && Home(e, |chains|) == b
  {}

  lemma {:induction false} DistinctCount<K, V>(s: seq<Entry<K, V>>, elements: set<Entry<K, V>>)
    requires Distinct(s) && forall e :: e in elements <==> e in s
    ensures |s| == |elements|
  {
    if s == [] {
      assert elements == {};
    } else {
      var rest := elements - {s[0]};
      assert forall e :: e in rest <==> e in s[1..];
      DistinctCount(s[1..], rest);
    }
  }

  /** The order of the walk lists every entry of the table once. */
  lemma WalkMeetsEachOnce<K, V>(chains: seq<seq<Entry<K, V>>>, cells: set<Entry<K, V>>)
    requires Layout(chains, cells)
    ensures Distinct(Flat(chains)) && |Flat(chains)| == |cells|
    ensures forall e :: e in Flat(chains) <==> e in cells
  {
    hide Flat, Distinct;
    LayoutSeparate(chains, cells);
    SeparateFlat(chains);
    forall e
      ensures e in Flat(chains) <==> e in cells
    {
      InFlat(chains, e);
      if e in Flat(chains) {
        var b :| 0 <= b < |chains| && e in chains[b];
        InBucket(chains, cells, b, e);
      }
    }
    DistinctCount(Flat(chains), cells);
  }

  // ---------------------------------------------------------------------------
  // A whole walk
  // ---------------------------------------------------------------------------

  /** The entries of the walk that are not chosen for removal. */
  ghost function Kept<K, V>(walk: seq<Entry<K, V>>, chosen: seq<bool>): (kept: seq<Entry<K, V>>)
    requires |chosen| >= |walk|
  {
    if walk == [] then []
    else (if chosen[0] then [] else [walk[0]]) + Kept(walk[1..], chosen[1..])
  }

  /** Walks the whole table and removes the n-th entry met when chosen[n] is set: every entry is met once,
      exactly the chosen ones are gone afterwards, and the others are where they were. */
  method Walk<K(==), V>(h: Table<K, V>, chosen: seq<bool>) returns (met: seq<Entry<K, V>>)
    requires h.Valid() && |chosen| >= h.entrycount
    modifies h, h.table, h.cells
    ensures h.Valid() && h.table == old(h.table)
    ensures met == old(Flat(h.chains)) && |chosen| >= |met|
    ensures Flat(h.chains) == Kept(met, chosen)
  {
    hide Flat, Upto, From, Layout, ChainedAll, Kept;
    ghost var walk := Flat(h.chains);
    WalkMeetsEachOnce(h.chains, h.cells);
    var itr := new Iterator(h);
    met := [];
    assert chosen[0..] == chosen;
    Assoc(Kept(walk, chosen), [], []);
    Assoc(walk, [], []);
    while itr.e != null
      invariant itr.h == h && itr.Valid() && fresh(itr) && h.table == old(h.table) && h.cells <= old(h.cells)
      invariant walk == met + itr.Rest() && |walk| <= |chosen|
      invariant Kept(walk, chosen) == itr.Passed() + Kept(itr.Rest(), chosen[|met|..])
      decreases |itr.Rest()|
    {
      ghost var rest, passed := itr.Rest(), itr.Passed();
      RestOf(h.chains, itr.index, itr.pos);
      var e: Entry<K, V> := itr.e;
      if chosen[|met|] {
        var _ := itr.Remove();
      } else {
        var _ := itr.Advance();
      }
      WalkStep(walk, met, e, rest, itr.Rest(), passed, itr.Passed(), chosen);
      met := met + [e];
    }
    RestOf(h.chains, itr.index, itr.pos);
    KeptNone<K, V>(chosen[|met|..]);
    Split(h.chains, itr.index, itr.pos);
    Assoc(met, [], []);
    Assoc(itr.Passed(), [], []);
  }

  lemma RestOf<K, V>(chains: seq<seq<Entry<K, V>>>, index: nat, pos: nat)
    requires InRange(chains, index, pos) && (index < |chains| ==> pos < |chains[index]|)
    ensures if index < |chains| then From(chains, index, pos) != [] && From(chains, index, pos)[0] == chains[index][pos]
            else From(chains, index, pos) == []
  {}

  lemma KeptStep<K, V>(e: Entry<K, V>, rest: seq<Entry<K, V>>, chosen: seq<bool>, n: nat)
    requires n + 1 + |rest| <= |chosen|
    ensures Kept([e] + rest, chosen[n..]) == (if chosen[n] then [] else [e]) + Kept(rest, chosen[n + 1..])
  {}

  lemma WalkStep<K, V>(walk: seq<Entry<K, V>>, met: seq<Entry<K, V>>, e: Entry<K, V>, rest: seq<Entry<K, V>>,
                       rest': seq<Entry<K, V>>, passed: seq<Entry<K, V>>, passed': seq<Entry<K, V>>, chosen: seq<bool>)
    requires walk == met + rest && rest == [e] + rest' && |walk| <= |chosen|
    requires passed' == if chosen[|met|] then passed else passed + [e]
    requires Kept(walk, chosen) == passed + Kept(rest, chosen[|met|..])
    ensures walk == met + [e] + rest'
    ensures Kept(walk, chosen) == passed' + Kept(rest', chosen[|met + [e]|..])
  {
    hide Kept;
    Assoc(met, [e], rest');
    KeptStep(e, rest', chosen, |met|);
    JoinedKept(passed, e, Kept(rest', chosen[|met| + 1..]), chosen[|met|]);
  }

  lemma JoinedKept<K, V>(passed: seq<Entry<K, V>>, e: Entry<K, V>, kept: seq<Entry<K, V>>, taken: bool)
    ensures passed + ((if taken then [] else [e]) + kept) == (if taken then passed else passed + [e]) + kept
  {}

  lemma KeptNone<K, V>(chosen: seq<bool>)
    ensures Kept<K, V>([], chosen) == []
  {}
}
