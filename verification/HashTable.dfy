/** The chained hash table of the argument library, with its entries linked through the heap. */
module HashTable {
  import opened Wrappers

  /** An entry of a bucket's chain. Only its link changes after it has been created. */
  class Entry<K(==), V> {
    const h: nat
    const k: K
    const v: V
    var next: Entry?<K, V>

    constructor (h: nat, k: K, v: V, next: Entry?<K, V>)
      ensures this.h == h && this.k == k && this.v == v && this.next == next
    {
      this.h, this.k, this.v, this.next := h, k, v, next;
    }
  }

  // ---------------------------------------------------------------------------
  // Chains
  // ---------------------------------------------------------------------------

  ghost function At<K, V>(chain: seq<Entry<K, V>>, p: nat): Entry?<K, V> {
    if p < |chain| then chain[p] else null
  }

  /** The entries reached from head are those of the chain, in order, and all of them are cells. */
  ghost predicate Linked<K, V>(head: Entry?<K, V>, chain: seq<Entry<K, V>>, cells: set<Entry<K, V>>)
    reads cells
  {
    && head == At(chain, 0)
    && forall p :: 0 <= p < |chain| ==> chain[p] in cells && chain[p].next == At(chain, p + 1)
  }

  ghost predicate Distinct<K, V>(chain: seq<Entry<K, V>>) {
    forall p, q :: 0 <= p < q < |chain| ==> chain[p] != chain[q]
  }

  /** The bucket of an entry in a table of n buckets. */
  function Home<K, V>(e: Entry<K, V>, n: nat): (b: nat)
    requires n > 0
    ensures b < n
  {
    e.h % n
  }

  /** The buckets hold the cells, each one once and in its own bucket. */
  ghost predicate Layout<K, V>(chains: seq<seq<Entry<K, V>>>, cells: set<Entry<K, V>>) {
    && |chains| > 0
    && (forall b :: 0 <= b < |chains| ==> Distinct(chains[b]))
    && (forall b, i :: 0 <= b < |chains| && 0 <= i < |chains[b]| ==> chains[b][i] in cells && Home(chains[b][i], |chains|) == b)
    && (forall e :: e in cells ==> e in chains[Home(e, |chains|)])
  }

  /** The chains of a new table. */
  ghost function Empties<K, V>(n: nat): (chains: seq<seq<Entry<K, V>>>)
    ensures |chains| == n
  {
    seq(n, _ => [])
  }

  /** All the entries in the order in which the buckets are walked. */
  ghost function Flat<K, V>(chains: seq<seq<Entry<K, V>>>): seq<Entry<K, V>> {
    if chains == [] then [] else chains[0] + Flat(chains[1..])
  }

  /** The value of the first entry of the chain with the key. */
  ghost function Lookup<K, V>(chain: seq<Entry<K, V>>, k: K): Option<V> {
    if chain == [] then None
    else if chain[0].k == k then Some(chain[0].v)
    else Lookup(chain[1..], k)
  }

  /** The chain without the first entry that has the key. */
  ghost function Drop<K, V>(chain: seq<Entry<K, V>>, k: K): seq<Entry<K, V>> {
    if chain == [] then []
    else if chain[0].k == k then chain[1..]
    else [chain[0]] + Drop(chain[1..], k)
  }

  /** What pushing the entries one by one, each in front of its bucket of n, leaves in bucket b. */
  ghost function Bucket<K, V>(es: seq<Entry<K, V>>, n: nat, b: nat): seq<Entry<K, V>>
    requires n > 0
  {
    if es == [] then []
    else
      var last := es[|es| - 1];
      (if Home(last, n) == b then [last] else []) + Bucket(es[..|es| - 1], n, b)
  }

  /** The chains of the table after the entries have been moved to n buckets. */
  ghost function Rehash<K, V>(chains: seq<seq<Entry<K, V>>>, n: nat): seq<seq<Entry<K, V>>>
    requires n > 0
  {
    seq(n, b requires 0 <= b < n => Bucket(Flat(chains), n, b))
  }

  ghost predicate ChainedAll<K, V>(a: array<Entry?<K, V>>, chains: seq<seq<Entry<K, V>>>, cells: set<Entry<K, V>>)
    reads a, cells
  {
    && |chains| == a.Length
    && forall b :: 0 <= b < a.Length ==> Linked(a[b], chains[b], cells)
  }

  // ---------------------------------------------------------------------------
  // What the operations do to the layout
  // ---------------------------------------------------------------------------

  lemma LayoutPush<K, V>(chains: seq<seq<Entry<K, V>>>, cells: set<Entry<K, V>>, e: Entry<K, V>)
    requires Layout(chains, cells) && e !in cells
    ensures var b := Home(e, |chains|); Layout(chains[b := [e] + chains[b]], cells + {e})
  {}

  lemma LayoutCut<K, V>(chains: seq<seq<Entry<K, V>>>, cells: set<Entry<K, V>>, b: nat, p: nat)
    requires Layout(chains, cells) && b < |chains| && p < |chains[b]|
    ensures Layout(chains[b := chains[b][..p] + chains[b][p + 1..]], cells - {chains[b][p]})
    ensures chains[b][p] in cells
  {}

  lemma {:induction false} DropIsCut<K, V>(chain: seq<Entry<K, V>>, p: nat, k: K)
    requires p <= |chain| && forall q :: 0 <= q < p ==> chain[q].k != k
    requires p < |chain| ==> chain[p].k == k
    ensures Drop(chain, k) == if p == |chain| then chain else chain[..p] + chain[p + 1..]
  {
    if p > 0 {
      DropIsCut(chain[1..], p - 1, k);
    }
  }

  /** Every entry's stored hash is that of its key. */
  ghost predicate Hashed<K, V>(cells: set<Entry<K, V>>, hash: K -> nat) {
    forall e :: e in cells ==> e.h == hash(e.k)
  }

  lemma OtherKey<K, V>(cells: set<Entry<K, V>>, hash: K -> nat, e: Entry<K, V>, k: K)
    requires Hashed(cells, hash) && e in cells && !(e.h == hash(k) && e.k == k)
    ensures e.k != k
  {}

  /** A key that is not in its bucket is not in the table. */
  lemma Missing<K, V>(chains: seq<seq<Entry<K, V>>>, cells: set<Entry<K, V>>, hash: K -> nat, k: K)
    requires Layout(chains, cells) && Hashed(cells, hash)
    requires var b := hash(k) % |chains|; forall p :: 0 <= p < |chains[b]| ==> chains[b][p].k != k
    ensures forall e :: e in cells ==> e.k != k
  {}

  /** The value of the last entry of the chain with the key. */
  ghost function LookupLast<K, V>(chain: seq<Entry<K, V>>, k: K): Option<V> {
    if chain == [] then None
    else if chain[|chain| - 1].k == k then Some(chain[|chain| - 1].v)
    else LookupLast(chain[..|chain| - 1], k)
  }

  lemma {:induction false} LookupLastConcat<K, V>(a: seq<Entry<K, V>>, b: seq<Entry<K, V>>, k: K)
    ensures LookupLast(a + b, k) == if LookupLast(b, k).Some? then LookupLast(b, k) else LookupLast(a, k)
  {
    if b == [] {
      assert a + b == a;
    } else {
      assert (a + b)[..|a + b| - 1] == a + b[..|b| - 1];
      LookupLastConcat(a, b[..|b| - 1], k);
    }
  }

  lemma {:induction false} LookupLastMisses<K, V>(chain: seq<Entry<K, V>>, k: K)
    requires forall p :: 0 <= p < |chain| ==> chain[p].k != k
    ensures LookupLast(chain, k) == None
  {
    if chain != [] {
      LookupLastMisses(chain[..|chain| - 1], k);
    }
  }

  lemma {:induction false} BucketLookup<K, V>(es: seq<Entry<K, V>>, n: nat, b: nat, k: K)
    requires n > 0 && forall p :: 0 <= p < |es| && es[p].k == k ==> Home(es[p], n) == b
    ensures Lookup(Bucket(es, n, b), k) == LookupLast(es, k)
  {
    if es != [] {
      var last := es[|es| - 1];
      BucketLookup(es[..|es| - 1], n, b, k);
      var rest := Bucket(es[..|es| - 1], n, b);
      assert [] + rest == rest && ([last] + rest)[1..] == rest;
    }
  }

  /** Only the bucket b has entries with the key. */
  lemma {:induction false} FlatLookupLast<K, V>(chains: seq<seq<Entry<K, V>>>, b: nat, k: K)
    requires b < |chains|
    requires forall c, p :: 0 <= c < |chains| && c != b && 0 <= p < |chains[c]| ==> chains[c][p].k != k
    ensures LookupLast(Flat(chains), k) == LookupLast(chains[b], k)
    decreases |chains|
  {
    LookupLastConcat(chains[0], Flat(chains[1..]), k);
    if b == 0 {
      FlatMisses(chains[1..], k);
    } else {
      LookupLastMisses(chains[0], k);
      FlatLookupLast(chains[1..], b - 1, k);
    }
  }

  lemma {:induction false} FlatMisses<K, V>(chains: seq<seq<Entry<K, V>>>, k: K)
    requires forall c, p :: 0 <= c < |chains| && 0 <= p < |chains[c]| ==> chains[c][p].k != k
    ensures LookupLast(Flat(chains), k) == None
  {
    if chains != [] {
      LookupLastConcat(chains[0], Flat(chains[1..]), k);
      LookupLastMisses(chains[0], k);
      FlatMisses(chains[1..], k);
    }
  }

  lemma {:induction false} FlatHomes<K, V>(chains: seq<seq<Entry<K, V>>>, cells: set<Entry<K, V>>)
    requires forall c, p :: 0 <= c < |chains| && 0 <= p < |chains[c]| ==> chains[c][p] in cells
    ensures forall p :: 0 <= p < |Flat(chains)| ==> Flat(chains)[p] in cells
  {
    if chains != [] {
      FlatHomes(chains[1..], cells);
    }
  }

  /** Growing the table reverses the order of entries with equal keys: a search that found the first of them
      in its bucket finds the last of them afterwards. So searching for a key is unaffected exactly when
      the first and the last entry with that key have the same value. */
  lemma RehashFindsLast<K, V>(chains: seq<seq<Entry<K, V>>>, cells: set<Entry<K, V>>, hash: K -> nat, k: K, n: nat)
    requires n > 0 && Layout(chains, cells) && Hashed(cells, hash)
    ensures var before, after := chains[hash(k) % |chains|], Rehash(chains, n)[hash(k) % n];
            && Lookup(after, k) == LookupLast(before, k)
            && (Lookup(after, k) == Lookup(before, k) <==> Lookup(before, k) == LookupLast(before, k))
  {
    hide LookupLast, Lookup, Bucket, Flat;
    FlatHomes(chains, cells);
    BucketLookup(Flat(chains), n, hash(k) % n, k);
    FlatLookupLast(chains, hash(k) % |chains|, k);
  }

  lemma {:induction false} LookupUnique<K, V>(chain: seq<Entry<K, V>>, k: K)
    requires forall p, q :: 0 <= p < q < |chain| && chain[p].k == k ==> chain[q].k != k
    ensures Lookup(chain, k) == LookupLast(chain, k)
  {
    if chain != [] {
      LookupLastConcat([chain[0]], chain[1..], k);
      assert [chain[0]] + chain[1..] == chain && [chain[0]][..0] == [];
      if chain[0].k == k {
        LookupLastMisses(chain[1..], k);
      } else {
        LookupUnique(chain[1..], k);
      }
    }
  }

  /** With at most one entry for the key, growing the table does not affect the search for it. */
  lemma RehashKeepsUnique<K, V>(chains: seq<seq<Entry<K, V>>>, cells: set<Entry<K, V>>, hash: K -> nat, k: K, n: nat)
    requires n > 0 && Layout(chains, cells) && Hashed(cells, hash)
    requires forall e, f :: e in cells && f in cells && e.k == k && f.k == k ==> e == f
    ensures Lookup(Rehash(chains, n)[hash(k) % n], k) == Lookup(chains[hash(k) % |chains|], k)
  {
    hide LookupLast, Lookup, Rehash;
    RehashFindsLast(chains, cells, hash, k, n);
    LookupUnique(chains[hash(k) % |chains|], k);
  }

  /** Two entries with one key change places when the table grows. */
  lemma DuplicatesSwap<K, V>(a: Entry<K, V>, b: Entry<K, V>, n: nat)
    requires n > 0 && a.k == b.k && a.h == b.h
    ensures Lookup([a, b], a.k) == Some(a.v)
    ensures Lookup(Rehash([[a, b]], n)[a.h % n], a.k) == Some(b.v)
  {
    var chains := [[a, b]];
    assert chains[1..] == [];
    assert Flat(chains) == [a, b];
    assert [a, b][..1] == [a] && [a][..0] == [];
  }

  const PRIME_TABLE_LENGTH: nat := 26

  const PRIMES: seq<nat> := [
    53, 97, 193, 389, 769, 1543, 3079, 6151, 12289, 24593, 49157, 98317, 196613, 393241, 786433, 1572869, 3145739,
    6291469, 12582917, 25165843, 50331653, 100663319, 201326611, 402653189, 805306457, 1610612741]

  function Prime(i: nat): (p: nat)
    requires i < PRIME_TABLE_LENGTH
    ensures p > 0
  {
    PRIMES[i]
  }

  lemma {:induction false} FlatHead<K, V>(rest: seq<seq<Entry<K, V>>>, i: nat)
    requires i < |rest| && rest[i] != [] && forall b :: 0 <= b < i ==> rest[b] == []
    ensures Flat(rest) == [rest[i][0]] + Flat(rest[i := rest[i][1..]])
  {
    var rest' := rest[i := rest[i][1..]];
    if i == 0 {
      assert rest'[1..] == rest[1..];
    } else {
      FlatHead(rest[1..], i - 1);
      assert rest'[1..] == rest[1..][i - 1 := rest[i][1..]];
      assert Flat(rest) == Flat(rest[1..]) && Flat(rest') == Flat(rest'[1..]);
    }
  }

  lemma {:induction false} FlatEmpty<K, V>(rest: seq<seq<Entry<K, V>>>)
    requires forall b :: 0 <= b < |rest| ==> rest[b] == []
    ensures Flat(rest) == []
  {
    if rest != [] {
      FlatEmpty(rest[1..]);
    }
  }

  lemma BucketPush<K, V>(done: seq<Entry<K, V>>, e: Entry<K, V>, n: nat, b: nat)
    requires n > 0
    ensures Bucket(done + [e], n, b) == (if Home(e, n) == b then [e] else []) + Bucket(done, n, b)
  {}

  /** How far the entries of all have been moved: done are in the n buckets made, the others in rest. */
  ghost predicate Moved<K, V>(all: seq<Entry<K, V>>, rest: seq<seq<Entry<K, V>>>, done: seq<Entry<K, V>>,
                              made: seq<seq<Entry<K, V>>>)
  {
    && all == done + Flat(rest)
    && |made| > 0
    && forall b :: 0 <= b < |made| ==> made[b] == Bucket(done, |made|, b)
  }

  lemma MovedStep<K, V>(all: seq<Entry<K, V>>, rest: seq<seq<Entry<K, V>>>, done: seq<Entry<K, V>>,
                        made: seq<seq<Entry<K, V>>>, i: nat)
    requires Moved(all, rest, done, made)
    requires i < |rest| && rest[i] != [] && forall b :: 0 <= b < i ==> rest[b] == []
    ensures var e := rest[i][0];
            var h := Home(e, |made|);
            Moved(all, rest[i := rest[i][1..]], done + [e], made[h := [e] + made[h]])
  {
    hide Bucket, Flat;
    var e := rest[i][0];
    FlatHead(rest, i);
    forall b | 0 <= b < |made|
      ensures made[Home(e, |made|) := [e] + made[Home(e, |made|)]][b] == Bucket(done + [e], |made|, b)
    {
      BucketPush(done, e, |made|, b);
    }
  }

  lemma MovedAll<K, V>(chains: seq<seq<Entry<K, V>>>, rest: seq<seq<Entry<K, V>>>, done: seq<Entry<K, V>>,
                       made: seq<seq<Entry<K, V>>>)
    requires Moved(Flat(chains), rest, done, made) && forall b :: 0 <= b < |rest| ==> rest[b] == []
    ensures made == Rehash(chains, |made|)
  {
    FlatEmpty(rest);
    assert done == Flat(chains);
  }

  lemma LayoutEmpty<K, V>(rest: seq<seq<Entry<K, V>>>, cells: set<Entry<K, V>>)
    requires Layout(rest, cells) && forall b :: 0 <= b < |rest| ==> rest[b] == []
    ensures cells == {}
  {}

  /** The size is the listed prime, and the load limit the one of that size. */
  ghost predicate Sized(size: nat, primeindex: nat, loadlimit: nat, limit: nat -> nat)
    requires primeindex < PRIME_TABLE_LENGTH
  {
    size == Prime(primeindex) && loadlimit == limit(size)
  }

  // ---------------------------------------------------------------------------
  // The table
  // ---------------------------------------------------------------------------

  class Table<K(==), V> {
    var table: array<Entry?<K, V>>
    var entrycount: nat
    var loadlimit: nat
    var primeindex: nat
    const hash: K -> nat
    const limit: nat -> nat
    ghost var chains: seq<seq<Entry<K, V>>>
    ghost var cells: set<Entry<K, V>>

    constructor (size: nat, primeindex: nat, hash: K -> nat, limit: nat -> nat)
      requires primeindex < PRIME_TABLE_LENGTH && size == Prime(primeindex)
      ensures Valid() && fresh(table) && cells == {} && chains == Empties(table.Length) && table.Length == size
      ensures this.hash == hash && this.limit == limit
    {
      table := new Entry?<K, V>[size](_ => null);
      entrycount, loadlimit, this.primeindex := 0, limit(size), primeindex;
      this.hash, this.limit := hash, limit;
      chains, cells := Empties(size), {};
    }

    ghost predicate Valid()
      reads this, table, cells
    {
      && table.Length > 0 && ChainedAll(table, chains, cells)
      && Layout(chains, cells)
      && Hashed(cells, hash)
      && entrycount == |cells|
      && primeindex < PRIME_TABLE_LENGTH && Sized(table.Length, primeindex, loadlimit, limit)
    }

    /** The bucket a key belongs to. */
    function IndexFor(h: nat): (b: nat)
      requires table.Length > 0
      reads this
      ensures b < table.Length
    {
      h % table.Length
    }

    method Search(k: K) returns (r: Option<V>)
      requires Valid()
      ensures r == Lookup(chains[hash(k) % |chains|], k)
    {
      hide Sized;
      var hashvalue := hash(k);
      var index := IndexFor(hashvalue);
      ghost var chain, p := chains[index], 0;
      var e := table[index];
      while e != null
        invariant p <= |chain| && e == At(chain, p)
        invariant Lookup(chain, k) == Lookup(chain[p..], k)
        decreases |chain| - p
      {
        if hashvalue == e.h && k == e.k {
          return Some(e.v);
        }
        e, p := e.next, p + 1;
      }
      return None;
    }

    method Expand() returns (grown: bool)
      requires Valid()
      modifies this, table, cells
      ensures Valid() && cells == old(cells)
      ensures grown <==> old(primeindex) + 1 < PRIME_TABLE_LENGTH
      ensures !grown ==> table == old(table) && primeindex == old(primeindex) && chains == old(chains)
      ensures grown ==> fresh(table) && primeindex == old(primeindex) + 1
                        && chains == Rehash(old(chains), Prime(primeindex))
    {
      hide Layout, Linked, Rehash, Prime;
      if primeindex == PRIME_TABLE_LENGTH - 1 {
        return false;
      }
      primeindex := primeindex + 1;
      var newsize := Prime(primeindex);
      var newtable := new Entry?<K, V>[newsize](_ => null);
      MoveAll(table, newtable, chains, cells);
      chains := Rehash(chains, newsize);
      table := newtable;
      loadlimit := limit(newsize);
      return true;
    }

    /** The push at the end of an insertion. */
    method Push(k: K, v: V) returns (ghost e: Entry<K, V>)
      requires Valid()
      modifies this, table
      ensures Valid() && table == old(table) && primeindex == old(primeindex)
      ensures e !in old(cells) && fresh(e) && cells == old(cells) + {e} && e.k == k && e.v == v && e.h == hash(k)
      ensures chains == old(chains)[hash(k) % |old(chains)| := [e] + old(chains)[hash(k) % |old(chains)|]]
    {
      hide Layout, Linked, Sized;
      var hashvalue := hash(k);
      var index := IndexFor(hashvalue);
      var e' := new Entry(hashvalue, k, v, table[index]);
      e := e';
      LayoutPush(chains, cells, e);
      PushEntry(table, index, e', chains, cells);
      chains := chains[index := [e] + chains[index]];
      cells := cells + {e};
      entrycount := entrycount + 1;
    }

    method Insert(k: K, v: V) returns (ghost e: Entry<K, V>)
      requires Valid()
      modifies this, table, cells
      ensures Valid() && (table == old(table) || fresh(table))
      ensures e !in old(cells) && fresh(e) && cells == old(cells) + {e} && e.k == k && e.v == v && e.h == hash(k)
      ensures var grows := old(entrycount) + 1 > old(loadlimit) && old(primeindex) + 1 < PRIME_TABLE_LENGTH;
              var before := if grows then Rehash(old(chains), Prime(old(primeindex) + 1)) else old(chains);
              chains == before[hash(k) % |before| := [e] + before[hash(k) % |before|]]
              && primeindex == old(primeindex) + (if grows then 1 else 0)
    {
      hide Layout, ChainedAll, Rehash, Prime;
      if entrycount + 1 > loadlimit {
        var _ := Expand();
      }
      e := Push(k, v);
    }

    /** The result is the table's entry count, which is the number of its entries. */
    function Count(): (n: nat)
      requires Valid()
      reads this, table, cells
      ensures n == |cells|
    {
      entrycount
    }

    /** Takes e, the entry at position p of bucket index, out of the table; prev is the entry in front of it. */
    method Cut(index: nat, prev: Entry?<K, V>, e: Entry<K, V>, ghost p: nat)
      requires Valid() && index < |chains| && p < |chains[index]|
      requires e == chains[index][p] && prev == (if p == 0 then null else chains[index][p - 1])
      modifies this, table, prev
      ensures Valid() && table == old(table) && primeindex == old(primeindex)
      ensures e in old(cells) && cells == old(cells) - {e}
      ensures chains == old(chains)[index := old(chains)[index][..p] + old(chains)[index][p + 1..]]
      ensures e.next == old(e.next)
    {
      hide Layout, Linked, Sized;
      LayoutCut(chains, cells, index, p);
      Apart(chains, cells, index, p);
      Unlink(table, index, prev, e, chains, cells, p);
      chains := chains[index := chains[index][..p] + chains[index][p + 1..]];
      cells := cells - {e};
      entrycount := entrycount - 1;
    }

    /** The walk of a removal: to the first entry of the bucket with the key, or to the end of the chain. */
    method Locate(k: K) returns (index: nat, prev: Entry?<K, V>, e: Entry?<K, V>, ghost p: nat)
      requires Valid()
      ensures index == hash(k) % |chains| < |chains| && p <= |chains[index]|
      ensures e == At(chains[index], p) && prev == (if p == 0 then null else chains[index][p - 1])
      ensures prev != null ==> prev in cells
      ensures (e != null ==> e.k == k) && forall q :: 0 <= q < p ==> chains[index][q].k != k
    {
      hide Layout, Linked, ChainedAll, Hashed, Sized;
      var hashvalue := hash(k);
      index := IndexFor(hashvalue);
      HeadOf(table, chains, cells, index);
      p, prev, e := 0, null, table[index];
      while e != null
        invariant p <= |chains[index]| && e == At(chains[index], p)
        invariant prev == (if p == 0 then null else chains[index][p - 1]) && (prev != null ==> prev in cells)
        invariant forall q :: 0 <= q < p ==> chains[index][q].k != k
        decreases |chains[index]| - p
      {
        NextOf(table, chains, cells, index, p);
        if hashvalue == e.h && k == e.k {
          return;
        }
        OtherKey(cells, hash, e, k);
        prev, e, p := e, e.next, p + 1;
      }
    }

    /** Takes the first entry with the key out of its bucket, if there is one. */
    method Remove(k: K) returns (ghost victim: Entry?<K, V>)
      requires Valid()
      modifies this, table, cells
      ensures Valid() && table == old(table) && primeindex == old(primeindex)
      ensures victim == null ==> cells == old(cells) && forall e :: e in cells ==> e.k != k
      ensures victim != null ==> victim in old(cells) && victim.k == k && cells == old(cells) - {victim}
      ensures var b := hash(k) % |old(chains)|;
              chains == old(chains)[b := Drop(old(chains)[b], k)]
    {
      hide Layout, Drop, Sized, ChainedAll;
      ghost var p;
      var index, prev, e;
      index, prev, e, p := Locate(k);
      DropIsCut(chains[index], p, k);
      if e == null {
        Missing(chains, cells, hash, k);
      } else {
        Cut(index, prev, e, p);
      }
      return e;
    }
  }

  /** A new table with the first listed size above minsize; none is made for a size above 2^30. */
  method Create<K, V>(minsize: nat, hash: K -> nat, limit: nat -> nat) returns (t: Table?<K, V>)
    ensures t == null <==> minsize > 0x4000_0000
    ensures t != null ==> fresh(t) && fresh(t.table) && t.Valid() && t.cells == {} && t.hash == hash && t.limit == limit
    ensures t != null ==> exists p :: 0 <= p < PRIME_TABLE_LENGTH && Prime(p) == t.table.Length > minsize
                                      && forall q :: 0 <= q < p ==> Prime(q) <= minsize
  {
    if minsize > 0x4000_0000 {
      return null;
    }
    var pindex := 0;
    while pindex < PRIME_TABLE_LENGTH && Prime(pindex) <= minsize
      invariant 0 <= pindex <= PRIME_TABLE_LENGTH
      invariant forall q :: 0 <= q < pindex ==> Prime(q) <= minsize
    {
      pindex := pindex + 1;
    }
    assert Prime(PRIME_TABLE_LENGTH - 1) == 1610612741;
    t := new Table(Prime(pindex), pindex, hash, limit);
  }

  /** Links e in front of bucket b. */
  method PushEntry<K, V>(a: array<Entry?<K, V>>, b: nat, e: Entry<K, V>,
                         ghost chains: seq<seq<Entry<K, V>>>, ghost cells: set<Entry<K, V>>)
    requires ChainedAll(a, chains, cells) && b < a.Length && e !in cells && e.next == a[b]
    modifies a
    ensures ChainedAll(a, chains[b := [e] + chains[b]], cells + {e})
  {
    a[b] := e;
    ghost var chain := [e] + chains[b];
    assert forall p :: 1 <= p < |chain| ==> chain[p] == chains[b][p - 1];
  }

  /** Takes e, the entry at position p of bucket b, out of its chain; prev is the entry in front of it. */
  method Unlink<K, V>(a: array<Entry?<K, V>>, b: nat, prev: Entry?<K, V>, e: Entry<K, V>,
                      ghost chains: seq<seq<Entry<K, V>>>, ghost cells: set<Entry<K, V>>, ghost p: nat)
    requires ChainedAll(a, chains, cells) && Layout(chains, cells)
    requires b < a.Length && p < |chains[b]| && e == chains[b][p] && prev == (if p == 0 then null else chains[b][p - 1])
    modifies a, prev
    ensures e.next == old(e.next)
    ensures ChainedAll(a, chains[b := chains[b][..p] + chains[b][p + 1..]], cells - {e})
  {
    hide Layout, Distinct;
    Apart(chains, cells, b, p);
    ghost var chain, cut, rest := chains[b], chains[b][..p] + chains[b][p + 1..], cells - {e};
    if prev == null {
      a[b] := e.next;
      assert Linked(a[b], cut, rest);
    } else {
      Apart(chains, cells, b, p - 1);
      prev.next := e.next;
      assert Linked(a[b], cut, rest) by {
        forall q | 0 <= q < |cut|
          ensures cut[q] in rest && cut[q].next == At(cut, q + 1)
        {
          assert cut[q] == if q < p then chain[q] else chain[q + 1];
        }
      }
    }
  }

  lemma HeadOf<K, V>(a: array<Entry?<K, V>>, chains: seq<seq<Entry<K, V>>>, cells: set<Entry<K, V>>, b: nat)
    requires ChainedAll(a, chains, cells) && b < a.Length
    ensures |chains| == a.Length && a[b] == At(chains[b], 0) && (a[b] != null ==> a[b] in cells)
  {}

  lemma NextOf<K, V>(a: array<Entry?<K, V>>, chains: seq<seq<Entry<K, V>>>, cells: set<Entry<K, V>>, b: nat, p: nat)
    requires ChainedAll(a, chains, cells) && b < |chains| && p < |chains[b]|
    ensures chains[b][p] in cells
    ensures chains[b][p].next == At(chains[b], p + 1)
  {}

  lemma ChainedLength<K, V>(a: array<Entry?<K, V>>, chains: seq<seq<Entry<K, V>>>, cells: set<Entry<K, V>>)
    requires ChainedAll(a, chains, cells)
    ensures |chains| == a.Length
  {}

  /** Moves the first entry of bucket i to the front of its bucket in the new table. */
  method MoveHead<K, V>(a: array<Entry?<K, V>>, i: nat, a': array<Entry?<K, V>>, ghost cells: set<Entry<K, V>>,
                        ghost rest: seq<seq<Entry<K, V>>>, ghost left: set<Entry<K, V>>,
                        ghost made: seq<seq<Entry<K, V>>>, ghost moved: set<Entry<K, V>>) returns (e: Entry<K, V>)
    requires i < a.Length && a[i] != null
    requires Moving(a, a', cells, rest, left, made, moved)
    modifies a, a', left
    ensures i < |rest| && rest[i] != [] && rest[i][0] == e && |made| > 0
    ensures var h := Home(e, |made|);
            Moving(a, a', cells, rest[i := rest[i][1..]], left - {e}, made[h := [e] + made[h]], moved + {e})
  {
    hide Layout, Linked, ChainedAll, Distinct;
    e := a[i];
    HeadOf(a, rest, left, i);
    ChainedLength(a', made, moved);
    LayoutCut(rest, left, i, 0);
    LayoutPush(made, moved, e);
    assert rest[i][..0] + rest[i][1..] == rest[i][1..];
    Unlink(a, i, null, e, rest, left, 0);
    var index := Home(e, a'.Length);
    e.next := a'[index];
    PushEntry(a', index, e, made, moved);
  }

  /** The entries of a that are still to be moved are in rest; those that have been moved are in made. */
  ghost predicate Moving<K, V>(a: array<Entry?<K, V>>, a': array<Entry?<K, V>>, cells: set<Entry<K, V>>,
                               rest: seq<seq<Entry<K, V>>>, left: set<Entry<K, V>>,
                               made: seq<seq<Entry<K, V>>>, moved: set<Entry<K, V>>)
    reads a, a', left, moved
  {
    && a != a' && ChainedAll(a, rest, left) && ChainedAll(a', made, moved)
    && Layout(rest, left) && Layout(made, moved) && left !! moved && left + moved == cells
  }

  lemma MovingStarts<K, V>(a: array<Entry?<K, V>>, a': array<Entry?<K, V>>,
                           chains: seq<seq<Entry<K, V>>>, cells: set<Entry<K, V>>)
    requires a != a' && ChainedAll(a, chains, cells) && Layout(chains, cells)
    requires a'.Length > 0 && forall b :: 0 <= b < a'.Length ==> a'[b] == null
    ensures Moving(a, a', cells, chains, cells, Empties(a'.Length), {})
    ensures |chains| == a.Length && Moved(Flat(chains), chains, [], Empties(a'.Length))
  {}

  lemma MovingEnds<K, V>(a: array<Entry?<K, V>>, a': array<Entry?<K, V>>,
                         chains: seq<seq<Entry<K, V>>>, cells: set<Entry<K, V>>,
                         rest: seq<seq<Entry<K, V>>>, left: set<Entry<K, V>>, done: seq<Entry<K, V>>,
                         made: seq<seq<Entry<K, V>>>, moved: set<Entry<K, V>>)
    requires a'.Length > 0 && Moving(a, a', cells, rest, left, made, moved) && Moved(Flat(chains), rest, done, made)
    requires forall b :: 0 <= b < |rest| ==> rest[b] == []
    ensures ChainedAll(a', Rehash(chains, a'.Length), cells) && Layout(Rehash(chains, a'.Length), cells)
  {
    hide Layout, Rehash, Moved, Flat;
    LayoutEmpty(rest, left);
    ChainedLength(a', made, moved);
    MovedAll(chains, rest, done, made);
    assert moved == cells;
  }

  lemma MovingHead<K, V>(a: array<Entry?<K, V>>, a': array<Entry?<K, V>>, cells: set<Entry<K, V>>,
                         rest: seq<seq<Entry<K, V>>>, left: set<Entry<K, V>>,
                         made: seq<seq<Entry<K, V>>>, moved: set<Entry<K, V>>, i: nat)
    requires Moving(a, a', cells, rest, left, made, moved) && i < a.Length
    ensures |rest| == a.Length && a[i] == At(rest[i], 0) && |made| == a'.Length > 0 && left <= cells
  {}

  /** Moves all the entries of a to the empty table a'. */
  method MoveAll<K, V>(a: array<Entry?<K, V>>, a': array<Entry?<K, V>>,
                       ghost chains: seq<seq<Entry<K, V>>>, ghost cells: set<Entry<K, V>>)
    requires a != a' && ChainedAll(a, chains, cells) && Layout(chains, cells)
    requires a'.Length > 0 && forall b :: 0 <= b < a'.Length ==> a'[b] == null
    modifies a, a', cells
    ensures ChainedAll(a', Rehash(chains, a'.Length), cells) && Layout(Rehash(chains, a'.Length), cells)
  {
    hide *;
    ghost var rest, done, made := chains, [], Empties(a'.Length);
    ghost var left, moved := cells, {};
    MovingStarts(a, a', chains, cells);
    var i := 0;
    while i < a.Length
      invariant 0 <= i <= a.Length && |rest| == a.Length
      invariant Moving(a, a', cells, rest, left, made, moved) && Moved(Flat(chains), rest, done, made)
      invariant forall b :: 0 <= b < i ==> rest[b] == []
    {
      MovingHead(a, a', cells, rest, left, made, moved, i);
      while a[i] != null
        invariant |rest| == a.Length && a[i] == At(rest[i], 0)
        invariant Moving(a, a', cells, rest, left, made, moved) && Moved(Flat(chains), rest, done, made)
        invariant forall b :: 0 <= b < i ==> rest[b] == []
        decreases |rest[i]|
      {
        MovingHead(a, a', cells, rest, left, made, moved, i);
        var e := MoveHead(a, i, a', cells, rest, left, made, moved);
        MovedStep(Flat(chains), rest, done, made, i);
        ghost var h := Home(e, |made|);
        rest, done, made := rest[i := rest[i][1..]], done + [e], made[h := [e] + made[h]];
        left, moved := left - {e}, moved + {e};
        MovingHead(a, a', cells, rest, left, made, moved, i);
      }
      EmptyAt(rest[i]);
      i := i + 1;
    }
    MovingEnds(a, a', chains, cells, rest, left, done, made, moved);
  }

  lemma EmptyAt<K, V>(chain: seq<Entry<K, V>>)
    requires At(chain, 0) == null
    ensures chain == []
  {}

  lemma Apart<K, V>(chains: seq<seq<Entry<K, V>>>, cells: set<Entry<K, V>>, b: nat, p: nat)
    requires Layout(chains, cells) && b < |chains| && p < |chains[b]|
    ensures forall q :: 0 <= q < |chains[b]| && q != p ==> chains[b][q] != chains[b][p]
    ensures forall c, q :: 0 <= c < |chains| && c != b && 0 <= q < |chains[c]| ==> chains[c][q] != chains[b][p]
  {}
}
