/** The merge sort of the argument library: it takes ties from the right half, so equal elements
    come out in the reverse of their original order. */
module MergeSort {

  // ---------------------------------------------------------------------------
  // What is computed
  // ---------------------------------------------------------------------------

  ghost function Merge<T>(l: seq<T>, r: seq<T>, cmp: (T, T) -> int): (m: seq<T>)
    ensures |m| == |l| + |r|
    decreases |l| + |r|
  {
    if l == [] then r
    else if r == [] then l
    else if cmp(l[0], r[0]) < 0 then [l[0]] + Merge(l[1..], r, cmp)
    else [r[0]] + Merge(l, r[1..], cmp)
  }

  ghost function Sort<T>(s: seq<T>, cmp: (T, T) -> int): (t: seq<T>)
    ensures |t| == |s|
    decreases |s|
  {
    if |s| <= 1 then s
    else Merge(Sort(s[..|s| / 2], cmp), Sort(s[|s| / 2..], cmp), cmp)
  }

  // ---------------------------------------------------------------------------
  // What it means
  // ---------------------------------------------------------------------------

  /** The comparator is a total preorder. */
  ghost predicate Preorder<T(!new)>(cmp: (T, T) -> int) {
    && (forall a, b :: cmp(a, b) < 0 <==> cmp(b, a) > 0)
    && (forall a, b, c :: cmp(a, b) <= 0 && cmp(b, c) <= 0 ==> cmp(a, c) <= 0)
  }

  ghost predicate Sorted<T>(s: seq<T>, cmp: (T, T) -> int) {
    forall i, j :: 0 <= i < j < |s| ==> cmp(s[i], s[j]) <= 0
  }

  /** The elements that compare equal to x, in order. */
  ghost function Ties<T>(s: seq<T>, x: T, cmp: (T, T) -> int): seq<T> {
    if s == [] then []
    else (if cmp(s[0], x) == 0 then [s[0]] else []) + Ties(s[1..], x, cmp)
  }

  ghost function Reverse<T>(s: seq<T>): (r: seq<T>)
    ensures |r| == |s|
  {
    if s == [] then [] else Reverse(s[1..]) + [s[0]]
  }

  /** Insertion sort, which keeps equal elements in order. */
  ghost function Insert<T>(x: T, s: seq<T>, cmp: (T, T) -> int): seq<T> {
    if s == [] || cmp(x, s[0]) <= 0 then [x] + s else [s[0]] + Insert(x, s[1..], cmp)
  }

  ghost function StableSort<T>(s: seq<T>, cmp: (T, T) -> int): seq<T> {
    if s == [] then [] else Insert(s[0], StableSort(s[1..], cmp), cmp)
  }

  // ---------------------------------------------------------------------------
  // Permutation, for every comparator
  // ---------------------------------------------------------------------------

  lemma BagCons<T>(x: T, s: seq<T>)
    ensures multiset([x] + s) == multiset{x} + multiset(s)
  {}

  lemma BagFirst<T>(s: seq<T>)
    requires s != []
    ensures multiset(s) == multiset{s[0]} + multiset(s[1..])
  {
    assert s == [s[0]] + s[1..];
  }

  lemma BagConcat<T>(a: seq<T>, b: seq<T>)
    ensures multiset(a + b) == multiset(a) + multiset(b)
  {}

  lemma {:induction false} MergeKeeps<T>(l: seq<T>, r: seq<T>, cmp: (T, T) -> int)
    ensures multiset(Merge(l, r, cmp)) == multiset(l) + multiset(r)
    decreases |l| + |r|
  {
    if l != [] && r != [] {
      if cmp(l[0], r[0]) < 0 {
        MergeKeeps(l[1..], r, cmp);
        BagCons(l[0], Merge(l[1..], r, cmp));
        BagFirst(l);
      } else {
        MergeKeeps(l, r[1..], cmp);
        BagCons(r[0], Merge(l, r[1..], cmp));
        BagFirst(r);
      }
    }
  }

  lemma SortHalves<T>(s: seq<T>, cmp: (T, T) -> int)
    requires |s| > 1
    ensures Sort(s, cmp) == Merge(Sort(s[..|s| / 2], cmp), Sort(s[|s| / 2..], cmp), cmp)
  {}

  lemma BagHalves<T>(s: seq<T>, i: nat)
    requires i <= |s|
    ensures multiset(s) == multiset(s[..i]) + multiset(s[i..])
  {
    assert s == s[..i] + s[i..];
    BagConcat(s[..i], s[i..]);
  }

  lemma {:induction false} SortKeeps<T>(s: seq<T>, cmp: (T, T) -> int)
    ensures multiset(Sort(s, cmp)) == multiset(s)
    decreases |s|
  {
    if |s| > 1 {
      hide Merge, Sort;
      SortHalves(s, cmp);
      var l, r := s[..|s| / 2], s[|s| / 2..];
      SortKeeps(l, cmp);
      SortKeeps(r, cmp);
      MergeKeeps(Sort(l, cmp), Sort(r, cmp), cmp);
      BagHalves(s, |s| / 2);
    }
  }

  // ---------------------------------------------------------------------------
  // Order
  // ---------------------------------------------------------------------------

  ghost predicate Below<T>(x: T, s: seq<T>, cmp: (T, T) -> int) {
    forall i :: 0 <= i < |s| ==> cmp(x, s[i]) <= 0
  }

  lemma SortedCons<T>(x: T, s: seq<T>, cmp: (T, T) -> int)
    requires Sorted(s, cmp) && Below(x, s, cmp)
    ensures Sorted([x] + s, cmp)
  {}

  lemma {:induction false} MergeBelow<T>(x: T, l: seq<T>, r: seq<T>, cmp: (T, T) -> int)
    requires Below(x, l, cmp) && Below(x, r, cmp)
    ensures Below(x, Merge(l, r, cmp), cmp)
    decreases |l| + |r|
  {
    if l != [] && r != [] {
      if cmp(l[0], r[0]) < 0 {
        MergeBelow(x, l[1..], r, cmp);
      } else {
        MergeBelow(x, l, r[1..], cmp);
      }
    }
  }

  lemma HeadBelow<T(!new)>(x: T, s: seq<T>, cmp: (T, T) -> int)
    requires Preorder(cmp) && Sorted(s, cmp) && s != [] && cmp(x, s[0]) <= 0
    ensures Below(x, s, cmp)
  {}

  lemma {:induction false} MergeSorted<T(!new)>(l: seq<T>, r: seq<T>, cmp: (T, T) -> int)
    requires Preorder(cmp) && Sorted(l, cmp) && Sorted(r, cmp)
    ensures Sorted(Merge(l, r, cmp), cmp)
    decreases |l| + |r|
  {
    if l != [] && r != [] {
      if cmp(l[0], r[0]) < 0 {
        MergeSorted(l[1..], r, cmp);
        HeadBelow(l[0], r, cmp);
        MergeBelow(l[0], l[1..], r, cmp);
        SortedCons(l[0], Merge(l[1..], r, cmp), cmp);
      } else {
        MergeSorted(l, r[1..], cmp);
        assert cmp(r[0], l[0]) <= 0;
        HeadBelow(r[0], l, cmp);
        MergeBelow(r[0], l, r[1..], cmp);
        SortedCons(r[0], Merge(l, r[1..], cmp), cmp);
      }
    }
  }

  lemma {:induction false} SortSorted<T(!new)>(s: seq<T>, cmp: (T, T) -> int)
    requires Preorder(cmp)
    ensures Sorted(Sort(s, cmp), cmp)
    decreases |s|
  {
    if |s| > 1 {
      var h := |s| / 2;
      SortSorted(s[..h], cmp);
      SortSorted(s[h..], cmp);
      MergeSorted(Sort(s[..h], cmp), Sort(s[h..], cmp), cmp);
    }
  }

  // ---------------------------------------------------------------------------
  // Ties
  // ---------------------------------------------------------------------------

  lemma {:induction false} TiesConcat<T>(a: seq<T>, b: seq<T>, x: T, cmp: (T, T) -> int)
    ensures Ties(a + b, x, cmp) == Ties(a, x, cmp) + Ties(b, x, cmp)
  {
    if a == [] {
      assert a + b == b;
    } else {
      hide Ties;
      TiesFirst(a, x, cmp);
      TiesConcat(a[1..], b, x, cmp);
      assert a + b == [a[0]] + (a[1..] + b);
      TiesCons(a[0], a[1..] + b, x, cmp);
      Assoc(if cmp(a[0], x) == 0 then [a[0]] else [], Ties(a[1..], x, cmp), Ties(b, x, cmp));
    }
  }

  lemma Flip<T(!new)>(a: T, b: T, cmp: (T, T) -> int)
    requires Preorder(cmp)
    ensures cmp(a, b) < 0 <==> cmp(b, a) > 0
    ensures cmp(a, b) == 0 <==> cmp(b, a) == 0
  {}

  lemma Transitive<T(!new)>(a: T, b: T, c: T, cmp: (T, T) -> int)
    requires Preorder(cmp) && cmp(a, b) <= 0 && cmp(b, c) <= 0
    ensures cmp(a, c) <= 0
    ensures cmp(a, b) < 0 || cmp(b, c) < 0 ==> cmp(a, c) < 0
  {}

  /** x is strictly smaller than everything in s. */
  ghost predicate StrictlyBelow<T>(x: T, s: seq<T>, cmp: (T, T) -> int) {
    forall i :: 0 <= i < |s| ==> cmp(x, s[i]) < 0
  }

  lemma {:induction false} NoTies<T(!new)>(s: seq<T>, x: T, cmp: (T, T) -> int)
    requires Preorder(cmp) && StrictlyBelow(x, s, cmp)
    ensures Ties(s, x, cmp) == []
  {
    if s != [] {
      Flip(x, s[0], cmp);
      NoTies(s[1..], x, cmp);
    }
  }

  /** What ties with an element smaller than the first of a sorted sequence is smaller than all of it. */
  lemma TieBelow<T(!new)>(x: T, a: T, s: seq<T>, cmp: (T, T) -> int)
    requires Preorder(cmp) && Sorted(s, cmp) && s != [] && cmp(a, x) == 0 && cmp(a, s[0]) < 0
    ensures StrictlyBelow(x, s, cmp)
  {}

  lemma TiesCons<T>(a: T, s: seq<T>, x: T, cmp: (T, T) -> int)
    ensures Ties([a] + s, x, cmp) == (if cmp(a, x) == 0 then [a] else []) + Ties(s, x, cmp)
  {}

  lemma SortedTail<T>(s: seq<T>, cmp: (T, T) -> int)
    requires Sorted(s, cmp) && s != []
    ensures Sorted(s[1..], cmp)
  {}

  lemma Assoc<T>(a: seq<T>, b: seq<T>, c: seq<T>)
    ensures a + b + c == a + (b + c)
    ensures [] + a == a == a + []
  {}

  lemma TiesFirst<T>(s: seq<T>, x: T, cmp: (T, T) -> int)
    requires s != []
    ensures Ties(s, x, cmp) == (if cmp(s[0], x) == 0 then [s[0]] else []) + Ties(s[1..], x, cmp)
  {}

  lemma NoneTies<T>(x: T, cmp: (T, T) -> int)
    ensures Ties([], x, cmp) == []
  {}

  /** Merging puts the ties of the right half in front of those of the left half. */
  lemma {:induction false} MergeTies<T(!new)>(l: seq<T>, r: seq<T>, x: T, cmp: (T, T) -> int)
    requires Preorder(cmp) && Sorted(l, cmp) && Sorted(r, cmp)
    ensures Ties(Merge(l, r, cmp), x, cmp) == Ties(r, x, cmp) + Ties(l, x, cmp)
    decreases |l| + |r|
  {
    hide Preorder, Sorted, StrictlyBelow, Ties;
    NoneTies(x, cmp);
    Assoc(Ties(l, x, cmp), [], []);
    Assoc(Ties(r, x, cmp), [], []);
    if l != [] && r != [] {
      var tl, tr := Ties(l[1..], x, cmp), Ties(r[1..], x, cmp);
      if cmp(l[0], r[0]) < 0 {
        SortedTail(l, cmp);
        MergeTies(l[1..], r, x, cmp);
        TiesCons(l[0], Merge(l[1..], r, cmp), x, cmp);
        TiesFirst(l, x, cmp);
        Assoc(Ties(r, x, cmp) + tl, [], []);
        Assoc(tl, [], []);
        if cmp(l[0], x) == 0 {
          TieBelow(x, l[0], r, cmp);
          NoTies(r, x, cmp);
          Assoc([l[0]] + tl, [], []);
        }
      } else {
        SortedTail(r, cmp);
        MergeTies(l, r[1..], x, cmp);
        TiesCons(r[0], Merge(l, r[1..], cmp), x, cmp);
        TiesFirst(r, x, cmp);
        Assoc(if cmp(r[0], x) == 0 then [r[0]] else [], tr, Ties(l, x, cmp));
      }
    }
  }

  lemma {:induction false} ReverseConcat<T>(a: seq<T>, b: seq<T>)
    ensures Reverse(a + b) == Reverse(b) + Reverse(a)
  {
    if a == [] {
      assert a + b == b;
    } else {
      assert (a + b)[1..] == a[1..] + b;
      ReverseConcat(a[1..], b);
    }
  }

  /** Equal elements come out in the reverse of their original order. */
  lemma {:induction false} SortTies<T(!new)>(s: seq<T>, x: T, cmp: (T, T) -> int)
    requires Preorder(cmp)
    ensures Ties(Sort(s, cmp), x, cmp) == Ties(Reverse(s), x, cmp)
    decreases |s|
  {
    if |s| <= 1 {
      assert |s| == 1 ==> Reverse(s) == s;
    } else {
      var l, r := s[..|s| / 2], s[|s| / 2..];
      SortTies(l, x, cmp);
      SortTies(r, x, cmp);
      SortTiesStep(s, l, r, x, cmp);
    }
  }

  lemma SortTiesStep<T(!new)>(s: seq<T>, l: seq<T>, r: seq<T>, x: T, cmp: (T, T) -> int)
    requires Preorder(cmp) && |s| > 1 && l == s[..|s| / 2] && r == s[|s| / 2..]
    requires Ties(Sort(l, cmp), x, cmp) == Ties(Reverse(l), x, cmp) && Ties(Sort(r, cmp), x, cmp) == Ties(Reverse(r), x, cmp)
    ensures Ties(Sort(s, cmp), x, cmp) == Ties(Reverse(s), x, cmp)
  {
    hide *;
    SortUnfold(s, cmp);
    SortSorted(l, cmp);
    SortSorted(r, cmp);
    MergeTies(Sort(l, cmp), Sort(r, cmp), x, cmp);
    ReverseConcat(l, r);
    TiesConcat(Reverse(r), Reverse(l), x, cmp);
    Halves(s);
  }

  lemma Halves<T>(s: seq<T>)
    ensures s == s[..|s| / 2] + s[|s| / 2..]
  {}

  lemma SortUnfold<T>(s: seq<T>, cmp: (T, T) -> int)
    requires |s| > 1
    ensures Sort(s, cmp) == Merge(Sort(s[..|s| / 2], cmp), Sort(s[|s| / 2..], cmp), cmp)
  {}

  // ---------------------------------------------------------------------------
  // The stable sort of the reversed sequence
  // ---------------------------------------------------------------------------

  lemma {:induction false} InsertBelow<T>(z: T, x: T, s: seq<T>, cmp: (T, T) -> int)
    requires Below(z, s, cmp) && cmp(z, x) <= 0
    ensures Below(z, Insert(x, s, cmp), cmp)
    decreases |s|
  {
    if s != [] && cmp(x, s[0]) > 0 {
      InsertBelow(z, x, s[1..], cmp);
    }
  }

  lemma SortedHead<T>(s: seq<T>, cmp: (T, T) -> int)
    requires Sorted(s, cmp) && s != []
    ensures Below(s[0], s[1..], cmp) && Sorted(s[1..], cmp)
  {}

  lemma {:induction false} InsertSorted<T(!new)>(x: T, s: seq<T>, cmp: (T, T) -> int)
    requires Preorder(cmp) && Sorted(s, cmp)
    ensures Sorted(Insert(x, s, cmp), cmp)
    decreases |s|
  {
    if s == [] {
    } else if cmp(x, s[0]) <= 0 {
      HeadBelow(x, s, cmp);
      SortedCons(x, s, cmp);
    } else {
      hide Preorder, Sorted, Below;
      SortedHead(s, cmp);
      InsertSorted(x, s[1..], cmp);
      Flip(s[0], x, cmp);
      InsertBelow(s[0], x, s[1..], cmp);
      SortedCons(s[0], Insert(x, s[1..], cmp), cmp);
    }
  }

  lemma {:induction false} InsertTies<T(!new)>(x: T, s: seq<T>, y: T, cmp: (T, T) -> int)
    requires Preorder(cmp)
    ensures Ties(Insert(x, s, cmp), y, cmp) == (if cmp(x, y) == 0 then [x] else []) + Ties(s, y, cmp)
    decreases |s|
  {
    hide Preorder, Ties;
    NoneTies(y, cmp);
    TiesCons(x, s, y, cmp);
    if s != [] && cmp(x, s[0]) > 0 {
      var t := Ties(s[1..], y, cmp);
      InsertTies(x, s[1..], y, cmp);
      TiesCons(s[0], Insert(x, s[1..], cmp), y, cmp);
      TiesFirst(s, y, cmp);
      if cmp(x, y) == 0 && cmp(s[0], y) == 0 {
        Flip(s[0], y, cmp);
        Transitive(x, y, s[0], cmp);
        assert false;
      }
      Assoc([x] + t, [], []);
      Assoc([s[0]] + t, [], []);
      Assoc(t, [], []);
    }
  }

  lemma {:induction false} StableSortSorted<T(!new)>(s: seq<T>, cmp: (T, T) -> int)
    requires Preorder(cmp)
    ensures Sorted(StableSort(s, cmp), cmp)
  {
    if s != [] {
      StableSortSorted(s[1..], cmp);
      InsertSorted(s[0], StableSort(s[1..], cmp), cmp);
    }
  }

  /** Insertion sort keeps equal elements in order. */
  lemma {:induction false} StableSortTies<T(!new)>(s: seq<T>, y: T, cmp: (T, T) -> int)
    requires Preorder(cmp)
    ensures Ties(StableSort(s, cmp), y, cmp) == Ties(s, y, cmp)
  {
    if s != [] {
      StableSortTies(s[1..], y, cmp);
      InsertTies(s[0], StableSort(s[1..], cmp), y, cmp);
      TiesCons(s[0], StableSort(s[1..], cmp), y, cmp);
    }
  }

  lemma {:induction false} TiesOfMember<T(!new)>(s: seq<T>, i: nat, cmp: (T, T) -> int)
    requires Preorder(cmp) && i < |s|
    ensures Ties(s, s[i], cmp) != []
  {
    hide Preorder;
    SelfTie(s[i], cmp);
    if i > 0 {
      TiesOfMember(s[1..], i - 1, cmp);
    }
  }

  lemma SelfTie<T(!new)>(x: T, cmp: (T, T) -> int)
    requires Preorder(cmp)
    ensures cmp(x, x) == 0
  {}

  ghost predicate SameTies<T(!new)>(a: seq<T>, b: seq<T>, cmp: (T, T) -> int) {
    forall x :: Ties(a, x, cmp) == Ties(b, x, cmp)
  }

  lemma SameTiesTail<T(!new)>(h: T, a: seq<T>, b: seq<T>, cmp: (T, T) -> int)
    requires SameTies([h] + a, [h] + b, cmp)
    ensures SameTies(a, b, cmp)
  {
    forall x
      ensures Ties(a, x, cmp) == Ties(b, x, cmp)
    {
      TiesCons(h, a, x, cmp);
      TiesCons(h, b, x, cmp);
      assert Ties([h] + a, x, cmp) == Ties([h] + b, x, cmp);
      var p := if cmp(h, x) == 0 then [h] else [];
      assert (p + Ties(a, x, cmp))[|p|..] == Ties(a, x, cmp);
      assert (p + Ties(b, x, cmp))[|p|..] == Ties(b, x, cmp);
    }
  }

  lemma NoMoreTies<T(!new)>(b: seq<T>, cmp: (T, T) -> int)
    requires Preorder(cmp) && SameTies([], b, cmp)
    ensures b == []
  {
    NoneTiesAll(b, cmp);
    if b != [] {
      TiesOfMember(b, 0, cmp);
      assert false;
    }
  }

  lemma NoneTiesAll<T(!new)>(b: seq<T>, cmp: (T, T) -> int)
    requires SameTies([], b, cmp)
    ensures forall i :: 0 <= i < |b| ==> Ties(b, b[i], cmp) == []
  {}

  /** A sorted sequence is determined by its ties. */
  lemma {:induction false} TiesDetermine<T(!new)>(a: seq<T>, b: seq<T>, cmp: (T, T) -> int)
    requires Preorder(cmp) && Sorted(a, cmp) && Sorted(b, cmp) && SameTies(a, b, cmp)
    ensures a == b
    decreases |a|
  {
    if a == [] {
      NoMoreTies(b, cmp);
    } else {
      hide Preorder, Sorted, Ties, SameTies;
      FirstTie(a, b, cmp);
      assert a == [a[0]] + a[1..] && b == [a[0]] + b[1..];
      SameTiesTail(a[0], a[1..], b[1..], cmp);
      SortedTail(a, cmp);
      SortedTail(b, cmp);
      TiesDetermine(a[1..], b[1..], cmp);
    }
  }

  /** In a sorted sequence the first element is at most anything that has ties in it. */
  lemma FirstBelowTie<T(!new)>(s: seq<T>, x: T, cmp: (T, T) -> int)
    requires Preorder(cmp) && Sorted(s, cmp) && Ties(s, x, cmp) != []
    ensures s != [] && cmp(s[0], x) <= 0
  {}

  /** Sorted sequences with the same ties start with the same element. */
  lemma FirstTie<T(!new)>(a: seq<T>, b: seq<T>, cmp: (T, T) -> int)
    requires Preorder(cmp) && Sorted(a, cmp) && Sorted(b, cmp) && a != [] && SameTies(a, b, cmp)
    ensures b != [] && b[0] == a[0]
  {
    hide Preorder, Sorted;
    TiesOfMember(a, 0, cmp);
    assert Ties(a, a[0], cmp) == Ties(b, a[0], cmp);
    FirstBelowTie(b, a[0], cmp);
    TiesOfMember(b, 0, cmp);
    assert Ties(a, b[0], cmp) == Ties(b, b[0], cmp);
    FirstBelowTie(a, b[0], cmp);
    Flip(a[0], b[0], cmp);
    SelfTie(a[0], cmp);
    assert Ties(a, a[0], cmp)[0] == a[0] && Ties(b, a[0], cmp)[0] == b[0];
  }

  /** The result is the stable sort of the reversed input. */
  lemma SortIsStableOfReverse<T(!new)>(s: seq<T>, cmp: (T, T) -> int)
    requires Preorder(cmp)
    ensures Sort(s, cmp) == StableSort(Reverse(s), cmp)
  {
    hide Preorder, Sorted, Ties, Sort, StableSort;
    SortSorted(s, cmp);
    var t := StableSort(Reverse(s), cmp);
    StableSortSorted(Reverse(s), cmp);
    forall x
      ensures Ties(Sort(s, cmp), x, cmp) == Ties(t, x, cmp)
    {
      SortTies(s, x, cmp);
      StableSortTies(Reverse(s), x, cmp);
    }
    TiesDetermine(Sort(s, cmp), t, cmp);
  }

  // ---------------------------------------------------------------------------
  // The sort in place
  // ---------------------------------------------------------------------------

  /** out is what merging s[..j] and s[j..] has produced once it has taken s[..a] and s[j..b]. */
  ghost predicate Merged<T>(s: seq<T>, a: nat, j: nat, b: nat, out: seq<T>, cmp: (T, T) -> int) {
    && a <= j <= b <= |s| && |out| == a + (b - j)
    && Merge(s[..j], s[j..], cmp) == out + Merge(s[a..j], s[b..], cmp)
  }

  lemma MergedAll<T>(s: seq<T>, j: nat, out: seq<T>, cmp: (T, T) -> int)
    requires Merged(s, j, j, |s|, out, cmp)
    ensures Merge(s[..j], s[j..], cmp) == out
  {}

  lemma Assoc3<T>(a: seq<T>, x: T, rest: seq<T>)
    ensures a + ([x] + rest) == a + [x] + rest
  {}

  lemma MergeHeadLeft<T>(l: seq<T>, r: seq<T>, cmp: (T, T) -> int)
    requires l != [] && r != [] && cmp(l[0], r[0]) < 0
    ensures Merge(l, r, cmp) == [l[0]] + Merge(l[1..], r, cmp)
  {}

  lemma MergeHeadRight<T>(l: seq<T>, r: seq<T>, cmp: (T, T) -> int)
    requires l != [] && r != [] && cmp(l[0], r[0]) >= 0
    ensures Merge(l, r, cmp) == [r[0]] + Merge(l, r[1..], cmp)
  {}

  lemma MergedLeft<T>(s: seq<T>, a: nat, j: nat, b: nat, out: seq<T>, cmp: (T, T) -> int)
    requires Merged(s, a, j, b, out, cmp) && a < j && b < |s| && cmp(s[a], s[b]) < 0
    ensures Merged(s, a + 1, j, b, out + [s[a]], cmp)
  {
    hide Merge;
    MergeHeadLeft(s[a..j], s[b..], cmp);
    assert s[a..j][1..] == s[a + 1..j];
    Assoc3(out, s[a], Merge(s[a + 1..j], s[b..], cmp));
  }

  lemma MergedRight<T>(s: seq<T>, a: nat, j: nat, b: nat, out: seq<T>, cmp: (T, T) -> int)
    requires Merged(s, a, j, b, out, cmp) && a < j && b < |s| && cmp(s[a], s[b]) >= 0
    ensures Merged(s, a, j, b + 1, out + [s[b]], cmp)
  {
    hide Merge;
    MergeHeadRight(s[a..j], s[b..], cmp);
    assert s[b..][1..] == s[b + 1..];
    Assoc3(out, s[b], Merge(s[a..j], s[b + 1..], cmp));
  }

  /** Once one side has been used up, the rest of the other one ends the merge. */
  lemma MergedRest<T>(s: seq<T>, a: nat, j: nat, b: nat, out: seq<T>, cmp: (T, T) -> int)
    requires Merged(s, a, j, b, out, cmp)
    ensures a == j ==> Merged(s, j, j, |s|, out + s[b..], cmp)
    ensures b == |s| ==> Merged(s, j, j, |s|, out + s[a..j], cmp)
  {}

  lemma SliceOfSlice<T>(all: seq<T>, i: nat, lo: nat, hi: nat, k: nat)
    requires i <= lo <= hi <= k <= |all|
    ensures |all[i..k]| == k - i && all[i..k][lo - i..hi - i] == all[lo..hi]
    ensures hi == k ==> all[i..k][lo - i..] == all[lo..k]
  {
    var s := all[i..k];
    forall q | 0 <= q < hi - lo
      ensures s[lo - i..hi - i][q] == all[lo..hi][q]
    {
      assert s[lo - i + q] == all[lo + q];
    }
    assert s[lo - i..hi - i] == all[lo..hi];
    assert s[lo - i..] == s[lo - i..|s|];
  }

  /** Turns positions in the whole array into positions in the range lo..hi. */
  lemma Rebase<T>(all: seq<T>, lo: nat, j: nat, hi: nat)
    requires lo <= j <= hi <= |all|
    ensures var s := all[lo..hi];
            && s[..j - lo] == all[lo..j] && s[j - lo..] == all[j..hi]
  {}

  /** Merges the sorted divisions i..j and j+1..k (bounds included) through a buffer. */
  method MergeDivisions<T(0)>(data: array<T>, i: nat, j: nat, k: nat, cmp: (T, T) -> int)
    requires i <= j < k < data.Length
    modifies data
    ensures data[..] == Splice(old(data[..]), i, Merge(old(data[i..j + 1]), old(data[j + 1..k + 1]), cmp), k + 1)
  {
    hide Merge;
    var m := MergeBuffer(data, i, j, k, cmp);
    CopyBack(data, m, i);
  }

  /** The state of the merge of i..j and j+1..k: the buffer m holds the first mpos merged elements. */
  ghost predicate Merging<T>(data: array<T>, i: nat, j: nat, k: nat, ipos: nat, jpos: nat, m: array<T>, mpos: nat,
                             cmp: (T, T) -> int)
    reads data, m
  {
    && data != m && i <= ipos <= j + 1 <= jpos <= k + 1 <= data.Length
    && m.Length == k - i + 1 && mpos == (ipos - i) + (jpos - (j + 1))
    && Merged(data[i..k + 1], ipos - i, j + 1 - i, jpos - i, m[..mpos], cmp)
  }

  /** Copies elements from..to, one at a time, to position n of the buffer. */
  method Drain<T>(data: array<T>, from: nat, to: nat, m: array<T>, n: nat)
    requires data != m && from <= to <= data.Length && n + (to - from) <= m.Length
    modifies m
    ensures m[..n + (to - from)] == old(m[..n]) + data[from..to]
  {
    ghost var out := m[..n];
    for p := from to to
      invariant m[..n + (p - from)] == out + data[from..p]
    {
      m[n + (p - from)] := data[p];
    }
  }

  /** Once the left division is used up, the right one is copied. */
  method DrainRight<T>(data: array<T>, ghost i: nat, ghost j: nat, k: nat, jpos: nat, m: array<T>, mpos: nat,
                       ghost cmp: (T, T) -> int)
    requires Merging(data, i, j, k, j + 1, jpos, m, mpos, cmp)
    modifies m
    ensures Merging(data, i, j, k, j + 1, k + 1, m, m.Length, cmp)
  {
    hide Merged;
    MergedRest(data[i..k + 1], j + 1 - i, j + 1 - i, jpos - i, m[..mpos], cmp);
    SliceOfSlice(data[..], i, jpos, k + 1, k + 1);
    Drain(data, jpos, k + 1, m, mpos);
  }

  /** Once the right division is used up, the left one is copied. */
  method DrainLeft<T>(data: array<T>, ghost i: nat, j: nat, ghost k: nat, ipos: nat, m: array<T>, mpos: nat,
                      ghost cmp: (T, T) -> int)
    requires Merging(data, i, j, k, ipos, k + 1, m, mpos, cmp)
    modifies m
    ensures Merging(data, i, j, k, j + 1, k + 1, m, m.Length, cmp)
  {
    hide Merged;
    MergedRest(data[i..k + 1], ipos - i, j + 1 - i, k + 1 - i, m[..mpos], cmp);
    SliceOfSlice(data[..], i, ipos, j + 1, k + 1);
    Drain(data, ipos, j + 1, m, mpos);
  }

  /** Appends the smaller of the two next elements to the buffer; of equal ones, the right one. */
  method TakeNext<T>(data: array<T>, ghost i: nat, ghost j: nat, ghost k: nat, ipos: nat, jpos: nat, m: array<T>,
                     mpos: nat,
                     cmp: (T, T) -> int) returns (ipos': nat, jpos': nat)
    requires Merging(data, i, j, k, ipos, jpos, m, mpos, cmp) && ipos <= j && jpos <= k
    modifies m
    ensures Merging(data, i, j, k, ipos', jpos', m, mpos + 1, cmp)
  {
    hide Merged;
    ghost var s, out := data[i..k + 1], m[..mpos];
    if cmp(data[ipos], data[jpos]) < 0 {
      MergedLeft(s, ipos - i, j + 1 - i, jpos - i, out, cmp);
      m[mpos] := data[ipos];
      ipos', jpos' := ipos + 1, jpos;
    } else {
      MergedRight(s, ipos - i, j + 1 - i, jpos - i, out, cmp);
      m[mpos] := data[jpos];
      ipos', jpos' := ipos, jpos + 1;
    }
    assert m[..mpos + 1] == out + [m[mpos]];
  }

  lemma MergingBounds<T>(data: array<T>, i: nat, j: nat, k: nat, ipos: nat, jpos: nat, m: array<T>, mpos: nat,
                         cmp: (T, T) -> int)
    requires Merging(data, i, j, k, ipos, jpos, m, mpos, cmp)
    ensures i <= ipos <= j + 1 <= jpos <= k + 1 && mpos == (ipos - i) + (jpos - (j + 1))
  {}

  lemma MergingStarts<T>(data: array<T>, i: nat, j: nat, k: nat, m: array<T>, cmp: (T, T) -> int)
    requires data != m && i <= j < k < data.Length && m.Length == k - i + 1
    ensures Merging(data, i, j, k, i, j + 1, m, 0, cmp)
  {}

  lemma MergingEnds<T>(data: array<T>, i: nat, j: nat, k: nat, m: array<T>, mpos: nat, cmp: (T, T) -> int)
    requires Merging(data, i, j, k, j + 1, k + 1, m, mpos, cmp)
    ensures i <= j + 1 <= k + 1 <= data.Length
    ensures m[..] == Merge(data[i..j + 1], data[j + 1..k + 1], cmp)
  {
    hide Merged;
    Rebase(data[..], i, j + 1, k + 1);
    MergedAll(data[i..k + 1], j + 1 - i, m[..mpos], cmp);
    assert m[..mpos] == m[..];
  }

  /** The merged elements, in a buffer of their own. */
  method MergeBuffer<T(0)>(data: array<T>, i: nat, j: nat, k: nat, cmp: (T, T) -> int) returns (m: array<T>)
    requires i <= j < k < data.Length
    ensures fresh(m) && m[..] == Merge(data[i..j + 1], data[j + 1..k + 1], cmp) && m.Length == k - i + 1
  {
    hide *;
    var ipos: nat, jpos: nat, mpos: nat := i, j + 1, 0;
    m := new T[k - i + 1];
    MergingStarts(data, i, j, k, m, cmp);
    while ipos <= j || jpos <= k
      invariant Merging(data, i, j, k, ipos, jpos, m, mpos, cmp)
      decreases k + 1 - ipos + k + 1 - jpos
    {
      MergingBounds(data, i, j, k, ipos, jpos, m, mpos, cmp);
      if ipos > j {
        DrainRight(data, i, j, k, jpos, m, mpos, cmp);
        jpos, mpos := k + 1, mpos + (k + 1 - jpos);
      } else if jpos > k {
        DrainLeft(data, i, j, k, ipos, m, mpos, cmp);
        ipos, mpos := j + 1, mpos + (j + 1 - ipos);
      } else {
        ipos, jpos := TakeNext(data, i, j, k, ipos, jpos, m, mpos, cmp);
        mpos := mpos + 1;
      }
      MergingBounds(data, i, j, k, ipos, jpos, m, mpos, cmp);
    }
    MergingBounds(data, i, j, k, ipos, jpos, m, mpos, cmp);
    MergingEnds(data, i, j, k, m, mpos, cmp);
  }

  /** Copies the merged elements back. */
  method CopyBack<T>(data: array<T>, m: array<T>, i: nat)
    requires data != m && i + m.Length <= data.Length
    modifies data
    ensures data[..] == old(data[..i]) + m[..] + old(data[i + m.Length..])
  {
    for n := 0 to m.Length
      invariant data[..] == old(data[..i]) + m[..n] + old(data[i + n..])
    {
      data[i + n] := m[n];
    }
  }

  /** all with s in place of the positions from lo up to hi. */
  ghost function Splice<T>(all: seq<T>, lo: nat, s: seq<T>, hi: nat): seq<T>
    requires lo <= hi <= |all|
  {
    all[..lo] + s + all[hi..]
  }

  lemma SpliceSelf<T>(all: seq<T>, lo: nat, hi: nat)
    requires lo <= hi <= |all|
    ensures Splice(all, lo, all[lo..hi], hi) == all
  {}

  lemma SortShort<T>(s: seq<T>, cmp: (T, T) -> int)
    requires |s| <= 1
    ensures Sort(s, cmp) == s
  {}

  lemma SpliceParts<T>(all: seq<T>, lo: nat, s: seq<T>, hi: nat)
    requires lo <= hi <= |all| && |s| == hi - lo
    ensures var a := Splice(all, lo, s, hi);
            && |a| == |all| && a[..lo] == all[..lo] && a[lo..hi] == s && a[hi..] == all[hi..]
  {}

  lemma SliceParts<T>(a: seq<T>, b: seq<T>, lo: nat, mid: nat, hi: nat)
    requires |a| == |b| && lo <= mid <= hi <= |a| && a[mid..] == b[mid..]
    ensures a[mid..hi] == b[mid..hi] && a[hi..] == b[hi..]
  {}

  lemma PrefixParts<T>(a: seq<T>, b: seq<T>, lo: nat, mid: nat)
    requires |a| == |b| && lo <= mid <= |a| && a[..mid] == b[..mid]
    ensures a[lo..mid] == b[lo..mid] && a[..lo] == b[..lo]
  {}

  lemma HalvesOfSlice<T>(all: seq<T>, lo: nat, mid: nat, hi: nat)
    requires lo <= mid <= hi <= |all|
    ensures all[lo..hi][..mid - lo] == all[lo..mid] && all[lo..hi][mid - lo..] == all[mid..hi]
  {}

  /** Sorting both halves in place and merging them sorts the whole range. */
  lemma SortInPlace<T>(d: seq<T>, lo: nat, mid: nat, hi: nat, d1: seq<T>, d2: seq<T>, d3: seq<T>, cmp: (T, T) -> int)
    requires lo < mid < hi <= |d| == |d1| == |d2| && mid - lo == (hi - lo) / 2
    requires d1 == Splice(d, lo, Sort(d[lo..mid], cmp), mid)
    requires d2 == Splice(d1, mid, Sort(d1[mid..hi], cmp), hi)
    requires d3 == Splice(d2, lo, Merge(d2[lo..mid], d2[mid..hi], cmp), hi)
    ensures d3 == Splice(d, lo, Sort(d[lo..hi], cmp), hi)
  {
    hide *;
    SpliceParts(d, lo, Sort(d[lo..mid], cmp), mid);
    SliceParts(d1, d, lo, mid, hi);
    SpliceParts(d1, mid, Sort(d1[mid..hi], cmp), hi);
    PrefixParts(d2, d1, lo, mid);
    SortUnfold(d[lo..hi], cmp);
    HalvesOfSlice(d, lo, mid, hi);
    SameSplice(d2, d, lo, Sort(d[lo..hi], cmp), hi);
  }

  lemma SameSplice<T>(a: seq<T>, b: seq<T>, lo: nat, s: seq<T>, hi: nat)
    requires lo <= hi <= |a| == |b| && a[..lo] == b[..lo] && a[hi..] == b[hi..]
    ensures Splice(a, lo, s, hi) == Splice(b, lo, s, hi)
  {}

  /** Sorts the elements i to k, bounds included. */
  method Mgsort<T(0)>(data: array<T>, i: nat, k: int, cmp: (T, T) -> int)
    requires i <= data.Length && -1 <= k < data.Length && i <= k + 1
    modifies data
    ensures data[..] == Splice(old(data[..]), i, Sort(old(data[i..k + 1]), cmp), k + 1)
    decreases k + 1 - i
  {
    hide *;
    ghost var d := data[..];
    if i < k {
      var j := (i + k - 1) / 2;
      Mgsort(data, i, j, cmp);
      ghost var d1 := data[..];
      Mgsort(data, j + 1, k, cmp);
      ghost var d2 := data[..];
      MergeDivisions(data, i, j, k, cmp);
      SortInPlace(d, i, j + 1, k + 1, d1, d2, data[..], cmp);
    } else {
      SortShort(d[i..k + 1], cmp);
      SpliceSelf(d, i, k + 1);
    }
  }
}
