/** The in-place exchange of two adjacent blocks of an argument vector, as the
    embedded getopt does it: one block-sized step at a time around gcd-many cycles. */
module Rotation {

  // ---------------------------------------------------------------------------
  // Greatest common divisors
  // ---------------------------------------------------------------------------

  /** Euclid's algorithm, the value computed by the loop of `GreatestCommonDivisor`. */
  ghost function Gcd(a: nat, b: nat): (g: nat)
    requires b > 0
    ensures g > 0
    decreases b
  {
    if a % b == 0 then b else Gcd(b, a % b)
  }

  lemma ScaleStep(q: int, b: int, c: int, x: int, y: int, g: int)
    requires b == x * g && c == y * g
    ensures q * b + c == (q * x + y) * g
  {}

  lemma BezoutStep(q: int, b: int, c: int, u: int, v: int)
    ensures v * (q * b + c) + (u - v * q) * b == u * b + v * c
  {}

  /** Both arguments are multiples of the gcd, and the gcd is a combination of both. */
  lemma {:induction false} GcdCombination(a: nat, b: nat) returns (x: nat, y: nat, u: int, v: int)
    requires b > 0
    ensures a == x * Gcd(a, b) && b == y * Gcd(a, b)
    ensures u * a + v * b == Gcd(a, b)
    decreases b
  {
    var g, q, c := Gcd(a, b), a / b, a % b;
    assert a == q * b + c;
    if c == 0 {
      x, y, u, v := q, 1, 0, 1;
    } else {
      var x', y', u', v' := GcdCombination(b, c);
      x, y, u, v := q * x' + y', x', v', u' - v' * q;
      ScaleStep(q, b, c, x', y', g);
      BezoutStep(q, b, c, u', v');
    }
  }

  lemma CommonStep(u: int, v: int, i: int, j: int, d: int)
    ensures u * (i * d) + v * (j * d) == (u * i + v * j) * d
  {}

  /** The only multiple of L strictly between -L and L is zero. */
  lemma SmallMultiple(n: int, q: int, L: int)
    requires n == q * L && -L < n < L
    ensures n == 0
  {}

  ghost predicate Divides(d: nat, n: nat) {
    d > 0 && n % d == 0
  }

  lemma MultipleDivides(n: nat, k: int, d: nat)
    requires d > 0 && n == k * d
    ensures Divides(d, n)
  {
    SmallMultiple(n % d, k - n / d, d);
  }

  lemma CombinationDivides(a: nat, b: nat, d: nat, u: int, v: int, g: nat)
    requires Divides(d, a) && Divides(d, b) && u * a + v * b == g > 0
    ensures Divides(d, g) && d <= g
  {
    CommonStep(u, v, a / d, b / d, d);
    MultipleDivides(g, u * (a / d) + v * (b / d), d);
    DivisorBound(d, g);
  }

  /** The gcd is a common divisor, and every common divisor divides it. */
  lemma GcdIsGreatest(a: nat, b: nat)
    requires b > 0
    ensures Divides(Gcd(a, b), a) && Divides(Gcd(a, b), b)
    ensures forall d: nat :: Divides(d, a) && Divides(d, b) ==> Divides(d, Gcd(a, b)) && d <= Gcd(a, b)
  {
    var g := Gcd(a, b);
    var x, y, u, v := GcdCombination(a, b);
    MultipleDivides(a, x, g);
    MultipleDivides(b, y, g);
    forall d: nat | Divides(d, a) && Divides(d, b)
      ensures Divides(d, g) && d <= g
    {
      CombinationDivides(a, b, d, u, v, g);
    }
  }

  lemma DivisorBound(d: nat, n: nat)
    requires Divides(d, n) && n > 0
    ensures d <= n
  {}

  method GreatestCommonDivisor(x: nat, y: nat) returns (g: nat)
    requires y > 0
    ensures g == Gcd(x, y)
    ensures Divides(g, x) && Divides(g, y) && forall d: nat :: Divides(d, x) && Divides(d, y) ==> Divides(d, g)
  {
    var a, b := x, y;
    var c := a % b;
    while c != 0
      invariant b > 0 && c == a % b
      invariant Gcd(a, b) == Gcd(x, y)
      decreases b
    {
      a := b;
      b := c;
      c := a % b;
    }
    GcdIsGreatest(x, y);
    return b;
  }

  // ---------------------------------------------------------------------------
  // Stepping around a cycle. Positions are relative to the start of the first
  // block; n1 and n2 are the lengths of the two blocks.
  // ---------------------------------------------------------------------------

  /** Where the element at p has to go. */
  ghost function Step(p: nat, n1: nat, n2: nat): (q: nat)
    requires p < n1 + n2
    ensures q < n1 + n2
  {
    if p >= n1 then p - n1 else p + n2
  }

  /** Which element has to come to p. */
  ghost function Source(p: nat, n1: nat, n2: nat): (q: nat)
    requires p < n1 + n2
    ensures q < n1 + n2 && Step(q, n1, n2) == p
  {
    if p >= n2 then p - n2 else p + n1
  }

  ghost function Orbit(s: nat, k: nat, n1: nat, n2: nat): (p: nat)
    requires s < n1 + n2
    ensures p < n1 + n2
  {
    if k == 0 then s else Step(Orbit(s, k - 1, n1, n2), n1, n2)
  }

  ghost function Residue(p: nat, g: nat): (r: nat)
    requires g > 0
    ensures r < g
  {
    p % g
  }

  ghost function Residues(n: nat, g: nat): (rs: seq<nat>)
    requires g > 0
    ensures |rs| == n && forall p :: 0 <= p < n ==> rs[p] == Residue(p, g)
  {
    seq(n, (p: nat) => Residue(p, g))
  }

  /** The shape of the two block lengths: g divides both, L steps make a full cycle,
      and stepping is invertible modulo L. */
  ghost predicate Shape(n1: nat, n2: nat, g: nat, L: nat, x: nat, y: nat, u: int, w: int)
  {
    && n1 > 0 && n2 > 0 && g > 0 && L > 0
    && n1 == x * g && n2 == y * g && n1 + n2 == L * g
    && L == x + y
    && w * y + u * L == 1
  }

  lemma Cancel(a: int, b: int, g: int)
    requires g > 0 && a * g == b * g
    ensures a == b
  {}

  lemma UnitStep(u: int, v: int, x: int, y: int, g: int)
    requires u * (x * g) + v * (y * g) == g && g > 0
    ensures (v - u) * y + u * (x + y) == 1
  {}

  lemma DivideExactly(n: nat, L: nat, g: nat)
    requires g > 0 && n == L * g
    ensures n / g == L && n % g == 0
  {
    var q, r := n / g, n % g;
    assert r == (L - q) * g;
    SmallMultiple(r, L - q, g);
    Cancel(q, L, g);
  }

  lemma BlockShape(n1: nat, n2: nat) returns (x: nat, y: nat, u: int, w: int)
    requires n1 > 0 && n2 > 0
    ensures Shape(n1, n2, Gcd(n1, n2), (n1 + n2) / Gcd(n1, n2), x, y, u, w)
  {
    var g := Gcd(n1, n2);
    var v: int;
    x, y, u, v := GcdCombination(n1, n2);
    w := v - u;
    ShapeOf(n1, n2, g, x, y, u, v);
    DivideExactly(n1 + n2, x + y, g);
  }

  lemma ShapeOf(n1: nat, n2: nat, g: nat, x: nat, y: nat, u: int, v: int)
    requires n1 > 0 && n2 > 0 && g > 0 && n1 == x * g && n2 == y * g && u * n1 + v * n2 == g
    ensures n1 + n2 == (x + y) * g && Shape(n1, n2, g, x + y, x, y, u, v - u)
  {
    assert n1 + n2 == (x + y) * g;
    UnitStep(u, v, x, y, g);
    if x + y == 0 {
      assert false;
    }
  }

  /** After k steps of n2 the position has advanced by k * n2, up to whole turns. */
  lemma {:induction false} OrbitTurns(s: nat, k: nat, n1: nat, n2: nat) returns (m: int)
    requires s < n1 + n2
    ensures Orbit(s, k, n1, n2) == s + k * n2 - m * (n1 + n2)
  {
    if k == 0 {
      m := 0;
    } else {
      var m' := OrbitTurns(s, k - 1, n1, n2);
      assert (k - 1) * n2 + n2 == k * n2;
      assert (m' + 1) * (n1 + n2) == m' * (n1 + n2) + (n1 + n2);
      m := if Orbit(s, k - 1, n1, n2) >= n1 then m' + 1 else m';
    }
  }

  lemma ScaledBezout(d: int, y: int, L: int, u: int, w: int, t: int)
    requires w * y + u * L == 1 && d * y == t * L
    ensures d == (w * t + d * u) * L
  {}

  lemma DividedSteps(d: int, t: int, y: int, L: int, g: int)
    requires g > 0 && d * (y * g) == t * (L * g)
    ensures d * y == t * L
  {}

  /** The first L positions of a cycle are distinct. */
  lemma {:induction false} OrbitInjective(s: nat, j: nat, k: nat, n1: nat, n2: nat, g: nat, L: nat, x: nat, y: nat,
                                          u: int, w: int)
    requires Shape(n1, n2, g, L, x, y, u, w)
    requires s < n1 + n2 && j < k < L
    ensures Orbit(s, j, n1, n2) != Orbit(s, k, n1, n2)
  {
    var mj := OrbitTurns(s, j, n1, n2);
    var mk := OrbitTurns(s, k, n1, n2);
    if Orbit(s, j, n1, n2) == Orbit(s, k, n1, n2) {
      var d, t := k - j, mk - mj;
      Difference(k, j, n2);
      Difference(mk, mj, n1 + n2);
      DividedSteps(d, t, y, L, g);
      ScaledBezout(d, y, L, u, w, t);
      SmallMultiple(d, w * t + d * u, L);
      assert false;
    }
  }

  lemma Difference(a: int, b: int, c: int)
    ensures (a - b) * c == a * c - b * c
  {}

  lemma SwapFactors(L: int, y: int, g: int)
    ensures L * (y * g) == y * (L * g)
  {}

  /** After L steps the walk is back where it started. */
  lemma {:induction false} OrbitReturns(s: nat, n1: nat, n2: nat, g: nat, L: nat, x: nat, y: nat, u: int, w: int)
    requires Shape(n1, n2, g, L, x, y, u, w)
    requires s < n1 + n2
    ensures Orbit(s, L, n1, n2) == s
  {
    var m := OrbitTurns(s, L, n1, n2);
    SwapFactors(L, y, g);
    Difference(y, m, n1 + n2);
    SmallMultiple(Orbit(s, L, n1, n2) - s, y - m, n1 + n2);
  }

  lemma WholeTurns(k: int, q: int, e: int, y: int, L: int, g: int, u: int, w: int)
    requires w * y + u * L == 1 && w * e == q * L + k
    ensures k * (y * g) - e * g == -(e * u + q * y) * (L * g)
  {}

  /** Every position that differs from the start by a multiple of g is visited. */
  lemma {:induction false} OrbitReaches(s: nat, p: nat, e: int, n1: nat, n2: nat, g: nat, L: nat, x: nat, y: nat,
                                        u: int, w: int) returns (k: nat)
    requires Shape(n1, n2, g, L, x, y, u, w)
    requires s < n1 + n2 && p < n1 + n2 && p - s == e * g
    ensures k < L && Orbit(s, k, n1, n2) == p
  {
    k := (w * e) % L;
    var q := (w * e) / L;
    assert w * e == q * L + k;
    var m := OrbitTurns(s, k, n1, n2);
    WholeTurns(k, q, e, y, L, g, u, w);
    var c := -(e * u + q * y);
    Difference(c, m, n1 + n2);
    SmallMultiple(Orbit(s, k, n1, n2) - p, c - m, n1 + n2);
  }

  lemma ResidueOf(i: nat, c: int, p: nat, g: nat)
    requires i < g && p == i + c * g
    ensures Residue(p, g) == i
  {
    var q, r := p / g, p % g;
    assert p == q * g + r;
    Difference(c, q, g);
    SmallMultiple(r - i, c - q, g);
  }

  lemma ThreeMultiples(x: int, k: int, y: int, m: int, L: int, g: int)
    ensures x * g + k * (y * g) - m * (L * g) == (x + k * y - m * L) * g
  {}

  /** A cycle stays inside one residue class. */
  lemma OrbitResidue(i: nat, k: nat, n1: nat, n2: nat, g: nat, L: nat, x: nat, y: nat, u: int, w: int)
    requires Shape(n1, n2, g, L, x, y, u, w)
    requires i < g && n1 + i < n1 + n2
    ensures Residue(Orbit(n1 + i, k, n1, n2), g) == i
  {
    var m := OrbitTurns(n1 + i, k, n1, n2);
    ThreeMultiples(x, k, y, m, L, g);
    ResidueOf(i, x + k * y - m * L, Orbit(n1 + i, k, n1, n2), g);
  }

  /** A position of residue i lies on the cycle that starts at n1 + i. */
  lemma ResidueReached(i: nat, p: nat, n1: nat, n2: nat, g: nat, L: nat, x: nat, y: nat, u: int, w: int)
    returns (k: nat)
    requires Shape(n1, n2, g, L, x, y, u, w)
    requires p < n1 + n2 && i < g && Residue(p, g) == i && n1 + i < n1 + n2
    ensures k < L && Orbit(n1 + i, k, n1, n2) == p
  {
    var q := p / g;
    Difference(q, x, g);
    k := OrbitReaches(n1 + i, p, q - x, n1, n2, g, L, x, y, u, w);
  }

  // ---------------------------------------------------------------------------
  // The exchange
  // ---------------------------------------------------------------------------

  /** The block a[from..mid] and the block a[mid..to] trade places; the order inside each
      block is kept. */
  ghost function Exchange<T>(a: seq<T>, from: nat, mid: nat, to: nat): (b: seq<T>)
    requires from <= mid <= to <= |a|
    ensures |b| == |a|
  {
    a[..from] + a[mid..to] + a[from..mid] + a[to..]
  }

  /** `orb` lists the positions of cycle i in the order they are visited: L distinct positions,
      exactly those of class i, and then the start again. */
  ghost predicate IsCycle(orb: seq<nat>, n1: nat, n2: nat, cls: seq<nat>, i: nat)
  {
    && |cls| == n1 + n2 && |orb| >= 2 && orb[0] == orb[|orb| - 1] == n1 + i
    && (forall k :: 0 <= k < |orb| ==> orb[k] < n1 + n2 && cls[orb[k]] == i)
    && (forall k :: 0 < k < |orb| ==> orb[k] == Step(orb[k - 1], n1, n2))
    && (forall j, k :: 0 <= j < k < |orb| - 1 ==> orb[j] != orb[k])
    && (forall p :: 0 <= p < n1 + n2 && cls[p] == i ==> p in orb[..|orb| - 1])
  }

  lemma CycleOf(i: nat, n1: nat, n2: nat, g: nat, L: nat, x: nat, y: nat, u: int, w: int) returns (orb: seq<nat>)
    requires Shape(n1, n2, g, L, x, y, u, w)
    requires i < g && n1 + i < n1 + n2
    ensures |orb| == L + 1 && IsCycle(orb, n1, n2, Residues(n1 + n2, g), i)
  {
    var s := n1 + i;
    orb := seq(L + 1, (k: nat) => Orbit(s, k, n1, n2));
    OrbitReturns(s, n1, n2, g, L, x, y, u, w);
    forall k | 0 <= k < |orb|
      ensures Residue(orb[k], g) == i
    {
      OrbitResidue(i, k, n1, n2, g, L, x, y, u, w);
    }
    forall j, k | 0 <= j < k < |orb| - 1
      ensures orb[j] != orb[k]
    {
      OrbitInjective(s, j, k, n1, n2, g, L, x, y, u, w);
    }
    forall p: nat | p < n1 + n2 && Residue(p, g) == i
      ensures p in orb[..|orb| - 1]
    {
      var k := ResidueReached(i, p, n1, n2, g, L, x, y, u, w);
      assert orb[..|orb| - 1][k] == p;
    }
  }

  /** The two blocks after the cycles of classes below i have been walked and the others not. */
  ghost predicate Walked<T>(now: seq<T>, was: seq<T>, n1: nat, n2: nat, cls: seq<nat>, i: nat)
    requires n1 + n2 == |was| == |now| == |cls|
  {
    forall p: nat :: p < n1 + n2 ==>
      now[p] == was[if cls[p] < i then Source(p, n1, n2) else p]
  }

  /** The two blocks after j swaps of cycle i; the value being carried sits at the cycle's start. */
  ghost predicate Walking<T>(now: seq<T>, was: seq<T>, n1: nat, n2: nat, cls: seq<nat>, i: nat, orb: seq<nat>, j: nat)
    requires n1 + n2 == |was| == |now| == |cls|
    requires IsCycle(orb, n1, n2, cls, i)
  {
    var L := |orb| - 1;
    && (forall p: nat :: p < n1 + n2 && cls[p] != i ==>
          now[p] == was[if cls[p] < i then Source(p, n1, n2) else p])
    && (forall k :: 1 <= k < L ==> now[orb[k]] == was[orb[if k <= j then k - 1 else k]])
    && now[orb[0]] == was[orb[if j < L then j else L - 1]]
  }

  lemma CycleStarts(orb: seq<nat>, n1: nat, n2: nat, cls: seq<nat>, i: nat)
    requires IsCycle(orb, n1, n2, cls, i)
    ensures |orb| >= 2 && orb[0] == n1 + i < n1 + n2
  {}

  lemma CycleSteps(orb: seq<nat>, n1: nat, n2: nat, cls: seq<nat>, i: nat, j: nat)
    requires IsCycle(orb, n1, n2, cls, i) && j + 1 < |orb|
    ensures orb[j] < n1 + n2 && orb[j + 1] < n1 + n2 && orb[j + 1] == Step(orb[j], n1, n2)
  {}

  lemma NothingWalked<T>(was: seq<T>, n1: nat, n2: nat, cls: seq<nat>)
    requires n1 + n2 == |was| == |cls|
    ensures Walked(was, was, n1, n2, cls, 0)
  {}

  lemma WalkStart<T>(now: seq<T>, was: seq<T>, n1: nat, n2: nat, cls: seq<nat>, i: nat, orb: seq<nat>)
    requires n1 + n2 == |was| == |now| == |cls| && IsCycle(orb, n1, n2, cls, i)
    requires Walked(now, was, n1, n2, cls, i)
    ensures Walking(now, was, n1, n2, cls, i, orb, 0)
  {}

  /** One swap of the loop body. */
  lemma WalkStep<T>(now: seq<T>, next: seq<T>, was: seq<T>, n1: nat, n2: nat, cls: seq<nat>, i: nat, orb: seq<nat>,
                    j: nat)
    requires n1 + n2 == |was| == |now| == |cls| && IsCycle(orb, n1, n2, cls, i) && j + 1 < |orb|
    requires Walking(now, was, n1, n2, cls, i, orb, j)
    requires next == now[orb[j + 1] := now[orb[0]]][orb[0] := now[orb[j + 1]]]
    ensures Walking(next, was, n1, n2, cls, i, orb, j + 1)
  {}

  /** A finished cycle has every one of its positions filled from the right source. */
  lemma WalkEnd<T>(now: seq<T>, was: seq<T>, n1: nat, n2: nat, cls: seq<nat>, i: nat, orb: seq<nat>)
    requires n1 + n2 == |was| == |now| == |cls| && IsCycle(orb, n1, n2, cls, i)
    requires Walking(now, was, n1, n2, cls, i, orb, |orb| - 1)
    ensures Walked(now, was, n1, n2, cls, i + 1)
  {
    var L := |orb| - 1;
    forall p: nat | p < n1 + n2 && cls[p] == i
      ensures now[p] == was[Source(p, n1, n2)]
    {
      assert p in orb[..L];
      var k :| 0 <= k < L && orb[..L][k] == p;
      assert orb[k] == p;
      if k == 0 {
        assert orb[L] == Step(orb[L - 1], n1, n2);
      } else {
        assert orb[k] == Step(orb[k - 1], n1, n2);
      }
    }
  }

  lemma WalkedAll<T>(now: seq<T>, was: seq<T>, n1: nat, n2: nat, cls: seq<nat>, g: nat)
    requires n1 + n2 == |was| == |now| == |cls|
    requires forall p: nat :: p < n1 + n2 ==> cls[p] < g
    requires Walked(now, was, n1, n2, cls, g)
    ensures now == was[n1..] + was[..n1]
  {}

  lemma ExchangeInMiddle<T>(a: seq<T>, from: nat, mid: nat, to: nat, now: seq<T>)
    requires from <= mid <= to <= |a|
    requires now == a[from..to][mid - from..] + a[from..to][..mid - from]
    ensures a[..from] + now + a[to..] == Exchange(a, from, mid, to)
  {}

  lemma BlockFitsGcd(n2: nat, y: nat, g: nat)
    requires n2 > 0 && g > 0 && n2 == y * g
    ensures g <= n2
  {}

  /** Stepping by n2 modulo n1 + n2 splits the positions into gcd-many disjoint cycles of
      equal length, one through each of the first positions of the second block. */
  lemma CyclesOf(n1: nat, n2: nat) returns (orbs: seq<seq<nat>>, cls: seq<nat>)
    requires n1 > 0 && n2 > 0
    ensures |orbs| == Gcd(n1, n2) <= n2
    ensures |cls| == n1 + n2 && forall p :: 0 <= p < |cls| ==> cls[p] < |orbs|
    ensures forall i :: 0 <= i < |orbs| ==>
      |orbs[i]| == (n1 + n2) / Gcd(n1, n2) + 1 && IsCycle(orbs[i], n1, n2, cls, i)
  {
    var g, L := Gcd(n1, n2), (n1 + n2) / Gcd(n1, n2);
    var x, y, u, w := BlockShape(n1, n2);
    BlockFitsGcd(n2, y, g);
    cls := Residues(n1 + n2, g);
    orbs := [];
    for i := 0 to g
      invariant |orbs| == i
      invariant forall k :: 0 <= k < i ==> |orbs[k]| == L + 1 && IsCycle(orbs[k], n1, n2, cls, k)
    {
      var orb := CycleOf(i, n1, n2, g, L, x, y, u, w);
      orbs := orbs + [orb];
    }
  }

  /** One turn of the inner loop on the vector's value. */
  lemma SwapOnValue<T>(pre: seq<T>, now: seq<T>, post: seq<T>, p: nat, c: nat)
    requires p < |now| && c < |now|
    ensures var a := pre + now + post;
            a[|pre| + p := a[|pre| + c]][|pre| + c := a[|pre| + p]] == pre + now[p := now[c]][c := now[p]] + post
  {}

  /** The inner loop: the `cyclelen` swaps of cycle i. */
  method WalkCycle<T>(nonoptStart: nat, nonoptEnd: nat, optEnd: nat, argv: array<T>, cyclelen: nat, i: nat,
                      ghost orb: seq<nat>, ghost cls: seq<nat>,
                      ghost pre: seq<T>, ghost was: seq<T>, ghost start: seq<T>, ghost post: seq<T>)
    returns (ghost now: seq<T>)
    requires nonoptStart < nonoptEnd < optEnd <= argv.Length && nonoptEnd + i < optEnd
    requires |pre| == nonoptStart && |was| == |start| == |cls| == optEnd - nonoptStart
    requires argv[..] == pre + start + post
    requires |orb| == cyclelen + 1 && IsCycle(orb, nonoptEnd - nonoptStart, optEnd - nonoptEnd, cls, i)
    requires Walked(start, was, nonoptEnd - nonoptStart, optEnd - nonoptEnd, cls, i)
    modifies argv
    ensures |now| == |was| && argv[..] == pre + now + post
    ensures Walked(now, was, nonoptEnd - nonoptStart, optEnd - nonoptEnd, cls, i + 1)
  {
    hide Walking, IsCycle, Walked;
    var nnonopts := nonoptEnd - nonoptStart;
    var nopts := optEnd - nonoptEnd;
    var cstart := nonoptEnd + i;
    var pos := cstart;
    now := start;
    CycleStarts(orb, nnonopts, nopts, cls, i);
    WalkStart(now, was, nnonopts, nopts, cls, i, orb);
    for j := 0 to cyclelen
      invariant pos == nonoptStart + orb[j]
      invariant |now| == |was| == |cls| && argv[..] == pre + now + post
      invariant Walking(now, was, nnonopts, nopts, cls, i, orb, j)
    {
      ghost var all := argv[..];
      CycleSteps(orb, nnonopts, nopts, cls, i, j);
      if pos >= nonoptEnd {
        pos := pos - nnonopts;
      } else {
        pos := pos + nopts;
      }
      assert pos == nonoptStart + orb[j + 1];
      var swap := argv[pos];
      argv[pos] := argv[cstart];
      argv[cstart] := swap;
      assert argv[..] == all[pos := all[cstart]][cstart := all[pos]];
      SwapOnValue(pre, now, post, orb[j + 1], orb[0]);
      WalkStep(now, now[orb[j + 1] := now[orb[0]]][orb[0] := now[orb[j + 1]]], was, nnonopts, nopts, cls, i, orb, j);
      now := now[orb[j + 1] := now[orb[0]]][orb[0] := now[orb[j + 1]]];
    }
    WalkEnd(now, was, nnonopts, nopts, cls, i, orb);
  }

  /** The outer loop: `ncycle` cycles of `cyclelen` swaps each. */
  method WalkCycles<T>(nonoptStart: nat, nonoptEnd: nat, optEnd: nat, argv: array<T>, ncycle: nat, cyclelen: nat,
                       ghost orbs: seq<seq<nat>>, ghost cls: seq<nat>)
    requires nonoptStart < nonoptEnd < optEnd <= argv.Length
    requires |orbs| == ncycle <= optEnd - nonoptEnd && |cls| == optEnd - nonoptStart
    requires forall p :: 0 <= p < |cls| ==> cls[p] < ncycle
    requires forall i :: 0 <= i < ncycle ==>
      |orbs[i]| == cyclelen + 1 && IsCycle(orbs[i], nonoptEnd - nonoptStart, optEnd - nonoptEnd, cls, i)
    modifies argv
    ensures argv[..] == Exchange(old(argv[..]), nonoptStart, nonoptEnd, optEnd)
  {
    hide *;
    var nnonopts := nonoptEnd - nonoptStart;
    var nopts := optEnd - nonoptEnd;
    ghost var pre, was, post := argv[..nonoptStart], argv[nonoptStart..optEnd], argv[optEnd..];
    ghost var now := was;
    NothingWalked(was, nnonopts, nopts, cls);
    for i := 0 to ncycle
      invariant |now| == |was| == |cls| && argv[..] == pre + now + post
      invariant Walked(now, was, nnonopts, nopts, cls, i)
    {
      now := WalkCycle(nonoptStart, nonoptEnd, optEnd, argv, cyclelen, i, orbs[i], cls, pre, was, now, post);
    }
    WalkedAll(now, was, nnonopts, nopts, cls, ncycle);
    ExchangeInMiddle(old(argv[..]), nonoptStart, nonoptEnd, optEnd, now);
  }

  /** Exchanges the block from `nonoptStart` to `nonoptEnd` with the block from `nonoptEnd` to
      `optEnd`. Neither block may be empty: an empty second block would divide by zero. */
  method PermuteArgs<T>(nonoptStart: nat, nonoptEnd: nat, optEnd: nat, argv: array<T>)
    requires nonoptStart < nonoptEnd < optEnd <= argv.Length
    modifies argv
    ensures argv[..] == Exchange(old(argv[..]), nonoptStart, nonoptEnd, optEnd)
  {
    var nnonopts := nonoptEnd - nonoptStart;
    var nopts := optEnd - nonoptEnd;
    var ncycle := GreatestCommonDivisor(nnonopts, nopts);
    var cyclelen := (optEnd - nonoptStart) / ncycle;
    ghost var orbs, cls := CyclesOf(nnonopts, nopts);
    WalkCycles(nonoptStart, nonoptEnd, optEnd, argv, ncycle, cyclelen, orbs, cls);
  }
}
