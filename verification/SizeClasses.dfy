/** The size categories of the object allocator (GetOrCreateBestCategory in
    rtsrc/SlabObjectAllocator.cpp). */
module SizeClasses {

  /** The size of an object without fields, which is the smallest that can be asked for. */
  const SizeOfObj := 24

  function Preferred(): seq<int> { [24, 32, 40, 48, 56, 64, 72, 88, 104, 120, 152] }

  function RoundToAlignment(v: nat): nat {
    if v % 8 != 0 then v + 8 - v % 8 else v
  }

  /** The smallest power of two, times p, that is at least n. */
  function BitCeil(n: nat, p: nat): (r: nat)
    requires p > 0
    ensures r >= n && r >= p
    decreases n - p
  {
    if p >= n then p else BitCeil(n, 2 * p)
  }

  /** The first element that is at least x; -1 if there is none. */
  function LowerBound(s: seq<int>, x: int): int {
    if s == [] then -1 else if s[0] >= x then s[0] else LowerBound(s[1..], x)
  }

  function InBetween(p: nat): nat { RoundToAlignment(p * 1000 / 1414) }

  function BestSize(size: nat): nat
    requires size >= SizeOfObj
  {
    var p := BitCeil(size, 1);
    var best := if InBetween(p) >= size then InBetween(p) else p;
    var preferred := LowerBound(Preferred(), size);
    if 0 <= preferred < best then preferred else best
  }

  /** A request that is granted: it is not smaller than an object, and its category fits the usable part of a slab. */
  predicate Fits(size: int, available: int) {
    size >= SizeOfObj && BestSize(size) <= available
  }

  predicate PowerOfTwo(p: nat) {
    p == 1 || (p > 1 && p % 2 == 0 && PowerOfTwo(p / 2))
  }

  lemma {:induction false} BitCeilExactly(n: nat, p: nat)
    requires p > 0 && PowerOfTwo(p)
    ensures PowerOfTwo(BitCeil(n, p)) && (p < n ==> BitCeil(n, p) < 2 * n)
    ensures p < n ==> BitCeil(n, p) / 2 < n && BitCeil(n, p) / 2 >= p
    decreases n - p
  {
    if p < n {
      BitCeilExactly(n, 2 * p);
    }
  }

  /** Everything in the upper half of the interval below a power of two is rounded up to it. */
  lemma {:induction false} SameCeil(n: nat, v: nat, p: nat)
    requires p > 0 && n <= v <= BitCeil(n, p)
    ensures BitCeil(v, p) == BitCeil(n, p)
    decreases n - p
  {
    if p < n {
      SameCeil(n, v, 2 * p);
    }
  }

  lemma {:induction false} AtLeast32(n: nat, p: nat)
    requires n >= 24 && p in {1, 2, 4, 8, 16}
    ensures BitCeil(n, p) >= 32 && BitCeil(n, p) % 32 == 0
    decreases n - p
  {
    if p == 16 {
      Multiple32(n, 32);
    } else {
      AtLeast32(n, 2 * p);
    }
  }

  lemma {:induction false} Multiple32(n: nat, p: nat)
    requires p >= 32 && p % 32 == 0
    ensures BitCeil(n, p) >= 32 && BitCeil(n, p) % 32 == 0
    decreases n - p
  {
    if p < n {
      Multiple32(n, 2 * p);
    }
  }

  lemma {:induction false} LowerBoundFound(s: seq<int>, x: int)
    requires forall i, j :: 0 <= i < j < |s| ==> s[i] < s[j]
    requires forall i :: 0 <= i < |s| ==> s[i] >= 0
    ensures var l := LowerBound(s, x); l == -1 || (l in s && l >= x && LowerBound(s, l) == l)
  {
    if s != [] && s[0] < x {
      LowerBoundFound(s[1..], x);
    }
  }

  lemma PreferredFacts(x: int)
    ensures var l := LowerBound(Preferred(), x);
      l == -1 || (l >= x && l >= 24 && l % 8 == 0 && LowerBound(Preferred(), l) == l)
  {
    hide LowerBound;
    LowerBoundFound(Preferred(), x);
  }

  lemma BetweenBelow(p: nat)
    requires p >= 32 && p % 32 == 0
    ensures InBetween(p) <= p && InBetween(p) % 8 == 0 && p % 8 == 0
  {
    hide RoundToAlignment;
    var v, q := p * 1000 / 1414, p / 32;
    assert v + 8 <= p;
    Rounded(v);
    assert p == 32 * q && p % 8 == 0 by {
      EightIn(q);
    }
  }

  lemma EightIn(q: nat)
    ensures 32 * q % 8 == 0
  {
  }

  lemma Rounded(v: nat)
    ensures RoundToAlignment(v) % 8 == 0 && v <= RoundToAlignment(v) < v + 8
  {
  }

  /** A category holds what is asked for, wastes less than half of it, and is aligned. */
  lemma BestSizeFits(size: nat)
    requires size >= SizeOfObj
    ensures size <= BestSize(size) < 2 * size && BestSize(size) % 8 == 0
  {
    hide LowerBound, BitCeil, Preferred, InBetween;
    assert PowerOfTwo(1);
    BitCeilExactly(size, 1);
    AtLeast32(size, 1);
    BetweenBelow(BitCeil(size, 1));
    PreferredFacts(size);
  }

  /** The size of a category is its own best size, so the category of a request does
      not depend on which categories exist already. */
  lemma BestSizeStable(size: nat)
    requires size >= SizeOfObj
    ensures SizeOfObj <= BestSize(size) && BestSize(BestSize(size)) == BestSize(size)
  {
    hide LowerBound, BitCeil, Preferred;
    BestSizeFits(size);
    AtLeast32(size, 1);
    var p, v := BitCeil(size, 1), BestSize(size);
    BetweenBelow(p);
    PreferredFacts(size);
    PreferredFacts(v);
    SameCeil(size, v, 1);
  }

  /** Nothing up to half of the usable part of a slab is refused, unless it is smaller than an object. */
  lemma HalfFits(size: nat, available: int)
    requires SizeOfObj <= size && 2 * size <= available
    ensures Fits(size, available)
  {
    BestSizeFits(size);
    hide BestSize;
  }

  // ----- Which size that is -----

  /** c is p divided by the square root of two, roughly, rounded up to a multiple of 8. */
  ghost predicate BetweenSize(p: nat, c: int) {
    c % 8 == 0 && exists x: nat :: 1414 * x <= 1000 * p < 1414 * x + 1414 && x <= c < x + 8
  }

  /** The sizes that categories may have: the preferred ones, the powers of two, and one between every two of these. */
  ghost predicate Candidate(c: int) {
    c in {24, 32, 40, 48, 56, 64, 72, 88, 104, 120, 152} || exists p: nat :: PowerOfTwo(p) && (c == p || BetweenSize(p, c))
  }

  lemma BetweenExactly(p: nat, c: int)
    ensures BetweenSize(p, c) <==> c == InBetween(p)
  {
    var v := p * 1000 / 1414;
    Rounded(v);
    assert 1414 * v <= 1000 * p < 1414 * v + 1414 && v <= InBetween(p) < v + 8;
    if BetweenSize(p, c) {
      var x: nat :| 1414 * x <= 1000 * p < 1414 * x + 1414 && x <= c < x + 8;
      assert x == v;
      SameMultiple(v, c, InBetween(p));
    }
    hide RoundToAlignment;
  }

  lemma SameMultiple(v: int, c: int, d: int)
    requires c % 8 == 0 && d % 8 == 0 && v <= c < v + 8 && v <= d < v + 8
    ensures c == d
  {
  }

  lemma {:induction false} PowersDouble(p: nat, q: nat)
    requires PowerOfTwo(p) && PowerOfTwo(q) && p < q
    ensures 2 * p <= q
  {
    if p > 1 {
      PowersDouble(p / 2, q / 2);
    }
  }

  lemma {:induction false} CeilLeast(n: nat, p: nat, q: nat)
    requires p > 0 && PowerOfTwo(p) && PowerOfTwo(q) && n <= q && p <= q
    ensures BitCeil(n, p) <= q
    decreases n - p
  {
    if p < n {
      PowersDouble(p, q);
      CeilLeast(n, 2 * p, q);
    }
  }

  lemma {:induction false} LowerBoundLeast(s: seq<int>, x: int, c: int)
    requires (forall i, j :: 0 <= i < j < |s| ==> s[i] < s[j]) && (forall i :: 0 <= i < |s| ==> s[i] >= 0) && c in s && c >= x
    ensures LowerBound(s, x) in s && x <= LowerBound(s, x) <= c
  {
    if s[0] < x {
      LowerBoundLeast(s[1..], x, c);
    }
  }

  /** The smallest candidate that is large enough is the size that a request gets. */
  lemma BestSizeLeast(size: nat, c: int)
    requires size >= SizeOfObj
    ensures Candidate(BestSize(size)) && size <= BestSize(size)
    ensures Candidate(c) && c >= size ==> BestSize(size) <= c
  {
    BestSizeFits(size);
    BestIsCandidate(size);
    if c in {24, 32, 40, 48, 56, 64, 72, 88, 104, 120, 152} && c >= size {
      PreferredLeast(size, c);
    }
    if p: nat :| PowerOfTwo(p) && (c == p || BetweenSize(p, c)) && c >= size {
      PowerLeast(size, p, c);
    }
    hide *;
  }

  lemma BestIsCandidate(size: nat)
    requires size >= SizeOfObj
    ensures Candidate(BestSize(size))
  {
    assert PowerOfTwo(1);
    BitCeilExactly(size, 1);
    BetweenExactly(BitCeil(size, 1), InBetween(BitCeil(size, 1)));
    hide LowerBound, BitCeil, InBetween, PowerOfTwo, BetweenSize;
    LowerBoundFound(Preferred(), size);
  }

  lemma PreferredLeast(size: nat, c: int)
    requires size >= SizeOfObj && c in {24, 32, 40, 48, 56, 64, 72, 88, 104, 120, 152} && c >= size
    ensures BestSize(size) <= c
  {
    hide LowerBound, BitCeil, InBetween;
    assert c in Preferred();
    LowerBoundLeast(Preferred(), size, c);
  }

  lemma PowerLeast(size: nat, q: nat, c: int)
    requires size >= SizeOfObj && PowerOfTwo(q) && (c == q || BetweenSize(q, c)) && c >= size
    ensures BestSize(size) <= c
  {
    hide LowerBound, Preferred;
    var p := BitCeil(size, 1);
    assert PowerOfTwo(1);
    BitCeilExactly(size, 1);
    AtLeast32(size, 1);
    BetweenBelow(p);
    PowerPositive(q);
    if q < p {
      HalfBelow(p, q, size);
      assert BetweenSize(q, c);
      SmallBetween(q, c);
    } else if q == p {
      BetweenExactly(p, c);
    } else {
      PowersDouble(p, q);
      LargeBetween(p, q, c);
    }
    hide BitCeil, InBetween, BetweenSize;
  }

  lemma PowerPositive(p: nat)
    requires PowerOfTwo(p)
    ensures p >= 1
  {
  }

  /** A smaller power of two is at most half, which is too small. */
  lemma HalfBelow(p: nat, q: nat, size: nat)
    requires PowerOfTwo(p) && PowerOfTwo(q) && q < p && p / 2 < size
    ensures q < size
  {
    PowersDouble(q, p);
  }

  lemma SmallBetween(q: nat, c: int)
    requires BetweenSize(q, c)
    ensures c <= q || c < SizeOfObj
  {
  }

  lemma LargeBetween(p: nat, q: nat, c: int)
    requires 2 * p <= q && (c == q || BetweenSize(q, c))
    ensures p <= c
  {
  }
}
