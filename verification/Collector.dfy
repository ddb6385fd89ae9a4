/** A garbage collection from beginning to end (RunGC in rtsrc/WrenRuntime.cpp): the
    scanner marks, the allocator sweeps. Roots are given by the caller, in the
    groups in which the runtime reports them. */
module Collector {
  import opened Basics
  import opened Finite
  import opened Tracing
  import Allocators
  import SizeClasses
  import Slabs

  // ----- When a cycle is exact -----

  /** White objects are exactly the reachable ones. */
  ghost predicate Exact(kids: Kids, roots: seq<nat>, words: Words, white: nat) {
    forall o :: o in words ==> (words[o] == white <==> Reachable(kids, roots, o))
  }

  /** Every object that already had the white number is reachable, and what it reports
      has the white number too or is found without going through such objects. */
  ghost predicate StaleHarmless(kids: Kids, roots: seq<nat>, words0: Words, white: nat) {
    forall o :: o in Stale(words0, white) ==> Reachable(kids, roots, o) && KidsFound(kids, roots, words0, white, o)
  }

  ghost predicate KidsFound(kids: Kids, roots: seq<nat>, words0: Words, white: nat, o: nat) {
    forall q {:trigger Points(kids, o, q)} :: Points(kids, o, q) && q in words0 ==>
      q in Stale(words0, white) || Reaches(kids, roots, Stale(words0, white), q)
  }

  /** What a cycle finds, whatever the words were before: nothing but reachable objects
      and stale ones, and all reachable ones if and only if the stale ones do no harm. */
  lemma ExactIff(kids: Kids, roots: seq<nat>, words0: Words, words: Words, white: nat)
    requires HeapOk(words0, kids, roots) && Traced(kids, roots, words0, words, white)
    ensures Exact(kids, roots, words, white) <==> StaleHarmless(kids, roots, words0, white)
  {
    var stale := Stale(words0, white);
    if StaleHarmless(kids, roots, words0, white) {
      forall o | o in words
        ensures words[o] == white <==> Reachable(kids, roots, o)
      {
        if Reaches(kids, roots, stale, o) {
          ReachesReachable(kids, roots, stale, o);
        }
        if Reachable(kids, roots, o) {
          var p :| Path(kids, roots, {}, p) && p[|p| - 1] == o;
          FoundAlong(kids, roots, words0, white, p);
        }
      }
    }
    if Exact(kids, roots, words, white) {
      forall o | o in stale
        ensures Reachable(kids, roots, o) && KidsFound(kids, roots, words0, white, o)
      {
        assert words[o] == white;
        forall q | Points(kids, o, q) && q in words0
          ensures q in stale || Reaches(kids, roots, stale, q)
        {
          ReachesFurther(kids, roots, {}, o, q);
          assert words[q] == white;
        }
      }
    }
  }

  lemma {:induction false} FoundAlong(kids: Kids, roots: seq<nat>, words0: Words, white: nat, p: seq<nat>)
    requires HeapOk(words0, kids, roots) && StaleHarmless(kids, roots, words0, white) && Path(kids, roots, {}, p)
    ensures p[|p| - 1] in words0
    ensures p[|p| - 1] in Stale(words0, white) || Reaches(kids, roots, Stale(words0, white), p[|p| - 1])
  {
    var o := p[|p| - 1];
    if |p| == 1 {
      if o !in Stale(words0, white) {
        RootReaches(kids, roots, Stale(words0, white), o);
      }
    } else {
      var h := p[..|p| - 1];
      FoundAlong(kids, roots, words0, white, h);
      var i, j := |p| - 2, |p| - 1;
      var x := h[|h| - 1];
      assert Points(kids, p[i], p[j]) && x == p[i];
      assert Reachable(kids, roots, x) by {
        assert Path(kids, roots, {}, h);
      }
      assert ReportsObjects(words0, kids, x);
      if x !in Stale(words0, white) && o !in Stale(words0, white) {
        ReachesFurther(kids, roots, Stale(words0, white), x, o);
      }
    }
  }

  /** No object has the white number when the cycle begins. */
  ghost predicate Fresh(words0: Words, white: nat) {
    forall o :: o in words0 ==> words0[o] != white
  }

  lemma FreshExact(kids: Kids, roots: seq<nat>, words0: Words, words: Words, white: nat)
    requires HeapOk(words0, kids, roots) && Traced(kids, roots, words0, words, white) && Fresh(words0, white)
    ensures Exact(kids, roots, words, white)
  {
    assert Stale(words0, white) == {};
    ExactIff(kids, roots, words0, words, white);
  }

  // ----- White numbers -----

  /** The white number of a scanner after k cycles. */
  function WhiteAfter(k: nat): nat { (FirstWhite + 2 * k) % Wrap }

  /** Within k cycles the 32-bit number has not wrapped around. */
  predicate Unwrapped(k: nat) { FirstWhite + 2 * k < Wrap }

  lemma WhiteStep(k: nat)
    ensures (WhiteAfter(k) + 2) % Wrap == WhiteAfter(k + 1) && (FirstWhite + 2) % Wrap == WhiteAfter(1)
    ensures WhiteAfter(k) % 2 == 1
  {
  }

  lemma WhitesDiffer(j: nat, k: nat)
    requires Unwrapped(j) && Unwrapped(k)
    ensures (WhiteAfter(j) == WhiteAfter(k) <==> j == k) && WhiteAfter(k) != InitialWord
  {
  }

  /** The word of an object that is new, or that the last cycle has found. */
  ghost predicate IsRecent(word: nat, cycles: nat) {
    word == InitialWord || (cycles > 0 && word == WhiteAfter(cycles))
  }

  ghost predicate Tidy(words: Words, cycles: nat) {
    forall o :: o in words ==> IsRecent(words[o], cycles)
  }

  /** When all words are of that kind, exactly the objects that survived the last cycle are stale in
      the next one, and only if the scanner has been thrown away after one cycle. */
  lemma StaleExactly(words: Words, cycles: nat, next: nat)
    requires Tidy(words, cycles) && Unwrapped(cycles) && Unwrapped(next) && (next == 1 || next == cycles + 1)
    ensures Fresh(words, WhiteAfter(next)) <==> cycles != 1 || next != 1 || forall o :: o in words ==> words[o] == InitialWord
  {
    WhitesDiffer(cycles, next);
    if cycles == 1 && next == 1 {
      forall o | o in words
        ensures words[o] == InitialWord || words[o] == WhiteAfter(next)
      {
        assert IsRecent(words[o], cycles);
      }
    } else {
      forall o | o in words
        ensures words[o] != WhiteAfter(next)
      {
        assert IsRecent(words[o], cycles);
      }
    }
  }

  // ----- The white number after the scanner has been replaced -----

  /** The heap after one cycle of a scanner that was then thrown away: object a survived it, and
      b has been made since and is reported by a. */
  function HeapAfterReset(a: nat, b: nat): Words { map[a := FirstWhite + 2, b := InitialWord] }

  function KidsAfterReset(a: nat, b: nat): Kids { map[a := [b], b := []] }

  ghost predicate TwoObjects(a: nat, b: nat) { a != b && a != 0 && b != 0 && Even(a) && Even(b) }

  /** The new scanner's first cycle uses the same white number again: it skips object a, so
      that b stays black and is freed although it is reachable. */
  lemma ResetLosesObjects(a: nat, b: nat, words: Words)
    requires TwoObjects(a, b) && Traced(KidsAfterReset(a, b), [a], HeapAfterReset(a, b), words, FirstWhite + 2)
    ensures HeapOk(HeapAfterReset(a, b), KidsAfterReset(a, b), [a])
    ensures Reachable(KidsAfterReset(a, b), [a], b) && b in words && words[b] != FirstWhite + 2
  {
    ResetHeapOk(a, b);
    ResetReachable(a, b);
    NotReached(a, b, Stale(HeapAfterReset(a, b), FirstWhite + 2), b);
    hide *;
    hide Reachable;
    TracedAt(KidsAfterReset(a, b), [a], HeapAfterReset(a, b), words, FirstWhite + 2, b);
  }

  lemma TracedAt(kids: Kids, roots: seq<nat>, words0: Words, words: Words, white: nat, o: nat)
    requires Traced(kids, roots, words0, words, white) && o in words0
    ensures o in words && (words[o] == white <==> words0[o] == white || Reaches(kids, roots, Stale(words0, white), o))
  {
  }

  lemma ResetHeapOk(a: nat, b: nat)
    requires TwoObjects(a, b)
    ensures HeapOk(HeapAfterReset(a, b), KidsAfterReset(a, b), [a])
  {
    hide Reachable;
    EvenPointer(a);
    EvenPointer(b);
    hide Pointer, Even;
    assert ReportsObjects(HeapAfterReset(a, b), KidsAfterReset(a, b), a) && ReportsObjects(HeapAfterReset(a, b), KidsAfterReset(a, b), b);
  }

  lemma EvenPointer(a: nat)
    requires Even(a)
    ensures Pointer(a) == a
  {
  }

  lemma ResetEdges(a: nat, b: nat)
    requires TwoObjects(a, b)
    ensures IsRoot([a], a) && Points(KidsAfterReset(a, b), a, b)
  {
    assert Pointer([a][0]) == a;
    var ks := KidsAfterReset(a, b)[a];
    assert Pointer(ks[0]) == b;
  }

  lemma ResetReachable(a: nat, b: nat)
    requires TwoObjects(a, b)
    ensures Reachable(KidsAfterReset(a, b), [a], b)
  {
    ResetEdges(a, b);
    hide IsRoot, Points;
    assert Path(KidsAfterReset(a, b), [a], {}, [a, b]);
  }

  lemma NotReached(a: nat, b: nat, stale: set<nat>, o: nat)
    requires TwoObjects(a, b) && a in stale
    ensures !Reaches(KidsAfterReset(a, b), [a], stale, o)
  {
    forall p | Path(KidsAfterReset(a, b), [a], stale, p)
      ensures p[0] == a
    {
      OnlyRoot(a, p[0]);
    }
  }

  lemma OnlyRoot(a: nat, q: nat)
    requires IsRoot([a], q) && Even(a)
    ensures q == a
  {
  }

  // ----- The runtime -----

  ghost predicate WordsOk(words: Words) {
    forall o :: o in words ==> Even(o) && o != 0 && !Even(words[o])
  }

  /** Every object of the allocator has a word. */
  ghost predicate HaveWords(blocks: set<Allocators.Block>, words: Words) {
    forall b :: b in blocks ==> b.at in words
  }

  /** The object is one of the allocator's. */
  ghost predicate InBlocks(blocks: set<Allocators.Block>, o: int) {
    exists b :: b in blocks && b.at == o
  }

  /** The allocator's objects are new, or have been found by the last cycle. */
  ghost predicate Recent(blocks: set<Allocators.Block>, words: Words, cycles: nat) {
    forall b :: b in blocks && b.at in words ==> IsRecent(words[b.at], cycles)
  }

  /** The objects of the allocator that are kept are those with the white number. */
  ghost predicate WhiteKept(before: set<Allocators.Block>, after: set<Allocators.Block>, words: Words, white: nat) {
    forall b :: b in after <==> b in before && b.at in words && words[b.at] == white
  }

  ghost predicate ReachableKept(before: set<Allocators.Block>, after: set<Allocators.Block>, kids: Kids, roots: seq<nat>) {
    forall b :: b in before && b.at >= 0 ==> (b in after <==> Reachable(kids, roots, b.at))
  }

  /** The objects outside slabs are reachable, or no cycle has ever found them. */
  ghost predicate OutsideFound(blocks: set<Allocators.Block>, words: Words, kids: Kids, roots: seq<nat>) {
    forall o :: o in words && !InBlocks(blocks, o) ==> Reachable(kids, roots, o) || words[o] == InitialWord
  }

  /** Only the allocator's objects are in its slabs. */
  ghost predicate Apart(slabs: seq<Slabs.Slab>, slabSize: int, blocks: set<Allocators.Block>, words: Words) {
    forall o :: o in words && Allocators.InSlab(slabs, slabSize, o) ==> InBlocks(blocks, o)
  }

  ghost predicate OneEach(blocks: set<Allocators.Block>) {
    forall b, c :: b in blocks && c in blocks && b.at == c.at ==> b == c
  }

  /** What is left when some objects have been destroyed. */
  function Without<V>(m: map<nat, V>, freed: seq<int>): map<nat, V> {
    map o | o in m && o !in freed :: m[o]
  }

  function AllRoots(moduleRoots: seq<nat>, extraRoots: seq<nat>, threadRoots: seq<nat>, apiRoots: seq<nat>): seq<nat> {
    moduleRoots + extraRoots + threadRoots + apiRoots
  }

  /** No word is above the white number. */
  ghost predicate NoneAbove(words: Words, white: nat) {
    FirstWhite <= white && forall o :: o in words ==> words[o] <= white
  }

  /** The same for the objects outside slabs. */
  ghost predicate NoneAboveOutside(blocks: set<Allocators.Block>, words: Words, white: nat) {
    forall o :: o in words && !InBlocks(blocks, o) ==> words[o] <= white
  }

  class Runtime {
    const heap: Heap
    const allocator: Allocators.Allocator
    var scanner: Scanner?
    /** How many cycles the scanner has done, or the last one that did any before it was thrown away. */
    ghost var cycles: nat

    /** Every object has an odd word. (Objects that are not in slabs have words too.) */
    ghost predicate Valid()
      reads this, heap, scanner, allocator, allocator.Repr
    {
      && allocator.Valid() && heap !in allocator.Repr && this !in allocator.Repr && scanner !in allocator.Repr
      && (scanner != null ==> scanner.heap == heap && scanner.Idle() && cycles > 0 && scanner.white == WhiteAfter(cycles))
      && WordsOk(heap.words) && HaveWords(allocator.Blocks(), heap.words)
      && Recent(allocator.Blocks(), heap.words, cycles) && Apart(allocator.slabs, allocator.slabSize, allocator.Blocks(), heap.words)
    }

    /** The white number of the next cycle. */
    ghost function NextWhite(): nat
      reads this, scanner
    {
      ((if scanner == null then FirstWhite else scanner.white) + 2) % Wrap
    }

    /** Which cycle of its scanner the next one is. */
    ghost function NextCycle(): nat
      reads this
    {
      if scanner == null then 1 else cycles + 1
    }

    lemma NextIs()
      requires scanner != null ==> scanner.white == WhiteAfter(cycles)
      ensures NextWhite() == WhiteAfter(NextCycle())
    {
      WhiteStep(cycles);
    }

    /** No word is above the white number of the scanner. */
    ghost predicate InLifetime()
      reads this, scanner, heap
    {
      scanner != null && NoneAbove(heap.words, scanner.white)
    }

    /** The memory is not in use. */
    ghost predicate Unused(at: int)
      reads heap, allocator
    {
      && (forall j :: 0 <= j < |allocator.slabs| ==> allocator.Away(allocator.slabs[j].base, at))
      && forall o :: o in heap.words ==> o < at || at + allocator.slabSize <= o
    }

    constructor (slab: int, header: int)
      requires 0 <= header <= slab
      ensures Valid() && fresh(heap) && fresh(allocator) && fresh(allocator.Repr) && scanner == null && cycles == 0
      ensures heap.words == map[] && heap.kids == map[] && allocator.Blocks() == {} && allocator.slabs == []
      ensures allocator.slabSize == slab && allocator.available == slab - header
    {
      heap := new Heap();
      allocator := new Allocators.Allocator(slab, header);
      scanner := null;
      cycles := 0;
    }

    /** Makes an object, whose word is odd and not white. None, where the program aborts, exactly if the
        size is too small for an object or too big for a slab. */
    method NewObject(size: int, reports: seq<nat>, at: nat) returns (o: Option<int>)
      requires Valid() && at > 0 && at % 8 == 0 && Unused(at)
      modifies heap, allocator.Repr
      ensures Valid() && scanner == old(scanner) && fresh(allocator.Repr - old(allocator.Repr))
      ensures o.Some? <==> SizeClasses.Fits(size, allocator.available)
      ensures o.None? ==> heap.words == old(heap.words) && heap.kids == old(heap.kids) && allocator.Blocks() == old(allocator.Blocks())
      ensures o.None? ==> allocator.slabs == old(allocator.slabs)
      ensures o.Some? ==> |allocator.slabs| == |old(allocator.slabs)| + if old(allocator.HasRoom(SizeClasses.BestSize(size))) then 0 else 1
      ensures o.Some? ==> var next := old(allocator.NextFree(SizeClasses.BestSize(size))); o == if next.Some? then next else Some(at)
      ensures o.Some? ==>
        && o.value > 0 && heap.words == old(heap.words)[o.value := InitialWord] && heap.kids == old(heap.kids)[o.value := reports]
        && o.value !in old(heap.words) && Even(o.value)
        && var b := Allocators.Block(o.value, SizeClasses.BestSize(size));
           b !in old(allocator.Blocks()) && allocator.Blocks() == old(allocator.Blocks()) + {b}
      ensures old(InLifetime()) ==> InLifetime()
    {
      hide SizeClasses.BestSize, WordsOk, HaveWords, NoneAbove, Recent, InBlocks, Apart, Even, Allocators.Allocator.Valid, Allocators.Allocator.Blocks,
        Allocators.Allocator.HasRoom, Allocators.Allocator.NextFree;
      allocator.ValidOwns();
      o := allocator.AllocateRaw(size, at);
      allocator.ValidOwns();
      StillApart(old(allocator.slabs), allocator.slabs, allocator.slabSize, at, old(allocator.Blocks()), allocator.Blocks(), heap.words);
      if o.Some? {
        ghost var b := Allocators.Block(o.value, SizeClasses.BestSize(size));
        allocator.BlockHeld(b);
        allocator.OneAtEach();
        NoWordYet(old(allocator.slabs), allocator.slabs, allocator.slabSize, at, old(allocator.Blocks()), b, heap.words);
        WordInBlock(allocator.slabs, allocator.slabSize, allocator.Blocks(), b, heap.words);
        NewWord(heap.words, old(allocator.Blocks()), o.value, SizeClasses.BestSize(size), cycles);
        heap.words := heap.words[o.value := InitialWord];
        heap.kids := heap.kids[o.value := reports];
      }
    }

    /** An object outside the slabs, such as a class of the runtime. */
    method AddStatic(o: nat, reports: seq<nat>)
      requires Valid() && o != 0 && Even(o) && o !in heap.words && !Allocators.InSlab(allocator.slabs, allocator.slabSize, o)
      modifies heap
      ensures Valid() && heap.words == old(heap.words)[o := InitialWord] && heap.kids == old(heap.kids)[o := reports]
    {
      hide Allocators.Allocator.Valid, Allocators.Allocator.Blocks;
      OddOne();
      heap.words := heap.words[o := InitialWord];
      heap.kids := heap.kids[o := reports];
    }

    /** A module has been loaded: the scanner is thrown away (GetOrInitModule). */
    method ResetScanner()
      requires Valid()
      modifies this`scanner
      ensures Valid() && scanner == null && NextWhite() == FirstWhite + 2
    {
      scanner := null;
    }

    /** The marking half of a collection. */
    method Mark(moduleRoots: seq<nat>, extraRoots: seq<nat>, threadRoots: seq<nat>, apiRoots: seq<nat>, ghost roots: seq<nat>)
      requires scanner != null ==> scanner.heap == heap && scanner.Idle()
      requires roots == AllRoots(moduleRoots, extraRoots, threadRoots, apiRoots)
      requires WordsOk(heap.words) && HeapOk(heap.words, heap.kids, roots)
      modifies this, heap`words, scanner
      ensures scanner != null && scanner.heap == heap && scanner.Idle() && scanner.white == old(NextWhite())
      ensures scanner == old(scanner) || fresh(scanner)
      ensures cycles == old(NextCycle())
      ensures Traced(heap.kids, roots, old(heap.words), heap.words, scanner.white)
    {
      hide HeapOk, Traced, Reachable, Reaches, Scanner.Marking, Scanner.Dealt;
      if scanner == null {
        scanner := new Scanner(heap);
        cycles := 0;
      }
      cycles := cycles + 1;
      scanner.BeginGCCycle(roots);
      scanner.MarkRoots(moduleRoots, roots);
      scanner.MarkRoots(extraRoots, roots);
      scanner.MarkRoots(threadRoots, roots);
      scanner.MarkRoots(apiRoots, roots);
      forall q | IsRoot(roots, q)
        ensures scanner.Dealt(0, q)
      {
        var i :| 0 <= i < |roots| && Pointer(roots[i]) == q;
        assert roots[i] in moduleRoots || roots[i] in extraRoots || roots[i] in threadRoots || roots[i] in apiRoots;
      }
      scanner.EndGCCycle(roots);
    }

    /** The sweeping half: destroyed objects have no words any more, and report nothing. */
    method Sweep() returns (freed: seq<int>)
      requires allocator.Valid() && heap !in allocator.Repr && this !in allocator.Repr && scanner !in allocator.Repr
      requires scanner != null && HaveWords(allocator.Blocks(), heap.words)
      modifies heap, allocator.Repr
      ensures allocator.Valid() && allocator.Repr == old(allocator.Repr) && allocator.slabs == old(allocator.slabs)
      ensures heap.words == Without(old(heap.words), freed) && heap.kids == Without(old(heap.kids), freed)
      ensures Allocators.Freed(freed, old(allocator.Blocks()), old(heap.words), scanner.white) && OneEach(old(allocator.Blocks()))
      ensures allocator.Blocks() == Allocators.OnlyMarked(old(allocator.Blocks()), old(heap.words), scanner.white)
    {
      allocator.ValidOwns();
      hide OneEach, Without, Allocators.Freed, Allocators.OnlyMarked, Allocators.Allocator.Valid, Allocators.Allocator.Blocks;
      allocator.OneAtEach();
      BlocksOnce(allocator.Blocks());
      freed := allocator.DeallocateUnreachableObjects(heap.words, scanner.white);
      allocator.ValidOwns();
      heap.words := Without(heap.words, freed);
      heap.kids := Without(heap.kids, freed);
    }

    /** Marking and then sweeping. */
    method MarkAndSweep(moduleRoots: seq<nat>, extraRoots: seq<nat>, threadRoots: seq<nat>, apiRoots: seq<nat>, ghost roots: seq<nat>)
      returns (ghost marked: Words, freed: seq<int>)
      requires Valid() && roots == AllRoots(moduleRoots, extraRoots, threadRoots, apiRoots)
      requires HeapOk(heap.words, heap.kids, roots)
      modifies this, heap, scanner, allocator.Repr
      ensures Valid() && scanner != null && scanner.white == old(NextWhite()) && cycles == old(NextCycle())
      ensures (scanner == old(scanner) || fresh(scanner)) && allocator.Repr == old(allocator.Repr) && allocator.slabs == old(allocator.slabs)
      ensures heap.words == Without(marked, freed) && heap.kids == Without(old(heap.kids), freed)
      ensures Swept(old(heap.kids), roots, old(heap.words), marked, old(allocator.Blocks()), allocator.Blocks(), freed, scanner.white)
    {
      ghost var before, words0, kids0, cycle := allocator.Blocks(), heap.words, heap.kids, NextCycle();
      hide HeapOk, Traced, WordsOk, HaveWords, Recent, Apart, Without, OneEach, AllRoots, WhiteAfter, Swept, Allocators.Freed, Allocators.OnlyMarked;
      hide Scanner.Idle, Allocators.Allocator.Valid, Allocators.Allocator.Blocks, Allocators.Allocator.Owned;
      allocator.ValidOwns();
      NextIs();
      Mark(moduleRoots, extraRoots, threadRoots, apiRoots, roots);
      marked := heap.words;
      assert allocator.Valid() && allocator.Blocks() == before && heap.kids == kids0 && scanner.white == WhiteAfter(cycle);
      AfterMark(kids0, roots, words0, marked, scanner.white, before, allocator.slabs, allocator.slabSize);
      freed := Sweep();
      assert allocator.Valid() && scanner.white == WhiteAfter(cycle) && cycles == cycle;
      allocator.ValidOwns();
      AfterSweep(kids0, roots, words0, marked, before, allocator.Blocks(), freed, cycle, allocator.slabs, allocator.slabSize);
    }

    /** One collection; marked are the words between marking and sweeping, freed the objects destroyed.
        Whatever the words were before, the objects that survive are those that were stale or
        were found without going through stale ones. When the stale ones do no harm (no object has the
        next white number already, for example), these are exactly the reachable ones, and
        nothing that can be reached reports a destroyed object. */
    method RunGC(moduleRoots: seq<nat>, extraRoots: seq<nat>, threadRoots: seq<nat>, apiRoots: seq<nat>, ghost roots: seq<nat>)
      returns (ghost marked: Words, freed: seq<int>)
      requires Valid() && roots == AllRoots(moduleRoots, extraRoots, threadRoots, apiRoots)
      requires HeapOk(heap.words, heap.kids, roots)
      modifies this, heap, scanner, allocator.Repr
      ensures Valid() && scanner != null && scanner.white == old(NextWhite()) && cycles == old(NextCycle())
      ensures (scanner == old(scanner) || fresh(scanner)) && allocator.Repr == old(allocator.Repr) && allocator.slabs == old(allocator.slabs)
      ensures Traced(old(heap.kids), roots, old(heap.words), marked, scanner.white)
      ensures heap.words == Without(marked, freed) && heap.kids == Without(old(heap.kids), freed)
      ensures Allocators.Freed(freed, old(allocator.Blocks()), marked, scanner.white)
      ensures WhiteKept(old(allocator.Blocks()), allocator.Blocks(), marked, scanner.white)
      ensures StaleHarmless(old(heap.kids), roots, old(heap.words), old(NextWhite())) ==>
        && ReachableKept(old(allocator.Blocks()), allocator.Blocks(), old(heap.kids), roots)
        && HeapOk(heap.words, heap.kids, roots)
      ensures Fresh(old(heap.words), old(NextWhite())) ==> StaleHarmless(old(heap.kids), roots, old(heap.words), old(NextWhite()))
      ensures Fresh(old(heap.words), old(NextWhite())) && OutsideFound(old(allocator.Blocks()), old(heap.words), old(heap.kids), roots) ==>
        Tidy(heap.words, cycles)
      ensures old(InLifetime()) && old(scanner.white) + 2 < Wrap ==> Fresh(old(heap.words), old(NextWhite())) && InLifetime()
      ensures FirstWhite <= old(NextWhite()) && NoneAboveOutside(old(allocator.Blocks()), old(heap.words), old(NextWhite())) ==> InLifetime()
    {
      hide Fresh, StaleHarmless, Exact, Traced, Swept, HeapOk, NoneAbove, NoneAboveOutside, OutsideFound, Tidy, ReachableKept, WhiteKept, Without,
        AllRoots, WhiteAfter, WordsOk, HaveWords, Recent, Apart, Allocators.Freed, Allocators.Allocator.Valid, Allocators.Allocator.Blocks;
      allocator.ValidOwns();
      NextIs();
      ghost var before, words0, kids0 := allocator.Blocks(), heap.words, heap.kids;
      marked, freed := MarkAndSweep(moduleRoots, extraRoots, threadRoots, apiRoots, roots);
      allocator.ValidOwns();
      Collected(kids0, roots, words0, marked, before, allocator.Blocks(), freed, cycles);
      if old(InLifetime()) && old(scanner.white) + 2 < Wrap {
        LifetimeFresh(kids0, roots, words0, marked, old(scanner.white));
        FewerWords(marked, freed, scanner.white);
      }
    }
  }

  /** Between the two ends of a collection: what has been marked, and what has been freed. */
  ghost predicate Swept(kids: Kids, roots: seq<nat>, words0: Words, marked: Words, before: set<Allocators.Block>, after: set<Allocators.Block>,
                        freed: seq<int>, white: nat) {
    && Traced(kids, roots, words0, marked, white) && HeapOk(words0, kids, roots) && HaveWords(before, marked)
    && after == Allocators.OnlyMarked(before, marked, white) && Allocators.Freed(freed, before, marked, white)
  }

  lemma AfterSweep(kids: Kids, roots: seq<nat>, words0: Words, marked: Words, before: set<Allocators.Block>, after: set<Allocators.Block>,
                   freed: seq<int>, cycle: nat, slabs: seq<Slabs.Slab>, slabSize: int)
    requires Traced(kids, roots, words0, marked, WhiteAfter(cycle)) && HeapOk(words0, kids, roots) && cycle > 0
    requires WordsOk(marked) && HaveWords(before, marked) && OneEach(before) && Apart(slabs, slabSize, before, marked)
    requires after == Allocators.OnlyMarked(before, marked, WhiteAfter(cycle)) && Allocators.Freed(freed, before, marked, WhiteAfter(cycle))
    ensures Swept(kids, roots, words0, marked, before, after, freed, WhiteAfter(cycle))
    ensures var words := Without(marked, freed);
      WordsOk(words) && HaveWords(after, words) && Recent(after, words, cycle) && Apart(slabs, slabSize, after, words)
  {
    KeptWhite(before, after, marked, WhiteAfter(cycle));
    Survivors(marked, WhiteAfter(cycle), before, after, freed, cycle, slabs, slabSize);
    hide *;
    hide Traced, HeapOk;
  }

  lemma KeptWhite(before: set<Allocators.Block>, after: set<Allocators.Block>, words: Words, white: nat)
    requires after == Allocators.OnlyMarked(before, words, white)
    ensures WhiteKept(before, after, words, white)
  {
  }

  /** What a collection leaves, in its cycle with this number. */
  lemma Collected(kids: Kids, roots: seq<nat>, words0: Words, marked: Words, before: set<Allocators.Block>, after: set<Allocators.Block>,
                  freed: seq<int>, cycle: nat)
    requires Swept(kids, roots, words0, marked, before, after, freed, WhiteAfter(cycle)) && cycle > 0
    ensures var words, white := Without(marked, freed), WhiteAfter(cycle);
      && Traced(kids, roots, words0, marked, white) && Allocators.Freed(freed, before, marked, white)
      && WhiteKept(before, after, marked, white)
      && (StaleHarmless(kids, roots, words0, white) ==>
            ReachableKept(before, after, kids, roots) && HeapOk(words, Without(kids, freed), roots))
      && (Fresh(words0, white) ==> StaleHarmless(kids, roots, words0, white))
      && (Fresh(words0, white) && OutsideFound(before, words0, kids, roots) ==> Tidy(words, cycle))
      && (FirstWhite <= white && NoneAboveOutside(before, words0, white) ==> NoneAbove(words, white))
  {
    var white := WhiteAfter(cycle);
    KeptWhite(before, after, marked, white);
    ReachableLeft(kids, roots, words0, marked, white, before, after, freed);
    FreshHarmless(kids, roots, words0, white);
    AfterCycle(kids, roots, words0, marked, before, freed, cycle);
    LifetimeBegins(kids, roots, words0, marked, white, before, freed);
    hide *;
  }

  lemma StillApart(slabs: seq<Slabs.Slab>, slabs': seq<Slabs.Slab>, slabSize: int, at: int, blocks: set<Allocators.Block>, blocks': set<Allocators.Block>, words: Words)
    requires Apart(slabs, slabSize, blocks, words) && blocks <= blocks' && |slabs| <= |slabs'| && slabs'[..|slabs|] == slabs
    requires (forall j :: |slabs| <= j < |slabs'| ==> slabs'[j].base == at) && forall o :: o in words ==> o < at || at + slabSize <= o
    ensures Apart(slabs', slabSize, blocks', words)
  {
    forall o | o in words && Allocators.InSlab(slabs', slabSize, o)
      ensures InBlocks(blocks', o)
    {
      OldSlab(slabs, slabs', slabSize, at, o);
    }
  }

  lemma OldSlab(slabs: seq<Slabs.Slab>, slabs': seq<Slabs.Slab>, slabSize: int, at: int, a: int)
    requires |slabs| <= |slabs'| && slabs'[..|slabs|] == slabs && forall j :: |slabs| <= j < |slabs'| ==> slabs'[j].base == at
    requires Allocators.InSlab(slabs', slabSize, a) && (a < at || at + slabSize <= a)
    ensures Allocators.InSlab(slabs, slabSize, a)
  {
    var j :| 0 <= j < |slabs'| && slabs'[j].base <= a < slabs'[j].base + slabSize;
    assert slabs'[j] == slabs'[..|slabs|][j];
  }

  /** No object was at the address of a new block. */
  lemma NoWordYet(slabs: seq<Slabs.Slab>, slabs': seq<Slabs.Slab>, slabSize: int, at: int, blocks: set<Allocators.Block>, b: Allocators.Block, words: Words)
    requires Apart(slabs, slabSize, blocks, words) && |slabs| <= |slabs'| && slabs'[..|slabs|] == slabs
    requires (forall j :: |slabs| <= j < |slabs'| ==> slabs'[j].base == at) && forall o :: o in words ==> o < at || at + slabSize <= o
    requires Allocators.InSlab(slabs', slabSize, b.at) && b !in blocks
    requires forall c :: c in blocks && c.at == b.at ==> c == b
    ensures b.at !in words
  {
    if b.at in words {
      OldSlab(slabs, slabs', slabSize, at, b.at);
    }
  }

  lemma WordInBlock(slabs: seq<Slabs.Slab>, slabSize: int, blocks: set<Allocators.Block>, b: Allocators.Block, words: Words)
    requires Apart(slabs, slabSize, blocks, words) && b in blocks && b.at >= 0
    ensures Apart(slabs, slabSize, blocks, words[b.at := InitialWord])
  {
    assert InBlocks(blocks, b.at);
  }

  lemma NewWord(words: Words, blocks: set<Allocators.Block>, a: nat, n: int, cycles: nat)
    requires WordsOk(words) && HaveWords(blocks, words) && Recent(blocks, words, cycles) && a > 0 && a % 8 == 0
    ensures WordsOk(words[a := InitialWord]) && HaveWords(blocks + {Allocators.Block(a, n)}, words[a := InitialWord])
    ensures Recent(blocks + {Allocators.Block(a, n)}, words[a := InitialWord], cycles) && Even(a)
    ensures forall white :: NoneAbove(words, white) ==> NoneAbove(words[a := InitialWord], white)
  {
    EvenAddress(a);
    hide Even;
    OddOne();
  }

  lemma EvenAddress(a: nat)
    requires a % 8 == 0
    ensures Even(a)
  {
    Slabs.Multiple(a, 4 * (a / 8), 2);
  }

  lemma OddOne()
    ensures !Even(InitialWord)
  {
  }

  lemma AfterMark(kids: Kids, roots: seq<nat>, words0: Words, words: Words, white: nat, blocks: set<Allocators.Block>, slabs: seq<Slabs.Slab>, slabSize: int)
    requires Traced(kids, roots, words0, words, white) && WordsOk(words0) && HaveWords(blocks, words0) && Apart(slabs, slabSize, blocks, words0)
    ensures WordsOk(words) && HaveWords(blocks, words) && Apart(slabs, slabSize, blocks, words)
  {
  }

  lemma BlocksOnce(blocks: set<Allocators.Block>)
    requires forall b, c :: b in blocks && c in blocks && b.at == c.at ==> b == c
    ensures OneEach(blocks)
  {
  }

  lemma ReachableLeft(kids: Kids, roots: seq<nat>, words0: Words, words: Words, white: nat, before: set<Allocators.Block>, after: set<Allocators.Block>, freed: seq<int>)
    requires Swept(kids, roots, words0, words, before, after, freed, white)
    ensures StaleHarmless(kids, roots, words0, white) ==>
      ReachableKept(before, after, kids, roots) && HeapOk(Without(words, freed), Without(kids, freed), roots)
  {
    if StaleHarmless(kids, roots, words0, white) {
      ExactIff(kids, roots, words0, words, white);
      FreedUnreachable(kids, roots, words, white, before, freed);
      SameHeap(words0, words, kids, roots);
      NoneDangling(words, kids, roots, freed);
    }
  }

  lemma FreedUnreachable(kids: Kids, roots: seq<nat>, words: Words, white: nat, before: set<Allocators.Block>, freed: seq<int>)
    requires Exact(kids, roots, words, white) && HaveWords(before, words) && Allocators.Freed(freed, before, words, white)
    ensures forall o: nat :: o in freed ==> !Reachable(kids, roots, o)
  {
    hide Reachable;
  }

  /** Destroying unreachable objects leaves what can be reached as it was. */
  lemma NoneDangling(words: Words, kids: Kids, roots: seq<nat>, freed: seq<int>)
    requires HeapOk(words, kids, roots) && forall o: nat :: o in freed ==> !Reachable(kids, roots, o)
    ensures HeapOk(Without(words, freed), Without(kids, freed), roots)
  {
    var words', kids' := Without(words, freed), Without(kids, freed);
    forall i | 0 <= i < |roots|
      ensures Reported(words', roots[i])
    {
      if Pointer(roots[i]) != 0 {
        RootReaches(kids, roots, {}, Pointer(roots[i]));
      }
    }
    forall o | o in words' && Reachable(kids', roots, o)
      ensures ReportsObjects(words', kids', o)
    {
      FewerPaths(kids, roots, freed, o);
      assert ReportsObjects(words, kids, o);
      forall i | 0 <= i < |kids[o]|
        ensures Reported(words', kids[o][i])
      {
        if Pointer(kids[o][i]) != 0 {
          assert Points(kids, o, Pointer(kids[o][i]));
          ReachesFurther(kids, roots, {}, o, Pointer(kids[o][i]));
        }
      }
    }
  }

  lemma FewerPaths(kids: Kids, roots: seq<nat>, freed: seq<int>, o: nat)
    requires Reachable(Without(kids, freed), roots, o)
    ensures Reachable(kids, roots, o)
  {
    var p :| Path(Without(kids, freed), roots, {}, p) && p[|p| - 1] == o;
    forall i, j | 0 <= i < j < |p| && j == i + 1
      ensures Points(kids, p[i], p[j])
    {
      assert Points(Without(kids, freed), p[i], p[j]);
    }
    assert Path(kids, roots, {}, p);
  }

  /** What holds for the objects that survive. */
  lemma Survivors(words: Words, white: nat, before: set<Allocators.Block>, after: set<Allocators.Block>, freed: seq<int>, cycle: nat,
                  slabs: seq<Slabs.Slab>, slabSize: int)
    requires WordsOk(words) && HaveWords(before, words) && OneEach(before) && white == WhiteAfter(cycle) && cycle > 0
    requires WhiteKept(before, after, words, white) && Allocators.Freed(freed, before, words, white) && Apart(slabs, slabSize, before, words)
    ensures WordsOk(Without(words, freed)) && HaveWords(after, Without(words, freed)) && Recent(after, Without(words, freed), cycle)
    ensures Apart(slabs, slabSize, after, Without(words, freed))
  {
    hide WhiteAfter, Even;
    forall b | b in after
      ensures b.at in Without(words, freed)
    {
      assert b.at !in freed;
    }
    forall o | o in Without(words, freed) && Allocators.InSlab(slabs, slabSize, o)
      ensures InBlocks(after, o)
    {
      var b :| b in before && b.at == o;
      assert b in after;
    }
  }

  lemma FreshHarmless(kids: Kids, roots: seq<nat>, words0: Words, white: nat)
    ensures Fresh(words0, white) ==> StaleHarmless(kids, roots, words0, white)
  {
  }

  lemma AfterCycle(kids: Kids, roots: seq<nat>, words0: Words, words: Words, before: set<Allocators.Block>, freed: seq<int>, cycle: nat)
    requires Traced(kids, roots, words0, words, WhiteAfter(cycle)) && HeapOk(words0, kids, roots) && cycle > 0
    requires Allocators.Freed(freed, before, words, WhiteAfter(cycle))
    ensures Fresh(words0, WhiteAfter(cycle)) && OutsideFound(before, words0, kids, roots) ==> Tidy(Without(words, freed), cycle)
  {
    hide WhiteAfter;
    if Fresh(words0, WhiteAfter(cycle)) && OutsideFound(before, words0, kids, roots) {
      FreshExact(kids, roots, words0, words, WhiteAfter(cycle));
      forall o | o in Without(words, freed)
        ensures IsRecent(words[o], cycle)
      {
        if InBlocks(before, o) {
          var b :| b in before && b.at == o;
          assert Allocators.Marked(b, words, WhiteAfter(cycle));
        } else if !Reachable(kids, roots, o) {
          ReachesOnly(kids, roots, Stale(words0, WhiteAfter(cycle)), o);
        }
      }
    }
  }

  lemma ReachesOnly(kids: Kids, roots: seq<nat>, stale: set<nat>, o: nat)
    requires !Reachable(kids, roots, o)
    ensures !Reaches(kids, roots, stale, o)
  {
    if Reaches(kids, roots, stale, o) {
      ReachesReachable(kids, roots, stale, o);
    }
  }

  lemma FewerWords(words: Words, freed: seq<int>, white: nat)
    ensures NoneAbove(words, white) ==> NoneAbove(Without(words, freed), white)
  {
  }

  /** After any cycle of a scanner no word is above its white number, but for objects outside slabs. */
  lemma LifetimeBegins(kids: Kids, roots: seq<nat>, words0: Words, words: Words, white: nat, before: set<Allocators.Block>, freed: seq<int>)
    requires Traced(kids, roots, words0, words, white) && HaveWords(before, words) && Allocators.Freed(freed, before, words, white)
    ensures FirstWhite <= white && NoneAboveOutside(before, words0, white) ==> NoneAbove(Without(words, freed), white)
  {
    hide Reaches;
    forall o | o in Without(words, freed) && InBlocks(before, o)
      ensures words[o] == white
    {
      var b :| b in before && b.at == o;
      assert Allocators.Marked(b, words, white);
    }
  }

  /** Within the lifetime of one scanner every cycle is exact, until its 32-bit number wraps around. */
  lemma LifetimeFresh(kids: Kids, roots: seq<nat>, words0: Words, words: Words, white: nat)
    requires NoneAbove(words0, white) && white + 2 < Wrap
    ensures Fresh(words0, (white + 2) % Wrap)
    ensures Traced(kids, roots, words0, words, white + 2) ==> NoneAbove(words, white + 2)
  {
  }
}
