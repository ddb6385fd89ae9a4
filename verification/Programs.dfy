/** Whole programs over the garbage collector (rtsrc/WrenRuntime.cpp): objects are made, written,
    read and forgotten, collections run and modules are loaded, in any order. */
module Programs {
  import opened Basics
  import opened Tracing
  import opened Collector
  import Allocators
  import SizeClasses

  /** What a program does. It names objects by the positions of the values that it holds. */
  datatype Action =
    | Make(size: int, reports: seq<nat>)
    | Define(reports: seq<nat>)
    | Store(i: nat, reports: seq<nat>)
    | Fetch(i: nat, field: nat)
    | Drop(i: nat)
    | Collect
    | Load

  /** The collections of a program are safe: none of them is the first one after a module has been
      loaded when the scanner before had done exactly one cycle, and the white number does not wrap around.
      (loaded: there is no scanner; n: the cycles of the last one.) */
  predicate Safe(actions: seq<Action>, loaded: bool, n: nat) {
    if actions == [] then true
    else match actions[0]
      case Collect =>
        var next := if loaded then 1 else n + 1;
        !(loaded && n == 1) && Unwrapped(next) && Safe(actions[1..], false, next)
      case Load => Safe(actions[1..], true, n)
      case _ => Safe(actions[1..], loaded, n)
  }

  /** The action is not refused: only an object of a wrong size is. */
  predicate Grants(a: Action, available: int) {
    a.Make? ==> SizeClasses.Fits(a.size, available)
  }

  function Collections(actions: seq<Action>): nat {
    if actions == [] then 0 else Collections(actions[..|actions| - 1]) + if actions[|actions| - 1].Collect? then 1 else 0
  }

  /** The values at these positions. */
  function Picked(held: seq<nat>, at: seq<nat>): (r: seq<nat>)
    ensures forall v :: v in r ==> v in held
  {
    if at == [] then [] else (if at[0] < |held| then [held[at[0]]] else []) + Picked(held, at[1..])
  }

  function Roots(globals: seq<nat>, held: seq<nat>): seq<nat> { AllRoots(globals, [], held, []) }

  // ----- Closed sets of objects -----

  ghost predicate Inside(s: set<nat>, p: nat) { Pointer(p) == 0 || Pointer(p) in s }

  ghost predicate RootsIn(roots: seq<nat>, s: set<nat>) { forall p :: p in roots ==> Inside(s, p) }

  ghost predicate KidsIn(kids: Kids, s: set<nat>) {
    forall o :: o in s ==> o in kids && forall i :: 0 <= i < |kids[o]| ==> Inside(s, kids[o][i])
  }

  /** A heap is in order if and only if a set of objects is closed and holds the roots. */
  lemma ClosedHeap(words: Words, kids: Kids, roots: seq<nat>, s: set<nat>)
    requires (forall o :: o in words ==> Even(o) && o != 0) && s <= words.Keys && RootsIn(roots, s) && KidsIn(kids, s)
    ensures HeapOk(words, kids, roots)
  {
    forall q | IsRoot(roots, q)
      ensures q in s
    {
      var i :| 0 <= i < |roots| && Pointer(roots[i]) == q;
      assert Inside(s, roots[i]);
    }
    forall o, q | o in s && Points(kids, o, q)
      ensures q in s
    {
      var i :| 0 <= i < |kids[o]| && Pointer(kids[o][i]) == q;
      assert Inside(s, kids[o][i]);
    }
    forall o | o in words && Reachable(kids, roots, o)
      ensures ReportsObjects(words, kids, o)
    {
      var p :| Path(kids, roots, {}, p) && p[|p| - 1] == o;
      ClosedHolds(kids, roots, {}, s, p);
    }
    forall i | 0 <= i < |roots|
      ensures Reported(words, roots[i])
    {
      assert Inside(s, roots[i]);
    }
  }

  ghost function Found(words: Words, kids: Kids, roots: seq<nat>): set<nat> {
    set o | o in words && Reachable(kids, roots, o)
  }

  lemma FoundClosed(words: Words, kids: Kids, roots: seq<nat>)
    requires HeapOk(words, kids, roots)
    ensures var s := Found(words, kids, roots); s <= words.Keys && RootsIn(roots, s) && KidsIn(kids, s)
  {
    var s := Found(words, kids, roots);
    forall p | p in roots
      ensures Inside(s, p)
    {
      var i :| 0 <= i < |roots| && roots[i] == p;
      if Pointer(p) != 0 {
        RootReaches(kids, roots, {}, Pointer(p));
      }
    }
    forall o | o in s
      ensures o in kids && forall i :: 0 <= i < |kids[o]| ==> Inside(s, kids[o][i])
    {
      assert ReportsObjects(words, kids, o);
      forall i | 0 <= i < |kids[o]|
        ensures Inside(s, kids[o][i])
      {
        var q := Pointer(kids[o][i]);
        if q != 0 {
          assert Points(kids, o, q);
          ReachesFurther(kids, roots, {}, o, q);
        }
      }
    }
  }

  /** A program that writes what it holds into an object that it holds, or forgets some of what
      it holds, leaves the heap in order. */
  lemma Written(words: Words, kids: Kids, roots: seq<nat>, o: nat, reports: seq<nat>, roots': seq<nat>)
    requires HeapOk(words, kids, roots) && o in roots && forall v :: v in reports || v in roots' ==> v in roots
    ensures HeapOk(words, if Pointer(o) == 0 then kids else kids[Pointer(o) := reports], roots')
  {
    var s := Found(words, kids, roots);
    FoundClosed(words, kids, roots);
    assert forall i :: 0 <= i < |reports| ==> reports[i] in roots;
    ClosedHeap(words, if Pointer(o) == 0 then kids else kids[Pointer(o) := reports], roots', s);
  }

  lemma Forgotten(words: Words, kids: Kids, roots: seq<nat>, roots': seq<nat>)
    requires HeapOk(words, kids, roots) && forall v :: v in roots' ==> v in roots
    ensures HeapOk(words, kids, roots')
  {
    FoundClosed(words, kids, roots);
    ClosedHeap(words, kids, roots', Found(words, kids, roots));
  }

  /** So does one that reads a field of an object that it holds, */
  lemma Fetched(words: Words, kids: Kids, roots: seq<nat>, o: nat, f: nat, roots': seq<nat>)
    requires HeapOk(words, kids, roots) && o in roots && Pointer(o) != 0
    requires Pointer(o) in kids && f < |kids[Pointer(o)]| && forall v :: v in roots' ==> v in roots || v == kids[Pointer(o)][f]
    ensures HeapOk(words, kids, roots')
  {
    FoundClosed(words, kids, roots);
    ClosedHeap(words, kids, roots', Found(words, kids, roots));
  }

  /** or that makes an object reporting what it holds. */
  lemma Made(words: Words, kids: Kids, roots: seq<nat>, o: nat, reports: seq<nat>, roots': seq<nat>)
    requires HeapOk(words, kids, roots) && o != 0 && Even(o) && o !in words
    requires (forall v :: v in reports ==> v in roots) && forall v :: v in roots' ==> v in roots || v == o
    ensures HeapOk(words[o := InitialWord], kids[o := reports], roots')
  {
    var s := Found(words, kids, roots);
    FoundClosed(words, kids, roots);
    EvenPointer(o);
    hide Pointer, Even;
    assert forall i :: 0 <= i < |reports| ==> reports[i] in roots;
    var s' := s + {o};
    assert RootsIn(roots', s') by {
      assert forall v :: v in roots ==> Inside(s, v);
    }
    ClosedHeap(words[o := InitialWord], kids[o := reports], roots', s');
  }

  /** Each object outside the slabs is a global. */
  ghost predicate OutsideRooted(blocks: set<Allocators.Block>, words: Words, globals: seq<nat>) {
    forall o :: o in words && !InBlocks(blocks, o) ==> o in globals
  }

  lemma RootedFound(blocks: set<Allocators.Block>, words: Words, kids: Kids, globals: seq<nat>, roots: seq<nat>)
    requires OutsideRooted(blocks, words, globals) && HeapOk(words, kids, roots) && forall v :: v in globals ==> v in roots
    ensures OutsideFound(blocks, words, kids, roots)
  {
    forall o | o in words && !InBlocks(blocks, o)
      ensures Reachable(kids, roots, o)
    {
      var i :| 0 <= i < |roots| && roots[i] == o;
      EvenPointer(o);
      assert IsRoot(roots, o);
      RootReaches(kids, roots, {}, o);
    }
  }

  lemma RootedStill(before: set<Allocators.Block>, after: set<Allocators.Block>, marked: Words, freed: seq<int>, white: nat, globals: seq<nat>)
    requires OutsideRooted(before, marked, globals) && WhiteKept(before, after, marked, white)
    requires Allocators.Freed(freed, before, marked, white)
    ensures OutsideRooted(after, Without(marked, freed), globals)
  {
    forall o | o in Without(marked, freed) && InBlocks(before, o)
      ensures InBlocks(after, o)
    {
      var b :| b in before && b.at == o;
      assert b in after;
    }
  }

  /** What is true of the heap whenever the program does something. */
  ghost predicate HeapFine(words: Words, kids: Kids, blocks: set<Allocators.Block>, cycles: nat, globals: seq<nat>, held: seq<nat>) {
    && HeapOk(words, kids, Roots(globals, held)) && Tidy(words, cycles) && Unwrapped(cycles)
    && OutsideRooted(blocks, words, globals)
  }

  /** One collection of a run. */
  datatype Cycle = Cycle(before: set<Allocators.Block>, after: set<Allocators.Block>, kids: Kids, roots: seq<nat>)

  ghost predicate AllExact(log: seq<Cycle>) {
    forall i :: 0 <= i < |log| ==> ReachableKept(log[i].before, log[i].after, log[i].kids, log[i].roots)
  }

  /** All objects in slabs can be reached. */
  ghost predicate NoGarbage(blocks: set<Allocators.Block>, kids: Kids, roots: seq<nat>) {
    forall b :: b in blocks ==> b.at >= 0 && Reachable(kids, roots, b.at)
  }

  /** Destroying unreachable objects leaves everything reachable that was. */
  lemma {:induction false} SamePaths(kids: Kids, roots: seq<nat>, freed: seq<int>, p: seq<nat>)
    requires Path(kids, roots, {}, p) && forall o: nat :: o in freed ==> !Reachable(kids, roots, o)
    ensures Path(Without(kids, freed), roots, {}, p)
  {
    if |p| > 1 {
      var h := p[..|p| - 1];
      SamePaths(kids, roots, freed, h);
      var i, j := |p| - 2, |p| - 1;
      assert Points(kids, p[i], p[j]);
      assert Reachable(kids, roots, p[i]) by {
        assert h[|h| - 1] == p[i];
      }
      assert Points(Without(kids, freed), p[i], p[j]);
      forall x, y | 0 <= x < y < |p| && y == x + 1
        ensures Points(Without(kids, freed), p[x], p[y])
      {
        if y < |h| {
          assert Points(Without(kids, freed), h[x], h[y]);
        }
      }
    }
  }

  lemma OnlyReachable(kids: Kids, roots: seq<nat>, marked: Words, freed: seq<int>, white: nat, before: set<Allocators.Block>, after: set<Allocators.Block>)
    requires WhiteKept(before, after, marked, white) && Allocators.Freed(freed, before, marked, white)
    requires ReachableKept(before, after, kids, roots)
    ensures NoGarbage(after, Without(kids, freed), roots)
  {
    forall o: nat | o in freed
      ensures !Reachable(kids, roots, o)
    {
      var b :| b in before && b.at == o && !Allocators.Marked(b, marked, white);
      assert b !in after;
    }
    forall b | b in after
      ensures b.at >= 0 && Reachable(Without(kids, freed), roots, b.at)
    {
      assert b in before && Reachable(kids, roots, b.at);
      var p :| Path(kids, roots, {}, p) && p[|p| - 1] == b.at;
      SamePaths(kids, roots, freed, p);
    }
  }

  // ----- Addresses that are not in use -----

  /** An address above all slabs and objects. */
  method FreeAddress(rt: Runtime) returns (at: nat)
    requires rt.Valid()
    ensures at > 0 && at % 8 == 0 && rt.Unused(at) && Even(at)
    ensures at !in rt.heap.words && !Allocators.InSlab(rt.allocator.slabs, rt.allocator.slabSize, at)
  {
    var top := 0;
    var j := 0;
    while j < |rt.allocator.slabs|
      invariant 0 <= j <= |rt.allocator.slabs|
      invariant forall k :: 0 <= k < j ==> rt.allocator.slabs[k].base + rt.allocator.slabSize <= top
    {
      if rt.allocator.slabs[j].base + rt.allocator.slabSize > top {
        top := rt.allocator.slabs[j].base + rt.allocator.slabSize;
      }
      j := j + 1;
    }
    var keys := rt.heap.words.Keys;
    while keys != {}
      invariant keys <= rt.heap.words.Keys && forall o :: o in rt.heap.words && o !in keys ==> o < top
      invariant forall k :: 0 <= k < |rt.allocator.slabs| ==> rt.allocator.slabs[k].base + rt.allocator.slabSize <= top
      decreases keys
    {
      var o :| o in keys;
      if o >= top {
        top := o + 1;
      }
      keys := keys - {o};
    }
    at := Above(top);
  }

  function Above(top: int): (at: nat)
    ensures at > 0 && at % 8 == 0 && Even(at) && top <= at
  {
    var n := if top <= 0 then 0 else top / 8;
    EightTimes(n);
    EvenAddress(n * 8 + 8);
    n * 8 + 8
  }

  lemma EightTimes(n: nat)
    ensures (n * 8 + 8) % 8 == 0
  {
  }

  class Program {
    const rt: Runtime
    var globals: seq<nat>
    var held: seq<nat>

    ghost predicate Valid()
      reads this, rt, rt.heap, rt.scanner, rt.allocator, rt.allocator.Repr
    {
      && rt.Valid() && this !in rt.allocator.Repr && rt !in rt.allocator.Repr
      && HeapFine(rt.heap.words, rt.heap.kids, rt.allocator.Blocks(), rt.cycles, globals, held)
    }

    constructor (slab: int, header: int)
      requires 0 <= header <= slab
      ensures Valid() && fresh(rt) && fresh(rt.heap) && fresh(rt.allocator) && fresh(rt.allocator.Repr)
      ensures rt.scanner == null && rt.cycles == 0 && rt.allocator.available == slab - header
    {
      rt := new Runtime(slab, header);
      globals, held := [], [];
      new;
      ClosedHeap(map[], map[], Roots([], []), {});
    }

    /** What else a program may touch is new. */
    twostate predicate Grown()
      reads this, rt, rt.scanner, rt.allocator
    {
      && fresh(rt.allocator.Repr - old(rt.allocator.Repr))
      && (rt.scanner == null || rt.scanner == old(rt.scanner) || fresh(rt.scanner))
    }

    /** Not ok: the program aborts because the object is too small or too big. */
    method Make(size: int, reports: seq<nat>) returns (ok: bool)
      requires Valid()
      modifies this, rt.heap, rt.allocator.Repr
      ensures Valid() && Grown() && globals == old(globals) && rt.scanner == old(rt.scanner)
      ensures ok <==> SizeClasses.Fits(size, rt.allocator.available)
      ensures |rt.allocator.slabs| == |old(rt.allocator.slabs)| +
        if ok && !old(rt.allocator.HasRoom(SizeClasses.BestSize(size))) then 1 else 0
      ensures !ok && old(Clean()) ==> Clean()
      ensures if ok then |held| == |old(held)| + 1 && held[..|old(held)|] == old(held) else held == old(held)
    {
      hide HeapOk, Tidy, OutsideRooted, InBlocks, SizeClasses.BestSize, Even, Allocators.Allocator.Valid, Allocators.Allocator.HasRoom,
        Allocators.Allocator.NextFree;
      rt.allocator.ValidOwns();
      var at := FreeAddress(rt);
      var picked := Picked(held, reports);
      ghost var blocks := rt.allocator.Blocks();
      var o := rt.NewObject(size, picked, at);
      ok := o.Some?;
      if o.Some? {
        Made(old(rt.heap.words), old(rt.heap.kids), Roots(globals, held), o.value, picked, Roots(globals, held + [o.value]));
        rt.allocator.ValidOwns();
        BlockIn(rt.allocator.Blocks(), Allocators.Block(o.value, SizeClasses.BestSize(size)));
        MoreWords(blocks, rt.allocator.Blocks(), old(rt.heap.words), o.value, globals, globals, rt.cycles);
        held := held + [o.value];
      }
    }

    /** A class or another object that lives outside the slabs, and is always a root. */
    method Define(reports: seq<nat>)
      requires Valid()
      modifies this, rt.heap
      ensures Valid() && Grown() && rt.scanner == old(rt.scanner) && held == old(held)
      ensures |globals| == |old(globals)| + 1 && globals[..|old(globals)|] == old(globals)
    {
      hide HeapOk, Tidy, OutsideRooted, InBlocks, Even, Allocators.Allocator.Valid;
      rt.allocator.ValidOwns();
      var at := FreeAddress(rt);
      var picked := Picked(held, reports);
      rt.AddStatic(at, picked);
      Made(old(rt.heap.words), old(rt.heap.kids), Roots(globals, held), at, picked, Roots(globals + [at], held));
      assert at in globals + [at];
      MoreWords(rt.allocator.Blocks(), rt.allocator.Blocks(), old(rt.heap.words), at, globals, globals + [at], rt.cycles);
      globals := globals + [at];
    }

    method Store(i: nat, reports: seq<nat>)
      requires Valid()
      modifies rt.heap`kids
      ensures Valid()
    {
      hide HeapOk, Tidy, OutsideRooted;
      if i < |held| && Pointer(held[i]) != 0 {
        var picked := Picked(held, reports);
        Written(rt.heap.words, rt.heap.kids, Roots(globals, held), held[i], picked, Roots(globals, held));
        rt.heap.kids := rt.heap.kids[Pointer(held[i]) := picked];
      }
    }

    method Fetch(i: nat, field: nat)
      requires Valid()
      modifies this`held
      ensures Valid()
    {
      hide HeapOk, Tidy, OutsideRooted;
      if i < |held| && Pointer(held[i]) in rt.heap.kids && Pointer(held[i]) != 0 && field < |rt.heap.kids[Pointer(held[i])]| {
        var v := rt.heap.kids[Pointer(held[i])][field];
        Fetched(rt.heap.words, rt.heap.kids, Roots(globals, held), held[i], field, Roots(globals, held + [v]));
        held := held + [v];
      }
    }

    method Drop(i: nat)
      requires Valid()
      modifies this`held
      ensures Valid()
    {
      hide HeapOk, Tidy, OutsideRooted;
      if i < |held| {
        var rest := held[..i] + held[i + 1..];
        Forgotten(rt.heap.words, rt.heap.kids, Roots(globals, held), Roots(globals, rest));
        held := rest;
      }
    }

    /** A collection that is safe keeps exactly what can be reached. */
    method Collect()
      requires Valid() && !(rt.scanner == null && rt.cycles == 1) && Unwrapped(rt.NextCycle())
      modifies rt, rt.heap, rt.scanner, rt.allocator.Repr
      ensures Valid() && Grown() && rt.scanner != null && rt.cycles == old(rt.NextCycle())
      ensures ReachableKept(old(rt.allocator.Blocks()), rt.allocator.Blocks(), old(rt.heap.kids), Roots(globals, held))
      ensures NoGarbage(rt.allocator.Blocks(), rt.heap.kids, Roots(globals, held))
    {
      hide HeapOk, Tidy, OutsideRooted, InBlocks, Fresh, StaleHarmless, Traced, ReachableKept, WhiteKept, NoneAbove, NoneAboveOutside, Without,
        OutsideFound, NoGarbage, Allocators.Freed, WhiteAfter;
      ghost var roots, before, words0, kids0 := Roots(globals, held), rt.allocator.Blocks(), rt.heap.words, rt.heap.kids;
      StaleExactly(words0, rt.cycles, rt.NextCycle());
      rt.NextIs();
      RootedFound(before, words0, kids0, globals, roots);
      ghost var marked: Words;
      var freed;
      marked, freed := rt.RunGC(globals, [], held, [], roots);
      SameKeys(kids0, roots, words0, marked, rt.scanner.white, before, globals);
      RootedStill(before, rt.allocator.Blocks(), marked, freed, rt.scanner.white, globals);
      OnlyReachable(kids0, roots, marked, freed, rt.scanner.white, before, rt.allocator.Blocks());
    }

    /** A module is loaded. */
    method Load()
      requires Valid()
      modifies rt`scanner
      ensures Valid() && Grown() && rt.scanner == null
    {
      rt.ResetScanner();
    }

    /** One action; entry is the collection that it has run, if any. */
    method Do(a: Action) returns (ok: bool, ghost entry: seq<Cycle>)
      requires Valid() && (a.Collect? ==> !(rt.scanner == null && rt.cycles == 1) && Unwrapped(rt.NextCycle()))
      modifies this, rt, rt.heap, rt.scanner, rt.allocator.Repr
      ensures Valid() && Grown() && (ok <==> Grants(a, rt.allocator.available))
      ensures a.Collect? || (!ok && old(Clean())) ==> Clean()
      ensures AllExact(entry) && |entry| == if a.Collect? then 1 else 0
      ensures (rt.scanner == null) == (if a.Collect? then false else a.Load? || old(rt.scanner == null))
      ensures rt.cycles == if a.Collect? then old(rt.NextCycle()) else old(rt.cycles)
    {
      hide HeapFine, ReachableKept, NoGarbage, Runtime.Valid;
      ok, entry := true, [];
      match a
      case Make(size, reports) => ok := Make(size, reports);
      case Define(reports) => Define(reports);
      case Store(i, reports) => Store(i, reports);
      case Fetch(i, field) => Fetch(i, field);
      case Drop(i) => Drop(i);
      case Collect =>
        ghost var before, kids := Blocks(), rt.heap.kids;
        Collect();
        entry := [Cycle(before, Blocks(), kids, Roots(globals, held))];
      case Load => Load();
    }

    ghost function Blocks(): set<Allocators.Block>
      requires Valid()
      reads this, rt, rt.heap, rt.scanner, rt.allocator, rt.allocator.Repr
    {
      rt.allocator.Blocks()
    }

    /** There is no garbage. */
    ghost predicate Clean()
      requires Valid()
      reads this, rt, rt.heap, rt.scanner, rt.allocator, rt.allocator.Repr
    {
      NoGarbage(rt.allocator.Blocks(), rt.heap.kids, Roots(globals, held))
    }

    /** Any program whose collections are safe: each of them keeps exactly the objects that the program can
        reach at that moment, and at no time does anything that it can reach report a destroyed object.
        The program goes on to its end, or to the first object of a size that is refused. */
    method Play(actions: seq<Action>) returns (done: nat, ghost log: seq<Cycle>)
      requires Valid() && Safe(actions, rt.scanner == null, rt.cycles)
      modifies this, rt, rt.heap, rt.scanner, rt.allocator.Repr
      ensures Valid() && Grown() && done <= |actions|
      ensures forall j :: 0 <= j < done ==> Grants(actions[j], rt.allocator.available)
      ensures done < |actions| ==> !Grants(actions[done], rt.allocator.available)
      ensures done > 0 && actions[done - 1].Collect? ==> Clean()
      ensures AllExact(log) && |log| == Collections(actions[..done])
    {
      hide Valid, Clean, ReachableKept, SizeClasses.Fits;
      done, log := 0, [];
      var ok := true;
      while done < |actions|
        invariant 0 <= done <= |actions| && Valid() && Grown()
        invariant Safe(actions[done..], rt.scanner == null, rt.cycles)
        invariant forall j :: 0 <= j < done ==> Grants(actions[j], rt.allocator.available)
        invariant done > 0 && actions[done - 1].Collect? ==> Clean()
        invariant AllExact(log) && |log| == Collections(actions[..done])
      {
        assert actions[done..][0] == actions[done] && actions[done..][1..] == actions[done + 1..];
        assert actions[..done + 1][..done] == actions[..done];
        ghost var entry: seq<Cycle>;
        ok, entry := Do(actions[done]);
        if !ok {
          return;
        }
        log := log + entry;
        done := done + 1;
      }
    }
  }

  // ----- The case that is left out -----

  /** A program from the very beginning that keeps object a, collects once, loads a module, makes an object b
      that only a reports, and collects again. Now a, a root, reports an object that has been destroyed. */
  method AfterOneCycle(slab: int, header: int, size: int) returns (rt: Runtime, a: nat, b: nat)
    requires 0 <= header <= slab && SizeClasses.Fits(size, slab - header)
    ensures rt.heap.words.Keys == {a} && rt.heap.kids == map[a := [b]] && TwoObjects(a, b)
  {
    hide SizeClasses.Fits, Runtime.Valid, Even;
    rt, a := OneCycle(slab, header, size);
    b := MakeAndCollect(rt, a, size);
  }

  /** One object, one collection, and the scanner is thrown away. */
  method OneCycle(slab: int, header: int, size: int) returns (rt: Runtime, a: nat)
    requires 0 <= header <= slab && SizeClasses.Fits(size, slab - header)
    ensures rt.Valid() && fresh(rt) && fresh(rt.heap) && fresh(rt.allocator) && fresh(rt.allocator.Repr) && rt.scanner == null
    ensures a != 0 && Even(a) && rt.cycles == 1 && rt.allocator.available == slab - header
    ensures rt.heap.words == map[a := FirstWhite + 2] && rt.heap.kids == map[a := []]
  {
    hide SizeClasses.BestSize, SizeClasses.Fits, Allocators.Allocator.Valid, Allocators.Freed, Traced, HeapOk, StaleHarmless, Fresh, Without,
      WhiteKept, Even, Recent, WordsOk, HaveWords, Apart, ReachableKept, Tidy, OutsideFound, NoneAbove, NoneAboveOutside, InBlocks, AllRoots,
      Allocators.InSlab;
    rt := new Runtime(slab, header);
    var at := FreeAddress(rt);
    var o := rt.NewObject(size, [], at);
    a := o.value;
    AloneOk(a);
    OneRoot(a);
    rt.allocator.ValidOwns();
    ghost var blocks, marked, freed := rt.allocator.Blocks(), rt.heap.words, [];
    marked, freed := rt.RunGC([a], [], [], [], [a]);
    FirstCycle(a, blocks, marked, freed);
    rt.ResetScanner();
  }

  method MakeAndCollect(rt: Runtime, a: nat, size: int) returns (b: nat)
    requires rt.Valid() && rt.scanner == null && a != 0 && Even(a) && SizeClasses.Fits(size, rt.allocator.available)
    requires rt.heap.words == map[a := FirstWhite + 2] && rt.heap.kids == map[a := []]
    modifies rt, rt.heap, rt.allocator.Repr
    ensures rt.heap.words.Keys == {a} && rt.heap.kids == map[a := [b]] && TwoObjects(a, b)
  {
    hide Runtime.Valid, SizeClasses.Fits, HeapAfterReset, KidsAfterReset, TwoObjects, InBlocks;
    b := MakeReported(rt, a, size);
    CollectAgain(rt, a, b);
  }

  /** A new object that only object a reports. */
  method MakeReported(rt: Runtime, a: nat, size: int) returns (b: nat)
    requires rt.Valid() && rt.scanner == null && a != 0 && Even(a) && SizeClasses.Fits(size, rt.allocator.available)
    requires rt.heap.words == map[a := FirstWhite + 2] && rt.heap.kids == map[a := []]
    modifies rt.heap, rt.allocator.Repr
    ensures rt.Valid() && rt.scanner == null && fresh(rt.allocator.Repr - old(rt.allocator.Repr))
    ensures TwoObjects(a, b) && InBlocks(rt.allocator.Blocks(), b)
    ensures rt.heap.words == HeapAfterReset(a, b) && rt.heap.kids == KidsAfterReset(a, b)
  {
    hide SizeClasses.BestSize, Allocators.Allocator.Valid, Even, Recent, WordsOk, HaveWords, Apart, NoneAbove, InBlocks,
      Allocators.InSlab;
    var at := FreeAddress(rt);
    var o := rt.NewObject(size, [], at);
    b := o.value;
    rt.heap.kids := rt.heap.kids[a := [b]];
    rt.allocator.ValidOwns();
    BlockIn(rt.allocator.Blocks(), Allocators.Block(b, SizeClasses.BestSize(size)));
    ReportedBy(a, b);
  }

  lemma ReportedBy(a: nat, b: nat)
    requires a != b
    ensures map[a := FirstWhite + 2][b := InitialWord] == HeapAfterReset(a, b)
    ensures var kids: Kids := map[a := []]; kids[b := []][a := [b]] == KidsAfterReset(a, b)
  {
  }

  method CollectAgain(rt: Runtime, a: nat, b: nat)
    requires rt.Valid() && rt.scanner == null && TwoObjects(a, b) && InBlocks(rt.allocator.Blocks(), b)
    requires rt.heap.words == HeapAfterReset(a, b) && rt.heap.kids == KidsAfterReset(a, b)
    modifies rt, rt.heap, rt.allocator.Repr
    ensures rt.heap.words.Keys == {a} && rt.heap.kids == map[a := [b]]
  {
    hide Allocators.Allocator.Valid, Allocators.Freed, Traced, HeapOk, StaleHarmless, Fresh, Without, WhiteKept, TwoObjects, Recent,
      WordsOk, HaveWords, Apart, ReachableKept, Tidy, OutsideFound, NoneAbove, NoneAboveOutside, InBlocks, AllRoots, HeapAfterReset, KidsAfterReset;
    rt.allocator.ValidOwns();
    ResetHeapOk(a, b);
    OneRoot(a);
    ghost var blocks := rt.allocator.Blocks();
    ghost var marked: Words;
    var freed;
    marked, freed := rt.RunGC([a], [], [], [], [a]);
    SecondCycle(a, b, blocks, marked, freed);
  }

  lemma OneRoot(a: nat)
    ensures AllRoots([a], [], [], []) == [a]
  {
  }

  lemma AloneOk(a: nat)
    requires a != 0 && Even(a)
    ensures HeapOk(map[a := InitialWord], map[a := []], [a]) && Reachable(map[a := []], [a], a)
  {
    EvenPointer(a);
    assert IsRoot([a], a) by {
      assert Pointer([a][0]) == a;
    }
    RootReaches(map[a := []], [a], {}, a);
    hide Reachable;
    assert ReportsObjects(map[a := InitialWord], map[a := []], a);
  }

  /** The first cycle keeps object a, and gives it the first white number. */
  lemma FirstCycle(a: nat, blocks: set<Allocators.Block>, marked: Words, freed: seq<int>)
    requires a != 0 && Even(a) && Traced(map[a := []], [a], map[a := InitialWord], marked, FirstWhite + 2)
    requires Allocators.Freed(freed, blocks, marked, FirstWhite + 2)
    ensures Without(marked, freed) == map[a := FirstWhite + 2] && Without<seq<nat>>(map[a := []], freed) == map[a := []]
  {
    AloneOk(a);
    FreshExact(map[a := []], [a], map[a := InitialWord], marked, FirstWhite + 2);
    hide Reachable;
    assert marked[a] == FirstWhite + 2;
    assert marked == map[a := FirstWhite + 2];
  }

  /** The second one destroys object b. */
  lemma SecondCycle(a: nat, b: nat, blocks: set<Allocators.Block>, marked: Words, freed: seq<int>)
    requires TwoObjects(a, b) && Traced(KidsAfterReset(a, b), [a], HeapAfterReset(a, b), marked, FirstWhite + 2)
    requires Allocators.Freed(freed, blocks, marked, FirstWhite + 2) && InBlocks(blocks, b)
    ensures Without(marked, freed).Keys == {a} && Without(KidsAfterReset(a, b), freed) == map[a := [b]]
  {
    ResetLosesObjects(a, b, marked);
    TracedAt(KidsAfterReset(a, b), [a], HeapAfterReset(a, b), marked, FirstWhite + 2, a);
    hide Traced, HeapOk, Reachable;
    var c :| c in blocks && c.at == b;
    assert b in freed by {
      assert !Allocators.Marked(c, marked, FirstWhite + 2);
    }
    assert a !in freed;
    assert marked.Keys == {a, b};
  }

  lemma BlockIn(blocks: set<Allocators.Block>, b: Allocators.Block)
    requires b in blocks
    ensures InBlocks(blocks, b.at)
  {
  }

  lemma MoreWords(before: set<Allocators.Block>, after: set<Allocators.Block>, words: Words, o: nat, globals: seq<nat>, globals': seq<nat>, cycles: nat)
    requires Tidy(words, cycles) && OutsideRooted(before, words, globals) && before <= after && globals <= globals'
    requires InBlocks(after, o) || o in globals'
    ensures Tidy(words[o := InitialWord], cycles) && OutsideRooted(after, words[o := InitialWord], globals')
  {
  }

  lemma SameKeys(kids: Kids, roots: seq<nat>, words0: Words, marked: Words, white: nat, blocks: set<Allocators.Block>, globals: seq<nat>)
    requires Traced(kids, roots, words0, marked, white) && OutsideRooted(blocks, words0, globals)
    ensures OutsideRooted(blocks, marked, globals)
  {
  }
}
