/** The tracing half of the garbage collector (rtsrc/GCTracingScanner.cpp). Every
    object has one word, which is an odd number (black, or white if it is the current white
    number) or the address of the next grey object, which is even. */
module Tracing {
  import opened Finite

  /** The words of all objects, by address. */
  type Words = map<nat, nat>

  /** What MarkGCValues reports for each object. */
  type Kids = map<nat, seq<nat>>

  predicate Even(w: nat) { w % 2 == 0 }

  /** The pointer that a reported value stands for: maps set the lowest bit while iterating. */
  function Pointer(p: nat): nat { p - p % 2 }

  /** A reported value is an object, or null (with or without the lowest bit). */
  predicate Reported(words: Words, p: nat) {
    Pointer(p) == 0 || Pointer(p) in words
  }

  /** q is one of the objects that o reports. */
  ghost predicate Points(kids: Kids, o: nat, q: nat) {
    q != 0 && o in kids && exists i :: 0 <= i < |kids[o]| && Pointer(kids[o][i]) == q
  }

  // ----- Reachability -----

  ghost predicate IsRoot(roots: seq<nat>, q: nat) {
    q != 0 && exists i :: 0 <= i < |roots| && Pointer(roots[i]) == q
  }

  /** A path from a root that does not touch the given objects. */
  ghost predicate Path(kids: Kids, roots: seq<nat>, avoid: set<nat>, p: seq<nat>) {
    && p != [] && IsRoot(roots, p[0])
    && (forall i :: 0 <= i < |p| ==> p[i] !in avoid)
    && (forall i, j :: 0 <= i < j < |p| && j == i + 1 ==> Points(kids, p[i], p[j]))
  }

  ghost predicate Reaches(kids: Kids, roots: seq<nat>, avoid: set<nat>, o: nat) {
    exists p :: Path(kids, roots, avoid, p) && p[|p| - 1] == o
  }

  ghost predicate Reachable(kids: Kids, roots: seq<nat>, o: nat) {
    Reaches(kids, roots, {}, o)
  }

  /** Objects are at even addresses, and what can be reached reports only objects. */
  ghost predicate HeapOk(words: Words, kids: Kids, roots: seq<nat>) {
    && (forall o :: o in words ==> Even(o) && o != 0)
    && (forall i :: 0 <= i < |roots| ==> Reported(words, roots[i]))
    && (forall o :: o in words && Reachable(kids, roots, o) ==> ReportsObjects(words, kids, o))
  }

  ghost predicate ReportsObjects(words: Words, kids: Kids, o: nat) {
    o in kids && forall i :: 0 <= i < |kids[o]| ==> Reported(words, kids[o][i])
  }

  lemma ReachesReachable(kids: Kids, roots: seq<nat>, avoid: set<nat>, o: nat)
    requires Reaches(kids, roots, avoid, o)
    ensures Reachable(kids, roots, o)
  {
    var p :| Path(kids, roots, avoid, p) && p[|p| - 1] == o;
    assert Path(kids, roots, {}, p);
  }

  lemma RootReaches(kids: Kids, roots: seq<nat>, avoid: set<nat>, o: nat)
    requires IsRoot(roots, o) && o !in avoid
    ensures Reaches(kids, roots, avoid, o)
  {
    assert Path(kids, roots, avoid, [o]);
  }

  lemma ReachesFurther(kids: Kids, roots: seq<nat>, avoid: set<nat>, o: nat, q: nat)
    requires Reaches(kids, roots, avoid, o) && Points(kids, o, q) && q !in avoid
    ensures Reaches(kids, roots, avoid, q)
  {
    var p :| Path(kids, roots, avoid, p) && p[|p| - 1] == o;
    assert Path(kids, roots, avoid, p + [q]);
  }

  /** A set that holds the roots and is closed holds everything reachable. */
  lemma {:induction false} ClosedHolds(kids: Kids, roots: seq<nat>, avoid: set<nat>, s: set<nat>, p: seq<nat>)
    requires Path(kids, roots, avoid, p)
    requires forall q :: IsRoot(roots, q) && q !in avoid ==> q in s
    requires forall o, q :: o in s && Points(kids, o, q) && q !in avoid ==> q in s
    ensures p[|p| - 1] in s
  {
    if |p| > 1 {
      var h := p[..|p| - 1];
      ClosedHolds(kids, roots, avoid, s, h);
      var i, j := |p| - 2, |p| - 1;
      assert Points(kids, p[i], p[j]);
    }
  }

  // ----- The three colours -----

  /** The grey objects, linked through their words; 0 is null. */
  ghost predicate GreyList(words: Words, head: nat, grey: seq<nat>) {
    && Distinct(grey)
    && head == (if grey == [] then 0 else grey[0])
    && (forall i :: 0 <= i < |grey| ==> grey[i] in words)
    && (forall i, j :: 0 <= i < j < |grey| && j == i + 1 ==> words[grey[i]] == grey[j])
    && (grey != [] ==> words[grey[|grey| - 1]] == 0)
  }

  /** stale: the objects that already had the white number when the cycle began.
      done: those that have been scanned. cur: the object that is being scanned (0 if none);
      its word is still even, so it counts as grey although it is not on the list. */
  ghost predicate Colours(words0: Words, words: Words, white: nat, grey: seq<nat>, cur: nat, done: set<nat>) {
    && words.Keys == words0.Keys && !Even(white)
    && (forall o :: o in words ==> (Even(words[o]) <==> o in grey || (o == cur && cur != 0)))
    && (forall o :: o in done ==> o in words && words0[o] != white)
    && (forall o :: o in words && !Even(words[o]) ==> words[o] == if o in done then white else words0[o])
    && (forall o :: o in words && Even(words[o]) ==> words0[o] != white && o !in done)
    && cur !in grey && (cur != 0 ==> cur in words)
  }

  ghost function Stale(words: Words, white: nat): set<nat> {
    set o | o in words && words[o] == white
  }

  /** o is grey, being scanned, or scanned. */
  ghost predicate Marked(grey: seq<nat>, cur: nat, done: set<nat>, o: nat) {
    o in grey || (o == cur && cur != 0) || o in done
  }

  ghost predicate OnlyReached(kids: Kids, roots: seq<nat>, avoid: set<nat>, grey: seq<nat>, cur: nat, done: set<nat>) {
    forall o {:trigger Marked(grey, cur, done, o)} :: Marked(grey, cur, done, o) ==> Reaches(kids, roots, avoid, o)
  }

  /** What scanned objects point to has been marked or is stale. */
  ghost predicate Scanned(kids: Kids, avoid: set<nat>, grey: seq<nat>, cur: nat, done: set<nat>) {
    forall o, q {:trigger Points(kids, o, q)} :: o in done && Points(kids, o, q) ==> q in avoid || Marked(grey, cur, done, q)
  }

  // ----- One step at a time -----

  /** A black object becomes the first of the grey list. */
  lemma Push(words0: Words, words: Words, white: nat, head: nat, grey: seq<nat>, cur: nat, done: set<nat>, o: nat)
    requires GreyList(words, head, grey) && Colours(words0, words, white, grey, cur, done)
    requires o in words && !Even(words[o]) && words[o] != white
    requires forall x :: x in words ==> Even(x) && x != 0
    ensures GreyList(words[o := head], o, [o] + grey)
    ensures Colours(words0, words[o := head], white, [o] + grey, cur, done)
  {
    PushList(words, head, grey, o);
    assert Even(head);
    assert words0[o] != white && o !in done;
    assert forall x :: x in [o] + grey <==> x == o || x in grey;
  }

  lemma PushList(words: Words, head: nat, grey: seq<nat>, o: nat)
    requires GreyList(words, head, grey) && o in words && o !in grey
    ensures GreyList(words[o := head], o, [o] + grey)
  {
    var words', grey' := words[o := head], [o] + grey;
    forall i, j | 0 <= i < j < |grey'| && j == i + 1
      ensures words'[grey'[i]] == grey'[j]
    {
      if i > 0 {
        assert grey'[i] == grey[i - 1] && grey'[j] == grey[j - 1];
        assert words[grey[i - 1]] == grey[j - 1];
      }
    }
    assert grey'[|grey'| - 1] == if grey == [] then o else grey[|grey| - 1];
  }

  /** An object whose word is even or white needs no marking. */
  lemma Seen(words0: Words, words: Words, white: nat, grey: seq<nat>, cur: nat, done: set<nat>, o: nat)
    requires Colours(words0, words, white, grey, cur, done) && o in words
    ensures Even(words[o]) || words[o] == white ==> o in Stale(words0, white) || Marked(grey, cur, done, o)
    ensures !Even(words[o]) && words[o] != white ==> o !in Stale(words0, white) && (o != cur || cur == 0)
  {
  }

  /** The first grey object leaves the list to be scanned. */
  lemma Pop(words0: Words, words: Words, white: nat, head: nat, grey: seq<nat>, done: set<nat>)
    requires GreyList(words, head, grey) && Colours(words0, words, white, grey, 0, done) && head != 0
    requires forall x :: x in words ==> Even(x) && x != 0
    ensures grey != [] && head == grey[0] && head in words && Even(words[head])
    ensures GreyList(words, words[head], grey[1..]) && Colours(words0, words, white, grey[1..], head, done)
  {
    assert grey != [];
    PopList(words, head, grey);
    assert Even(words[head]) by {
      assert head in grey;
    }
    assert forall x :: x in grey <==> x == head || x in grey[1..];
  }

  lemma PopList(words: Words, head: nat, grey: seq<nat>)
    requires GreyList(words, head, grey) && grey != []
    ensures head in words && head !in grey[1..] && GreyList(words, words[head], grey[1..]) && grey == [head] + grey[1..]
  {
    var rest := grey[1..];
    forall i, j | 0 <= i < j < |rest| && j == i + 1
      ensures words[rest[i]] == rest[j]
    {
      assert words[grey[i + 1]] == grey[j + 1];
    }
    if |grey| > 1 {
      assert words[grey[0]] == grey[1];
      assert rest[|rest| - 1] == grey[|grey| - 1];
    }
  }

  /** A scanned object becomes white. */
  lemma Whiten(words0: Words, words: Words, white: nat, head: nat, grey: seq<nat>, cur: nat, done: set<nat>)
    requires GreyList(words, head, grey) && Colours(words0, words, white, grey, cur, done) && cur != 0
    requires forall x :: x in words ==> x != 0
    ensures GreyList(words[cur := white], head, grey) && Colours(words0, words[cur := white], white, grey, 0, done + {cur})
    ensures cur !in done
  {
    assert Even(words[cur]);
    assert forall o :: o in grey ==> o in words && o != cur;
  }

  /** When nothing is grey any more, exactly the stale objects and those reached without
      passing through stale ones are white; no other word has changed. */
  ghost predicate Traced(kids: Kids, roots: seq<nat>, words0: Words, words: Words, white: nat) {
    words.Keys == words0.Keys && forall o :: o in words ==>
      var found := Reaches(kids, roots, Stale(words0, white), o);
      (words[o] == white <==> words0[o] == white || found) && (!found ==> words[o] == words0[o]) && !Even(words[o])
  }

  lemma TraceEnds(kids: Kids, roots: seq<nat>, words0: Words, words: Words, white: nat, done: set<nat>)
    requires Colours(words0, words, white, [], 0, done)
    requires OnlyReached(kids, roots, Stale(words0, white), [], 0, done) && Scanned(kids, Stale(words0, white), [], 0, done)
    requires forall q :: IsRoot(roots, q) ==> q in Stale(words0, white) || q in done
    ensures Traced(kids, roots, words0, words, white)
  {
    var avoid := Stale(words0, white);
    forall o | o in words
      ensures Reaches(kids, roots, avoid, o) <==> o in done
    {
      if o in done {
        assert Marked([], 0, done, o);
      }
      if Reaches(kids, roots, avoid, o) {
        var p :| Path(kids, roots, avoid, p) && p[|p| - 1] == o;
        forall x, q | x in done && Points(kids, x, q) && q !in avoid
          ensures q in done
        {
          assert Marked([], 0, done, q);
        }
        ClosedHolds(kids, roots, avoid, done, p);
      }
    }
  }

  // ----- The code -----

  class Heap {
    var words: Words
    var kids: Kids

    constructor ()
      ensures words == map[] && kids == map[]
    {
      words, kids := map[], map[];
    }
  }

  const FirstWhite := 0xabcd01
  const InitialWord := 1
  const Wrap := 0x1_0000_0000

  class Scanner {
    const heap: Heap
    var white: nat
    var greyList: nat
    ghost var grey: seq<nat>
    ghost var done: set<nat>
    ghost var start: Words

    constructor (h: Heap)
      ensures heap == h && Idle() && white == FirstWhite
    {
      heap := h;
      white := FirstWhite;
      greyList := 0;
      grey := [];
      done := {};
      start := map[];
    }

    /** Between two cycles. */
    ghost predicate Idle()
      reads this
    {
      greyList == 0 && !Even(white)
    }

    /** During a cycle, while object cur (if it is not 0) is being scanned. */
    ghost predicate Marking(roots: seq<nat>, cur: nat)
      reads this, heap
    {
      && HeapOk(heap.words, heap.kids, roots) && GreyList(heap.words, greyList, grey)
      && Colours(start, heap.words, white, grey, cur, done)
      && OnlyReached(heap.kids, roots, Stale(start, white), grey, cur, done)
      && Scanned(heap.kids, Stale(start, white), grey, cur, done)
    }

    /** The object has been marked, or is skipped because it has the white number already. */
    ghost predicate Dealt(cur: nat, q: nat)
      reads this
    {
      q in Stale(start, white) || Marked(grey, cur, done, q)
    }

    /** The white number moves on, so that what was white is black. (It is a 32-bit number.) */
    method BeginGCCycle(ghost roots: seq<nat>)
      requires Idle() && HeapOk(heap.words, heap.kids, roots) && forall o :: o in heap.words ==> !Even(heap.words[o])
      modifies this
      ensures Marking(roots, 0) && start == heap.words && white == (old(white) + 2) % Wrap
    {
      assert greyList == 0;
      white := (white + 2) % Wrap;
      grey, done, start := [], {}, heap.words;
      assert forall o :: !Marked(grey, 0, done, o);
    }

    method AddToGreyList(p: nat, ghost roots: seq<nat>, ghost cur: nat)
      requires Marking(roots, cur) && Reported(heap.words, p)
      requires Pointer(p) != 0 && Pointer(p) !in Stale(start, white) ==> Reaches(heap.kids, roots, Stale(start, white), Pointer(p))
      modifies this`greyList, this`grey, heap`words
      ensures Marking(roots, cur) && (Pointer(p) == 0 || Dealt(cur, Pointer(p)))
      ensures forall o :: old(Dealt(cur, o)) ==> Dealt(cur, o)
      ensures heap.words.Keys == old(heap.words.Keys) && (cur in heap.words ==> heap.words[cur] == old(heap.words[cur]) || cur == 0)
    {
      hide Colours, GreyList, OnlyReached, Scanned, Reaches;
      var obj := Pointer(p);
      if obj == 0 {
        return;
      }
      Seen(start, heap.words, white, grey, cur, done, obj);
      HeapEven(heap.words, heap.kids, roots);
      var gcWord := heap.words[obj];
      if Even(gcWord) {
        return;
      }
      if gcWord == white {
        return;
      }
      Push(start, heap.words, white, greyList, grey, cur, done, obj);
      MarkedMore(heap.kids, roots, Stale(start, white), grey, cur, done, obj);
      SameHeap(heap.words, heap.words[obj := greyList], heap.kids, roots);
      hide HeapOk;
      heap.words := heap.words[obj := greyList];
      greyList := obj;
      grey := [obj] + grey;
    }

    /** Marks some of the roots. */
    method MarkRoots(values: seq<nat>, ghost roots: seq<nat>)
      requires Marking(roots, 0) && forall i :: 0 <= i < |values| ==> values[i] in roots
      modifies this`greyList, this`grey, heap`words
      ensures Marking(roots, 0)
      ensures forall i :: 0 <= i < |values| && Pointer(values[i]) != 0 ==> Dealt(0, Pointer(values[i]))
      ensures forall o :: old(Dealt(0, o)) ==> Dealt(0, o)
      ensures heap.words.Keys == old(heap.words.Keys)
    {
      RootsReady(heap.words, heap.kids, roots, Stale(start, white), values);
      MarkAll(values, roots, 0);
    }

    /** Marks a number of reported values. */
    method MarkAll(values: seq<nat>, ghost roots: seq<nat>, ghost cur: nat)
      requires Marking(roots, cur) && forall i :: 0 <= i < |values| ==> Reported(heap.words, values[i])
      requires forall i :: 0 <= i < |values| && Pointer(values[i]) != 0 && Pointer(values[i]) !in Stale(start, white) ==>
        Reaches(heap.kids, roots, Stale(start, white), Pointer(values[i]))
      modifies this`greyList, this`grey, heap`words
      ensures Marking(roots, cur)
      ensures forall i :: 0 <= i < |values| && Pointer(values[i]) != 0 ==> Dealt(cur, Pointer(values[i]))
      ensures forall o :: old(Dealt(cur, o)) ==> Dealt(cur, o)
      ensures heap.words.Keys == old(heap.words.Keys) && (cur in heap.words ==> heap.words[cur] == old(heap.words[cur]) || cur == 0)
    {
      hide Colours, GreyList, OnlyReached, Scanned, HeapOk, Reaches;
      var i := 0;
      while i < |values|
        invariant 0 <= i <= |values| && Marking(roots, cur)
        invariant forall j :: 0 <= j < i && Pointer(values[j]) != 0 ==> Dealt(cur, Pointer(values[j]))
        invariant forall o :: old(Dealt(cur, o)) ==> Dealt(cur, o)
        invariant heap.words.Keys == old(heap.words.Keys)
        invariant cur in heap.words ==> heap.words[cur] == old(heap.words[cur]) || cur == 0
      {
        AddToGreyList(values[i], roots, cur);
        i := i + 1;
      }
    }

    /** Scans grey objects until there are none. It ends: no object is scanned twice. */
    method EndGCCycle(ghost roots: seq<nat>)
      requires Marking(roots, 0) && forall q :: IsRoot(roots, q) ==> Dealt(0, q)
      modifies this`greyList, this`grey, this`done, heap`words
      ensures Idle() && Traced(heap.kids, roots, start, heap.words, white)
    {
      hide Colours, GreyList, OnlyReached, Scanned, HeapOk, Traced;
      while greyList != 0
        invariant Marking(roots, 0) && forall q :: IsRoot(roots, q) ==> Dealt(0, q)
        decreases |start.Keys| - |done|
      {
        ghost var done0 := done;
        DoneBound(start, heap.words, white, grey, 0, done);
        ScanOne(roots);
        DoneBound(start, heap.words, white, grey, 0, done);
        SubsetSize(done0, done);
      }
      HeapEven(heap.words, heap.kids, roots);
      EmptyList(start, heap.words, white, greyList, grey, done);
      TraceEnds(heap.kids, roots, start, heap.words, white, done);
    }

    method ScanOne(ghost roots: seq<nat>)
      requires Marking(roots, 0) && greyList != 0
      modifies this`greyList, this`grey, this`done, heap`words
      ensures Marking(roots, 0) && old(done) < done
      ensures forall o :: old(Dealt(0, o)) ==> Dealt(0, o)
    {
      hide Colours, GreyList, OnlyReached, Scanned, HeapOk, Reaches, Traced;
      var obj := greyList;
      HeapEven(heap.words, heap.kids, roots);
      Pop(start, heap.words, white, greyList, grey, done);
      TakenMarked(heap.kids, roots, Stale(start, white), grey, done);
      var gcWord := heap.words[obj];
      assert Even(gcWord);
      greyList := gcWord;
      grey := grey[1..];
      KidsReached(heap.words, heap.kids, roots, Stale(start, white), grey, obj, done);
      assert forall o :: old(Dealt(0, o)) ==> Dealt(obj, o);
      MarkAll(heap.kids[obj], roots, obj);
      HeapEven(heap.words, heap.kids, roots);
      Whiten(start, heap.words, white, greyList, grey, obj, done);
      ScannedMore(heap.kids, roots, Stale(start, white), grey, obj, done);
      heap.words := heap.words[obj := white];
      done := done + {obj};
      SameHeap(old(heap.words), heap.words, heap.kids, roots);
    }
  }

  lemma RootsReady(words: Words, kids: Kids, roots: seq<nat>, avoid: set<nat>, values: seq<nat>)
    requires HeapOk(words, kids, roots) && forall i :: 0 <= i < |values| ==> values[i] in roots
    ensures forall i :: 0 <= i < |values| ==> Reported(words, values[i])
    ensures forall i :: 0 <= i < |values| && Pointer(values[i]) != 0 && Pointer(values[i]) !in avoid ==>
      Reaches(kids, roots, avoid, Pointer(values[i]))
  {
    forall i | 0 <= i < |values| && Pointer(values[i]) != 0 && Pointer(values[i]) !in avoid
      ensures Reaches(kids, roots, avoid, Pointer(values[i]))
    {
      RootReaches(kids, roots, avoid, Pointer(values[i]));
    }
  }

  lemma HeapEven(words: Words, kids: Kids, roots: seq<nat>)
    requires HeapOk(words, kids, roots)
    ensures forall x :: x in words ==> Even(x) && x != 0
  {
  }

  lemma SameHeap(words: Words, words': Words, kids: Kids, roots: seq<nat>)
    requires HeapOk(words, kids, roots) && words'.Keys == words.Keys
    ensures HeapOk(words', kids, roots)
  {
    hide Reachable;
    assert forall o :: ReportsObjects(words, kids, o) ==> ReportsObjects(words', kids, o);
  }

  lemma TakenMarked(kids: Kids, roots: seq<nat>, avoid: set<nat>, grey: seq<nat>, done: set<nat>)
    requires OnlyReached(kids, roots, avoid, grey, 0, done) && Scanned(kids, avoid, grey, 0, done) && grey != [] && grey[0] != 0
    ensures OnlyReached(kids, roots, avoid, grey[1..], grey[0], done) && Scanned(kids, avoid, grey[1..], grey[0], done)
    ensures forall o :: Marked(grey, 0, done, o) <==> Marked(grey[1..], grey[0], done, o)
  {
    assert grey == [grey[0]] + grey[1..];
    assert forall o :: Marked(grey, 0, done, o) <==> Marked(grey[1..], grey[0], done, o);
  }

  /** What a marked object reports can be marked. */
  lemma KidsReached(words: Words, kids: Kids, roots: seq<nat>, avoid: set<nat>, grey: seq<nat>, cur: nat, done: set<nat>)
    requires HeapOk(words, kids, roots) && OnlyReached(kids, roots, avoid, grey, cur, done) && cur != 0 && cur in words
    ensures cur in kids && forall i :: 0 <= i < |kids[cur]| ==> Reported(words, kids[cur][i])
    ensures forall i :: 0 <= i < |kids[cur]| && Pointer(kids[cur][i]) != 0 && Pointer(kids[cur][i]) !in avoid ==>
      Reaches(kids, roots, avoid, Pointer(kids[cur][i]))
  {
    assert Marked(grey, cur, done, cur);
    ReachesReachable(kids, roots, avoid, cur);
    assert ReportsObjects(words, kids, cur);
    forall i | 0 <= i < |kids[cur]| && Pointer(kids[cur][i]) != 0 && Pointer(kids[cur][i]) !in avoid
      ensures Reaches(kids, roots, avoid, Pointer(kids[cur][i]))
    {
      assert Points(kids, cur, Pointer(kids[cur][i]));
      ReachesFurther(kids, roots, avoid, cur, Pointer(kids[cur][i]));
    }
  }

  lemma ScannedMore(kids: Kids, roots: seq<nat>, avoid: set<nat>, grey: seq<nat>, cur: nat, done: set<nat>)
    requires OnlyReached(kids, roots, avoid, grey, cur, done) && Scanned(kids, avoid, grey, cur, done) && cur != 0 && cur in kids
    requires forall i :: 0 <= i < |kids[cur]| && Pointer(kids[cur][i]) != 0 ==>
      Pointer(kids[cur][i]) in avoid || Marked(grey, cur, done, Pointer(kids[cur][i]))
    ensures OnlyReached(kids, roots, avoid, grey, 0, done + {cur}) && Scanned(kids, avoid, grey, 0, done + {cur})
    ensures forall o :: Marked(grey, cur, done, o) <==> Marked(grey, 0, done + {cur}, o)
  {
    assert forall o :: Marked(grey, cur, done, o) <==> Marked(grey, 0, done + {cur}, o);
  }

  lemma DoneBound(words0: Words, words: Words, white: nat, grey: seq<nat>, cur: nat, done: set<nat>)
    requires Colours(words0, words, white, grey, cur, done)
    ensures |done| <= |words0.Keys|
  {
    SubsetSize(done, words0.Keys);
  }

  lemma EmptyList(words0: Words, words: Words, white: nat, head: nat, grey: seq<nat>, done: set<nat>)
    requires GreyList(words, head, grey) && Colours(words0, words, white, grey, 0, done) && head == 0
    requires forall x :: x in words ==> x != 0
    ensures grey == [] && !Even(white)
  {
    EmptyHead(words, head, grey);
  }

  lemma EmptyHead(words: Words, head: nat, grey: seq<nat>)
    requires GreyList(words, head, grey) && forall x :: x in words ==> x != 0
    ensures head == 0 <==> grey == []
  {
  }

  lemma MarkedMore(kids: Kids, roots: seq<nat>, avoid: set<nat>, grey: seq<nat>, cur: nat, done: set<nat>, o: nat)
    requires OnlyReached(kids, roots, avoid, grey, cur, done) && Scanned(kids, avoid, grey, cur, done)
    requires Reaches(kids, roots, avoid, o)
    ensures OnlyReached(kids, roots, avoid, [o] + grey, cur, done) && Scanned(kids, avoid, [o] + grey, cur, done)
    ensures forall x :: Marked(grey, cur, done, x) ==> Marked([o] + grey, cur, done, x)
    ensures Marked([o] + grey, cur, done, o)
  {
    forall x | Marked([o] + grey, cur, done, x)
      ensures Reaches(kids, roots, avoid, x)
    {
      assert x != o ==> Marked(grey, cur, done, x);
    }
    forall x | Marked(grey, cur, done, x)
      ensures Marked([o] + grey, cur, done, x)
    {
    }
    assert o in [o] + grey;
  }
}
