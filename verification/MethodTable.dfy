/** The table of the methods of a class (rtsrc/ObjClass.cpp): open addressing with at
    most six probes, and a map when that is not enough. Functions are numbers and null is
    0; an empty entry has the signature 0. */
module MethodTable {
  import opened Basics

  const NumEntries := 256
  const MaxProbes := 6

  datatype Entry = Entry(func: nat, signature: nat)

  const Empty := Entry(0, 0)

  function Slot(s: nat, d: nat): (i: nat)
    ensures i < NumEntries
  {
    (s % NumEntries + d) % NumEntries
  }

  lemma FirstSlot(s: nat)
    ensures Slot(s, 0) == s % NumEntries
  {
  }

  /** The next slot, which is the first one after the last. */
  lemma NextSlot(s: nat, d: nat)
    ensures Slot(s, d + 1) == if Slot(s, d) + 1 == NumEntries then 0 else Slot(s, d) + 1
  {
  }

  /** The slots that come before the d-th one in the search for s hold other methods. */
  ghost predicate Passed(t: seq<Entry>, s: nat, d: nat)
    requires |t| == NumEntries
  {
    forall e :: 0 <= e < d ==> OtherAt(t, s, e)
  }

  predicate OtherAt(t: seq<Entry>, s: nat, e: nat)
    requires |t| == NumEntries
  {
    t[Slot(s, e)].func != 0 && t[Slot(s, e)].signature != s
  }

  /** An entry is found within six probes, and there is no gap before it. */
  ghost predicate EntryOk(t: seq<Entry>, i: nat)
    requires |t| == NumEntries && i < NumEntries
  {
    if t[i].func == 0 then t[i] == Empty
    else t[i].signature != 0 && exists d :: 0 <= d < MaxProbes && Slot(t[i].signature, d) == i && Passed(t, t[i].signature, d)
  }

  ghost predicate TableOk(t: seq<Entry>) {
    |t| == NumEntries && forall i :: 0 <= i < NumEntries ==> EntryOk(t, i)
  }

  /** The table holds exactly the methods of m. */
  ghost predicate Holds(t: seq<Entry>, m: map<nat, nat>) {
    && (forall i :: 0 <= i < |t| && t[i].func != 0 ==> t[i].signature in m && m[t[i].signature] == t[i].func)
    && (forall s :: s in m ==> s != 0 && m[s] != 0 && InTable(t, s))
  }

  ghost predicate InTable(t: seq<Entry>, s: nat) {
    exists i :: 0 <= i < |t| && t[i].func != 0 && t[i].signature == s
  }

  /** Where the d-th and later probes find s or room for it; None if that takes too many. */
  function Probe(t: seq<Entry>, s: nat, d: nat): (i: Option<nat>)
    requires |t| == NumEntries && d <= MaxProbes
    ensures i.Some? ==> i.value < NumEntries
    decreases MaxProbes - d
  {
    if d == MaxProbes then None
    else if t[Slot(s, d)].func == 0 || t[Slot(s, d)].signature == s then Some(Slot(s, d))
    else Probe(t, s, d + 1)
  }

  lemma {:induction false} ProbeExactly(t: seq<Entry>, s: nat, d: nat)
    requires |t| == NumEntries && d <= MaxProbes && Passed(t, s, d)
    ensures match Probe(t, s, d)
            case None => Passed(t, s, MaxProbes)
            case Some(i) =>
              && (t[i].func == 0 || t[i].signature == s)
              && exists e :: 0 <= e < MaxProbes && Slot(s, e) == i && Passed(t, s, e)
    decreases MaxProbes - d
  {
    if d < MaxProbes && t[Slot(s, d)].func != 0 && t[Slot(s, d)].signature != s {
      assert OtherAt(t, s, d);
      ProbeExactly(t, s, d + 1);
    }
  }

  /** A method that the table holds is found by its search, after no gap. */
  lemma Located(t: seq<Entry>, s: nat) returns (d: nat)
    requires TableOk(t) && InTable(t, s)
    ensures d < MaxProbes && Passed(t, s, d) && t[Slot(s, d)].func != 0 && t[Slot(s, d)].signature == s
  {
    var i :| 0 <= i < |t| && t[i].func != 0 && t[i].signature == s;
    assert EntryOk(t, i);
    d :| 0 <= d < MaxProbes && Slot(t[i].signature, d) == i && Passed(t, t[i].signature, d);
  }

  /** Each method is in the table once. */
  lemma Unique(t: seq<Entry>, i: nat, j: nat)
    requires TableOk(t) && i < NumEntries && j < NumEntries && t[i].func != 0 && t[j].func != 0 && t[i].signature == t[j].signature
    ensures i == j
  {
    var s := t[i].signature;
    assert EntryOk(t, i) && EntryOk(t, j);
    var d :| 0 <= d < MaxProbes && Slot(s, d) == i && Passed(t, s, d);
    var e :| 0 <= e < MaxProbes && Slot(s, e) == j && Passed(t, s, e);
    assert d < e ==> OtherAt(t, s, d);
    assert e < d ==> OtherAt(t, s, e);
  }

  /** Putting a method where its search has ended. */
  lemma Put(t: seq<Entry>, m: map<nat, nat>, s: nat, f: nat, i: nat)
    requires TableOk(t) && Holds(t, m) && s != 0 && f != 0 && Probe(t, s, 0) == Some(i)
    ensures TableOk(t[i := Entry(f, s)]) && Holds(t[i := Entry(f, s)], m[s := f])
  {
    ProbeExactly(t, s, 0);
    var t' := t[i := Entry(f, s)];
    forall j: nat | j < NumEntries
      ensures EntryOk(t', j)
    {
      PutKeeps(t, s, f, i, j);
    }
    forall j | 0 <= j < |t'| && t'[j].func != 0
      ensures t'[j].signature in m[s := f] && m[s := f][t'[j].signature] == t'[j].func
    {
      if j != i && t[j].signature == s {
        PutOnlyOnce(t, s, i, j);
      }
    }
    forall x | x in m[s := f]
      ensures InTable(t', x)
    {
      if x == s {
        assert t'[i].func != 0 && t'[i].signature == s;
      } else {
        assert InTable(t, x);
        var j :| 0 <= j < |t| && t[j].func != 0 && t[j].signature == x;
        assert t'[j].func != 0 && t'[j].signature == x;
      }
    }
  }

  /** If s is in the table, its search ends there. */
  lemma PutOnlyOnce(t: seq<Entry>, s: nat, i: nat, j: nat)
    requires TableOk(t) && Probe(t, s, 0) == Some(i) && j < NumEntries && t[j].func != 0 && t[j].signature == s
    ensures i == j
  {
    ProbeExactly(t, s, 0);
    assert EntryOk(t, j);
    var d :| 0 <= d < MaxProbes && Slot(s, d) == j && Passed(t, s, d);
    var e :| 0 <= e < MaxProbes && Slot(s, e) == i && Passed(t, s, e);
    assert d < e ==> OtherAt(t, s, d);
    assert e < d ==> OtherAt(t, s, e);
  }

  lemma PutKeeps(t: seq<Entry>, s: nat, f: nat, i: nat, j: nat)
    requires TableOk(t) && s != 0 && f != 0 && j < NumEntries && Probe(t, s, 0) == Some(i)
    ensures EntryOk(t[i := Entry(f, s)], j)
  {
    var t' := t[i := Entry(f, s)];
    ProbeExactly(t, s, 0);
    assert EntryOk(t, j);
    if j == i {
      var e :| 0 <= e < MaxProbes && Slot(s, e) == i && Passed(t, s, e);
      PassedStays(t, s, f, i, s, e);
    } else if t[j].func != 0 {
      var x := t[j].signature;
      var e :| 0 <= e < MaxProbes && Slot(x, e) == j && Passed(t, x, e);
      if x == s {
        PutOnlyOnce(t, s, i, j);
      }
      PassedStays(t, s, f, i, x, e);
    }
  }

  lemma PassedStays(t: seq<Entry>, s: nat, f: nat, i: nat, x: nat, d: nat)
    requires |t| == NumEntries && i < NumEntries && f != 0 && Passed(t, x, d)
    requires x != s || forall e :: 0 <= e < d ==> Slot(x, e) != i
    ensures Passed(t[i := Entry(f, s)], x, d)
  {
    var t' := t[i := Entry(f, s)];
    forall e | 0 <= e < d
      ensures OtherAt(t', x, e)
    {
      assert OtherAt(t, x, e);
    }
  }

  // ----- The map -----

  /** The map holds exactly the methods of m; only s may have an empty entry. */
  ghost predicate MapHolds(stl: map<nat, Entry>, m: map<nat, nat>, s: nat) {
    && (forall x :: x in stl && x != s ==> x in m)
    && (forall x :: x in m ==> x != 0 && m[x] != 0 && x in stl && stl[x] == Entry(m[x], x))
    && (s in stl && s !in m ==> stl[s] == Empty)
  }

  /** The table with its first n entries moved to a map. */
  ghost predicate Moved(t: seq<Entry>, n: nat, stl: map<nat, Entry>)
    requires n <= |t|
  {
    && (forall i :: 0 <= i < n && t[i].func != 0 ==> t[i].signature in stl && stl[t[i].signature] == t[i])
    && (forall s :: s in stl ==> InTable(t, s) && stl[s].func != 0 && stl[s].signature == s)
  }

  lemma MoveOne(t: seq<Entry>, n: nat, stl: map<nat, Entry>)
    requires TableOk(t) && n < NumEntries && Moved(t, n, stl)
    ensures Moved(t, n + 1, if t[n].func == 0 then stl else stl[t[n].signature := t[n]])
  {
    if t[n].func != 0 {
      forall i: nat | i < n && t[i].func != 0
        ensures t[i].signature != t[n].signature
      {
        if t[i].signature == t[n].signature {
          Unique(t, i, n);
        }
      }
    }
  }

  lemma MovedAll(t: seq<Entry>, stl: map<nat, Entry>, m: map<nat, nat>, s: nat)
    requires TableOk(t) && Holds(t, m) && Moved(t, NumEntries, stl)
    ensures MapHolds(stl, m, 0)
  {
    forall x | x in m
      ensures x in stl && stl[x] == Entry(m[x], x)
    {
      var i :| 0 <= i < |t| && t[i].func != 0 && t[i].signature == x;
    }
    forall x | x in stl
      ensures x in m && x != 0
    {
      var i :| 0 <= i < |t| && t[i].func != 0 && t[i].signature == x;
      assert EntryOk(t, i);
    }
  }

  // ----- The code -----

  datatype Found = Function(func: nat) | Nothing | TableFull

  class FunctionTable {
    const entries: array<Entry>
    var stl: Option<map<nat, Entry>>
    /** The methods that are held. */
    ghost var methods: map<nat, nat>

    ghost predicate Valid()
      reads this, entries
    {
      entries.Length == NumEntries && (forall s :: s in methods ==> s != 0 && methods[s] != 0) &&
      match stl
      case None => TableOk(entries[..]) && Holds(entries[..], methods)
      case Some(m) => MapHolds(m, methods, 0) && 0 !in m
    }

    constructor ()
      ensures Valid() && methods == map[] && stl == None && fresh(entries)
    {
      entries := new Entry[NumEntries](_ => Empty);
      stl := None;
      methods := map[];
      new;
      assert forall i :: 0 <= i < NumEntries ==> EntryOk(entries[..], i);
    }

    /** Finds a method. The search goes round the table; if it comes back without having met a
        gap, the program aborts. */
    method LookupMethod(s: nat) returns (f: Found)
      requires Valid() && s != 0
      ensures s in methods ==> f == Function(methods[s])
      ensures s !in methods ==> f == if stl == None && forall i :: 0 <= i < NumEntries ==> entries[i].func != 0 then TableFull else Nothing
    {
      if stl.Some? {
        if s in stl.value {
          return Function(stl.value[s].func);
        }
        return Nothing;
      }
      ghost var t, where := entries[..], 0;
      if s in methods {
        where := Located(t, s);
      }
      FirstSlot(s);
      var start := s % NumEntries;
      var index := start;
      ghost var d := 0;
      while true
        invariant 0 <= d < NumEntries && index == Slot(s, d) && Passed(t, s, d)
        invariant s in methods ==> d <= where
        decreases NumEntries - d
      {
        if entries[index].signature == s {
          assert t[index].func != 0 by {
            assert EntryOk(t, index);
          }
          return Function(entries[index].func);
        }
        assert s in methods && d < where ==> OtherAt(t, s, d);
        if entries[index].func == 0 {
          return Nothing;
        }
        assert OtherAt(t, s, d);
        NextSlot(s, d);
        index := index + 1;
        if index == NumEntries {
          index := 0;
        }
        d := d + 1;
        if index == start {
          AllRound(t, s);
          return TableFull;
        }
      }
    }

    /** Moves the table to a map. */
    method RelocateSignaturesToSTL()
      requires Valid() && stl == None
      modifies this`stl
      ensures Valid() && stl.Some?
    {
      var m: map<nat, Entry> := map[];
      var i := 0;
      while i < NumEntries
        invariant 0 <= i <= NumEntries && Moved(entries[..], i, m)
      {
        MoveOne(entries[..], i, m);
        if entries[i].func != 0 {
          m := m[entries[i].signature := entries[i]];
        }
        i := i + 1;
      }
      MovedAll(entries[..], m, methods, 0);
      assert 0 !in m;
      stl := Some(m);
    }

    /** Everything is in order, except that there may be an empty entry for s in the map. */
    ghost predicate Open(s: nat)
      reads this, entries
    {
      entries.Length == NumEntries && (forall x :: x in methods ==> x != 0 && methods[x] != 0) &&
      match stl
      case None => TableOk(entries[..]) && Holds(entries[..], methods)
      case Some(m) => MapHolds(m, methods, s) && 0 !in m && s in m
    }

    /** Looks for s, or for room for it, in at most six slots; -1 if that is not enough. */
    method Search(s: nat) returns (index: int)
      requires entries.Length == NumEntries
      ensures match Probe(entries[..], s, 0)
              case None => index == -1
              case Some(i) => index == i
    {
      ghost var t := entries[..];
      FirstSlot(s);
      hide Slot;
      index := s % NumEntries;
      var attempts := 1;
      while true
        invariant 1 <= attempts <= MaxProbes && index == Slot(s, attempts - 1) && Probe(t, s, 0) == Probe(t, s, attempts - 1)
        decreases MaxProbes - attempts
      {
        if entries[index].func == 0 {
          return;
        }
        if entries[index].signature == s {
          return;
        }
        NextSlot(s, attempts - 1);
        index := index + 1;
        if index >= NumEntries {
          index := 0;
        }
        attempts := attempts + 1;
        if attempts - 1 > 5 {
          return -1;
        }
      }
    }

    /** The entry for s: its slot, or -1 if it is in the map, to which the table moves
        if there is no room near its place. The entry holds the method or is empty. */
    method FindFunctionTableEntry(s: nat) returns (at: int)
      requires Valid() && s != 0
      modifies this`stl
      ensures Open(s) && methods == old(methods)
      ensures if stl.Some? then at == -1 else at >= 0 && Probe(entries[..], s, 0) == Some(at)
      ensures EntryAt(s, at) == if s in methods then Entry(methods[s], s) else Empty
      decreases stl == None
    {
      hide TableOk, Holds;
      if stl.Some? {
        if s !in stl.value {
          stl := Some(stl.value[s := Empty]);
        }
        return -1;
      }
      at := Search(s);
      if at == -1 {
        RelocateSignaturesToSTL();
        at := FindFunctionTableEntry(s);
        return;
      }
      FoundAt(entries[..], methods, s, at);
    }

    /** The entry is not written, because it holds a method already. */
    lemma CloseUnused(s: nat)
      requires Open(s) && s in methods
      ensures Valid()
    {
    }

    function EntryAt(s: nat, at: int): Entry
      requires if stl.Some? then s in stl.value else 0 <= at < entries.Length
      reads this, entries
    {
      if stl.Some? then stl.value[s] else entries[at]
    }

    /** Writes the entry that has been found. */
    method Write(s: nat, at: int, f: nat)
      requires Open(s) && s != 0 && f != 0
      requires if stl.Some? then at == -1 else at >= 0 && Probe(entries[..], s, 0) == Some(at)
      modifies this, entries
      ensures Valid() && methods == old(methods)[s := f]
    {
      if stl.Some? {
        stl := Some(stl.value[s := Entry(f, s)]);
      } else {
        Put(entries[..], methods, s, f, at);
        ghost var t := entries[..];
        entries[at] := Entry(f, s);
        assert entries[..] == t[at := Entry(f, s)];
      }
      methods := methods[s := f];
    }
  }

  // ----- Classes -----

  /** One definition after another, without and with override. */
  function Define(m: map<nat, nat>, s: nat, f: nat, override: bool): map<nat, nat> {
    if s in m && !override then m else m[s := f]
  }

  /** The first and the last definition of s in a list. */
  function First(defs: seq<Entry>, s: nat): Option<nat> {
    if defs == [] then None else if defs[0].signature == s then Some(defs[0].func) else First(defs[1..], s)
  }

  function Latest(defs: seq<Entry>, s: nat): Option<nat> {
    if defs == [] then None
    else if defs[|defs| - 1].signature == s then Some(defs[|defs| - 1].func)
    else Latest(defs[..|defs| - 1], s)
  }

  class ObjClass {
    const functions: FunctionTable
    var definedFunctions: seq<Entry>

    ghost predicate Valid()
      reads this, functions, functions.entries
    {
      functions.Valid() && forall i :: 0 <= i < |definedFunctions| ==> definedFunctions[i].func != 0 && definedFunctions[i].signature != 0
    }

    /** Before methods are inherited: the table holds the latest definition of each signature. */
    ghost predicate OwnOnly()
      reads this, functions
    {
      forall s: nat :: (if s in functions.methods then Some(functions.methods[s]) else None) == Latest(definedFunctions, s)
    }

    constructor ()
      ensures Valid() && OwnOnly() && functions.methods == map[] && definedFunctions == []
      ensures fresh(functions) && fresh(functions.entries)
    {
      functions := new FunctionTable();
      definedFunctions := [];
    }

    method AddFunction(s: nat, f: nat, shouldOverride: bool)
      requires Valid() && s != 0 && f != 0
      modifies this, functions, functions.entries
      ensures Valid() && functions.methods == Define(old(functions.methods), s, f, shouldOverride)
      ensures definedFunctions == old(definedFunctions) + if s in old(functions.methods) && !shouldOverride then [] else [Entry(f, s)]
      ensures old(OwnOnly()) ==> OwnOnly()
    {
      var at := functions.FindFunctionTableEntry(s);
      var entry := functions.EntryAt(s, at);
      if !shouldOverride && entry.func != 0 {
        functions.CloseUnused(s);
        return;
      }
      functions.Write(s, at, f);
      definedFunctions := definedFunctions + [Entry(f, s)];
      assert definedFunctions[..|definedFunctions| - 1] == old(definedFunctions);
    }
  }

  // ----- Inheritance -----

  /** The methods of a class after those of a parent class have been added that it lacks. */
  function AddMissing(m: map<nat, nat>, defs: seq<Entry>, n: nat): map<nat, nat>
    requires n <= |defs|
  {
    if n == 0 then m else Define(AddMissing(m, defs, n - 1), defs[n - 1].signature, defs[n - 1].func, false)
  }

  /** Classes come after their parents; -1 is no parent. */
  predicate Parents(parent: seq<int>) {
    forall c :: 0 <= c < |parent| ==> -1 <= parent[c] < c
  }

  /** The methods after those of class c and its ancestors have been added. */
  function Inherited(parent: seq<int>, defs: seq<seq<Entry>>, c: int, m: map<nat, nat>): map<nat, nat>
    requires Parents(parent) && |defs| == |parent| && -1 <= c < |parent|
    decreases c
  {
    if c < 0 then m else Inherited(parent, defs, parent[c], AddMissing(m, defs[c], |defs[c]|))
  }

  /** What the nearest class, from c upwards, that defines s has; first or latest is the
      choice between several definitions. */
  function Nearest(parent: seq<int>, defs: seq<seq<Entry>>, c: int, s: nat, latest: bool): Option<nat>
    requires Parents(parent) && |defs| == |parent| && -1 <= c < |parent|
    decreases c
  {
    if c < 0 then None
    else
      var own := if latest then Latest(defs[c], s) else First(defs[c], s);
      if own.Some? then own else Nearest(parent, defs, parent[c], s, latest)
  }

  lemma {:induction false} FirstOfPrefix(defs: seq<Entry>, n: nat, s: nat)
    requires 0 < n <= |defs|
    ensures First(defs[..n], s) ==
      if First(defs[..n - 1], s).Some? then First(defs[..n - 1], s)
      else if defs[n - 1].signature == s then Some(defs[n - 1].func) else None
  {
    if n > 1 && defs[0].signature != s {
      FirstOfPrefix(defs[1..], n - 1, s);
      assert defs[..n][1..] == defs[1..][..n - 1] && defs[..n - 1][1..] == defs[1..][..n - 2];
    }
  }

  lemma {:induction false} AddMissingExactly(m: map<nat, nat>, defs: seq<Entry>, n: nat, s: nat)
    requires n <= |defs|
    ensures s in AddMissing(m, defs, n) <==> s in m || First(defs[..n], s).Some?
    ensures s in m ==> AddMissing(m, defs, n)[s] == m[s]
    ensures s !in m && First(defs[..n], s).Some? ==> AddMissing(m, defs, n)[s] == First(defs[..n], s).value
  {
    if n > 0 {
      AddMissingExactly(m, defs, n - 1, s);
      FirstOfPrefix(defs, n, s);
    }
  }

  /** An inheriting class keeps its own methods and gets, for every other signature, the
      first definition in its nearest ancestor that has one. */
  lemma {:induction false} InheritedExactly(parent: seq<int>, defs: seq<seq<Entry>>, c: int, m: map<nat, nat>, s: nat)
    requires Parents(parent) && |defs| == |parent| && -1 <= c < |parent|
    ensures var m' := Inherited(parent, defs, c, m);
      (if s in m' then Some(m'[s]) else None) == if s in m then Some(m[s]) else Nearest(parent, defs, c, s, false)
    decreases c
  {
    if c >= 0 {
      AddMissingExactly(m, defs[c], |defs[c]|, s);
      assert defs[c][..|defs[c]|] == defs[c];
      InheritedExactly(parent, defs, parent[c], AddMissing(m, defs[c], |defs[c]|), s);
    }
  }

  /** The class from which s is inherited. */
  function Definer(parent: seq<int>, defs: seq<seq<Entry>>, c: int, s: nat): (d: int)
    requires Parents(parent) && |defs| == |parent| && -1 <= c < |parent|
    ensures -1 <= d <= c
    decreases c
  {
    if c < 0 || First(defs[c], s).Some? then c else Definer(parent, defs, parent[c], s)
  }

  lemma {:induction false} FirstOrLatest(defs: seq<Entry>, s: nat)
    ensures First(defs, s).Some? <==> Latest(defs, s).Some?
  {
    if defs != [] {
      var n := |defs|;
      assert defs[..n] == defs;
      FirstOfPrefix(defs, n, s);
      FirstOrLatest(defs[..n - 1], s);
    }
  }

  /** Entry i is the first one for s, or the last one. */
  predicate IsFirst(defs: seq<Entry>, s: nat, i: nat) {
    i < |defs| && defs[i].signature == s && forall j :: 0 <= j < i ==> defs[j].signature != s
  }

  predicate IsLast(defs: seq<Entry>, s: nat, i: nat) {
    i < |defs| && defs[i].signature == s && forall j :: i < j < |defs| ==> defs[j].signature != s
  }

  lemma {:induction false} FirstByPlace(defs: seq<Entry>, s: nat) returns (i: nat)
    ensures if First(defs, s).None? then forall j :: 0 <= j < |defs| ==> defs[j].signature != s
            else IsFirst(defs, s, i) && First(defs, s) == Some(defs[i].func)
  {
    i := 0;
    if defs != [] && defs[0].signature != s {
      i := FirstByPlace(defs[1..], s);
      i := i + 1;
    }
  }

  lemma {:induction false} LatestByPlace(defs: seq<Entry>, s: nat) returns (i: nat)
    ensures Latest(defs, s).Some? ==> IsLast(defs, s, i) && Latest(defs, s) == Some(defs[i].func)
  {
    i := 0;
    if defs != [] {
      i := |defs| - 1;
      if defs[i].signature != s {
        i := LatestByPlace(defs[..|defs| - 1], s);
      }
    }
  }

  /** The first and the last entry for s have the same function. */
  ghost predicate EndsAgree(defs: seq<Entry>, s: nat) {
    forall i: nat, j: nat :: IsFirst(defs, s, i) && IsLast(defs, s, j) ==> defs[i].func == defs[j].func
  }

  lemma EndsDecide(defs: seq<Entry>, s: nat)
    ensures First(defs, s) == Latest(defs, s) <==> EndsAgree(defs, s)
  {
    FirstOrLatest(defs, s);
    var i := FirstByPlace(defs, s);
    var j := LatestByPlace(defs, s);
    if First(defs, s).Some? {
      assert forall k: nat :: IsFirst(defs, s, k) ==> k == i;
      assert forall k: nat :: IsLast(defs, s, k) ==> k == j;
    }
  }

  /** What is inherited is what the nearest defining ancestor itself uses, exactly if no ancestor defines the
      signature or in that ancestor the first and the last entry for it have the same function. */
  lemma {:induction false} NearestIsItsOwn(parent: seq<int>, defs: seq<seq<Entry>>, c: int, s: nat)
    requires Parents(parent) && |defs| == |parent| && -1 <= c < |parent|
    ensures var d := Definer(parent, defs, c, s);
      Nearest(parent, defs, c, s, false) == Nearest(parent, defs, c, s, true) <==> d == -1 || EndsAgree(defs[d], s)
    decreases c
  {
    if c >= 0 {
      FirstOrLatest(defs[c], s);
      EndsDecide(defs[c], s);
      if First(defs[c], s).None? {
        NearestIsItsOwn(parent, defs, parent[c], s);
      }
    }
  }

  lemma {:induction false} DefinedOnce(defs: seq<Entry>, s: nat)
    requires forall i, j :: 0 <= i < j < |defs| ==> defs[i].signature != defs[j].signature
    ensures First(defs, s) == Latest(defs, s)
  {
    if defs != [] {
      var n := |defs|;
      assert defs[..n] == defs;
      FirstOfPrefix(defs, n, s);
      DefinedOnce(defs[..n - 1], s);
      FirstIsThere(defs[..n - 1], s);
    }
  }

  lemma {:induction false} FirstIsThere(defs: seq<Entry>, s: nat)
    ensures First(defs, s).Some? ==> exists i :: 0 <= i < |defs| && defs[i].signature == s
  {
    if defs != [] && defs[0].signature != s {
      FirstIsThere(defs[1..], s);
      if First(defs, s).Some? {
        var i :| 0 <= i < |defs[1..]| && defs[1..][i].signature == s;
        assert defs[i + 1].signature == s;
      }
    }
  }

  /** A parent class that overrides its own method 7 uses function 2, but hands down function 1. */
  lemma RedefinedInParent()
    ensures var parent, defs := [-1, 0], [[Entry(1, 7), Entry(2, 7)], []];
      && Latest(defs[0], 7) == Some(2)
      && Inherited(parent, defs, 0, map[]) == map[7 := 1]
  {
    var parent, defs := [-1, 0], [[Entry(1, 7), Entry(2, 7)], []];
    assert AddMissing(map[], defs[0], 0) == map[];
    assert AddMissing(map[], defs[0], 1) == map[7 := 1];
    assert AddMissing(map[], defs[0], 2) == map[7 := 1];
    assert Inherited(parent, defs, -1, map[7 := 1]) == map[7 := 1];
  }

  // ----- Setting up all classes -----

  /** No two classes share anything. */
  ghost predicate Separate(classes: seq<ObjClass>) {
    forall i, j :: 0 <= i < j < |classes| ==>
      classes[i] != classes[j] && classes[i].functions != classes[j].functions && classes[i].functions.entries != classes[j].functions.entries
  }

  /** The definitions of all classes. */
  ghost function AllDefs(classes: seq<ObjClass>): (d: seq<seq<Entry>>)
    reads classes
    ensures |d| == |classes|
  {
    seq(|classes|, i requires 0 <= i < |classes| reads classes => classes[i].definedFunctions)
  }

  /** Adds the methods of one list that a class lacks. */
  method CopyMissing(cls: ObjClass, defs: seq<Entry>)
    requires cls.Valid() && forall i :: 0 <= i < |defs| ==> defs[i].func != 0 && defs[i].signature != 0
    modifies cls.functions, cls.functions.entries
    ensures cls.Valid() && cls.functions.methods == AddMissing(old(cls.functions.methods), defs, |defs|)
  {
    var i := 0;
    while i < |defs|
      invariant 0 <= i <= |defs| && cls.Valid()
      invariant cls.functions.methods == AddMissing(old(cls.functions.methods), defs, i)
    {
      var s := defs[i].signature;
      var at := cls.functions.FindFunctionTableEntry(s);
      var entry := cls.functions.EntryAt(s, at);
      if entry.func == 0 {
        cls.functions.Write(s, at, defs[i].func);
      } else {
        cls.functions.CloseUnused(s);
      }
      i := i + 1;
    }
  }

  /** Copies inherited methods into one class, from its parent upwards. */
  method Inherit(classes: seq<ObjClass>, parent: seq<int>, c: nat)
    requires |classes| == |parent| && Parents(parent) && c < |classes| && Separate(classes)
    requires forall i :: 0 <= i < |classes| ==> classes[i].Valid()
    modifies classes[c].functions, classes[c].functions.entries
    ensures forall i :: 0 <= i < |classes| ==> classes[i].Valid()
    ensures classes[c].functions.methods == Inherited(parent, AllDefs(classes), parent[c], old(classes[c].functions.methods))
  {
    hide FunctionTable.Valid;
    ghost var defs := AllDefs(classes);
    var cls := classes[c];
    var p := parent[c];
    while p != -1
      invariant -1 <= p < |classes| && AllDefs(classes) == defs
      invariant forall i :: 0 <= i < |classes| ==> classes[i].Valid()
      invariant Inherited(parent, defs, parent[c], old(cls.functions.methods)) == Inherited(parent, defs, p, cls.functions.methods)
      decreases p
    {
      CopyMissing(cls, classes[p].definedFunctions);
      p := parent[p];
    }
  }

  /** The methods of class c when it has been set up, or before that. */
  function SetUp(parent: seq<int>, inherits: seq<bool>, defs: seq<seq<Entry>>, c: nat, done: bool, m: map<nat, nat>): map<nat, nat>
    requires Parents(parent) && |defs| == |parent| == |inherits| && c < |parent|
  {
    if done && inherits[c] then Inherited(parent, defs, parent[c], m) else m
  }

  /** Sets up all classes, in any order. What a class ends up with does not depend on the order. */
  method FinaliseSetup(classes: seq<ObjClass>, parent: seq<int>, inherits: seq<bool>, order: seq<nat>)
    requires |classes| == |parent| == |inherits| && Parents(parent) && Separate(classes)
    requires forall i :: 0 <= i < |classes| ==> classes[i].Valid()
    requires (forall i, j :: 0 <= i < j < |order| ==> order[i] != order[j]) && forall i :: 0 <= i < |order| ==> order[i] < |classes|
    modifies set c | c in classes :: c.functions, set c | c in classes :: c.functions.entries
    ensures forall i :: 0 <= i < |classes| ==> classes[i].Valid()
    ensures AllDefs(classes) == old(AllDefs(classes))
    ensures forall c :: 0 <= c < |classes| ==>
      classes[c].functions.methods == SetUp(parent, inherits, AllDefs(classes), c, c in order, old(classes[c].functions.methods))
  {
    hide Inherited, FunctionTable.Valid, Parents, AllDefs;
    var k := 0;
    while k < |order|
      invariant 0 <= k <= |order| && AllDefs(classes) == old(AllDefs(classes))
      invariant forall i :: 0 <= i < |classes| ==> classes[i].Valid()
      invariant forall c :: 0 <= c < |classes| ==>
        classes[c].functions.methods == SetUp(parent, inherits, AllDefs(classes), c, c in order[..k], old(classes[c].functions.methods))
    {
      var c := order[k];
      assert c !in order[..k];
      if inherits[c] {
        Inherit(classes, parent, c);
      }
      k := k + 1;
    }
    assert order[..k] == order;
  }

  /** The same with the code: a parent class defines method 7 and then overrides it, and a class inherits from
      it. A call on the one gets function 2, a call on the other function 1. */
  method RedefineAndInherit() returns (own: Found, inherited: Found)
    ensures own == Function(2) && inherited == Function(1)
  {
    hide FunctionTable.Valid;
    var p := RedefiningClass();
    var c := new ObjClass();
    InheritFrom(p, c);
    own := p.functions.LookupMethod(7);
    inherited := c.functions.LookupMethod(7);
  }

  method RedefiningClass() returns (p: ObjClass)
    ensures p.Valid() && fresh(p) && fresh(p.functions) && fresh(p.functions.entries)
    ensures p.definedFunctions == [Entry(1, 7), Entry(2, 7)] && p.functions.methods == map[7 := 2]
  {
    hide FunctionTable.Valid;
    p := new ObjClass();
    p.AddFunction(7, 1, false);
    p.AddFunction(7, 2, true);
  }

  method InheritFrom(p: ObjClass, c: ObjClass)
    requires p.Valid() && p.definedFunctions == [Entry(1, 7), Entry(2, 7)] && p.functions.methods == map[7 := 2]
    requires c.Valid() && c.definedFunctions == [] && c.functions.methods == map[] && Separate([p, c])
    modifies p.functions, p.functions.entries, c.functions, c.functions.entries
    ensures p.Valid() && p.functions.methods == map[7 := 2] && c.Valid() && c.functions.methods == map[7 := 1]
  {
    hide FunctionTable.Valid, Inherited;
    var classes := [p, c];
    FinaliseSetup(classes, [-1, 0], [false, true], [0, 1]);
    assert classes[0] == p && classes[1] == c;
    assert AllDefs(classes) == [[Entry(1, 7), Entry(2, 7)], []];
    RedefinedInParent();
  }

  lemma FoundAt(t: seq<Entry>, m: map<nat, nat>, s: nat, i: nat)
    requires TableOk(t) && Holds(t, m) && s != 0 && Probe(t, s, 0) == Some(i)
    ensures t[i] == if s in m then Entry(m[s], s) else Empty
  {
    ProbeExactly(t, s, 0);
    assert EntryOk(t, i);
    if s in m {
      var j :| 0 <= j < |t| && t[j].func != 0 && t[j].signature == s;
      PutOnlyOnce(t, s, i, j);
    }
  }

  /** The search has visited every slot when it comes back to the first one. */
  lemma AllRound(t: seq<Entry>, s: nat)
    requires |t| == NumEntries && Passed(t, s, NumEntries)
    ensures forall i :: 0 <= i < NumEntries ==> t[i].func != 0 && t[i].signature != s
  {
    forall i | 0 <= i < NumEntries
      ensures t[i].func != 0 && t[i].signature != s
    {
      var d := (i + NumEntries - s % NumEntries) % NumEntries;
      assert Slot(s, d) == i;
      assert OtherAt(t, s, d);
    }
  }
}
