/** The stack maps that the compiler emits (src/backend_llvm/WrenGCMetadataPrinter.cpp) and
    the runtime reads (common/StackMapDescription.cpp). Memory is a sequence of bytes, and
    numbers are stored with the lowest byte first. */
module StackMaps {
  import opened Basics

  // ----- Numbers as bytes -----

  function Bound(n: nat): nat { if n == 0 then 1 else 256 * Bound(n - 1) }

  function Put(v: nat, n: nat): (bs: seq<Byte>)
    ensures |bs| == n
  {
    if n == 0 then [] else [v % 256] + Put(v / 256, n - 1)
  }

  function Get(bs: seq<Byte>, n: nat): nat
    requires n <= |bs|
  {
    if n == 0 then 0 else bs[0] + 256 * Get(bs[1..], n - 1)
  }

  lemma {:induction false} GetPut(v: nat, n: nat, rest: seq<Byte>)
    requires v < Bound(n)
    ensures Get(Put(v, n) + rest, n) == v
  {
    if n > 0 {
      GetPut(v / 256, n - 1, rest);
      assert (Put(v, n) + rest)[1..] == Put(v / 256, n - 1) + rest;
    }
  }

  function Zeros(n: nat): (bs: seq<Byte>)
    ensures |bs| == n
  {
    seq(n, _ => 0)
  }

  function AlignTo64(n: nat): nat {
    if n % 8 == 0 then n else n + 8 - n % 8
  }

  // ----- What is described -----

  const MaxSection := 0xffff

  /** A function: its address, how many of the call sites are its own, its stack size and name. */
  datatype Fun = Fun(pointer: nat, count: nat, stackSize: nat, name: seq<Byte>)

  /** A call site: where it is in its function, and the stack slots of its values. */
  datatype Site = Site(offset: nat, locals: seq<Byte>)

  /** The numbers fit their fields. */
  predicate FunOk(f: Fun) {
    f.pointer < Bound(8) && f.count < Bound(4) && f.stackSize < Bound(4) && AlignTo64(|f.name|) <= MaxSection
  }

  predicate SiteOk(s: Site) {
    s.offset < Bound(4) && AlignTo64(4 + |s.locals|) < MaxSection
  }

  function Total(funs: seq<Fun>, i: nat): nat
    requires i <= |funs|
    decreases |funs| - i
  {
    if i == |funs| then 0 else funs[i].count + Total(funs, i + 1)
  }

  /** The call sites are those of all functions, in order. */
  ghost predicate MapsOk(funs: seq<Fun>, sites: seq<Site>) {
    && (forall i :: 0 <= i < |funs| ==> FunOk(funs[i])) && (forall k :: 0 <= k < |sites| ==> SiteOk(sites[k]))
    && Total(funs, 0) == |sites|
  }

  // ----- The objects of a stack map -----

  datatype Object = FunctionObject(f: Fun) | NameObject(name: seq<Byte>) | SiteObject(s: Site) | EndObject

  predicate ObjectOk(o: Object) {
    match o
    case FunctionObject(f) => FunOk(f)
    case NameObject(name) => AlignTo64(|name|) <= MaxSection
    case SiteObject(s) => SiteOk(s)
    case EndObject => true
  }

  const EndId := 1
  const FunctionId := 2
  const StatepointId := 3
  const NameId := 4

  function HeaderBytes(id: nat, sectionSize: nat, forObject: nat): (bs: seq<Byte>)
    ensures |bs| == 8
  {
    Put(id, 2) + Put(sectionSize, 2) + Put(0, 2) + Put(forObject, 2)
  }

  function Padded(bs: seq<Byte>): (r: seq<Byte>)
    ensures |r| == AlignTo64(|bs|)
  {
    bs + Zeros(AlignTo64(|bs|) - |bs|)
  }

  function Body(o: Object): seq<Byte> {
    match o
    case FunctionObject(f) => Put(f.pointer, 8) + Put(f.count, 4) + Put(f.stackSize, 4)
    case NameObject(name) => Padded(name)
    case SiteObject(s) => Padded(Put(s.offset, 4) + s.locals)
    case EndObject => []
  }

  function Encode(o: Object): seq<Byte> {
    match o
    case FunctionObject(f) => HeaderBytes(FunctionId, 16, 0) + Body(o)
    case NameObject(name) => HeaderBytes(NameId, AlignTo64(|name|), |name|) + Body(o)
    case SiteObject(s) => HeaderBytes(StatepointId, AlignTo64(4 + |s.locals|), |s.locals|) + Body(o)
    case EndObject => HeaderBytes(EndId, 0, 0)
  }

  function EncodeAll(os: seq<Object>): seq<Byte> {
    if os == [] then [] else Encode(os[0]) + EncodeAll(os[1..])
  }

  lemma {:induction false} EncodeAppend(os: seq<Object>, os': seq<Object>)
    ensures EncodeAll(os + os') == EncodeAll(os) + EncodeAll(os')
  {
    hide Encode;
    if os != [] {
      EncodeAppend(os[1..], os');
      assert (os + os')[1..] == os[1..] + os';
    } else {
      assert os + os' == os';
    }
  }

  // ----- Reading one object -----

  datatype Descriptor = Descriptor(pointer: nat, name: seq<Byte>, id: nat)

  datatype Statepoint = Statepoint(functionId: nat, offset: nat, index: nat, count: nat)

  /** The three vectors that the reader fills. */
  datatype Reader = Reader(functions: seq<Descriptor>, statepoints: seq<Statepoint>, heap: seq<Byte>)

  datatype Next = Bad | End | More(r: Reader, size: nat)

  /** Reads one object. Bad where the program aborts, or would read memory that is not part of the map. */
  function ReadObject(bs: seq<Byte>, r: Reader): Next {
    if |bs| < 8 then Bad else ReadBody(Get(bs, 2), Get(bs[2..], 2), Get(bs[6..], 2), bs[8..], r)
  }

  function ReadBody(id: nat, size: nat, forObject: nat, after: seq<Byte>, r: Reader): Next {
    if id == EndId then End
    else if |after| < size then Bad
    else if id == FunctionId then
      if |after| < 16 then Bad
      else More(r.(functions := r.functions + [Descriptor(Get(after, 8), [], |r.functions|)]), 8 + size)
    else if id == StatepointId then
      if |after| < 4 + forObject || r.functions == [] then Bad
      else
        var s := Statepoint(r.functions[|r.functions| - 1].id, Get(after, 4), |r.heap|, forObject);
        More(r.(statepoints := r.statepoints + [s], heap := r.heap + after[4..4 + forObject]), 8 + size)
    else if id == NameId then
      if |after| < forObject || r.functions == [] then Bad
      else
        var l := |r.functions| - 1;
        More(r.(functions := r.functions[l := r.functions[l].(name := after[..forObject])]), 8 + size)
    else Bad
  }

  /** What an object does to the reader. */
  function Apply(o: Object, r: Reader): Reader {
    match o
    case FunctionObject(f) => r.(functions := r.functions + [Descriptor(f.pointer, [], |r.functions|)])
    case NameObject(name) =>
      if r.functions == [] then r
      else
        var l := |r.functions| - 1;
        r.(functions := r.functions[l := r.functions[l].(name := name)])
    case SiteObject(s) =>
      if r.functions == [] then r
      else
        var p := Statepoint(r.functions[|r.functions| - 1].id, s.offset, |r.heap|, |s.locals|);
        r.(statepoints := r.statepoints + [p], heap := r.heap + s.locals)
    case EndObject => r
  }

  lemma HeaderRead(id: nat, size: nat, forObject: nat, rest: seq<Byte>)
    requires id < Bound(2) && size < Bound(2) && forObject < Bound(2)
    ensures var bs := HeaderBytes(id, size, forObject) + rest;
      Get(bs, 2) == id && Get(bs[2..], 2) == size && Get(bs[6..], 2) == forObject && bs[8..] == rest
  {
    var a, b, c, d := Put(id, 2), Put(size, 2), Put(0, 2), Put(forObject, 2);
    var bs := a + b + c + d + rest;
    assert bs == a + (b + (c + (d + rest)));
    assert bs[2..] == b + (c + (d + rest));
    assert bs[6..] == d + rest;
    GetPut(id, 2, b + (c + (d + rest)));
    GetPut(size, 2, c + (d + rest));
    GetPut(forObject, 2, rest);
  }

  lemma Fits(n: nat)
    requires AlignTo64(n) <= MaxSection
    ensures n <= AlignTo64(n) < Bound(2) && Bound(2) == 0x1_0000
  {
    assert Bound(0) == 1 && Bound(1) == 256;
  }

  function IdOf(o: Object): nat {
    match o
    case FunctionObject(_) => FunctionId
    case NameObject(_) => NameId
    case SiteObject(_) => StatepointId
    case EndObject => EndId
  }

  /** The size that the header of an object says what its body has, and its other number. */
  function SizeOf(o: Object): nat {
    match o
    case FunctionObject(_) => 16
    case NameObject(name) => AlignTo64(|name|)
    case SiteObject(s) => AlignTo64(4 + |s.locals|)
    case EndObject => 0
  }

  function ForOf(o: Object): nat {
    match o
    case NameObject(name) => |name|
    case SiteObject(s) => |s.locals|
    case _ => 0
  }

  lemma EncodedAs(o: Object)
    requires ObjectOk(o)
    ensures Encode(o) == HeaderBytes(IdOf(o), SizeOf(o), ForOf(o)) + Body(o) && |Body(o)| == SizeOf(o)
    ensures SizeOf(o) < Bound(2) && ForOf(o) < Bound(2) && IdOf(o) < Bound(2)
  {
    hide HeaderBytes, Put;
    Fits(16);
    match o
    case NameObject(name) => Fits(|name|);
    case SiteObject(s) => Fits(4 + |s.locals|);
    case EndObject => assert HeaderBytes(EndId, 0, 0) + [] == HeaderBytes(EndId, 0, 0);
    case _ =>
  }

  /** The body of an object that has been written is read back, whatever follows it. */
  lemma BodyBack(o: Object, rest: seq<Byte>, r: Reader)
    requires ObjectOk(o) && (r.functions != [] || o.FunctionObject? || o.EndObject?)
    ensures ReadBody(IdOf(o), SizeOf(o), ForOf(o), Body(o) + rest, r) == if o.EndObject? then End else More(Apply(o, r), 8 + SizeOf(o))
  {
    hide Put, Get;
    var after := Body(o) + rest;
    match o
    case EndObject =>
    case FunctionObject(f) =>
      var more := Put(f.count, 4) + Put(f.stackSize, 4) + rest;
      assert after == Put(f.pointer, 8) + more;
      GetPut(f.pointer, 8, more);
    case NameObject(name) =>
      assert after[..|name|] == name;
    case SiteObject(s) =>
      var more := s.locals + Zeros(AlignTo64(4 + |s.locals|) - (4 + |s.locals|)) + rest;
      assert after == Put(s.offset, 4) + more;
      GetPut(s.offset, 4, more);
      assert after[4..4 + |s.locals|] == s.locals;
  }

  /** An object that has been written is read back, whatever follows it. */
  lemma ReadBack(o: Object, rest: seq<Byte>, r: Reader)
    requires ObjectOk(o) && (r.functions != [] || o.FunctionObject? || o.EndObject?)
    ensures ReadObject(Encode(o) + rest, r) == if o.EndObject? then End else More(Apply(o, r), |Encode(o)|)
    ensures 8 <= |Encode(o)| && (Encode(o) + rest)[|Encode(o)|..] == rest
  {
    hide Get, ReadBody, Body, Apply, Bound, Encode;
    EncodedAs(o);
    BodyBack(o, rest, r);
    var h := HeaderBytes(IdOf(o), SizeOf(o), ForOf(o));
    assert Encode(o) + rest == h + (Body(o) + rest);
    HeaderRead(IdOf(o), SizeOf(o), ForOf(o), Body(o) + rest);
  }

  // ----- A whole stack map -----

  function SiteObjects(sites: seq<Site>): seq<Object> {
    if sites == [] then [] else [SiteObject(sites[0])] + SiteObjects(sites[1..])
  }

  /** The objects from function i and call site k on: each function with its name is
      followed by its own call sites. */
  function Objects(funs: seq<Fun>, sites: seq<Site>, i: nat, k: nat): seq<Object>
    requires i <= |funs| && k + Total(funs, i) == |sites|
    decreases |funs| - i
  {
    if i == |funs| then [EndObject]
    else
      [FunctionObject(funs[i]), NameObject(funs[i].name)] + SiteObjects(sites[k..k + funs[i].count]) +
      Objects(funs, sites, i + 1, k + funs[i].count)
  }

  function StackMap(funs: seq<Fun>, sites: seq<Site>): seq<Byte>
    requires Total(funs, 0) == |sites|
  {
    Put(1, 2) + Put(0, 6) + EncodeAll(Objects(funs, sites, 0, 0))
  }

  function ReadAll(bs: seq<Byte>, r: Reader): Option<Reader>
    decreases |bs|
  {
    match ReadObject(bs, r)
    case Bad => None
    case End => Some(r)
    case More(r', n) => if 8 <= n <= |bs| then ReadAll(bs[n..], r') else None
  }

  function Read(bs: seq<Byte>): Option<Reader> {
    if |bs| < 8 || Get(bs, 2) != 1 then None else ReadAll(bs[8..], Reader([], [], []))
  }

  function ApplyAll(os: seq<Object>, r: Reader): Reader {
    if os == [] then r else ApplyAll(os[1..], Apply(os[0], r))
  }

  /** The reader has seen a function before it sees anything else. */
  predicate Ordered(os: seq<Object>, r: Reader) {
    r.functions != [] || os == [] || os[0].FunctionObject? || os[0].EndObject?
  }

  ghost predicate AllOk(os: seq<Object>) {
    forall i :: 0 <= i < |os| ==> ObjectOk(os[i]) && (os[i].EndObject? <==> i == |os| - 1)
  }

  /** What has been written is read back, as what its objects do one after another. */
  lemma {:induction false} AllBack(os: seq<Object>, r: Reader)
    requires os != [] && AllOk(os) && Ordered(os, r)
    ensures ReadAll(EncodeAll(os), r) == Some(ApplyAll(os, r))
    decreases |os|
  {
    hide Encode, ReadObject, ObjectOk;
    var rest := EncodeAll(os[1..]);
    ReadBack(os[0], rest, r);
    if os[0].EndObject? {
      assert os[1..] == [];
      assert ApplyAll(os, r) == ApplyAll([], r);
    } else {
      assert os[0].FunctionObject? || r.functions != [];
      assert Apply(os[0], r).functions != [];
      AllBack(os[1..], Apply(os[0], r));
    }
  }

  // ----- Which call site belongs to which function -----

  /** The functions up to i and the call sites up to k have been read: every function under its number,
      every call site with the number of the function that it belongs to. */
  ghost predicate Attached(funs: seq<Fun>, sites: seq<Site>, r: Reader, i: nat, k: nat)
    requires i <= |funs| && k <= |sites|
  {
    && |r.functions| == i && (forall j :: 0 <= j < i ==> r.functions[j] == Descriptor(funs[j].pointer, funs[j].name, j))
    && |r.statepoints| == k
    && forall j :: 0 <= j < k ==> SiteIs(funs, sites, r, j)
  }

  ghost predicate SiteIs(funs: seq<Fun>, sites: seq<Site>, r: Reader, j: nat)
    requires j < |sites| && j < |r.statepoints|
  {
    var p := r.statepoints[j];
    && p.functionId == Owner(funs, 0, j) && p.offset == sites[j].offset
    && p.index + p.count <= |r.heap| && r.heap[p.index..p.index + p.count] == sites[j].locals
  }

  /** The function among those from i on that call site k, counted from the first one of these, belongs to. */
  function Owner(funs: seq<Fun>, i: nat, k: nat): nat
    requires i <= |funs|
    decreases |funs| - i
  {
    if i == |funs| then i else if k < funs[i].count then i else Owner(funs, i + 1, k - funs[i].count)
  }

  lemma {:induction false} OwnerAt(funs: seq<Fun>, i: nat, n: nat, j: nat)
    requires i <= n < |funs| && Total(funs, i) - Total(funs, n) <= j < Total(funs, i) - Total(funs, n) + funs[n].count
    ensures Owner(funs, i, j) == n
    decreases n - i
  {
    if i < n {
      TotalDown(funs, i + 1, n);
      OwnerAt(funs, i + 1, n, j - funs[i].count);
    }
  }

  lemma {:induction false} TotalDown(funs: seq<Fun>, i: nat, n: nat)
    requires i <= n <= |funs|
    ensures Total(funs, n) <= Total(funs, i)
    decreases n - i
  {
    if i < n {
      TotalDown(funs, i + 1, n);
    }
  }

  lemma {:induction false} ApplySites(funs: seq<Fun>, sites: seq<Site>, r: Reader, i: nat, k: nat, n: nat)
    requires Total(funs, 0) == |sites| && i < |funs| && k + n <= |sites| && Attached(funs, sites, r, i + 1, k)
    requires forall j :: k <= j < k + n ==> Owner(funs, 0, j) == i
    ensures Attached(funs, sites, ApplyAll(SiteObjects(sites[k..k + n]), r), i + 1, k + n)
    decreases n
  {
    if n > 0 {
      assert sites[k..k + n][0] == sites[k] && sites[k..k + n][1..] == sites[k + 1..k + n];
      var r' := Apply(SiteObject(sites[k]), r);
      forall j: nat | j < k + 1
        ensures SiteIs(funs, sites, r', j)
      {
        if j < k {
          assert SiteIs(funs, sites, r, j);
          var p := r.statepoints[j];
          assert r'.heap[p.index..p.index + p.count] == r.heap[p.index..p.index + p.count];
        } else {
          assert r'.heap[|r.heap|..] == sites[k].locals;
        }
      }
      ApplySites(funs, sites, r', i, k + 1, n - 1);
    } else {
      assert sites[k..k + n] == [];
    }
  }

  lemma {:induction false} ApplyAppend(os: seq<Object>, os': seq<Object>, r: Reader)
    ensures ApplyAll(os + os', r) == ApplyAll(os', ApplyAll(os, r))
  {
    hide Apply;
    if os != [] {
      assert (os + os')[1..] == os[1..] + os';
      ApplyAppend(os[1..], os', Apply(os[0], r));
    } else {
      assert os + os' == os';
    }
  }

  lemma {:induction false} ApplyObjects(funs: seq<Fun>, sites: seq<Site>, r: Reader, i: nat, k: nat)
    requires Total(funs, 0) == |sites| && i <= |funs| && k + Total(funs, i) == |sites| && Attached(funs, sites, r, i, k)
    ensures Attached(funs, sites, ApplyAll(Objects(funs, sites, i, k), r), |funs|, |sites|)
    decreases |funs| - i
  {
    if i < |funs| {
      var f := funs[i];
      var head := [FunctionObject(f), NameObject(f.name)];
      var r1 := ApplyAll(head, r);
      NamedFunction(funs, sites, r, i, k);
      forall j | k <= j < k + f.count
        ensures Owner(funs, 0, j) == i
      {
        OwnerAt(funs, 0, i, j);
      }
      ApplySites(funs, sites, r1, i, k, f.count);
      var own := SiteObjects(sites[k..k + f.count]);
      var rest := Objects(funs, sites, i + 1, k + f.count);
      ApplyAppend(head + own, rest, r);
      ApplyAppend(head, own, r);
      ApplyObjects(funs, sites, ApplyAll(own, r1), i + 1, k + f.count);
    } else {
      assert ApplyAll([EndObject], r) == ApplyAll([], r);
    }
  }

  lemma NamedFunction(funs: seq<Fun>, sites: seq<Site>, r: Reader, i: nat, k: nat)
    requires i < |funs| && k <= |sites| && Attached(funs, sites, r, i, k)
    ensures Attached(funs, sites, ApplyAll([FunctionObject(funs[i]), NameObject(funs[i].name)], r), i + 1, k)
  {
    var f := funs[i];
    var os := [FunctionObject(f), NameObject(f.name)];
    var r1 := Apply(os[0], r);
    var r2 := Apply(os[1], r1);
    assert os[1..] == [os[1]] && os[1..][1..] == [];
    assert ApplyAll(os, r) == ApplyAll(os[1..], r1) == ApplyAll([], r2) == r2;
    assert r2.statepoints == r.statepoints && r2.heap == r.heap;
    forall j: nat | j < k
      ensures SiteIs(funs, sites, r2, j)
    {
      assert SiteIs(funs, sites, r, j);
    }
  }

  lemma {:induction false} ObjectsOk(funs: seq<Fun>, sites: seq<Site>, i: nat, k: nat)
    requires MapsOk(funs, sites) && i <= |funs| && k + Total(funs, i) == |sites|
    ensures AllOk(Objects(funs, sites, i, k)) && Objects(funs, sites, i, k) != []
    decreases |funs| - i
  {
    if i < |funs| {
      ObjectsOk(funs, sites, i + 1, k + funs[i].count);
      SitesOk(sites[k..k + funs[i].count]);
      assert FunOk(funs[i]);
      var head := [FunctionObject(funs[i]), NameObject(funs[i].name)];
      FrontOk(head, SiteObjects(sites[k..k + funs[i].count]), Objects(funs, sites, i + 1, k + funs[i].count));
    }
  }

  lemma FrontOk(a: seq<Object>, b: seq<Object>, rest: seq<Object>)
    requires AllOk(rest) && rest != []
    requires (forall i :: 0 <= i < |a| ==> ObjectOk(a[i]) && !a[i].EndObject?) && forall i :: 0 <= i < |b| ==> ObjectOk(b[i]) && !b[i].EndObject?
    ensures AllOk(a + b + rest)
  {
    hide ObjectOk;
  }

  lemma {:induction false} SitesOk(sites: seq<Site>)
    requires forall k :: 0 <= k < |sites| ==> SiteOk(sites[k])
    ensures forall k :: 0 <= k < |SiteObjects(sites)| ==> ObjectOk(SiteObjects(sites)[k]) && SiteObjects(sites)[k].SiteObject?
  {
    if sites != [] {
      SitesOk(sites[1..]);
    }
  }

  /** Reading a stack map gives back the functions and the call sites, each one attached to its own function. */
  lemma RoundTrip(funs: seq<Fun>, sites: seq<Site>)
    requires MapsOk(funs, sites)
    ensures Read(StackMap(funs, sites)).Some? && Attached(funs, sites, Read(StackMap(funs, sites)).value, |funs|, |sites|)
  {
    var os := Objects(funs, sites, 0, 0);
    var r := Reader([], [], []);
    ObjectsOk(funs, sites, 0, 0);
    AllBack(os, r);
    ApplyObjects(funs, sites, r, 0, 0);
    MapHeader(EncodeAll(os));
  }

  /** The header of the map says version 1. */
  lemma MapHeader(rest: seq<Byte>)
    ensures var bs := Put(1, 2) + Put(0, 6) + rest;
      |bs| >= 8 && Get(bs, 2) == 1 && bs[8..] == rest
  {
    Fits(0);
    GetPut(1, 2, Put(0, 6) + rest);
    hide Put, Get, Bound;
    Regroup(Put(1, 2), Put(0, 6), rest);
  }

  // ----- The writer -----

  class Writer {
    var out: seq<Byte>

    constructor ()
      ensures out == []
    {
      out := [];
    }

    method WriteObjectHeader(id: nat, sectionSize: nat, forObject: nat)
      modifies this
      ensures out == old(out) + HeaderBytes(id, sectionSize, forObject)
    {
      out := out + Put(id, 2) + Put(sectionSize, 2) + Put(0, 2) + Put(forObject, 2);
    }

    method WriteFunction(f: Fun)
      requires FunOk(f)
      modifies this
      ensures out == old(out) + EncodeAll([FunctionObject(f), NameObject(f.name)])
    {
      WriteObjectHeader(FunctionId, 16, 0);
      out := out + (Put(f.pointer, 8) + Put(f.count, 4) + Put(f.stackSize, 4));
      WriteObjectHeader(NameId, AlignTo64(|f.name|), |f.name|);
      out := out + (f.name + Zeros(AlignTo64(|f.name|) - |f.name|));
      FunctionBytes(old(out), f);
    }

    method WriteSite(s: Site)
      requires SiteOk(s)
      modifies this
      ensures out == old(out) + EncodeAll([SiteObject(s)])
    {
      WriteObjectHeader(StatepointId, AlignTo64(4 + |s.locals|), |s.locals|);
      out := out + (Put(s.offset, 4) + s.locals + Zeros(AlignTo64(4 + |s.locals|) - (4 + |s.locals|)));
      SiteBytes(old(out), s);
    }

    /** Writes a function before its first call site; what comes out is the stack map of all of them. */
    method EmitStackMaps(funs: seq<Fun>, sites: seq<Site>)
      requires MapsOk(funs, sites)
      modifies this
      ensures out == old(out) + StackMap(funs, sites)
    {
      WriteMapHeader();
      ghost var front, done := out, [];
      var next := 0;
      var remaining: int := -1;
      var k := 0;
      StartWritten(funs, sites, front);
      hide *;
      while k < |sites|
        invariant 0 <= k <= |sites| && 0 <= next <= |funs| && -1 <= remaining
        invariant Written(funs, sites, front, done, out, next, k, Left(remaining))
      {
        while remaining < 1
          invariant Written(funs, sites, front, done, out, next, k, Left(remaining)) && -1 <= remaining && 0 <= next <= |funs|
          decreases |funs| - next
        {
          NoneLeft(remaining);
          NextFunction(funs, sites, front, done, out, next, k);
          WriteFunction(funs[next]);
          done := done + [FunctionObject(funs[next]), NameObject(funs[next].name)];
          remaining := funs[next].count;
          next := next + 1;
        }
        NextSite(funs, sites, front, done, out, next, k, remaining);
        remaining := remaining - 1;
        WriteSite(sites[k]);
        done := done + [SiteObject(sites[k])];
        k := k + 1;
      }
      NothingLeft(funs, sites, front, done, out, next, k, Left(remaining));
      while next < |funs|
        invariant Written(funs, sites, front, done, out, next, k, 0) && k == |sites| && 0 <= next <= |funs|
        decreases |funs| - next
      {
        NextFunction(funs, sites, front, done, out, next, k);
        WriteFunction(funs[next]);
        done := done + [FunctionObject(funs[next]), NameObject(funs[next].name)];
        NothingLeft(funs, sites, front, done, out, next + 1, k, funs[next].count);
        next := next + 1;
      }
      LastObject(funs, sites, front, done, out);
      WriteObjectHeader(EndId, 0, 0);
      WholeMap(old(out), funs, sites);
    }

    /** Version 1.0 and no flags. */
    method WriteMapHeader()
      modifies this
      ensures out == old(out) + (Put(1, 2) + Put(0, 6))
    {
      out := out + Put(1, 2) + Put(0, 2) + Put(0, 2) + Put(0, 2);
      ZeroHeader();
      hide Put;
      Regroup(old(out) + Put(1, 2) + Put(0, 2), Put(0, 2), Put(0, 2));
      Regroup(old(out) + Put(1, 2), Put(0, 2), Put(0, 2) + Put(0, 2));
      Regroup(Put(0, 2), Put(0, 2), Put(0, 2));
      Regroup(old(out), Put(1, 2), Put(0, 6));
    }
  }

  lemma WholeMap(out: seq<Byte>, funs: seq<Fun>, sites: seq<Site>)
    requires Total(funs, 0) == |sites|
    ensures out + (Put(1, 2) + Put(0, 6)) + EncodeAll(Objects(funs, sites, 0, 0)) == out + StackMap(funs, sites)
  {
    hide Put, EncodeAll, Objects;
    Regroup(out, Put(1, 2) + Put(0, 6), EncodeAll(Objects(funs, sites, 0, 0)));
  }

  lemma FunctionBytes(out: seq<Byte>, f: Fun)
    ensures var h, h' := HeaderBytes(FunctionId, 16, 0), HeaderBytes(NameId, AlignTo64(|f.name|), |f.name|);
      out + h + (Put(f.pointer, 8) + Put(f.count, 4) + Put(f.stackSize, 4)) + h' + (f.name + Zeros(AlignTo64(|f.name|) - |f.name|)) ==
      out + EncodeAll([FunctionObject(f), NameObject(f.name)])
  {
    var h, h' := HeaderBytes(FunctionId, 16, 0), HeaderBytes(NameId, AlignTo64(|f.name|), |f.name|);
    var b, b' := Body(FunctionObject(f)), Body(NameObject(f.name));
    EncodeTwo(FunctionObject(f), NameObject(f.name));
    assert Encode(FunctionObject(f)) == h + b && Encode(NameObject(f.name)) == h' + b';
    assert b' == f.name + Zeros(AlignTo64(|f.name|) - |f.name|);
    assert b == Put(f.pointer, 8) + Put(f.count, 4) + Put(f.stackSize, 4);
    hide *;
    Regroup(out, h, b);
    Regroup(out + (h + b), h', b');
    Regroup(out, h + b, h' + b');
  }

  lemma SiteBytes(out: seq<Byte>, s: Site)
    ensures var n := AlignTo64(4 + |s.locals|);
      out + HeaderBytes(StatepointId, n, |s.locals|) + (Put(s.offset, 4) + s.locals + Zeros(n - (4 + |s.locals|))) ==
      out + EncodeAll([SiteObject(s)])
  {
    var n := AlignTo64(4 + |s.locals|);
    var h, b := HeaderBytes(StatepointId, n, |s.locals|), Body(SiteObject(s));
    EncodeTwo(SiteObject(s), EndObject);
    assert Encode(SiteObject(s)) == h + b;
    assert b == Put(s.offset, 4) + s.locals + Zeros(n - (4 + |s.locals|));
    hide *;
    Regroup(out, h, b);
  }

  /** What has been written so far, and what is still to come: n call sites of the
      current function, and the functions from next on with theirs. */
  ghost predicate Written(funs: seq<Fun>, sites: seq<Site>, front: seq<Byte>, done: seq<Object>, out: seq<Byte>, next: nat, k: nat, n: nat) {
    && MapsOk(funs, sites) && next <= |funs| && k + n + Total(funs, next) == |sites|
    && Objects(funs, sites, 0, 0) == done + ToCome(funs, sites, next, k, n)
    && out == front + EncodeAll(done)
  }

  lemma StartWritten(funs: seq<Fun>, sites: seq<Site>, front: seq<Byte>)
    requires MapsOk(funs, sites)
    ensures Written(funs, sites, front, [], front, 0, 0, Left(-1))
  {
    assert sites[0..0] == [];
  }

  lemma NoneLeft(remaining: int)
    requires remaining < 1
    ensures Left(remaining) == 0
  {
  }

  lemma NextFunction(funs: seq<Fun>, sites: seq<Site>, front: seq<Byte>, done: seq<Object>, out: seq<Byte>, next: nat, k: nat)
    requires Written(funs, sites, front, done, out, next, k, 0) && (k < |sites| || next < |funs|)
    ensures next < |funs| && FunOk(funs[next])
    ensures var os := [FunctionObject(funs[next]), NameObject(funs[next].name)];
      && Written(funs, sites, front, done + os, out + EncodeAll(os), next + 1, k, funs[next].count)
      && Left(funs[next].count) == funs[next].count
  {
    FunctionNext(funs, sites, next, k);
    var os := [FunctionObject(funs[next]), NameObject(funs[next].name)];
    EncodeAppend(done, os);
    hide Objects, ToCome, EncodeAll, FunOk;
    Regroup(front, EncodeAll(done), EncodeAll(os));
    Regroup(done, os, ToCome(funs, sites, next + 1, k, funs[next].count));
  }

  lemma NextSite(funs: seq<Fun>, sites: seq<Site>, front: seq<Byte>, done: seq<Object>, out: seq<Byte>, next: nat, k: nat, n: int)
    requires Written(funs, sites, front, done, out, next, k, Left(n)) && n >= 1 && k < |sites|
    ensures SiteOk(sites[k]) && Left(n - 1) == n - 1
    ensures Written(funs, sites, front, done + [SiteObject(sites[k])], out + EncodeAll([SiteObject(sites[k])]), next, k + 1, Left(n - 1))
  {
    SiteNext(funs, sites, next, k, n);
    var os := [SiteObject(sites[k])];
    EncodeAppend(done, os);
    hide Objects, ToCome, EncodeAll, SiteOk;
    Regroup(front, EncodeAll(done), EncodeAll(os));
    Regroup(done, os, ToCome(funs, sites, next, k + 1, n - 1));
  }

  /** After the last call site, only functions without call sites are left. */
  lemma NothingLeft(funs: seq<Fun>, sites: seq<Site>, front: seq<Byte>, done: seq<Object>, out: seq<Byte>, next: nat, k: nat, n: nat)
    requires Written(funs, sites, front, done, out, next, k, n) && k >= |sites|
    ensures k == |sites| && n == 0 && next <= |funs|
  {
  }

  lemma LastObject(funs: seq<Fun>, sites: seq<Site>, front: seq<Byte>, done: seq<Object>, out: seq<Byte>)
    requires Written(funs, sites, front, done, out, |funs|, |sites|, 0)
    ensures out + HeaderBytes(EndId, 0, 0) == front + EncodeAll(Objects(funs, sites, 0, 0))
  {
    assert sites[|sites|..|sites|] == [];
    assert Objects(funs, sites, 0, 0) == done + [EndObject];
    EncodeAppend(done, [EndObject]);
    EncodeTwo(EndObject, EndObject);
    hide HeaderBytes, Objects, EncodeAll;
    Regroup(front, EncodeAll(done), HeaderBytes(EndId, 0, 0));
  }

  function Left(remaining: int): nat {
    if remaining < 0 then 0 else remaining
  }

  /** The objects still to be written: n call sites of the current function, then function i and so on. */
  function ToCome(funs: seq<Fun>, sites: seq<Site>, i: nat, k: nat, n: nat): seq<Object>
    requires i <= |funs| && k + n + Total(funs, i) == |sites|
  {
    SiteObjects(sites[k..k + n]) + Objects(funs, sites, i, k + n)
  }

  lemma ZeroHeader()
    ensures Put(0, 2) + Put(0, 2) + Put(0, 2) == Put(0, 6)
  {
    assert Put(0, 0) == [];
    assert Put(0, 1) == [0];
    assert Put(0, 2) == [0, 0];
    assert Put(0, 3) == [0, 0, 0];
    assert Put(0, 4) == [0, 0, 0, 0];
    assert Put(0, 5) == [0, 0, 0, 0, 0];
  }

  lemma EncodeTwo(o: Object, o': Object)
    ensures EncodeAll([o, o']) == Encode(o) + Encode(o')
    ensures EncodeAll([o]) == Encode(o)
  {
    hide Encode;
    assert [o, o'][1..] == [o'] && [o'][1..] == [] && [o][1..] == [];
    assert EncodeAll([]) == [];
    assert EncodeAll([o']) == Encode(o') + [];
  }

  lemma FunctionNext(funs: seq<Fun>, sites: seq<Site>, i: nat, k: nat)
    requires i <= |funs| && k + Total(funs, i) == |sites| && (k < |sites| || i < |funs|)
    ensures i < |funs|
    ensures ToCome(funs, sites, i, k, 0) ==
      [FunctionObject(funs[i]), NameObject(funs[i].name)] + ToCome(funs, sites, i + 1, k, funs[i].count)
  {
    assert sites[k..k] == [];
  }

  lemma SiteNext(funs: seq<Fun>, sites: seq<Site>, i: nat, k: nat, n: nat)
    requires i <= |funs| && k + n + Total(funs, i) == |sites| && n > 0
    ensures ToCome(funs, sites, i, k, n) == [SiteObject(sites[k])] + ToCome(funs, sites, i, k + 1, n - 1)
  {
    assert sites[k..k + n][1..] == sites[k + 1..k + n];
  }

  // ----- The reader -----

  const Wrap := 0x1_0000_0000_0000_0000

  /** The instruction pointer of a call site, a 64-bit number. */
  function Address(functions: seq<Descriptor>, p: Statepoint): nat
    requires p.functionId < |functions|
  {
    (functions[p.functionId].pointer + p.offset) % Wrap
  }

  ghost predicate InRange(functions: seq<Descriptor>, ps: seq<Statepoint>) {
    forall i :: 0 <= i < |ps| ==> ps[i].functionId < |functions|
  }

  ghost predicate Sorted(functions: seq<Descriptor>, ps: seq<Statepoint>) {
    InRange(functions, ps) && forall i, j :: 0 <= i < j < |ps| ==> Address(functions, ps[i]) <= Address(functions, ps[j])
  }

  /** Puts a call site in its place (the sorting is the standard library's in the original). */
  function Insert(functions: seq<Descriptor>, p: Statepoint, ps: seq<Statepoint>): (r: seq<Statepoint>)
    requires p.functionId < |functions| && InRange(functions, ps)
    ensures |r| == |ps| + 1 && InRange(functions, r)
  {
    if ps == [] || Address(functions, p) <= Address(functions, ps[0]) then [p] + ps
    else [ps[0]] + Insert(functions, p, ps[1..])
  }

  lemma {:induction false} InsertMembers(functions: seq<Descriptor>, p: Statepoint, ps: seq<Statepoint>)
    requires p.functionId < |functions| && InRange(functions, ps)
    ensures multiset(Insert(functions, p, ps)) == multiset(ps) + multiset{p}
    ensures forall x :: x in Insert(functions, p, ps) <==> x == p || x in ps
  {
    if ps != [] && Address(functions, p) > Address(functions, ps[0]) {
      InsertMembers(functions, p, ps[1..]);
    }
    assert ps != [] ==> ps == [ps[0]] + ps[1..];
  }

  lemma {:induction false} InsertSorted(functions: seq<Descriptor>, p: Statepoint, ps: seq<Statepoint>)
    requires p.functionId < |functions| && Sorted(functions, ps)
    ensures Sorted(functions, Insert(functions, p, ps))
  {
    if ps != [] && Address(functions, p) > Address(functions, ps[0]) {
      var rest := Insert(functions, p, ps[1..]);
      InsertSorted(functions, p, ps[1..]);
      InsertMembers(functions, p, ps[1..]);
      forall j | 0 <= j < |rest|
        ensures Address(functions, ps[0]) <= Address(functions, rest[j])
      {
        assert rest[j] in rest;
      }
    }
  }

  function Sort(functions: seq<Descriptor>, ps: seq<Statepoint>): (r: seq<Statepoint>)
    requires InRange(functions, ps)
    ensures InRange(functions, r)
  {
    if ps == [] then []
    else
      Insert(functions, ps[0], Sort(functions, ps[1..]))
  }

  lemma {:induction false} SortSorts(functions: seq<Descriptor>, ps: seq<Statepoint>)
    requires InRange(functions, ps)
    ensures Sorted(functions, Sort(functions, ps)) && multiset(Sort(functions, ps)) == multiset(ps)
  {
    if ps != [] {
      var rest := Sort(functions, ps[1..]);
      SortSorts(functions, ps[1..]);
      InsertSorted(functions, ps[0], rest);
      InsertMembers(functions, ps[0], rest);
      assert ps == [ps[0]] + ps[1..];
    }
  }

  datatype Found = Found(instruction: nat, offsets: seq<Byte>, functionId: nat)

  class StackMapDescription {
    var functions: seq<Descriptor>
    var statepoints: seq<Statepoint>
    var offsetHeap: seq<Byte>
    var aborted: bool

    ghost predicate Valid()
      reads this
    {
      && Sorted(functions, statepoints)
      && forall i :: 0 <= i < |statepoints| ==> statepoints[i].index + statepoints[i].count <= |offsetHeap|
    }

    /** Reads a stack map. The call sites are those that have been read, sorted by their addresses. */
    constructor (bs: seq<Byte>)
      ensures aborted <==> Read(bs).None?
      ensures Read(bs).Some? ==>
        && Valid() && functions == Read(bs).value.functions && offsetHeap == Read(bs).value.heap
        && multiset(statepoints) == multiset(Read(bs).value.statepoints)
    {
      functions, statepoints, offsetHeap := [], [], [];
      aborted := false;
      new;
      hide Get, ReadObject, Sort, Address;
      if |bs| < 8 || Get(bs, 2) != 1 {
        aborted := true;
        return;
      }
      var at := 8;
      while true
        invariant 8 <= at <= |bs| && !aborted && ReaderOk(State())
        invariant Read(bs) == ReadAll(bs[at..], State())
        decreases |bs| - at
      {
        var next := ReadObject(bs[at..], Reader(functions, statepoints, offsetHeap));
        ReadKeepsOk(bs[at..], State());
        match next {
          case End => break;
          case Bad =>
            aborted := true;
            return;
          case More(r, n) =>
            if n < 8 || at + n > |bs| {
              aborted := true;
              return;
            }
            assert bs[at..][n..] == bs[at + n..];
            functions, statepoints, offsetHeap := r.functions, r.statepoints, r.heap;
            at := at + n;
        }
      }
      SortKeeps(functions, statepoints, |offsetHeap|);
      statepoints := Sort(functions, statepoints);
    }

    ghost function State(): Reader
      reads this
    {
      Reader(functions, statepoints, offsetHeap)
    }

    /** Finds the call site with the given address by bisection: it finds one if and only if there is one. */
    method Lookup(address: nat) returns (found: Option<Found>)
      requires Valid()
      ensures found.None? <==> forall i :: 0 <= i < |statepoints| ==> Address(functions, statepoints[i]) != address
      ensures found.Some? ==> exists i :: 0 <= i < |statepoints| && Describes(found.value, i, address)
    {
      var lo, hi := 0, |statepoints|;
      while lo < hi
        invariant 0 <= lo <= hi <= |statepoints|
        invariant forall i :: 0 <= i < lo ==> Address(functions, statepoints[i]) < address
        invariant forall i :: hi <= i < |statepoints| ==> Address(functions, statepoints[i]) >= address
      {
        var mid := (lo + hi) / 2;
        if Address(functions, statepoints[mid]) < address {
          lo := mid + 1;
        } else {
          hi := mid;
        }
      }
      if lo == |statepoints| {
        return None;
      }
      var p := statepoints[lo];
      var matchInsn := Address(functions, p);
      if matchInsn != address {
        return None;
      }
      found := Some(Found(matchInsn, offsetHeap[p.index..p.index + p.count], p.functionId));
      assert Describes(found.value, lo, address);
    }

    ghost predicate Describes(f: Found, i: nat, address: nat)
      requires Valid() && i < |statepoints|
      reads this
    {
      var p := statepoints[i];
      && f.instruction == address == Address(functions, p) && f.functionId == p.functionId
      && f.offsets == offsetHeap[p.index..p.index + p.count]
    }
  }

  /** What the reader keeps: functions carry their own numbers, and call sites refer to what has been read. */
  ghost predicate ReaderOk(r: Reader) {
    && (forall i :: 0 <= i < |r.functions| ==> r.functions[i].id == i)
    && InRange(r.functions, r.statepoints)
    && forall i :: 0 <= i < |r.statepoints| ==> r.statepoints[i].index + r.statepoints[i].count <= |r.heap|
  }

  lemma ReadKeepsOk(bs: seq<Byte>, r: Reader)
    requires ReaderOk(r)
    ensures ReadObject(bs, r).More? ==> ReaderOk(ReadObject(bs, r).r)
  {
    hide Get;
  }

  lemma SortKeeps(functions: seq<Descriptor>, ps: seq<Statepoint>, heap: nat)
    requires InRange(functions, ps) && forall i :: 0 <= i < |ps| ==> ps[i].index + ps[i].count <= heap
    ensures var s := Sort(functions, ps);
      Sorted(functions, s) && multiset(s) == multiset(ps) && forall i :: 0 <= i < |s| ==> s[i].index + s[i].count <= heap
  {
    var s := Sort(functions, ps);
    SortSorts(functions, ps);
    forall i | 0 <= i < |s|
      ensures s[i].index + s[i].count <= heap
    {
      assert s[i] in multiset(s) && s[i] in multiset(ps);
      assert s[i] in ps;
    }
  }
}
