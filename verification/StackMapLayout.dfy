/** Where everything stands in the bytes of a stack map (src/backend_llvm/WrenGCMetadataPrinter.cpp,
    common/StackMapDescription.h), written out. */
module StackMapLayout {
  import opened Basics
  import opened StackMaps

  /** Numbers of two, four and eight bytes at a place, the lowest byte first. */
  function Two(bs: seq<Byte>, at: nat): nat
    requires at + 2 <= |bs|
  {
    var low: nat, high: nat := bs[at], bs[at + 1];
    low + 0x100 * high
  }

  function Four(bs: seq<Byte>, at: nat): nat
    requires at + 4 <= |bs|
  {
    Two(bs, at) + 0x1_0000 * Two(bs, at + 2)
  }

  function Eight(bs: seq<Byte>, at: nat): nat
    requires at + 8 <= |bs|
  {
    Four(bs, at) + 0x1_0000_0000 * Four(bs, at + 4)
  }

  /** The same bytes at another place are the same number. */
  lemma SameTwo(bs: seq<Byte>, at: nat, cs: seq<Byte>, to: nat)
    requires at + 2 <= |bs| && to + 2 <= |cs| && bs[at..at + 2] == cs[to..to + 2]
    ensures Two(bs, at) == Two(cs, to)
  {
    var d := bs[at..at + 2];
    assert d[0] == bs[at] && d[1] == bs[at + 1] && d[0] == cs[to] && d[1] == cs[to + 1];
  }

  lemma SameFour(bs: seq<Byte>, at: nat, cs: seq<Byte>, to: nat)
    requires at + 4 <= |bs| && to + 4 <= |cs| && bs[at..at + 4] == cs[to..to + 4]
    ensures Four(bs, at) == Four(cs, to)
  {
    hide Two;
    assert bs[at..at + 2] == bs[at..at + 4][..2] == cs[to..to + 2];
    assert bs[at + 2..at + 4] == bs[at..at + 4][2..] == cs[to + 2..to + 4];
    SameTwo(bs, at, cs, to);
    SameTwo(bs, at + 2, cs, to + 2);
  }

  lemma SameEight(bs: seq<Byte>, at: nat, cs: seq<Byte>, to: nat)
    requires at + 8 <= |bs| && to + 8 <= |cs| && bs[at..at + 8] == cs[to..to + 8]
    ensures Eight(bs, at) == Eight(cs, to)
  {
    hide Four;
    assert bs[at..at + 4] == bs[at..at + 8][..4] == cs[to..to + 4];
    assert bs[at + 4..at + 8] == bs[at..at + 8][4..] == cs[to + 4..to + 8];
    SameFour(bs, at, cs, to);
    SameFour(bs, at + 4, cs, to + 4);
  }

  // ----- What is put is read -----

  lemma PutTwo(v: nat)
    requires v < 0x1_0000
    ensures Two(Put(v, 2), 0) == v
  {
    assert Put(v, 2) == [v % 256] + Put(v / 256, 1);
    assert Put(v / 256, 1) == [v / 256 % 256] + Put(v / 256 / 256, 0);
  }

  /** The two lowest bytes, and the others. */
  lemma LowTwo(v: nat, low: nat, high: nat, n: nat)
    requires v == low + 0x1_0000 * high && low < 0x1_0000
    ensures Put(v, n + 2) == Put(low, 2) + Put(high, n)
  {
    assert v % 256 == low % 256 && v / 256 % 256 == low / 256 && v / 256 / 256 == high;
    assert Put(v, n + 2) == [v % 256] + ([v / 256 % 256] + Put(high, n));
    assert Put(low, 2) == [low % 256] + ([low / 256] + Put(0, 0));
  }

  lemma PutFour(v: nat)
    requires v < 0x1_0000_0000
    ensures Four(Put(v, 4), 0) == v
  {
    var l, h := v % 0x1_0000, v / 0x1_0000;
    LowTwo(v, l, h, 2);
    PutTwo(l);
    PutTwo(h);
    var low, high := Put(l, 2), Put(h, 2);
    hide Put, Two;
    Parts(low, high);
    SameTwo(low + high, 0, low, 0);
    SameTwo(low + high, 2, high, 0);
  }

  lemma Parts(a: seq<Byte>, b: seq<Byte>)
    ensures (a + b)[0..|a|] == a[0..|a|] && (a + b)[|a|..|a| + |b|] == b[0..|b|]
  {
  }

  /** The four lowest bytes, and the others. */
  lemma LowFour(v: nat, low: nat, high: nat)
    requires v == low + 0x1_0000_0000 * high && low < 0x1_0000_0000
    ensures Put(v, 8) == Put(low, 4) + Put(high, 4)
  {
    var l, h := low % 0x1_0000, low / 0x1_0000;
    var m := h + 0x1_0000 * high;
    hide Put;
    LowTwo(v, l, m, 6);
    LowTwo(m, h, high, 4);
    LowTwo(low, l, h, 2);
    Regroup(Put(l, 2), Put(h, 2), Put(high, 4));
  }

  lemma PutEight(v: nat)
    requires v < 0x1_0000_0000_0000_0000
    ensures Eight(Put(v, 8), 0) == v
  {
    var l, h := v % 0x1_0000_0000, v / 0x1_0000_0000;
    LowFour(v, l, h);
    PutFour(l);
    PutFour(h);
    var low, high := Put(l, 4), Put(h, 4);
    hide Put, Four;
    Parts(low, high);
    SameFour(low + high, 0, low, 0);
    SameFour(low + high, 4, high, 0);
  }

  // ----- What stands where -----

  lemma PartStands(front: seq<Byte>, part: seq<Byte>, rest: seq<Byte>)
    ensures (front + part + rest)[|front|..|front| + |part|] == part == part[0..|part|]
  {
  }

  lemma TwoStands(front: seq<Byte>, v: nat, rest: seq<Byte>)
    requires v < 0x1_0000
    ensures Two(front + Put(v, 2) + rest, |front|) == v
  {
    PutTwo(v);
    hide Put, Two;
    PartStands(front, Put(v, 2), rest);
    SameTwo(front + Put(v, 2) + rest, |front|, Put(v, 2), 0);
  }

  lemma FourStands(front: seq<Byte>, v: nat, rest: seq<Byte>)
    requires v < 0x1_0000_0000
    ensures Four(front + Put(v, 4) + rest, |front|) == v
  {
    PutFour(v);
    hide Put, Four;
    PartStands(front, Put(v, 4), rest);
    SameFour(front + Put(v, 4) + rest, |front|, Put(v, 4), 0);
  }

  lemma EightStands(front: seq<Byte>, v: nat, rest: seq<Byte>)
    requires v < 0x1_0000_0000_0000_0000
    ensures Eight(front + Put(v, 8) + rest, |front|) == v
  {
    PutEight(v);
    hide Put, Eight;
    PartStands(front, Put(v, 8), rest);
    SameEight(front + Put(v, 8) + rest, |front|, Put(v, 8), 0);
  }

  /** The header of an object: its kind, the size of its body, no flags, and a number of its own. */
  ghost predicate HeaderAt(bs: seq<Byte>, at: nat, id: nat, size: nat, own: nat) {
    at + 8 <= |bs| && Two(bs, at) == id && Two(bs, at + 2) == size && Two(bs, at + 4) == 0 && Two(bs, at + 6) == own
  }

  lemma HeaderStands(front: seq<Byte>, id: nat, size: nat, own: nat, rest: seq<Byte>)
    requires id < 0x1_0000 && size < 0x1_0000 && own < 0x1_0000
    ensures HeaderAt(front + HeaderBytes(id, size, own) + rest, |front|, id, size, own)
  {
    var a, b, c, d := Put(id, 2), Put(size, 2), Put(0, 2), Put(own, 2);
    hide Put, Two;
    Grouped(front, a, b, c, d, rest);
    TwoStands(front, id, b + c + d + rest);
    TwoStands(front + a, size, c + d + rest);
    TwoStands(front + a + b, 0, d + rest);
    TwoStands(front + a + b + c, own, rest);
  }

  /** Four parts in a row, each seen with what comes before and after it. */
  lemma Grouped(front: seq<Byte>, a: seq<Byte>, b: seq<Byte>, c: seq<Byte>, d: seq<Byte>, rest: seq<Byte>)
    ensures var bs := front + (a + b + c + d) + rest;
      && bs == front + a + (b + c + d + rest) && bs == front + a + b + (c + d + rest)
      && bs == front + a + b + c + (d + rest) && bs == front + a + b + c + d + rest
  {
  }

  /** A text, and zeros up to a multiple of eight. */
  ghost predicate TextAt(bs: seq<Byte>, at: nat, text: seq<Byte>, size: nat) {
    && at + size <= |bs| && size % 8 == 0 && |text| <= size < |text| + 8
    && bs[at..at + |text|] == text && forall k :: at + |text| <= k < at + size ==> bs[k] == 0
  }

  lemma TextStands(front: seq<Byte>, text: seq<Byte>)
    ensures TextAt(front + Padded(text), |front|, text, AlignTo64(|text|))
  {
    assert (front + Padded(text))[|front|..|front| + |text|] == text;
  }

  // ----- The records -----

  /** The record of a function and its name: 24 bytes, then the name as an object of its own. */
  lemma FunctionLayout(f: Fun)
    requires FunOk(f)
    ensures var bs := EncodeAll([FunctionObject(f), NameObject(f.name)]);
      var size := AlignTo64(|f.name|);
      && |bs| == 32 + size && HeaderAt(bs, 0, 2, 16, 0)
      && Eight(bs, 8) == f.pointer && Four(bs, 16) == f.count && Four(bs, 20) == f.stackSize
      && HeaderAt(bs, 24, 4, size, |f.name|) && TextAt(bs, 32, f.name, size)
  {
    var size := AlignTo64(|f.name|);
    Fits(|f.name|);
    Bounds();
    EncodeTwo(FunctionObject(f), NameObject(f.name));
    var h, h' := HeaderBytes(2, 16, 0), HeaderBytes(4, size, |f.name|);
    var p, c, z, name := Put(f.pointer, 8), Put(f.count, 4), Put(f.stackSize, 4), Padded(f.name);
    assert EncodeAll([FunctionObject(f), NameObject(f.name)]) == h + (p + c + z) + (h' + name);
    hide Put, HeaderBytes, Padded, HeaderAt, TextAt, Eight, Four, EncodeAll, AlignTo64;
    FunctionGrouped(h, p, c, z, h', name);
    HeaderStands([], 2, 16, 0, p + c + z + (h' + name));
    EightStands(h, f.pointer, c + z + (h' + name));
    FourStands(h + p, f.count, z + (h' + name));
    FourStands(h + p + c, f.stackSize, h' + name);
    HeaderStands(h + p + c + z, 4, size, |f.name|, name);
    TextStands(h + p + c + z + h', f.name);
  }

  lemma FunctionGrouped(h: seq<Byte>, p: seq<Byte>, c: seq<Byte>, z: seq<Byte>, h': seq<Byte>, name: seq<Byte>)
    ensures var bs := h + (p + c + z) + (h' + name);
      && bs == [] + h + (p + c + z + (h' + name)) && bs == h + p + (c + z + (h' + name)) && bs == h + p + c + (z + (h' + name))
      && bs == h + p + c + z + (h' + name) && bs == h + p + c + z + h' + name
  {
  }

  lemma Bounds()
    ensures Bound(8) == 0x1_0000_0000_0000_0000 && Bound(4) == 0x1_0000_0000 && Bound(2) == 0x1_0000
  {
    assert Bound(1) == 0x100 && Bound(3) == 0x100_0000;
    assert Bound(5) == 0x100_0000_0000 && Bound(6) == 0x1_0000_0000_0000 && Bound(7) == 0x100_0000_0000_0000;
  }

  /** The record of a call site: a header, the place in its function, and one byte for each of its values. */
  lemma SiteLayout(s: Site)
    requires SiteOk(s)
    ensures var bs := EncodeAll([SiteObject(s)]);
      var n := |s.locals|;
      var size := AlignTo64(4 + n);
      && |bs| == 8 + size && HeaderAt(bs, 0, 3, size, n) && Four(bs, 8) == s.offset
      && TextAt(bs, 8, bs[8..12] + s.locals, size)
  {
    var size := AlignTo64(4 + |s.locals|);
    Fits(4 + |s.locals|);
    Bounds();
    EncodeTwo(SiteObject(s), EndObject);
    var h, o := HeaderBytes(3, size, |s.locals|), Put(s.offset, 4);
    var zeros := Zeros(size - (4 + |s.locals|));
    assert EncodeAll([SiteObject(s)]) == h + Padded(o + s.locals);
    assert Padded(o + s.locals) == o + s.locals + zeros;
    hide Put, HeaderBytes, HeaderAt, TextAt, Four, EncodeAll, Padded, AlignTo64, Zeros;
    SiteGrouped(h, o, s.locals, zeros);
    HeaderStands([], 3, size, |s.locals|, o + s.locals + zeros);
    FourStands(h, s.offset, s.locals + zeros);
    PartStands(h, o, s.locals + zeros);
    TextStands(h, o + s.locals);
  }

  lemma SiteGrouped(h: seq<Byte>, o: seq<Byte>, locals: seq<Byte>, zeros: seq<Byte>)
    ensures var bs := h + (o + locals + zeros);
      bs == [] + h + (o + locals + zeros) && bs == h + o + (locals + zeros)
  {
  }

  /** The map begins with its version, and ends with a record of no size. */
  lemma MapLayout(funs: seq<Fun>, sites: seq<Site>)
    requires Total(funs, 0) == |sites|
    ensures var bs := StackMap(funs, sites);
      |bs| >= 16 && Two(bs, 0) == 1 && (forall k :: 2 <= k < 8 ==> bs[k] == 0) && HeaderAt(bs, |bs| - 8, 1, 0, 0)
  {
    var front := EndLast(funs, sites, 0, 0);
    var v, z, e := Put(1, 2), Put(0, 6), HeaderBytes(1, 0, 0);
    assert StackMap(funs, sites) == v + z + (front + e);
    PutZeros(6);
    hide Put, HeaderBytes, StackMap, HeaderAt, Two, EncodeAll, Objects;
    MapGrouped(v, z, front, e);
    HeaderStands(v + z + front, 1, 0, 0, []);
    TwoStands([], 1, z + (front + e));
  }

  lemma MapGrouped(v: seq<Byte>, z: seq<Byte>, front: seq<Byte>, e: seq<Byte>)
    requires |v| == 2 && |z| == 6 && forall k :: 0 <= k < 6 ==> z[k] == 0
    ensures var bs := v + z + (front + e);
      bs == [] + v + (z + (front + e)) && bs == v + z + front + e + [] && forall k :: 2 <= k < 8 ==> bs[k] == 0
  {
  }

  lemma {:induction false} PutZeros(n: nat)
    ensures forall k :: 0 <= k < n ==> Put(0, n)[k] == 0
  {
    if n > 0 {
      PutZeros(n - 1);
    }
  }

  /** The last of the objects is the end mark. */
  lemma {:induction false} EndLast(funs: seq<Fun>, sites: seq<Site>, i: nat, k: nat) returns (front: seq<Byte>)
    requires i <= |funs| && k + Total(funs, i) == |sites|
    ensures EncodeAll(Objects(funs, sites, i, k)) == front + HeaderBytes(1, 0, 0)
    decreases |funs| - i
  {
    if i == |funs| {
      EncodeTwo(EndObject, EndObject);
      front := [];
    } else {
      hide EncodeAll, HeaderBytes, SiteObjects;
      var k' := k + funs[i].count;
      var rest := EndLast(funs, sites, i + 1, k');
      var head := [FunctionObject(funs[i]), NameObject(funs[i].name)] + SiteObjects(sites[k..k']);
      front := AfterHead(head, Objects(funs, sites, i + 1, k'), rest, HeaderBytes(1, 0, 0));
    }
  }

  lemma AfterHead(head: seq<Object>, os: seq<Object>, front: seq<Byte>, last: seq<Byte>) returns (r: seq<Byte>)
    requires EncodeAll(os) == front + last
    ensures EncodeAll(head + os) == r + last
  {
    EncodeAppend(head, os);
    r := EncodeAll(head) + front;
    hide *;
    assert EncodeAll(head) + (front + last) == r + last;
  }
}
