/** One slab of the object allocator (rtsrc/SlabObjectAllocator.cpp): a piece of
    memory divided into objects, all of the size of the slab's category, and free
    shims. Places are offsets from the base of the slab. */
module Slabs {
  import opened Finite
  import opened LinkedLists

  /** What is found at an offset: the magic number and the length of a shim, or something else. */
  datatype Cell = Shim(length: int) | NotShim

  function Extent(c: Cell, size: int): int {
    if c.Shim? then c.length else size
  }

  /** A whole number of slots. */
  predicate Whole(x: int, size: int)
    requires size > 0
  {
    x % size == 0
  }

  /** A tile is a whole number of slots, and the next tile or the end follows it. */
  ghost predicate TileOk(mem: seq<Cell>, size: int, starts: set<int>, p: int)
    requires size > 0
  {
    && 0 <= p < |mem| && Whole(p, size)
    && Extent(mem[p], size) > 0 && Whole(Extent(mem[p], size), size)
    && (p + Extent(mem[p], size) in starts || p + Extent(mem[p], size) == |mem|)
  }

  /** The tiles that start at these offsets cover the memory exactly. */
  ghost predicate Tiled(mem: seq<Cell>, size: int, starts: set<int>) {
    && size > 0 && Whole(|mem|, size) && (mem != [] ==> 0 in starts)
    && (forall p {:trigger TileOk(mem, size, starts, p)} :: p in starts ==> TileOk(mem, size, starts, p))
    && (forall p, q :: p in starts && q in starts && p < q ==> Below(mem, size, p, q))
  }

  /** The tile at p does not reach beyond q. */
  ghost predicate Below(mem: seq<Cell>, size: int, p: int, q: int) {
    0 <= p < |mem| && p + Extent(mem[p], size) <= q
  }

  ghost predicate IsObject(mem: seq<Cell>, starts: set<int>, p: int) {
    p in starts && 0 <= p < |mem| && mem[p].NotShim?
  }

  ghost predicate IsShim(mem: seq<Cell>, starts: set<int>, p: int) {
    p in starts && 0 <= p < |mem| && mem[p].Shim?
  }

  ghost function Objects(mem: seq<Cell>, starts: set<int>): set<int> {
    set p | p in starts && IsObject(mem, starts, p)
  }

  /** No shim directly follows another one. */
  ghost predicate NoTwoShims(mem: seq<Cell>, starts: set<int>) {
    forall p {:trigger IsShim(mem, starts, p)} :: IsShim(mem, starts, p) ==> !IsShim(mem, starts, p + mem[p].length)
  }

  /** The bytes of two objects do not overlap, nor do those of an object and a shim. */
  lemma Disjoint(mem: seq<Cell>, size: int, starts: set<int>, p: int, q: int, x: int)
    requires Tiled(mem, size, starts) && p in starts && q in starts && p != q
    ensures 0 <= p < |mem| && 0 <= q < |mem|
    ensures !(p <= x < p + Extent(mem[p], size) && q <= x < q + Extent(mem[q], size))
  {
    assert TileOk(mem, size, starts, p) && TileOk(mem, size, starts, q);
    if p < q {
      assert Below(mem, size, p, q);
    } else {
      assert Below(mem, size, q, p);
    }
  }

  /** Every byte belongs to a tile. */
  lemma {:induction false} Covered(mem: seq<Cell>, size: int, starts: set<int>, x: int) returns (p: int)
    requires Tiled(mem, size, starts) && 0 <= x < |mem|
    ensures p in starts && 0 <= p < |mem| && p <= x < p + Extent(mem[p], size)
  {
    p := 0;
    assert TileOk(mem, size, starts, p);
    while p + Extent(mem[p], size) <= x
      invariant p in starts && 0 <= p <= x && TileOk(mem, size, starts, p)
      decreases x - p
    {
      p := p + Extent(mem[p], size);
      assert TileOk(mem, size, starts, p);
    }
  }

  // ----- The three ways in which the tiling changes -----

  lemma WholeSum(a: int, b: int, m: int)
    requires m > 0 && Whole(a, m) && Whole(b, m)
    ensures Whole(a + b, m) && Whole(a - b, m)
  {
    var x, y := a / m, b / m;
    Multiple(a + b, x + y, m);
    Multiple(a - b, x - y, m);
  }

  lemma Multiple(a: int, x: int, m: int)
    requires m > 0 && a == x * m
    ensures Whole(a, m)
  {
    NoRest(x, a / m, a % m, m);
  }

  lemma NoRest(x: int, q: int, r: int, m: int)
    requires x * m == q * m + r && 0 <= r < m
    ensures r == 0
  {
    assert (x - q) * m == r;
    Times(x - q, m);
  }

  lemma Times(d: int, m: int)
    requires m > 0
    ensures d > 0 ==> d * m >= m
    ensures d < 0 ==> d * m <= -m
  {
    if d > 0 {
      assert (d - 1) * m >= 0;
    } else if d < 0 {
      assert (-d - 1) * m >= 0;
    }
  }

  lemma WholeSlot(m: int)
    requires m > 0
    ensures Whole(m, m) && Whole(0, m)
  {
    Multiple(m, 1, m);
  }

  /** An object is placed at the start of a shim; what is left of the shim moves on. */
  lemma Carve(mem: seq<Cell>, size: int, starts: set<int>, p: int)
    requires Tiled(mem, size, starts) && IsShim(mem, starts, p)
    ensures 0 < size <= mem[p].length && Whole(mem[p].length - size, size) && Whole(p, size) && p + mem[p].length <= |mem|
    ensures var rest := mem[p].length - size;
      && (rest == 0 ==> Tiled(mem[p := NotShim], size, starts))
      && (rest > 0 ==> p + size !in starts && Tiled(mem[p := NotShim][p + size := Shim(rest)], size, starts + {p + size}))
  {
    hide Whole, Below;
    CarveSizes(mem, size, starts, p);
    var rest, q := mem[p].length - size, p + size;
    var mem' := if rest == 0 then mem[p := NotShim] else mem[p := NotShim][q := Shim(rest)];
    var starts' := if rest == 0 then starts else starts + {q};
    assert TileOk(mem, size, starts, p);
    forall x | x in starts'
      ensures TileOk(mem', size, starts', x)
    {
      assert x != q ==> TileOk(mem, size, starts, x);
    }
    forall x, y | x in starts' && y in starts' && x < y
      ensures Below(mem', size, x, y)
    {
      CarveBelow(mem, size, starts, p, x, y);
    }
  }

  lemma CarveSizes(mem: seq<Cell>, size: int, starts: set<int>, p: int)
    requires Tiled(mem, size, starts) && IsShim(mem, starts, p)
    ensures 0 < size <= mem[p].length && Whole(mem[p].length - size, size) && Whole(p, size) && p + mem[p].length <= |mem|
    ensures Whole(size, size) && Whole(p + size, size)
    ensures size < mem[p].length ==> p + size !in starts
  {
    ShimOk(mem, size, starts, p);
    assert TileOk(mem, size, starts, p);
    AtLeastOne(mem[p].length, size);
    WholeSlot(size);
    WholeSum(mem[p].length, size, size);
    WholeSum(p, size, size);
    assert p + size in starts ==> Below(mem, size, p, p + size);
  }

  lemma CarveBelow(mem: seq<Cell>, size: int, starts: set<int>, p: int, x: int, y: int)
    requires Tiled(mem, size, starts) && IsShim(mem, starts, p) && size <= mem[p].length && p + mem[p].length <= |mem|
    requires x < y && (x in starts || (x == p + size && size < mem[p].length)) && (y in starts || (y == p + size && size < mem[p].length))
    ensures var rest := mem[p].length - size;
      Below(if rest == 0 then mem[p := NotShim] else mem[p := NotShim][p + size := Shim(rest)], size, x, y)
  {
    assert TileOk(mem, size, starts, p);
    if x in starts {
      assert TileOk(mem, size, starts, x);
    }
    if x in starts && y in starts {
      assert Below(mem, size, x, y);
    }
    if x in starts && x < p {
      assert Below(mem, size, x, p);
    }
    if y in starts && p < y {
      assert Below(mem, size, p, y);
    }
    if x in starts && p < x {
      assert Below(mem, size, p, x);
    }
  }

  lemma AtLeastOne(len: int, size: int)
    requires size > 0 && len > 0 && Whole(len, size)
    ensures size <= len
  {
  }

  /** The tile after a shim becomes part of it. */
  lemma Absorb(mem: seq<Cell>, size: int, starts: set<int>, p: int)
    requires Tiled(mem, size, starts) && IsShim(mem, starts, p) && p + mem[p].length in starts
    ensures var q := p + mem[p].length;
      0 <= q < |mem| && Tiled(mem[p := Shim(mem[p].length + Extent(mem[q], size))], size, starts - {q})
  {
    hide Whole, TileOk, Below, Extent;
    var q := p + mem[p].length;
    ShimOk(mem, size, starts, p);
    AbsorbTile(mem, size, starts, p, p);
    var mem', starts' := mem[p := Shim(mem[p].length + Extent(mem[q], size))], starts - {q};
    forall x | x in starts'
      ensures TileOk(mem', size, starts', x)
    {
      AbsorbTile(mem, size, starts, p, x);
    }
    forall x, y | x in starts' && y in starts' && x < y
      ensures Below(mem', size, x, y)
    {
      AbsorbBelow(mem, size, starts, p, x, y);
    }
  }

  lemma ShimOk(mem: seq<Cell>, size: int, starts: set<int>, p: int)
    requires Tiled(mem, size, starts) && IsShim(mem, starts, p)
    ensures mem[p].length > 0 && Whole(mem[p].length, size) && p + mem[p].length <= |mem|
  {
    assert TileOk(mem, size, starts, p);
    assert p + mem[p].length in starts ==> TileOk(mem, size, starts, p + mem[p].length);
  }

  lemma AbsorbBelow(mem: seq<Cell>, size: int, starts: set<int>, p: int, x: int, y: int)
    requires Tiled(mem, size, starts) && IsShim(mem, starts, p) && p + mem[p].length in starts
    requires x in starts && y in starts && x < y && x != p + mem[p].length && y != p + mem[p].length
    ensures var q := p + mem[p].length;
      0 <= q < |mem| && Below(mem[p := Shim(mem[p].length + Extent(mem[q], size))], size, x, y)
  {
    var q := p + mem[p].length;
    assert TileOk(mem, size, starts, p) && TileOk(mem, size, starts, q);
    assert Below(mem, size, x, y);
    if x == p {
      assert Below(mem, size, q, y);
    }
  }

  lemma AbsorbTile(mem: seq<Cell>, size: int, starts: set<int>, p: int, x: int)
    requires Tiled(mem, size, starts) && IsShim(mem, starts, p) && p + mem[p].length in starts
    requires x in starts && x != p + mem[p].length
    ensures var q := p + mem[p].length;
      0 <= q < |mem| && TileOk(mem[p := Shim(mem[p].length + Extent(mem[q], size))], size, starts - {q}, x)
  {
    hide Whole;
    assert TileOk(mem, size, starts, p) && TileOk(mem, size, starts, x);
    var q := p + mem[p].length;
    assert TileOk(mem, size, starts, q);
    WholeSum(mem[p].length, Extent(mem[q], size), size);
    if x < p {
      assert Below(mem, size, x, p);
    }
  }

  /** An object becomes a shim of one slot. */
  lemma Free(mem: seq<Cell>, size: int, starts: set<int>, p: int)
    requires Tiled(mem, size, starts) && IsObject(mem, starts, p)
    ensures Tiled(mem[p := Shim(size)], size, starts)
  {
    var mem' := mem[p := Shim(size)];
    hide Whole;
    WholeSlot(size);
    forall x | x in starts
      ensures TileOk(mem', size, starts, x)
    {
      assert TileOk(mem, size, starts, x);
    }
    forall x, y | x in starts && y in starts && x < y
      ensures Below(mem', size, x, y)
    {
      assert Below(mem, size, x, y);
    }
  }

  // ----- Walking over the tiles while freeing objects -----

  /** The tiles before at have been dealt with: what objects they hold is what is to be
      kept, and shims are merged. last is the shim just before at, if there is one. */
  ghost predicate Swept(mem0: seq<Cell>, starts0: set<int>, mem: seq<Cell>, starts: set<int>, size: int, keep: set<int>, at: int, last: int) {
    && Tiled(mem, size, starts) && |mem| == |mem0|
    && 0 <= at <= |mem| && (at < |mem| ==> at in starts)
    && (forall p :: at <= p < |mem| ==> (p in starts <==> p in starts0) && mem[p] == mem0[p])
    && (forall p :: p < at ==> (IsObject(mem, starts, p) <==> IsObject(mem0, starts0, p) && p in keep))
    && (last >= 0 ==> IsShim(mem, starts, last) && last + mem[last].length == at)
    && (forall p {:trigger IsShim(mem, starts, p)} :: p < at && IsShim(mem, starts, p) ==> ShimDone(mem, starts, p, at, last))
  }

  ghost predicate ShimDone(mem: seq<Cell>, starts: set<int>, p: int, at: int, last: int)
    requires IsShim(mem, starts, p)
  {
    var q := p + mem[p].length;
    q <= at && (q == at ==> p == last) && (q < at ==> !IsShim(mem, starts, q))
  }

  lemma NoneInside(mem: seq<Cell>, size: int, starts: set<int>, p: int, x: int)
    requires Tiled(mem, size, starts) && p in starts && 0 <= p < |mem| && p < x < p + Extent(mem[p], size)
    ensures x !in starts
  {
    assert x in starts ==> Below(mem, size, p, x);
  }

  /** The tile that the walk has come to. */
  lemma Current(mem0: seq<Cell>, starts0: set<int>, mem: seq<Cell>, starts: set<int>, size: int, keep: set<int>, at: int, last: int)
    requires Swept(mem0, starts0, mem, starts, size, keep, at, last) && at < |mem|
    ensures var next := at + Extent(mem[at], size);
      && at < next <= |mem| && (next < |mem| ==> next in starts)
      && (forall x :: at < x < next ==> x !in starts)
    ensures last < at
  {
    assert TileOk(mem, size, starts, at);
    assert at + Extent(mem[at], size) in starts ==> TileOk(mem, size, starts, at + Extent(mem[at], size));
    forall x | at < x < at + Extent(mem[at], size)
      ensures x !in starts
    {
      NoneInside(mem, size, starts, at, x);
    }
    if last >= 0 {
      ShimOk(mem, size, starts, last);
    }
  }

  /** A tile that follows a shim is absorbed: it is a shim itself or an object that is not kept. */
  lemma SweepAbsorb(mem0: seq<Cell>, starts0: set<int>, mem: seq<Cell>, starts: set<int>, size: int, keep: set<int>, at: int, last: int)
    requires Swept(mem0, starts0, mem, starts, size, keep, at, last) && at < |mem| && last >= 0
    requires mem[at].Shim? || at !in keep
    ensures last < |mem| && mem[last].Shim?
    ensures var len := Extent(mem[at], size);
      Swept(mem0, starts0, mem[last := Shim(mem[last].length + len)], starts - {at}, size, keep, at + len, last)
  {
    hide Tiled;
    Current(mem0, starts0, mem, starts, size, keep, at, last);
    Absorb(mem, size, starts, last);
    var len := Extent(mem[at], size);
    var mem', starts', at' := mem[last := Shim(mem[last].length + len)], starts - {at}, at + len;
    forall p | p < at'
      ensures IsObject(mem', starts', p) <==> IsObject(mem0, starts0, p) && p in keep
    {
      assert p < at ==> (IsObject(mem, starts, p) <==> IsObject(mem0, starts0, p) && p in keep);
    }
    forall p | p < at' && IsShim(mem', starts', p)
      ensures ShimDone(mem', starts', p, at', last)
    {
      assert p < at && IsShim(mem, starts, p);
    }
  }

  /** The walk goes on: over a shim, or over an object that is kept. */
  lemma SweepOver(mem0: seq<Cell>, starts0: set<int>, mem: seq<Cell>, starts: set<int>, size: int, keep: set<int>, at: int, last: int)
    requires Swept(mem0, starts0, mem, starts, size, keep, at, last) && at < |mem|
    requires if mem[at].Shim? then last < 0 else at in keep
    ensures Swept(mem0, starts0, mem, starts, size, keep, at + Extent(mem[at], size), if mem[at].Shim? then at else -1)
  {
    hide Tiled;
    Current(mem0, starts0, mem, starts, size, keep, at, last);
    var at', last' := at + Extent(mem[at], size), if mem[at].Shim? then at else -1;
    forall p | p < at'
      ensures IsObject(mem, starts, p) <==> IsObject(mem0, starts0, p) && p in keep
    {
    }
    forall p | p < at' && IsShim(mem, starts, p)
      ensures ShimDone(mem, starts, p, at', last')
    {
      assert p < at ==> ShimDone(mem, starts, p, at, last);
    }
  }

  /** An object that is not kept, with no shim before it, becomes a shim. */
  lemma SweepFree(mem0: seq<Cell>, starts0: set<int>, mem: seq<Cell>, starts: set<int>, size: int, keep: set<int>, at: int, last: int)
    requires Swept(mem0, starts0, mem, starts, size, keep, at, last) && at < |mem| && last < 0
    requires mem[at].NotShim? && at !in keep
    ensures Swept(mem0, starts0, mem[at := Shim(size)], starts, size, keep, at + size, at)
  {
    hide Tiled;
    Current(mem0, starts0, mem, starts, size, keep, at, last);
    Free(mem, size, starts, at);
    var mem' := mem[at := Shim(size)];
    forall p | p < at + size
      ensures IsObject(mem', starts, p) <==> IsObject(mem0, starts0, p) && p in keep
    {
      assert p < at ==> (IsObject(mem, starts, p) <==> IsObject(mem0, starts0, p) && p in keep);
    }
    forall p | p < at + size && IsShim(mem', starts, p)
      ensures ShimDone(mem', starts, p, at + size, at)
    {
      if p < at {
        assert IsShim(mem, starts, p) && ShimDone(mem, starts, p, at, last);
      }
    }
  }

  lemma SweepDone(mem0: seq<Cell>, starts0: set<int>, mem: seq<Cell>, starts: set<int>, size: int, keep: set<int>, last: int)
    requires Swept(mem0, starts0, mem, starts, size, keep, |mem|, last)
    ensures Objects(mem, starts) == Objects(mem0, starts0) * keep && NoTwoShims(mem, starts)
  {
    forall p
      ensures p in Objects(mem, starts) <==> p in Objects(mem0, starts0) * keep
    {
      assert p < |mem| ==> (IsObject(mem, starts, p) <==> IsObject(mem0, starts0, p) && p in keep);
    }
    forall p | IsShim(mem, starts, p)
      ensures !IsShim(mem, starts, p + mem[p].length)
    {
      assert ShimDone(mem, starts, p, |mem|, last);
    }
  }

  // ----- The free list -----

  /** The list holds exactly the shims. */
  ghost predicate Listed(items: seq<nat>, mem: seq<Cell>, starts: set<int>) {
    && (forall p :: p in items ==> IsShim(mem, starts, p))
    && forall p {:trigger IsShim(mem, starts, p)} :: IsShim(mem, starts, p) ==> p in items
  }

  lemma CarveAll(mem: seq<Cell>, starts: set<int>, items: seq<nat>, p: nat)
    requires NoTwoShims(mem, starts) && Listed(items, mem, starts) && Distinct(items) && p in items
    ensures p < |mem| && NoTwoShims(mem[p := NotShim], starts) && Listed(Without(items, p), mem[p := NotShim], starts)
    ensures p !in Objects(mem, starts) && Objects(mem[p := NotShim], starts) == Objects(mem, starts) + {p}
  {
    hide Objects;
    assert IsShim(mem, starts, p);
    var mem' := mem[p := NotShim];
    forall x | IsShim(mem', starts, x)
      ensures !IsShim(mem', starts, x + mem'[x].length)
    {
      assert IsShim(mem, starts, x);
    }
    AllListed(mem, starts, items, p);
    AllObjects(mem, starts, p);
  }

  lemma AllListed(mem: seq<Cell>, starts: set<int>, items: seq<nat>, p: nat)
    requires Listed(items, mem, starts) && Distinct(items) && p in items && p < |mem|
    ensures Listed(Without(items, p), mem[p := NotShim], starts)
  {
    WithoutMembers(items, p);
    var items', mem' := Without(items, p), mem[p := NotShim];
    forall x | x in items'
      ensures IsShim(mem', starts, x)
    {
      assert x in items && x != p;
    }
    forall x | IsShim(mem', starts, x)
      ensures x in items'
    {
      assert IsShim(mem, starts, x);
    }
  }

  lemma SomeListed(mem: seq<Cell>, size: int, starts: set<int>, items: seq<nat>, p: nat, q: nat, rest: int)
    requires Listed(items, mem, starts) && Distinct(items) && p in items && p < |mem| && q < |mem| && q !in starts
    ensures q !in items
    ensures Listed(Without(WithAfter(items, p, q), p), mem[p := NotShim][q := Shim(rest)], starts + {q})
  {
    assert q !in items;
    WithAfterMembers(items, p, q);
    WithoutMembers(WithAfter(items, p, q), p);
    var items', mem', starts' := Without(WithAfter(items, p, q), p), mem[p := NotShim][q := Shim(rest)], starts + {q};
    forall x | x in items'
      ensures IsShim(mem', starts', x)
    {
      assert x != q ==> x in items && x != p;
    }
    forall x | IsShim(mem', starts', x)
      ensures x in items'
    {
      assert x != q ==> IsShim(mem, starts, x);
    }
  }

  lemma AllObjects(mem: seq<Cell>, starts: set<int>, p: int)
    requires IsShim(mem, starts, p)
    ensures p !in Objects(mem, starts) && Objects(mem[p := NotShim], starts) == Objects(mem, starts) + {p}
  {
  }

  lemma CarveSome(mem: seq<Cell>, size: int, starts: set<int>, items: seq<nat>, p: nat)
    requires Tiled(mem, size, starts) && NoTwoShims(mem, starts) && Listed(items, mem, starts) && Distinct(items) && p in items
    requires p < |mem| && mem[p].Shim? && 0 < size < mem[p].length && p + mem[p].length <= |mem| && p + size !in starts
    ensures var mem', starts' := mem[p := NotShim][p + size := Shim(mem[p].length - size)], starts + {p + size};
      && NoTwoShims(mem', starts') && p + size !in items && Listed(Without(WithAfter(items, p, p + size), p), mem', starts')
      && p !in Objects(mem, starts) && Objects(mem', starts') == Objects(mem, starts) + {p}
  {
    hide Whole, Objects, Tiled;
    assert IsShim(mem, starts, p);
    var q := p + size;
    var mem', starts' := mem[p := NotShim][q := Shim(mem[p].length - size)], starts + {q};
    SomeListed(mem, size, starts, items, p, q, mem[p].length - size);
    forall x | IsShim(mem', starts', x)
      ensures !IsShim(mem', starts', x + mem'[x].length)
    {
      SomeNoTwo(mem, size, starts, p, x);
    }
    SomeObjects(mem, starts, p, q, mem[p].length - size);
  }

  lemma SomeObjects(mem: seq<Cell>, starts: set<int>, p: int, q: int, rest: int)
    requires IsShim(mem, starts, p) && 0 <= q < |mem| && q !in starts
    ensures p !in Objects(mem, starts) && Objects(mem[p := NotShim][q := Shim(rest)], starts + {q}) == Objects(mem, starts) + {p}
  {
  }

  lemma SomeNoTwo(mem: seq<Cell>, size: int, starts: set<int>, p: nat, x: int)
    requires Tiled(mem, size, starts) && NoTwoShims(mem, starts) && IsShim(mem, starts, p)
    requires size < mem[p].length && p + mem[p].length <= |mem| && p + size !in starts
    requires IsShim(mem[p := NotShim][p + size := Shim(mem[p].length - size)], starts + {p + size}, x)
    ensures var mem', starts' := mem[p := NotShim][p + size := Shim(mem[p].length - size)], starts + {p + size};
      !IsShim(mem', starts', x + mem'[x].length)
  {
    hide Whole;
    if x == p + size {
      assert !IsShim(mem, starts, p + mem[p].length);
    } else {
      assert IsShim(mem, starts, x) && x != p;
      ShimOk(mem, size, starts, x);
      assert x < p ==> Below(mem, size, x, p);
      assert p < x ==> Below(mem, size, p, x);
    }
  }

  ghost function KeptBelow(mem: seq<Cell>, starts: set<int>, keep: set<int>, at: int): set<int> {
    set p | p in Objects(mem, starts) && p in keep && p < at
  }

  /** The objects below an offset that are not kept. */
  ghost function DroppedBelow(mem: seq<Cell>, starts: set<int>, keep: set<int>, at: int): set<int> {
    set p | p in Objects(mem, starts) && p !in keep && p < at
  }

  lemma KeptNext(mem0: seq<Cell>, starts0: set<int>, mem: seq<Cell>, starts: set<int>, size: int, keep: set<int>, at: int, last: int)
    requires Swept(mem0, starts0, mem, starts, size, keep, at, last) && at < |mem|
    ensures var next := at + Extent(mem[at], size);
      |KeptBelow(mem0, starts0, keep, next)| ==
        |KeptBelow(mem0, starts0, keep, at)| + if mem[at].NotShim? && at in keep then 1 else 0
  {
    Current(mem0, starts0, mem, starts, size, keep, at, last);
    var next := at + Extent(mem[at], size);
    var was := KeptBelow(mem0, starts0, keep, at);
    assert forall x :: at < x < next ==> x !in Objects(mem0, starts0);
    assert at in Objects(mem0, starts0) || mem[at].Shim?;
    assert mem[at].Shim? ==> at !in Objects(mem0, starts0);
    hide Swept, Objects;
    if mem[at].NotShim? && at in keep {
      assert KeptBelow(mem0, starts0, keep, next) == was + {at};
    } else {
      assert KeptBelow(mem0, starts0, keep, next) == was;
    }
  }

  lemma DroppedNext(mem0: seq<Cell>, starts0: set<int>, mem: seq<Cell>, starts: set<int>, size: int, keep: set<int>, at: int, last: int)
    requires Swept(mem0, starts0, mem, starts, size, keep, at, last) && at < |mem|
    ensures var was, now := DroppedBelow(mem0, starts0, keep, at), DroppedBelow(mem0, starts0, keep, at + Extent(mem[at], size));
      now == if mem[at].NotShim? && at !in keep then was + {at} else was
  {
    Current(mem0, starts0, mem, starts, size, keep, at, last);
    var next := at + Extent(mem[at], size);
    assert forall x :: at < x < next ==> x !in Objects(mem0, starts0);
    hide Swept, Objects;
    forall p
      ensures p in DroppedBelow(mem0, starts0, keep, next) <==>
        p in DroppedBelow(mem0, starts0, keep, at) || (p == at && mem[at].NotShim? && at !in keep)
    {
    }
  }

  /** The addresses of the destroyed objects are those at these offsets, once each. */
  ghost predicate Destroyed(base: int, freed: seq<int>, dropped: set<int>) {
    Distinct(freed) && forall a :: a in freed <==> a - base in dropped
  }

  lemma DestroyNone(base: int, mem: seq<Cell>, starts: set<int>, keep: set<int>)
    requires DroppedBelow(mem, starts, keep, 0) == {}
    ensures Destroyed(base, [], DroppedBelow(mem, starts, keep, 0))
  {
  }

  lemma DestroyNext(base: int, freed: seq<int>, mem0: seq<Cell>, starts0: set<int>, mem: seq<Cell>, starts: set<int>, size: int, keep: set<int>, at: int, last: int)
    requires Swept(mem0, starts0, mem, starts, size, keep, at, last) && at < |mem|
    requires Destroyed(base, freed, DroppedBelow(mem0, starts0, keep, at))
    ensures Destroyed(base, if mem[at].NotShim? && at !in keep then freed + [base + at] else freed,
                      DroppedBelow(mem0, starts0, keep, at + Extent(mem[at], size)))
  {
    DroppedNext(mem0, starts0, mem, starts, size, keep, at, last);
    assert base + at !in freed;
    hide Swept, DroppedBelow;
  }

  /** The shim at q becomes part of the one at p. */
  lemma ShimAbsorbed(mem: seq<Cell>, starts: set<int>, items: seq<nat>, p: nat, q: nat, len: int)
    requires Listed(items, mem, starts) && Distinct(items) && p in items && p != q && (q in items || !IsShim(mem, starts, q))
    ensures p < |mem| && Listed(Without(items, q), mem[p := Shim(len)], starts - {q})
  {
    assert IsShim(mem, starts, p);
    WithoutMembers(items, q);
    var items', mem', starts' := Without(items, q), mem[p := Shim(len)], starts - {q};
    forall x | IsShim(mem', starts', x)
      ensures x in items'
    {
      assert IsShim(mem, starts, x);
    }
  }

  lemma ShimAdded(mem: seq<Cell>, starts: set<int>, items: seq<nat>, p: nat, len: int)
    requires Listed(items, mem, starts) && IsObject(mem, starts, p)
    ensures p !in items && Listed(items + [p], mem[p := Shim(len)], starts)
  {
    var items', mem' := items + [p], mem[p := Shim(len)];
    assert p in items';
    forall x | x in items'
      ensures IsShim(mem', starts, x)
    {
      assert x in items || x == p;
    }
    forall x | IsShim(mem', starts, x)
      ensures x in items'
    {
      if x != p {
        assert IsShim(mem, starts, x);
        assert x in items;
      }
    }
  }

  class Slab {
    const size: int
    const base: nat
    const mem: array<Cell>
    const shims: LinkedList
    var currentObjects: int
    ghost var starts: set<int>

    ghost predicate Valid()
      reads this, mem, shims
    {
      && Tiled(mem[..], size, starts) && NoTwoShims(mem[..], starts)
      && shims.Valid() && Listed(shims.items, mem[..], starts)
      && currentObjects == |Objects(mem[..], starts)|
    }

    ghost function Live(): set<int>
      reads this, mem
    {
      Objects(mem[..], starts)
    }

    /** A new slab holds a single shim that covers all of the usable memory. */
    constructor (slotSize: int, available: int, at: nat)
      requires 0 < slotSize <= available
      ensures Valid() && size == slotSize && base == at && Live() == {} && shims.items == [0]
      ensures mem.Length == available - available % slotSize
      ensures fresh(mem) && fresh(shims)
    {
      var usable := available - available % slotSize;
      UsableWhole(available, slotSize);
      size := slotSize;
      base := at;
      mem := new Cell[usable](_ => NotShim);
      var list := new LinkedList();
      list.InsertAtStart(0);
      shims := list;
      currentObjects := 0;
      starts := {0};
      new;
      mem[0] := Shim(usable);
      OneTile(mem[..], size);
    }

    /** Takes the first slot of the first shim (the part of AllocateRaw that deals with one slab). */
    method TakeFirst() returns (p: nat)
      requires Valid() && shims.start != Null
      modifies this, mem, shims
      ensures Valid()
      ensures p !in old(Live()) && Live() == old(Live()) + {p}
      ensures p + size <= mem.Length && Whole(p, size) && p == old(shims.items[0])
    {
      hide Tiled, NoTwoShims, Listed, Objects;
      p := shims.start;
      ghost var mem0 := mem[..];
      FirstShim(mem0, size, starts, shims.items);
      assert p >= 0 && p % size == 0;
      var newLength := mem[p].length - size;
      if newLength == 0 {
        shims.Remove(p);
        mem[p] := NotShim;
        assert mem[..] == mem0[p := NotShim];
      } else {
        assert newLength > 0 && newLength % size == 0;
        var newShim := p + size;
        mem[newShim] := Shim(newLength);
        shims.Clear(newShim);
        shims.InsertAfter(p, newShim);
        shims.Remove(p);
        starts := starts + {newShim};
        mem[p] := NotShim;
        assert mem[..] == mem0[p := NotShim][newShim := Shim(newLength)];
      }
      currentObjects := currentObjects + 1;
    }

    ghost function Kept(word: map<nat, nat>, reachable: nat): set<int>
      reads this, mem
    {
      set p | p in Live() && base + p in word && word[base + p] == reachable
    }

    /** The sweep has come to offset at. */
    ghost predicate Sweeping(mem0: seq<Cell>, starts0: set<int>, keep: set<int>, at: int, last: int)
      reads this, mem, shims
    {
      && 0 <= at <= mem.Length && -1 <= last && Swept(mem0, starts0, mem[..], starts, size, keep, at, last)
      && shims.Valid() && Listed(shims.items, mem[..], starts)
    }

    /** The sweep comes to a shim: it is merged with the one before it, if there is one. */
    method SweepShim(at: nat, last: int, ghost mem0: seq<Cell>, ghost starts0: set<int>, ghost keep: set<int>) returns (last': int)
      requires Sweeping(mem0, starts0, keep, at, last) && at < mem.Length && mem[at].Shim?
      modifies this, mem, shims
      ensures Sweeping(mem0, starts0, keep, at + old(mem[at].length), last') && currentObjects == old(currentObjects)
    {
      hide Tiled, Listed, Swept;
      ghost var was := mem[..];
      Here(mem0, starts0, was, starts, shims.items, size, keep, at, last);
      var len := mem[at].length;
      if last != -1 {
        SweepAbsorb(mem0, starts0, was, starts, size, keep, at, last);
        ShimAbsorbed(was, starts, shims.items, last, at, was[last].length + len);
        mem[last] := Shim(mem[last].length + len);
        shims.Remove(at);
        starts := starts - {at};
        last' := last;
      } else {
        SweepOver(mem0, starts0, was, starts, size, keep, at, last);
        last' := at;
      }
    }

    /** The sweep frees an object: the shim before it grows, or it becomes a shim. */
    method SweepObject(at: nat, last: int, ghost mem0: seq<Cell>, ghost starts0: set<int>, ghost keep: set<int>) returns (last': int)
      requires Sweeping(mem0, starts0, keep, at, last) && at < mem.Length && mem[at].NotShim? && at !in keep
      modifies this, mem, shims
      ensures Sweeping(mem0, starts0, keep, at + size, last') && currentObjects == old(currentObjects)
    {
      hide Tiled, Listed, Swept;
      ghost var was := mem[..];
      Here(mem0, starts0, was, starts, shims.items, size, keep, at, last);
      if last != -1 {
        SweepAbsorb(mem0, starts0, was, starts, size, keep, at, last);
        ShimAbsorbed(was, starts, shims.items, last, at, was[last].length + size);
        WithoutNone(shims.items, at);
        mem[last] := Shim(mem[last].length + size);
        starts := starts - {at};
        last' := last;
      } else {
        SweepFree(mem0, starts0, was, starts, size, keep, at, last);
        ShimAdded(was, starts, shims.items, at, size);
        shims.Clear(at);
        mem[at] := Shim(size);
        shims.InsertAtEnd(at);
        last' := at;
      }
    }

    /** Frees every object whose word is not the given one (DeallocateUnreachableObjectsForSlab), and
        says whose destructors it has called. */
    method Sweep(word: map<nat, nat>, reachable: nat) returns (freed: seq<int>)
      requires Valid() && forall p :: p in Live() ==> base + p in word
      modifies this, mem, shims
      ensures Valid() && Live() == old(Kept(word, reachable))
      ensures Destroyed(base, freed, old(Live() - Kept(word, reachable)))
      ensures old(shims.items) != [] ==> shims.items != []
    {
      hide Tiled, NoTwoShims, Listed, Swept, Objects, KeptBelow, DroppedBelow, Destroyed, LinkedList.Valid;
      ghost var mem0, starts0, keep := mem[..], starts, Kept(word, reachable);
      SweepStart(mem0, starts0, size, keep);
      var at := 0;
      var last := -1;
      var objectCount := 0;
      freed := [];
      DestroyNone(base, mem0, starts0, keep);
      while at != mem.Length
        invariant Sweeping(mem0, starts0, keep, at, last)
        invariant Destroyed(base, freed, DroppedBelow(mem0, starts0, keep, at))
        invariant objectCount == |KeptBelow(mem0, starts0, keep, at)|
        decreases mem.Length - at
      {
        Here(mem0, starts0, mem[..], starts, shims.items, size, keep, at, last);
        KeptNext(mem0, starts0, mem[..], starts, size, keep, at, last);
        DestroyNext(base, freed, mem0, starts0, mem[..], starts, size, keep, at, last);
        if mem[at].Shim? {
          var len := mem[at].length;
          last := SweepShim(at, last, mem0, starts0, keep);
          at := at + len;
        } else if word[base + at] == reachable {
          SweepOver(mem0, starts0, mem[..], starts, size, keep, at, last);
          last := -1;
          objectCount := objectCount + 1;
          at := at + size;
        } else {
          freed := freed + [base + at];
          last := SweepObject(at, last, mem0, starts0, keep);
          at := at + size;
        }
      }
      SweepDone(mem0, starts0, mem[..], starts, size, keep, last);
      AllKept(mem0, starts0, keep);
      SweptTiled(mem0, starts0, mem[..], starts, size, keep, at, last);
      if old(shims.items) != [] {
        StillRoom(mem0, starts0, old(shims.items), mem[..], starts, shims.items, size);
      }
      currentObjects := objectCount;
    }
  }

  /** Freeing objects does not use up the shims. */
  lemma StillRoom(mem0: seq<Cell>, starts0: set<int>, items0: seq<nat>, mem: seq<Cell>, starts: set<int>, items: seq<nat>, size: int)
    requires Tiled(mem0, size, starts0) && Listed(items0, mem0, starts0) && items0 != []
    requires Tiled(mem, size, starts) && Listed(items, mem, starts) && |mem| == |mem0|
    requires Objects(mem, starts) <= Objects(mem0, starts0)
    ensures items != []
  {
    var p := items0[0];
    assert p in items0 && IsShim(mem0, starts0, p);
    ShimOk(mem0, size, starts0, p);
    var q := Covered(mem, size, starts, p);
    if IsObject(mem, starts, q) {
      assert q in Objects(mem, starts) && IsObject(mem0, starts0, q);
      Disjoint(mem0, size, starts0, q, p, p);
    }
    assert IsShim(mem, starts, q);
  }

  lemma SweepStart(mem: seq<Cell>, starts: set<int>, size: int, keep: set<int>)
    requires Tiled(mem, size, starts)
    ensures Swept(mem, starts, mem, starts, size, keep, 0, -1) && KeptBelow(mem, starts, keep, 0) == {}
    ensures DroppedBelow(mem, starts, keep, 0) == {}
  {
    forall p | p < 0
      ensures p !in starts
    {
      assert p in starts ==> TileOk(mem, size, starts, p);
    }
  }

  /** What the sweep finds where it has come to. */
  lemma Here(mem0: seq<Cell>, starts0: set<int>, mem: seq<Cell>, starts: set<int>, items: seq<nat>, size: int, keep: set<int>, at: nat, last: int)
    requires Swept(mem0, starts0, mem, starts, size, keep, at, last) && Listed(items, mem, starts) && at < |mem|
    ensures 0 < Extent(mem[at], size) <= |mem| - at && 0 < size
    ensures last >= 0 ==> last < at && mem[last].Shim? && last in items
    ensures mem[at].Shim? ==> at in items
    ensures mem[at].NotShim? ==> at in Objects(mem0, starts0) && at !in items && IsObject(mem, starts, at)
  {
    Current(mem0, starts0, mem, starts, size, keep, at, last);
    assert mem[at].Shim? ==> IsShim(mem, starts, at);
    assert at in items ==> IsShim(mem, starts, at);
  }

  lemma AllKept(mem: seq<Cell>, starts: set<int>, keep: set<int>)
    requires keep <= Objects(mem, starts)
    ensures KeptBelow(mem, starts, keep, |mem|) == keep == Objects(mem, starts) * keep
    ensures DroppedBelow(mem, starts, keep, |mem|) == Objects(mem, starts) - keep
  {
  }

  lemma SweptTiled(mem0: seq<Cell>, starts0: set<int>, mem: seq<Cell>, starts: set<int>, size: int, keep: set<int>, at: int, last: int)
    requires Swept(mem0, starts0, mem, starts, size, keep, at, last)
    ensures Tiled(mem, size, starts)
  {
  }

  /** What happens when a slot is taken from the first shim. */
  lemma FirstShim(mem: seq<Cell>, size: int, starts: set<int>, items: seq<nat>)
    requires Tiled(mem, size, starts) && NoTwoShims(mem, starts) && Listed(items, mem, starts) && Distinct(items) && items != []
    ensures IsShim(mem, starts, items[0])
    ensures size > 0 && items[0] % size == 0 && size <= mem[items[0]].length && items[0] + mem[items[0]].length <= |mem|
    ensures (mem[items[0]].length - size) % size == 0
    ensures items[0] !in Objects(mem, starts)
    ensures var p, rest := items[0], mem[items[0]].length - size;
      if rest == 0 then
        var mem' := mem[p := NotShim];
        && Tiled(mem', size, starts) && NoTwoShims(mem', starts) && Listed(Without(items, p), mem', starts)
        && Objects(mem', starts) == Objects(mem, starts) + {p}
      else
        var mem', starts' := mem[p := NotShim][p + size := Shim(rest)], starts + {p + size};
        && p + size !in items && Tiled(mem', size, starts') && NoTwoShims(mem', starts')
        && Listed(Without(WithAfter(items, p, p + size), p), mem', starts')
        && Objects(mem', starts') == Objects(mem, starts) + {p}
  {
    hide Tiled, NoTwoShims, Objects;
    assert items[0] in items && IsShim(mem, starts, items[0]);
    hide Listed;
    Carve(mem, size, starts, items[0]);
    if mem[items[0]].length == size {
      CarveAll(mem, starts, items, items[0]);
    } else {
      CarveSome(mem, size, starts, items, items[0]);
    }
  }

  lemma UsableWhole(available: int, size: int)
    requires 0 < size <= available
    ensures 0 < available - available % size && Whole(available - available % size, size)
  {
    Multiple(available - available % size, available / size, size);
  }

  lemma OneTile(mem: seq<Cell>, size: int)
    requires mem != [] && size > 0 && Whole(|mem|, size) && mem[0] == Shim(|mem|)
    ensures Tiled(mem, size, {0}) && NoTwoShims(mem, {0}) && Objects(mem, {0}) == {} && Listed([0], mem, {0})
  {
    WholeSlot(size);
    assert TileOk(mem, size, {0}, 0);
    assert 0 in [0];
  }
}
