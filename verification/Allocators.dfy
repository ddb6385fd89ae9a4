/** The object allocator (rtsrc/SlabObjectAllocator.cpp): size categories, each
    with a list of its slabs and a list of those that have free space. Slabs are
    named by their position in the sequence of all slabs. */
module Allocators {
  import opened Basics
  import opened Finite
  import opened LinkedLists
  import opened SizeClasses
  import Slabs

  /** A piece of memory that has been handed out: its address and its length. */
  datatype Block = Block(at: int, length: int)

  class SizeCategory {
    const size: int
    const allSlabs: LinkedList
    const freeSlabs: LinkedList

    constructor (s: int)
      ensures size == s && fresh(allSlabs) && fresh(freeSlabs) && allSlabs != freeSlabs
      ensures allSlabs.Valid() && freeSlabs.Valid() && allSlabs.items == [] && freeSlabs.items == []
      ensures forall i: nat :: allSlabs.Unlinked(i) && freeSlabs.Unlinked(i)
    {
      size := s;
      allSlabs := new LinkedList();
      freeSlabs := new LinkedList();
    }
  }

  class Allocator {
    const slabSize: int
    const available: int
    var slabs: seq<Slabs.Slab>
    var sizes: map<int, SizeCategory>
    ghost var Repr: set<object>

    /** Nothing is shared between slabs and lists. */
    ghost predicate Apart()
      reads this
    {
      && (forall i, j :: 0 <= i < j < |slabs| ==>
            slabs[i] != slabs[j] && slabs[i].mem != slabs[j].mem && slabs[i].shims != slabs[j].shims)
      && (forall k, l :: k in sizes && l in sizes && k != l ==>
            sizes[k].allSlabs != sizes[l].allSlabs && sizes[k].freeSlabs != sizes[l].freeSlabs)
      && (forall k, l :: k in sizes && l in sizes ==> sizes[k].allSlabs != sizes[l].freeSlabs)
      && (forall i, k :: 0 <= i < |slabs| && k in sizes ==>
            slabs[i].shims != sizes[k].allSlabs && slabs[i].shims != sizes[k].freeSlabs)
    }

    /** Repr is everything that the allocator owns. */
    ghost predicate Owned()
      reads this
    {
      && this in Repr
      && (forall i :: 0 <= i < |slabs| ==> slabs[i] in Repr && slabs[i].mem in Repr && slabs[i].shims in Repr)
      && (forall k :: k in sizes ==> sizes[k].allSlabs in Repr && sizes[k].freeSlabs in Repr)
    }

    ghost predicate SlabOk(i: nat)
      requires Owned() && i < |slabs|
      reads this, Repr
    {
      && slabs[i].Valid() && slabs[i].size in sizes && slabs[i].mem.Length <= available
      && slabs[i].base > 0 && slabs[i].base % 8 == 0
    }

    ghost predicate SlabsOk()
      requires Owned()
      reads this, Repr
    {
      forall i :: 0 <= i < |slabs| ==> SlabOk(i)
    }

    ghost predicate FarApart()
      reads this
    {
      available <= slabSize && forall i, j :: 0 <= i < j < |slabs| ==> Away(slabs[i].base, slabs[j].base)
    }

    /** The memory of two slabs does not overlap. */
    predicate Away(a: int, b: int)
      reads this
    {
      a + slabSize <= b || b + slabSize <= a
    }

    /** The lists of category k. */
    ghost predicate CategoryOk(k: int)
      requires Owned() && k in sizes
      reads this, Repr
    {
      var c := sizes[k];
      && c.size == k && k >= SizeOfObj && BestSize(k) == k
      && c.allSlabs.Valid() && c.freeSlabs.Valid()
      && (forall i: nat :: i in c.allSlabs.items <==> i < |slabs| && slabs[i].size == k)
      && (forall i: nat :: i in c.freeSlabs.items <==> i < |slabs| && slabs[i].size == k && slabs[i].shims.items != [])
      && (forall i: nat :: i !in c.allSlabs.items ==> c.allSlabs.Unlinked(i))
      && (forall i: nat :: i !in c.freeSlabs.items ==> c.freeSlabs.Unlinked(i))
    }

    ghost predicate Valid()
      reads this, Repr
    {
      Owned() && Apart() && SlabsOk() && FarApart() && forall k :: k in sizes ==> CategoryOk(k)
    }

    /** The objects of slab i. */
    ghost function BlocksOf(i: nat): set<Block>
      requires Owned() && i < |slabs|
      reads this, Repr
    {
      set p | p in slabs[i].Live() :: Block(slabs[i].base + p, slabs[i].size)
    }

    ghost function Blocks(): set<Block>
      requires Owned()
      reads this, Repr
    {
      set i, b | 0 <= i < |slabs| && b in BlocksOf(i) :: b
    }

    constructor (slab: int, header: int)
      requires 0 <= header <= slab
      ensures Valid() && Blocks() == {} && slabs == [] && fresh(Repr) && slabSize == slab && available == slab - header
    {
      slabSize := slab;
      available := slab - header;
      slabs := [];
      sizes := map[];
      Repr := {this};
    }

    /** Finds the category for a request, or makes it; None where the program aborts. */
    method GetOrCreateBestCategory(size: int) returns (k: Option<int>)
      requires Valid()
      modifies this
      ensures Valid() && fresh(Repr - old(Repr)) && slabs == old(slabs) && Blocks() == old(Blocks())
      ensures k == if size < SizeOfObj then None else Some(BestSize(size))
      ensures k.Some? ==> k.value in sizes && size <= k.value
      ensures forall l :: l in old(sizes) ==> l in sizes && sizes[l] == old(sizes[l])
    {
      if size < SizeOfObj {
        return None;
      }
      BestSizeFits(size);
      BestSizeStable(size);
      if size in sizes {
        assert CategoryOk(size);
        return Some(size);
      }
      var best := BestSize(size);
      if best !in sizes {
        AddCategory(best);
      }
      return Some(best);
    }

    method AddCategory(k: int)
      requires Valid() && k !in sizes && k >= SizeOfObj && BestSize(k) == k
      modifies this
      ensures Valid() && fresh(Repr - old(Repr)) && slabs == old(slabs) && Blocks() == old(Blocks())
      ensures sizes.Keys == old(sizes.Keys) + {k} && forall l :: l in old(sizes) ==> sizes[l] == old(sizes[l])
    {
      hide BestSize, Slabs.Slab.Valid, LinkedList.Valid, LinkedList.Unlinked, Slabs.Slab.Live;
      var c := new SizeCategory(k);
      sizes := sizes[k := c];
      Repr := Repr + {c.allSlabs, c.freeSlabs};
      assert Owned() && SlabsKept();
      AllOldSlabsOk();
      assert Apart();
      forall i: nat | i < |slabs|
        ensures slabs[i].size != k
      {
        assert old(SlabOk(i));
      }
      assert CategoryOk(k);
      forall l | l in sizes && l != k
        ensures CategoryOk(l)
      {
        OldCategoryOk(l);
      }
    }

    /** The slabs that were there are untouched. */
    twostate predicate SlabsKept()
      requires old(Owned())
      reads this, Repr
    {
      && |old(slabs)| <= |slabs| && slabs[..|old(slabs)|] == old(slabs) && old(sizes.Keys) <= sizes.Keys && old(Repr) <= Repr
      && forall i :: 0 <= i < |old(slabs)| ==> unchanged(old(slabs[i]), old(slabs[i]).mem, old(slabs[i]).shims)
    }

    twostate lemma OldSlabsOk(i: nat)
      requires old(Owned()) && Owned() && SlabsKept() && i < |old(slabs)| && old(SlabOk(i))
      ensures SlabOk(i) && BlocksOf(i) == old(BlocksOf(i))
      ensures slabs[i] == old(slabs[i]) && slabs[i].shims.items == old(slabs[i].shims.items)
    {
      hide Slabs.Slab.Valid;
      assert slabs[i] == slabs[..|old(slabs)|][i];
    }

    twostate lemma AllOldSlabsOk()
      requires old(Owned()) && Owned() && SlabsKept() && old(SlabsOk())
      ensures forall i :: 0 <= i < |old(slabs)| ==> SlabOk(i) && BlocksOf(i) == old(BlocksOf(i))
      ensures |slabs| == |old(slabs)| ==> SlabsOk() && Blocks() == old(Blocks())
    {
      forall i: nat | i < |old(slabs)|
        ensures SlabOk(i) && BlocksOf(i) == old(BlocksOf(i))
      {
        assert old(SlabOk(i));
        OldSlabsOk(i);
      }
      hide SlabOk, BlocksOf;
    }

    /** A category whose lists are untouched, and that has no new slabs. */
    twostate lemma OldCategoryOk(l: int)
      requires old(Owned()) && Owned() && SlabsKept() && old(SlabsOk()) && l in old(sizes) && sizes[l] == old(sizes[l])
      requires old(CategoryOk(l)) && unchanged(sizes[l].allSlabs, sizes[l].freeSlabs)
      requires forall i :: |old(slabs)| <= i < |slabs| ==> slabs[i].size != l
      ensures CategoryOk(l)
    {
      hide Slabs.Slab.Valid, LinkedList.Valid, BestSize, LinkedList.Unlinked;
      forall i: nat | i < |old(slabs)|
        ensures slabs[i] == old(slabs[i]) && slabs[i].shims.items == old(slabs[i].shims.items)
      {
        assert old(SlabOk(i));
        OldSlabsOk(i);
      }
    }

    /** A new slab for category k. The operating system has found memory for it at
        the given address, which no other slab uses. */
    method CreateSlab(k: int, at: nat) returns (i: nat)
      requires Valid() && k in sizes && k <= available && forall j :: 0 <= j < |slabs| ==> Away(slabs[j].base, at)
      requires at > 0 && at % 8 == 0
      modifies this, sizes[k].allSlabs, sizes[k].freeSlabs
      ensures Valid() && fresh(Repr - old(Repr)) && sizes == old(sizes) && Blocks() == old(Blocks())
      ensures i == |old(slabs)| && |slabs| == i + 1 && slabs[..i] == old(slabs) && slabs[i].size == k && slabs[i].base == at
      ensures slabs[i].shims.items == [0]
      ensures sizes[k].freeSlabs.items == old(sizes[k].freeSlabs.items) + [i]
    {
      hide BestSize, Slabs.Slab.Valid, LinkedList.Valid, LinkedList.Unlinked, Slabs.Slab.Live, Apart, SlabsOk, FarApart, BlocksOf;
      assert CategoryOk(k);
      var slab := new Slabs.Slab(k, available, at);
      i := |slabs|;
      AddSlab(k, slab);
    }

    method AddSlab(k: int, slab: Slabs.Slab)
      requires Valid() && k in sizes && slab.Valid() && slab.size == k && slab.shims.items != [] && slab.Live() == {}
      requires slab.base > 0 && slab.base % 8 == 0
      requires slab.mem.Length <= available && forall j :: 0 <= j < |slabs| ==> Away(slabs[j].base, slab.base)
      requires slab !in Repr && slab.mem !in Repr && slab.shims !in Repr
      modifies this, sizes[k].allSlabs, sizes[k].freeSlabs
      ensures Valid() && Repr == old(Repr) + {slab, slab.mem, slab.shims} && sizes == old(sizes) && Blocks() == old(Blocks())
      ensures slabs == old(slabs) + [slab]
      ensures sizes[k].freeSlabs.items == old(sizes[k].freeSlabs.items) + [|old(slabs)|]
    {
      hide BestSize, Slabs.Slab.Valid, LinkedList.Valid, LinkedList.Unlinked, Slabs.Slab.Live;
      assert CategoryOk(k);
      var i := |slabs|;
      sizes[k].allSlabs.InsertAtEnd(i);
      sizes[k].freeSlabs.InsertAtEnd(i);
      slabs := slabs + [slab];
      Repr := Repr + {slab, slab.mem, slab.shims};
      assert Owned() && SlabsKept();
      AllOldSlabsOk();
      assert SlabOk(i);
      NewSlabFar();
      hide SlabOk, FarApart;
      NewSlabCategories(k);
      assert BlocksOf(i) == {};
      hide BlocksOf;
      NoNewBlocks();
    }

    twostate lemma NewSlabFar()
      requires old(FarApart()) && |slabs| == |old(slabs)| + 1 && slabs[..|old(slabs)|] == old(slabs)
      requires forall j :: 0 <= j < |old(slabs)| ==> Away(old(slabs)[j].base, slabs[|old(slabs)|].base)
      ensures FarApart()
    {
    }

    twostate lemma NoNewBlocks()
      requires old(Owned()) && Owned() && |slabs| == |old(slabs)| + 1 && BlocksOf(|old(slabs)|) == {}
      requires forall i :: 0 <= i < |old(slabs)| ==> BlocksOf(i) == old(BlocksOf(i))
      ensures Blocks() == old(Blocks())
    {
      hide BlocksOf;
    }

    /** There is one new slab, and it shares nothing with the others. */
    twostate predicate Appended()
      requires old(Owned())
      reads this, Repr
    {
      && |slabs| == |old(slabs)| + 1 && sizes == old(sizes) && SlabsKept()
      && var slab := slabs[|old(slabs)|];
         slab !in old(Repr) && slab.mem !in old(Repr) && slab.shims !in old(Repr)
    }

    /** i has been added to the end of a list. */
    twostate predicate Grown(list: LinkedList, i: nat)
      reads list
    {
      && list.Valid() && list.items == old(list.items) + [i]
      && forall j: nat :: j !in list.items && old(list.Unlinked(j)) ==> list.Unlinked(j)
    }

    twostate lemma NewSlabApart()
      requires old(Owned()) && old(Apart()) && Appended()
      ensures Apart()
    {
    }

    twostate lemma NewSlabCategories(k: int)
      requires old(Owned()) && old(Apart()) && old(SlabsOk()) && (forall l :: l in old(sizes) ==> old(CategoryOk(l)))
      requires Owned() && Appended() && k in sizes && slabs[|old(slabs)|].size == k && slabs[|old(slabs)|].shims.items != []
      requires forall l :: l in sizes && l != k ==> unchanged(sizes[l].allSlabs, sizes[l].freeSlabs)
      requires Grown(sizes[k].allSlabs, |old(slabs)|) && Grown(sizes[k].freeSlabs, |old(slabs)|)
      ensures Apart() && forall l :: l in sizes ==> CategoryOk(l)
    {
      NewSlabApart();
      hide Slabs.Slab.Valid, LinkedList.Valid, BestSize, LinkedList.Unlinked;
      forall l | l in sizes && l != k
        ensures CategoryOk(l)
      {
        OldCategoryOk(l);
      }
      forall i: nat | i < |old(slabs)|
        ensures slabs[i] == old(slabs[i]) && slabs[i].shims.items == old(slabs[i].shims.items)
      {
        assert old(SlabOk(i));
        OldSlabsOk(i);
      }
      assert old(CategoryOk(k));
    }

    /** Only slab i has changed, and possibly the list of slabs with free space that it belongs on. */
    twostate predicate OnlySlab(i: nat)
      requires old(Owned()) && Owned()
      reads this, Repr
    {
      && slabs == old(slabs) && sizes == old(sizes) && Repr == old(Repr) && i < |slabs|
      && (forall j :: 0 <= j < |slabs| && j != i ==> unchanged(slabs[j], slabs[j].mem, slabs[j].shims))
      && (forall l :: l in sizes ==> unchanged(sizes[l].allSlabs) && (l != slabs[i].size ==> unchanged(sizes[l].freeSlabs)))
    }

    /** The list says again whether slab i has free space. */
    twostate predicate Relisted(list: LinkedList, i: nat, room: bool)
      reads list
    {
      && list.Valid()
      && (forall j: nat :: j in list.items <==> if j == i then room else j in old(list.items))
      && forall j: nat :: j !in list.items ==> list.Unlinked(j)
    }

    twostate lemma OneChanged(i: nat)
      requires old(Valid()) && Owned() && OnlySlab(i) && slabs[i].Valid() && slabs[i].size in sizes
      requires Relisted(sizes[slabs[i].size].freeSlabs, i, slabs[i].shims.items != [])
      ensures Valid() && forall j :: 0 <= j < |slabs| && j != i ==> BlocksOf(j) == old(BlocksOf(j))
    {
      hide Slabs.Slab.Valid, LinkedList.Valid, BestSize, LinkedList.Unlinked;
      forall j: nat | j < |slabs|
        ensures SlabOk(j) && (j != i ==> BlocksOf(j) == old(BlocksOf(j)))
      {
        assert old(SlabOk(j));
      }
      hide Apart, FarApart, SlabsOk, SlabOk;
      forall l | l in sizes
        ensures CategoryOk(l)
      {
        assert old(CategoryOk(l));
      }
    }

    twostate lemma BlocksGrow(i: nat)
      requires old(Owned()) && Owned() && slabs == old(slabs) && i < |slabs| && old(BlocksOf(i)) <= BlocksOf(i)
      requires forall j :: 0 <= j < |slabs| && j != i ==> BlocksOf(j) == old(BlocksOf(j))
      ensures Blocks() == old(Blocks()) + BlocksOf(i) && old(BlocksOf(i)) <= old(Blocks())
    {
      hide BlocksOf;
    }

    /** A block lies in the memory of its slab. */
    lemma BlockInside(i: nat, b: Block)
      requires Owned() && i < |slabs| && SlabOk(i) && b in BlocksOf(i)
      ensures slabs[i].base <= b.at && b.at + b.length <= slabs[i].base + available && b.length == slabs[i].size > 0
    {
      LiveInside(slabs[i], b.at - slabs[i].base);
    }

    /** What has been handed out does not overlap. */
    lemma NoOverlap(b: Block, c: Block)
      requires Valid() && b in Blocks() && c in Blocks() && b != c
      ensures b.length > 0 && c.length > 0 && (b.at + b.length <= c.at || c.at + c.length <= b.at)
    {
      hide Slabs.Slab.Valid;
      var i: nat :| i < |slabs| && b in BlocksOf(i);
      var j: nat :| j < |slabs| && c in BlocksOf(j);
      assert SlabOk(i) && SlabOk(j);
      BlockInside(i, b);
      BlockInside(j, c);
      if i == j {
        LiveApart(slabs[i], b.at - slabs[i].base, c.at - slabs[i].base);
      } else {
        FarFrom(i, j);
      }
    }

    lemma ValidOwns()
      requires Valid()
      ensures Owned()
    {
    }

    lemma BlockHeld(b: Block)
      requires Valid() && b in Blocks()
      ensures InSlab(slabs, slabSize, b.at)
    {
      hide Slabs.Slab.Valid, BlocksOf;
      var i: nat :| i < |slabs| && b in BlocksOf(i);
      assert SlabOk(i);
      BlockInside(i, b);
    }

    /** An address belongs to one block at most. */
    lemma OneAtEach()
      requires Valid()
      ensures forall b, c :: b in Blocks() && c in Blocks() && b.at == c.at ==> b == c
    {
      forall b, c | b in Blocks() && c in Blocks() && b.at == c.at
        ensures b == c
      {
        if b != c {
          NoOverlap(b, c);
        }
      }
    }

    lemma FarFrom(i: nat, j: nat)
      requires FarApart() && i < |slabs| && j < |slabs| && i != j
      ensures available <= slabSize && Away(slabs[i].base, slabs[j].base)
    {
      var a, b := if i < j then i else j, if i < j then j else i;
      assert Away(slabs[a].base, slabs[b].base);
    }

    lemma FreePlace(i: nat, p: nat)
      requires Valid() && i < |slabs| && p !in slabs[i].Live() && p < slabs[i].mem.Length
      ensures Block(slabs[i].base + p, slabs[i].size) !in Blocks()
    {
      hide Slabs.Slab.Valid;
      var b := Block(slabs[i].base + p, slabs[i].size);
      assert SlabOk(i);
      forall j: nat | j < |slabs|
        ensures b !in BlocksOf(j)
      {
        if j != i {
          assert SlabOk(j);
          FarFrom(i, j);
          if b in BlocksOf(j) {
            BlockInside(j, b);
          }
        }
      }
    }

    /** Takes a slot from a slab that has free space. */
    method TakeSlot(k: int, i: nat) returns (at: int)
      requires Valid() && k in sizes && i in sizes[k].freeSlabs.items
      modifies Repr
      ensures Valid() && slabs == old(slabs) && sizes == old(sizes) && Repr == old(Repr)
      ensures Block(at, k) !in old(Blocks()) && Blocks() == old(Blocks()) + {Block(at, k)}
      ensures at > 0 && at % 8 == 0
      ensures i < |slabs| && old(slabs[i].shims.items) != [] && at == slabs[i].base + old(slabs[i].shims.items[0])
    {
      hide BestSize, Slabs.Slab.Valid, LinkedList.Valid, LinkedList.Unlinked, Blocks, FreePlaces;
      assert CategoryOk(k) && SlabOk(i);
      assert k >= SizeOfObj && BestSize(k) == k && slabs[i].size == k && slabs[i].base > 0 && slabs[i].base % 8 == 0;
      var slab := slabs[i];
      ghost var live, own, blocks := slab.Live(), BlocksOf(i), Blocks();
      AllFree(i);
      hide CategoryOk, SlabsOk, FarApart, Apart;
      var p := TakeFirstSlot(k, i);
      at := slab.base + p;
      SlotAligned(slab.base, k, p);
      FreeAt(blocks, slab.base, k, live, slab.mem.Length, p);
      OneChanged(i);
      OneBlockMore(live, p, slab.base, k);
      assert BlocksOf(i) == own + {Block(at, k)};
      hide BlocksOf;
      BlocksGrow(i);
      GrownByOne(blocks, own, Block(at, k));
    }

    lemma AllFree(i: nat)
      requires Valid() && i < |slabs|
      ensures FreePlaces(Blocks(), slabs[i].base, slabs[i].size, slabs[i].Live(), slabs[i].mem.Length)
    {
      hide Slabs.Slab.Valid, Blocks;
      forall p: nat | p !in slabs[i].Live() && p < slabs[i].mem.Length
        ensures Block(slabs[i].base + p, slabs[i].size) !in Blocks()
      {
        FreePlace(i, p);
      }
    }

    /** Some slab for objects of this size has free space. */
    ghost predicate HasRoom(k: int)
      requires Owned()
      reads this, Repr
    {
      exists i :: 0 <= i < |slabs| && slabs[i].size == k && slabs[i].shims.items != []
    }

    /** The first free slot of the first slab on the list of slabs with free space. */
    ghost function NextFree(k: int): Option<int>
      requires Owned()
      reads this, Repr
    {
      if k !in sizes || sizes[k].freeSlabs.items == [] then None
      else
        var i := sizes[k].freeSlabs.items[0];
        if i >= |slabs| || slabs[i].shims.items == [] then None else Some(slabs[i].base + slabs[i].shims.items[0])
    }

    /** There is such a slot exactly if some slab has free space. */
    lemma RoomExactly(k: int)
      requires Valid()
      ensures NextFree(k).Some? <==> HasRoom(k)
      ensures k in sizes ==> (NextFree(k).Some? <==> sizes[k].freeSlabs.items != [])
    {
      hide BestSize, Slabs.Slab.Valid, LinkedList.Valid, LinkedList.Unlinked;
      if k in sizes {
        assert CategoryOk(k);
        if sizes[k].freeSlabs.items != [] {
          assert sizes[k].freeSlabs.items[0] in sizes[k].freeSlabs.items;
        }
      }
      if HasRoom(k) {
        var i: nat :| i < |slabs| && slabs[i].size == k && slabs[i].shims.items != [];
        assert SlabOk(i) && CategoryOk(k);
        assert i in sizes[k].freeSlabs.items;
      }
    }

    /** Allocates memory (AllocateRaw); at is where the operating system would place a new slab. None
        where the program aborts: the size is too small for an object or too big for a slab. A slab is made if and
        only if the request is granted and no slab for objects of that size has free space. */
    method AllocateRaw(requestedSize: int, at: nat) returns (mem: Option<int>)
      requires Valid() && at > 0 && at % 8 == 0 && forall j :: 0 <= j < |slabs| ==> Away(slabs[j].base, at)
      modifies Repr
      ensures Valid() && fresh(Repr - old(Repr)) && |old(slabs)| <= |slabs| <= |old(slabs)| + 1 && slabs[..|old(slabs)|] == old(slabs)
      ensures forall j :: |old(slabs)| <= j < |slabs| ==> slabs[j].base == at
      ensures mem.Some? <==> Fits(requestedSize, available)
      ensures mem.None? ==> Blocks() == old(Blocks()) && slabs == old(slabs)
      ensures mem.Some? ==> |slabs| == |old(slabs)| + if old(HasRoom(BestSize(requestedSize))) then 0 else 1
      ensures mem.Some? ==> mem == if old(NextFree(BestSize(requestedSize))).Some? then old(NextFree(BestSize(requestedSize))) else Some(at)
      ensures mem.Some? ==>
        var b := Block(mem.value, BestSize(requestedSize));
        && b.length >= requestedSize && b !in old(Blocks()) && Blocks() == old(Blocks()) + {b}
        && b.at > 0 && b.at % 8 == 0
    {
      if requestedSize >= SizeOfObj {
        RoomExactly(BestSize(requestedSize));
      }
      hide BestSize, Slabs.Slab.Valid, LinkedList.Valid, LinkedList.Unlinked, Blocks, Apart, SlabsOk, FarApart, CategoryOk, HasRoom, NextFree;
      var size := GetOrCreateBestCategory(requestedSize);
      if size.None? {
        return None;
      }
      SameRoom(size.value);
      mem := FromCategory(size.value, at);
    }

    /** The part of AllocateRaw that deals with one category. */
    method FromCategory(k: int, at: nat) returns (mem: Option<int>)
      requires Valid() && k in sizes && at > 0 && at % 8 == 0 && forall j :: 0 <= j < |slabs| ==> Away(slabs[j].base, at)
      modifies Repr
      ensures Valid() && fresh(Repr - old(Repr)) && |old(slabs)| <= |slabs| <= |old(slabs)| + 1 && slabs[..|old(slabs)|] == old(slabs)
      ensures forall j :: |old(slabs)| <= j < |slabs| ==> slabs[j].base == at
      ensures mem.Some? <==> k <= available
      ensures mem.None? ==> Blocks() == old(Blocks()) && slabs == old(slabs)
      ensures mem.Some? ==> |slabs| == |old(slabs)| + if old(HasRoom(k)) then 0 else 1
      ensures mem.Some? ==> mem == if old(NextFree(k)).Some? then old(NextFree(k)) else Some(at)
      ensures mem.Some? ==> var b := Block(mem.value, k); b !in old(Blocks()) && Blocks() == old(Blocks()) + {b} && b.at > 0 && b.at % 8 == 0
    {
      FreeStart(k);
      RoomExactly(k);
      hide BestSize, Slabs.Slab.Valid, LinkedList.Valid, LinkedList.Unlinked, Blocks, Apart, SlabsOk, FarApart, CategoryOk, HasRoom;
      var slab := sizes[k].freeSlabs.start;
      if slab == Null {
        if k > available {
          return None;
        }
        slab := CreateSlab(k, at);
      }
      var a := TakeSlot(k, slab);
      return Some(a);
    }

    /** With all slabs and old lists as they were, there is free space where there was. */
    twostate lemma SameRoom(k: int)
      requires old(Valid()) && Valid() && slabs == old(slabs) && forall i :: 0 <= i < |slabs| ==> unchanged(slabs[i].shims)
      requires forall l :: l in old(sizes) ==> l in sizes && sizes[l] == old(sizes[l]) && unchanged(sizes[l].freeSlabs)
      requires old(NextFree(k)).Some? <==> old(HasRoom(k))
      ensures old(HasRoom(k)) == HasRoom(k) && old(NextFree(k)) == NextFree(k)
    {
      RoomExactly(k);
    }

    /** The first slab with free space is really the first. */
    lemma FreeStart(k: int)
      requires Valid() && k in sizes
      ensures var l := sizes[k].freeSlabs;
        if l.start == Null then l.items == []
        else l.start >= 0 && l.start in l.items && l.start == l.items[0] && At(l.prev, l.start) == Null && k <= available
    {
      assert CategoryOk(k);
      if i: nat :| i in sizes[k].freeSlabs.items {
        assert SlabOk(i);
        SlabFits(slabs[i]);
      }
    }

    method TakeFirstSlot(k: int, i: nat) returns (p: nat)
      requires Valid() && k in sizes && k > 0 && i in sizes[k].freeSlabs.items && i < |slabs|
      modifies slabs[i], slabs[i].mem, slabs[i].shims, sizes[k].freeSlabs
      ensures Owned() && OnlySlab(i) && slabs[i].Valid() && slabs[i].size == k
      ensures Relisted(sizes[k].freeSlabs, i, slabs[i].shims.items != [])
      ensures p !in old(slabs[i].Live()) && slabs[i].Live() == old(slabs[i].Live()) + {p} && p < slabs[i].mem.Length
      ensures p % k == 0 && old(slabs[i].shims.items) != [] && p == old(slabs[i].shims.items[0])
    {
      hide BestSize, Slabs.Slab.Valid, LinkedList.Valid, LinkedList.Unlinked, Slabs.Slab.Live;
      assert CategoryOk(k) && SlabOk(i);
      hide SlabsOk, FarApart;
      var slab := slabs[i];
      SlabStart(slab);
      ListStart(sizes[k].freeSlabs);
      WithoutMembers(sizes[k].freeSlabs.items, i);
      p := slab.TakeFirst();
      SlabStart(slab);
      if slab.shims.start == Null {
        sizes[k].freeSlabs.Detach(i);
      }
    }

    /** What is left of slab i when only the objects with the given word are kept. */
    ghost function KeptOf(i: nat, word: map<nat, nat>, reachable: nat): set<Block>
      requires Owned() && i < |slabs|
      reads this, Repr
    {
      set b | b in BlocksOf(i) && Marked(b, word, reachable)
    }

    /** Sweeps one slab, which gets on the list of slabs with free space if it was full. */
    method SweepSlab(i: nat, word: map<nat, nat>, reachable: nat) returns (freed: seq<int>)
      requires Valid() && i < |slabs| && forall b :: b in BlocksOf(i) ==> b.at in word
      modifies Repr
      ensures Owned() && Valid() && OnlySlab(i)
      ensures BlocksOf(i) == old(KeptOf(i, word, reachable)) && Freed(freed, old(BlocksOf(i)), word, reachable)
      ensures forall j :: 0 <= j < |slabs| && j != i ==> BlocksOf(j) == old(BlocksOf(j))
    {
      hide BestSize, Slabs.Slab.Valid, LinkedList.Valid, LinkedList.Unlinked;
      assert SlabOk(i);
      forall p | p in slabs[i].Live()
        ensures slabs[i].base + p in word
      {
        assert Block(slabs[i].base + p, slabs[i].size) in BlocksOf(i);
      }
      ghost var live, kept, blocks := slabs[i].Live(), slabs[i].Kept(word, reachable), BlocksOf(i);
      freed := SweepAndList(i, word, reachable);
      FreedSlots(slabs[i].base, slabs[i].size, live, kept, blocks, word, reachable, freed);
      OneChanged(i);
      forall b: Block
        ensures b in BlocksOf(i) <==> b in old(KeptOf(i, word, reachable))
      {
        var p := b.at - slabs[i].base;
        assert p in slabs[i].Live() <==> p in old(slabs[i].Live()) && Marked(Block(slabs[i].base + p, slabs[i].size), word, reachable);
      }
    }

    method SweepAndList(i: nat, word: map<nat, nat>, reachable: nat) returns (freed: seq<int>)
      requires Valid() && i < |slabs| && slabs[i].size in sizes && forall p :: p in slabs[i].Live() ==> slabs[i].base + p in word
      modifies slabs[i], slabs[i].mem, slabs[i].shims, sizes[slabs[i].size].freeSlabs
      ensures Owned() && OnlySlab(i) && slabs[i].Valid()
      ensures Relisted(sizes[slabs[i].size].freeSlabs, i, slabs[i].shims.items != [])
      ensures slabs[i].Live() == old(slabs[i].Kept(word, reachable))
      ensures Slabs.Destroyed(slabs[i].base, freed, old(slabs[i].Live() - slabs[i].Kept(word, reachable)))
    {
      hide BestSize, Slabs.Slab.Valid, LinkedList.Valid, LinkedList.Unlinked, Slabs.Slab.Live;
      assert CategoryOk(slabs[i].size) && SlabOk(i);
      hide SlabsOk, FarApart;
      var slab := slabs[i];
      var list := sizes[slab.size].freeSlabs;
      OnList(list, i);
      freed := slab.Sweep(word, reachable);
      SlabStart(slab);
      var wasMarkedFree := list.start == i || At(list.prev, i) != Null;
      if !wasMarkedFree && slab.shims.start != Null {
        list.InsertAtEnd(i);
      }
    }

    /** Frees every object whose word is not the given one, and says whose destructors have been called. */
    method DeallocateUnreachableObjects(word: map<nat, nat>, reachable: nat) returns (freed: seq<int>)
      requires Valid() && forall b :: b in Blocks() ==> b.at in word
      modifies Repr
      ensures Valid() && slabs == old(slabs) && Repr == old(Repr)
      ensures Blocks() == OnlyMarked(old(Blocks()), word, reachable) && Freed(freed, old(Blocks()), word, reachable)
    {
      BeforeSweep(word, reachable);
      ghost var was := BlocksBySlab();
      ghost var done: set<nat> := {};
      freed := [];
      FreedNone(was, word, reachable);
      var keys := sizes.Keys;
      ghost var swept: set<int> := {};
      hide *;
      NoneDone();
      PartNone(sizes.Keys);
      while |keys| > 0
        invariant Owned() && Valid() && slabs == old(slabs) && sizes == old(sizes) && Repr == old(Repr)
        invariant Parted(sizes.Keys, swept, keys) && CategoriesDone(swept, done)
        invariant SweptSlabs(was, word, reachable, done) && Freed(freed, Among(was, done), word, reachable)
        decreases |keys|
      {
        SomeKey(keys);
        var k: int :| k in keys;
        PartMore(sizes.Keys, swept, keys, k);
        keys := keys - {k};
        ghost var d;
        var more;
        more, d := DeallocateCategory(k, word, reachable, was, swept, done);
        ValidOwns();
        FreedJoin(was, word, reachable, freed, done, more, d);
        freed := freed + more;
        done := done + d;
        swept := swept + {k};
      }
      PartAll(sizes.Keys, swept, keys);
      AllDone(done, swept);
      AllSwept(was, word, reachable, done);
      AllAmong(was, done);
    }

    ghost function BlocksBySlab(): (s: seq<set<Block>>)
      requires Owned()
      reads this, Repr
      ensures |s| == |slabs|
    {
      seq(|slabs|, i requires 0 <= i < |slabs| && Owned() reads this, Repr => BlocksOf(i))
    }

    /** The slabs in done have been swept, the others are as they were. */
    ghost predicate SweptSlabs(was: seq<set<Block>>, word: map<nat, nat>, reachable: nat, done: set<nat>)
      requires Owned()
      reads this, Repr
    {
      |was| == |slabs| && forall i :: 0 <= i < |slabs| ==>
        BlocksOf(i) == if i in done then OnlyMarked(was[i], word, reachable) else was[i]
    }

    /** All slabs of one category. */
    method DeallocateCategory(k: int, word: map<nat, nat>, reachable: nat, ghost was: seq<set<Block>>, ghost swept: set<int>, ghost done: set<nat>)
      returns (freed: seq<int>, ghost d: set<nat>)
      requires Valid() && k in sizes && SweptSlabs(was, word, reachable, done) && Scattered(was)
      requires forall i, b :: 0 <= i < |was| && b in was[i] ==> b.at in word
      requires CategoriesDone(swept, done) && k !in swept
      modifies Repr
      ensures Valid() && slabs == old(slabs) && sizes == old(sizes) && Repr == old(Repr)
      ensures done !! d && CategoriesDone(swept + {k}, done + d) && SweptSlabs(was, word, reachable, done + d)
      ensures Freed(freed, Among(was, d), word, reachable)
    {
      hide BestSize, SlabsOk, Apart, FarApart, BlocksOf, Scattered, Freed, Among;
      var list := sizes[k].allSlabs;
      assert CategoryOk(k);
      ghost var items := list.items;
      ListStart(list);
      OneMoreDone(k, items, Members(items, |items|), swept, done);
      hide CategoryOk, LinkedList.Valid, LinkedList.Unlinked, CategoriesDone, Members;
      ghost var n := 0;
      d := {};
      freed := [];
      FreedNone(was, word, reachable);
      NoMembers(items);
      var slab := list.start;
      while slab != Null
        invariant Valid() && slabs == old(slabs) && sizes == old(sizes) && Repr == old(Repr)
        invariant list.Valid() && list.items == items && n <= |items| && slab == if n < |items| then items[n] else Null
        invariant d == Members(items, n)
        invariant SweptSlabs(was, word, reachable, done + d) && Freed(freed, Among(was, d), word, reachable)
        decreases |items| - n
      {
        ListNext(list, n);
        MoreMembers(items, n);
        var more := SweepNext(slab, word, reachable, was, done, d, freed);
        freed := freed + more;
        d := d + {slab};
        n := n + 1;
        slab := At(list.next, slab);
      }
    }

    /** One slab more of the category. */
    method SweepNext(i: nat, word: map<nat, nat>, reachable: nat, ghost was: seq<set<Block>>, ghost done: set<nat>, ghost d: set<nat>, ghost freed: seq<int>)
      returns (more: seq<int>)
      requires Valid() && i < |slabs| && i !in done && i !in d && SweptSlabs(was, word, reachable, done + d) && Scattered(was)
      requires forall j, b :: 0 <= j < |was| && b in was[j] ==> b.at in word
      requires Freed(freed, Among(was, d), word, reachable)
      modifies Repr
      ensures Owned() && Valid() && OnlySlab(i)
      ensures SweptSlabs(was, word, reachable, done + (d + {i})) && Freed(freed + more, Among(was, d + {i}), word, reachable)
    {
      hide BestSize, SlabsOk, Apart, FarApart, BlocksOf, Scattered, Freed, Among, CategoryOk;
      more := SweepSlab(i, word, reachable);
      OnlyOne(was, i);
      FreedJoin(was, word, reachable, freed, d, more, {i});
    }

    lemma AllSwept(was: seq<set<Block>>, word: map<nat, nat>, reachable: nat, done: set<nat>)
      requires Owned() && SweptSlabs(was, word, reachable, done) && forall i: nat :: i < |slabs| ==> i in done
      ensures Blocks() == OnlyMarked(Union(was), word, reachable)
    {
      hide BlocksOf;
      forall b: Block
        ensures b in Blocks() <==> b in OnlyMarked(Union(was), word, reachable)
      {
        assert forall i: nat :: i < |slabs| ==> (b in BlocksOf(i) <==> b in was[i] && Marked(b, word, reachable));
      }
    }

    lemma BeforeSweep(word: map<nat, nat>, reachable: nat)
      requires Valid() && forall b :: b in Blocks() ==> b.at in word
      ensures Blocks() == Union(BlocksBySlab()) && SweptSlabs(BlocksBySlab(), word, reachable, {})
      ensures |BlocksBySlab()| == |slabs| && forall j :: 0 <= j < |slabs| ==> slabs[j].size in sizes.Keys
      ensures forall i, b :: 0 <= i < |BlocksBySlab()| && b in BlocksBySlab()[i] ==> b.at in word
      ensures Scattered(BlocksBySlab())
    {
      hide BlocksOf, Slabs.Slab.Valid;
      BlocksUnion();
      BlocksScattered();
      forall j: nat | j < |slabs|
        ensures slabs[j].size in sizes.Keys
      {
        assert SlabOk(j);
      }
      assert forall i: nat :: i < |slabs| ==> BlocksBySlab()[i] == BlocksOf(i);
    }

    /** Blocks in different slabs have different addresses. */
    lemma BlocksScattered()
      requires Valid()
      ensures Scattered(BlocksBySlab())
    {
      hide BlocksOf, Slabs.Slab.Valid;
      forall i: nat, j: nat, b, c | i < j < |slabs| && b in BlocksOf(i) && c in BlocksOf(j)
        ensures b.at != c.at
      {
        assert SlabOk(i) && SlabOk(j);
        BlockInside(i, b);
        BlockInside(j, c);
        FarFrom(i, j);
      }
    }

    /** Exactly the slabs of these categories. */
    ghost predicate CategoriesDone(keys: set<int>, done: set<nat>)
      reads this
    {
      forall j: nat :: j in done <==> j < |slabs| && slabs[j].size in keys
    }

    lemma NoneDone()
      ensures CategoriesDone({}, {})
    {
    }

    /** The slabs on the list of category k are those of the category. */
    lemma OneMoreDone(k: int, items: seq<nat>, d: set<nat>, swept: set<int>, done: set<nat>)
      requires CategoriesDone(swept, done) && k !in swept && d == Members(items, |items|)
      requires forall i: nat :: i in items <==> i < |slabs| && slabs[i].size == k
      ensures done !! d && CategoriesDone(swept + {k}, done + d)
    {
      assert items[..|items|] == items;
    }

    lemma AllDone(done: set<nat>, swept: set<int>)
      requires Valid() && CategoriesDone(swept, done) && swept == sizes.Keys
      ensures forall i: nat :: i < |slabs| ==> i in done
    {
      hide Slabs.Slab.Valid;
      forall i: nat | i < |slabs|
        ensures i in done
      {
        assert SlabOk(i);
      }
    }

    lemma BlocksUnion()
      requires Owned()
      ensures Blocks() == Union(BlocksBySlab())
    {
      hide BlocksOf;
      forall b: Block
        ensures b in Blocks() <==> b in Union(BlocksBySlab())
      {
        assert forall i: nat :: i < |slabs| ==> BlocksBySlab()[i] == BlocksOf(i);
      }
    }
  }

  /** The address lies in the memory of one of the slabs. */
  ghost predicate InSlab(slabs: seq<Slabs.Slab>, slabSize: int, a: int) {
    exists j :: 0 <= j < |slabs| && slabs[j].base <= a < slabs[j].base + slabSize
  }

  ghost function Union(s: seq<set<Block>>): set<Block> {
    set i, b | 0 <= i < |s| && b in s[i] :: b
  }

  /** The blocks of some slabs. */
  ghost function Among(s: seq<set<Block>>, slabs: set<nat>): set<Block> {
    set i, b | 0 <= i < |s| && i in slabs && b in s[i] :: b
  }

  /** The first n of some slabs. */
  ghost function Members(items: seq<nat>, n: nat): set<nat>
    requires n <= |items|
  {
    set i | i in items[..n]
  }

  lemma NoMembers(items: seq<nat>)
    ensures Members(items, 0) == {}
  {
  }

  lemma MoreMembers(items: seq<nat>, n: nat)
    requires n < |items| && Distinct(items)
    ensures items[n] !in Members(items, n) && items[n] in Members(items, |items|) && Members(items, n + 1) == Members(items, n) + {items[n]}
  {
    assert items[..n + 1] == items[..n] + [items[n]];
  }

  /** No address occurs in two slabs. */
  ghost predicate Scattered(s: seq<set<Block>>) {
    forall i, j, b, c :: 0 <= i < j < |s| && b in s[i] && c in s[j] ==> b.at != c.at
  }

  /** What has been freed: the blocks without the given word, each once. */
  ghost predicate Freed(freed: seq<int>, s: set<Block>, word: map<nat, nat>, reachable: nat) {
    Distinct(freed) && forall a :: a in freed <==> exists b :: b in s && b.at == a && !Marked(b, word, reachable)
  }

  /** No block begins at a place in a slab that is not in use. */
  ghost predicate FreePlaces(blocks: set<Block>, base: int, size: int, live: set<int>, length: int) {
    forall p: nat :: p !in live && p < length ==> Block(base + p, size) !in blocks
  }

  lemma FreeAt(blocks: set<Block>, base: int, size: int, live: set<int>, length: int, p: nat)
    requires FreePlaces(blocks, base, size, live, length) && p !in live && p < length
    ensures Block(base + p, size) !in blocks
  {
  }

  lemma GrownByOne(blocks: set<Block>, own: set<Block>, b: Block)
    requires own <= blocks
    ensures blocks + (own + {b}) == blocks + {b}
  {
  }

  lemma OneBlockMore(live: set<int>, q: int, base: int, size: int)
    ensures (set p | p in live + {q} :: Block(base + p, size)) == (set p | p in live :: Block(base + p, size)) + {Block(base + q, size)}
  {
  }

  /** The destroyed objects of a slab, by their addresses. */
  lemma FreedSlots(base: int, size: int, live: set<int>, kept: set<int>, blocks: set<Block>, word: map<nat, nat>, reachable: nat, freed: seq<int>)
    requires Slabs.Destroyed(base, freed, live - kept) && blocks == set p | p in live :: Block(base + p, size)
    requires forall p :: p in live ==> base + p in word && (p in kept <==> word[base + p] == reachable)
    ensures Freed(freed, blocks, word, reachable)
  {
    forall a
      ensures a in freed <==> exists b :: b in blocks && b.at == a && !Marked(b, word, reachable)
    {
      assert Block(base + (a - base), size).at == a;
      assert a in freed <==> a - base in live && a - base !in kept;
      assert a - base in live <==> Block(a, size) in blocks;
    }
  }

  lemma FreedNone(s: seq<set<Block>>, word: map<nat, nat>, reachable: nat)
    ensures Freed([], Among(s, {}), word, reachable)
  {
  }

  lemma FreedJoin(s: seq<set<Block>>, word: map<nat, nat>, reachable: nat, f: seq<int>, d: set<nat>, g: seq<int>, e: set<nat>)
    requires Scattered(s) && d !! e && Freed(f, Among(s, d), word, reachable) && Freed(g, Among(s, e), word, reachable)
    ensures Freed(f + g, Among(s, d + e), word, reachable)
  {
    forall a | a in f
      ensures a !in g
    {
    }
    JoinDistinct(f, g);
    assert Among(s, d + e) == Among(s, d) + Among(s, e);
  }

  lemma JoinDistinct(f: seq<int>, g: seq<int>)
    requires Distinct(f) && Distinct(g) && forall a :: a in f ==> a !in g
    ensures Distinct(f + g) && forall a :: a in f + g <==> a in f || a in g
  {
    forall i, j | 0 <= i < j < |f + g|
      ensures (f + g)[i] != (f + g)[j]
    {
      if i < |f| <= j {
        assert f[i] in f && g[j - |f|] in g;
      }
    }
  }

  lemma OnlyOne(s: seq<set<Block>>, i: nat)
    requires i < |s|
    ensures Among(s, {i}) == s[i]
  {
  }

  lemma AllAmong(s: seq<set<Block>>, slabs: set<nat>)
    requires forall i: nat :: i < |s| ==> i in slabs
    ensures Among(s, slabs) == Union(s)
  {
  }

  ghost predicate Marked(b: Block, word: map<nat, nat>, reachable: nat) {
    b.at in word && word[b.at] == reachable
  }

  ghost function OnlyMarked(s: set<Block>, word: map<nat, nat>, reachable: nat): set<Block> {
    set b | b in s && Marked(b, word, reachable)
  }

  /** Some of the keys have been dealt with, the others are to come. */
  ghost predicate Parted(all: set<int>, swept: set<int>, keys: set<int>) {
    swept + keys == all && swept !! keys
  }

  lemma PartNone(all: set<int>)
    ensures Parted(all, {}, all)
  {
  }

  lemma PartMore(all: set<int>, swept: set<int>, keys: set<int>, k: int)
    requires Parted(all, swept, keys) && k in keys
    ensures k in all && k !in swept && Parted(all, swept + {k}, keys - {k}) && |keys - {k}| < |keys|
  {
  }

  lemma PartAll(all: set<int>, swept: set<int>, keys: set<int>)
    requires Parted(all, swept, keys) && |keys| == 0
    ensures swept == all
  {
  }

  lemma SomeKey(keys: set<int>)
    requires |keys| > 0
    ensures exists k :: k in keys
  {
    assert (forall k :: k !in keys) ==> keys == {};
  }

  lemma ListNext(list: LinkedList, n: nat)
    requires list.Valid() && n < |list.items|
    ensures At(list.next, list.items[n]) == if n + 1 < |list.items| then list.items[n + 1] else Null
    ensures Distinct(list.items)
  {
    Neighbours(list.start, list.end, list.next, list.prev, list.items, n);
  }

  /** How the sweep sees whether a slab is on the list. */
  lemma OnList(list: LinkedList, i: nat)
    requires list.Valid() && (i !in list.items ==> list.Unlinked(i))
    ensures i in list.items <==> list.start == i || At(list.prev, i) != Null
  {
    if i in list.items {
      var n :| 0 <= n < |list.items| && list.items[n] == i;
      Neighbours(list.start, list.end, list.next, list.prev, list.items, n);
    }
  }

  /** Slots are aligned because the sizes of categories are. */
  lemma SlotAligned(base: nat, k: int, p: nat)
    requires k >= SizeOfObj && BestSize(k) == k && p % k == 0 && base % 8 == 0
    ensures (base + p) % 8 == 0
  {
    OffsetAligned(k, p);
    SumAligned(base, p);
  }

  lemma SumAligned(a: nat, b: nat)
    requires a % 8 == 0 && b % 8 == 0
    ensures (a + b) % 8 == 0
  {
  }

  lemma OffsetAligned(k: int, p: nat)
    requires k >= SizeOfObj && BestSize(k) == k && p % k == 0
    ensures p % 8 == 0
  {
    BestSizeFits(k);
    hide BestSize;
    Times(p, k, p / k, k / 8);
  }

  lemma Times(p: nat, k: nat, m: nat, n: nat)
    requires k == 8 * n && p == k * m
    ensures p % 8 == 0
  {
    Product(n, m);
    Slabs.Multiple(p, n * m, 8);
  }

  lemma Product(n: int, m: int)
    ensures (8 * n) * m == (n * m) * 8
  {
  }

  lemma LiveInside(slab: Slabs.Slab, p: int)
    requires slab.Valid() && p in slab.Live()
    ensures 0 <= p && p + slab.size <= slab.mem.Length && slab.size > 0
  {
    assert Slabs.TileOk(slab.mem[..], slab.size, slab.starts, p);
    assert p + slab.size in slab.starts ==> Slabs.TileOk(slab.mem[..], slab.size, slab.starts, p + slab.size);
  }

  lemma LiveApart(slab: Slabs.Slab, p: int, q: int)
    requires slab.Valid() && p in slab.Live() && q in slab.Live() && p != q
    ensures p + slab.size <= q || q + slab.size <= p
  {
    assert Slabs.Below(slab.mem[..], slab.size, p, q) || Slabs.Below(slab.mem[..], slab.size, q, p);
  }

  lemma ListStart(list: LinkedList)
    requires list.Valid()
    ensures Distinct(list.items) && list.start == if list.items == [] then Null else list.items[0]
  {
  }

  lemma SlabFits(slab: Slabs.Slab)
    requires slab.Valid() && slab.shims.items != []
    ensures slab.size <= slab.mem.Length
  {
    Slabs.FirstShim(slab.mem[..], slab.size, slab.starts, slab.shims.items);
  }

  lemma SlabStart(slab: Slabs.Slab)
    requires slab.Valid()
    ensures slab.shims.start == Null <==> slab.shims.items == []
  {
  }
}
