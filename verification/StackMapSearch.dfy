/** Writer, reader and search together. */
module StackMapSearch {
  import opened Basics
  import opened StackMaps

  lemma {:induction false} OwnerInRange(funs: seq<Fun>, i: nat, k: nat)
    requires i <= |funs| && k < Total(funs, i)
    ensures Owner(funs, i, k) < |funs|
    decreases |funs| - i
  {
    if i < |funs| && k >= funs[i].count {
      OwnerInRange(funs, i + 1, k - funs[i].count);
    }
  }

  /** The address of call site k: a 64-bit number. */
  function SiteAddress(funs: seq<Fun>, sites: seq<Site>, k: nat): nat
    requires k < |sites| && Owner(funs, 0, k) < |funs|
  {
    (funs[Owner(funs, 0, k)].pointer + sites[k].offset) % Wrap
  }

  /** What is found is what the compiler has recorded for call site k at that address. */
  ghost predicate IsSite(f: Found, funs: seq<Fun>, sites: seq<Site>, k: nat, address: nat) {
    && k < |sites| && Owner(funs, 0, k) < |funs| && SiteAddress(funs, sites, k) == address
    && f == Found(address, sites[k].locals, Owner(funs, 0, k))
  }

  ghost predicate HasSite(funs: seq<Fun>, sites: seq<Site>, address: nat) {
    exists k :: 0 <= k < |sites| && Owner(funs, 0, k) < |funs| && SiteAddress(funs, sites, k) == address
  }

  /** A call site of the map is one that has been read, and the other way round. */
  lemma {:induction false} SiteRead(funs: seq<Fun>, sites: seq<Site>, r: Reader, k: nat)
    requires MapsOk(funs, sites) && Attached(funs, sites, r, |funs|, |sites|) && k < |sites|
    ensures var p := r.statepoints[k];
      && p.functionId == Owner(funs, 0, k) < |funs| == |r.functions| && Address(r.functions, p) == SiteAddress(funs, sites, k)
      && p.index + p.count <= |r.heap| && r.heap[p.index..p.index + p.count] == sites[k].locals
  {
    OwnerInRange(funs, 0, k);
    assert SiteIs(funs, sites, r, k);
  }

  /** All the way: what the compiler emits for functions and call sites is read by the runtime, and
      the search for an address finds nothing if and only if no call site has that address; otherwise it finds the values
      and the function of a call site that has it. */
  method EmitReadLookup(funs: seq<Fun>, sites: seq<Site>, address: nat) returns (found: Option<Found>)
    requires MapsOk(funs, sites)
    ensures found.None? <==> !HasSite(funs, sites, address)
    ensures found.Some? ==> exists k: nat :: IsSite(found.value, funs, sites, k, address)
  {
    hide StackMap, Read, Address, SiteAddress, Attached, Sorted;
    var w := new Writer();
    w.EmitStackMaps(funs, sites);
    RoundTrip(funs, sites);
    assert w.out == StackMap(funs, sites);
    var map' := new StackMapDescription(w.out);
    ghost var r := Read(w.out).value;
    found := map'.Lookup(address);
    AttachedSize(funs, sites, r);
    if found.None? {
      forall k | 0 <= k < |sites| && Owner(funs, 0, k) < |funs|
        ensures SiteAddress(funs, sites, k) != address
      {
        SiteRead(funs, sites, r, k);
        var i := Same(r.statepoints, map'.statepoints, k);
      }
    } else {
      ghost var i :| 0 <= i < |map'.statepoints| && map'.Describes(found.value, i, address);
      ghost var k := Same(map'.statepoints, r.statepoints, i);
      SiteRead(funs, sites, r, k);
      assert IsSite(found.value, funs, sites, k, address);
    }
  }

  lemma AttachedSize(funs: seq<Fun>, sites: seq<Site>, r: Reader)
    requires Attached(funs, sites, r, |funs|, |sites|)
    ensures |r.statepoints| == |sites|
  {
  }

  /** A member of one sequence is one of the other. */
  lemma Same(ps: seq<Statepoint>, qs: seq<Statepoint>, k: nat) returns (i: nat)
    requires multiset(ps) == multiset(qs) && k < |ps|
    ensures i < |qs| && qs[i] == ps[k]
  {
    assert ps[k] in multiset(ps);
    assert ps[k] in qs;
    i :| 0 <= i < |qs| && qs[i] == ps[k];
  }
}
