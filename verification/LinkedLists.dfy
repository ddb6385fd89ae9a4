/** Intrusive doubly linked lists (rtsrc/LinkedList.h). The nodes are numbers
    and null is -1; next and prev are the link fields of the nodes, which exist
    whether or not a node is on the list. */
module LinkedLists {
  import opened Finite

  const Null := -1

  /** The sequence without x. */
  function Without(s: seq<nat>, x: nat): seq<nat> {
    if s == [] then [] else if s[0] == x then s[1..] else [s[0]] + Without(s[1..], x)
  }

  lemma {:induction false} WithoutAt(s: seq<nat>, i: nat)
    requires i < |s| && Distinct(s)
    ensures Without(s, s[i]) == s[..i] + s[i + 1..]
  {
    if i > 0 {
      WithoutAt(s[1..], i - 1);
      assert s[..i] + s[i + 1..] == [s[0]] + (s[1..][..i - 1] + s[1..][i..]);
    }
  }

  lemma OnlyOut(s: seq<nat>, i: nat)
    requires i < |s| && Distinct(s)
    ensures |s[..i] + s[i + 1..]| == |s| - 1
    ensures forall y :: y !in s[..i] + s[i + 1..] ==> y !in s || y == s[i]
  {
    assert s == s[..i] + [s[i]] + s[i + 1..];
  }

  /** The sequence with y put in after x. */
  function WithAfter(s: seq<nat>, x: nat, y: nat): seq<nat> {
    if s == [] then [] else if s[0] == x then [x, y] + s[1..] else [s[0]] + WithAfter(s[1..], x, y)
  }

  lemma {:induction false} WithAfterAt(s: seq<nat>, i: nat, y: nat)
    requires i < |s| && Distinct(s)
    ensures WithAfter(s, s[i], y) == s[..i + 1] + [y] + s[i + 1..]
  {
    if i > 0 {
      WithAfterAt(s[1..], i - 1, y);
      assert s[..i + 1] + [y] + s[i + 1..] == [s[0]] + (s[1..][..i] + [y] + s[1..][i..]);
    }
  }

  lemma {:induction false} WithoutMembers(s: seq<nat>, x: nat)
    requires Distinct(s)
    ensures Distinct(Without(s, x))
    ensures forall y :: y in Without(s, x) <==> y in s && y != x
  {
    if x in s {
      var i :| 0 <= i < |s| && s[i] == x;
      WithoutAt(s, i);
      assert forall y :: y in s && y != x ==> y in s[..i] + s[i + 1..];
    } else {
      WithoutNone(s, x);
    }
  }

  lemma {:induction false} WithoutNone(s: seq<nat>, x: nat)
    requires x !in s
    ensures Without(s, x) == s
  {
    if s != [] {
      WithoutNone(s[1..], x);
    }
  }

  lemma {:induction false} WithAfterMembers(s: seq<nat>, x: nat, y: nat)
    requires Distinct(s) && x in s && y !in s
    ensures Distinct(WithAfter(s, x, y))
    ensures forall z :: z in WithAfter(s, x, y) <==> z in s || z == y
  {
    var i :| 0 <= i < |s| && s[i] == x;
    WithAfterAt(s, i, y);
    assert s == s[..i + 1] + s[i + 1..];
  }

  function At(m: map<nat, int>, x: nat): int {
    if x in m then m[x] else Null
  }

  /** The nodes of the list in both directions. */
  ghost predicate Chained(start: int, end: int, next: map<nat, int>, prev: map<nat, int>, items: seq<nat>) {
    && Distinct(items)
    && start == (if items == [] then Null else items[0])
    && end == (if items == [] then Null else items[|items| - 1])
    && (forall i, j :: 0 <= i < j < |items| && j == i + 1 ==> At(next, items[i]) == items[j])
    && (forall i, j :: 0 <= i < j < |items| && j == i + 1 ==> At(prev, items[j]) == items[i])
    && (items != [] ==> At(prev, items[0]) == Null && At(next, items[|items| - 1]) == Null)
  }

  /** Links around the node at position i. */
  lemma Neighbours(start: int, end: int, next: map<nat, int>, prev: map<nat, int>, items: seq<nat>, i: nat)
    requires Chained(start, end, next, prev, items) && i < |items|
    ensures -1 <= At(next, items[i]) != items[i] && -1 <= At(prev, items[i]) != items[i]
    ensures At(next, items[i]) == if i + 1 < |items| then items[i + 1] else Null
    ensures At(prev, items[i]) == if i > 0 then items[i - 1] else Null
    ensures start == items[i] <==> i == 0
    ensures end == items[i] <==> i + 1 == |items|
  {
    if i > 0 {
      var h := i - 1;
      assert At(prev, items[i]) == items[h] && items[h] != items[i];
    }
    if i + 1 < |items| {
      var j := i + 1;
      assert At(next, items[i]) == items[j] && items[i] != items[j];
    }
  }

  function Set(m: map<nat, int>, x: int, v: int): map<nat, int> {
    if x < 0 then m else m[x := v]
  }

  /** Taking out the node at position i. */
  lemma WithoutChained(start: int, end: int, next: map<nat, int>, prev: map<nat, int>, items: seq<nat>, i: nat)
    requires Chained(start, end, next, prev, items) && i < |items|
    ensures var x := items[i];
      var n, p := At(next, x), At(prev, x);
      Chained(if start == x then n else start, if end == x then p else end,
              Set(next, p, n)[x := Null], Set(prev, n, p)[x := Null], items[..i] + items[i + 1..])
  {
    Neighbours(start, end, next, prev, items, i);
    var x := items[i];
    var n, p := At(next, x), At(prev, x);
    var next', prev' := Set(next, p, n)[x := Null], Set(prev, n, p)[x := Null];
    var items' := items[..i] + items[i + 1..];
    forall j, k | 0 <= j < k < |items'| && k == j + 1
      ensures At(next', items'[j]) == items'[k] && At(prev', items'[k]) == items'[j]
    {
      var j0, k0 := if j < i then j else j + 1, if k < i then k else k + 1;
      assert items'[j] == items[j0] && items'[k] == items[k0];
      if k0 == j0 + 1 {
        assert At(next, items[j0]) == items[k0] && At(prev, items[k0]) == items[j0];
      }
    }
    if items' != [] {
      assert items'[0] == items[if i == 0 then 1 else 0];
      assert items'[|items'| - 1] == items[if i == |items| - 1 then |items| - 2 else |items| - 1];
    }
  }

  /** Only x and its neighbours have different links afterwards. */
  lemma OthersUnlinked(start: int, end: int, next: map<nat, int>, prev: map<nat, int>, items: seq<nat>, i: nat)
    requires Chained(start, end, next, prev, items) && i < |items|
    ensures var x := items[i];
      var n, p := At(next, x), At(prev, x);
      var next', prev' := Set(next, p, n)[x := Null], Set(prev, n, p)[x := Null];
      && At(next', x) == Null && At(prev', x) == Null
      && forall y: nat :: (y !in items || y == x) && (y != x ==> At(next, y) == Null && At(prev, y) == Null) ==>
           At(next', y) == Null && At(prev', y) == Null
  {
    Neighbours(start, end, next, prev, items, i);
  }

  /** Putting x in after the node at position i. */
  lemma AfterChained(start: int, end: int, next: map<nat, int>, prev: map<nat, int>, items: seq<nat>, i: nat, x: nat)
    requires Chained(start, end, next, prev, items) && i < |items| && x !in items
    ensures var p := items[i];
      var n := At(next, p);
      Chained(start, if end == p then x else end,
              next[p := x][x := n], Set(prev, n, x)[x := p], items[..i + 1] + [x] + items[i + 1..])
  {
    Neighbours(start, end, next, prev, items, i);
    var p := items[i];
    var n := At(next, p);
    var next', prev' := next[p := x][x := n], Set(prev, n, x)[x := p];
    var items' := items[..i + 1] + [x] + items[i + 1..];
    forall j, k | 0 <= j < k < |items'| && k == j + 1
      ensures At(next', items'[j]) == items'[k] && At(prev', items'[k]) == items'[j]
    {
      if j < i {
        assert At(next, items[j]) == items[k] && At(prev, items[k]) == items[j];
      } else if j > i + 1 {
        var j0, k0 := j - 1, k - 1;
        assert items'[j] == items[j0] && items'[k] == items[k0];
        assert At(next, items[j0]) == items[k0] && At(prev, items[k0]) == items[j0];
      }
    }
  }

  /** Putting x in front. */
  lemma StartChained(start: int, end: int, next: map<nat, int>, prev: map<nat, int>, items: seq<nat>, x: nat)
    requires Chained(start, end, next, prev, items) && items != [] && x !in items && At(prev, x) == Null
    ensures Chained(x, end, next[x := start], prev[items[0] := x], [x] + items)
  {
    var next', prev', items' := next[x := start], prev[items[0] := x], [x] + items;
    forall j, k | 0 <= j < k < |items'| && k == j + 1
      ensures At(next', items'[j]) == items'[k] && At(prev', items'[k]) == items'[j]
    {
      if j > 0 {
        assert items'[j] == items[j - 1] && items'[k] == items[k - 1];
        assert At(next, items[j - 1]) == items[k - 1] && At(prev, items[k - 1]) == items[j - 1];
      }
    }
  }

  class LinkedList {
    var start: int
    var end: int
    var count: int
    var next: map<nat, int>
    var prev: map<nat, int>
    ghost var items: seq<nat>

    ghost predicate Valid()
      reads this
    {
      Chained(start, end, next, prev, items) && count == |items|
    }

    /** The link fields of a node that is not on a list. */
    ghost predicate Unlinked(x: nat)
      reads this
    {
      At(next, x) == Null && At(prev, x) == Null
    }

    constructor ()
      ensures Valid() && items == [] && forall x: nat :: Unlinked(x)
    {
      start, end, count := Null, Null, 0;
      next, prev := map[], map[];
      items := [];
    }

    /** Writing a new node over old memory clears its links. */
    method Clear(x: nat)
      requires Valid() && x !in items
      modifies this`next, this`prev
      ensures Valid() && Unlinked(x) && forall y: nat :: y != x && old(Unlinked(y)) ==> Unlinked(y)
    {
      next := next[x := Null];
      prev := prev[x := Null];
    }

    method InsertAtStart(x: nat)
      requires Valid() && x !in items && Unlinked(x)
      modifies this
      ensures Valid() && items == [x] + old(items)
      ensures forall y: nat :: y !in items && old(Unlinked(y)) ==> Unlinked(y)
    {
      count := count + 1;
      assert count > 0;
      items := [x] + items;
      if start == Null {
        start, end := x, x;
        return;
      }
      StartChained(start, end, next, prev, old(items), x);
      next := next[x := start];
      prev := prev[start := x];
      start := x;
    }

    method InsertAtEnd(x: nat)
      requires Valid() && x !in items && Unlinked(x)
      modifies this
      ensures Valid() && items == old(items) + [x]
      ensures forall y: nat :: y !in items && old(Unlinked(y)) ==> Unlinked(y)
    {
      count := count + 1;
      assert count > 0;
      items := items + [x];
      if end == Null {
        start, end := x, x;
        return;
      }
      next := next[end := x];
      prev := prev[x := end];
      end := x;
    }

    method InsertAfter(p: nat, x: nat)
      requires Valid() && p in items && x !in items
      modifies this
      ensures Valid() && items == WithAfter(old(items), p, x)
      ensures forall y: nat :: y !in items && old(Unlinked(y)) ==> Unlinked(y)
    {
      ghost var i: nat :| i < |items| && items[i] == p;
      Neighbours(start, end, next, prev, items, i);
      WithAfterAt(items, i, x);
      AfterChained(start, end, next, prev, items, i, x);
      count := count + 1;
      items := WithAfter(items, p, x);
      var n := At(next, p);
      next := next[p := x];
      if n != Null {
        prev := prev[n := x];
      }
      next := next[x := n];
      prev := prev[x := p];
      if end == p {
        end := x;
      }
    }

    method Remove(x: nat)
      requires Valid() && x in items
      modifies this
      ensures Valid() && items == Without(old(items), x) && Unlinked(x)
      ensures forall y: nat :: y !in items && old(Unlinked(y)) ==> Unlinked(y)
    {
      RemoveReady(start, end, next, prev, items, x);
      hide Chained, Without, At, Set;
      Unlink(x);
      items := Without(items, x);
    }

    /** What Remove does to the fields. */
    method Unlink(x: nat)
      requires count > 0 && -1 <= At(next, x) != x && -1 <= At(prev, x) != x
      modifies this
      ensures var n, p := old(At(next, x)), old(At(prev, x));
        && count == old(count) - 1 && items == old(items)
        && start == (if old(start) == x then n else old(start)) && end == (if old(end) == x then p else old(end))
        && next == Set(old(next), p, n)[x := Null] && prev == Set(old(prev), n, p)[x := Null]
    {
      count := count - 1;
      assert count >= 0;
      var n, p := At(next, x), At(prev, x);
      if start == x {
        start := n;
      }
      if end == x {
        end := p;
      }
      if n != Null {
        prev := prev[n := p];
      }
      if p != Null {
        next := next[p := n];
      }
      next := next[x := Null];
      prev := prev[x := Null];
    }

    /** Taking a slab off the list of slabs with free space first links its
        neighbours and then removes it, which does that again (RemoveFromFreeSlabList in
        rtsrc/SlabObjectAllocator.cpp). */
    method Detach(x: nat)
      requires Valid() && x in items
      modifies this
      ensures Valid() && items == Without(old(items), x) && Unlinked(x)
      ensures forall y: nat :: y !in items && old(Unlinked(y)) ==> Unlinked(y)
    {
      RemoveReady(start, end, next, prev, items, x);
      hide Chained, Without;
      LinkNeighbours(x);
      hide At, Set;
      Unlink(x);
      items := Without(items, x);
    }

    method LinkNeighbours(x: nat)
      requires -1 <= At(next, x) != x && -1 <= At(prev, x) != x
      modifies this`next, this`prev
      ensures var n, p := old(At(next, x)), old(At(prev, x));
        && At(next, x) == n && At(prev, x) == p
        && Set(next, p, n) == Set(old(next), p, n) && Set(prev, n, p) == Set(old(prev), n, p)
    {
      var n, p := At(next, x), At(prev, x);
      if n != Null {
        prev := prev[n := p];
      }
      if p != Null {
        next := next[p := n];
      }
    }
  }

  /** Everything that taking out x needs to know. */
  lemma RemoveReady(start: int, end: int, next: map<nat, int>, prev: map<nat, int>, items: seq<nat>, x: nat)
    requires Chained(start, end, next, prev, items) && x in items
    ensures -1 <= At(next, x) != x && -1 <= At(prev, x) != x && |Without(items, x)| == |items| - 1
    ensures var n, p := At(next, x), At(prev, x);
      var next', prev' := Set(next, p, n)[x := Null], Set(prev, n, p)[x := Null];
      && Chained(if start == x then n else start, if end == x then p else end, next', prev', Without(items, x))
      && At(next', x) == Null && At(prev', x) == Null
      && forall y: nat :: y !in Without(items, x) && (y != x ==> At(next, y) == Null && At(prev, y) == Null) ==>
           At(next', y) == Null && At(prev', y) == Null
  {
    var i :| 0 <= i < |items| && items[i] == x;
    Neighbours(start, end, next, prev, items, i);
    WithoutAt(items, i);
    WithoutChained(start, end, next, prev, items, i);
    OthersUnlinked(start, end, next, prev, items, i);
    OnlyOut(items, i);
  }
}
