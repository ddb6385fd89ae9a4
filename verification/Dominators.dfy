/** Dominators and dominance frontiers (lib/qbe-1.0/cfg.c), by the algorithm of
    Cooper, Harvey and Kennedy. Blocks are named by their reverse-postorder
    number, so that fn->rpo is the identity; the start block is block 0 and
    null is -1. */
module Dominators {
  import opened Finite

  // ----- Paths and dominance, independent of the algorithm -----

  /** The predecessor lists of each block. */
  type Preds = seq<seq<nat>>

  ghost predicate WellFormed(pred: Preds) {
    |pred| > 0 && forall b, j :: 0 <= b < |pred| && 0 <= j < |pred[b]| ==> pred[b][j] < |pred|
  }

  /** What fillrpo guarantees: every block but the first has a predecessor with a smaller number. */
  ghost predicate Numbered(pred: Preds) {
    WellFormed(pred) && forall b :: 0 < b < |pred| ==> HasLowerPred(pred, b)
  }

  ghost predicate HasLowerPred(pred: Preds, b: nat)
    requires b < |pred|
  {
    exists p :: p in pred[b] && p < b
  }

  lemma LowerPred(pred: Preds, b: nat) returns (u: nat)
    requires Numbered(pred) && 0 < b < |pred|
    ensures u in pred[b] && u < b
  {
    assert HasLowerPred(pred, b);
    u :| u in pred[b] && u < b;
  }

  /** A path from the start block. */
  ghost predicate Path(pred: Preds, p: seq<nat>) {
    && p != [] && p[0] == 0
    && (forall i :: 0 <= i < |p| ==> p[i] < |pred|)
    && (forall i, j :: 0 <= i < j < |p| && j == i + 1 ==> p[i] in pred[p[j]])
  }

  ghost predicate PathTo(pred: Preds, p: seq<nat>, b: nat) {
    Path(pred, p) && p[|p| - 1] == b
  }

  ghost predicate Dominates(pred: Preds, d: nat, b: nat) {
    forall p :: PathTo(pred, p, b) ==> d in p
  }

  /** The number of edges of a path that do not go to a higher number. */
  ghost function Retreats(p: seq<nat>): nat {
    if |p| < 2 then 0
    else Retreats(p[..|p| - 1]) + if p[|p| - 2] >= p[|p| - 1] then 1 else 0
  }

  ghost predicate Increasing(p: seq<nat>) {
    forall i, j :: 0 <= i < j < |p| ==> p[i] < p[j]
  }

  lemma {:induction false} PrefixRetreats(p: seq<nat>, j: nat)
    requires j <= |p|
    ensures Retreats(p[..j]) <= Retreats(p)
  {
    if j < |p| {
      var q := p[..|p| - 1];
      PrefixRetreats(q, j);
      assert q[..j] == p[..j];
    } else {
      assert p[..j] == p;
    }
  }

  lemma {:induction false} RetreatsBound(p: seq<nat>)
    requires p != []
    ensures Retreats(p) < |p|
  {
    if |p| > 1 {
      RetreatsBound(p[..|p| - 1]);
    }
  }

  lemma {:induction false} ForwardPath(pred: Preds, b: nat) returns (p: seq<nat>)
    requires Numbered(pred) && b < |pred|
    ensures PathTo(pred, p, b) && Retreats(p) == 0
    ensures Increasing(p)
  {
    if b == 0 {
      p := [0];
    } else {
      var u := LowerPred(pred, b);
      var q := ForwardPath(pred, u);
      p := q + [b];
      assert p[..|p| - 1] == q;
    }
  }

  /** If some path to b avoids x, a path without repeated blocks does. */
  lemma {:induction false} SimplePath(pred: Preds, p: seq<nat>, b: nat, x: nat) returns (q: seq<nat>)
    requires PathTo(pred, p, b) && x !in p
    ensures PathTo(pred, q, b) && x !in q && Distinct(q)
    decreases |p|
  {
    if Distinct(p) {
      return p;
    }
    var i, j :| 0 <= i < j < |p| && p[i] == p[j];
    var cut := p[..i] + p[j..];
    assert Path(pred, cut);
    q := SimplePath(pred, cut, b, x);
  }

  // ----- The tree that the algorithm keeps -----

  /** The immediate dominators found so far; -1 where there is none yet. */
  type Tree = seq<int>

  ghost predicate Upwards(idom: Tree) {
    idom != [] && idom[0] == -1 && forall b :: 0 < b < |idom| ==> -1 <= idom[b] < b
  }

  /** The ancestors of processed blocks are processed. */
  ghost predicate Rooted(idom: Tree) {
    Upwards(idom) && forall b :: 0 < b < |idom| && idom[b] >= 0 ==> Done(idom, idom[b])
  }

  predicate Done(idom: Tree, b: nat) {
    b == 0 || (b < |idom| && idom[b] >= 0)
  }

  /** The block and its ancestors. */
  ghost function Chain(idom: Tree, b: nat): (s: set<nat>)
    requires Upwards(idom) && b < |idom|
    ensures b in s && forall x :: x in s ==> x <= b
    decreases b
  {
    {b} + if idom[b] < 0 then {} else Chain(idom, idom[b])
  }

  lemma {:induction false} ChainDone(idom: Tree, b: nat, x: nat)
    requires Rooted(idom) && b < |idom| && Done(idom, b) && x in Chain(idom, b)
    ensures Done(idom, x) && Chain(idom, x) <= Chain(idom, b)
    decreases b
  {
    if x != b {
      ChainDone(idom, idom[b], x);
    }
  }

  /** x is an ancestor of every processed predecessor of b among the first j. */
  ghost predicate Common(pred: Preds, idom: Tree, b: nat, j: nat, x: nat)
    requires WellFormed(pred) && Upwards(idom) && |idom| == |pred| && b < |pred| && j <= |pred[b]|
  {
    forall i :: 0 <= i < j && Done(idom, pred[b][i]) ==> x in Chain(idom, pred[b][i])
  }

  /** The ancestors of b are on every path to b with fewer than k retreating edges. */
  ghost predicate Upper(pred: Preds, idom: Tree, b: nat, k: nat)
    requires Upwards(idom) && b < |idom|
  {
    forall p, x :: PathTo(pred, p, b) && Retreats(p) < k && x in Chain(idom, b) ==> x in p
  }

  /** Every dominator of b is an ancestor of b. */
  ghost predicate Lower(pred: Preds, idom: Tree, b: nat)
    requires Upwards(idom) && b < |idom|
  {
    forall d :: Dominates(pred, d, b) ==> d in Chain(idom, b)
  }

  /** The invariant of pass k (counted from 1) when it has handled the blocks below m. */
  ghost predicate Inv(pred: Preds, idom: Tree, k: nat, m: nat) {
    && Numbered(pred) && Upwards(idom) && |idom| == |pred| && k >= 1
    && forall b :: 0 <= b < |pred| ==>
         && (Done(idom, b) <==> b < m || b == 0 || k >= 2)
         && (Done(idom, b) ==> Upper(pred, idom, b, if b < m then k else k - 1) && Lower(pred, idom, b))
  }

  lemma {:induction false} ChainBelow(idom: Tree, m: nat, d: int, x: nat)
    requires x < m < |idom| && Upwards(idom) && Upwards(idom[m := d])
    ensures Chain(idom[m := d], x) == Chain(idom, x)
    decreases x
  {
    if idom[x] >= 0 {
      ChainBelow(idom, m, d, idom[x]);
    }
  }

  /** What one assignment b->idom = d does to the ancestors of a later block c. */
  lemma {:induction false} ChainAbove(idom: Tree, m: nat, d: nat, c: nat)
    requires d < m < c < |idom| && Upwards(idom) && Upwards(idom[m := d])
    ensures m !in Chain(idom, c) ==> Chain(idom[m := d], c) == Chain(idom, c)
    ensures forall x :: x in Chain(idom[m := d], c) ==>
      x in Chain(idom, c) || (m in Chain(idom, c) && x in Chain(idom[m := d], m))
    ensures m in Chain(idom, c) ==> forall x :: x in Chain(idom, c) ==>
      x in Chain(idom[m := d], c) || x < m
    ensures m in Chain(idom, c) ==> Chain(idom[m := d], m) <= Chain(idom[m := d], c)
    decreases c
  {
    var e := idom[c];
    if e > m {
      ChainAbove(idom, m, d, e);
    } else if 0 <= e < m {
      ChainBelow(idom, m, d, e);
    }
  }

  /** d is the deepest ancestor that the processed predecessors of m have in common. */
  ghost predicate Meets(pred: Preds, idom: Tree, m: nat, d: nat)
    requires WellFormed(pred) && Upwards(idom) && |idom| == |pred| && m < |pred|
  {
    d < |pred| && Done(idom, d) && forall x :: x in Chain(idom, d) <==> Common(pred, idom, m, |pred[m]|, x)
  }

  lemma MeetBelow(pred: Preds, idom: Tree, k: nat, m: nat, d: nat)
    requires Inv(pred, idom, k, m) && 0 < m < |pred| && Meets(pred, idom, m, d)
    ensures d < m && Upwards(idom[m := d])
    ensures Chain(idom[m := d], m) == {m} + Chain(idom, d)
  {
    var u := LowerPred(pred, m);
    assert Done(idom, u);
    assert Common(pred, idom, m, |pred[m]|, d);
    ChainBelow(idom, m, d, d);
  }

  lemma UpdateUpper(pred: Preds, idom: Tree, k: nat, m: nat, d: nat)
    requires Inv(pred, idom, k, m) && 0 < m < |pred| && Meets(pred, idom, m, d)
    requires d < m && Upwards(idom[m := d])
    ensures Upper(pred, idom[m := d], m, k)
  {
    MeetBelow(pred, idom, k, m, d);
    forall p, x | PathTo(pred, p, m) && Retreats(p) < k && x in Chain(idom[m := d], m)
      ensures x in p
    {
      if x != m {
        UpperAtLastEdge(pred, idom, k, m, d, p, x);
      }
    }
  }

  lemma LastEdge(pred: Preds, p: seq<nat>, m: nat) returns (q: seq<nat>, u: nat)
    requires WellFormed(pred) && PathTo(pred, p, m) && m > 0
    ensures u < |pred| && u in pred[m] && PathTo(pred, q, u)
    ensures Retreats(p) == Retreats(q) + if u >= m then 1 else 0
    ensures p == q + [m]
  {
    q := p[..|p| - 1];
    u := q[|q| - 1];
  }

  lemma UpperAtLastEdge(pred: Preds, idom: Tree, k: nat, m: nat, d: nat, p: seq<nat>, x: nat)
    requires Inv(pred, idom, k, m) && 0 < m < |pred| && Meets(pred, idom, m, d)
    requires PathTo(pred, p, m) && Retreats(p) < k && x in Chain(idom, d)
    ensures x in p
  {
    var q, u := LastEdge(pred, p, m);
    assert Common(pred, idom, m, |pred[m]|, x);
    assert x in Chain(idom, u);
    assert Upper(pred, idom, u, if u < m then k else k - 1);
    assert x in q;
  }

  lemma UpdateLower(pred: Preds, idom: Tree, k: nat, m: nat, d: nat)
    requires Inv(pred, idom, k, m) && 0 < m < |pred| && Meets(pred, idom, m, d)
    requires d < m && Upwards(idom[m := d])
    ensures Lower(pred, idom[m := d], m)
  {
    MeetBelow(pred, idom, k, m, d);
    forall x | Dominates(pred, x, m)
      ensures x in Chain(idom[m := d], m)
    {
      if x != m {
        forall u | u in pred[m] && Done(idom, u)
          ensures x in Chain(idom, u)
        {
          DominatesPred(pred, x, m, u);
          assert Lower(pred, idom, u);
        }
        assert Common(pred, idom, m, |pred[m]|, x);
      }
    }
  }

  /** A strict dominator of m dominates every predecessor of m. */
  lemma DominatesPred(pred: Preds, x: nat, m: nat, u: nat)
    requires WellFormed(pred) && m < |pred| && Dominates(pred, x, m) && x != m && u in pred[m]
    ensures Dominates(pred, x, u)
  {
    forall p | PathTo(pred, p, u)
      ensures x in p
    {
      assert PathTo(pred, p + [m], m);
    }
  }

  /** Later blocks keep the upper bound: a path to c goes through m, if m is an ancestor of c. */
  lemma UpdateUpperLater(pred: Preds, idom: Tree, k: nat, m: nat, d: nat, c: nat)
    requires Inv(pred, idom, k, m) && 0 < m < c < |pred| && Meets(pred, idom, m, d) && Done(idom, c)
    requires d < m && Upwards(idom[m := d])
    ensures Upper(pred, idom[m := d], c, k - 1)
  {
    UpdateUpper(pred, idom, k, m, d);
    ChainAbove(idom, m, d, c);
    assert Upper(pred, idom, c, k - 1);
    forall p, x | PathTo(pred, p, c) && Retreats(p) < k - 1 && x in Chain(idom[m := d], c)
      ensures x in p
    {
      if x !in Chain(idom, c) {
        UpperThrough(pred, idom[m := d], k, m, p, x);
      }
    }
  }

  lemma UpperThrough(pred: Preds, idom: Tree, k: nat, m: nat, p: seq<nat>, x: nat)
    requires Upwards(idom) && m < |idom| && Upper(pred, idom, m, k)
    requires Path(pred, p) && m in p && Retreats(p) < k && x in Chain(idom, m)
    ensures x in p
  {
    var j :| 0 <= j < |p| && p[j] == m;
    var q := p[..j + 1];
    PrefixRetreats(p, j + 1);
    assert Path(pred, q) && q[|q| - 1] == m;
    assert x in q;
  }

  /** Later blocks keep the lower bound: a dominator of c above m dominates m,
      since m is on every forward path to c. */
  lemma UpdateLowerLater(pred: Preds, idom: Tree, k: nat, m: nat, d: nat, c: nat)
    requires Inv(pred, idom, k, m) && 0 < m < c < |pred| && Meets(pred, idom, m, d) && Done(idom, c)
    requires d < m && Upwards(idom[m := d])
    ensures Lower(pred, idom[m := d], c)
  {
    UpdateLower(pred, idom, k, m, d);
    ChainAbove(idom, m, d, c);
    assert Lower(pred, idom, c) && Upper(pred, idom, c, k - 1);
    forall x: nat | Dominates(pred, x, c)
      ensures x in Chain(idom[m := d], c)
    {
      assert x in Chain(idom, c);
      if m in Chain(idom, c) && x < m {
        var f := ForwardPath(pred, c);
        assert m in f;
        var j :| 0 <= j < |f| && f[j] == m;
        forall q | PathTo(pred, q, m)
          ensures x in q
        {
          JoinPaths(pred, q, f, j, x);
        }
        assert x in Chain(idom[m := d], m);
      }
    }
  }

  lemma JoinPaths(pred: Preds, q: seq<nat>, f: seq<nat>, j: nat, x: nat)
    requires Path(pred, f) && j < |f| && PathTo(pred, q, f[j]) && x < f[j]
    requires Increasing(f)
    requires Dominates(pred, x, f[|f| - 1])
    ensures x in q
  {
    var p := q + f[j + 1..];
    assert PathTo(pred, p, f[|f| - 1]);
    assert x in p;
  }

  /** One step of the inner loop keeps the invariant. */
  lemma UpdateKeepsInv(pred: Preds, idom: Tree, k: nat, m: nat, d: nat)
    requires Inv(pred, idom, k, m) && 0 < m < |pred| && Meets(pred, idom, m, d)
    ensures d < m && Upwards(idom[m := d]) && Inv(pred, idom[m := d], k, m + 1)
  {
    MeetBelow(pred, idom, k, m, d);
    var idom' := idom[m := d];
    assert forall b :: 0 <= b < |pred| && b != m ==> Done(idom', b) == Done(idom, b);
    forall b | 0 <= b < |pred| && Done(idom', b)
      ensures Upper(pred, idom', b, if b < m + 1 then k else k - 1) && Lower(pred, idom', b)
    {
      if b < m {
        ChainBelow(idom, m, d, b);
        assert Upper(pred, idom, b, k) && Lower(pred, idom, b);
      } else if b == m {
        UpdateUpper(pred, idom, k, m, d);
        UpdateLower(pred, idom, k, m, d);
      } else {
        UpdateUpperLater(pred, idom, k, m, d, b);
        UpdateLowerLater(pred, idom, k, m, d, b);
      }
    }
  }

  /** The ancestors of each block are exactly its dominators. */
  ghost predicate Exact(pred: Preds, idom: Tree) {
    Rooted(idom) && |idom| == |pred| && (forall b :: 0 < b < |idom| ==> idom[b] >= 0) &&
    forall b, x :: 0 <= b < |pred| ==> (x in Chain(idom, b) <==> Dominates(pred, x, b))
  }

  lemma InvRooted(pred: Preds, idom: Tree, k: nat, m: nat)
    requires Inv(pred, idom, k, m)
    ensures Rooted(idom)
  {
    forall b | 0 < b < |idom| && idom[b] >= 0
      ensures Done(idom, idom[b])
    {
      assert Done(idom, b);
    }
  }

  lemma StartInv(pred: Preds, idom: Tree)
    requires Numbered(pred) && |idom| == |pred| && forall b :: 0 <= b < |idom| ==> idom[b] == -1
    ensures Inv(pred, idom, 1, 1)
  {
    OnlyStart(pred, idom, 1);
  }

  lemma OnlyStart(pred: Preds, idom: Tree, k: nat)
    requires WellFormed(pred) && Upwards(idom)
    ensures Upper(pred, idom, 0, k) && Lower(pred, idom, 0)
  {
    forall d | Dominates(pred, d, 0)
      ensures d in Chain(idom, 0)
    {
      assert PathTo(pred, [0], 0);
    }
  }

  lemma NextPass(pred: Preds, idom: Tree, k: nat)
    requires Inv(pred, idom, k, |pred|)
    ensures Inv(pred, idom, k + 1, 1)
  {
    OnlyStart(pred, idom, k + 1);
  }

  /** After as many passes as there are blocks the tree is exact. */
  lemma EnoughPasses(pred: Preds, idom: Tree, k: nat)
    requires Inv(pred, idom, k + 1, 1) && k >= |pred|
    ensures Exact(pred, idom)
  {
    InvRooted(pred, idom, k + 1, 1);
    forall b: nat | b < |pred|
      ensures b > 0 ==> idom[b] >= 0
      ensures forall x :: x in Chain(idom, b) <==> Dominates(pred, x, b)
    {
      assert Done(idom, b);
      OnlyStart(pred, idom, k);
      assert Upper(pred, idom, b, k) && Lower(pred, idom, b);
      forall x | x in Chain(idom, b)
        ensures Dominates(pred, x, b)
      {
        forall p | PathTo(pred, p, b)
          ensures x in p
        {
          ShortEnough(pred, idom, k, b, p, x);
        }
      }
    }
  }

  lemma ShortEnough(pred: Preds, idom: Tree, k: nat, b: nat, p: seq<nat>, x: nat)
    requires Upwards(idom) && b < |idom| && Upper(pred, idom, b, k) && k >= |pred|
    requires PathTo(pred, p, b) && x in Chain(idom, b)
    ensures x in p
  {
    if x !in p {
      var q := SimplePath(pred, p, b, x);
      Pigeonhole(q, Below(|pred|));
      RetreatsBound(q);
    }
  }

  /** A tree that a whole pass leaves alone is exact. */
  lemma FixpointExact(pred: Preds, idom: Tree, k: nat)
    requires Inv(pred, idom, k, |pred|)
    requires forall b :: 0 < b < |pred| ==> idom[b] >= 0 && Meets(pred, idom, b, idom[b])
    ensures Exact(pred, idom)
  {
    InvRooted(pred, idom, k, |pred|);
    forall b: nat | b < |pred|
      ensures forall x :: x in Chain(idom, b) <==> Dominates(pred, x, b)
    {
      assert Done(idom, b);
      assert Lower(pred, idom, b);
      forall x | x in Chain(idom, b)
        ensures Dominates(pred, x, b)
      {
        forall p | PathTo(pred, p, b)
          ensures x in p
        {
          OnEveryPath(pred, idom, p, b, x);
        }
      }
    }
  }

  lemma {:induction false} OnEveryPath(pred: Preds, idom: Tree, p: seq<nat>, b: nat, x: nat)
    requires WellFormed(pred) && Upwards(idom) && |idom| == |pred| && b < |pred|
    requires forall b :: 0 < b < |pred| ==> idom[b] >= 0 && Meets(pred, idom, b, idom[b])
    requires PathTo(pred, p, b) && x in Chain(idom, b)
    ensures x in p
    decreases |p|
  {
    if x != b {
      var q, u := LastEdge(pred, p, b);
      assert Meets(pred, idom, b, idom[b]);
      assert Common(pred, idom, b, |pred[b]|, x);
      assert Done(idom, u);
      OnEveryPath(pred, idom, q, u, x);
    }
  }

  /** An exact tree is not changed any more. */
  lemma ExactStays(pred: Preds, idom: Tree, m: nat, d: nat)
    requires Numbered(pred) && Exact(pred, idom) && 0 < m < |pred| && Meets(pred, idom, m, d)
    ensures d == idom[m]
  {
    var e := idom[m];
    var f := LowerPred(pred, m);
    assert Done(idom, f);
    // the common ancestor dominates m
    assert Common(pred, idom, m, |pred[m]|, d);
    assert d in Chain(idom, f);
    forall p | PathTo(pred, p, m)
      ensures d in p
    {
      var q, u := LastEdge(pred, p, m);
      assert Done(idom, u);
      assert Dominates(pred, d, u);
    }
    assert Dominates(pred, d, m);
    assert d in Chain(idom, m) && d in Chain(idom, e);
    // the immediate dominator is common to all predecessors
    assert Dominates(pred, e, m) by {
      assert e in Chain(idom, m);
    }
    forall i | 0 <= i < |pred[m]|
      ensures e in Chain(idom, pred[m][i])
    {
      DominatesPred(pred, e, m, pred[m][i]);
    }
    assert Common(pred, idom, m, |pred[m]|, e);
  }

  /** d stands for what the first j predecessors of b have in common; -1 while none is processed. */
  ghost predicate MeetsFirst(pred: Preds, idom: Tree, b: nat, j: nat, d: int)
    requires WellFormed(pred) && Upwards(idom) && |idom| == |pred| && b < |pred| && j <= |pred[b]|
  {
    if d < 0 then d == -1 && forall i :: 0 <= i < j ==> !Done(idom, pred[b][i])
    else d < |pred| && Done(idom, d) && forall x :: x in Chain(idom, d) <==> Common(pred, idom, b, j, x)
  }

  lemma MeetNext(pred: Preds, idom: Tree, b: nat, j: nat, d: int, d': nat)
    requires WellFormed(pred) && Upwards(idom) && |idom| == |pred| && b < |pred| && j < |pred[b]|
    requires MeetsFirst(pred, idom, b, j, d) && Done(idom, pred[b][j])
    requires d' < |pred| && Done(idom, d')
    requires Chain(idom, d') == if d < 0 then Chain(idom, pred[b][j]) else Chain(idom, d) * Chain(idom, pred[b][j])
    ensures MeetsFirst(pred, idom, b, j + 1, d')
  {
    forall x
      ensures x in Chain(idom, d') <==> Common(pred, idom, b, j + 1, x)
    {
      if d >= 0 {
        assert x in Chain(idom, d) <==> Common(pred, idom, b, j, x);
      }
    }
  }

  lemma SkipUnprocessed(pred: Preds, idom: Tree, b: nat, j: nat, d: int)
    requires WellFormed(pred) && Upwards(idom) && |idom| == |pred| && b < |pred| && j < |pred[b]|
    requires MeetsFirst(pred, idom, b, j, d) && !Done(idom, pred[b][j])
    ensures MeetsFirst(pred, idom, b, j + 1, d)
  {
    forall x
      ensures Common(pred, idom, b, j, x) <==> Common(pred, idom, b, j + 1, x)
    {
    }
  }

  ghost predicate Strictly(pred: Preds, a: nat, b: nat) {
    a != b && Dominates(pred, a, b)
  }

  /** The edge from b to s leaves the part of the graph that x dominates. */
  ghost predicate OnFrontier(pred: Preds, x: nat, b: nat, s: nat) {
    Dominates(pred, x, b) && !Strictly(pred, x, s)
  }

  /** y is on the dominance frontier of x because of one of the first m blocks. */
  ghost predicate InFrontier(pred: Preds, x: nat, m: nat, y: nat) {
    y < |pred| && exists b: nat :: b < m && b in pred[y] && OnFrontier(pred, x, b, y)
  }

  ghost predicate FrontiersUpTo(pred: Preds, fron: seq<seq<nat>>, m: nat) {
    forall x :: 0 <= x < |fron| ==>
      Distinct(fron[x]) && forall y :: y in fron[x] <==> InFrontier(pred, x, m, y)
  }

  function AddOnce(l: seq<nat>, b: nat): seq<nat> {
    if b in l then l else l + [b]
  }

  ghost predicate EdgeAdded(pred: Preds, f: seq<seq<nat>>, f': seq<seq<nat>>, b: nat, s: int) {
    |f| == |f'| && forall x :: 0 <= x < |f| ==>
      f'[x] == if s >= 0 && OnFrontier(pred, x, b, s) then AddOnce(f[x], s) else f[x]
  }

  /** One block more: what its edges add. */
  lemma FrontierNext(pred: Preds, x: nat, b: nat, y: nat)
    ensures InFrontier(pred, x, b + 1, y) <==>
      InFrontier(pred, x, b, y) || (y < |pred| && b in pred[y] && OnFrontier(pred, x, b, y))
  {
    hide OnFrontier;
    if InFrontier(pred, x, b + 1, y) {
      var c: nat :| c < b + 1 && c in pred[y] && OnFrontier(pred, x, c, y);
      assert c < b || c == b;
    }
  }

  lemma AddedMembers(l: seq<nat>, s: nat)
    ensures forall y :: y in AddOnce(l, s) <==> y in l || y == s
    ensures Distinct(l) ==> Distinct(AddOnce(l, s))
  {
  }

  /** What one edge adds to the frontier of x. */
  lemma EdgeMembers(pred: Preds, f: seq<seq<nat>>, f': seq<seq<nat>>, b: nat, s: int, x: nat)
    requires EdgeAdded(pred, f, f', b, s) && x < |f|
    ensures Distinct(f[x]) ==> Distinct(f'[x])
    ensures forall y :: y in f'[x] <==> y in f[x] || (y == s && OnFrontier(pred, x, b, y))
  {
    hide OnFrontier;
    if s >= 0 {
      AddedMembers(f[x], s);
    }
  }

  lemma EdgesDone(pred: Preds, s1: int, s2: int, f: seq<seq<nat>>, f': seq<seq<nat>>, f'': seq<seq<nat>>, b: nat)
    requires FrontiersUpTo(pred, f, b) && s1 < |pred| && s2 < |pred|
    requires forall y :: 0 <= y < |pred| ==> (b in pred[y] <==> s1 == y || s2 == y)
    requires EdgeAdded(pred, f, f', b, s1) && EdgeAdded(pred, f', f'', b, s2)
    ensures FrontiersUpTo(pred, f'', b + 1)
  {
    hide OnFrontier, InFrontier, AddOnce, EdgeAdded;
    EdgesSize(pred, f, f', f'', b, s1, s2);
    forall x: nat | x < |f''|
      ensures Distinct(f''[x]) && forall y: nat :: y in f''[x] <==> InFrontier(pred, x, b + 1, y)
    {
      EdgeMembers(pred, f, f', b, s1, x);
      EdgeMembers(pred, f', f'', b, s2, x);
      forall y: nat
        ensures y in f''[x] <==> InFrontier(pred, x, b + 1, y)
      {
        FrontierNext(pred, x, b, y);
        assert y in f[x] <==> InFrontier(pred, x, b, y);
      }
    }
  }

  lemma EdgesSize(pred: Preds, f: seq<seq<nat>>, f': seq<seq<nat>>, f'': seq<seq<nat>>, b: nat, s1: int, s2: int)
    requires EdgeAdded(pred, f, f', b, s1) && EdgeAdded(pred, f', f'', b, s2)
    ensures |f| == |f'| == |f''|
  {
  }

  /** The walk over the dominators of b goes on while they do not strictly dominate s. */
  lemma Climb(pred: Preds, idom: Tree, b: nat, a: nat, s: nat)
    requires Numbered(pred) && Exact(pred, idom) && b < |pred| && 0 < s < |pred|
    requires a in Chain(idom, b) && !Strictly(pred, a, s)
    ensures 0 <= idom[a] < a && idom[a] in Chain(idom, b) && OnFrontier(pred, a, b, s)
    ensures forall x :: idom[a] < x < a ==> !OnFrontier(pred, x, b, s)
  {
    ZeroDominates(pred, s);
    ChainDone(idom, b, a);
    forall x | idom[a] < x < a
      ensures x !in Chain(idom, b)
    {
      if x in Chain(idom, b) {
        Between(idom, b, a, x);
      }
    }
  }

  lemma {:induction false} Between(idom: Tree, b: nat, a: nat, x: nat)
    requires Upwards(idom) && b < |idom| && a in Chain(idom, b) && x in Chain(idom, b) && x < a
    ensures x <= idom[a]
    decreases b
  {
    if a != b {
      Between(idom, idom[b], a, x);
    }
  }

  /** No block above b dominates b. */
  lemma StartClimb(pred: Preds, idom: Tree, b: nat, s: nat)
    requires Exact(pred, idom) && b < |pred|
    ensures Upwards(idom) && b in Chain(idom, b)
    ensures forall x :: b < x ==> !OnFrontier(pred, x, b, s)
  {
    forall x | b < x
      ensures !Dominates(pred, x, b)
    {
      assert x !in Chain(idom, b);
    }
  }

  /** Where the walk stops, every further dominator of b strictly dominates s. */
  lemma Above(pred: Preds, idom: Tree, b: nat, a: nat, s: nat)
    requires Exact(pred, idom) && b < |pred| && s < |pred| && a in Chain(idom, b) && Strictly(pred, a, s)
    ensures forall x :: 0 <= x <= a ==> !OnFrontier(pred, x, b, s)
  {
    forall x: nat | x < a && Dominates(pred, x, b)
      ensures Strictly(pred, x, s)
    {
      assert x in Chain(idom, b);
      Reaches(idom, b, a, x);
      Transitive(pred, idom, x, a, s);
    }
  }

  lemma {:induction false} Reaches(idom: Tree, b: nat, a: nat, x: nat)
    requires Upwards(idom) && b < |idom| && a in Chain(idom, b) && x in Chain(idom, b) && x <= a
    ensures x in Chain(idom, a)
    decreases b
  {
    if a != b {
      Reaches(idom, idom[b], a, x);
    }
  }

  lemma ZeroDominates(pred: Preds, b: nat)
    ensures Dominates(pred, 0, b)
  {
  }

  lemma Transitive(pred: Preds, idom: Tree, x: nat, a: nat, s: nat)
    requires Exact(pred, idom) && a < |pred| && s < |pred|
    requires x in Chain(idom, a) && Strictly(pred, a, s)
    ensures Strictly(pred, x, s)
  {
    assert a in Chain(idom, s) && a < s;
    ChainDone(idom, s, a);
  }

  class Fn {
    var nblk: nat
    var s1: array<int>
    var s2: array<int>
    var pred: array<seq<nat>>
    var idom: array<int>
    var fron: array<seq<nat>>

    /** Blocks with these successors and predecessors, all by number. */
    constructor (succ1: array<int>, succ2: array<int>, preds: array<seq<nat>>)
      requires succ1 != succ2 && Numbered(preds[..]) && preds.Length == succ1.Length == succ2.Length
      ensures Valid() && nblk == preds.Length && pred == preds && s1 == succ1 && s2 == succ2
      ensures fresh(idom) && fresh(fron) && fron.Length == nblk && fron != pred
    {
      nblk := preds.Length;
      s1, s2, pred := succ1, succ2, preds;
      idom := new int[preds.Length];
      fron := new seq<nat>[preds.Length](_ => []);
    }

    /** The predecessors belong to the successors, no edge enters the start block
        (the parser refuses that), and the dominators have been computed. */
    ghost predicate Frontiers()
      reads this, pred, idom, s1, s2
    {
      && Valid() && Exact(pred[..], idom[..])
      && s1.Length == s2.Length == fron.Length == nblk
      && s1 != s2 && s1 != idom && s2 != idom && pred != fron
      && (forall b :: 0 <= b < nblk ==> s1[b] < nblk && s2[b] < nblk && s1[b] != 0 && s2[b] != 0)
      && (forall b, y :: 0 <= b < nblk && 0 <= y < nblk ==> (b in pred[y] <==> s1[b] == y || s2[b] == y))
    }

    ghost predicate Valid()
      reads this, pred
    {
      nblk > 0 && pred.Length == nblk && idom.Length == nblk && pred as object != idom && Numbered(pred[..])
    }

    /** The deepest common ancestor; b1 may be null. */
    method Inter(b1: int, b2: nat) returns (d: nat)
      requires Valid() && Rooted(idom[..])
      requires -1 <= b1 < nblk && b2 < nblk && Done(idom[..], b2) && (b1 >= 0 ==> Done(idom[..], b1))
      ensures d < nblk && Done(idom[..], d)
      ensures Chain(idom[..], d) ==
        if b1 < 0 then Chain(idom[..], b2) else Chain(idom[..], b1) * Chain(idom[..], b2)
    {
      if b1 == -1 {
        return b2;
      }
      ghost var t := idom[..];
      var x, y := b1, b2;
      while x != y
        invariant 0 <= x < nblk && 0 <= y < nblk && Done(t, x) && Done(t, y)
        invariant Chain(t, x) * Chain(t, y) == Chain(t, b1) * Chain(t, b2)
        decreases x + y
      {
        if x < y {
          x, y := y, x;
        }
        ghost var sum, x0 := x + y, x;
        while x > y
          invariant 0 <= x < nblk && Done(t, x)
          invariant Chain(t, x) * Chain(t, y) == Chain(t, b1) * Chain(t, b2)
          invariant x + y <= sum && (x == x0 || x + y < sum)
          decreases x
        {
          x := idom[x];
        }
      }
      d := x;
    }

    /** Fills in the immediate dominators: afterwards the ancestors of every
        block are exactly its dominators, whatever the shape of the graph. */
    method FillDom()
      requires Valid()
      modifies idom
      ensures Valid() && Exact(pred[..], idom[..])
    {
      var b := 0;
      while b < nblk
        invariant 0 <= b <= nblk
        invariant forall x :: 0 <= x < b ==> idom[x] == -1
      {
        idom[b] := -1;
        b := b + 1;
      }
      StartInv(pred[..], idom[..]);
      var ch := 1;
      ghost var k := 1;
      while ch != 0
        invariant k >= 1 && Inv(pred[..], idom[..], k, 1)
        invariant ch != 0 ==> k <= nblk + 1
        invariant ch == 0 ==> Exact(pred[..], idom[..])
        decreases nblk + 2 - k, ch != 0
      {
        ch := Pass(k);
        NextPass(pred[..], idom[..], k);
        k := k + 1;
      }
    }

    /** The k-th pass over all blocks; ch counts the changes. No change is
        made once there have been as many passes as blocks. */
    method Pass(ghost k: nat) returns (ch: nat)
      requires Valid() && Inv(pred[..], idom[..], k, 1)
      modifies idom
      ensures Valid() && Inv(pred[..], idom[..], k, nblk)
      ensures k > nblk ==> ch == 0
      ensures ch == 0 ==> Exact(pred[..], idom[..])
    {
      ghost var ps, t := pred[..], idom[..];
      if k > nblk {
        EnoughPasses(ps, t, k - 1);
      }
      ch := 0;
      var n := 1;
      while n < nblk
        invariant 1 <= n <= nblk
        invariant Inv(ps, idom[..], k, n)
        invariant k > nblk ==> ch == 0
        invariant ch == 0 ==> idom[..] == t
        invariant ch == 0 ==> forall x :: 0 < x < n ==> t[x] >= 0 && Meets(ps, t, x, t[x])
      {
        ghost var t' := idom[..];
        var d := MeetOfPreds(n, k);
        UpdateKeepsInv(ps, t', k, n, d);
        if d != idom[n] {
          if k > nblk {
            ExactStays(ps, t', n, d);
          }
          ch := ch + 1;
          idom[n] := d;
        }
        assert idom[..] == t'[n := d];
        n := n + 1;
      }
      if ch == 0 {
        FixpointExact(ps, idom[..], k);
      }
    }

    method MeetOfPreds(n: nat, ghost k: nat) returns (d: int)
      requires Valid() && 0 < n < nblk && Inv(pred[..], idom[..], k, n)
      ensures 0 <= d && Meets(pred[..], idom[..], n, d)
    {
      ghost var ps, t := pred[..], idom[..];
      InvRooted(ps, t, k, n);
      d := -1;
      var p := 0;
      while p < |pred[n]|
        invariant 0 <= p <= |pred[n]| && -1 <= d < nblk
        invariant MeetsFirst(ps, t, n, p, d)
      {
        var u := pred[n][p];
        assert u == ps[n][p] < nblk;
        if idom[u] >= 0 || u == 0 {
          var d' := Inter(d, u);
          MeetNext(ps, t, n, p, d, d');
          d := d';
        } else {
          SkipUnprocessed(ps, t, n, p, d);
        }
        p := p + 1;
      }
      ghost var f := LowerPred(ps, n);
      assert Done(t, f);
    }

    /** Whether b1 strictly dominates b2. */
    method Sdom(b1: nat, b2: nat) returns (r: bool)
      requires Valid() && Exact(pred[..], idom[..]) && b1 < nblk && b2 < nblk
      ensures r <==> b1 != b2 && Dominates(pred[..], b1, b2)
    {
      if b1 == b2 {
        return false;
      }
      var b := b2;
      while b > b1
        invariant 0 <= b < nblk
        invariant b1 in Chain(idom[..], b2) <==> b1 in Chain(idom[..], b)
        decreases b
      {
        b := idom[b];
      }
      return b1 == b;
    }

    /** Adds b to the frontier of a, once. */
    method AddFron(a: nat, b: nat)
      requires a < fron.Length
      modifies fron
      ensures fron[..] == old(fron[..])[a := AddOnce(old(fron[a]), b)]
    {
      var n := 0;
      while n < |fron[a]|
        invariant 0 <= n <= |fron[a]|
        invariant forall x :: 0 <= x < n ==> fron[a][x] != b
      {
        if fron[a][n] == b {
          return;
        }
        n := n + 1;
      }
      fron[a] := fron[a] + [b];
    }

    /** Handles the edge from b to s: s joins the frontier of every dominator
        of b that does not strictly dominate s. */
    method FronOfEdge(b: nat, s: nat)
      requires Frontiers() && b < nblk && 0 < s < nblk
      modifies fron
      ensures EdgeAdded(pred[..], old(fron[..]), fron[..], b, s)
    {
      hide Exact, Numbered, Dominates, OnFrontier;
      ghost var ps, t := pred[..], idom[..];
      StartClimb(ps, t, b, s);
      var a := b;
      var dominates := Sdom(a, s);
      while !dominates
        invariant 0 <= a < nblk && a in Chain(t, b)
        invariant dominates <==> Strictly(ps, a, s)
        invariant forall x :: a < x < nblk && OnFrontier(ps, x, b, s) ==> fron[x] == AddOnce(old(fron[x]), s)
        invariant forall x :: 0 <= x < nblk && (x <= a || !OnFrontier(ps, x, b, s)) ==> fron[x] == old(fron[x])
        decreases a
      {
        Climb(ps, t, b, a, s);
        AddFron(a, s);
        a := idom[a];
        dominates := Sdom(a, s);
      }
      Above(ps, t, b, a, s);
    }

    method FillFron()
      requires Frontiers()
      modifies fron
      ensures forall x :: 0 <= x < nblk ==> Distinct(fron[x])
      ensures forall x, y :: 0 <= x < nblk ==> (y in fron[x] <==> InFrontier(pred[..], x, nblk, y))
    {
      hide Exact, Numbered, OnFrontier;
      ghost var ps := pred[..];
      var b := 0;
      while b < nblk
        invariant 0 <= b <= nblk
        invariant forall x :: 0 <= x < b ==> fron[x] == []
      {
        fron[b] := [];
        b := b + 1;
      }
      b := 0;
      while b < nblk
        invariant 0 <= b <= nblk
        invariant FrontiersUpTo(ps, fron[..], b)
      {
        ghost var f := fron[..];
        if s1[b] >= 0 {
          FronOfEdge(b, s1[b]);
        }
        ghost var f' := fron[..];
        if s2[b] >= 0 {
          FronOfEdge(b, s2[b]);
        }
        EdgesDone(ps, s1[b], s2[b], f, f', fron[..], b);
        b := b + 1;
      }
    }
  }
}
