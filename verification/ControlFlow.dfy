/** The passes over the control flow graph together (lib/qbe-1.0/cfg.c): numbering,
    predecessor lists, dominators and frontiers, in terms of the original blocks. */
module ControlFlow {
  import opened Finite
  import opened ReversePostorder
  import Dominators

  // ----- In the original graph -----

  /** Every walk from the start block to b goes through a. */
  ghost predicate OnEveryWalk(g: Graph, a: nat, b: nat) {
    forall p :: Walk(g, p) && p[0] == 0 && p[|p| - 1] == b ==> a in p
  }

  ghost predicate Strictly(g: Graph, a: nat, b: nat) {
    a != b && OnEveryWalk(g, a, b)
  }

  /** Block a is on every walk to a reachable predecessor of y, but not strictly so for y. */
  ghost predicate OnFrontier(g: Graph, a: nat, y: nat) {
    exists b: nat :: Reaches(g, 0, b) && Edge(g, b, y) && OnEveryWalk(g, a, b) && !Strictly(g, a, y)
  }

  // ----- Predecessor lists -----

  /** The lists of the numbered blocks, by number: each predecessor once. */
  ghost predicate PredsOf(g: Graph, rpo: seq<nat>, pred: Dominators.Preds) {
    PredsUpTo(g, rpo, pred, |g.s1|)
  }

  /** The same for the predecessors among the first n blocks of the list. */
  ghost predicate PredsUpTo(g: Graph, rpo: seq<nat>, pred: Dominators.Preds, n: nat) {
    && |pred| == |rpo| && (forall i :: 0 <= i < |pred| ==> Distinct(pred[i]))
    && forall i: nat, j: nat {:trigger j in pred[i]} {:trigger Edge(g, rpo[j], rpo[i])} :: i < |pred| ==>
         (j in pred[i] <==> j < |rpo| && rpo[j] < n && Edge(g, rpo[j], rpo[i]))
  }

  lemma FurtherReached(g: Graph, u: nat, v: nat)
    requires Reaches(g, 0, u) && Edge(g, u, v)
    ensures Reaches(g, 0, v)
  {
    var p :| Walk(g, p) && p[0] == 0 && p[|p| - 1] == u;
    OnTop(g, p, v);
    var q := p + [v];
    assert v < |g.s1| ==> Walk(g, q);
    forall i, j | 0 <= i < j < |q| && j == i + 1
      ensures Edge(g, q[i], q[j])
    {
      assert j < |p| ==> Edge(g, p[i], p[j]);
    }
    assert Walk(g, q);
  }

  lemma SuccNumbered(g: Graph, id: seq<int>, rpo: seq<nat>, u: nat, v: int)
    requires Numbering(g, id, rpo) && u < |id| && id[u] >= 0 && v != -1 && (v == g.s1[u] || v == g.s2[u])
    ensures 0 <= v < |id| && 0 <= id[v] < |rpo| && rpo[id[v]] == v && 0 <= id[u] < |rpo| && rpo[id[u]] == u
  {
    FurtherReached(g, u, v);
  }

  /** A block that is not numbered is nobody's predecessor. */
  lemma SkipBlock(g: Graph, id: seq<int>, rpo: seq<nat>, pred: Dominators.Preds, b: nat)
    requires Numbering(g, id, rpo) && PredsUpTo(g, rpo, pred, b) && b < |id| && id[b] == -1
    ensures PredsUpTo(g, rpo, pred, b + 1)
  {
    assert forall j :: 0 <= j < |rpo| ==> rpo[j] != b;
  }

  /** Block b joins the lists of its successors. */
  lemma TakeBlock(g: Graph, id: seq<int>, rpo: seq<nat>, pred: Dominators.Preds, pred': Dominators.Preds, b: nat)
    requires Numbering(g, id, rpo) && PredsUpTo(g, rpo, pred, b) && b < |id| && 0 <= id[b] && |pred'| == |pred|
    requires forall i :: 0 <= i < |pred| ==> pred'[i] == if Edge(g, b, rpo[i]) then pred[i] + [id[b] as nat] else pred[i]
    ensures PredsUpTo(g, rpo, pred', b + 1)
  {
    assert forall j :: 0 <= j < |rpo| ==> (rpo[j] == b <==> j == id[b]);
    forall i, j: nat | 0 <= i < |pred'|
      ensures j in pred'[i] <==> j < |rpo| && rpo[j] < b + 1 && Edge(g, rpo[j], rpo[i])
    {
      assert j in pred[i] <==> j < |rpo| && rpo[j] < b && Edge(g, rpo[j], rpo[i]);
    }
  }

  lemma PredInside(g: Graph, rpo: seq<nat>, pred: Dominators.Preds, i: nat, j: nat)
    requires PredsUpTo(g, rpo, pred, |g.s1|) && i < |pred| && j in pred[i]
    ensures j < |rpo|
  {
  }

  lemma PredsWellFormed(g: Graph, id: seq<int>, rpo: seq<nat>, pred: Dominators.Preds)
    requires Numbering(g, id, rpo) && PredsOf(g, rpo, pred)
    ensures Dominators.Numbered(pred)
    ensures forall i, j: nat :: 0 <= i < |rpo| && j < |rpo| ==> (j in pred[i] <==> Edge(g, rpo[j], rpo[i]))
  {
    forall i: nat, k: nat | i < |pred| && k < |pred[i]|
      ensures pred[i][k] < |pred|
    {
      PredInside(g, rpo, pred, i, pred[i][k]);
    }
    NumberedForDominators(g, id, rpo, pred);
  }

  // ----- Paths by number and walks -----

  lemma PrefixReached(g: Graph, p: seq<nat>, i: nat)
    requires Walk(g, p) && p[0] == 0 && i < |p|
    ensures Reaches(g, 0, p[i])
  {
    var q := p[..i + 1];
    assert Walk(g, q) && q[|q| - 1] == p[i];
  }

  /** A walk from the start block, by number, is a path. */
  lemma WalkIsPath(g: Graph, id: seq<int>, rpo: seq<nat>, pred: Dominators.Preds, p: seq<nat>) returns (q: seq<nat>)
    requires Numbering(g, id, rpo) && PredsOf(g, rpo, pred) && Walk(g, p) && p[0] == 0
    ensures |q| == |p| && Dominators.Path(pred, q)
    ensures forall i :: 0 <= i < |p| ==> p[i] < |id| && q[i] == id[p[i]] && q[i] < |rpo| && rpo[q[i]] == p[i]
  {
    forall i | 0 <= i < |p|
      ensures p[i] < |id| && 0 <= id[p[i]] < |rpo| && rpo[id[p[i]]] == p[i]
    {
      PrefixReached(g, p, i);
      assert i > 0 ==> Edge(g, p[i - 1], p[i]);
    }
    q := seq(|p|, i requires 0 <= i < |p| => id[p[i]] as nat);
    forall i, j | 0 <= i < j < |q| && j == i + 1
      ensures q[i] in pred[q[j]]
    {
      assert Edge(g, p[i], p[j]);
    }
  }

  lemma PathIsWalk(g: Graph, id: seq<int>, rpo: seq<nat>, pred: Dominators.Preds, q: seq<nat>) returns (p: seq<nat>)
    requires Numbering(g, id, rpo) && PredsOf(g, rpo, pred) && Dominators.Path(pred, q)
    ensures |p| == |q| && Walk(g, p) && p[0] == 0
    ensures forall i :: 0 <= i < |q| ==> q[i] < |rpo| && p[i] == rpo[q[i]]
  {
    p := seq(|q|, i requires 0 <= i < |q| => rpo[q[i]]);
    forall i, j | 0 <= i < j < |p| && j == i + 1
      ensures Edge(g, p[i], p[j])
    {
      assert q[i] in pred[q[j]];
    }
  }

  /** Dominance of the numbers is dominance of the blocks. */
  lemma SameDominance(g: Graph, id: seq<int>, rpo: seq<nat>, pred: Dominators.Preds, a: nat, b: nat)
    requires Numbering(g, id, rpo) && PredsOf(g, rpo, pred) && a < |rpo| && b < |rpo|
    ensures Dominators.Dominates(pred, a, b) <==> OnEveryWalk(g, rpo[a], rpo[b])
  {
    if Dominators.Dominates(pred, a, b) {
      forall p | Walk(g, p) && p[0] == 0 && p[|p| - 1] == rpo[b]
        ensures rpo[a] in p
      {
        var q := WalkIsPath(g, id, rpo, pred, p);
        assert Dominators.PathTo(pred, q, b);
        var i :| 0 <= i < |q| && q[i] == a;
        assert p[i] == rpo[a];
      }
    }
    if OnEveryWalk(g, rpo[a], rpo[b]) {
      forall q | Dominators.PathTo(pred, q, b)
        ensures a in q
      {
        var p := PathIsWalk(g, id, rpo, pred, q);
        var i :| 0 <= i < |p| && p[i] == rpo[a];
        assert id[rpo[q[i]]] == q[i] && id[rpo[a]] == a;
      }
    }
  }

  // ----- The code -----

  /** Fills in the predecessors of all numbered blocks, by number (fillpreds). The others have been unlinked. */
  method FillPreds(f: Fn) returns (pred: array<seq<nat>>)
    requires f.Valid() && f.nblk == f.rpo.Length && Numbering(f.G(), f.id[..], f.rpo[..])
    ensures fresh(pred) && PredsOf(f.G(), f.rpo[..], pred[..])
  {
    hide Numbering, PredsUpTo;
    ghost var g, id, rpo := f.G(), f.id[..], f.rpo[..];
    pred := new seq<nat>[f.nblk](_ => []);
    NoPreds(g, rpo, pred[..]);
    var b := 0;
    while b < f.id.Length
      invariant 0 <= b <= f.id.Length && PredsUpTo(g, rpo, pred[..], b)
    {
      if f.id[b] == -1 {
        SkipBlock(g, id, rpo, pred[..], b);
      } else {
        NumberOk(g, id, rpo, b);
        AddPreds(f, pred, b);
      }
      b := b + 1;
    }
  }

  lemma NoPreds(g: Graph, rpo: seq<nat>, pred: Dominators.Preds)
    requires |pred| == |rpo| && forall i :: 0 <= i < |pred| ==> pred[i] == []
    ensures PredsUpTo(g, rpo, pred, 0)
  {
  }

  lemma NumberOk(g: Graph, id: seq<int>, rpo: seq<nat>, b: nat)
    requires Numbering(g, id, rpo) && b < |id| && id[b] != -1
    ensures 0 <= id[b] < |rpo| && rpo[id[b]] == b
  {
  }

  /** Adds block b to the lists of its successors: once, if both are the same. */
  method AddPreds(f: Fn, pred: array<seq<nat>>, b: nat)
    requires f.Valid() && f.nblk == f.rpo.Length && Numbering(f.G(), f.id[..], f.rpo[..])
    requires b < f.id.Length && 0 <= f.id[b] && PredsUpTo(f.G(), f.rpo[..], pred[..], b)
    modifies pred
    ensures PredsUpTo(f.G(), f.rpo[..], pred[..], b + 1)
  {
    hide Numbering, PredsUpTo;
    ghost var g, id, rpo, was := f.G(), f.id[..], f.rpo[..], pred[..];
    PredsSize(g, rpo, was, b);
    var u, v := f.s1[b], f.s2[b];
    if u != -1 {
      SuccNumbered(g, id, rpo, b, u);
      pred[f.id[u]] := pred[f.id[u]] + [f.id[b]];
    }
    if v != -1 && v != u {
      SuccNumbered(g, id, rpo, b, v);
      pred[f.id[v]] := pred[f.id[v]] + [f.id[b]];
    }
    ByNumber(g, id, rpo, b);
    TakeBlock(g, id, rpo, was, pred[..], b);
  }

  lemma PredsSize(g: Graph, rpo: seq<nat>, pred: Dominators.Preds, n: nat)
    requires PredsUpTo(g, rpo, pred, n)
    ensures |pred| == |rpo|
  {
  }

  /** The successors of block b among the numbered blocks. */
  lemma ByNumber(g: Graph, id: seq<int>, rpo: seq<nat>, b: nat)
    requires Numbering(g, id, rpo) && b < |id| && id[b] >= 0
    ensures |id| == |g.s1| == |g.s2|
    ensures forall i :: 0 <= i < |rpo| ==>
      (Edge(g, b, rpo[i]) <==> (g.s1[b] != -1 && i == id[g.s1[b]]) || (g.s2[b] != -1 && i == id[g.s2[b]]))
  {
    forall i | 0 <= i < |rpo|
      ensures Edge(g, b, rpo[i]) <==> (g.s1[b] != -1 && i == id[g.s1[b]]) || (g.s2[b] != -1 && i == id[g.s2[b]])
    {
      if g.s1[b] != -1 {
        SuccNumbered(g, id, rpo, b, g.s1[b]);
      }
      if g.s2[b] != -1 {
        SuccNumbered(g, id, rpo, b, g.s2[b]);
      }
    }
  }

  /** The successors of the numbered blocks, by number. */
  method SuccNumbers(f: Fn) returns (s1: array<int>, s2: array<int>)
    requires f.Valid() && f.nblk == f.rpo.Length && Numbering(f.G(), f.id[..], f.rpo[..])
    ensures fresh(s1) && fresh(s2) && s1 != s2 && s1.Length == s2.Length == f.nblk
    ensures SuccsOf(f.G(), f.rpo[..], s1[..], s2[..])
  {
    hide Numbering;
    ghost var g, id, rpo := f.G(), f.id[..], f.rpo[..];
    s1 := new int[f.nblk];
    s2 := new int[f.nblk];
    var i := 0;
    while i < f.nblk
      invariant 0 <= i <= f.nblk
      invariant forall j :: 0 <= j < i ==> SuccIs(g, rpo, j, s1[j], s2[j])
    {
      RpoOk(g, id, rpo, i);
      var b := f.rpo[i];
      s1[i], s2[i] := -1, -1;
      if f.s1[b] != -1 {
        SuccNumbered(g, id, rpo, b, f.s1[b]);
        s1[i] := f.id[f.s1[b]];
      }
      if f.s2[b] != -1 {
        SuccNumbered(g, id, rpo, b, f.s2[b]);
        s2[i] := f.id[f.s2[b]];
      }
      i := i + 1;
    }
  }

  lemma RpoOk(g: Graph, id: seq<int>, rpo: seq<nat>, i: nat)
    requires Numbering(g, id, rpo) && i < |rpo|
    ensures rpo[i] < |id| == |g.s1| == |g.s2| && id[rpo[i]] == i
  {
  }

  /** The successors of block number i, by number. */
  ghost predicate SuccIs(g: Graph, rpo: seq<nat>, i: nat, u: int, v: int)
    requires i < |rpo|
  {
    && -1 <= u < |rpo| && -1 <= v < |rpo| && rpo[i] < |g.s1| == |g.s2|
    && g.s1[rpo[i]] == (if u == -1 then -1 else rpo[u]) && g.s2[rpo[i]] == (if v == -1 then -1 else rpo[v])
  }

  ghost predicate SuccsOf(g: Graph, rpo: seq<nat>, s1: seq<int>, s2: seq<int>) {
    |s1| == |s2| == |rpo| && forall i :: 0 <= i < |rpo| ==> SuccIs(g, rpo, i, s1[i], s2[i])
  }

  /** What is known of the blocks by number after numbering, fillpreds and filldom. */
  ghost predicate Analysed(g: Graph, id: seq<int>, rpo: seq<nat>, s1: seq<int>, s2: seq<int>, pred: Dominators.Preds, idom: Dominators.Tree) {
    && Numbering(g, id, rpo) && SuccsOf(g, rpo, s1, s2) && PredsOf(g, rpo, pred)
    && |idom| == |pred| && Dominators.Numbered(pred) && Dominators.Exact(pred, idom)
  }

  /** Numbers the blocks and fills in predecessors and dominators. */
  method Analyse(f: Fn) returns (d: Dominators.Fn)
    requires f.Valid()
    modifies f`nblk, f`rpo, f.id
    ensures fresh(d) && fresh(d.fron) && f.Valid() && f.G() == old(f.G()) && d.Valid() && d.nblk == f.nblk == d.fron.Length
    ensures d.s1 != d.s2 && d.s1 != d.idom && d.s2 != d.idom && d.pred != d.fron
    ensures Analysed(f.G(), f.id[..], f.rpo[..], d.s1[..], d.s2[..], d.pred[..], d.idom[..])
  {
    hide Numbering, PredsOf, SuccsOf, Dominators.Exact, Dominators.Numbered;
    f.FillRpo();
    var pred := FillPreds(f);
    var s1, s2 := SuccNumbers(f);
    PredsWellFormed(f.G(), f.id[..], f.rpo[..], pred[..]);
    Sizes(f.G(), f.rpo[..], pred[..], s1[..], s2[..]);
    d := new Dominators.Fn(s1, s2, pred);
    d.FillDom();
  }

  lemma Sizes(g: Graph, rpo: seq<nat>, pred: Dominators.Preds, s1: seq<int>, s2: seq<int>)
    requires PredsOf(g, rpo, pred) && SuccsOf(g, rpo, s1, s2)
    ensures |pred| == |rpo| == |s1| == |s2|
  {
  }

  /** From the graph to the question: whether block a lies on every walk from the start block to block b. */
  method Dominates(f: Fn, a: nat, b: nat) returns (r: bool)
    requires f.Valid() && a < f.id.Length && b < f.id.Length && Reaches(f.G(), 0, a) && Reaches(f.G(), 0, b)
    modifies f`nblk, f`rpo, f.id
    ensures r <==> Strictly(old(f.G()), a, b)
  {
    hide Dominators.Exact, Dominators.Numbered, Dominators.Dominates, OnEveryWalk, Reaches, PredsUpTo, SuccsOf;
    var d := Analyse(f);
    NumberOf(f.G(), f.id[..], f.rpo[..], a);
    NumberOf(f.G(), f.id[..], f.rpo[..], b);
    Sizes(f.G(), f.rpo[..], d.pred[..], d.s1[..], d.s2[..]);
    r := d.Sdom(f.id[a], f.id[b]);
    SameDominance(f.G(), f.id[..], f.rpo[..], d.pred[..], f.id[a], f.id[b]);
  }

  /** The frontiers, by number, are those of the original graph, into whose start block no edge
      leads (the parser refuses that). */
  method Frontiers(f: Fn) returns (fron: array<seq<nat>>)
    requires f.Valid() && forall b :: 0 <= b < f.id.Length ==> f.s1[b] != 0 && f.s2[b] != 0
    modifies f`nblk, f`rpo, f.id
    ensures f.Valid() && f.G() == old(f.G()) && Numbering(f.G(), f.id[..], f.rpo[..]) && fron.Length == f.rpo.Length
    ensures forall x :: 0 <= x < fron.Length ==> Distinct(fron[x])
    ensures forall x, y :: 0 <= x < fron.Length && 0 <= y < fron.Length ==> (y in fron[x] <==> OnFrontier(f.G(), f.rpo[x], f.rpo[y]))
    ensures forall x, y :: 0 <= x < fron.Length && y in fron[x] ==> y < fron.Length
  {
    hide Dominators.Exact, Dominators.Numbered, Dominators.Dominates, Dominators.InFrontier, OnFrontier, Numbering, PredsOf, SuccsOf;
    var d := Analyse(f);
    ghost var g, id, rpo := f.G(), f.id[..], f.rpo[..];
    SuccsMatch(g, id, rpo, d.s1[..], d.s2[..], d.pred[..]);
    d.FillFron();
    fron := d.fron;
    forall x: nat, y: nat | x < |rpo| && y < |rpo|
      ensures Dominators.InFrontier(d.pred[..], x, |rpo|, y) <==> OnFrontier(g, rpo[x], rpo[y])
    {
      SameFrontier(g, id, rpo, d.pred[..], x, y);
    }
    FrontierInside(d.pred[..], |rpo|);
  }

  lemma FrontierInside(pred: Dominators.Preds, n: nat)
    ensures forall x: nat, y: nat :: Dominators.InFrontier(pred, x, n, y) ==> y < |pred|
  {
  }

  /** Successors and predecessors by number belong together. */
  lemma SuccsMatch(g: Graph, id: seq<int>, rpo: seq<nat>, s1: seq<int>, s2: seq<int>, pred: Dominators.Preds)
    requires Numbering(g, id, rpo) && SuccsOf(g, rpo, s1, s2) && PredsOf(g, rpo, pred)
    requires forall b :: 0 <= b < |id| ==> g.s1[b] != 0 && g.s2[b] != 0
    ensures |s1| == |s2| == |pred| == |rpo|
    ensures forall b :: 0 <= b < |rpo| ==> s1[b] < |rpo| && s2[b] < |rpo| && s1[b] != 0 && s2[b] != 0
    ensures forall b: nat, y: nat :: b < |rpo| && y < |rpo| ==> (b in pred[y] <==> s1[b] == y || s2[b] == y)
  {
    forall b: nat | b < |rpo|
      ensures s1[b] < |rpo| && s2[b] < |rpo| && s1[b] != 0 && s2[b] != 0
      ensures forall y: nat :: y < |rpo| ==> (b in pred[y] <==> s1[b] == y || s2[b] == y)
    {
      assert SuccIs(g, rpo, b, s1[b], s2[b]);
      StartFirst(g, id, rpo);
      forall y: nat | y < |rpo|
        ensures b in pred[y] <==> s1[b] == y || s2[b] == y
      {
        assert b in pred[y] <==> Edge(g, rpo[b], rpo[y]);
        assert id[rpo[y]] == y;
      }
    }
  }

  lemma StartFirst(g: Graph, id: seq<int>, rpo: seq<nat>)
    requires Numbering(g, id, rpo)
    ensures rpo[0] == 0
  {
  }

  lemma SameFrontier(g: Graph, id: seq<int>, rpo: seq<nat>, pred: Dominators.Preds, x: nat, y: nat)
    requires Numbering(g, id, rpo) && PredsOf(g, rpo, pred) && x < |rpo| && y < |rpo|
    ensures Dominators.InFrontier(pred, x, |rpo|, y) <==> OnFrontier(g, rpo[x], rpo[y])
  {
    hide Dominators.Dominates, OnEveryWalk;
    SameDominance(g, id, rpo, pred, x, y);
    assert rpo[x] == rpo[y] <==> x == y by {
      assert id[rpo[x]] == x && id[rpo[y]] == y;
    }
    if OnFrontier(g, rpo[x], rpo[y]) {
      var b: nat :| Reaches(g, 0, b) && Edge(g, b, rpo[y]) && OnEveryWalk(g, rpo[x], b) && !Strictly(g, rpo[x], rpo[y]);
      NumberOf(g, id, rpo, b);
      SameDominance(g, id, rpo, pred, x, id[b]);
      assert id[b] in pred[y];
      assert Dominators.OnFrontier(pred, x, id[b], y);
    }
    if Dominators.InFrontier(pred, x, |rpo|, y) {
      var c: nat :| c < |rpo| && c in pred[y] && Dominators.OnFrontier(pred, x, c, y);
      SameDominance(g, id, rpo, pred, x, c);
      NumberOf(g, id, rpo, rpo[c]);
      assert Edge(g, rpo[c], rpo[y]) && OnEveryWalk(g, rpo[x], rpo[c]);
    }
  }

  lemma NumberOf(g: Graph, id: seq<int>, rpo: seq<nat>, b: nat)
    requires Numbering(g, id, rpo) && b < |id|
    ensures Reaches(g, 0, b) <==> id[b] >= 0
    ensures id[b] >= 0 ==> id[b] < |rpo| && rpo[id[b]] == b
  {
  }
}
