/** Constant propagation as a whole: the solver followed by the trimming
    (fold in lib/qbe-1.0/fold.c). */
module ConstantPropagation {
  import opened Basics
  import opened Finite
  import opened Folding
  import opened Ssa
  import opened SccpLattice
  import opened SccpInvariant
  import opened SccpRewrite
  import opened SccpTrim
  import opened Sccp
  import opened FoldEffect
  import Dominators

  /** Each block is in the list once. */
  ghost predicate ListsAll(fn: Fn, order: seq<nat>) {
    Distinct(order) && (forall m :: m in order ==> m < |fn.blks|) && forall m: nat :: m < |fn.blks| ==> m in order
  }

  /** After k blocks the trimmed function has done the same as the original one,
      exactly if the original has not left a block over a branch on an address with a zero low word. */
  ghost predicate RunsAlike(fn: Fn, s: Sol, blks: seq<Blk>, at: Layout, world: World, k: nat)
    requires WellFormed(fn) && Shape(fn, s)
  {
    SameObservation(Run(fn.blks, Ctx(fn.con, at, world), k), Run(blks, Ctx(s.con, at, world), k)) <==>
    forall j: nat :: j < k ==> !PartsAt(fn, s, at, world, j)
  }

  /** Folds a function whose block list is order, after the greatest solution. For every layout of the labels and
      every outside world the result runs like the original function, as long as
      the original does not take a branch on an address whose low word is zero. */
  method FoldFn(fn: Fn, order: seq<nat>) returns (blks: seq<Blk>, con: seq<Con>, kept: seq<nat>, ghost s: Sol)
    requires Ready(fn) && ListsAll(fn, order)
    ensures Solved(fn, s) && con == s.con && Trimmed(fn, s, blks) && kept == Kept(order, s.visit)
    ensures Folded(fn, s, blks) && forall n :: 0 <= n < |blks| && s.visit[n] ==> Clean(s, blks[n])
    ensures forall at, world, k: nat :: RunsAlike(fn, s, blks, at, world, k)
    ensures forall c, k: nat :: OnList(kept, Run(blks, c, k))
  {
    hide Inv, ListsAll, Trimmed, Run, SameObservation, PartsAt, Folded, Clean;
    var folder := new Folder(fn);
    folder.Solve();
    s := folder.State();
    con := folder.con;
    StartIsList(fn, order);
    NothingLeft(fn, s);
    var trimmer := new Trimmer(fn, Sol(con, folder.val[..], folder.dead[..], Visited(folder.visit[..]), [], []));
    kept := trimmer.Trim(order);
    blks := trimmer.blk[..];
    Effect(fn, s, blks);
    forall at, world, k: nat
      ensures RunsAlike(fn, s, blks, at, world, k)
    {
      PreservedExactly(fn, s, at, world, k);
      TrimmedRun(fn, s, blks, Ctx(con, at, world), k);
    }
    forall c, k: nat
      ensures OnList(kept, Run(blks, c, k))
    {
      TrimmedRun(fn, s, blks, c, k);
      KeptOnList(fn, s, order, Run(blks, c, k));
    }
  }

  lemma Effect(fn: Fn, s: Sol, blks: seq<Blk>)
    requires Solved(fn, s) && Trimmed(fn, s, blks)
    ensures Folded(fn, s, blks) && |blks| == |s.visit| && forall n :: 0 <= n < |blks| && s.visit[n] ==> Clean(s, blks[n])
  {
    hide Clean, BlkFolded;
    TrimmedFolded(fn, s, blks);
    forall n: nat | n < |blks| && s.visit[n]
      ensures Clean(s, blks[n])
    {
      FoldedClean(fn, s, blks, n);
    }
  }

  lemma NothingLeft(fn: Fn, s: Sol)
    requires Solved(fn, s)
    ensures s.flow == [] && s.wrk == []
  {
  }

  lemma StartIsList(fn: Fn, order: seq<nat>)
    requires ListsAll(fn, order)
    ensures Distinct(order) && (forall m :: m in order ==> m < |fn.blks|) && forall m: nat :: m < |fn.blks| ==> m in order
  {
  }

  lemma {:induction false} KeptExactly(order: seq<nat>, visit: seq<bool>, n: nat)
    ensures n in Kept(order, visit) <==> n in order && n < |visit| && visit[n]
  {
    if order != [] {
      KeptExactly(order[..|order| - 1], visit, n);
      assert order == order[..|order| - 1] + [order[|order| - 1]];
    }
  }

  lemma KeptOnList(fn: Fn, s: Sol, order: seq<nat>, r: State)
    requires ListsAll(fn, order) && Shape(fn, s) && AtVisited(s, r)
    ensures OnList(Kept(order, s.visit), r)
  {
    if r.Running? {
      KeptExactly(order, s.visit, r.path[|r.path| - 1]);
    }
  }

  /** The run is at a block of the list, or has ended. */
  predicate OnList(kept: seq<nat>, r: State) {
    r.Running? ==> r.path != [] && r.path[|r.path| - 1] in kept
  }

  // ----- What the trimming relies on -----

  ghost predicate NotTop(fn: Fn, s: Sol, r: Ref)
    requires |s.val| == |fn.wide|
  {
    r.RTmp? && r.t < |s.val| ==> s.val[r.t] != Top
  }

  /** Nothing that is put in place is still Top: no phi, instruction or branch of a
      visited block names such a temporary, except over dead edges. */
  lemma NoneIsTop(fn: Fn, s: Sol, n: nat)
    requires Solved(fn, s) && n < |fn.blks| && s.visit[n]
    ensures forall p :: 0 <= p < |fn.blks[n].phis| ==> fn.blks[n].phis[p].to < |s.val| && s.val[fn.blks[n].phis[p].to] != Top
    ensures forall p, a :: 0 <= p < |fn.blks[n].phis| && 0 <= a < |fn.blks[n].phis[p].args| ==>
      var arg := fn.blks[n].phis[p].args[a];
      arg.blk < |fn.blks| && (!DeadEdge(fn, s, arg.blk, n) ==> NotTop(fn, s, arg.arg))
    ensures forall i :: 0 <= i < |fn.blks[n].ins| ==>
      NotTop(fn, s, fn.blks[n].ins[i].arg0) && NotTop(fn, s, fn.blks[n].ins[i].arg1)
    ensures NotTop(fn, s, JumpArg(fn.blks[n].jmp))
  {
    assert BlkOk(fn, n) && StrictBlk(fn, n);
    var b := fn.blks[n];
    forall p | 0 <= p < |b.phis|
      ensures b.phis[p].to < |s.val| && s.val[b.phis[p].to] != Top
    {
      assert DefBefore(fn, n, |b.phis|, |b.ins|, b.phis[p].to);
    }
    forall p, a | 0 <= p < |b.phis| && 0 <= a < |b.phis[p].args|
      ensures var arg := b.phis[p].args[a];
        arg.blk < |fn.blks| && (!DeadEdge(fn, s, arg.blk, n) ==> NotTop(fn, s, arg.arg))
    {
      var arg := b.phis[p].args[a];
      if !DeadEdge(fn, s, arg.blk, n) && arg.arg.RTmp? {
        FromLive(fn, s, arg.blk, n);
        assert PhiAvailable(fn, b.phis[p]);
        EndNotTop(fn, s, arg.blk, arg.arg.t);
      }
    }
    forall i | 0 <= i < |b.ins|
      ensures NotTop(fn, s, b.ins[i].arg0) && NotTop(fn, s, b.ins[i].arg1)
    {
      RefNotTop(fn, s, n, i, b.ins[i].arg0);
      RefNotTop(fn, s, n, i, b.ins[i].arg1);
    }
    RefNotTop(fn, s, n, |b.ins|, JumpArg(b.jmp));
  }

  lemma RefNotTop(fn: Fn, s: Sol, n: nat, i: nat, r: Ref)
    requires Solved(fn, s) && n < |fn.blks| && s.visit[n] && i <= |fn.blks[n].ins| && RefAvailable(fn, n, i, r)
    ensures NotTop(fn, s, r)
  {
    if r.RTmp? && r.t < |s.val| {
      UsedNotTop(fn, s, -1, 0, 0, n, i, r);
    }
  }

  lemma FromLive(fn: Fn, s: Sol, m: nat, n: nat)
    requires Solved(fn, s) && m < |fn.blks| && n < |fn.blks| && !DeadEdge(fn, s, m, n)
    ensures s.visit[m]
  {
    assert !s.dead[2 * m] ==> FromVisited(fn, s.visit, 2 * m);
    assert !s.dead[2 * m + 1] ==> FromVisited(fn, s.visit, 2 * m + 1);
  }

  lemma EndNotTop(fn: Fn, s: Sol, n: nat, t: nat)
    requires Solved(fn, s) && n < |fn.blks| && s.visit[n] && t < |s.val| && AvailableAtEnd(fn, n, t)
    ensures s.val[t] != Top
  {
    var d: nat :| d < |fn.blks| && DefIn(fn, d, t) && Dominators.Dominates(fn.pred, d, n);
    assert Reached(fn, s.visit, n);
    var p :| Dominators.PathTo(fn.pred, p, n) && forall x :: 0 <= x < |p| - 1 ==> p[x] < |s.visit| && s.visit[p[x]];
    assert d in p;
  }

  // ----- Branching on an address -----

  /** start: jnz $a, b1, b2; both other blocks return. */
  function BranchOnLabel(): Fn {
    Fn([Blk([], [], Jnz(RCon(1)), 1, 2), Blk([], [], Ret(false, RNone), -1, -1), Blk([], [], Ret(false, RNone), -1, -1)],
       [[], [0], [0]], [], [], [Bits(0), Addr(0, 0)])
  }

  /** Meaning is not always preserved: with the label at an address whose low word is
      zero, this function returns from another block after folding. */
  lemma LabelAtZero(s: Sol, at: Layout, world: World)
    requires Solved(BranchOnLabel(), s) && at(0) % Two32 == 0
    ensures Run(BranchOnLabel().blks, Before(BranchOnLabel(), at, world), 1).path == [0, 2]
    ensures Run(Rewrite(BranchOnLabel(), s), After(s, at, world), 1).path == [0, 1]
  {
    var fn := BranchOnLabel();
    var c, c' := Before(fn, at, world), After(s, at, world);
    assert s.con[1] == fn.con[1];
    assert Rewrite(fn, s)[0].ins == [];
    assert Step(fn.blks, c, Running([0], map[], [])).path == [0, 2];
    assert Run(fn.blks, c, 0) == Running([0], map[], []);
    assert Run(Rewrite(fn, s), c', 0) == Running([0], map[], []);
  }

  lemma BranchOnLabelReady()
    ensures Ready(BranchOnLabel())
  {
    var fn := BranchOnLabel();
    BranchOnLabelFormed();
    assert StrictBlk(fn, 0) && StrictBlk(fn, 1) && StrictBlk(fn, 2);
    hide WellFormed;
  }

  lemma BranchOnLabelFormed()
    ensures WellFormed(BranchOnLabel())
  {
    var fn := BranchOnLabel();
    assert BlkOk(fn, 0) && BlkOk(fn, 1) && BlkOk(fn, 2);
  }
}
