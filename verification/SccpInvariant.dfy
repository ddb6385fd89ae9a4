/** What constant propagation keeps true while its worklists are not empty
    (lib/qbe-1.0/fold.c), one lemma per step. */
module SccpInvariant {
  import opened Basics
  import opened Finite
  import opened Folding
  import opened Ssa
  import opened SccpLattice
  import Dominators

  /** The function is in SSA form, the uses are recorded, and the table holds each constant once. */
  ghost predicate Ready(fn: Fn) {
    WellFormed(fn) && Strict(fn) && UsesOk(fn) && Single(fn) && Distinct(fn.con)
  }

  // ----- Evaluated up to date -----

  ghost predicate PhiSettled(fn: Fn, s: Sol, n: nat, p: nat)
    requires Shape(fn, s) && n < |fn.blks| && p < |fn.blks[n].phis| && PhiOk(fn, fn.blks[n].phis[p])
  {
    var phi := fn.blks[n].phis[p];
    forall a :: 0 <= a < |phi.args| && !DeadEdge(fn, s, phi.args[a].blk, n) ==>
      AtOrBelow(s.val[phi.to], LatVal(fn, s, phi.args[a].arg))
  }

  /** The value of the result is at or below what the operands give. */
  ghost predicate InsSettled(fn: Fn, s: Sol, i: Ins)
    requires Shape(fn, s) && InsOk(fn, i) && 0 < |fn.con|
  {
    i.to.Some? ==>
      var v := s.val[i.to.value];
      if !i.op.Fold? then v == Bot
      else
        var l := LatVal(fn, s, i.arg0);
        var r := LatVal(fn, s, SecondArg(fn, i.arg1));
        if l == Bot || r == Bot then v == Bot
        else if l == Top || r == Top then true
        else match FoldInt(i.op.op, i.wide, s.con[l], s.con[r])
          case None => v == Bot
          case Some(c) => v == Bot || (v >= 0 && s.con[v] == c)
  }

  ghost predicate Coming(s: Sol, e: nat)
    requires e < |s.dead|
  {
    !s.dead[e] || e in s.flow
  }

  /** The edges that the branch of block n may take are alive or on the worklist.
      An unconditional one is alive, or (between two rounds of the loop) first on the list. */
  ghost predicate JmpSettled(fn: Fn, s: Sol, n: nat, between: bool)
    requires Shape(fn, s) && n < |fn.blks| && JumpOk(fn, fn.blks[n])
  {
    match fn.blks[n].jmp
    case Jmp => !s.dead[2 * n] || (between && s.flow != [] && s.flow[0] == 2 * n)
    case Ret(_, _) => true
    case Jnz(a) =>
      var l := LatVal(fn, s, a);
      if l < 0 then Coming(s, 2 * n) && Coming(s, 2 * n + 1)
      else if IsZero(s, l) then Coming(s, 2 * n + 1)
      else Coming(s, 2 * n)
  }

  // ----- The parts of the invariant -----

  /** While block n is being visited it does not count as visited yet. */
  ghost predicate Alive(fn: Fn, s: Sol, n: int)
    requires Shape(fn, s) && 0 < |fn.blks|
  {
    forall e :: 0 <= e < |s.dead| && !s.dead[e] && Dest(fn, e) >= 0 ==>
      (0 <= Dest(fn, e) < |s.visit|) && (s.visit[Dest(fn, e)] || Dest(fn, e) == n)
  }

  ghost predicate FromVisited(fn: Fn, visit: seq<bool>, e: nat)
    requires |visit| == |fn.blks|
  {
    e == StartEdge(fn) || (e < StartEdge(fn) && visit[e / 2])
  }

  ghost predicate Sources(fn: Fn, s: Sol)
    requires Shape(fn, s)
  {
    && (forall e :: 0 <= e < |s.dead| && !s.dead[e] ==> FromVisited(fn, s.visit, e))
    && (forall e :: e in s.flow ==> FromVisited(fn, s.visit, e))
    && Distinct(s.flow)
  }

  /** There is a path to m whose earlier blocks have all been visited. */
  ghost predicate Reached(fn: Fn, visit: seq<bool>, m: nat) {
    exists p :: Dominators.PathTo(fn.pred, p, m) &&
      forall x :: 0 <= x < |p| - 1 ==> p[x] < |visit| && visit[p[x]]
  }

  ghost predicate AllReached(fn: Fn, visit: seq<bool>, n: int) {
    forall m {:trigger Reached(fn, visit, m)} :: 0 <= m < |visit| && (visit[m] || m == n) ==> Reached(fn, visit, m)
  }

  ghost predicate NoTop(fn: Fn, s: Sol, n: int, k: nat, i: nat)
    requires Shape(fn, s) && Mid(fn, n, k, i)
  {
    && (forall m, t :: 0 <= m < |s.visit| && s.visit[m] && 0 <= t < |s.val| && DefIn(fn, m, t) ==> s.val[t] != Top)
    && (n >= 0 ==> forall t :: 0 <= t < |s.val| && DefBefore(fn, n, k, i, t) ==> s.val[t] != Top)
  }

  ghost predicate Mid(fn: Fn, n: int, k: nat, i: nat) {
    -1 <= n < |fn.blks| && (n >= 0 ==> k <= |fn.blks[n].phis| && i <= |fn.blks[n].ins|)
  }

  ghost predicate PhisOk(fn: Fn, s: Sol, n: int, k: nat)
    requires WellFormed(fn) && Shape(fn, s)
  {
    forall m, p :: 0 <= m < |fn.blks| && 0 <= p < |fn.blks[m].phis| && (if m == n then p < k else s.visit[m]) ==>
      PhiDone(fn, s, m, p)
  }

  ghost predicate PhiDone(fn: Fn, s: Sol, m: nat, p: nat)
    requires WellFormed(fn) && Shape(fn, s) && m < |fn.blks| && p < |fn.blks[m].phis|
  {
    assert BlkOk(fn, m);
    PhiSettled(fn, s, m, p) || UPhi(m, p) in s.wrk
  }

  ghost predicate InssOk(fn: Fn, s: Sol, n: int, i: nat)
    requires WellFormed(fn) && Shape(fn, s)
  {
    forall m, j :: 0 <= m < |fn.blks| && 0 <= j < |fn.blks[m].ins| && (s.visit[m] || (m == n && j < i)) ==>
      InsDone(fn, s, m, j)
  }

  ghost predicate InsDone(fn: Fn, s: Sol, m: nat, j: nat)
    requires WellFormed(fn) && Shape(fn, s) && m < |fn.blks| && j < |fn.blks[m].ins|
  {
    assert BlkOk(fn, m);
    InsSettled(fn, s, fn.blks[m].ins[j]) || UIns(m, j) in s.wrk
  }

  ghost predicate JmpsOk(fn: Fn, s: Sol, n: int)
    requires WellFormed(fn) && Shape(fn, s)
  {
    forall m :: 0 <= m < |fn.blks| && s.visit[m] ==> JmpDone(fn, s, m, n == -1)
  }

  ghost predicate JmpDone(fn: Fn, s: Sol, m: nat, between: bool)
    requires WellFormed(fn) && Shape(fn, s) && m < |fn.blks|
  {
    assert BlkOk(fn, m);
    JmpSettled(fn, s, m, between) || (fn.blks[m].jmp.Jnz? && UJmp(m) in s.wrk)
  }

  /** A conditional edge is only taken for a reason: the condition is not constant, or has the right value. */
  ghost predicate Justified(fn: Fn, s: Sol)
    requires WellFormed(fn) && Shape(fn, s)
  {
    forall m :: 0 <= m < |fn.blks| && s.visit[m] && fn.blks[m].jmp.Jnz? ==> JnzJustified(fn, s, m)
  }

  ghost predicate JnzJustified(fn: Fn, s: Sol, m: nat)
    requires WellFormed(fn) && Shape(fn, s) && m < |fn.blks| && fn.blks[m].jmp.Jnz?
  {
    assert BlkOk(fn, m);
    var l := LatVal(fn, s, fn.blks[m].jmp.arg);
    (l >= 0 && Coming(s, 2 * m) ==> !IsZero(s, l)) && (l >= 0 && Coming(s, 2 * m + 1) ==> IsZero(s, l))
  }

  /** The whole invariant. Between two rounds of the loop n is -1; while
      block n is being visited, its first k phis and first i instructions have been done. */
  ghost predicate Inv(fn: Fn, s: Sol, n: int, k: nat, i: nat) {
    && Ready(fn) && Shape(fn, s) && Mid(fn, n, k, i)
    && Alive(fn, s, n) && Sources(fn, s) && AllReached(fn, s.visit, n) && NoTop(fn, s, n, k, i)
    && PhisOk(fn, s, n, k) && InssOk(fn, s, n, i) && JmpsOk(fn, s, n) && Justified(fn, s)
  }

  // ----- The greatest solution -----

  /** A sound result of such an analysis, however it has been found: the start edge is alive,
      so is each edge that the branch of a visited block may take, a block with a live edge
      into it is visited, and the values in visited blocks are at or below what the operands give. */
  ghost predicate Solution(fn: Fn, t: Sol) {
    && WellFormed(fn) && Shape(fn, t) && t.flow == [] && t.wrk == [] && !t.dead[StartEdge(fn)]
    && Alive(fn, t, -1) && PhisOk(fn, t, -1, 0) && InssOk(fn, t, -1, 0) && JmpsOk(fn, t, -1)
  }

  /** Value v over one table of constants is at or below value w over another one. */
  ghost predicate Leq(con: seq<Con>, v: int, con': seq<Con>, w: int)
    requires v < |con| && w < |con'|
  {
    v == Bot || w == Top || (v >= 0 && w >= 0 && con[v] == con'[w])
  }

  /** Result t knows no more than s: its values are not higher, and all that is visited (block n,
      too) or alive in s, or on its list, is so in t. */
  ghost predicate NotAbove(fn: Fn, t: Sol, s: Sol, n: int)
    requires Shape(fn, t) && Shape(fn, s)
  {
    && (forall x :: 0 <= x < |s.val| ==> Leq(t.con, t.val[x], s.con, s.val[x]))
    && (forall m :: 0 <= m < |s.visit| && (s.visit[m] || m == n) ==> t.visit[m])
    && (forall e :: 0 <= e < |s.dead| && Coming(s, e) ==> !t.dead[e])
  }

  /** No solution knows more than s. */
  ghost predicate Greatest(fn: Fn, s: Sol, n: int)
    requires Shape(fn, s)
  {
    Distinct(s.con) && forall t :: Solution(fn, t) ==> NotAbove(fn, t, s, n)
  }

  /** Nothing is left to do, and no solution finds more constants, more dead edges
      or fewer visited blocks than s. */
  ghost predicate Solved(fn: Fn, s: Sol) {
    && Inv(fn, s, -1, 0, 0) && s.flow == [] && s.wrk == [] && s.visit[0]
    && !s.dead[StartEdge(fn)] && Greatest(fn, s, -1)
  }

  // ----- Lowering one value -----

  lemma LowerPhi(fn: Fn, s: Sol, t: nat, m: int, b: nat, p: nat)
    requires Ready(fn) && Shape(fn, s) && t < |s.val| && LatOk(s, m)
    requires b < |fn.blks| && p < |fn.blks[b].phis| && PhiDone(fn, s, b, p)
    ensures Shape(fn, Update(fn, s, t, m)) && PhiDone(fn, Update(fn, s, t, m), b, p)
  {
    var s' := Update(fn, s, t, m);
    UpdateShape(fn, s, t, m);
    assert BlkOk(fn, b) && BlkUsesOk(fn, b);
    var phi := fn.blks[b].phis[p];
    if s' != s && PhiSettled(fn, s, b, p) && !PhiUses(phi, t) {
      forall a | 0 <= a < |phi.args| && !DeadEdge(fn, s', phi.args[a].blk, b)
        ensures AtOrBelow(s'.val[phi.to], LatVal(fn, s', phi.args[a].arg))
      {
        assert phi.args[a].arg != RTmp(t);
      }
    }
  }

  lemma UpdateShape(fn: Fn, s: Sol, t: nat, m: int)
    requires Ready(fn) && Shape(fn, s) && t < |s.val| && LatOk(s, m)
    ensures Shape(fn, Update(fn, s, t, m))
  {
  }

  lemma LowerIns(fn: Fn, s: Sol, t: nat, m: int, b: nat, j: nat)
    requires Ready(fn) && Shape(fn, s) && t < |s.val| && LatOk(s, m)
    requires b < |fn.blks| && j < |fn.blks[b].ins| && InsDone(fn, s, b, j)
    ensures Shape(fn, Update(fn, s, t, m)) && InsDone(fn, Update(fn, s, t, m), b, j)
  {
    UpdateShape(fn, s, t, m);
    assert BlkOk(fn, b) && BlkUsesOk(fn, b);
    var i := fn.blks[b].ins[j];
    assert InsOk(fn, i);
    if InsUses(i, t) {
      assert UIns(b, j) in fn.uses[t];
    }
  }

  lemma LowerJmp(fn: Fn, s: Sol, t: nat, m: int, b: nat, between: bool)
    requires Ready(fn) && Shape(fn, s) && t < |s.val| && LatOk(s, m)
    requires b < |fn.blks| && JmpDone(fn, s, b, between)
    ensures Shape(fn, Update(fn, s, t, m)) && JmpDone(fn, Update(fn, s, t, m), b, between)
  {
    UpdateShape(fn, s, t, m);
    assert BlkOk(fn, b) && BlkUsesOk(fn, b);
    if JumpArg(fn.blks[b].jmp) == RTmp(t) {
      assert UJmp(b) in fn.uses[t];
    }
  }

  lemma LowerJustified(fn: Fn, s: Sol, t: nat, m: int, b: nat)
    requires Ready(fn) && Shape(fn, s) && t < |s.val| && LatOk(s, m)
    requires b < |fn.blks| && fn.blks[b].jmp.Jnz? && BlkOk(fn, b) && JnzJustified(fn, s, b)
    requires LatVal(fn, s, fn.blks[b].jmp.arg) != Top
    ensures Shape(fn, Update(fn, s, t, m)) && JnzJustified(fn, Update(fn, s, t, m), b)
  {
    UpdateShape(fn, s, t, m);
    assert BlkOk(fn, b);
  }

  /** The temporaries that a visited block uses have a value. */
  lemma UsedNotTop(fn: Fn, s: Sol, n: int, k: nat, i: nat, b: nat, j: nat, r: Ref)
    requires Ready(fn) && Shape(fn, s) && Mid(fn, n, k, i) && AllReached(fn, s.visit, n) && NoTop(fn, s, n, k, i)
    requires b < |fn.blks| && j <= |fn.blks[b].ins| && Plain(fn, r) && RefAvailable(fn, b, j, r)
    requires s.visit[b] || (b == n && k == |fn.blks[b].phis| && j <= i)
    ensures LatVal(fn, s, r) != Top
  {
    if r.RTmp? {
      if DefBefore(fn, b, |fn.blks[b].phis|, j, r.t) {
        assert s.visit[b] ==> DefIn(fn, b, r.t);
        assert !s.visit[b] ==> DefBefore(fn, n, k, i, r.t);
      } else {
        DominatorVisited(fn, s, b, r.t);
      }
    }
  }

  lemma DominatorVisited(fn: Fn, s: Sol, b: nat, t: nat)
    requires Ready(fn) && Shape(fn, s) && b < |fn.blks| && AvailableBefore(fn, b, t) && Reached(fn, s.visit, b)
    ensures exists d: nat :: d < |fn.blks| && s.visit[d] && DefIn(fn, d, t)
  {
    var d: nat :| d < |fn.blks| && d != b && DefIn(fn, d, t) && Dominators.Dominates(fn.pred, d, b);
    var p :| Dominators.PathTo(fn.pred, p, b) && forall x :: 0 <= x < |p| - 1 ==> p[x] < |s.visit| && s.visit[p[x]];
    assert d in p;
  }

  /** The same edges, visits and edge worklist. */
  lemma SameEdges(fn: Fn, s: Sol, s': Sol, n: int)
    requires Ready(fn) && Shape(fn, s) && Shape(fn, s')
    requires s'.dead == s.dead && s'.visit == s.visit && s'.flow == s.flow
    requires Alive(fn, s, n) && Sources(fn, s) && AllReached(fn, s.visit, n)
    ensures Alive(fn, s', n) && Sources(fn, s') && AllReached(fn, s'.visit, n)
  {
  }

  /** Lowering a value and pushing its uses keeps the invariant. */
  lemma UpdateKeeps(fn: Fn, s: Sol, n: int, k: nat, i: nat, t: nat, m: int)
    requires Inv(fn, s, n, k, i) && t < |s.val| && LatOk(s, m)
    ensures Inv(fn, Update(fn, s, t, m), n, k, i)
  {
    var s' := Update(fn, s, t, m);
    UpdateShape(fn, s, t, m);
    SameEdges(fn, s, s', n);
    forall b: nat, p: nat | b < |fn.blks| && p < |fn.blks[b].phis| && (if b == n then p < k else s.visit[b])
      ensures PhiDone(fn, s', b, p)
    {
      LowerPhi(fn, s, t, m, b, p);
    }
    forall b: nat, j: nat | b < |fn.blks| && j < |fn.blks[b].ins| && (s.visit[b] || (b == n && j < i))
      ensures InsDone(fn, s', b, j)
    {
      LowerIns(fn, s, t, m, b, j);
    }
    forall b: nat | b < |fn.blks| && s.visit[b]
      ensures JmpDone(fn, s', b, n == -1)
      ensures fn.blks[b].jmp.Jnz? ==> JnzJustified(fn, s', b)
    {
      LowerJmp(fn, s, t, m, b, n == -1);
      if fn.blks[b].jmp.Jnz? {
        JnzNotTop(fn, s, n, k, i, b);
        LowerJustified(fn, s, t, m, b);
      }
    }
  }

  lemma JnzNotTop(fn: Fn, s: Sol, n: int, k: nat, i: nat, b: nat)
    requires Ready(fn) && Shape(fn, s) && Mid(fn, n, k, i) && AllReached(fn, s.visit, n) && NoTop(fn, s, n, k, i)
    requires b < |fn.blks| && fn.blks[b].jmp.Jnz?
    requires s.visit[b] || (b == n && k == |fn.blks[b].phis| && i == |fn.blks[b].ins|)
    ensures BlkOk(fn, b) && LatVal(fn, s, fn.blks[b].jmp.arg) != Top
  {
    assert BlkOk(fn, b) && StrictBlk(fn, b);
    UsedNotTop(fn, s, n, k, i, b, |fn.blks[b].ins|, fn.blks[b].jmp.arg);
  }

  // ----- Visiting a phi -----

  lemma {:induction false} PhiValBelow(fn: Fn, s: Sol, n: nat, phi: Phi, k: nat)
    requires Shape(fn, s) && PhiOk(fn, phi) && k <= |phi.args|
    ensures LatOk(s, PhiVal(fn, s, n, phi, k))
    ensures forall a :: 0 <= a < k && !DeadEdge(fn, s, phi.args[a].blk, n) ==>
      AtOrBelow(PhiVal(fn, s, n, phi, k), LatVal(fn, s, phi.args[a].arg))
  {
    if k > 0 {
      PhiValBelow(fn, s, n, phi, k - 1);
      assert LatOk(s, LatVal(fn, s, phi.args[k - 1].arg));
    }
  }

  lemma VisitPhiDone(fn: Fn, s: Sol, b: nat, p: nat)
    requires Ready(fn) && Shape(fn, s) && b < |fn.blks| && p < |fn.blks[b].phis|
    ensures BlkOk(fn, b) && Shape(fn, VisitPhi(fn, s, b, p)) && PhiDone(fn, VisitPhi(fn, s, b, p), b, p)
  {
    assert BlkOk(fn, b) && BlkUsesOk(fn, b);
    var phi := fn.blks[b].phis[p];
    PhiValBelow(fn, s, b, phi, |phi.args|);
    UpdateShape(fn, s, phi.to, PhiVal(fn, s, b, phi, |phi.args|));
    var s' := VisitPhi(fn, s, b, p);
    if s' == s || !PhiUses(phi, phi.to) {
      forall a | 0 <= a < |phi.args| && !DeadEdge(fn, s', phi.args[a].blk, b)
        ensures AtOrBelow(s'.val[phi.to], LatVal(fn, s', phi.args[a].arg))
      {
        assert s' == s || phi.args[a].arg != RTmp(phi.to);
      }
    }
  }

  lemma VisitPhiKeeps(fn: Fn, s: Sol, n: int, k: nat, i: nat, b: nat, p: nat)
    requires Inv(fn, s, n, k, i) && b < |fn.blks| && p < |fn.blks[b].phis|
    ensures BlkOk(fn, b) && Inv(fn, VisitPhi(fn, s, b, p), n, k, i) && PhiDone(fn, VisitPhi(fn, s, b, p), b, p)
  {
    assert BlkOk(fn, b);
    var phi := fn.blks[b].phis[p];
    PhiValBelow(fn, s, b, phi, |phi.args|);
    UpdateKeeps(fn, s, n, k, i, phi.to, PhiVal(fn, s, b, phi, |phi.args|));
    VisitPhiDone(fn, s, b, p);
  }

  /** An edge into n is alive, so that its source has been visited. */
  ghost predicate Entered(fn: Fn, s: Sol, n: nat)
    requires Shape(fn, s) && 0 < |fn.blks|
  {
    exists e: nat :: e < |s.dead| && !s.dead[e] && Dest(fn, e) == n
  }

  /** A block that has been entered has a phi argument for the edge that it was entered over. */
  lemma LiveArg(fn: Fn, s: Sol, n: int, k: nat, i: nat, b: nat, phi: Phi) returns (a: nat)
    requires Inv(fn, s, n, k, i) && 0 < b < |fn.blks| && Entered(fn, s, b) && ArgsMatch(phi, fn.pred[b])
    ensures a < |phi.args| && phi.args[a].blk < |fn.blks| && s.visit[phi.args[a].blk] && !DeadEdge(fn, s, phi.args[a].blk, b)
  {
    var e: nat :| e < |s.dead| && !s.dead[e] && Dest(fn, e) == b;
    assert FromVisited(fn, s.visit, e);
    var from := e / 2;
    assert Edge(fn, from, b) && from in fn.pred[b];
    assert HasArg(phi, from);
    a :| 0 <= a < |phi.args| && phi.args[a].blk == from;
  }

  lemma ArgNotTop(fn: Fn, s: Sol, n: int, k: nat, i: nat, b: nat, p: nat)
    requires Inv(fn, s, n, k, i) && 0 < b < |fn.blks| && p < |fn.blks[b].phis| && Entered(fn, s, b)
    ensures BlkOk(fn, b) && PhiVal(fn, s, b, fn.blks[b].phis[p], |fn.blks[b].phis[p].args|) != Top
  {
    assert BlkOk(fn, b) && StrictBlk(fn, b);
    var phi := fn.blks[b].phis[p];
    var a := LiveArg(fn, s, n, k, i, b, phi);
    PhiValBelow(fn, s, b, phi, |phi.args|);
    if phi.args[a].arg.RTmp? {
      assert PhiAvailable(fn, phi);
      EndNotTop(fn, s, n, k, i, phi.args[a].blk, phi.args[a].arg.t);
    }
  }

  lemma EndNotTop(fn: Fn, s: Sol, n: int, k: nat, i: nat, b: nat, t: nat)
    requires Inv(fn, s, n, k, i) && b < |fn.blks| && s.visit[b] && t < |s.val| && AvailableAtEnd(fn, b, t)
    ensures s.val[t] != Top
  {
    if !DefIn(fn, b, t) {
      DominatorVisited(fn, s, b, t);
    }
  }

  /** The next phi of the block being visited. */
  lemma MidPhi(fn: Fn, s: Sol, n: nat, k: nat, i: nat)
    requires Inv(fn, s, n, k, i) && 0 < n && k < |fn.blks[n].phis| && Entered(fn, s, n)
    ensures BlkOk(fn, n) && Inv(fn, VisitPhi(fn, s, n, k), n, k + 1, i) && Entered(fn, VisitPhi(fn, s, n, k), n)
  {
    assert BlkOk(fn, n);
    VisitPhiKeeps(fn, s, n, k, i, n, k);
    ArgNotTop(fn, s, n, k, i, n, k);
    var s' := VisitPhi(fn, s, n, k);
    assert s'.dead == s.dead;
    assert s'.val[fn.blks[n].phis[k].to] != Top;
    forall b: nat, p: nat | b < |fn.blks| && p < |fn.blks[b].phis| && (if b == n then p < k + 1 else s'.visit[b])
      ensures PhiDone(fn, s', b, p)
    {
      assert (b == n && p == k) || PhiDone(fn, s', b, p);
    }
  }

  // ----- Visiting an instruction -----

  lemma ConDone(fn: Fn, s: Sol, con: seq<Con>, b: nat)
    requires Ready(fn) && Shape(fn, s) && s.con <= con && b < |fn.blks|
    ensures Shape(fn, s.(con := con))
    ensures forall p :: 0 <= p < |fn.blks[b].phis| && PhiDone(fn, s, b, p) ==> PhiDone(fn, s.(con := con), b, p)
    ensures forall j :: 0 <= j < |fn.blks[b].ins| && InsDone(fn, s, b, j) ==> InsDone(fn, s.(con := con), b, j)
  {
    var s' := s.(con := con);
    assert BlkOk(fn, b);
    forall p | 0 <= p < |fn.blks[b].phis| && PhiDone(fn, s, b, p)
      ensures PhiDone(fn, s', b, p)
    {
      assert forall f :: 0 <= f < |fn.blks| ==> DeadEdge(fn, s', f, b) == DeadEdge(fn, s, f, b);
    }
    forall j | 0 <= j < |fn.blks[b].ins| && InsDone(fn, s, b, j)
      ensures InsDone(fn, s', b, j)
    {
      assert InsOk(fn, fn.blks[b].ins[j]);
    }
  }

  /** Adding a constant to the table changes nothing else. */
  lemma ConKeeps(fn: Fn, s: Sol, n: int, k: nat, i: nat, con: seq<Con>)
    requires Inv(fn, s, n, k, i) && s.con <= con
    ensures Inv(fn, s.(con := con), n, k, i)
  {
    var s' := s.(con := con);
    SameEdges(fn, s, s', n);
    forall b: nat | b < |fn.blks|
      ensures forall p :: 0 <= p < |fn.blks[b].phis| && PhiDone(fn, s, b, p) ==> PhiDone(fn, s', b, p)
      ensures forall j :: 0 <= j < |fn.blks[b].ins| && InsDone(fn, s, b, j) ==> InsDone(fn, s', b, j)
    {
      ConDone(fn, s, con, b);
    }
    forall b: nat | b < |fn.blks| && s.visit[b]
      ensures JmpDone(fn, s', b, n == -1)
      ensures fn.blks[b].jmp.Jnz? ==> JnzJustified(fn, s', b)
    {
      assert BlkOk(fn, b) && JmpDone(fn, s, b, n == -1);
      assert fn.blks[b].jmp.Jnz? ==> JnzJustified(fn, s, b);
    }
  }

  lemma VisitInsDone(fn: Fn, s: Sol, b: nat, j: nat)
    requires Ready(fn) && Shape(fn, s) && b < |fn.blks| && j < |fn.blks[b].ins|
    ensures BlkOk(fn, b) && InsOk(fn, fn.blks[b].ins[j])
    ensures Shape(fn, VisitIns(fn, s, fn.blks[b].ins[j])) && InsDone(fn, VisitIns(fn, s, fn.blks[b].ins[j]), b, j)
  {
    assert BlkOk(fn, b) && BlkUsesOk(fn, b);
    var ins := fn.blks[b].ins[j];
    assert InsOk(fn, ins);
    if ins.to.Some? {
      var (v, con) := InsVal(fn, s, ins);
      UpdateShape(fn, s.(con := con), ins.to.value, v);
      if InsUses(ins, ins.to.value) {
        assert UIns(b, j) in fn.uses[ins.to.value];
      }
    }
  }

  lemma VisitInsKeeps(fn: Fn, s: Sol, n: int, k: nat, i: nat, b: nat, j: nat)
    requires Inv(fn, s, n, k, i) && b < |fn.blks| && j < |fn.blks[b].ins|
    ensures BlkOk(fn, b) && InsOk(fn, fn.blks[b].ins[j])
    ensures Inv(fn, VisitIns(fn, s, fn.blks[b].ins[j]), n, k, i) && InsDone(fn, VisitIns(fn, s, fn.blks[b].ins[j]), b, j)
  {
    assert BlkOk(fn, b);
    var ins := fn.blks[b].ins[j];
    VisitInsDone(fn, s, b, j);
    if ins.to.Some? {
      var (v, con) := InsVal(fn, s, ins);
      ConKeeps(fn, s, n, k, i, con);
      UpdateKeeps(fn, s.(con := con), n, k, i, ins.to.value, v);
    }
  }

  /** The next instruction of the block being visited for the first time. */
  lemma MidIns(fn: Fn, s: Sol, n: nat, i: nat)
    requires n < |fn.blks| && Inv(fn, s, n, |fn.blks[n].phis|, i) && i < |fn.blks[n].ins|
    ensures BlkOk(fn, n) && InsOk(fn, fn.blks[n].ins[i])
    ensures Inv(fn, VisitIns(fn, s, fn.blks[n].ins[i]), n, |fn.blks[n].phis|, i + 1)
  {
    assert BlkOk(fn, n) && StrictBlk(fn, n);
    var k, ins := |fn.blks[n].phis|, fn.blks[n].ins[i];
    VisitInsKeeps(fn, s, n, k, i, n, i);
    var s' := VisitIns(fn, s, ins);
    assert InsOk(fn, ins);
    if ins.to.Some? {
      assert s'.val[ins.to.value] != Top by {
        if ins.op.Fold? {
          UsedNotTop(fn, s, n, k, i, n, i, ins.arg0);
          if !ins.arg1.RNone? {
            UsedNotTop(fn, s, n, k, i, n, i, ins.arg1);
          }
        }
      }
    }
  }

  // ----- The edge worklist -----

  lemma TailOf(s: Sol)
    requires s.flow != [] && Distinct(s.flow)
    ensures forall e :: e in s.flow <==> e == s.flow[0] || e in s.flow[1..]
    ensures s.flow[0] !in s.flow[1..] && Distinct(s.flow[1..])
  {
    assert s.flow == [s.flow[0]] + s.flow[1..];
  }

  /** An edge that leads nowhere, or that is alive already, may be dropped. */
  lemma SkipEdge(fn: Fn, s: Sol)
    requires Inv(fn, s, -1, 0, 0) && s.flow != [] && s.flow[0] < |s.dead|
    requires Dest(fn, s.flow[0]) == -1 || !s.dead[s.flow[0]]
    ensures Inv(fn, s.(flow := s.flow[1..]), -1, 0, 0)
  {
    var s' := s.(flow := s.flow[1..]);
    TailOf(s);
    SameSettled(fn, s, s', -1, 0, 0);
    forall b: nat | b < |fn.blks| && s.visit[b]
      ensures JmpDone(fn, s', b, true)
      ensures fn.blks[b].jmp.Jnz? ==> JnzJustified(fn, s', b)
    {
      assert BlkOk(fn, b) && JmpDone(fn, s, b, true);
      assert fn.blks[b].jmp.Jnz? ==> JnzJustified(fn, s, b);
    }
  }

  /** Phis and instructions are as up to date as before when no value has
      changed and only edges into block n have come alive. */
  lemma SameSettled(fn: Fn, s: Sol, s': Sol, n: int, k: nat, i: nat)
    requires Inv(fn, s, -1, 0, 0) && Shape(fn, s') && Mid(fn, n, 0, 0)
    requires s'.val == s.val && s'.con == s.con && s'.wrk == s.wrk && s'.visit == s.visit
    requires forall f, b :: 0 <= f < |fn.blks| && 0 <= b < |fn.blks| && b != n ==> DeadEdge(fn, s', f, b) == DeadEdge(fn, s, f, b)
    ensures PhisOk(fn, s', n, 0) && InssOk(fn, s', n, 0) && NoTop(fn, s', n, 0, 0)
  {
    forall b: nat, p: nat | b < |fn.blks| && p < |fn.blks[b].phis| && b != n && s.visit[b]
      ensures PhiDone(fn, s', b, p)
    {
      assert BlkOk(fn, b) && PhiDone(fn, s, b, p);
    }
    forall b: nat, j: nat | b < |fn.blks| && j < |fn.blks[b].ins| && s.visit[b]
      ensures InsDone(fn, s', b, j)
    {
      assert BlkOk(fn, b) && InsDone(fn, s, b, j);
    }
  }

  /** Making an edge alive is the start of a visit to its destination. */
  lemma EnterBlock(fn: Fn, s: Sol, n: nat)
    requires Inv(fn, s, -1, 0, 0) && s.flow != [] && s.flow[0] < |s.dead|
    requires s.dead[s.flow[0]] && Dest(fn, s.flow[0]) == n < |fn.blks|
    ensures var s' := s.(flow := s.flow[1..], dead := s.dead[s.flow[0] := false]);
      Inv(fn, s', n, 0, 0) && Entered(fn, s', n)
  {
    var e := s.flow[0];
    var s' := s.(flow := s.flow[1..], dead := s.dead[e := false]);
    TailOf(s);
    assert !s'.dead[e];
    SameSettled(fn, s, s', n, 0, 0);
    assert FromVisited(fn, s.visit, e);
    forall f: nat | f < |s'.dead| && !s'.dead[f]
      ensures FromVisited(fn, s'.visit, f)
    {
      assert f == e || FromVisited(fn, s.visit, f);
    }
    forall b: nat | b < |fn.blks| && s.visit[b]
      ensures JmpDone(fn, s', b, false)
      ensures fn.blks[b].jmp.Jnz? ==> JnzJustified(fn, s', b)
    {
      StillJmpDone(fn, s, b);
    }
    ReachOverEdge(fn, s, e, n);
    hide JmpSettled, JnzJustified;
  }

  /** Taking the first edge of the list leaves every branch as up to date as it was. */
  lemma StillJmpDone(fn: Fn, s: Sol, b: nat)
    requires Inv(fn, s, -1, 0, 0) && s.flow != [] && s.flow[0] < |s.dead| && s.dead[s.flow[0]] && b < |fn.blks| && s.visit[b]
    ensures var s' := s.(flow := s.flow[1..], dead := s.dead[s.flow[0] := false]);
      Shape(fn, s') && JmpDone(fn, s', b, false) && (fn.blks[b].jmp.Jnz? ==> JnzJustified(fn, s', b))
  {
    TailOf(s);
    assert BlkOk(fn, b) && JmpDone(fn, s, b, true);
    assert fn.blks[b].jmp.Jnz? ==> JnzJustified(fn, s, b);
  }

  lemma ReachOverEdge(fn: Fn, s: Sol, e: nat, n: nat)
    requires Inv(fn, s, -1, 0, 0) && e < |s.dead| && Dest(fn, e) == n < |fn.blks| && FromVisited(fn, s.visit, e)
    ensures Reached(fn, s.visit, n)
  {
    if e == StartEdge(fn) {
      assert Dominators.PathTo(fn.pred, [0], 0);
    } else {
      var from := e / 2;
      assert Reached(fn, s.visit, from);
      var p :| Dominators.PathTo(fn.pred, p, from) && forall x :: 0 <= x < |p| - 1 ==> p[x] < |s.visit| && s.visit[p[x]];
      assert Edge(fn, from, n) && from in fn.pred[n];
      var q := p + [n];
      assert Dominators.PathTo(fn.pred, q, n);
      assert forall x :: 0 <= x < |q| - 1 ==> q[x] < |s.visit| && s.visit[q[x]];
    }
  }

  /** A later visit ends after the phis. */
  lemma RevisitDone(fn: Fn, s: Sol, n: nat, i: nat)
    requires n < |fn.blks| && Inv(fn, s, n, |fn.blks[n].phis|, i) && s.visit[n]
    ensures Inv(fn, s, -1, 0, 0)
  {
    assert Mid(fn, -1, 0, 0);
    forall b: nat | b < |fn.blks| && s.visit[b]
      ensures JmpDone(fn, s, b, true)
    {
      assert BlkOk(fn, b) && JmpDone(fn, s, b, false);
    }
    forall b: nat, p: nat | b < |fn.blks| && p < |fn.blks[b].phis| && s.visit[b]
      ensures PhiDone(fn, s, b, p)
    {
      assert b == n ==> p < |fn.blks[n].phis|;
    }
  }

  /** A block is not left before it has been visited. */
  lemma NotYetLeft(fn: Fn, s: Sol, n: nat, k: nat, i: nat)
    requires Inv(fn, s, n, k, i) && !s.visit[n]
    ensures s.dead[2 * n] && s.dead[2 * n + 1] && 2 * n !in s.flow && 2 * n + 1 !in s.flow
  {
    assert forall e :: e == 2 * n || e == 2 * n + 1 ==> !FromVisited(fn, s.visit, e);
  }

  /** The first visit to a block ends by putting the edges that it may take on the list. */
  lemma VisitDone(fn: Fn, s: Sol, n: nat)
    requires n < |fn.blks| && Inv(fn, s, n, |fn.blks[n].phis|, |fn.blks[n].ins|) && !s.visit[n]
    ensures BlkOk(fn, n) && Inv(fn, VisitJmp(fn, s, n).(visit := s.visit[n := true]), -1, 0, 0)
  {
    assert BlkOk(fn, n);
    var s' := VisitJmp(fn, s, n).(visit := s.visit[n := true]);
    LeaveEdges(fn, s, s', n);
    VisitedSettled(fn, s, s', n);
    forall b: nat | b < |fn.blks| && s.visit[b]
      ensures JmpDone(fn, s', b, true)
      ensures fn.blks[b].jmp.Jnz? ==> JnzJustified(fn, s', b)
    {
      LeaveOthers(fn, s, s', n, b);
    }
    LeaveSelf(fn, s, n);
  }

  /** What visiting a branch puts on the list of edges, and that it changes nothing else. */
  lemma FlowAfter(fn: Fn, s: Sol, n: nat)
    requires Shape(fn, s) && n < |fn.blks| && JumpOk(fn, fn.blks[n]) && Distinct(s.flow) && 2 * n !in s.flow && 2 * n + 1 !in s.flow
    ensures var s' := VisitJmp(fn, s, n);
      && Shape(fn, s') && s' == s.(flow := s'.flow) && Distinct(s'.flow)
      && (forall e :: e in s.flow ==> e in s'.flow)
      && forall e :: e in s'.flow ==> e in s.flow || e == 2 * n || e == 2 * n + 1
  {
    var s' := VisitJmp(fn, s, n);
    assert s'.flow == s.flow || s'.flow == [2 * n] + s.flow || s'.flow == [2 * n + 1] + s.flow || s'.flow == [2 * n, 2 * n + 1] + s.flow;
  }

  lemma LeaveEdges(fn: Fn, s: Sol, s': Sol, n: nat)
    requires n < |fn.blks| && Inv(fn, s, n, |fn.blks[n].phis|, |fn.blks[n].ins|) && !s.visit[n] && BlkOk(fn, n)
    requires s' == VisitJmp(fn, s, n).(visit := s.visit[n := true])
    ensures Shape(fn, s') && Sources(fn, s')
    ensures forall e :: e in s'.flow <==> e in s.flow || (e in s'.flow && (e == 2 * n || e == 2 * n + 1))
  {
    NotYetLeft(fn, s, n, |fn.blks[n].phis|, |fn.blks[n].ins|);
    FlowAfter(fn, s, n);
    VisitSources(fn, s, s', n);
  }

  lemma VisitSources(fn: Fn, s: Sol, s': Sol, n: nat)
    requires Shape(fn, s) && Shape(fn, s') && Sources(fn, s) && n < |fn.blks| && Distinct(s'.flow)
    requires s'.dead == s.dead && s'.visit == s.visit[n := true]
    requires forall e :: e in s'.flow ==> e in s.flow || e == 2 * n || e == 2 * n + 1
    ensures Sources(fn, s')
  {
    forall e: nat | e in s'.flow || (e < |s'.dead| && !s'.dead[e])
      ensures FromVisited(fn, s'.visit, e)
    {
      assert e in s.flow || (e < |s.dead| && !s.dead[e]) ==> FromVisited(fn, s.visit, e);
    }
  }

  lemma LeaveOthers(fn: Fn, s: Sol, s': Sol, n: nat, b: nat)
    requires n < |fn.blks| && Inv(fn, s, n, |fn.blks[n].phis|, |fn.blks[n].ins|) && !s.visit[n] && BlkOk(fn, n)
    requires Shape(fn, s') && s' == s.(flow := s'.flow, visit := s'.visit)
    requires forall e :: e in s'.flow <==> e in s.flow || (e in s'.flow && (e == 2 * n || e == 2 * n + 1))
    requires b < |fn.blks| && s.visit[b]
    ensures JmpDone(fn, s', b, true)
    ensures fn.blks[b].jmp.Jnz? ==> JnzJustified(fn, s', b)
  {
    assert BlkOk(fn, b) && JmpDone(fn, s, b, false);
    assert fn.blks[b].jmp.Jnz? ==> JnzJustified(fn, s, b);
  }

  lemma LeaveSelf(fn: Fn, s: Sol, n: nat)
    requires n < |fn.blks| && Inv(fn, s, n, |fn.blks[n].phis|, |fn.blks[n].ins|) && !s.visit[n] && BlkOk(fn, n)
    ensures var s' := VisitJmp(fn, s, n).(visit := s.visit[n := true]);
      Shape(fn, s') && JmpDone(fn, s', n, true) && (fn.blks[n].jmp.Jnz? ==> JnzJustified(fn, s', n))
  {
    NotYetLeft(fn, s, n, |fn.blks[n].phis|, |fn.blks[n].ins|);
    LeaveEdges(fn, s, VisitJmp(fn, s, n).(visit := s.visit[n := true]), n);
    if fn.blks[n].jmp.Jnz? {
      JnzNotTop(fn, s, n, |fn.blks[n].phis|, |fn.blks[n].ins|, n);
    }
  }

  lemma VisitedSettled(fn: Fn, s: Sol, s': Sol, n: nat)
    requires n < |fn.blks| && Inv(fn, s, n, |fn.blks[n].phis|, |fn.blks[n].ins|) && Shape(fn, s')
    requires s' == s.(flow := s'.flow, visit := s.visit[n := true])
    ensures AllReached(fn, s'.visit, -1) && Alive(fn, s', -1)
    ensures PhisOk(fn, s', -1, 0) && InssOk(fn, s', -1, 0) && NoTop(fn, s', -1, 0, 0)
  {
    forall m: nat | m < |fn.blks| && s'.visit[m]
      ensures Reached(fn, s'.visit, m)
    {
      assert Reached(fn, s.visit, m);
      var p :| Dominators.PathTo(fn.pred, p, m) && forall x :: 0 <= x < |p| - 1 ==> p[x] < |s.visit| && s.visit[p[x]];
    }
    forall b: nat, p: nat | b < |fn.blks| && p < |fn.blks[b].phis| && s'.visit[b]
      ensures PhiDone(fn, s', b, p)
    {
      assert BlkOk(fn, b) && PhiDone(fn, s, b, p);
      assert forall f :: 0 <= f < |fn.blks| ==> DeadEdge(fn, s', f, b) == DeadEdge(fn, s, f, b);
    }
    forall b: nat, j: nat | b < |fn.blks| && j < |fn.blks[b].ins| && s'.visit[b]
      ensures InsDone(fn, s', b, j)
    {
      assert BlkOk(fn, b) && InsDone(fn, s, b, j);
    }
  }

  // ----- The use worklist -----

  /** The use has been dealt with, or is still on the list. */
  ghost predicate UseDone(fn: Fn, s: Sol, u: Use)
    requires WellFormed(fn) && Shape(fn, s) && UseOk(fn, u)
  {
    s.visit[u.bid] ==>
      match u
      case UPhi(m, p) => PhiDone(fn, s, m, p)
      case UIns(m, j) => InsDone(fn, s, m, j)
      case UJmp(m) => JmpDone(fn, s, m, true)
  }

  /** A use that has been dealt with may leave the list. */
  lemma DropUse(fn: Fn, s: Sol, s': Sol, u: Use)
    requires Inv(fn, s, -1, 0, 0) && u in s.wrk && s' == s.(wrk := s'.wrk)
    requires (forall w :: w in s'.wrk ==> w in s.wrk) && (forall w :: w in s.wrk ==> w == u || w in s'.wrk)
    requires Shape(fn, s') && UseOk(fn, u) && UseDone(fn, s', u)
    ensures Inv(fn, s', -1, 0, 0)
  {
    SameEdges(fn, s, s', -1);
    forall b: nat, p: nat | b < |fn.blks| && p < |fn.blks[b].phis| && s.visit[b]
      ensures PhiDone(fn, s', b, p)
    {
      assert BlkOk(fn, b) && PhiDone(fn, s, b, p);
      assert u != UPhi(b, p) && UPhi(b, p) in s.wrk ==> UPhi(b, p) in s'.wrk;
      assert forall f :: 0 <= f < |fn.blks| ==> DeadEdge(fn, s', f, b) == DeadEdge(fn, s, f, b);
    }
    forall b: nat, j: nat | b < |fn.blks| && j < |fn.blks[b].ins| && s.visit[b]
      ensures InsDone(fn, s', b, j)
    {
      assert BlkOk(fn, b) && InsDone(fn, s, b, j);
      assert u != UIns(b, j) && UIns(b, j) in s.wrk ==> UIns(b, j) in s'.wrk;
    }
    forall b: nat | b < |fn.blks| && s.visit[b]
      ensures JmpDone(fn, s', b, true)
      ensures fn.blks[b].jmp.Jnz? ==> JnzJustified(fn, s', b)
    {
      assert BlkOk(fn, b) && JmpDone(fn, s, b, true);
      assert u != UJmp(b) && UJmp(b) in s.wrk ==> UJmp(b) in s'.wrk;
      assert fn.blks[b].jmp.Jnz? ==> JnzJustified(fn, s, b);
    }
  }

  lemma JmpAgainSelf(fn: Fn, s: Sol, m: nat)
    requires Inv(fn, s, -1, 0, 0) && m < |fn.blks| && s.visit[m] && s.flow == []
    ensures BlkOk(fn, m) && Shape(fn, VisitJmp(fn, s, m)) && Sources(fn, VisitJmp(fn, s, m))
    ensures JmpSettled(fn, VisitJmp(fn, s, m), m, true)
    ensures fn.blks[m].jmp.Jnz? ==> JnzJustified(fn, VisitJmp(fn, s, m), m)
    ensures forall e :: e in VisitJmp(fn, s, m).flow ==> e == 2 * m || e == 2 * m + 1
    ensures fn.blks[m].jmp.Jnz? ==>
      var l := LatVal(fn, s, fn.blks[m].jmp.arg);
      l != Top && (l >= 0 ==> if IsZero(s, l) then s.dead[2 * m] else s.dead[2 * m + 1])
  {
    assert BlkOk(fn, m) && JmpDone(fn, s, m, true);
    FlowAfter(fn, s, m);
    assert s.visit[m := true] == s.visit;
    VisitSources(fn, s, VisitJmp(fn, s, m), m);
    if fn.blks[m].jmp.Jnz? {
      JnzNotTop(fn, s, -1, 0, 0, m);
      assert JnzJustified(fn, s, m);
    }
    hide Strict, UsesOk, Single, Distinct, AllReached, NoTop, PhisOk, InssOk, Alive, Sources;
  }

  /** Looking again at the branch of a visited block, with no edge waiting. */
  lemma JmpAgain(fn: Fn, s: Sol, m: nat)
    requires Inv(fn, s, -1, 0, 0) && m < |fn.blks| && s.visit[m] && s.flow == []
    ensures BlkOk(fn, m) && Inv(fn, VisitJmp(fn, s, m), -1, 0, 0)
    ensures JmpSettled(fn, VisitJmp(fn, s, m), m, true)
    ensures fn.blks[m].jmp.Jnz? ==>
      var l := LatVal(fn, s, fn.blks[m].jmp.arg);
      l != Top && (l >= 0 ==> if IsZero(s, l) then s.dead[2 * m] else s.dead[2 * m + 1])
  {
    JmpAgainSelf(fn, s, m);
    JmpAgainRest(fn, s, VisitJmp(fn, s, m), m);
  }

  lemma JmpAgainRest(fn: Fn, s: Sol, s': Sol, m: nat)
    requires Inv(fn, s, -1, 0, 0) && m < |fn.blks| && s.visit[m] && s.flow == []
    requires Shape(fn, s') && Sources(fn, s') && s' == s.(flow := s'.flow)
    requires forall e :: e in s'.flow ==> e == 2 * m || e == 2 * m + 1
    requires JmpDone(fn, s', m, true) && (fn.blks[m].jmp.Jnz? ==> JnzJustified(fn, s', m))
    ensures Inv(fn, s', -1, 0, 0)
  {
    hide JmpSettled;
    SameSettled(fn, s, s', -1, 0, 0);
    forall b: nat | b < |fn.blks| && s.visit[b]
      ensures JmpDone(fn, s', b, true)
      ensures fn.blks[b].jmp.Jnz? ==> JnzJustified(fn, s', b)
    {
      if b != m {
        OtherJmps(fn, s, s', m, b);
      }
    }
  }

  lemma OtherJmps(fn: Fn, s: Sol, s': Sol, m: nat, b: nat)
    requires Inv(fn, s, -1, 0, 0) && m < |fn.blks| && b < |fn.blks| && b != m && s.visit[b] && s.flow == []
    requires Shape(fn, s') && s' == s.(flow := s'.flow) && forall e :: e in s'.flow ==> e == 2 * m || e == 2 * m + 1
    ensures JmpDone(fn, s', b, true)
    ensures fn.blks[b].jmp.Jnz? ==> JnzJustified(fn, s', b)
  {
    assert BlkOk(fn, b) && JmpDone(fn, s, b, true);
    assert fn.blks[b].jmp.Jnz? ==> JnzJustified(fn, s, b);
  }

  // ----- Termination -----

  /** Values only go down. */
  ghost predicate Descends(v: seq<int>, v': seq<int>) {
    |v| == |v'| && forall t :: 0 <= t < |v| ==> v'[t] == v[t] || v'[t] == Bot || v[t] == Top
  }

  ghost function NonBot(v: seq<int>): set<int> { set t | 0 <= t < |v| && v[t] != Bot }

  ghost function Tops(v: seq<int>): set<int> { set t | 0 <= t < |v| && v[t] == Top }

  ghost function Deads(d: seq<bool>): set<int> { set e | 0 <= e < |d| && d[e] }

  lemma DescendsBounded(v: seq<int>, v': seq<int>)
    requires Descends(v, v')
    ensures NonBot(v') <= NonBot(v) && Tops(v') <= Tops(v)
    ensures v != v' ==> NonBot(v') < NonBot(v) || Tops(v') < Tops(v)
  {
    if v != v' {
      var t :| 0 <= t < |v| && v[t] != v'[t];
      assert if v'[t] == Bot then t in NonBot(v) && t !in NonBot(v') else t in Tops(v) && t !in Tops(v');
    }
  }
}
