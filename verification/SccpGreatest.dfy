/** The solver of constant propagation (lib/qbe-1.0/fold.c) never goes below what
    any solution allows. So it ends with the greatest one, and there every phi,
    instruction and branch gives its stored value when it is evaluated again. */
module SccpGreatest {
  import opened Basics
  import opened Finite
  import opened Folding
  import opened Ssa
  import opened SccpLattice
  import opened SccpInvariant

  // ----- The steps of the solver against one solution -----

  lemma LatBelow(fn: Fn, t: Sol, s: Sol, n: int, r: Ref)
    requires Shape(fn, t) && Shape(fn, s) && NotAbove(fn, t, s, n) && Plain(fn, r)
    ensures Leq(t.con, LatVal(fn, t, r), s.con, LatVal(fn, s, r))
  {
    if r.RCon? {
      assert t.con[r.c] == fn.con[r.c] == s.con[r.c];
    }
  }

  lemma MergeBelow(con: seq<Con>, x: int, con': seq<Con>, v: int, m: int)
    requires Distinct(con') && Bot <= x < |con| && Bot <= v < |con'| && Bot <= m < |con'|
    requires Leq(con, x, con', v) && Leq(con, x, con', m)
    ensures Leq(con, x, con', Merge(v, m))
  {
  }

  /** What is at or below each argument over a live edge is at or below the value of the phi. */
  lemma {:induction false} PhiBelow(fn: Fn, con: seq<Con>, x: int, s: Sol, n: nat, phi: Phi, k: nat)
    requires Shape(fn, s) && Distinct(s.con) && PhiOk(fn, phi) && k <= |phi.args| && Bot <= x < |con|
    requires forall a :: 0 <= a < k && !DeadEdge(fn, s, phi.args[a].blk, n) ==> Leq(con, x, s.con, LatVal(fn, s, phi.args[a].arg))
    ensures LatOk(s, PhiVal(fn, s, n, phi, k)) && Leq(con, x, s.con, PhiVal(fn, s, n, phi, k))
  {
    PhiValBelow(fn, s, n, phi, k);
    if k > 0 {
      PhiBelow(fn, con, x, s, n, phi, k - 1);
      if !DeadEdge(fn, s, phi.args[k - 1].blk, n) {
        MergeBelow(con, x, s.con, PhiVal(fn, s, n, phi, k - 1), LatVal(fn, s, phi.args[k - 1].arg));
      }
    }
  }

  lemma UpdateBelow(fn: Fn, t: Sol, s: Sol, n: int, x: nat, m: int)
    requires Ready(fn) && Shape(fn, t) && Shape(fn, s) && Distinct(s.con) && NotAbove(fn, t, s, n)
    requires x < |s.val| && LatOk(s, m) && Leq(t.con, t.val[x], s.con, m)
    ensures Shape(fn, Update(fn, s, x, m)) && NotAbove(fn, t, Update(fn, s, x, m), n)
  {
    UpdateShape(fn, s, x, m);
    MergeBelow(t.con, t.val[x], s.con, s.val[x], m);
    var s' := Update(fn, s, x, m);
    forall e | 0 <= e < |s'.dead| && Coming(s', e)
      ensures !t.dead[e]
    {
      assert Coming(s, e);
    }
  }

  lemma LeqThrough(t: Sol, v: int, w: int, con: seq<Con>, u: int)
    requires Bot <= v < |t.con| && Bot <= w < |t.con| && u < |con| && AtOrBelow(v, w) && Leq(t.con, w, con, u)
    ensures Leq(t.con, v, con, u)
  {
  }

  lemma PhiStep(fn: Fn, t: Sol, s: Sol, n: int, b: nat, p: nat)
    requires Ready(fn) && Solution(fn, t) && Shape(fn, s) && Distinct(s.con) && NotAbove(fn, t, s, n)
    requires b < |fn.blks| && p < |fn.blks[b].phis| && (s.visit[b] || b == n)
    ensures BlkOk(fn, b) && Shape(fn, VisitPhi(fn, s, b, p)) && NotAbove(fn, t, VisitPhi(fn, s, b, p), n)
  {
    assert BlkOk(fn, b);
    var phi := fn.blks[b].phis[p];
    assert PhiDone(fn, t, b, p);
    forall a | 0 <= a < |phi.args| && !DeadEdge(fn, s, phi.args[a].blk, b)
      ensures Leq(t.con, t.val[phi.to], s.con, LatVal(fn, s, phi.args[a].arg))
    {
      LiveBelow(fn, t, s, n, phi.args[a].blk, b);
      LatBelow(fn, t, s, n, phi.args[a].arg);
      LeqThrough(t, t.val[phi.to], LatVal(fn, t, phi.args[a].arg), s.con, LatVal(fn, s, phi.args[a].arg));
    }
    PhiBelow(fn, t.con, t.val[phi.to], s, b, phi, |phi.args|);
    UpdateBelow(fn, t, s, n, phi.to, PhiVal(fn, s, b, phi, |phi.args|));
  }

  lemma LiveBelow(fn: Fn, t: Sol, s: Sol, n: int, from: nat, to: nat)
    requires Shape(fn, t) && Shape(fn, s) && NotAbove(fn, t, s, n) && from < |fn.blks| && !DeadEdge(fn, s, from, to)
    ensures !DeadEdge(fn, t, from, to)
  {
    assert !s.dead[2 * from] ==> Coming(s, 2 * from);
    assert !s.dead[2 * from + 1] ==> Coming(s, 2 * from + 1);
  }

  lemma FindDistinct(con: seq<Con>, c: Con)
    requires Distinct(con)
    ensures Distinct(AddCon(con, c))
  {
  }

  /** The value of an instruction is monotone. */
  lemma InsBelow(fn: Fn, t: Sol, s: Sol, n: int, i: Ins)
    requires Ready(fn) && Shape(fn, t) && Shape(fn, s) && Distinct(s.con) && NotAbove(fn, t, s, n)
    requires InsOk(fn, i) && i.to.Some? && InsSettled(fn, t, i)
    ensures Distinct(InsVal(fn, s, i).1)
    ensures Leq(t.con, t.val[i.to.value], InsVal(fn, s, i).1, InsVal(fn, s, i).0)
  {
    hide FoldInt, Find, NotAbove, Distinct, Strict, Single, UsesOk;
    if i.op.Fold? {
      var a, b := i.arg0, SecondArg(fn, i.arg1);
      LatBelow(fn, t, s, n, a);
      LatBelow(fn, t, s, n, b);
      var l, r := LatVal(fn, s, a), LatVal(fn, s, b);
      if l >= 0 && r >= 0 && FoldInt(i.op.op, i.wide, s.con[l], s.con[r]).Some? {
        FindDistinct(s.con, FoldInt(i.op.op, i.wide, s.con[l], s.con[r]).value);
      }
    }
  }

  lemma ConBelow(fn: Fn, t: Sol, s: Sol, n: int, con: seq<Con>)
    requires Shape(fn, t) && Shape(fn, s) && NotAbove(fn, t, s, n) && s.con <= con
    ensures Shape(fn, s.(con := con)) && NotAbove(fn, t, s.(con := con), n)
  {
    var s' := s.(con := con);
    forall e | 0 <= e < |s'.dead| && Coming(s', e)
      ensures !t.dead[e]
    {
      assert Coming(s, e);
    }
  }

  lemma InsStep(fn: Fn, t: Sol, s: Sol, n: int, b: nat, j: nat)
    requires Ready(fn) && Solution(fn, t) && Shape(fn, s) && Distinct(s.con) && NotAbove(fn, t, s, n)
    requires b < |fn.blks| && j < |fn.blks[b].ins| && (s.visit[b] || b == n)
    ensures BlkOk(fn, b) && InsOk(fn, fn.blks[b].ins[j])
    ensures Shape(fn, VisitIns(fn, s, fn.blks[b].ins[j])) && NotAbove(fn, t, VisitIns(fn, s, fn.blks[b].ins[j]), n)
  {
    hide FoldInt, Find, InsSettled;
    assert BlkOk(fn, b);
    var i := fn.blks[b].ins[j];
    assert InsOk(fn, i) && InsDone(fn, t, b, j);
    if i.to.Some? {
      var (v, con) := InsVal(fn, s, i);
      InsBelow(fn, t, s, n, i);
      ConBelow(fn, t, s, n, con);
      UpdateBelow(fn, t, s.(con := con), n, i.to.value, v);
    }
  }

  lemma JmpStep(fn: Fn, t: Sol, s: Sol, n: int, b: nat)
    requires Ready(fn) && Solution(fn, t) && Shape(fn, s) && NotAbove(fn, t, s, n)
    requires b < |fn.blks| && (s.visit[b] || b == n)
    requires fn.blks[b].jmp.Jnz? ==> BlkOk(fn, b) && LatVal(fn, s, fn.blks[b].jmp.arg) != Top
    ensures BlkOk(fn, b) && Shape(fn, VisitJmp(fn, s, b)) && NotAbove(fn, t, VisitJmp(fn, s, b), n)
  {
    assert BlkOk(fn, b) && JmpDone(fn, t, b, true);
    var s' := VisitJmp(fn, s, b);
    if fn.blks[b].jmp.Jnz? {
      LatBelow(fn, t, s, n, fn.blks[b].jmp.arg);
    }
    forall e | 0 <= e < |s'.dead| && Coming(s', e)
      ensures !t.dead[e]
    {
      assert Coming(s, e) || e == 2 * b || e == 2 * b + 1;
      assert Coming(t, e) ==> !t.dead[e];
    }
  }

  // ----- The same against all of them -----

  lemma GreatestStart(fn: Fn, s: Sol)
    requires Ready(fn) && Shape(fn, s) && s.con == fn.con && s.flow == [StartEdge(fn)]
    requires (forall x :: 0 <= x < |s.val| ==> s.val[x] == Top) && (forall e :: 0 <= e < |s.dead| ==> s.dead[e])
    requires forall m :: 0 <= m < |s.visit| ==> !s.visit[m]
    ensures Greatest(fn, s, -1)
  {
  }

  /** Nothing becomes alive or visited, no value goes down. */
  lemma GreatestSame(fn: Fn, s: Sol, s': Sol, n: int, n': int)
    requires Shape(fn, s) && Shape(fn, s') && Greatest(fn, s, n) && s'.con == s.con && s'.val == s.val
    requires forall m :: 0 <= m < |s.visit| && (s'.visit[m] || m == n') ==> s.visit[m] || m == n
    requires forall e :: 0 <= e < |s.dead| && Coming(s', e) ==> Coming(s, e)
    ensures Greatest(fn, s', n')
  {
  }

  /** An edge of the list comes alive: all solutions visit its target. */
  lemma GreatestEnter(fn: Fn, s: Sol, s': Sol, e: nat, n: nat)
    requires 0 < |fn.blks| && Shape(fn, s) && Shape(fn, s') && Greatest(fn, s, -1) && e in s.flow && e < |s.dead|
    requires Dest(fn, e) == n < |fn.blks| && s' == s.(flow := s'.flow, dead := s.dead[e := false])
    requires forall f :: f in s'.flow ==> f in s.flow
    ensures Greatest(fn, s', n)
  {
    forall t | Solution(fn, t)
      ensures NotAbove(fn, t, s', n)
    {
      assert NotAbove(fn, t, s, -1) && Coming(s, e);
      forall f | 0 <= f < |s'.dead| && Coming(s', f)
        ensures !t.dead[f]
      {
        assert Coming(s, f);
      }
    }
  }

  lemma GreatestPhi(fn: Fn, s: Sol, n: int, b: nat, p: nat)
    requires Ready(fn) && Shape(fn, s) && Greatest(fn, s, n)
    requires b < |fn.blks| && p < |fn.blks[b].phis| && (s.visit[b] || b == n)
    ensures BlkOk(fn, b) && Shape(fn, VisitPhi(fn, s, b, p)) && Greatest(fn, VisitPhi(fn, s, b, p), n)
  {
    VisitPhiDone(fn, s, b, p);
    forall t | Solution(fn, t)
      ensures NotAbove(fn, t, VisitPhi(fn, s, b, p), n)
    {
      PhiStep(fn, t, s, n, b, p);
    }
  }

  lemma GreatestIns(fn: Fn, s: Sol, n: int, b: nat, j: nat)
    requires Ready(fn) && Shape(fn, s) && Greatest(fn, s, n)
    requires b < |fn.blks| && j < |fn.blks[b].ins| && (s.visit[b] || b == n)
    ensures BlkOk(fn, b) && InsOk(fn, fn.blks[b].ins[j])
    ensures Shape(fn, VisitIns(fn, s, fn.blks[b].ins[j])) && Greatest(fn, VisitIns(fn, s, fn.blks[b].ins[j]), n)
  {
    hide FoldInt, Find, InsSettled;
    VisitInsDone(fn, s, b, j);
    InsDistinct(fn, s, fn.blks[b].ins[j]);
    forall t | Solution(fn, t)
      ensures NotAbove(fn, t, VisitIns(fn, s, fn.blks[b].ins[j]), n)
    {
      InsStep(fn, t, s, n, b, j);
    }
  }

  lemma InsDistinct(fn: Fn, s: Sol, i: Ins)
    requires Ready(fn) && Shape(fn, s) && InsOk(fn, i) && Distinct(s.con)
    ensures Distinct(VisitIns(fn, s, i).con)
  {
    hide FoldInt, Find;
    if i.to.Some? && i.op.Fold? {
      var l, r := LatVal(fn, s, i.arg0), LatVal(fn, s, SecondArg(fn, i.arg1));
      if l >= 0 && r >= 0 && FoldInt(i.op.op, i.wide, s.con[l], s.con[r]).Some? {
        FindDistinct(s.con, FoldInt(i.op.op, i.wide, s.con[l], s.con[r]).value);
      }
    }
  }

  lemma GreatestJmp(fn: Fn, s: Sol, n: int, b: nat)
    requires Ready(fn) && Shape(fn, s) && Greatest(fn, s, n)
    requires b < |fn.blks| && (s.visit[b] || b == n)
    requires fn.blks[b].jmp.Jnz? ==> BlkOk(fn, b) && LatVal(fn, s, fn.blks[b].jmp.arg) != Top
    ensures BlkOk(fn, b) && Shape(fn, VisitJmp(fn, s, b)) && Greatest(fn, VisitJmp(fn, s, b), n)
  {
    assert BlkOk(fn, b);
    forall t | Solution(fn, t)
      ensures NotAbove(fn, t, VisitJmp(fn, s, b), n)
    {
      JmpStep(fn, t, s, n, b);
    }
  }

  /** The first visit to a block ends. */
  lemma GreatestVisit(fn: Fn, s: Sol, n: nat)
    requires Ready(fn) && Shape(fn, s) && Greatest(fn, s, n) && n < |fn.blks|
    requires fn.blks[n].jmp.Jnz? ==> BlkOk(fn, n) && LatVal(fn, s, fn.blks[n].jmp.arg) != Top
    ensures BlkOk(fn, n)
    ensures var s' := VisitJmp(fn, s, n).(visit := s.visit[n := true]); Shape(fn, s') && Greatest(fn, s', -1)
  {
    GreatestJmp(fn, s, n, n);
    var s' := VisitJmp(fn, s, n);
    GreatestSame(fn, s', s'.(visit := s.visit[n := true]), n, -1);
  }

  // ----- Evaluated again at the end -----

  /** The branch of block n may take its first or its second edge, as far as s knows. */
  predicate Allows(fn: Fn, s: Sol, n: nat, second: bool)
    requires Shape(fn, s) && n < |fn.blks| && JumpOk(fn, fn.blks[n])
  {
    match fn.blks[n].jmp
    case Jmp => !second
    case Ret(_, _) => false
    case Jnz(a) => var l := LatVal(fn, s, a); l < 0 || IsZero(s, l) == second
  }

  ghost predicate PhiExact(fn: Fn, s: Sol, n: nat, p: nat)
    requires WellFormed(fn) && Shape(fn, s) && n < |fn.blks| && p < |fn.blks[n].phis|
  {
    assert BlkOk(fn, n);
    var phi := fn.blks[n].phis[p];
    s.val[phi.to] == PhiVal(fn, s, n, phi, |phi.args|)
  }

  ghost predicate InsExact(fn: Fn, s: Sol, n: nat, j: nat)
    requires WellFormed(fn) && Shape(fn, s) && n < |fn.blks| && j < |fn.blks[n].ins|
  {
    assert BlkOk(fn, n) && InsOk(fn, fn.blks[n].ins[j]);
    var i := fn.blks[n].ins[j];
    i.to.Some? ==> InsVal(fn, s, i) == (s.val[i.to.value], s.con)
  }

  /** An edge is alive exactly if its block is visited and the branch may take it. */
  ghost predicate EdgesExact(fn: Fn, s: Sol, n: nat)
    requires WellFormed(fn) && Shape(fn, s) && n < |fn.blks|
  {
    assert BlkOk(fn, n);
    && !s.dead[2 * n] == (s.visit[n] && Allows(fn, s, n, false))
    && !s.dead[2 * n + 1] == (s.visit[n] && Allows(fn, s, n, true))
  }

  /** Evaluating anything again in a visited block gives what is stored; the blocks
      visited are those with a live edge into them. */
  ghost predicate Reevaluates(fn: Fn, s: Sol)
    requires WellFormed(fn) && Shape(fn, s)
  {
    && (forall n, p :: 0 <= n < |fn.blks| && 0 <= p < |fn.blks[n].phis| && s.visit[n] ==> PhiExact(fn, s, n, p))
    && (forall n, j :: 0 <= n < |fn.blks| && 0 <= j < |fn.blks[n].ins| && s.visit[n] ==> InsExact(fn, s, n, j))
    && (forall n :: 0 <= n < |fn.blks| ==> EdgesExact(fn, s, n))
    && (forall n :: 0 <= n < |fn.blks| ==> (s.visit[n] <==> Entered(fn, s, n)))
  }

  lemma SolvedIsSolution(fn: Fn, s: Sol)
    requires Solved(fn, s)
    ensures Solution(fn, s)
  {
  }

  /** What the temporary of a settled phi or instruction may be raised to. */
  ghost predicate MayRise(fn: Fn, s: Sol, t: Sol, u: Use, x: nat)
  {
    && Solved(fn, s) && Shape(fn, t) && x < |s.val| && s.val[x] == Bot && Defines(fn, u, x)
    && s.con <= t.con && t == s.(con := t.con, val := s.val[x := t.val[x]])
    && match u
       case UPhi(n, p) => s.visit[n] ==> PhiDone(fn, t, n, p)
       case UIns(n, j) => s.visit[n] ==> InsDone(fn, t, n, j)
  }

  lemma OtherPhi(fn: Fn, s: Sol, t: Sol, u: Use, x: nat, b: nat, p: nat)
    requires MayRise(fn, s, t, u, x) && b < |fn.blks| && p < |fn.blks[b].phis| && s.visit[b] && u != UPhi(b, p)
    ensures PhiDone(fn, t, b, p)
  {
    assert BlkOk(fn, b) && PhiDone(fn, s, b, p);
    var phi := fn.blks[b].phis[p];
    assert phi.to != x by {
      assert Defines(fn, UPhi(b, p), phi.to);
    }
    forall a | 0 <= a < |phi.args| && !DeadEdge(fn, t, phi.args[a].blk, b)
      ensures AtOrBelow(t.val[phi.to], LatVal(fn, t, phi.args[a].arg))
    {
      assert !DeadEdge(fn, s, phi.args[a].blk, b);
      assert AtOrBelow(s.val[phi.to], LatVal(fn, s, phi.args[a].arg));
    }
  }

  lemma OtherIns(fn: Fn, s: Sol, t: Sol, u: Use, x: nat, b: nat, j: nat)
    requires MayRise(fn, s, t, u, x) && b < |fn.blks| && j < |fn.blks[b].ins| && s.visit[b] && u != UIns(b, j)
    ensures InsDone(fn, t, b, j)
  {
    hide FoldInt;
    assert BlkOk(fn, b) && InsDone(fn, s, b, j);
    var i := fn.blks[b].ins[j];
    assert InsOk(fn, i);
    assert i.to != Some(x) by {
      assert i.to == Some(x) ==> Defines(fn, UIns(b, j), x);
    }
  }

  lemma SameJmp(fn: Fn, s: Sol, t: Sol, u: Use, x: nat, b: nat)
    requires MayRise(fn, s, t, u, x) && b < |fn.blks| && s.visit[b]
    ensures JmpDone(fn, t, b, true)
  {
    assert BlkOk(fn, b) && JmpDone(fn, s, b, true);
  }

  /** No value can be raised: the result would be a solution that knows more. */
  lemma NotRaised(fn: Fn, s: Sol, t: Sol, u: Use, x: nat)
    requires MayRise(fn, s, t, u, x)
    ensures t.val[x] == Bot
  {
    forall b: nat, p: nat | b < |fn.blks| && p < |fn.blks[b].phis| && t.visit[b]
      ensures PhiDone(fn, t, b, p)
    {
      if u != UPhi(b, p) {
        OtherPhi(fn, s, t, u, x, b, p);
      }
    }
    forall b: nat, j: nat | b < |fn.blks| && j < |fn.blks[b].ins| && t.visit[b]
      ensures InsDone(fn, t, b, j)
    {
      if u != UIns(b, j) {
        OtherIns(fn, s, t, u, x, b, j);
      }
    }
    forall b: nat | b < |fn.blks| && t.visit[b]
      ensures JmpDone(fn, t, b, true)
    {
      SameJmp(fn, s, t, u, x, b);
    }
    assert Solution(fn, t);
    assert Leq(t.con, t.val[x], s.con, s.val[x]);
  }

  /** A visited block has a live edge into it: without it the rest would be a solution. */
  lemma VisitedEntered(fn: Fn, s: Sol, n: nat)
    requires Solved(fn, s) && n < |fn.blks| && s.visit[n]
    ensures Entered(fn, s, n)
  {
    if !Entered(fn, s, n) {
      var t := s.(visit := s.visit[n := false]);
      forall b: nat, p: nat | b < |fn.blks| && p < |fn.blks[b].phis| && t.visit[b]
        ensures PhiDone(fn, t, b, p)
      {
        assert BlkOk(fn, b) && PhiDone(fn, s, b, p);
        assert forall f :: 0 <= f < |fn.blks| ==> DeadEdge(fn, t, f, b) == DeadEdge(fn, s, f, b);
      }
      forall b: nat, j: nat | b < |fn.blks| && j < |fn.blks[b].ins| && t.visit[b]
        ensures InsDone(fn, t, b, j)
      {
        assert BlkOk(fn, b) && InsDone(fn, s, b, j);
      }
      forall b: nat | b < |fn.blks| && t.visit[b]
        ensures JmpDone(fn, t, b, true)
      {
        assert BlkOk(fn, b) && JmpDone(fn, s, b, true);
      }
      assert Solution(fn, t);
    }
  }

  /** A live edge may be taken: otherwise the rest would be a solution. */
  lemma LiveAllowed(fn: Fn, s: Sol, n: nat, second: bool)
    requires Solved(fn, s) && n < |fn.blks| && s.visit[n] && !s.dead[if second then 2 * n + 1 else 2 * n]
    ensures BlkOk(fn, n) && Allows(fn, s, n, second)
  {
    assert BlkOk(fn, n);
    if !Allows(fn, s, n, second) {
      var e := if second then 2 * n + 1 else 2 * n;
      var t := s.(dead := s.dead[e := true]);
      forall b: nat, p: nat | b < |fn.blks| && p < |fn.blks[b].phis| && t.visit[b]
        ensures PhiDone(fn, t, b, p)
      {
        FewerEdges(fn, s, e, b, p);
      }
      forall b: nat, j: nat | b < |fn.blks| && j < |fn.blks[b].ins| && t.visit[b]
        ensures InsDone(fn, t, b, j)
      {
        assert BlkOk(fn, b) && InsDone(fn, s, b, j);
      }
      forall b: nat | b < |fn.blks| && t.visit[b]
        ensures JmpDone(fn, t, b, true)
      {
        WithoutEdge(fn, s, n, second, b);
      }
      assert Solution(fn, t);
      assert NotAbove(fn, t, s, -1) && Coming(s, e);
    }
  }

  lemma FewerEdges(fn: Fn, s: Sol, e: nat, b: nat, p: nat)
    requires Solved(fn, s) && e < |s.dead| && b < |fn.blks| && p < |fn.blks[b].phis| && s.visit[b]
    ensures PhiDone(fn, s.(dead := s.dead[e := true]), b, p)
  {
    assert BlkOk(fn, b) && PhiDone(fn, s, b, p);
    var t, phi := s.(dead := s.dead[e := true]), fn.blks[b].phis[p];
    forall a | 0 <= a < |phi.args| && !DeadEdge(fn, t, phi.args[a].blk, b)
      ensures AtOrBelow(t.val[phi.to], LatVal(fn, t, phi.args[a].arg))
    {
      assert !DeadEdge(fn, s, phi.args[a].blk, b);
    }
  }

  lemma WithoutEdge(fn: Fn, s: Sol, n: nat, second: bool, b: nat)
    requires Solved(fn, s) && n < |fn.blks| && b < |fn.blks| && s.visit[b] && BlkOk(fn, n) && !Allows(fn, s, n, second)
    ensures JmpDone(fn, s.(dead := s.dead[if second then 2 * n + 1 else 2 * n := true]), b, true)
  {
    assert BlkOk(fn, b) && JmpDone(fn, s, b, true);
  }

  /** An edge of a visited block that may be taken is alive. */
  lemma AllowedLive(fn: Fn, s: Sol, n: nat, second: bool)
    requires Solved(fn, s) && n < |fn.blks| && s.visit[n] && BlkOk(fn, n) && Allows(fn, s, n, second)
    ensures !s.dead[if second then 2 * n + 1 else 2 * n]
  {
    assert JmpDone(fn, s, n, true);
  }

  lemma EdgesAgain(fn: Fn, s: Sol, n: nat)
    requires Solved(fn, s) && n < |fn.blks|
    ensures EdgesExact(fn, s, n)
  {
    assert BlkOk(fn, n);
    assert forall e :: (e == 2 * n || e == 2 * n + 1) && !s.dead[e] ==> FromVisited(fn, s.visit, e);
    forall second | s.visit[n]
      ensures !s.dead[if second then 2 * n + 1 else 2 * n] == Allows(fn, s, n, second)
    {
      if Allows(fn, s, n, second) {
        AllowedLive(fn, s, n, second);
      } else if !s.dead[if second then 2 * n + 1 else 2 * n] {
        LiveAllowed(fn, s, n, second);
      }
    }
  }

  lemma PhiAgain(fn: Fn, s: Sol, n: nat, p: nat)
    requires Solved(fn, s) && n < |fn.blks| && p < |fn.blks[n].phis| && s.visit[n]
    ensures PhiExact(fn, s, n, p)
  {
    assert BlkOk(fn, n) && PhiDone(fn, s, n, p);
    var phi := fn.blks[n].phis[p];
    var x, v := phi.to, PhiVal(fn, s, n, phi, |phi.args|);
    PhiValBelow(fn, s, n, phi, |phi.args|);
    PhiMeet(fn, s, n, phi, |phi.args|, s.val[x]);
    if s.val[x] != v && s.val[x] == Bot {
      var t := s.(val := s.val[x := v]);
      SettledAt(fn, s, t, n, p);
      assert Defines(fn, UPhi(n, p), x);
      NotRaised(fn, s, t, UPhi(n, p), x);
    }
    if v == Top {
      VisitedEntered(fn, s, n);
      ArgNotTop(fn, s, -1, 0, 0, n, p);
    }
  }

  lemma SettledAt(fn: Fn, s: Sol, t: Sol, n: nat, p: nat)
    requires WellFormed(fn) && Shape(fn, s) && n < |fn.blks| && p < |fn.blks[n].phis| && BlkOk(fn, n)
    requires var phi := fn.blks[n].phis[p];
      s.val[phi.to] == Bot && t == s.(val := s.val[phi.to := PhiVal(fn, s, n, phi, |phi.args|)])
    ensures Shape(fn, t) && PhiDone(fn, t, n, p)
  {
    var phi := fn.blks[n].phis[p];
    PhiValBelow(fn, s, n, phi, |phi.args|);
    forall a | 0 <= a < |phi.args| && !DeadEdge(fn, t, phi.args[a].blk, n)
      ensures AtOrBelow(t.val[phi.to], LatVal(fn, t, phi.args[a].arg))
    {
      assert !DeadEdge(fn, s, phi.args[a].blk, n);
    }
  }

  /** A value at or below each argument over a live edge is at or below what they merge to. */
  lemma {:induction false} PhiMeet(fn: Fn, s: Sol, n: nat, phi: Phi, k: nat, v: int)
    requires Shape(fn, s) && PhiOk(fn, phi) && k <= |phi.args|
    requires forall a :: 0 <= a < k && !DeadEdge(fn, s, phi.args[a].blk, n) ==> AtOrBelow(v, LatVal(fn, s, phi.args[a].arg))
    ensures AtOrBelow(v, PhiVal(fn, s, n, phi, k))
  {
    if k > 0 {
      PhiMeet(fn, s, n, phi, k - 1, v);
    }
  }

  /** What may take the place of Bot in an instruction. */
  lemma InsRise(fn: Fn, s: Sol, n: nat, j: nat, t: Sol)
    requires Ready(fn) && Shape(fn, s) && n < |fn.blks| && j < |fn.blks[n].ins| && BlkOk(fn, n) && InsOk(fn, fn.blks[n].ins[j])
    requires var i := fn.blks[n].ins[j];
      i.to.Some? && s.val[i.to.value] == Bot &&
      var (v, con) := InsVal(fn, s, i); t == s.(con := con, val := s.val[i.to.value := v])
    ensures Shape(fn, t)
    ensures t.val[fn.blks[n].ins[j].to.value] != Bot ==> InsDone(fn, t, n, j)
  {
    hide FoldInt, Find, Strict, Single, UsesOk;
  }

  lemma InsAgain(fn: Fn, s: Sol, n: nat, j: nat)
    requires Solved(fn, s) && n < |fn.blks| && j < |fn.blks[n].ins| && s.visit[n]
    ensures InsExact(fn, s, n, j)
  {
    assert BlkOk(fn, n) && InsOk(fn, fn.blks[n].ins[j]) && InsDone(fn, s, n, j);
    var i := fn.blks[n].ins[j];
    if i.to.Some? {
      var x := i.to.value;
      var (v, con) := InsVal(fn, s, i);
      if s.val[x] == Bot && v != Bot {
        var t := s.(con := con, val := s.val[x := v]);
        InsRise(fn, s, n, j, t);
        assert Defines(fn, UIns(n, j), x);
        NotRaised(fn, s, t, UIns(n, j), x);
      }
      InsSame(fn, s, n, j);
    }
  }

  lemma InsSame(fn: Fn, s: Sol, n: nat, j: nat)
    requires Solved(fn, s) && n < |fn.blks| && j < |fn.blks[n].ins| && s.visit[n]
    requires BlkOk(fn, n) && InsOk(fn, fn.blks[n].ins[j]) && fn.blks[n].ins[j].to.Some?
    requires s.val[fn.blks[n].ins[j].to.value] == Bot ==> InsVal(fn, s, fn.blks[n].ins[j]).0 == Bot
    ensures InsVal(fn, s, fn.blks[n].ins[j]) == (s.val[fn.blks[n].ins[j].to.value], s.con)
  {
    hide FoldInt;
    assert StrictBlk(fn, n) && InsDone(fn, s, n, j);
    var i := fn.blks[n].ins[j];
    if i.op.Fold? {
      UsedNotTop(fn, s, -1, 0, 0, n, j, i.arg0);
      if !i.arg1.RNone? {
        UsedNotTop(fn, s, -1, 0, 0, n, j, i.arg1);
      }
    }
  }

  /** When the solver has finished, evaluating anything again gives what is stored. */
  lemma SolvedReevaluates(fn: Fn, s: Sol)
    requires Solved(fn, s)
    ensures Reevaluates(fn, s)
  {
    forall n: nat, p: nat | n < |fn.blks| && p < |fn.blks[n].phis| && s.visit[n]
      ensures PhiExact(fn, s, n, p)
    {
      PhiAgain(fn, s, n, p);
    }
    forall n: nat, j: nat | n < |fn.blks| && j < |fn.blks[n].ins| && s.visit[n]
      ensures InsExact(fn, s, n, j)
    {
      InsAgain(fn, s, n, j);
    }
    forall n: nat | n < |fn.blks|
      ensures EdgesExact(fn, s, n)
      ensures s.visit[n] <==> Entered(fn, s, n)
    {
      EdgesAgain(fn, s, n);
      if s.visit[n] {
        VisitedEntered(fn, s, n);
      }
    }
  }

  /** Two runs of the solver, in whatever order they work, find the same: the same blocks, the
      same live edges, and the same constants, each under its own index in its own table. */
  lemma SolvedUnique(fn: Fn, s: Sol, t: Sol)
    requires Solved(fn, s) && Solved(fn, t)
    ensures s.visit == t.visit && s.dead == t.dead
    ensures forall x :: 0 <= x < |s.val| ==>
      if s.val[x] >= 0 then t.val[x] >= 0 && t.con[t.val[x]] == s.con[s.val[x]] else t.val[x] == s.val[x]
  {
    SolvedIsSolution(fn, s);
    SolvedIsSolution(fn, t);
    assert NotAbove(fn, t, s, -1) && NotAbove(fn, s, t, -1);
    forall e | 0 <= e < |s.dead|
      ensures s.dead[e] == t.dead[e]
    {
      assert Coming(s, e) == !s.dead[e] && Coming(t, e) == !t.dead[e];
    }
    assert forall m :: 0 <= m < |s.visit| ==> s.visit[m] == t.visit[m];
    forall x | 0 <= x < |s.val|
      ensures if s.val[x] >= 0 then t.val[x] >= 0 && t.con[t.val[x]] == s.con[s.val[x]] else t.val[x] == s.val[x]
    {
      assert Leq(t.con, t.val[x], s.con, s.val[x]) && Leq(s.con, s.val[x], t.con, t.val[x]);
    }
  }
}
