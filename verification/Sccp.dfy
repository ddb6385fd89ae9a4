/** Sparse conditional constant propagation as the code performs it
    (lib/qbe-1.0/fold.c): static arrays, an intrusive list of edges and a
    stack of uses. Each method is tied to the step of SccpLattice it performs. */
module Sccp {
  import opened Basics
  import opened Finite
  import opened Folding
  import opened Ssa
  import opened SccpLattice
  import opened SccpInvariant
  import opened SccpGreatest

  /** The edges on the worklist, linked through their work fields; -1 is null. */
  ghost predicate Links(head: int, work: seq<int>, flow: seq<nat>) {
    && head == (if flow == [] then -1 else flow[0])
    && (forall i :: 0 <= i < |flow| ==> flow[i] < |work|)
    && (forall i, j :: 0 <= i < j < |flow| && j == i + 1 ==> work[flow[i]] == flow[j])
    && (flow != [] ==> work[flow[|flow| - 1]] == -1)
  }

  /** Putting an edge that is not on the list in front keeps the list intact. */
  lemma PushLinks(head: int, work: seq<int>, flow: seq<nat>, e: nat)
    requires Links(head, work, flow) && e < |work| && e !in flow
    ensures Links(e, work[e := head], [e] + flow)
  {
    var flow', work' := [e] + flow, work[e := head];
    forall i, j | 0 <= i < j < |flow'| && j == i + 1
      ensures work'[flow'[i]] == flow'[j]
    {
      if i > 0 {
        assert flow'[i] == flow[i - 1] && flow'[j] == flow[j - 1];
      }
    }
  }

  lemma PopLinks(head: int, work: seq<int>, flow: seq<nat>)
    requires Links(head, work, flow) && flow != [] && Distinct(flow)
    ensures flow[0] < |work| && Links(work[flow[0]], work[flow[0] := -1], flow[1..])
  {
    if |flow| > 1 {
      assert work[flow[0]] == flow[1];
    }
  }

  function Visited(visit: seq<nat>): (v: seq<bool>)
    ensures |v| == |visit| && forall i :: 0 <= i < |v| ==> v[i] == (visit[i] > 0)
  {
    seq(|visit|, i requires 0 <= i < |visit| => visit[i] > 0)
  }

  lemma BlkIsOk(fn: Fn, n: nat)
    requires Ready(fn) && n < |fn.blks|
    ensures BlkOk(fn, n) && (n == 0 ==> fn.blks[n].phis == [])
  {
    assert BlkOk(fn, n);
  }

  lemma VisitDescends(fn: Fn, s: Sol, n: nat)
    requires Ready(fn) && Shape(fn, s) && n < |fn.blks|
    ensures BlkOk(fn, n)
    ensures forall p :: 0 <= p < |fn.blks[n].phis| ==> Descends(s.val, VisitPhi(fn, s, n, p).val)
    ensures forall i :: 0 <= i < |fn.blks[n].ins| ==> Descends(s.val, VisitIns(fn, s, fn.blks[n].ins[i]).val)
  {
    assert BlkOk(fn, n);
  }

  lemma DescendsSelf(v: seq<int>)
    ensures Descends(v, v)
  {
  }

  lemma DescendsFurther(v: seq<int>, v': seq<int>, v'': seq<int>)
    requires Descends(v, v') && Descends(v', v'')
    ensures Descends(v, v'')
  {
  }

  /** Before the branch of a block is looked at for the first time. */
  lemma JnzReady(fn: Fn, s: Sol, n: nat)
    requires n < |fn.blks| && Inv(fn, s, n, |fn.blks[n].phis|, |fn.blks[n].ins|) && !s.visit[n]
    ensures BlkOk(fn, n) && s.dead[2 * n] && s.dead[2 * n + 1] && 2 * n !in s.flow && 2 * n + 1 !in s.flow
    ensures fn.blks[n].jmp.Jnz? ==> LatVal(fn, s, fn.blks[n].jmp.arg) != Top
    ensures VisitJmp(fn, s, n).visit == s.visit
  {
    assert BlkOk(fn, n);
    NotYetLeft(fn, s, n, |fn.blks[n].phis|, |fn.blks[n].ins|);
    if fn.blks[n].jmp.Jnz? {
      JnzNotTop(fn, s, n, |fn.blks[n].phis|, |fn.blks[n].ins|, n);
    }
  }

  lemma JmpHead(fn: Fn, s: Sol, n: nat)
    requires n < |fn.blks| && Inv(fn, s, -1, 0, 0) && s.visit[n]
    ensures fn.blks[n].jmp.Jmp? && s.dead[2 * n] ==> s.flow != [] && s.flow[0] == 2 * n
  {
    assert JmpDone(fn, s, n, true);
  }

  lemma FlowDistinct(fn: Fn, s: Sol)
    requires Inv(fn, s, -1, 0, 0)
    ensures Distinct(s.flow) && 0 < |fn.blks|
  {
  }

  lemma DestInRange(fn: Fn, s: Sol, e: nat)
    requires Inv(fn, s, -1, 0, 0) && e <= 2 * |fn.blks| && Dest(fn, e) != -1
    ensures 0 <= Dest(fn, e) < |fn.blks|
  {
    if e < 2 * |fn.blks| {
      assert BlkOk(fn, e / 2);
    }
  }

  lemma StartVisited(fn: Fn, s: Sol)
    requires Inv(fn, s, -1, 0, 0) && !s.dead[StartEdge(fn)]
    ensures s.visit[0]
  {
  }

  /** Evaluating a phi again deals with its use. */
  lemma PhiUse(fn: Fn, s: Sol, s': Sol, n: nat, p: nat)
    requires Inv(fn, s, -1, 0, 0) && s.wrk == s'.wrk + [UPhi(n, p)] && s' == s.(wrk := s'.wrk) && Shape(fn, s')
    requires n < |fn.blks| && p < |fn.blks[n].phis| && s.visit[n] && Greatest(fn, s', -1)
    ensures BlkOk(fn, n) && Inv(fn, VisitPhi(fn, s', n, p), -1, 0, 0) && Descends(s.val, VisitPhi(fn, s', n, p).val)
    ensures Greatest(fn, VisitPhi(fn, s', n, p), -1)
    ensures VisitPhi(fn, s', n, p).val == s.val ==> VisitPhi(fn, s', n, p).wrk == s'.wrk
  {
    hide Greatest;
    VisitPhiKeeps(fn, s, -1, 0, 0, n, p);
    GreatestPhi(fn, s', -1, n, p);
    VisitPhiDone(fn, s', n, p);
    SamePhiVal(fn, s, s', n, fn.blks[n].phis[p], |fn.blks[n].phis[p].args|);
    assert UPhi(n, p) in s.wrk;
    DropUse(fn, VisitPhi(fn, s, n, p), VisitPhi(fn, s', n, p), UPhi(n, p));
  }

  lemma {:induction false} SamePhiVal(fn: Fn, s: Sol, s': Sol, n: nat, phi: Phi, k: nat)
    requires Shape(fn, s) && Shape(fn, s') && PhiOk(fn, phi) && k <= |phi.args| && s' == s.(wrk := s'.wrk)
    ensures PhiVal(fn, s', n, phi, k) == PhiVal(fn, s, n, phi, k)
  {
    if k > 0 {
      SamePhiVal(fn, s, s', n, phi, k - 1);
    }
  }

  /** Evaluating an instruction does not depend on the uses that are waiting. */
  lemma WithoutUse(fn: Fn, s: Sol, s': Sol, i: Ins, u: Use)
    requires Ready(fn) && Shape(fn, s) && Shape(fn, s') && InsOk(fn, i) && s.wrk == s'.wrk + [u] && s' == s.(wrk := s'.wrk)
    ensures var t, t' := VisitIns(fn, s, i), VisitIns(fn, s', i);
      && t' == t.(wrk := t'.wrk)
      && (t'.val == s.val ==> t'.wrk == s'.wrk)
      && (forall w :: w in t'.wrk ==> w in t.wrk)
      && u in t.wrk && (forall w :: w in t.wrk ==> w == u || w in t'.wrk)
  {
    hide FoldInt, Find;
  }

  lemma InvReady(fn: Fn, s: Sol)
    requires Inv(fn, s, -1, 0, 0)
    ensures Ready(fn)
  {
  }

  lemma InsUse(fn: Fn, s: Sol, s': Sol, n: nat, i: nat)
    requires Inv(fn, s, -1, 0, 0) && s.wrk == s'.wrk + [UIns(n, i)] && s' == s.(wrk := s'.wrk) && Shape(fn, s')
    requires n < |fn.blks| && i < |fn.blks[n].ins| && s.visit[n] && Greatest(fn, s', -1)
    ensures BlkOk(fn, n) && InsOk(fn, fn.blks[n].ins[i])
    ensures var t := VisitIns(fn, s', fn.blks[n].ins[i]);
      Inv(fn, t, -1, 0, 0) && Greatest(fn, t, -1) && Descends(s.val, t.val) && (t.val == s.val ==> t.wrk == s'.wrk)
  {
    InvReady(fn, s);
    hide VisitIns, Inv, InsSettled, Greatest;
    GreatestIns(fn, s', -1, n, i);
    VisitInsKeeps(fn, s, -1, 0, 0, n, i);
    VisitInsDone(fn, s', n, i);
    VisitDescends(fn, s', n);
    WithoutUse(fn, s, s', fn.blks[n].ins[i], UIns(n, i));
    assert UIns(n, i) in s.wrk;
    DropUse(fn, VisitIns(fn, s, fn.blks[n].ins[i]), VisitIns(fn, s', fn.blks[n].ins[i]), UIns(n, i));
  }

  lemma JmpUse(fn: Fn, s: Sol, s': Sol, n: nat)
    requires Inv(fn, s, -1, 0, 0) && s.wrk == s'.wrk + [UJmp(n)] && s' == s.(wrk := s'.wrk) && Shape(fn, s')
    requires n < |fn.blks| && s.visit[n] && s.flow == [] && Greatest(fn, s', -1)
    ensures BlkOk(fn, n) && Inv(fn, VisitJmp(fn, s', n), -1, 0, 0) && Greatest(fn, VisitJmp(fn, s', n), -1)
    ensures VisitJmp(fn, s', n).val == s.val && VisitJmp(fn, s', n).wrk == s'.wrk
    ensures fn.blks[n].jmp.Jnz? ==>
      var l := LatVal(fn, s', fn.blks[n].jmp.arg);
      l != Top && (l >= 0 ==> if IsZero(s', l) then s'.dead[2 * n] else s'.dead[2 * n + 1])
  {
    hide Greatest;
    JmpAgain(fn, s, n);
    GreatestJmp(fn, s', -1, n);
    assert UJmp(n) in s.wrk;
    DropUse(fn, VisitJmp(fn, s, n), VisitJmp(fn, s', n), UJmp(n));
  }

  /** Before the solver starts. */
  lemma StartState(fn: Fn, s: Sol)
    requires Ready(fn) && s.con == fn.con && |s.val| == |fn.wide| && |s.dead| == 2 * |fn.blks| + 1 && |s.visit| == |fn.blks|
    requires (forall t :: 0 <= t < |s.val| ==> s.val[t] == Top) && (forall e :: 0 <= e < |s.dead| ==> s.dead[e])
    requires (forall n :: 0 <= n < |s.visit| ==> !s.visit[n]) && s.flow == [StartEdge(fn)] && s.wrk == []
    ensures Shape(fn, s) && Inv(fn, s, -1, 0, 0) && Greatest(fn, s, -1)
  {
    GreatestStart(fn, s);
  }

  class Folder {
    const fn: Fn
    var con: seq<Con>
    const val: array<int>
    const dead: array<bool>
    const work: array<int>
    const visit: array<nat>
    var flowrk: int
    var usewrk: seq<Use>
    ghost var flow: seq<nat>

    ghost predicate Valid()
      reads this, val, dead, work, visit
    {
      && dead.Length == work.Length && val != work
      && Links(flowrk, work[..], flow)
      && Ready(fn) && Shape(fn, State())
    }

    ghost function State(): Sol
      reads this, val, dead, visit
    {
      Sol(con, val[..], dead[..], Visited(visit[..]), flow, usewrk)
    }

    /** All values Top, all edges dead, no block visited, and the start edge on the list. */
    constructor (f: Fn)
      requires Ready(f)
      ensures Valid() && fn == f && fresh(val) && fresh(dead) && fresh(work) && fresh(visit)
      ensures Inv(fn, State(), -1, 0, 0) && Greatest(fn, State(), -1) && flow == [StartEdge(fn)]
    {
      fn := f;
      con := f.con;
      val := new int[|f.wide|](_ => Top);
      dead := new bool[2 * |f.blks| + 1](_ => true);
      work := new int[2 * |f.blks| + 1](_ => -1);
      visit := new nat[|f.blks|](_ => 0);
      flowrk := StartEdge(f);
      usewrk := [];
      flow := [StartEdge(f)];
      new;
      StartState(f, State());
    }

    method Update(t: nat, m: int)
      requires Valid() && t < val.Length && LatOk(State(), m)
      modifies val, this`usewrk
      ensures Valid() && State() == SccpLattice.Update(fn, old(State()), t, m)
    {
      var m' := Merge(val[t], m);
      if m' != val[t] {
        var u := 0;
        while u < |fn.uses[t]|
          invariant 0 <= u <= |fn.uses[t]| && usewrk == old(usewrk) + fn.uses[t][..u]
          invariant val[..] == old(val[..])
        {
          usewrk := usewrk + [fn.uses[t][u]];
          u := u + 1;
        }
        assert fn.uses[t][..u] == fn.uses[t];
        val[t] := m';
        UpdateShape(fn, old(State()), t, m);
      }
    }

    function Lat(r: Ref): int
      reads this, val
      requires val.Length == |fn.wide| && Plain(fn, r)
    {
      match r
      case RTmp(t) => val[t]
      case RCon(c) => c
    }

    method IsDead(s: nat, d: nat) returns (r: bool)
      requires Valid() && s < |fn.blks|
      ensures r == DeadEdge(fn, State(), s, d)
    {
      if fn.blks[s].s1 == d && !dead[2 * s] {
        return false;
      }
      if fn.blks[s].s2 == d && !dead[2 * s + 1] {
        return false;
      }
      return true;
    }

    /** What the arguments of a phi contribute over edges that are not dead. */
    method MergeArgs(n: nat, phi: Phi) returns (v: int)
      requires Valid() && PhiOk(fn, phi)
      ensures v == PhiVal(fn, State(), n, phi, |phi.args|)
    {
      v := Top;
      var a := 0;
      while a < |phi.args|
        invariant 0 <= a <= |phi.args| && v == PhiVal(fn, State(), n, phi, a)
      {
        var d := IsDead(phi.args[a].blk, n);
        if !d {
          v := Merge(v, Lat(phi.args[a].arg));
        }
        a := a + 1;
      }
    }

    method DoPhi(n: nat, p: nat)
      requires Valid() && n < |fn.blks| && p < |fn.blks[n].phis| && PhiOk(fn, fn.blks[n].phis[p])
      modifies val, this`usewrk
      ensures Valid() && State() == VisitPhi(fn, old(State()), n, p)
    {
      var v := MergeArgs(n, fn.blks[n].phis[p]);
      PhiValBelow(fn, State(), n, fn.blks[n].phis[p], |fn.blks[n].phis[p].args|);
      Update(fn.blks[n].phis[p].to, v);
    }

    /** The index of a constant, which is added to the table if it is new. */
    method NewCon(c: Con) returns (i: nat)
      modifies this`con
      ensures i == Find(old(con), c) && con == AddCon(old(con), c)
    {
      i := 0;
      while i < |con|
        invariant 0 <= i <= |con| && Find(con, c) == i + Find(con[i..], c)
      {
        if con[i] == c {
          return;
        }
        i := i + 1;
      }
      con := con + [c];
    }

    method DoIns(i: Ins)
      requires Valid() && InsOk(fn, i)
      modifies val, this`usewrk, this`con
      ensures Valid() && State() == VisitIns(fn, old(State()), i)
    {
      hide FoldInt, Find;
      if i.to.None? {
        return;
      }
      ghost var s := State();
      var v := Bot;
      if i.op.Fold? {
        var l := Lat(i.arg0);
        var r := Lat(SecondArg(fn, i.arg1));
        if l == Bot || r == Bot {
          v := Bot;
        } else if l == Top || r == Top {
          v := Top;
        } else {
          var c := FoldInt(i.op.op, i.wide, con[l], con[r]);
          if c.Some? {
            v := NewCon(c.value);
          }
        }
      }
      assert State() == s.(con := con) && (v, con) == InsVal(fn, s, i);
      Update(i.to.value, v);
    }

    method Push(e: nat)
      requires Valid() && e < work.Length && e !in flow
      modifies work, this`flowrk, this`flow
      ensures Valid() && State() == old(State()).(flow := [e] + old(flow))
    {
      PushLinks(flowrk, work[..], flow, e);
      work[e] := flowrk;
      flowrk := e;
      flow := [e] + flow;
      assert work[..] == old(work[..])[e := old(flowrk)];
    }

    /** The assertions are those of the code: the condition is not Top, and an
        edge that a constant condition rules out is dead. */
    method DoJmp(n: nat)
      requires Valid() && n < |fn.blks| && JumpOk(fn, fn.blks[n])
      requires 2 * n !in flow && 2 * n + 1 !in flow
      requires fn.blks[n].jmp.Jnz? ==>
        var l := LatVal(fn, State(), fn.blks[n].jmp.arg);
        l != Top && (l >= 0 ==> if IsZero(State(), l) then dead[2 * n] else dead[2 * n + 1])
      modifies work, this`flowrk, this`flow
      ensures Valid() && State() == VisitJmp(fn, old(State()), n)
    {
      match fn.blks[n].jmp
      case Jmp => Push(2 * n);
      case Ret(_, _) =>
      case Jnz(a) =>
        var l := Lat(a);
        assert l != Top;
        if l == Bot {
          Push(2 * n + 1);
          Push(2 * n);
        } else if IsCon(con[l], false, 0) {
          assert dead[2 * n];
          Push(2 * n + 1);
        } else {
          assert dead[2 * n + 1];
          Push(2 * n);
        }
    }

    method DoPhis(n: nat)
      requires Valid() && n < |fn.blks| && Inv(fn, State(), n, 0, 0) && Entered(fn, State(), n) && Greatest(fn, State(), n)
      modifies this`con, this`usewrk, val
      ensures Valid() && Inv(fn, State(), n, |fn.blks[n].phis|, 0) && Greatest(fn, State(), n)
      ensures Descends(old(val[..]), val[..])
    {
      hide Inv, Entered, Ready, Descends, Greatest;
      BlkIsOk(fn, n);
      DescendsSelf(val[..]);
      var p := 0;
      while p < |fn.blks[n].phis|
        invariant 0 <= p <= |fn.blks[n].phis| && Valid()
        invariant Inv(fn, State(), n, p, 0) && Entered(fn, State(), n) && Greatest(fn, State(), n)
        invariant Descends(old(val[..]), val[..])
      {
        ghost var s := State();
        MidPhi(fn, s, n, p, 0);
        GreatestPhi(fn, s, n, n, p);
        DoPhi(n, p);
        VisitDescends(fn, s, n);
        DescendsFurther(old(val[..]), s.val, val[..]);
        p := p + 1;
      }
    }

    method DoInss(n: nat)
      requires Valid() && n < |fn.blks| && Inv(fn, State(), n, |fn.blks[n].phis|, 0) && Greatest(fn, State(), n)
      modifies this`con, this`usewrk, val
      ensures Valid() && Inv(fn, State(), n, |fn.blks[n].phis|, |fn.blks[n].ins|) && Greatest(fn, State(), n)
      ensures Descends(old(val[..]), val[..])
    {
      hide Inv, Ready, Descends, Greatest;
      BlkIsOk(fn, n);
      DescendsSelf(val[..]);
      var i := 0;
      while i < |fn.blks[n].ins|
        invariant 0 <= i <= |fn.blks[n].ins| && Valid()
        invariant Inv(fn, State(), n, |fn.blks[n].phis|, i) && Greatest(fn, State(), n)
        invariant Descends(old(val[..]), val[..])
      {
        ghost var s := State();
        MidIns(fn, s, n, i);
        GreatestIns(fn, s, n, n, i);
        DoIns(fn.blks[n].ins[i]);
        VisitDescends(fn, s, n);
        DescendsFurther(old(val[..]), s.val, val[..]);
        i := i + 1;
      }
    }

    method CountVisit(n: nat)
      requires Valid() && n < visit.Length
      modifies visit
      ensures Valid() && visit[n] > 0
      ensures State() == old(State()).(visit := old(State()).visit[n := true])
    {
      visit[n] := visit[n] + 1;
      assert State().visit == old(State()).visit[n := true];
    }

    /** Visits block n, into which an edge has just come alive: all its phis, and
        on the first visit its instructions and its branch. */
    method VisitBlock(n: nat)
      requires Valid() && n < |fn.blks| && Inv(fn, State(), n, 0, 0) && Entered(fn, State(), n) && Greatest(fn, State(), n)
      modifies this, val, work, visit
      ensures Valid() && Inv(fn, State(), -1, 0, 0) && Greatest(fn, State(), -1)
      ensures Descends(old(val[..]), val[..])
    {
      hide Inv, Entered, Ready, Descends, Greatest;
      BlkIsOk(fn, n);
      DoPhis(n);
      ghost var v := val[..];
      if visit[n] == 0 {
        DoInss(n);
        DescendsFurther(old(val[..]), v, val[..]);
        ghost var s := State();
        VisitDone(fn, s, n);
        JnzReady(fn, s, n);
        GreatestVisit(fn, s, n);
        DoJmp(n);
        CountVisit(n);
        assert State() == VisitJmp(fn, s, n).(visit := s.visit[n := true]);
      } else {
        ghost var s := State();
        RevisitDone(fn, s, n, 0);
        GreatestSame(fn, s, s, n, -1);
        CountVisit(n);
        assert s.visit[n := true] == s.visit;
        assert State() == s;
      }
      assert fn.blks[n].jmp.Jmp? ==> !dead[2 * n] || flowrk == 2 * n by {
        JmpHead(fn, State(), n);
      }
    }

    method TakeEdge()
      requires Valid() && Inv(fn, State(), -1, 0, 0) && Greatest(fn, State(), -1) && flowrk != -1
      modifies this, val, dead, work, visit
      ensures Valid() && Inv(fn, State(), -1, 0, 0) && Greatest(fn, State(), -1) && Descends(old(val[..]), val[..])
      ensures if dead[..] == old(dead[..]) then val[..] == old(val[..]) && usewrk == old(usewrk) && |flow| < |old(flow)|
              else Deads(dead[..]) < Deads(old(dead[..]))
      ensures Dest(fn, old(flowrk)) == -1 || !dead[old(flowrk)]
      ensures forall e :: 0 <= e < dead.Length && !old(dead[e]) ==> !dead[e]
    {
      hide Inv, Entered, Ready, Descends, Greatest;
      ghost var s := State();
      FlowDistinct(fn, s);
      DescendsSelf(val[..]);
      PopLinks(flowrk, work[..], flow);
      var e := flowrk;
      flowrk := work[e];
      work[e] := -1;
      assert work[..] == old(work[..])[e := -1];
      flow := flow[1..];
      TailOf(s);
      assert State() == s.(flow := s.flow[1..]);
      var d := Dest(fn, e);
      if d == -1 || !dead[e] {
        SkipEdge(fn, s);
        GreatestSame(fn, s, State(), -1, -1);
        return;
      }
      dead[e] := false;
      assert State() == s.(flow := s.flow[1..], dead := s.dead[e := false]);
      DestInRange(fn, s, e);
      EnterBlock(fn, s, d);
      GreatestEnter(fn, s, State(), e, d);
      assert e in Deads(old(dead[..])) && e !in Deads(dead[..]);
      VisitBlock(d);
    }

    method TakeUse()
      requires Valid() && Inv(fn, State(), -1, 0, 0) && Greatest(fn, State(), -1) && flowrk == -1 && usewrk != []
      modifies this, val, work
      ensures Valid() && Inv(fn, State(), -1, 0, 0) && Greatest(fn, State(), -1) && Descends(old(val[..]), val[..])
      ensures val[..] == old(val[..]) ==> |usewrk| < |old(usewrk)|
    {
      hide Inv, Ready, Descends, Greatest;
      ghost var s := State();
      DescendsSelf(val[..]);
      var u := usewrk[|usewrk| - 1];
      usewrk := usewrk[..|usewrk| - 1];
      assert u in s.wrk && s.wrk == usewrk + [u];
      assert State() == s.(wrk := s.wrk[..|s.wrk| - 1]);
      GreatestSame(fn, s, State(), -1, -1);
      if visit[u.bid] == 0 {
        DropUse(fn, s, State(), u);
        return;
      }
      BlkIsOk(fn, u.bid);
      match u
      case UPhi(n, p) =>
        PhiUse(fn, s, State(), n, p);
        DoPhi(n, p);
      case UIns(n, i) =>
        InsUse(fn, s, State(), n, i);
        DoIns(fn.blks[n].ins[i]);
      case UJmp(n) =>
        JmpUse(fn, s, State(), n);
        DoJmp(n);
    }

    /** The whole solver: it ends, whatever the function, and what it ends with is the
        greatest solution, in which everything gives its stored value when it is evaluated again. */
    method Solve()
      requires Valid() && Inv(fn, State(), -1, 0, 0) && Greatest(fn, State(), -1) && flow == [StartEdge(fn)]
      modifies this, val, dead, work, visit
      ensures Valid() && Solved(fn, State()) && Reevaluates(fn, State())
    {
      hide Inv, Ready, Descends, Greatest, Reevaluates;
      while true
        invariant Valid() && Inv(fn, State(), -1, 0, 0) && Greatest(fn, State(), -1)
        invariant flow == [StartEdge(fn)] || !dead[StartEdge(fn)]
        decreases NonBot(val[..]), Tops(val[..]), Deads(dead[..]), |usewrk|, |flow|
      {
        ghost var v := val[..];
        if flowrk != -1 {
          TakeEdge();
          DescendsBounded(v, val[..]);
        } else if usewrk != [] {
          TakeUse();
          DescendsBounded(v, val[..]);
        } else {
          break;
        }
      }
      StartVisited(fn, State());
      SolvedReevaluates(fn, State());
    }
  }
}
