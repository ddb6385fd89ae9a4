/** The state of sparse conditional constant propagation (lib/qbe-1.0/fold.c)
    and its elementary steps, as functions on values. */
module SccpLattice {
  import opened Basics
  import opened Folding
  import opened Ssa

  const Bot := -2
  const Top := -1

  /** Lattice values of the temporaries (Bot, Top or the index of a constant),
      which edges are dead, which blocks have been visited, and the two worklists.
      Edge 2n is block n to s1, edge 2n+1 is block n to s2, and the
      last edge enters the start block. */
  datatype Sol = Sol(con: seq<Con>, val: seq<int>, dead: seq<bool>, visit: seq<bool>, flow: seq<nat>, wrk: seq<Use>)

  function StartEdge(fn: Fn): nat { 2 * |fn.blks| }

  function Dest(fn: Fn, e: nat): int
    requires e <= 2 * |fn.blks| && 0 < |fn.blks|
  {
    if e == StartEdge(fn) then 0
    else if e % 2 == 0 then fn.blks[e / 2].s1
    else fn.blks[e / 2].s2
  }

  function Merge(v: int, m: int): int {
    if m == Top then v else if v == Top || v == m then m else Bot
  }

  /** v is at or below m in the lattice. */
  predicate AtOrBelow(v: int, m: int) { v == Bot || m == Top || v == m }

  predicate LatOk(s: Sol, v: int) { Bot <= v < |s.con| }

  /** The parts of the state have the sizes that belong to the function. */
  ghost predicate Shape(fn: Fn, s: Sol) {
    && |s.val| == |fn.wide| && |s.dead| == 2 * |fn.blks| + 1 && |s.visit| == |fn.blks|
    && fn.con <= s.con
    && (forall t :: 0 <= t < |s.val| ==> LatOk(s, s.val[t]))
    && (forall e :: e in s.flow ==> e <= 2 * |fn.blks|)
    && (forall u :: u in s.wrk ==> UseOk(fn, u))
  }

  function LatVal(fn: Fn, s: Sol, r: Ref): int
    requires |s.val| == |fn.wide| && Plain(fn, r)
  {
    match r
    case RTmp(t) => s.val[t]
    case RCon(c) => c
  }

  predicate DeadEdge(fn: Fn, s: Sol, from: nat, to: nat)
    requires |s.dead| == 2 * |fn.blks| + 1 && from < |fn.blks|
  {
    !(fn.blks[from].s1 == to && !s.dead[2 * from]) && !(fn.blks[from].s2 == to && !s.dead[2 * from + 1])
  }

  /** What the first k arguments of a phi contribute over edges that are not dead. */
  function PhiVal(fn: Fn, s: Sol, n: nat, phi: Phi, k: nat): int
    requires Shape(fn, s) && PhiOk(fn, phi) && k <= |phi.args|
  {
    if k == 0 then Top
    else
      var v := PhiVal(fn, s, n, phi, k - 1);
      if DeadEdge(fn, s, phi.args[k - 1].blk, n) then v else Merge(v, LatVal(fn, s, phi.args[k - 1].arg))
  }

  function Update(fn: Fn, s: Sol, t: nat, m: int): Sol
    requires |fn.uses| == |fn.wide| == |s.val| && t < |s.val|
  {
    var v := Merge(s.val[t], m);
    if v == s.val[t] then s else s.(val := s.val[t := v], wrk := s.wrk + fn.uses[t])
  }

  function VisitPhi(fn: Fn, s: Sol, n: nat, p: nat): Sol
    requires Shape(fn, s) && |fn.uses| == |fn.wide| && n < |fn.blks| && p < |fn.blks[n].phis| && PhiOk(fn, fn.blks[n].phis[p])
  {
    var phi := fn.blks[n].phis[p];
    Update(fn, s, phi.to, PhiVal(fn, s, n, phi, |phi.args|))
  }

  /** The index of a constant in the table; the end of the table if it is new. */
  function Find(con: seq<Con>, c: Con): (i: nat)
    ensures i <= |con| && (i < |con| ==> con[i] == c) && (i == |con| ==> c !in con)
  {
    if con == [] then 0 else if con[0] == c then 0 else 1 + Find(con[1..], c)
  }

  function AddCon(con: seq<Con>, c: Con): (r: seq<Con>)
    ensures con <= r && Find(con, c) < |r| && r[Find(con, c)] == c
  {
    if Find(con, c) < |con| then con else con + [c]
  }

  function SecondArg(fn: Fn, r: Ref): Ref { if r.RNone? then RCon(0) else r }

  /** The lattice value of an instruction, and the constant table with its value in it. */
  function InsVal(fn: Fn, s: Sol, i: Ins): (r: (int, seq<Con>))
    requires Shape(fn, s) && InsOk(fn, i) && 0 < |fn.con|
    ensures s.con <= r.1 && Bot <= r.0 < |r.1|
  {
    if !i.op.Fold? then (Bot, s.con)
    else
      var l := LatVal(fn, s, i.arg0);
      var r := LatVal(fn, s, SecondArg(fn, i.arg1));
      if l == Bot || r == Bot then (Bot, s.con)
      else if l == Top || r == Top then (Top, s.con)
      else match FoldInt(i.op.op, i.wide, s.con[l], s.con[r])
        case None => (Bot, s.con)
        case Some(c) => (Find(s.con, c), AddCon(s.con, c))
  }

  function VisitIns(fn: Fn, s: Sol, i: Ins): Sol
    requires Shape(fn, s) && |fn.uses| == |fn.wide| && 0 < |fn.con| && InsOk(fn, i)
  {
    if i.to.None? then s
    else
      var (v, con) := InsVal(fn, s, i);
      Update(fn, s.(con := con), i.to.value, v)
  }

  /** The branch condition is a constant zero; the address of a label never counts as zero. */
  predicate IsZero(s: Sol, v: int)
    requires 0 <= v < |s.con|
  {
    IsCon(s.con[v], false, 0)
  }

  function VisitJmp(fn: Fn, s: Sol, n: nat): Sol
    requires Shape(fn, s) && n < |fn.blks| && JumpOk(fn, fn.blks[n])
  {
    match fn.blks[n].jmp
    case Jmp => s.(flow := [2 * n] + s.flow)
    case Ret(_, _) => s
    case Jnz(a) =>
      var l := LatVal(fn, s, a);
      if l < 0 then s.(flow := [2 * n, 2 * n + 1] + s.flow)
      else if IsZero(s, l) then s.(flow := [2 * n + 1] + s.flow)
      else s.(flow := [2 * n] + s.flow)
  }
}
