/** The second half of constant propagation (lib/qbe-1.0/fold.c): constants
    are put in place, dead code is trimmed, and the rewritten function
    behaves like the original one. */
module SccpRewrite {
  import opened Basics
  import opened Folding
  import opened Ssa
  import opened SccpLattice
  import opened SccpInvariant
  import Dominators

  // ----- The rewritten function -----

  function RenRef(s: Sol, r: Ref): Ref {
    if r.RTmp? && r.t < |s.val| && s.val[r.t] >= 0 then RCon(s.val[r.t]) else r
  }

  /** The arguments that come over edges that are not dead. */
  function RewriteArgs(fn: Fn, s: Sol, n: nat, args: seq<PhiArg>): seq<PhiArg>
    requires Shape(fn, s)
  {
    if args == [] then []
    else
      var rest := RewriteArgs(fn, s, n, args[1..]);
      if args[0].blk >= |fn.blks| || DeadEdge(fn, s, args[0].blk, n) then rest
      else [PhiArg(args[0].blk, RenRef(s, args[0].arg))] + rest
  }

  /** A temporary whose value is a constant is not computed any more. */
  predicate Constant(s: Sol, t: nat) {
    t < |s.val| && s.val[t] >= 0
  }

  function RewritePhis(fn: Fn, s: Sol, n: nat, phis: seq<Phi>): seq<Phi>
    requires Shape(fn, s)
  {
    if phis == [] then []
    else
      var phi := phis[|phis| - 1];
      var rest := RewritePhis(fn, s, n, phis[..|phis| - 1]);
      if Constant(s, phi.to) then rest else rest + [Phi(phi.to, phi.wide, RewriteArgs(fn, s, n, phi.args))]
  }

  function RewriteIns(s: Sol, i: Ins): Ins {
    if i.to.Some? && Constant(s, i.to.value) then Ins(Nop, false, None, RNone, RNone)
    else Ins(i.op, i.wide, i.to, RenRef(s, i.arg0), RenRef(s, i.arg1))
  }

  /** The jump, and the successors that are left. */
  function RewriteJump(s: Sol, b: Blk): (Jump, int, int) {
    match b.jmp
    case Jmp => (Jmp, b.s1, b.s2)
    case Ret(wide, v) => (Ret(wide, RenRef(s, v)), b.s1, b.s2)
    case Jnz(a) =>
      var r := RenRef(s, a);
      if !r.RCon? || r.c >= |s.con| then (Jnz(r), b.s1, b.s2)
      else if IsZero(s, r.c) then (Jmp, b.s2, -1)
      else (Jmp, b.s1, -1)
  }

  function RewriteBlk(fn: Fn, s: Sol, n: nat): Blk
    requires Shape(fn, s) && n < |fn.blks|
  {
    var b := fn.blks[n];
    var (j, s1, s2) := RewriteJump(s, b);
    Blk(RewritePhis(fn, s, n, b.phis), seq(|b.ins|, i requires 0 <= i < |b.ins| => RewriteIns(s, b.ins[i])), j, s1, s2)
  }

  /** All blocks, rewritten; those that have not been visited are not part of the function any more. */
  function Rewrite(fn: Fn, s: Sol): seq<Blk>
    requires Shape(fn, s)
  {
    seq(|fn.blks|, n requires 0 <= n < |fn.blks| => RewriteBlk(fn, s, n))
  }

  // ----- Branches on addresses -----

  /** A branch on the address of a label is taken to be a branch on something
      nonzero. That is wrong when the label is placed where its low word is
      zero, and matters unless both branches go to the same block. */
  ghost predicate BranchSafe(fn: Fn, s: Sol, at: Layout, n: nat)
    requires WellFormed(fn) && Shape(fn, s) && n < |fn.blks|
  {
    assert BlkOk(fn, n);
    fn.blks[n].jmp.Jnz? ==>
      var l := LatVal(fn, s, fn.blks[n].jmp.arg);
      (l >= 0 && s.con[l].Addr? ==> Value(s.con[l], at) % Two32 != 0 || fn.blks[n].s1 == fn.blks[n].s2)
  }

  /** No visited block has an unsafe branch. */
  ghost predicate AddressesSafe(fn: Fn, s: Sol, at: Layout)
    requires WellFormed(fn) && Shape(fn, s)
  {
    forall n :: 0 <= n < |fn.blks| && s.visit[n] ==> BranchSafe(fn, s, at, n)
  }

  // ----- The relation between the two runs -----

  /** Every assigned temporary with a constant lattice value holds that constant. */
  ghost predicate Known(fn: Fn, s: Sol, at: Layout, env: Env)
    requires Shape(fn, s)
  {
    forall t :: t in env ==>
      && t < |s.val| && s.val[t] != Top
      && (s.val[t] >= 0 ==> env[t] % Size(fn.wide[t]) == Value(s.con[s.val[t]], at) % Size(fn.wide[t]))
  }

  /** The rewritten run has the temporaries that are not constant. */
  ghost predicate Agree(s: Sol, env: Env, env': Env) {
    forall t :: 0 <= t < |s.val| && s.val[t] == Bot ==> (t in env <==> t in env') && (t in env ==> env[t] == env'[t])
  }

  ghost predicate Held(r: Ref, env: Env) { r.RTmp? ==> r.t in env }

  function Before(fn: Fn, at: Layout, world: World): Ctx { Ctx(fn.con, at, world) }

  function After(s: Sol, at: Layout, world: World): Ctx { Ctx(s.con, at, world) }

  lemma ReadConstant(fn: Fn, s: Sol, at: Layout, world: World, env: Env, r: Ref, wide: bool)
    requires Shape(fn, s) && Known(fn, s, at, env) && Held(r, env) && Plain(fn, r) && Readable(fn, r, wide)
    requires LatVal(fn, s, r) >= 0
    ensures Read(Before(fn, at, world), env, r, wide) == Num(Value(s.con[LatVal(fn, s, r)], at) % Size(wide))
  {
    if r.RTmp? {
      var v := Value(s.con[s.val[r.t]], at);
      ModMod(Two32, Two32, env[r.t]);
      ModMod(Two32, Two32, v);
    }
  }

  lemma ReadAgrees(fn: Fn, s: Sol, at: Layout, world: World, env: Env, env': Env, r: Ref, wide: bool)
    requires Shape(fn, s) && Known(fn, s, at, env) && Agree(s, env, env') && Held(r, env) && Readable(fn, r, wide)
    ensures Read(Before(fn, at, world), env, r, wide) == Read(After(s, at, world), env', RenRef(s, r), wide)
  {
    if Plain(fn, r) && LatVal(fn, s, r) >= 0 {
      ReadConstant(fn, s, at, world, env, r, wide);
    }
  }

  // ----- One instruction -----

  /** Both runs trap at the same point, or both go on in the same way. */
  ghost predicate SameEffect(fn: Fn, s: Sol, at: Layout, e: Effect, e': Effect)
    requires Shape(fn, s)
  {
    match e
    case Trap(tr) => e' == e
    case Ok(env, tr) => e'.Ok? && e'.trace == tr && Known(fn, s, at, env) && Agree(s, env, e'.env)
  }

  /** An instruction whose result is constant computes that constant, and cannot trap. */
  lemma ConstantIns(fn: Fn, s: Sol, at: Layout, world: World, i: Ins, env: Env, tr: seq<Event>)
    requires Shape(fn, s) && InsOk(fn, i) && 0 < |fn.con| && fn.con[0] == Bits(0) && InsSettled(fn, s, i)
    requires Known(fn, s, at, env) && Held(i.arg0, env) && Held(i.arg1, env)
    requires i.to.Some? && Constant(s, i.to.value)
    ensures var e := RunIns(Before(fn, at, world), i, env, tr);
      e.Ok? && e.trace == tr && e.env == env[i.to.value := Value(s.con[s.val[i.to.value]], at) % Size(i.wide)]
  {
    hide FoldInt, Eval, Value;
    var op := i.op.op;
    var l := LatVal(fn, s, i.arg0);
    var r := LatVal(fn, s, SecondArg(fn, i.arg1));
    ReadConstant(fn, s, at, world, env, i.arg0, WideArg(op, i.wide, 0));
    if !i.arg1.RNone? {
      ReadConstant(fn, s, at, world, env, i.arg1, WideArg(op, i.wide, 1));
    } else {
      assert Value(s.con[0], at) == 0 by { ValueOfBits(s.con[0], at); }
    }
    FoldCorrect(op, i.wide, s.con[l], s.con[r], at);
  }

  /** Assigning the same value to a temporary that is not constant. */
  lemma AssignSim(fn: Fn, s: Sol, at: Layout, env: Env, env': Env, to: Option<nat>, v: nat)
    requires Shape(fn, s) && Known(fn, s, at, env) && Agree(s, env, env')
    requires to.Some? ==> to.value < |s.val| && s.val[to.value] == Bot
    ensures Known(fn, s, at, Assign(env, to, v)) && Agree(s, Assign(env, to, v), Assign(env', to, v))
  {
  }

  lemma FoldSim(fn: Fn, s: Sol, at: Layout, world: World, i: Ins, env: Env, env': Env, tr: seq<Event>)
    requires Shape(fn, s) && InsOk(fn, i) && i.op.Fold?
    requires Known(fn, s, at, env) && Agree(s, env, env') && Held(i.arg0, env) && Held(i.arg1, env)
    requires i.to.Some? ==> s.val[i.to.value] == Bot
    ensures SameEffect(fn, s, at, RunIns(Before(fn, at, world), i, env, tr), RunIns(After(s, at, world), RewriteIns(s, i), env', tr))
  {
    hide Eval, Read, Known, Agree;
    var op, c := i.op.op, Before(fn, at, world);
    ReadAgrees(fn, s, at, world, env, env', i.arg0, WideArg(op, i.wide, 0));
    ReadAgrees(fn, s, at, world, env, env', i.arg1, WideArg(op, i.wide, 1));
    var a := Number(Read(c, env, i.arg0, WideArg(op, i.wide, 0)));
    var b := Number(Read(c, env, i.arg1, WideArg(op, i.wide, 1)));
    if a.Some? && b.Some? {
      var v := Eval(op, i.wide, a.value, b.value);
      if v.Some? {
        AssignSim(fn, s, at, env, env', i.to, v.value);
      }
    }
  }

  lemma EventSim(fn: Fn, s: Sol, at: Layout, world: World, i: Ins, env: Env, env': Env, tr: seq<Event>)
    requires Shape(fn, s) && InsOk(fn, i) && i.op.Other?
    requires Known(fn, s, at, env) && Agree(s, env, env') && Held(i.arg0, env) && Held(i.arg1, env)
    requires i.to.Some? ==> s.val[i.to.value] == Bot
    ensures SameEffect(fn, s, at, RunIns(Before(fn, at, world), i, env, tr), RunIns(After(s, at, world), RewriteIns(s, i), env', tr))
  {
    hide Read, Known, Agree;
    var c := Before(fn, at, world);
    ReadAgrees(fn, s, at, world, env, env', i.arg0, i.op.w0);
    ReadAgrees(fn, s, at, world, env, env', i.arg1, i.op.w1);
    var e := Event(i.op.code, i.wide, Read(c, env, i.arg0, i.op.w0), Read(c, env, i.arg1, i.op.w1));
    AssignSim(fn, s, at, env, env', i.to, world(tr, e) % Size(i.wide));
  }

  lemma InsSim(fn: Fn, s: Sol, at: Layout, world: World, i: Ins, env: Env, env': Env, tr: seq<Event>)
    requires Shape(fn, s) && InsOk(fn, i) && 0 < |fn.con| && fn.con[0] == Bits(0) && InsSettled(fn, s, i)
    requires Known(fn, s, at, env) && Agree(s, env, env') && Held(i.arg0, env) && Held(i.arg1, env)
    requires i.to.Some? ==> s.val[i.to.value] != Top
    ensures SameEffect(fn, s, at, RunIns(Before(fn, at, world), i, env, tr), RunIns(After(s, at, world), RewriteIns(s, i), env', tr))
  {
    if i.to.Some? && Constant(s, i.to.value) {
      ConstantIns(fn, s, at, world, i, env, tr);
      ModTwice(Size(i.wide), Value(s.con[s.val[i.to.value]], at));
    } else if i.op.Fold? {
      FoldSim(fn, s, at, world, i, env, env', tr);
    } else if i.op.Other? {
      EventSim(fn, s, at, world, i, env, env', tr);
    }
  }

  // ----- The instructions of a block -----

  /** Everything that the first i instructions of block n need has been assigned,
      and what the first k phis and i instructions assign is there too. */
  ghost predicate Assigned(fn: Fn, n: nat, k: nat, i: nat, env: Env)
    requires n < |fn.blks| && k <= |fn.blks[n].phis| && i <= |fn.blks[n].ins|
  {
    && (forall t :: AvailableBefore(fn, n, t) ==> t in env)
    && (forall t :: DefBefore(fn, n, k, i, t) ==> t in env)
  }

  /** One instruction of a visited block, in both runs. */
  lemma InssStep(fn: Fn, s: Sol, at: Layout, world: World, n: nat, i: nat, env: Env, env': Env, tr: seq<Event>)
    requires Solved(fn, s) && n < |fn.blks| && s.visit[n] && i < |fn.blks[n].ins|
    requires Known(fn, s, at, env) && Agree(s, env, env') && Assigned(fn, n, |fn.blks[n].phis|, i, env)
    ensures var e := RunIns(Before(fn, at, world), fn.blks[n].ins[i], env, tr);
      && SameEffect(fn, s, at, e, RunIns(After(s, at, world), RewriteIns(s, fn.blks[n].ins[i]), env', tr))
      && (e.Ok? ==> env.Keys <= e.env.Keys && Assigned(fn, n, |fn.blks[n].phis|, i + 1, e.env))
  {
    hide RunIns, RewriteIns, Known, Agree;
    assert BlkOk(fn, n) && StrictBlk(fn, n);
    var ins := fn.blks[n].ins[i];
    assert InsOk(fn, ins) && InsDone(fn, s, n, i);
    assert RefAvailable(fn, n, i, ins.arg0) && RefAvailable(fn, n, i, ins.arg1);
    if ins.to.Some? {
      assert DefIn(fn, n, ins.to.value);
    }
    InsSim(fn, s, at, world, ins, env, env', tr);
    NextAssigned(fn, Before(fn, at, world), n, i, env, tr);
  }

  lemma {:induction false} InssSim(fn: Fn, s: Sol, at: Layout, world: World, n: nat, i: nat, env: Env, env': Env, tr: seq<Event>)
    requires Solved(fn, s) && n < |fn.blks| && s.visit[n] && i <= |fn.blks[n].ins|
    requires Known(fn, s, at, env) && Agree(s, env, env') && Assigned(fn, n, |fn.blks[n].phis|, 0, env)
    ensures var e := RunInss(Before(fn, at, world), fn.blks[n].ins, i, env, tr);
      && SameEffect(fn, s, at, e, RunInss(After(s, at, world), RewriteBlk(fn, s, n).ins, i, env', tr))
      && (e.Ok? ==> env.Keys <= e.env.Keys && Assigned(fn, n, |fn.blks[n].phis|, i, e.env))
  {
    hide RunIns, RewriteIns, Known, Agree, Assigned;
    if i > 0 {
      InssSim(fn, s, at, world, n, i - 1, env, env', tr);
      var e := RunInss(Before(fn, at, world), fn.blks[n].ins, i - 1, env, tr);
      var e' := RunInss(After(s, at, world), RewriteBlk(fn, s, n).ins, i - 1, env', tr);
      if e.Ok? {
        InssStep(fn, s, at, world, n, i - 1, e.env, e'.env, e.trace);
      }
    }
  }

  lemma NextAssigned(fn: Fn, c: Ctx, n: nat, i: nat, env: Env, tr: seq<Event>)
    requires n < |fn.blks| && i < |fn.blks[n].ins| && Assigned(fn, n, |fn.blks[n].phis|, i, env)
    requires InsOk(fn, fn.blks[n].ins[i])
    ensures var e := RunIns(c, fn.blks[n].ins[i], env, tr);
      e.Ok? ==> env.Keys <= e.env.Keys && Assigned(fn, n, |fn.blks[n].phis|, i + 1, e.env)
  {
    hide Eval, Read;
    var e := RunIns(c, fn.blks[n].ins[i], env, tr);
    if e.Ok? {
      assert env.Keys <= e.env.Keys;
      assert fn.blks[n].ins[i].to.Some? ==> fn.blks[n].ins[i].to.value in e.env;
      forall t | DefBefore(fn, n, |fn.blks[n].phis|, i + 1, t)
        ensures t in e.env
      {
        if fn.blks[n].ins[i].to != Some(t) {
          assert DefBefore(fn, n, |fn.blks[n].phis|, i, t);
        }
      }
    }
  }

  // ----- The phis of a block -----

  lemma {:induction false} RewrittenArg(fn: Fn, s: Sol, n: nat, args: seq<PhiArg>, f: nat)
    requires Shape(fn, s) && f < |fn.blks| && !DeadEdge(fn, s, f, n)
    requires exists a :: 0 <= a < |args| && args[a].blk == f
    ensures exists a :: 0 <= a < |args| && args[a].blk == f && ArgFor(args, f) == args[a].arg
    ensures ArgFor(RewriteArgs(fn, s, n, args), f) == RenRef(s, ArgFor(args, f))
  {
    if args[0].blk != f {
      var a :| 0 <= a < |args| && args[a].blk == f;
      assert args[1..][a - 1].blk == f;
      RewrittenArg(fn, s, n, args[1..], f);
      var rest := RewriteArgs(fn, s, n, args[1..]);
      var all := RewriteArgs(fn, s, n, args);
      assert all == rest || all[1..] == rest;
    }
  }

  /** One phi of block n, entered from f. */
  lemma PhiSim(fn: Fn, s: Sol, at: Layout, world: World, n: nat, p: nat, f: nat, env: Env, env': Env)
    requires Solved(fn, s) && n < |fn.blks| && s.visit[n] && p < |fn.blks[n].phis| && PhiOk(fn, fn.blks[n].phis[p])
    requires f in fn.pred[n] && f < |fn.blks| && !DeadEdge(fn, s, f, n)
    requires Known(fn, s, at, env) && Agree(s, env, env')
    requires forall t :: AvailableAtEnd(fn, f, t) ==> t in env
    ensures var phi := fn.blks[n].phis[p];
      var a := Read(Before(fn, at, world), env, ArgFor(phi.args, f), phi.wide);
      && a.Num? && s.val[phi.to] != Top
      && Read(After(s, at, world), env', ArgFor(RewriteArgs(fn, s, n, phi.args), f), phi.wide) == a
      && (s.val[phi.to] >= 0 ==> a.n % Size(phi.wide) == Value(s.con[s.val[phi.to]], at) % Size(phi.wide))
  {
    hide Value;
    var phi := fn.blks[n].phis[p];
    var r := PhiArgument(fn, s, n, p, f);
    RewrittenArg(fn, s, n, phi.args, f);
    hide PhisOk, InssOk, JmpsOk, Justified, Greatest, Strict, UsesOk, Single, Sources, AllReached, NoTop, Alive;
    ReadAgrees(fn, s, at, world, env, env', r, phi.wide);
    if s.val[phi.to] >= 0 {
      ReadSettled(fn, s, at, world, env, r, s.val[phi.to], phi.wide);
    }
  }

  /** The argument of a phi for a live edge: it has been assigned, and the stored value is at or below it. */
  lemma PhiArgument(fn: Fn, s: Sol, n: nat, p: nat, f: nat) returns (r: Ref)
    requires Solved(fn, s) && n < |fn.blks| && s.visit[n] && p < |fn.blks[n].phis| && PhiOk(fn, fn.blks[n].phis[p])
    requires f in fn.pred[n] && f < |fn.blks| && !DeadEdge(fn, s, f, n)
    ensures var phi := fn.blks[n].phis[p];
      && r == ArgFor(phi.args, f) && Plain(fn, r) && Readable(fn, r, phi.wide) && (r.RTmp? ==> AvailableAtEnd(fn, f, r.t))
      && s.val[phi.to] != Top && AtOrBelow(s.val[phi.to], LatVal(fn, s, r))
      && exists a :: 0 <= a < |phi.args| && phi.args[a].blk == f && phi.args[a].arg == r
  {
    hide AvailableAtEnd;
    assert BlkOk(fn, n) && StrictBlk(fn, n) && PhiDone(fn, s, n, p);
    var phi := fn.blks[n].phis[p];
    assert DefIn(fn, n, phi.to);
    assert HasArg(phi, f);
    RewrittenArg(fn, s, n, phi.args, f);
    var a :| 0 <= a < |phi.args| && phi.args[a].blk == f && ArgFor(phi.args, f) == phi.args[a].arg;
    r := phi.args[a].arg;
    assert PhiAvailable(fn, phi);
  }

  /** What an operand reads when a constant is at or below it. */
  lemma ReadSettled(fn: Fn, s: Sol, at: Layout, world: World, env: Env, r: Ref, v: nat, wide: bool)
    requires Shape(fn, s) && Known(fn, s, at, env) && Held(r, env) && Plain(fn, r) && Readable(fn, r, wide)
    requires v < |s.con| && AtOrBelow(v, LatVal(fn, s, r))
    ensures var a := Read(Before(fn, at, world), env, r, wide);
      a.Num? && a.n % Size(wide) == Value(s.con[v], at) % Size(wide)
  {
    hide Value;
    ReadConstant(fn, s, at, world, env, r, wide);
    ModTwice(Size(wide), Value(s.con[v], at));
  }

  /** Adding the value of one phi to what the phis before it give. */
  lemma PhiAssign(fn: Fn, s: Sol, at: Layout, m: Env, m': Env, phi: Phi, v: nat)
    requires Shape(fn, s) && Known(fn, s, at, m) && Agree(s, m, m')
    requires PhiOk(fn, phi) && s.val[phi.to] != Top
    requires s.val[phi.to] >= 0 ==> v % Size(phi.wide) == Value(s.con[s.val[phi.to]], at) % Size(phi.wide)
    ensures Known(fn, s, at, m[phi.to := v])
    ensures Agree(s, m[phi.to := v], if Constant(s, phi.to) then m' else m'[phi.to := v])
  {
    hide Value;
  }

  lemma RewrittenPhis(fn: Fn, s: Sol, c: Ctx, n: nat, phis: seq<Phi>, f: nat, env: Env)
    requires Shape(fn, s) && phis != []
    ensures var phi := phis[|phis| - 1];
      var m := PhiValues(c, RewritePhis(fn, s, n, phis[..|phis| - 1]), f, env);
      var a := Read(c, env, ArgFor(RewriteArgs(fn, s, n, phi.args), f), phi.wide);
      PhiValues(c, RewritePhis(fn, s, n, phis), f, env) ==
        if Constant(s, phi.to) then m
        else if m.None? || !a.Num? then None
        else Some(m.value[phi.to := a.n])
  {
    hide Read;
    var rest := RewritePhis(fn, s, n, phis[..|phis| - 1]);
    var all := RewritePhis(fn, s, n, phis);
    assert all == rest || all[..|all| - 1] == rest;
  }

  lemma LastPhi(c: Ctx, phis: seq<Phi>, k: nat, f: nat, env: Env)
    requires k < |phis|
    ensures var m := PhiValues(c, phis[..k], f, env);
      var a := Read(c, env, ArgFor(phis[k].args, f), phis[k].wide);
      PhiValues(c, phis[..k + 1], f, env) == if m.None? || !a.Num? then None else Some(m.value[phis[k].to := a.n])
  {
    hide Read;
    assert phis[..k + 1][..k] == phis[..k];
  }

  /** The first k phis of block n, in both runs. */
  ghost predicate PhisAgree(fn: Fn, s: Sol, at: Layout, world: World, n: nat, k: nat, f: nat, env: Env, env': Env)
    requires Shape(fn, s) && n < |fn.blks| && k <= |fn.blks[n].phis|
  {
    var m := PhiValues(Before(fn, at, world), fn.blks[n].phis[..k], f, env);
    var m' := PhiValues(After(s, at, world), RewritePhis(fn, s, n, fn.blks[n].phis[..k]), f, env');
    && m.Some? && m'.Some? && Known(fn, s, at, m.value) && Agree(s, m.value, m'.value)
    && forall p :: 0 <= p < k ==> fn.blks[n].phis[p].to in m.value
  }

  lemma NextPhi(fn: Fn, s: Sol, at: Layout, world: World, n: nat, k: nat, f: nat, env: Env, env': Env)
    requires Solved(fn, s) && n < |fn.blks| && s.visit[n] && k < |fn.blks[n].phis|
    requires f in fn.pred[n] && f < |fn.blks| && !DeadEdge(fn, s, f, n)
    requires Known(fn, s, at, env) && Agree(s, env, env')
    requires forall t :: AvailableAtEnd(fn, f, t) ==> t in env
    requires PhisAgree(fn, s, at, world, n, k, f, env, env')
    ensures PhisAgree(fn, s, at, world, n, k + 1, f, env, env')
  {
    hide Value, Read, Known, Agree, Solved, PhiValues, RewritePhis, RewriteArgs, ArgFor, AvailableAtEnd;
    var phis := fn.blks[n].phis;
    var phi := phis[k];
    LastPhi(Before(fn, at, world), phis, k, f, env);
    PhiIsOk(fn, s, n, k);
    assert phis[..k + 1][..k] == phis[..k];
    PhiSim(fn, s, at, world, n, k, f, env, env');
    RewrittenPhis(fn, s, After(s, at, world), n, phis[..k + 1], f, env');
    var m := PhiValues(Before(fn, at, world), phis[..k], f, env).value;
    var m' := PhiValues(After(s, at, world), RewritePhis(fn, s, n, phis[..k]), f, env').value;
    var a := Read(Before(fn, at, world), env, ArgFor(phi.args, f), phi.wide);
    PhiAssign(fn, s, at, m, m', phi, a.n);
  }

  lemma {:induction false} PhisSim(fn: Fn, s: Sol, at: Layout, world: World, n: nat, k: nat, f: nat, env: Env, env': Env)
    requires Solved(fn, s) && n < |fn.blks| && s.visit[n] && k <= |fn.blks[n].phis|
    requires f in fn.pred[n] && f < |fn.blks| && !DeadEdge(fn, s, f, n)
    requires Known(fn, s, at, env) && Agree(s, env, env')
    requires forall t :: AvailableAtEnd(fn, f, t) ==> t in env
    ensures PhisAgree(fn, s, at, world, n, k, f, env, env')
  {
    hide AvailableAtEnd, DeadEdge;
    if k > 0 {
      PhisSim(fn, s, at, world, n, k - 1, f, env, env');
      NextPhi(fn, s, at, world, n, k - 1, f, env, env');
    }
  }

  lemma PhiIsOk(fn: Fn, s: Sol, n: nat, p: nat)
    requires Solved(fn, s) && n < |fn.blks| && p < |fn.blks[n].phis|
    ensures PhiOk(fn, fn.blks[n].phis[p]) && Shape(fn, s)
  {
    assert BlkOk(fn, n);
  }

  // ----- One block -----

  /** What is true of the original run when it enters a block: it came over
      edges that are alive, and it has assigned what the blocks before define. */
  ghost predicate RunOk(fn: Fn, s: Sol, at: Layout, path: seq<nat>, env: Env)
    requires Shape(fn, s) && 0 < |fn.blks|
  {
    && path != [] && path[|path| - 1] < |fn.blks| && Dominators.PathTo(fn.pred, path, path[|path| - 1])
    && s.visit[path[|path| - 1]] && Known(fn, s, at, env)
    && (|path| > 1 ==> path[|path| - 2] < |fn.blks| && !DeadEdge(fn, s, path[|path| - 2], path[|path| - 1]))
    && (forall x, t :: 0 <= x < |path| - 1 && path[x] < |fn.blks| && DefIn(fn, path[x], t) ==> t in env)
  }

  lemma RunAssigned(fn: Fn, s: Sol, at: Layout, path: seq<nat>, env: Env)
    requires Solved(fn, s) && RunOk(fn, s, at, path, env)
    ensures forall t :: AvailableBefore(fn, path[|path| - 1], t) ==> t in env
    ensures |path| > 1 ==> path[|path| - 2] in fn.pred[path[|path| - 1]]
    ensures |path| > 1 ==> forall t :: AvailableAtEnd(fn, path[|path| - 2], t) ==> t in env
  {
    var n := path[|path| - 1];
    forall t | AvailableBefore(fn, n, t)
      ensures t in env
    {
      var d: nat :| d < |fn.blks| && d != n && DefIn(fn, d, t) && Dominators.Dominates(fn.pred, d, n);
      assert d in path;
    }
    if |path| > 1 {
      var q := path[..|path| - 1];
      assert Dominators.PathTo(fn.pred, q, path[|path| - 2]);
      forall t | AvailableAtEnd(fn, path[|path| - 2], t)
        ensures t in env
      {
        var d: nat :| d < |fn.blks| && DefIn(fn, d, t) && Dominators.Dominates(fn.pred, d, path[|path| - 2]);
        assert d in q;
      }
    }
  }

  lemma MergeEnv(fn: Fn, s: Sol, at: Layout, env: Env, env': Env, m: Env, m': Env)
    requires Shape(fn, s) && Known(fn, s, at, env) && Agree(s, env, env') && Known(fn, s, at, m) && Agree(s, m, m')
    ensures Known(fn, s, at, env + m) && Agree(s, env + m, env' + m')
  {
    hide Value;
  }

  lemma PhisAssigned(fn: Fn, n: nat, env: Env, env1: Env)
    requires n < |fn.blks| && env.Keys <= env1.Keys
    requires forall t :: AvailableBefore(fn, n, t) ==> t in env
    requires forall p :: 0 <= p < |fn.blks[n].phis| ==> fn.blks[n].phis[p].to in env1
    ensures Assigned(fn, n, |fn.blks[n].phis|, 0, env1)
  {
  }

  lemma AfterPhisSim(fn: Fn, s: Sol, at: Layout, world: World, path: seq<nat>, env: Env, env': Env)
    requires Solved(fn, s) && RunOk(fn, s, at, path, env) && Agree(s, env, env')
    ensures var n := path[|path| - 1];
      var e := AfterPhis(Before(fn, at, world), fn.blks[n], path, env);
      var e' := AfterPhis(After(s, at, world), RewriteBlk(fn, s, n), path, env');
      && e.Some? && e'.Some? && Known(fn, s, at, e.value) && Agree(s, e.value, e'.value)
      && env.Keys <= e.value.Keys && Assigned(fn, n, |fn.blks[n].phis|, 0, e.value)
  {
    hide Value, Read, Known, Agree, Assigned, AvailableBefore, AvailableAtEnd;
    var n := path[|path| - 1];
    var phis := fn.blks[n].phis;
    RunAssigned(fn, s, at, path, env);
    if |path| > 1 {
      var f := path[|path| - 2];
      PhisSim(fn, s, at, world, n, |phis|, f, env, env');
      assert phis[..|phis|] == phis;
      var m := PhiValues(Before(fn, at, world), phis, f, env).value;
      var m' := PhiValues(After(s, at, world), RewritePhis(fn, s, n, phis), f, env').value;
      MergeEnv(fn, s, at, env, env', m, m');
      PhisAssigned(fn, n, env, env + m);
    } else {
      PhisAssigned(fn, n, env, env);
    }
  }

  ghost predicate LeftTo(fn: Fn, s: Sol, n: nat, m: nat)
    requires Shape(fn, s) && n < |fn.blks|
  {
    m < |fn.blks| && s.visit[m] && Edge(fn, n, m) && !DeadEdge(fn, s, n, m)
  }

  /** Both runs leave block n for the same block, over a live edge, or end alike. */
  ghost predicate LeaveAlike(fn: Fn, s: Sol, n: nat, path: seq<nat>, env: Env, env': Env, l: State, l': State)
    requires Shape(fn, s) && n < |fn.blks|
  {
    match l
    case Running(p, e, t) =>
      && l'.Running? && l'.path == p && l'.trace == t && e == env && l'.env == env'
      && |p| == |path| + 1 && p == path + [p[|path|]] && LeftTo(fn, s, n, p[|path|])
    case _ => l' == l
  }

  lemma EdgeAlive(fn: Fn, s: Sol, n: nat, e: nat)
    requires Solved(fn, s) && n < |fn.blks| && (e == 2 * n || e == 2 * n + 1) && !s.dead[e] && Dest(fn, e) > 0
    ensures LeftTo(fn, s, n, Dest(fn, e))
  {
  }

  lemma HeldAtEnd(fn: Fn, s: Sol, n: nat, env: Env)
    requires Solved(fn, s) && n < |fn.blks| && Assigned(fn, n, |fn.blks[n].phis|, |fn.blks[n].ins|, env)
    ensures BlkOk(fn, n) && Held(JumpArg(fn.blks[n].jmp), env)
  {
    assert BlkOk(fn, n) && StrictBlk(fn, n);
  }

  lemma JnzSim(fn: Fn, s: Sol, at: Layout, world: World, n: nat, env: Env, env': Env)
    requires Solved(fn, s) && n < |fn.blks| && BranchSafe(fn, s, at, n) && s.visit[n] && fn.blks[n].jmp.Jnz?
    requires Known(fn, s, at, env) && Agree(s, env, env') && BlkOk(fn, n) && Held(fn.blks[n].jmp.arg, env)
    ensures var b := fn.blks[n];
      var v := Read(Before(fn, at, world), env, b.jmp.arg, false);
      && v.Num? && LeftTo(fn, s, n, if v.n != 0 then b.s1 else b.s2)
      && match RewriteJump(s, b)
         case (Jnz(r), s1, s2) => s1 == b.s1 && s2 == b.s2 && Read(After(s, at, world), env', r, false) == v
         case (j, s1, s2) => j == Jmp && s1 == if v.n != 0 then b.s1 else b.s2
  {
    hide Known, Agree, LeftTo;
    var a := fn.blks[n].jmp.arg;
    assert JmpDone(fn, s, n, true);
    var l := LatVal(fn, s, a);
    if l >= 0 {
      ReadConstant(fn, s, at, world, env, a, false);
      if IsZero(s, l) {
        EdgeAlive(fn, s, n, 2 * n + 1);
      } else {
        EdgeAlive(fn, s, n, 2 * n);
      }
    } else {
      ReadAgrees(fn, s, at, world, env, env', a, false);
      EdgeAlive(fn, s, n, 2 * n);
      EdgeAlive(fn, s, n, 2 * n + 1);
    }
  }

  lemma JumpOfBlk(fn: Fn, s: Sol, n: nat)
    requires Shape(fn, s) && n < |fn.blks|
    ensures var b := RewriteBlk(fn, s, n); (b.jmp, b.s1, b.s2) == RewriteJump(s, fn.blks[n])
  {
  }

  lemma JmpAlive(fn: Fn, s: Sol, n: nat)
    requires Solved(fn, s) && n < |fn.blks| && s.visit[n] && fn.blks[n].jmp.Jmp?
    ensures BlkOk(fn, n) && LeftTo(fn, s, n, fn.blks[n].s1)
  {
    assert BlkOk(fn, n) && JmpDone(fn, s, n, true);
    EdgeAlive(fn, s, n, 2 * n);
  }

  /** The branch and the rewritten one read the same, and go over a live edge to the same block. */
  ghost predicate BranchAlike(fn: Fn, s: Sol, at: Layout, world: World, n: nat, env: Env, env': Env)
    requires Shape(fn, s) && n < |fn.blks|
  {
    var b := fn.blks[n];
    match b.jmp
    case Jmp => b.s1 >= 0 && LeftTo(fn, s, n, b.s1)
    case Ret(wide, v) => Read(Before(fn, at, world), env, v, wide) == Read(After(s, at, world), env', RenRef(s, v), wide)
    case Jnz(a) =>
      var v := Read(Before(fn, at, world), env, a, false);
      var d := if v.Num? && v.n != 0 then b.s1 else b.s2;
      && v.Num? && d >= 0 && LeftTo(fn, s, n, d)
      && match RewriteJump(s, b)
         case (Jnz(r), s1, s2) => s1 == b.s1 && s2 == b.s2 && Read(After(s, at, world), env', r, false) == v
         case (j, s1, s2) => j == Jmp && s1 == d
  }

  lemma LeaveFrom(fn: Fn, s: Sol, at: Layout, world: World, path: seq<nat>, n: nat, env: Env, env': Env, tr: seq<Event>)
    requires Shape(fn, s) && n < |fn.blks| && BranchAlike(fn, s, at, world, n, env, env')
    ensures LeaveAlike(fn, s, n, path, env, env', Leave(Before(fn, at, world), fn.blks[n], path, env, tr),
                       Leave(After(s, at, world), RewriteBlk(fn, s, n), path, env', tr))
  {
    JumpOfBlk(fn, s, n);
    hide Shape, LeftTo, Read, RewriteBlk;
  }

  lemma LeaveSim(fn: Fn, s: Sol, at: Layout, world: World, path: seq<nat>, n: nat, env: Env, env': Env, tr: seq<Event>)
    requires Solved(fn, s) && n < |fn.blks| && BranchSafe(fn, s, at, n) && s.visit[n]
    requires Assigned(fn, n, |fn.blks[n].phis|, |fn.blks[n].ins|, env)
    requires Known(fn, s, at, env) && Agree(s, env, env')
    ensures LeaveAlike(fn, s, n, path, env, env', Leave(Before(fn, at, world), fn.blks[n], path, env, tr),
                       Leave(After(s, at, world), RewriteBlk(fn, s, n), path, env', tr))
  {
    hide Known, Agree, Read, LeftTo, BranchSafe, RewriteBlk, RewriteJump, RenRef, Leave, LeaveAlike;
    HeldAtEnd(fn, s, n, env);
    match fn.blks[n].jmp {
      case Jmp => JmpAlive(fn, s, n);
      case Ret(wide, v) => ReadAgrees(fn, s, at, world, env, env', v, wide);
      case Jnz(a) => JnzSim(fn, s, at, world, n, env, env');
    }
    LeaveFrom(fn, s, at, world, path, n, env, env', tr);
  }

  /** Where the branch is not safe, the two runs part. */
  lemma LeaveParts(fn: Fn, s: Sol, at: Layout, world: World, path: seq<nat>, n: nat, env: Env, env': Env, tr: seq<Event>)
    requires Solved(fn, s) && n < |fn.blks| && !BranchSafe(fn, s, at, n) && s.visit[n]
    requires Assigned(fn, n, |fn.blks[n].phis|, |fn.blks[n].ins|, env)
    requires Known(fn, s, at, env) && Agree(s, env, env')
    ensures BlkOk(fn, n)
    ensures Leave(Before(fn, at, world), fn.blks[n], path, env, tr) == Running(path + [fn.blks[n].s2], env, tr)
    ensures Leave(After(s, at, world), RewriteBlk(fn, s, n), path, env', tr) == Running(path + [fn.blks[n].s1], env', tr)
  {
    hide Known, Agree;
    HeldAtEnd(fn, s, n, env);
    ReadConstant(fn, s, at, world, env, fn.blks[n].jmp.arg, false);
  }

  // ----- Whole runs -----

  /** The two runs are at the same point, and the original one satisfies RunOk. */
  ghost predicate Alike(fn: Fn, s: Sol, at: Layout, r: State, r': State)
    requires Shape(fn, s) && 0 < |fn.blks|
  {
    match r
    case Running(path, env, tr) => r'.Running? && r'.path == path && r'.trace == tr && RunOk(fn, s, at, path, env) && Agree(s, env, r'.env)
    case _ => r' == r
  }

  lemma NextRunOk(fn: Fn, s: Sol, at: Layout, path: seq<nat>, env: Env, m: nat, env1: Env)
    requires Solved(fn, s) && RunOk(fn, s, at, path, env) && LeftTo(fn, s, path[|path| - 1], m)
    requires env.Keys <= env1.Keys && Known(fn, s, at, env1)
    requires forall t :: DefIn(fn, path[|path| - 1], t) ==> t in env1
    ensures RunOk(fn, s, at, path + [m], env1)
  {
    var p := path + [m];
    assert path[|path| - 1] in fn.pred[m];
    assert Dominators.PathTo(fn.pred, p, m);
    assert p[|p| - 2] == path[|path| - 1];
  }

  /** The block that a run is about to execute ends in a safe branch. */
  ghost predicate SafeAt(fn: Fn, s: Sol, at: Layout, r: State)
    requires WellFormed(fn) && Shape(fn, s)
  {
    r.Running? && r.path != [] && r.path[|r.path| - 1] < |fn.blks| ==> BranchSafe(fn, s, at, r.path[|r.path| - 1])
  }

  /** Up to the branch, a block does the same in both runs. */
  lemma BodySim(fn: Fn, s: Sol, at: Layout, world: World, r: State, r': State) returns (f: Effect, f': Effect)
    requires Solved(fn, s) && Alike(fn, s, at, r, r') && r.Running?
    ensures var n := r.path[|r.path| - 1];
      && SameEffect(fn, s, at, f, f')
      && (f.Ok? ==> Assigned(fn, n, |fn.blks[n].phis|, |fn.blks[n].ins|, f.env) && r.env.Keys <= f.env.Keys)
      && Step(fn.blks, Before(fn, at, world), r) ==
           (if f.Trap? then Stuck(r.path, f.trace) else Leave(Before(fn, at, world), fn.blks[n], r.path, f.env, f.trace))
      && Step(Rewrite(fn, s), After(s, at, world), r') ==
           (if f'.Trap? then Stuck(r.path, f'.trace) else Leave(After(s, at, world), RewriteBlk(fn, s, n), r.path, f'.env, f'.trace))
  {
    hide Known, Agree, Leave, RunInss, AfterPhis, RewriteBlk;
    var n := r.path[|r.path| - 1];
    AfterPhisSim(fn, s, at, world, r.path, r.env, r'.env);
    var e := AfterPhis(Before(fn, at, world), fn.blks[n], r.path, r.env).value;
    var e' := AfterPhis(After(s, at, world), RewriteBlk(fn, s, n), r.path, r'.env).value;
    InssSim(fn, s, at, world, n, |fn.blks[n].ins|, e, e', r.trace);
    SameLength(fn, s, n);
    f := RunInss(Before(fn, at, world), fn.blks[n].ins, |fn.blks[n].ins|, e, r.trace);
    f' := RunInss(After(s, at, world), RewriteBlk(fn, s, n).ins, |fn.blks[n].ins|, e', r.trace);
  }

  lemma SameLength(fn: Fn, s: Sol, n: nat)
    requires Shape(fn, s) && n < |fn.blks|
    ensures |RewriteBlk(fn, s, n).ins| == |fn.blks[n].ins|
  {
  }

  lemma StepSim(fn: Fn, s: Sol, at: Layout, world: World, r: State, r': State)
    requires Solved(fn, s) && SafeAt(fn, s, at, r) && Alike(fn, s, at, r, r')
    ensures Alike(fn, s, at, Step(fn.blks, Before(fn, at, world), r), Step(Rewrite(fn, s), After(s, at, world), r'))
  {
    hide Known, Agree, BranchSafe, LeftTo, Leave, RewriteBlk;
    if r.Running? {
      var n := r.path[|r.path| - 1];
      var f, f' := BodySim(fn, s, at, world, r, r');
      if f.Ok? {
        LeaveSim(fn, s, at, world, r.path, n, f.env, f'.env, f.trace);
        var g := Leave(Before(fn, at, world), fn.blks[n], r.path, f.env, f.trace);
        if g.Running? {
          NextRunOk(fn, s, at, r.path, r.env, g.path[|r.path|], f.env);
        }
      }
    }
  }

  lemma {:induction false} RunSim(fn: Fn, s: Sol, at: Layout, world: World, k: nat)
    requires Solved(fn, s)
    requires forall j :: 0 <= j < k ==> SafeAt(fn, s, at, Run(fn.blks, Before(fn, at, world), j))
    ensures Alike(fn, s, at, Run(fn.blks, Before(fn, at, world), k), Run(Rewrite(fn, s), After(s, at, world), k))
  {
    if k == 0 {
      assert Dominators.PathTo(fn.pred, [0], 0);
    } else {
      RunSim(fn, s, at, world, k - 1);
      StepSim(fn, s, at, world, Run(fn.blks, Before(fn, at, world), k - 1), Run(Rewrite(fn, s), After(s, at, world), k - 1));
    }
  }

  /** The main result: after any number of blocks the rewritten function has gone
      through the same blocks, has had the same events, and has ended or not in the same way. */
  lemma {:induction false} MeaningPreserved(fn: Fn, s: Sol, at: Layout, world: World, k: nat)
    requires Solved(fn, s) && AddressesSafe(fn, s, at)
    ensures SameObservation(Run(fn.blks, Before(fn, at, world), k), Run(Rewrite(fn, s), After(s, at, world), k))
    ensures Alike(fn, s, at, Run(fn.blks, Before(fn, at, world), k), Run(Rewrite(fn, s), After(s, at, world), k))
  {
    if k > 0 {
      MeaningPreserved(fn, s, at, world, k - 1);
      StepSim(fn, s, at, world, Run(fn.blks, Before(fn, at, world), k - 1), Run(Rewrite(fn, s), After(s, at, world), k - 1));
    } else {
      RunSim(fn, s, at, world, 0);
    }
  }

  /** Block j of the run is left by an unsafe branch. */
  ghost predicate PartsAt(fn: Fn, s: Sol, at: Layout, world: World, j: nat)
    requires WellFormed(fn) && Shape(fn, s)
  {
    !SafeAt(fn, s, at, Run(fn.blks, Before(fn, at, world), j)) && Run(fn.blks, Before(fn, at, world), j + 1).Running?
  }

  lemma {:induction false} PathsGrow(blks: seq<Blk>, c: Ctx, j: nat, k: nat)
    requires j <= k
    ensures Run(blks, c, j).path <= Run(blks, c, k).path
    ensures !Run(blks, c, j).Running? ==> Run(blks, c, k) == Run(blks, c, j)
  {
    hide AfterPhis, RunInss, Read;
    if j < k {
      PathsGrow(blks, c, j, k - 1);
    }
  }

  /** The runs stay together over a block unless it is left by an unsafe branch. */
  lemma StepTogether(fn: Fn, s: Sol, at: Layout, world: World, r: State, r': State)
    requires Solved(fn, s) && Alike(fn, s, at, r, r')
    requires SafeAt(fn, s, at, r) || !Step(fn.blks, Before(fn, at, world), r).Running?
    ensures Alike(fn, s, at, Step(fn.blks, Before(fn, at, world), r), Step(Rewrite(fn, s), After(s, at, world), r'))
  {
    hide Known, Agree, BranchSafe, Leave, RewriteBlk;
    if SafeAt(fn, s, at, r) {
      StepSim(fn, s, at, world, r, r');
    } else {
      var f, f' := BodySim(fn, s, at, world, r, r');
      if f.Ok? {
        LeaveParts(fn, s, at, world, r.path, r.path[|r.path| - 1], f.env, f'.env, f.trace);
      }
    }
  }

  lemma WhereRunsPart(fn: Fn, s: Sol, at: Layout, world: World, j: nat)
    requires WellFormed(fn) && Shape(fn, s)
    ensures var r := Run(fn.blks, Before(fn, at, world), j);
      PartsAt(fn, s, at, world, j) <==> !SafeAt(fn, s, at, r) && Step(fn.blks, Before(fn, at, world), r).Running?
    ensures Run(fn.blks, Before(fn, at, world), j + 1) == Step(fn.blks, Before(fn, at, world), Run(fn.blks, Before(fn, at, world), j))
    ensures Run(Rewrite(fn, s), After(s, at, world), j + 1) ==
      Step(Rewrite(fn, s), After(s, at, world), Run(Rewrite(fn, s), After(s, at, world), j))
  {
    hide Step, BranchSafe;
  }

  lemma {:induction false} RunTogether(fn: Fn, s: Sol, at: Layout, world: World, k: nat)
    requires Solved(fn, s) && forall j :: 0 <= j < k ==> !PartsAt(fn, s, at, world, j)
    ensures Alike(fn, s, at, Run(fn.blks, Before(fn, at, world), k), Run(Rewrite(fn, s), After(s, at, world), k))
  {
    hide PartsAt, Step, SafeAt;
    if k == 0 {
      RunSim(fn, s, at, world, 0);
    } else {
      WhereRunsPart(fn, s, at, world, k - 1);
      RunTogether(fn, s, at, world, k - 1);
      StepTogether(fn, s, at, world, Run(fn.blks, Before(fn, at, world), k - 1), Run(Rewrite(fn, s), After(s, at, world), k - 1));
    }
  }

  /** What the lattice says about every run until it leaves a block over an unsafe branch: only visited blocks are
      executed, only live edges are taken, and constant temporaries hold their constant. */
  lemma SolutionSound(fn: Fn, s: Sol, at: Layout, world: World, k: nat)
    requires Solved(fn, s) && forall j :: 0 <= j < k ==> !PartsAt(fn, s, at, world, j)
    ensures var r := Run(fn.blks, Before(fn, at, world), k);
      r.Running? ==>
        && r.path != [] && Known(fn, s, at, r.env)
        && r.path[|r.path| - 1] < |fn.blks| && s.visit[r.path[|r.path| - 1]]
        && (|r.path| > 1 ==> r.path[|r.path| - 2] < |fn.blks| && !DeadEdge(fn, s, r.path[|r.path| - 2], r.path[|r.path| - 1]))
  {
    RunTogether(fn, s, at, world, k);
  }

  /** An unsafe branch at the end of a block separates the runs for good. */
  lemma Parting(fn: Fn, s: Sol, at: Layout, world: World, j: nat, k: nat)
    requires Solved(fn, s) && j < k && PartsAt(fn, s, at, world, j)
    requires forall i :: 0 <= i < j ==> !PartsAt(fn, s, at, world, i)
    ensures !SameObservation(Run(fn.blks, Before(fn, at, world), k), Run(Rewrite(fn, s), After(s, at, world), k))
  {
    hide Known, Agree, Leave, RewriteBlk, PartsAt, Step, Run;
    var c, c' := Before(fn, at, world), After(s, at, world);
    RunTogether(fn, s, at, world, j);
    WhereRunsPart(fn, s, at, world, j);
    var r, r' := Run(fn.blks, c, j), Run(Rewrite(fn, s), c', j);
    var f, f' := BodySim(fn, s, at, world, r, r');
    var n := r.path[|r.path| - 1];
    LeaveParts(fn, s, at, world, r.path, n, f.env, f'.env, f.trace);
    PathsGrow(fn.blks, c, j + 1, k);
    PathsGrow(Rewrite(fn, s), c', j + 1, k);
    assert Run(fn.blks, c, k).path[|r.path|] == fn.blks[n].s2;
    assert Run(Rewrite(fn, s), c', k).path[|r.path|] == fn.blks[n].s1;
  }

  /** Exactly when the rewritten function behaves like the original one: when the
      original run has not yet been through a branch on the address of a label
      with a zero low word (that leads to different blocks). */
  lemma PreservedExactly(fn: Fn, s: Sol, at: Layout, world: World, k: nat)
    requires Solved(fn, s)
    ensures SameObservation(Run(fn.blks, Before(fn, at, world), k), Run(Rewrite(fn, s), After(s, at, world), k))
      <==> forall j :: 0 <= j < k ==> !PartsAt(fn, s, at, world, j)
  {
    if forall j :: 0 <= j < k ==> !PartsAt(fn, s, at, world, j) {
      RunTogether(fn, s, at, world, k);
    } else {
      var j :| 0 <= j < k && PartsAt(fn, s, at, world, j);
      var i := FirstParting(fn, s, at, world, j);
      Parting(fn, s, at, world, i, k);
    }
  }

  lemma {:induction false} FirstParting(fn: Fn, s: Sol, at: Layout, world: World, j: nat) returns (i: nat)
    requires WellFormed(fn) && Shape(fn, s) && PartsAt(fn, s, at, world, j)
    ensures i <= j && PartsAt(fn, s, at, world, i) && forall x :: 0 <= x < i ==> !PartsAt(fn, s, at, world, x)
  {
    if x: nat :| x < j && PartsAt(fn, s, at, world, x) {
      i := FirstParting(fn, s, at, world, x);
    } else {
      i := j;
    }
  }
}
