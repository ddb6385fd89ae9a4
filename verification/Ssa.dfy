/** The part of QBE's intermediate language that constant propagation deals
    with, and what it means to run it. Blocks are named by their reverse
    postorder number; block 0 is the start block and null is -1. */
module Ssa {
  import opened Basics
  import opened Folding
  import Dominators

  datatype Ref = RNone | RTmp(t: nat) | RCon(c: nat) | ROther(k: int)

  datatype PhiArg = PhiArg(blk: nat, arg: Ref)

  datatype Phi = Phi(to: nat, wide: bool, args: seq<PhiArg>)

  /** Other stands for the operations that are not folded (loads, stores, calls,
      parameters and so on); w0 and w1 are the classes of its operands. */
  datatype InsOp = Fold(op: Op) | Other(code: int, w0: bool, w1: bool) | Nop

  datatype Ins = Ins(op: InsOp, wide: bool, to: Option<nat>, arg0: Ref, arg1: Ref)

  datatype Jump = Jmp | Jnz(arg: Ref) | Ret(wide: bool, val: Ref)

  datatype Blk = Blk(phis: seq<Phi>, ins: seq<Ins>, jmp: Jump, s1: int, s2: int)

  datatype Use = UPhi(bid: nat, p: nat) | UIns(bid: nat, i: nat) | UJmp(bid: nat)

  /** A function: its blocks and their predecessors, the class of each temporary
      (true for 64 bits), the uses of each temporary, and the constants. */
  datatype Fn = Fn(blks: seq<Blk>, pred: seq<seq<nat>>, wide: seq<bool>, uses: seq<seq<Use>>, con: seq<Con>)

  // ----- What the pass requires -----

  /** Operands that have a lattice value. */
  predicate Plain(fn: Fn, r: Ref) {
    match r
    case RTmp(t) => t < |fn.wide|
    case RCon(c) => c < |fn.con|
    case _ => false
  }

  /** The reference may be read at the given width. */
  predicate Readable(fn: Fn, r: Ref, wide: bool) {
    match r
    case RTmp(t) => t < |fn.wide| && (wide ==> fn.wide[t])
    case RCon(c) => c < |fn.con|
    case _ => true
  }

  predicate PhiOk(fn: Fn, phi: Phi) {
    && phi.to < |fn.wide| && fn.wide[phi.to] == phi.wide
    && (forall a :: 0 <= a < |phi.args| ==>
          phi.args[a].blk < |fn.blks| && Plain(fn, phi.args[a].arg) && Readable(fn, phi.args[a].arg, phi.wide))
    && (forall a, b :: 0 <= a < b < |phi.args| ==> phi.args[a].blk != phi.args[b].blk)
  }

  predicate InsOk(fn: Fn, i: Ins) {
    && (i.to.Some? ==> i.to.value < |fn.wide| && fn.wide[i.to.value] == i.wide)
    && match i.op
       case Fold(op) =>
         && Plain(fn, i.arg0) && (Plain(fn, i.arg1) || i.arg1.RNone?)
         && Readable(fn, i.arg0, WideArg(op, i.wide, 0)) && Readable(fn, i.arg1, WideArg(op, i.wide, 1))
       case Other(_, w0, w1) => Readable(fn, i.arg0, w0) && Readable(fn, i.arg1, w1)
       case Nop => i.to.None? && i.arg0.RNone? && i.arg1.RNone?
  }

  predicate JumpOk(fn: Fn, b: Blk) {
    match b.jmp
    case Jmp => 0 < b.s1 < |fn.blks| && b.s2 == -1
    case Jnz(a) => 0 < b.s1 < |fn.blks| && 0 < b.s2 < |fn.blks| && Plain(fn, a)
    case Ret(wide, v) => b.s1 == -1 && b.s2 == -1 && Readable(fn, v, wide)
  }

  /** The shape that the parser and the passes before this one guarantee. In
      particular no edge enters the start block, constant 0 is zero, and a phi
      has one argument for each predecessor. */
  ghost predicate WellFormed(fn: Fn) {
    && 0 < |fn.blks| == |fn.pred| && Dominators.WellFormed(fn.pred)
    && |fn.uses| == |fn.wide| && 0 < |fn.con| && fn.con[0] == Bits(0)
    && fn.blks[0].phis == []
    && (forall n :: 0 <= n < |fn.blks| ==> BlkOk(fn, n))
    && (forall s, d :: 0 <= s < |fn.blks| && 0 <= d < |fn.blks| ==> (s in fn.pred[d] <==> Edge(fn, s, d)))
  }

  ghost predicate BlkOk(fn: Fn, n: nat)
    requires n < |fn.blks| == |fn.pred|
  {
    var b := fn.blks[n];
    && JumpOk(fn, b)
    && (forall p :: 0 <= p < |b.phis| ==> PhiOk(fn, b.phis[p]) && ArgsMatch(b.phis[p], fn.pred[n]))
    && (forall i :: 0 <= i < |b.ins| ==> InsOk(fn, b.ins[i]))
  }

  /** A phi has an argument for each predecessor, and no others. */
  ghost predicate ArgsMatch(phi: Phi, pred: seq<nat>) {
    (forall s :: s in pred ==> HasArg(phi, s)) && forall a :: 0 <= a < |phi.args| ==> phi.args[a].blk in pred
  }

  predicate HasArg(phi: Phi, s: nat) {
    exists a :: 0 <= a < |phi.args| && phi.args[a].blk == s
  }

  predicate Edge(fn: Fn, s: nat, d: nat)
    requires s < |fn.blks|
  {
    fn.blks[s].s1 == d || fn.blks[s].s2 == d
  }

  /** Temporary t is assigned by one of the first k phis or of the first i instructions of block n. */
  ghost predicate DefBefore(fn: Fn, n: nat, k: nat, i: nat, t: nat)
    requires n < |fn.blks| && k <= |fn.blks[n].phis| && i <= |fn.blks[n].ins|
  {
    (exists p :: 0 <= p < k && fn.blks[n].phis[p].to == t) ||
    (exists j :: 0 <= j < i && fn.blks[n].ins[j].to == Some(t))
  }

  ghost predicate DefIn(fn: Fn, n: nat, t: nat)
    requires n < |fn.blks|
  {
    DefBefore(fn, n, |fn.blks[n].phis|, |fn.blks[n].ins|, t)
  }

  /** A temporary used at instruction i of block n has been assigned before on every path. */
  ghost predicate Available(fn: Fn, n: nat, i: nat, t: nat)
    requires n < |fn.blks| && i <= |fn.blks[n].ins|
  {
    DefBefore(fn, n, |fn.blks[n].phis|, i, t) || AvailableBefore(fn, n, t)
  }

  ghost predicate AvailableBefore(fn: Fn, n: nat, t: nat)
    requires n < |fn.blks|
  {
    exists d: nat :: d < |fn.blks| && d != n && DefIn(fn, d, t) && Dominators.Dominates(fn.pred, d, n)
  }

  /** A phi argument has been assigned by the end of the predecessor it comes from. */
  ghost predicate AvailableAtEnd(fn: Fn, n: nat, t: nat)
    requires n < |fn.blks|
  {
    exists d: nat :: d < |fn.blks| && DefIn(fn, d, t) && Dominators.Dominates(fn.pred, d, n)
  }

  ghost predicate RefAvailable(fn: Fn, n: nat, i: nat, r: Ref)
    requires n < |fn.blks| && i <= |fn.blks[n].ins|
  {
    r.RTmp? ==> Available(fn, n, i, r.t)
  }

  ghost predicate PhiAvailable(fn: Fn, phi: Phi) {
    forall a :: 0 <= a < |phi.args| && phi.args[a].arg.RTmp? && phi.args[a].blk < |fn.blks| ==>
      AvailableAtEnd(fn, phi.args[a].blk, phi.args[a].arg.t)
  }

  function JumpArg(j: Jump): Ref {
    match j
    case Jmp => RNone
    case Jnz(a) => a
    case Ret(_, v) => v
  }

  /** Strict form: every use is dominated by a definition. */
  ghost predicate StrictBlk(fn: Fn, n: nat)
    requires n < |fn.blks|
  {
    var b := fn.blks[n];
    && (forall p :: 0 <= p < |b.phis| ==> PhiAvailable(fn, b.phis[p]))
    && (forall i :: 0 <= i < |b.ins| ==> RefAvailable(fn, n, i, b.ins[i].arg0) && RefAvailable(fn, n, i, b.ins[i].arg1))
    && RefAvailable(fn, n, |b.ins|, JumpArg(b.jmp))
  }

  ghost predicate Strict(fn: Fn) {
    forall n :: 0 <= n < |fn.blks| ==> StrictBlk(fn, n)
  }

  /** The phi or instruction u assigns temporary t. */
  predicate Defines(fn: Fn, u: Use, t: nat) {
    u.bid < |fn.blks| &&
    match u
    case UPhi(n, p) => p < |fn.blks[n].phis| && fn.blks[n].phis[p].to == t
    case UIns(n, i) => i < |fn.blks[n].ins| && fn.blks[n].ins[i].to == Some(t)
    case UJmp(n) => false
  }

  /** Each temporary is assigned in one place only. */
  ghost predicate Single(fn: Fn) {
    forall t, u, w {:trigger Defines(fn, u, t), Defines(fn, w, t)} ::
      0 <= t < |fn.wide| && Defines(fn, u, t) && Defines(fn, w, t) ==> u == w
  }

  predicate PhiUses(phi: Phi, t: nat) {
    exists a :: 0 <= a < |phi.args| && phi.args[a].arg == RTmp(t)
  }

  predicate InsUses(i: Ins, t: nat) {
    i.arg0 == RTmp(t) || i.arg1 == RTmp(t)
  }

  predicate UseOk(fn: Fn, u: Use) {
    u.bid < |fn.blks| &&
    match u
    case UPhi(n, p) => p < |fn.blks[n].phis|
    case UIns(n, i) => i < |fn.blks[n].ins|
    case UJmp(n) => true
  }

  /** What filluse has recorded: all uses of each temporary. */
  ghost predicate UsesOk(fn: Fn)
    requires |fn.uses| == |fn.wide|
  {
    && (forall t, u :: 0 <= t < |fn.uses| && u in fn.uses[t] ==> UseOk(fn, u) && (u.UJmp? ==> fn.blks[u.bid].jmp.Jnz? || fn.blks[u.bid].jmp.Ret?))
    && forall n :: 0 <= n < |fn.blks| ==> BlkUsesOk(fn, n)
  }

  ghost predicate BlkUsesOk(fn: Fn, n: nat)
    requires n < |fn.blks| && |fn.uses| == |fn.wide|
  {
    var b := fn.blks[n];
    && (forall p, t :: 0 <= p < |b.phis| && 0 <= t < |fn.uses| && PhiUses(b.phis[p], t) ==> UPhi(n, p) in fn.uses[t])
    && (forall i, t :: 0 <= i < |b.ins| && 0 <= t < |fn.uses| && InsUses(b.ins[i], t) ==> UIns(n, i) in fn.uses[t])
    && (forall t :: 0 <= t < |fn.uses| && JumpArg(b.jmp) == RTmp(t) ==> UJmp(n) in fn.uses[t])
  }

  // ----- Running a function -----

  type Env = map<nat, nat>

  datatype Arg = Num(n: nat) | Raw(k: int) | Nothing | Undef

  /** What the outside sees of an instruction that is not folded. */
  datatype Event = Event(code: int, wide: bool, a0: Arg, a1: Arg)

  /** The outside: the result of an event, given everything that happened before. */
  type World = (seq<Event>, Event) -> Word

  /** The surroundings of a run: constants, linker layout and outside world. */
  datatype Ctx = Ctx(con: seq<Con>, at: Layout, world: World)

  function Read(c: Ctx, env: Env, r: Ref, wide: bool): Arg {
    match r
    case RNone => Nothing
    case RTmp(t) => if t in env then Num(env[t] % Size(wide)) else Undef
    case RCon(k) => if k < |c.con| then Num(Value(c.con[k], c.at) % Size(wide)) else Undef
    case ROther(k) => Raw(k)
  }

  /** An operand of a foldable operation; a missing second operand counts as zero. */
  function Number(a: Arg): Option<nat> {
    match a
    case Num(n) => Some(n)
    case Nothing => Some(0)
    case _ => None
  }

  datatype Effect = Ok(env: Env, trace: seq<Event>) | Trap(trace: seq<Event>)

  function Assign(env: Env, to: Option<nat>, v: nat): Env {
    if to.Some? then env[to.value := v] else env
  }

  /** Undefined operations, and reading what has not been assigned, end the run. */
  function RunIns(c: Ctx, i: Ins, env: Env, trace: seq<Event>): Effect {
    match i.op
    case Nop => Ok(env, trace)
    case Fold(op) =>
      var a := Number(Read(c, env, i.arg0, WideArg(op, i.wide, 0)));
      var b := Number(Read(c, env, i.arg1, WideArg(op, i.wide, 1)));
      if a.None? || b.None? then Trap(trace)
      else
        var v := Eval(op, i.wide, a.value, b.value);
        if v.None? then Trap(trace) else Ok(Assign(env, i.to, v.value), trace)
    case Other(code, w0, w1) =>
      var e := Event(code, i.wide, Read(c, env, i.arg0, w0), Read(c, env, i.arg1, w1));
      if e.a0.Undef? || e.a1.Undef? then Trap(trace)
      else Ok(Assign(env, i.to, c.world(trace, e) % Size(i.wide)), trace + [e])
  }

  /** Runs the first k instructions. */
  function RunInss(c: Ctx, ins: seq<Ins>, k: nat, env: Env, trace: seq<Event>): Effect
    requires k <= |ins|
  {
    if k == 0 then Ok(env, trace)
    else
      var e := RunInss(c, ins, k - 1, env, trace);
      if e.Trap? then e else RunIns(c, ins[k - 1], e.env, e.trace)
  }

  /** The argument for a predecessor. */
  function ArgFor(args: seq<PhiArg>, s: nat): Ref {
    if args == [] then RNone else if args[0].blk == s then args[0].arg else ArgFor(args[1..], s)
  }

  /** The phis read their arguments at once; None when one is not available. */
  function PhiValues(c: Ctx, phis: seq<Phi>, s: nat, env: Env): Option<Env> {
    if phis == [] then Some(map[])
    else
      var phi := phis[|phis| - 1];
      var m := PhiValues(c, phis[..|phis| - 1], s, env);
      var a := Read(c, env, ArgFor(phi.args, s), phi.wide);
      if m.None? || !a.Num? then None else Some(m.value[phi.to := a.n])
  }

  datatype State =
    | Running(path: seq<nat>, env: Env, trace: seq<Event>)
    | Returned(path: seq<nat>, trace: seq<Event>, val: Arg)
    | Stuck(path: seq<nat>, trace: seq<Event>)

  function AfterPhis(c: Ctx, b: Blk, path: seq<nat>, env: Env): Option<Env> {
    if |path| < 2 then Some(env)
    else
      var m := PhiValues(c, b.phis, path[|path| - 2], env);
      if m.None? then None else Some(env + m.value)
  }

  function Leave(c: Ctx, b: Blk, path: seq<nat>, env: Env, trace: seq<Event>): State {
    match b.jmp
    case Jmp => if b.s1 < 0 then Stuck(path, trace) else Running(path + [b.s1], env, trace)
    case Jnz(a) =>
      var v := Read(c, env, a, false);
      if !v.Num? then Stuck(path, trace)
      else
        var d := if v.n != 0 then b.s1 else b.s2;
        if d < 0 then Stuck(path, trace) else Running(path + [d], env, trace)
    case Ret(wide, r) =>
      var v := Read(c, env, r, wide);
      if v.Undef? then Stuck(path, trace) else Returned(path, trace, v)
  }

  /** Runs one block: the last one of the path. */
  function Step(blks: seq<Blk>, c: Ctx, s: State): State {
    if !s.Running? || s.path == [] || s.path[|s.path| - 1] >= |blks| then s
    else
      var b := blks[s.path[|s.path| - 1]];
      var env := AfterPhis(c, b, s.path, s.env);
      if env.None? then Stuck(s.path, s.trace)
      else
        var e := RunInss(c, b.ins, |b.ins|, env.value, s.trace);
        if e.Trap? then Stuck(s.path, e.trace) else Leave(c, b, s.path, e.env, e.trace)
  }

  /** The state after k blocks. */
  function Run(blks: seq<Blk>, c: Ctx, k: nat): State {
    if k == 0 then Running([0], map[], []) else Step(blks, c, Run(blks, c, k - 1))
  }

  /** What can be observed of a run: the blocks it goes through, its events,
      and whether and how it has ended. */
  predicate SameObservation(s: State, s': State) {
    match s
    case Running(p, _, t) => s'.Running? && s'.path == p && s'.trace == t
    case Returned(p, t, v) => s' == s
    case Stuck(p, t) => s' == s
  }
}
