/** Liveness (filllive in lib/qbe-1.0/live.c), for functions without fixed
    registers. Blocks are named by their reverse-postorder number and null is -1. */
module Liveness {
  import opened Finite

  datatype Arg = Tmp(t: nat) | NoTmp

  /** An operand that is a memory reference has two arguments. */
  datatype Operand = Plain(arg: Arg) | Mem(base: Arg, index: Arg)

  datatype Ins = Ins(to: Arg, arg0: Operand, arg1: Operand)

  datatype PhiArg = PhiArg(blk: nat, arg: Arg)

  datatype Phi = Phi(to: Arg, args: seq<PhiArg>)

  datatype Blk = Blk(phis: seq<Phi>, ins: seq<Ins>, jmp: Arg, s1: int, s2: int)

  /** cls says of each temporary in which of the two kinds of registers it lives. */
  datatype Fn = Fn(blks: seq<Blk>, cls: seq<bool>)

  predicate ArgOk(fn: Fn, a: Arg) { a.Tmp? ==> a.t < |fn.cls| }

  predicate OperandOk(fn: Fn, o: Operand) {
    match o
    case Plain(a) => ArgOk(fn, a)
    case Mem(b, i) => ArgOk(fn, b) && ArgOk(fn, i)
  }

  predicate InsOk(fn: Fn, i: Ins) { ArgOk(fn, i.to) && OperandOk(fn, i.arg0) && OperandOk(fn, i.arg1) }

  predicate PhiOk(fn: Fn, p: Phi) { ArgOk(fn, p.to) && forall a :: 0 <= a < |p.args| ==> ArgOk(fn, p.args[a].arg) }

  predicate BlkOk(fn: Fn, b: Blk) {
    && -1 <= b.s1 < |fn.blks| && -1 <= b.s2 < |fn.blks| && ArgOk(fn, b.jmp)
    && (forall p :: 0 <= p < |b.phis| ==> PhiOk(fn, b.phis[p]))
    && (forall i :: 0 <= i < |b.ins| ==> InsOk(fn, b.ins[i]))
  }

  ghost predicate WellFormed(fn: Fn) {
    forall b :: 0 <= b < |fn.blks| ==> BlkOk(fn, fn.blks[b])
  }

  // ----- What it means to be live -----

  predicate Reads(o: Operand, t: nat) {
    match o
    case Plain(a) => a == Tmp(t)
    case Mem(b, i) => b == Tmp(t) || i == Tmp(t)
  }

  /** Instruction i of the block, or its branch if there is no such instruction, reads t. */
  predicate UseAt(b: Blk, i: nat, t: nat) {
    if i < |b.ins| then Reads(b.ins[i].arg0, t) || Reads(b.ins[i].arg1, t) else i == |b.ins| && b.jmp == Tmp(t)
  }

  /** None of the instructions from i up to j assigns t. */
  ghost predicate NoDef(b: Blk, i: nat, j: nat, t: nat) {
    forall x :: i <= x < j && x < |b.ins| ==> b.ins[x].to != Tmp(t)
  }

  /** From instruction i on, the block reads t before it assigns it. */
  ghost predicate UsedFrom(b: Blk, i: nat, t: nat) {
    exists j: nat :: i <= j && UseAt(b, j, t) && NoDef(b, i, j, t)
  }

  predicate PhiDefines(b: Blk, t: nat) {
    exists p :: 0 <= p < |b.phis| && b.phis[p].to == Tmp(t)
  }

  /** A phi of s reads t when it is entered from block n. */
  predicate PhiReads(s: Blk, n: nat, t: nat) {
    exists p, a :: 0 <= p < |s.phis| && 0 <= a < |s.phis[p].args| && s.phis[p].args[a] == PhiArg(n, Tmp(t))
  }

  predicate Edge(fn: Fn, b: nat, s: nat) {
    b < |fn.blks| && s < |fn.blks| && (fn.blks[b].s1 == s || fn.blks[b].s2 == s)
  }

  ghost predicate ReadByPhi(fn: Fn, b: nat, t: nat) {
    exists s: nat :: Edge(fn, b, s) && PhiReads(fn.blks[s], b, t)
  }

  /** Block b, entered after its phis, reads t before anything is assigned to it;
      the arguments of phis are read at the end of the block they come from. */
  ghost predicate ReadIn(fn: Fn, b: nat, t: nat)
    requires b < |fn.blks|
  {
    UsedFrom(fn.blks[b], 0, t) || (NoDef(fn.blks[b], 0, |fn.blks[b].ins|, t) && ReadByPhi(fn, b, t))
  }

  /** A path along which t is not assigned, to a block that reads it. */
  ghost predicate Witness(fn: Fn, p: seq<nat>, t: nat) {
    && p != [] && p[|p| - 1] < |fn.blks| && ReadIn(fn, p[|p| - 1], t)
    && (forall i, j :: 0 <= i < j < |p| && j == i + 1 ==> Hop(fn, p[i], p[j], t))
  }

  ghost predicate Hop(fn: Fn, b: nat, s: nat, t: nat) {
    Edge(fn, b, s) && NoDef(fn.blks[b], 0, |fn.blks[b].ins|, t) && !PhiDefines(fn.blks[s], t)
  }

  ghost predicate Live(fn: Fn, b: nat, t: nat) {
    exists p :: Witness(fn, p, t) && p[0] == b
  }

  /** Live at the end of block b. */
  ghost predicate LiveAtEnd(fn: Fn, b: nat, t: nat) {
    ReadByPhi(fn, b, t) || exists s: nat :: EdgeLive(fn, b, s, t)
  }

  ghost predicate EdgeLive(fn: Fn, b: nat, s: nat, t: nat) {
    Edge(fn, b, s) && !PhiDefines(fn.blks[s], t) && Live(fn, s, t)
  }

  ghost predicate LiveBefore(fn: Fn, b: nat, i: nat, t: nat)
    requires b < |fn.blks|
  {
    UsedFrom(fn.blks[b], i, t) || (NoDef(fn.blks[b], i, |fn.blks[b].ins|, t) && LiveAtEnd(fn, b, t))
  }

  /** Being live after the phis is being live before the first instruction. */
  lemma LiveAtStart(fn: Fn, b: nat, t: nat)
    requires b < |fn.blks|
    ensures Live(fn, b, t) <==> LiveBefore(fn, b, 0, t)
  {
    if Live(fn, b, t) {
      var p :| Witness(fn, p, t) && p[0] == b;
      if |p| > 1 {
        assert Hop(fn, p[0], p[1], t);
        var q := p[1..];
        forall i, j | 0 <= i < j < |q| && j == i + 1
          ensures Hop(fn, q[i], q[j], t)
        {
          assert Hop(fn, p[i + 1], p[j + 1], t);
        }
        assert Witness(fn, q, t) && q[0] == p[1];
        assert EdgeLive(fn, b, p[1], t);
      }
    }
    if LiveBefore(fn, b, 0, t) {
      if ReadIn(fn, b, t) {
        assert Witness(fn, [b], t);
      } else {
        var s: nat :| EdgeLive(fn, b, s, t);
        var p :| Witness(fn, p, t) && p[0] == s;
        var q := [b] + p;
        forall i, j | 0 <= i < j < |q| && j == i + 1
          ensures Hop(fn, q[i], q[j], t)
        {
          assert i > 0 ==> Hop(fn, p[i - 1], p[j - 1], t);
        }
        assert Witness(fn, q, t);
      }
    }
  }

  // ----- The transfer through a block -----

  function Of(a: Arg): set<nat> { if a.Tmp? then {a.t} else {} }

  function OfOperand(o: Operand): (s: set<nat>)
    ensures forall t :: t in s <==> Reads(o, t)
  {
    match o
    case Plain(a) => Of(a)
    case Mem(b, i) => Of(b) + Of(i)
  }

  /** What is live before instruction i if out is live at the end. */
  function Before(b: Blk, i: nat, out: set<nat>): set<nat>
    decreases |b.ins| - i
  {
    if i >= |b.ins| then out + Of(b.jmp)
    else Before(b, i + 1, out) - Of(b.ins[i].to) + OfOperand(b.ins[i].arg0) + OfOperand(b.ins[i].arg1)
  }

  lemma {:induction false} BeforeExactly(b: Blk, i: nat, out: set<nat>, t: nat)
    requires i <= |b.ins|
    ensures t in Before(b, i, out) <==> UsedFrom(b, i, t) || (NoDef(b, i, |b.ins|, t) && t in out)
    decreases |b.ins| - i
  {
    if i < |b.ins| {
      BeforeExactly(b, i + 1, out, t);
      UsedFromNext(b, i, t);
      assert NoDef(b, i, |b.ins|, t) <==> b.ins[i].to != Tmp(t) && NoDef(b, i + 1, |b.ins|, t);
    } else {
      assert UsedFrom(b, i, t) <==> UseAt(b, i, t);
    }
  }

  lemma UsedFromNext(b: Blk, i: nat, t: nat)
    requires i < |b.ins|
    ensures UsedFrom(b, i, t) <==> UseAt(b, i, t) || (b.ins[i].to != Tmp(t) && UsedFrom(b, i + 1, t))
  {
    if UsedFrom(b, i, t) && !UseAt(b, i, t) {
      var j: nat :| i <= j && UseAt(b, j, t) && NoDef(b, i, j, t);
      assert NoDef(b, i + 1, j, t);
    }
    if b.ins[i].to != Tmp(t) && UsedFrom(b, i + 1, t) {
      var j: nat :| i + 1 <= j && UseAt(b, j, t) && NoDef(b, i + 1, j, t);
      assert NoDef(b, i, j, t);
    }
  }

  function PhiDefs(phis: seq<Phi>): set<nat> {
    if phis == [] then {} else PhiDefs(phis[..|phis| - 1]) + Of(phis[|phis| - 1].to)
  }

  function ArgReads(args: seq<PhiArg>, n: nat): set<nat> {
    if args == [] then {}
    else ArgReads(args[..|args| - 1], n) + if args[|args| - 1].blk == n then Of(args[|args| - 1].arg) else {}
  }

  function AllArgReads(phis: seq<Phi>, n: nat): set<nat> {
    if phis == [] then {} else AllArgReads(phis[..|phis| - 1], n) + ArgReads(phis[|phis| - 1].args, n)
  }

  /** What block n has to keep alive for its successor s. */
  function LiveOn(s: Blk, liveIn: set<nat>, n: nat): set<nat> {
    liveIn - PhiDefs(s.phis) + AllArgReads(s.phis, n)
  }

  lemma {:induction false} PhiDefsExactly(phis: seq<Phi>, t: nat)
    ensures t in PhiDefs(phis) <==> exists p :: 0 <= p < |phis| && phis[p].to == Tmp(t)
  {
    if phis != [] {
      PhiDefsExactly(phis[..|phis| - 1], t);
    }
  }

  lemma {:induction false} ArgReadsExactly(args: seq<PhiArg>, n: nat, t: nat)
    ensures t in ArgReads(args, n) <==> exists a :: 0 <= a < |args| && args[a] == PhiArg(n, Tmp(t))
  {
    if args != [] {
      ArgReadsExactly(args[..|args| - 1], n, t);
    }
  }

  lemma {:induction false} AllArgReadsExactly(phis: seq<Phi>, n: nat, t: nat)
    ensures t in AllArgReads(phis, n) <==> exists p, a :: 0 <= p < |phis| && 0 <= a < |phis[p].args| && phis[p].args[a] == PhiArg(n, Tmp(t))
  {
    if phis != [] {
      AllArgReadsExactly(phis[..|phis| - 1], n, t);
      ArgReadsExactly(phis[|phis| - 1].args, n, t);
    }
  }

  lemma LiveOnExactly(s: Blk, liveIn: set<nat>, n: nat, t: nat)
    ensures t in LiveOn(s, liveIn, n) <==> PhiReads(s, n, t) || (t in liveIn && !PhiDefines(s, t))
  {
    PhiDefsExactly(s.phis, t);
    AllArgReadsExactly(s.phis, n, t);
  }

  // ----- Sound at every moment -----

  /** Only what is live is in the sets. */
  ghost predicate Sound(fn: Fn, ins: seq<set<nat>>, outs: seq<set<nat>>) {
    && |ins| == |outs| == |fn.blks|
    && (forall b, t :: 0 <= b < |ins| && t in ins[b] ==> Live(fn, b, t))
    && (forall b, t :: 0 <= b < |outs| && t in outs[b] ==> LiveAtEnd(fn, b, t))
  }

  lemma SoundIn(fn: Fn, ins: seq<set<nat>>, outs: seq<set<nat>>, b: nat)
    requires Sound(fn, ins, outs) && b < |ins|
    ensures Sound(fn, ins[b := Before(fn.blks[b], 0, outs[b])], outs)
  {
    forall t | t in Before(fn.blks[b], 0, outs[b])
      ensures Live(fn, b, t)
    {
      BeforeExactly(fn.blks[b], 0, outs[b], t);
      LiveAtStart(fn, b, t);
    }
  }

  lemma SoundOut(fn: Fn, ins: seq<set<nat>>, outs: seq<set<nat>>, b: nat, s: nat)
    requires Sound(fn, ins, outs) && Edge(fn, b, s)
    ensures Sound(fn, ins, outs[b := outs[b] + LiveOn(fn.blks[s], ins[s], b)])
  {
    forall t | t in LiveOn(fn.blks[s], ins[s], b)
      ensures LiveAtEnd(fn, b, t)
    {
      LiveOnExactly(fn.blks[s], ins[s], b, t);
      if PhiReads(fn.blks[s], b, t) {
        assert ReadByPhi(fn, b, t);
      } else {
        assert EdgeLive(fn, b, s, t);
      }
    }
  }

  // ----- Complete when stable -----

  predicate Settled(fn: Fn, ins: seq<set<nat>>, outs: seq<set<nat>>, b: nat)
    requires b < |ins| == |outs| == |fn.blks|
  {
    ins[b] == Before(fn.blks[b], 0, outs[b])
  }

  ghost predicate Closed(fn: Fn, ins: seq<set<nat>>, outs: seq<set<nat>>, b: nat)
    requires b < |ins| == |outs| == |fn.blks|
  {
    forall s: nat :: Edge(fn, b, s) ==> LiveOn(fn.blks[s], ins[s], b) <= outs[b]
  }

  ghost predicate Stable(fn: Fn, ins: seq<set<nat>>, outs: seq<set<nat>>) {
    && |ins| == |outs| == |fn.blks|
    && forall b :: 0 <= b < |ins| ==> Settled(fn, ins, outs, b) && Closed(fn, ins, outs, b)
  }

  lemma {:induction false} LiveFound(fn: Fn, ins: seq<set<nat>>, outs: seq<set<nat>>, p: seq<nat>, t: nat)
    requires Stable(fn, ins, outs) && Witness(fn, p, t)
    ensures p[0] < |ins| && t in ins[p[0]]
    decreases |p|
  {
    var b := p[0];
    if |p| == 1 {
      if ReadByPhi(fn, b, t) {
        PhiReadFound(fn, ins, outs, b, t);
      }
    } else {
      assert Hop(fn, b, p[1], t);
      var q := p[1..];
      forall i, j | 0 <= i < j < |q| && j == i + 1
        ensures Hop(fn, q[i], q[j], t)
      {
        assert Hop(fn, p[i + 1], p[j + 1], t);
      }
      LiveFound(fn, ins, outs, q, t);
      assert Closed(fn, ins, outs, b);
      LiveOnExactly(fn.blks[p[1]], ins[p[1]], b, t);
    }
    assert Settled(fn, ins, outs, b);
    BeforeExactly(fn.blks[b], 0, outs[b], t);
  }

  lemma PhiReadFound(fn: Fn, ins: seq<set<nat>>, outs: seq<set<nat>>, b: nat, t: nat)
    requires Stable(fn, ins, outs) && b < |fn.blks| && ReadByPhi(fn, b, t)
    ensures t in outs[b]
  {
    var s: nat :| Edge(fn, b, s) && PhiReads(fn.blks[s], b, t);
    assert Closed(fn, ins, outs, b);
    LiveOnExactly(fn.blks[s], ins[s], b, t);
  }

  /** The sets say exactly what is live. */
  ghost predicate Exact(fn: Fn, ins: seq<set<nat>>, outs: seq<set<nat>>) {
    && |ins| == |outs| == |fn.blks|
    && (forall b, t: nat {:trigger t in ins[b]} {:trigger Live(fn, b, t)} :: 0 <= b < |ins| ==> (t in ins[b] <==> Live(fn, b, t)))
    && (forall b, t: nat {:trigger t in outs[b]} {:trigger LiveAtEnd(fn, b, t)} :: 0 <= b < |outs| ==> (t in outs[b] <==> LiveAtEnd(fn, b, t)))
  }

  lemma StableExact(fn: Fn, ins: seq<set<nat>>, outs: seq<set<nat>>)
    requires Sound(fn, ins, outs) && Stable(fn, ins, outs)
    ensures Exact(fn, ins, outs)
  {
    forall b: nat, t: nat | b < |ins| && Live(fn, b, t)
      ensures t in ins[b]
    {
      var p :| Witness(fn, p, t) && p[0] == b;
      LiveFound(fn, ins, outs, p, t);
    }
    forall b: nat, t: nat | b < |ins| && LiveAtEnd(fn, b, t)
      ensures t in outs[b]
    {
      if ReadByPhi(fn, b, t) {
        PhiReadFound(fn, ins, outs, b, t);
      } else {
        var s: nat :| EdgeLive(fn, b, s, t);
        assert Closed(fn, ins, outs, b);
        LiveOnExactly(fn.blks[s], ins[s], b, t);
      }
    }
  }

  /** Exact sets give exact liveness before each instruction. */
  lemma ExactInside(fn: Fn, ins: seq<set<nat>>, outs: seq<set<nat>>, b: nat, i: nat, t: nat)
    requires Exact(fn, ins, outs) && b < |fn.blks| && i <= |fn.blks[b].ins|
    ensures t in Before(fn.blks[b], i, outs[b]) <==> LiveBefore(fn, b, i, t)
  {
    BeforeExactly(fn.blks[b], i, outs[b], t);
  }

  // ----- How many are live at once -----

  ghost function Part(fn: Fn, live: set<nat>, k: bool): set<nat> {
    set t | t in live && t < |fn.cls| && fn.cls[t] == k
  }

  ghost function Count(fn: Fn, live: set<nat>, k: bool): nat { |Part(fn, live, k)| }

  lemma CountAdd(fn: Fn, live: set<nat>, t: nat, k: bool)
    requires t < |fn.cls|
    ensures Count(fn, live + {t}, k) == Count(fn, live, k) + if t !in live && fn.cls[t] == k then 1 else 0
  {
    if t in live {
      assert live + {t} == live;
    } else if fn.cls[t] == k {
      assert Part(fn, live + {t}, k) == Part(fn, live, k) + {t};
    } else {
      assert Part(fn, live + {t}, k) == Part(fn, live, k);
    }
  }

  lemma CountDrop(fn: Fn, live: set<nat>, t: nat, k: bool)
    requires t < |fn.cls|
    ensures Count(fn, live - {t}, k) == Count(fn, live, k) - if t in live && fn.cls[t] == k then 1 else 0
  {
    CountAdd(fn, live - {t}, t, k);
    if t in live {
      assert live - {t} + {t} == live;
    } else {
      assert live - {t} == live;
    }
  }

  /** m is the largest number of temporaries of kind k that are live before one of
      the instructions from i on, or before the branch. */
  ghost predicate Pressure(fn: Fn, b: Blk, i: nat, out: set<nat>, k: bool, m: int) {
    && (forall j :: i <= j <= |b.ins| ==> Count(fn, Before(b, j, out), k) <= m)
    && exists j :: i <= j <= |b.ins| && Count(fn, Before(b, j, out), k) == m
  }

  lemma PressureNext(fn: Fn, b: Blk, i: nat, out: set<nat>, k: bool, m: int)
    requires i < |b.ins| && Pressure(fn, b, i + 1, out, k, m)
    ensures var c := Count(fn, Before(b, i, out), k); Pressure(fn, b, i, out, k, if c > m then c else m)
  {
    var j :| i + 1 <= j <= |b.ins| && Count(fn, Before(b, j, out), k) == m;
    assert i <= j <= |b.ins| && Count(fn, Before(b, j, out), k) == m;
  }

  // ----- What a block mentions -----

  ghost predicate Mentions(fn: Fn, b: nat, t: nat)
    requires b < |fn.blks|
  {
    || (exists i :: 0 <= i <= |fn.blks[b].ins| && UseAt(fn.blks[b], i, t))
    || (exists i :: 0 <= i < |fn.blks[b].ins| && fn.blks[b].ins[i].to == Tmp(t))
    || ReadByPhi(fn, b, t)
  }

  function GenFrom(b: Blk, i: nat): set<nat>
    decreases |b.ins| - i
  {
    if i >= |b.ins| then Of(b.jmp)
    else GenFrom(b, i + 1) + Of(b.ins[i].to) + OfOperand(b.ins[i].arg0) + OfOperand(b.ins[i].arg1)
  }

  function GenOver(fn: Fn, n: nat, s: int): set<nat> {
    if 0 <= s < |fn.blks| then AllArgReads(fn.blks[s].phis, n) else {}
  }

  function Gen(fn: Fn, n: nat): set<nat>
    requires n < |fn.blks|
  {
    var b := fn.blks[n];
    GenOver(fn, n, b.s1) + GenOver(fn, n, b.s2) + GenFrom(b, 0)
  }

  lemma {:induction false} GenFromExactly(b: Blk, i: nat, t: nat)
    requires i <= |b.ins|
    ensures t in GenFrom(b, i) <==>
      (exists j :: i <= j <= |b.ins| && UseAt(b, j, t)) || (exists j :: i <= j < |b.ins| && b.ins[j].to == Tmp(t))
    decreases |b.ins| - i
  {
    if i < |b.ins| {
      GenFromExactly(b, i + 1, t);
      assert t in Of(b.ins[i].to) <==> b.ins[i].to == Tmp(t);
      assert UseAt(b, i, t) <==> Reads(b.ins[i].arg0, t) || Reads(b.ins[i].arg1, t);
    } else {
      assert UseAt(b, i, t) <==> b.jmp == Tmp(t);
    }
  }

  lemma GenExactly(fn: Fn, n: nat, t: nat)
    requires n < |fn.blks|
    ensures t in Gen(fn, n) <==> Mentions(fn, n, t)
  {
    GenFromExactly(fn.blks[n], 0, t);
    forall s: nat | s < |fn.blks|
      ensures t in AllArgReads(fn.blks[s].phis, n) <==> PhiReads(fn.blks[s], n, t)
    {
      AllArgReadsExactly(fn.blks[s].phis, n, t);
    }
  }

  // ----- The code -----

  class Analysis {
    const fn: Fn
    const liveIn: array<set<nat>>
    const liveOut: array<set<nat>>
    const gen: array<set<nat>>
    const nlv: array<int>
    const nlive: array<(int, int)>

    ghost predicate Valid() {
      && WellFormed(fn) && nlv.Length == 2
      && liveIn.Length == liveOut.Length == gen.Length == nlive.Length == |fn.blks|
      && liveIn != liveOut && liveIn != gen && liveOut != gen
    }

    constructor (f: Fn)
      requires WellFormed(f)
      ensures Valid() && fn == f && fresh(liveIn) && fresh(liveOut) && fresh(gen) && fresh(nlv) && fresh(nlive)
      ensures forall b :: 0 <= b < |f.blks| ==> liveIn[b] == liveOut[b] == gen[b] == {}
    {
      fn := f;
      liveIn := new set<nat>[|f.blks|](_ => {});
      liveOut := new set<nat>[|f.blks|](_ => {});
      gen := new set<nat>[|f.blks|](_ => {});
      nlv := new int[2];
      nlive := new (int, int)[|f.blks|](_ => (0, 0));
    }

    /** Only entry n of the array may differ. */
    twostate predicate OnlyAt(a: array<set<nat>>, n: nat)
      reads a
    {
      forall m :: 0 <= m < a.Length && m != n ==> a[m] == old(a[m])
    }

    /** What block n has to keep alive for s; arguments of phis count as mentioned by n. */
    method LiveOnto(n: nat, s: nat) returns (v: set<nat>)
      requires Valid() && n < |fn.blks| && s < |fn.blks|
      modifies gen
      ensures v == LiveOn(fn.blks[s], liveIn[s], n)
      ensures gen[n] == old(gen[n]) + AllArgReads(fn.blks[s].phis, n) && OnlyAt(gen, n)
    {
      var phis := fn.blks[s].phis;
      v := liveIn[s];
      var p := 0;
      while p < |phis|
        invariant 0 <= p <= |phis| && v == liveIn[s] - PhiDefs(phis[..p])
        invariant gen[n] == old(gen[n]) && OnlyAt(gen, n)
      {
        assert phis[..p + 1][..p] == phis[..p];
        if phis[p].to.Tmp? {
          v := v - {phis[p].to.t};
        }
        p := p + 1;
      }
      assert phis[..p] == phis;
      ghost var kept := v;
      p := 0;
      while p < |phis|
        invariant 0 <= p <= |phis| && v == kept + AllArgReads(phis[..p], n)
        invariant gen[n] == old(gen[n]) + AllArgReads(phis[..p], n) && OnlyAt(gen, n)
      {
        assert phis[..p + 1][..p] == phis[..p];
        var more := LiveArgs(phis[p].args, n);
        v := v + more;
        p := p + 1;
      }
      assert phis[..p] == phis;
    }

    /** The arguments of a phi that are read at the end of block n. */
    method LiveArgs(args: seq<PhiArg>, n: nat) returns (v: set<nat>)
      requires Valid() && n < |fn.blks|
      modifies gen
      ensures v == ArgReads(args, n)
      ensures gen[n] == old(gen[n]) + ArgReads(args, n) && OnlyAt(gen, n)
    {
      v := {};
      var a := 0;
      while a < |args|
        invariant 0 <= a <= |args| && v == ArgReads(args[..a], n)
        invariant gen[n] == old(gen[n]) + ArgReads(args[..a], n) && OnlyAt(gen, n)
      {
        assert args[..a + 1][..a] == args[..a];
        if args[a].blk == n && args[a].arg.Tmp? {
          v := v + {args[a].arg.t};
          gen[n] := gen[n] + {args[a].arg.t};
        }
        a := a + 1;
      }
      assert args[..a] == args;
    }

    /** The counters agree with the set of live temporaries. */
    ghost predicate Counted(n: nat)
      reads liveIn, nlv
      requires Valid() && n < |fn.blks|
    {
      nlv[0] == Count(fn, liveIn[n], false) && nlv[1] == Count(fn, liveIn[n], true)
    }

    method Bset(a: Arg, n: nat)
      requires Valid() && n < |fn.blks| && ArgOk(fn, a) && Counted(n)
      modifies liveIn, gen, nlv
      ensures liveIn[n] == old(liveIn[n]) + Of(a) && OnlyAt(liveIn, n)
      ensures gen[n] == old(gen[n]) + Of(a) && OnlyAt(gen, n)
      ensures Counted(n)
    {
      if a.NoTmp? {
        return;
      }
      gen[n] := gen[n] + {a.t};
      if a.t !in liveIn[n] {
        var k := if fn.cls[a.t] then 1 else 0;
        CountAdd(fn, liveIn[n], a.t, false);
        CountAdd(fn, liveIn[n], a.t, true);
        nlv[k] := nlv[k] + 1;
        liveIn[n] := liveIn[n] + {a.t};
      }
    }

    method BsetOperand(o: Operand, n: nat)
      requires Valid() && n < |fn.blks| && OperandOk(fn, o) && Counted(n)
      modifies liveIn, gen, nlv
      ensures liveIn[n] == old(liveIn[n]) + OfOperand(o) && OnlyAt(liveIn, n)
      ensures gen[n] == old(gen[n]) + OfOperand(o) && OnlyAt(gen, n)
      ensures Counted(n)
    {
      match o
      case Plain(a) => Bset(a, n);
      case Mem(b, i) =>
        Bset(b, n);
        Bset(i, n);
    }

    /** Counts the temporaries in liveIn[n]. */
    method CountAll(n: nat)
      requires Valid() && n < |fn.blks| && forall t :: t in liveIn[n] ==> t < |fn.cls|
      modifies nlv
      ensures Counted(n)
    {
      nlv[0], nlv[1] := 0, 0;
      var t := 0;
      ghost var seen: set<nat> := {};
      while t < |fn.cls|
        invariant 0 <= t <= |fn.cls| && seen == set x | x in liveIn[n] && x < t
        invariant nlv[0] == Count(fn, seen, false) && nlv[1] == Count(fn, seen, true)
      {
        if t in liveIn[n] {
          var k := if fn.cls[t] then 1 else 0;
          CountAdd(fn, seen, t, false);
          CountAdd(fn, seen, t, true);
          nlv[k] := nlv[k] + 1;
          seen := seen + {t};
        }
        t := t + 1;
      }
      assert seen == liveIn[n];
    }

    /** The temporary that an instruction assigns is not live before it. */
    method Clear(a: Arg, n: nat)
      requires Valid() && n < |fn.blks| && ArgOk(fn, a) && Counted(n)
      modifies liveIn, gen, nlv
      ensures liveIn[n] == old(liveIn[n]) - Of(a) && OnlyAt(liveIn, n)
      ensures gen[n] == old(gen[n]) + Of(a) && OnlyAt(gen, n)
      ensures Counted(n)
    {
      if a.Tmp? {
        var t := a.t;
        CountDrop(fn, liveIn[n], t, false);
        CountDrop(fn, liveIn[n], t, true);
        if t in liveIn[n] {
          var k := if fn.cls[t] then 1 else 0;
          nlv[k] := nlv[k] - 1;
        }
        gen[n] := gen[n] + {t};
        liveIn[n] := liveIn[n] - {t};
      }
    }

    /** One instruction, backwards. */
    method ScanIns(n: nat, i: nat, ghost out: set<nat>, ghost g: set<nat>)
      requires Valid() && n < |fn.blks| && i < |fn.blks[n].ins| && Counted(n)
      requires liveIn[n] == Before(fn.blks[n], i + 1, out) && gen[n] == g + GenFrom(fn.blks[n], i + 1)
      modifies liveIn, gen, nlv
      ensures liveIn[n] == Before(fn.blks[n], i, out) && OnlyAt(liveIn, n)
      ensures gen[n] == g + GenFrom(fn.blks[n], i) && OnlyAt(gen, n)
      ensures Counted(n)
    {
      assert BlkOk(fn, fn.blks[n]);
      var ins := fn.blks[n].ins[i];
      assert InsOk(fn, ins);
      hide Of, OfOperand, Count, OperandOk;
      Clear(ins.to, n);
      BsetOperand(ins.arg0, n);
      BsetOperand(ins.arg1, n);
      Regroup(g, GenFrom(fn.blks[n], i + 1), Of(ins.to), OfOperand(ins.arg0), OfOperand(ins.arg1));
    }

    /** Goes backwards through block n, from what is live at its end to what is live
        after its phis, and finds the highest number of temporaries that are live at once. */
    method ScanBlk(n: nat)
      requires Valid() && n < |fn.blks| && forall t :: t in liveOut[n] ==> t < |fn.cls|
      modifies liveIn, gen, nlv, nlive
      ensures liveIn[n] == Before(fn.blks[n], 0, liveOut[n]) && OnlyAt(liveIn, n)
      ensures gen[n] == old(gen[n]) + GenFrom(fn.blks[n], 0) && OnlyAt(gen, n)
      ensures Pressure(fn, fn.blks[n], 0, liveOut[n], false, nlive[n].0)
      ensures Pressure(fn, fn.blks[n], 0, liveOut[n], true, nlive[n].1)
      ensures forall m :: 0 <= m < nlive.Length && m != n ==> nlive[m] == old(nlive[m])
    {
      hide Count, Pressure;
      assert BlkOk(fn, fn.blks[n]);
      ghost var out := liveOut[n];
      liveIn[n] := liveOut[n];
      CountAll(n);
      Bset(fn.blks[n].jmp, n);
      nlive[n] := (nlv[0], nlv[1]);
      var i := |fn.blks[n].ins|;
      PressureEnd(fn, fn.blks[n], out);
      while i > 0
        invariant 0 <= i <= |fn.blks[n].ins| && Counted(n) && liveOut[n] == out
        invariant liveIn[n] == Before(fn.blks[n], i, out) && OnlyAt(liveIn, n)
        invariant gen[n] == old(gen[n]) + GenFrom(fn.blks[n], i) && OnlyAt(gen, n)
        invariant Pressure(fn, fn.blks[n], i, out, false, nlive[n].0)
        invariant Pressure(fn, fn.blks[n], i, out, true, nlive[n].1)
        invariant forall m :: 0 <= m < nlive.Length && m != n ==> nlive[m] == old(nlive[m])
      {
        i := i - 1;
        ScanIns(n, i, out, old(gen[n]));
        PressureNext(fn, fn.blks[n], i, out, false, nlive[n].0);
        PressureNext(fn, fn.blks[n], i, out, true, nlive[n].1);
        if nlv[0] > nlive[n].0 {
          nlive[n] := (nlv[0], nlive[n].1);
        }
        if nlv[1] > nlive[n].1 {
          nlive[n] := (nlive[n].0, nlv[1]);
        }
      }
    }

    /** One block of a pass: what is live at its end grows, and the rest follows. */
    method Visit(n: nat, chg: bool) returns (chg': bool)
      requires Valid() && n < |fn.blks| && Sound(fn, liveIn[..], liveOut[..])
      modifies liveIn, liveOut, gen, nlv, nlive
      ensures Sound(fn, liveIn[..], liveOut[..])
      ensures old(liveOut[n]) <= liveOut[n] && OnlyAt(liveOut, n)
      ensures chg' <==> chg || liveOut[n] != old(liveOut[n])
      ensures forall s: nat :: Edge(fn, n, s) ==> LiveOn(fn.blks[s], old(liveIn[s]), n) <= liveOut[n]
      ensures liveIn[n] == Before(fn.blks[n], 0, liveOut[n]) && OnlyAt(liveIn, n)
      ensures gen[n] == old(gen[n]) + Gen(fn, n) && OnlyAt(gen, n)
      ensures Pressure(fn, fn.blks[n], 0, liveOut[n], false, nlive[n].0)
      ensures Pressure(fn, fn.blks[n], 0, liveOut[n], true, nlive[n].1)
      ensures forall m :: 0 <= m < nlive.Length && m != n ==> nlive[m] == old(nlive[m])
    {
      hide Sound, LiveOn, Pressure, AllArgReads, GenFrom;
      assert BlkOk(fn, fn.blks[n]);
      var b := fn.blks[n];
      var u := liveOut[n];
      if b.s1 >= 0 {
        SoundOut(fn, liveIn[..], liveOut[..], n, b.s1);
        var v := LiveOnto(n, b.s1);
        liveOut[n] := liveOut[n] + v;
        assert liveOut[..] == old(liveOut[..])[n := u + v];
      }
      ghost var outs := liveOut[..];
      if b.s2 >= 0 {
        SoundOut(fn, liveIn[..], liveOut[..], n, b.s2);
        var v := LiveOnto(n, b.s2);
        liveOut[n] := liveOut[n] + v;
        assert liveOut[..] == outs[n := outs[n] + v];
      }
      chg' := chg || liveOut[n] != u;
      ghost var g := gen[n];
      SoundInRange(fn, liveIn[..], liveOut[..], n);
      SoundIn(fn, liveIn[..], liveOut[..], n);
      ScanBlk(n);
      assert liveIn[..] == old(liveIn[..])[n := Before(b, 0, liveOut[n])];
      assert gen[n] == old(gen[n]) + Gen(fn, n);
    }

    /** What a pass leaves behind for block m. */
    ghost predicate Passed(m: nat)
      reads liveIn, liveOut, gen, nlive
      requires Valid() && m < |fn.blks|
    {
      && liveIn[m] == Before(fn.blks[m], 0, liveOut[m])
      && gen[m] == Gen(fn, m)
      && Pressure(fn, fn.blks[m], 0, liveOut[m], false, nlive[m].0)
      && Pressure(fn, fn.blks[m], 0, liveOut[m], true, nlive[m].1)
    }

    /** A pass over all blocks, from the last to the first. If it reports no change
        (and the sets were settled before), everything is stable. */
    method Pass(chg: bool) returns (chg': bool)
      requires Valid() && Sound(fn, liveIn[..], liveOut[..])
      requires forall m :: 0 <= m < |fn.blks| ==> gen[m] <= Gen(fn, m)
      requires chg || forall m :: 0 <= m < |fn.blks| ==> Settled(fn, liveIn[..], liveOut[..], m)
      modifies liveIn, liveOut, gen, nlv, nlive
      ensures Sound(fn, liveIn[..], liveOut[..])
      ensures forall m :: 0 <= m < |fn.blks| ==> Passed(m)
      ensures forall m :: 0 <= m < |fn.blks| ==> old(liveOut[m]) <= liveOut[m]
      ensures chg' && !chg ==> exists m :: 0 <= m < |fn.blks| && liveOut[m] != old(liveOut[m])
      ensures !chg' ==> Stable(fn, liveIn[..], liveOut[..])
    {
      hide Sound, Gen, Before, LiveOn, Pressure;
      chg' := chg;
      var n := |fn.blks|;
      while n > 0
        invariant 0 <= n <= |fn.blks| && Sound(fn, liveIn[..], liveOut[..])
        invariant forall m :: n <= m < |fn.blks| ==> Passed(m)
        invariant forall m :: 0 <= m < |fn.blks| ==> gen[m] <= Gen(fn, m)
        invariant forall m :: 0 <= m < |fn.blks| ==> old(liveOut[m]) <= liveOut[m]
        invariant forall m :: 0 <= m < n ==> liveOut[m] == old(liveOut[m]) && liveIn[m] == old(liveIn[m])
        invariant chg' && !chg ==> exists m :: 0 <= m < |fn.blks| && liveOut[m] != old(liveOut[m])
        invariant !chg' ==> !chg && forall m :: 0 <= m < |fn.blks| ==> liveOut[m] == old(liveOut[m]) && liveIn[m] == old(liveIn[m])
        invariant !chg' ==> forall m, s: nat :: n <= m < |fn.blks| && Edge(fn, m, s) ==> LiveOn(fn.blks[s], liveIn[s], m) <= liveOut[m]
      {
        n := n - 1;
        label Before:
        assert !chg' ==> Settled(fn, old(liveIn[..]), old(liveOut[..]), n);
        chg' := Visit(n, chg');
        assert gen[n] == Gen(fn, n);
        assert Passed(n);
        forall m: nat | n < m < |fn.blks|
          ensures Passed(m)
        {
          assert old@Before(Passed(m));
        }
      }
      if !chg' {
        forall m: nat | m < |fn.blks|
          ensures Settled(fn, liveIn[..], liveOut[..], m) && Closed(fn, liveIn[..], liveOut[..], m)
        {
          assert Passed(m);
        }
      }
    }

    /** The analysis. It ends, with exactly what is live at the start and at the end
        of each block, what each block mentions, and how many are live at once. */
    method FillLive()
      requires Valid() && forall m :: 0 <= m < |fn.blks| ==> liveIn[m] == liveOut[m] == gen[m] == {}
      modifies liveIn, liveOut, gen, nlv, nlive
      ensures Exact(fn, liveIn[..], liveOut[..])
      ensures forall m :: 0 <= m < |fn.blks| ==> Passed(m)
    {
      hide Sound, Stable, Exact, Gen;
      StartsSound(fn, liveIn[..], liveOut[..]);
      var chg := true;
      while true
        invariant Sound(fn, liveIn[..], liveOut[..])
        invariant chg || forall m :: 0 <= m < |fn.blks| ==> Passed(m)
        invariant forall m :: 0 <= m < |fn.blks| ==> gen[m] <= Gen(fn, m)
        decreases |fn.blks| * |fn.cls| - Size(liveOut[..]), chg
      {
        ghost var outs := liveOut[..];
        assert !chg ==> forall m :: 0 <= m < |fn.blks| ==> Settled(fn, liveIn[..], liveOut[..], m) by {
          assert forall m :: 0 <= m < |fn.blks| && Passed(m) ==> Settled(fn, liveIn[..], liveOut[..], m);
        }
        var again := Pass(chg);
        assert forall m :: 0 <= m < |fn.blks| ==> Passed(m);
        if !again {
          StableExact(fn, liveIn[..], liveOut[..]);
          return;
        }
        SizeGrows(outs, liveOut[..]);
        SizeInRange(fn, liveIn[..], liveOut[..]);
        assert forall m :: 0 <= m < |fn.blks| && Passed(m) ==> gen[m] <= Gen(fn, m);
        assert !chg ==> exists m :: 0 <= m < |outs| && outs[m] != liveOut[..][m];
        chg := false;
      }
    }
  }

  lemma StartsSound(fn: Fn, ins: seq<set<nat>>, outs: seq<set<nat>>)
    requires |ins| == |outs| == |fn.blks| && forall m :: 0 <= m < |fn.blks| ==> ins[m] == outs[m] == {}
    ensures Sound(fn, ins, outs)
  {
  }

  lemma SizeInRange(fn: Fn, ins: seq<set<nat>>, outs: seq<set<nat>>)
    requires WellFormed(fn) && Sound(fn, ins, outs)
    ensures |outs| == |fn.blks| && Size(outs) <= |fn.blks| * |fn.cls|
  {
    forall b: nat, t | b < |outs| && t in outs[b]
      ensures t < |fn.cls|
    {
      SoundInRange(fn, ins, outs, b);
    }
    SizeBound(outs, |fn.cls|);
  }

  lemma {:induction false} SoundInRange(fn: Fn, ins: seq<set<nat>>, outs: seq<set<nat>>, n: nat)
    requires WellFormed(fn) && Sound(fn, ins, outs) && n < |fn.blks|
    ensures forall t :: t in outs[n] ==> t < |fn.cls|
  {
    forall t | t in outs[n]
      ensures t < |fn.cls|
    {
      if ReadByPhi(fn, n, t) {
        PhiInRange(fn, n, t);
      } else {
        var s: nat :| EdgeLive(fn, n, s, t);
        var p :| Witness(fn, p, t) && p[0] == s;
        var l := p[|p| - 1];
        assert BlkOk(fn, fn.blks[l]);
        if UsedFrom(fn.blks[l], 0, t) {
          var i: nat :| UseAt(fn.blks[l], i, t);
          assert i < |fn.blks[l].ins| ==> InsOk(fn, fn.blks[l].ins[i]);
        } else {
          PhiInRange(fn, l, t);
        }
      }
    }
  }

  lemma PhiInRange(fn: Fn, n: nat, t: nat)
    requires WellFormed(fn) && ReadByPhi(fn, n, t)
    ensures t < |fn.cls|
  {
    var s: nat :| Edge(fn, n, s) && PhiReads(fn.blks[s], n, t);
    assert BlkOk(fn, fn.blks[s]);
    var p, a :| 0 <= p < |fn.blks[s].phis| && 0 <= a < |fn.blks[s].phis[p].args| && fn.blks[s].phis[p].args[a] == PhiArg(n, Tmp(t));
    assert PhiOk(fn, fn.blks[s].phis[p]);
  }

  /** How much is in the sets, to see that they cannot grow for ever. */
  ghost function Size(outs: seq<set<nat>>): nat {
    if outs == [] then 0 else Size(outs[..|outs| - 1]) + |outs[|outs| - 1]|
  }

  lemma OneMore(l: nat, n: nat)
    ensures (l + 1) * n == l * n + n
  {
  }

  lemma {:induction false} SizeBound(outs: seq<set<nat>>, n: nat)
    requires forall b, t :: 0 <= b < |outs| && t in outs[b] ==> t < n
    ensures Size(outs) <= |outs| * n
  {
    if outs != [] {
      var l := |outs| - 1;
      SizeBound(outs[..l], n);
      SubsetSize(outs[l], Below(n));
      OneMore(l, n);
    }
  }

  lemma {:induction false} SizeGrows(outs: seq<set<nat>>, outs': seq<set<nat>>)
    requires |outs| == |outs'| && forall b :: 0 <= b < |outs| ==> outs[b] <= outs'[b]
    ensures Size(outs) <= Size(outs')
    ensures (exists b :: 0 <= b < |outs| && outs[b] != outs'[b]) ==> Size(outs) < Size(outs')
  {
    if outs != [] {
      var l := |outs| - 1;
      SizeGrows(outs[..l], outs'[..l]);
      SubsetSize(outs[l], outs'[l]);
      if exists b :: 0 <= b < |outs| && outs[b] != outs'[b] {
        var b :| 0 <= b < |outs| && outs[b] != outs'[b];
        assert b < l ==> outs[..l][b] != outs'[..l][b];
      }
    }
  }

  lemma Regroup(g: set<nat>, x: set<nat>, a: set<nat>, b: set<nat>, c: set<nat>)
    ensures g + x + a + b + c == g + (x + a + b + c)
  {
  }

  lemma PressureEnd(fn: Fn, b: Blk, out: set<nat>)
    ensures forall k :: Pressure(fn, b, |b.ins|, out, k, Count(fn, Before(b, |b.ins|, out), k))
  {
    forall k: bool
      ensures Pressure(fn, b, |b.ins|, out, k, Count(fn, Before(b, |b.ins|, out), k))
    {
      assert |b.ins| <= |b.ins| && Count(fn, Before(b, |b.ins|, out), k) == Count(fn, Before(b, |b.ins|, out), k);
    }
  }
}
