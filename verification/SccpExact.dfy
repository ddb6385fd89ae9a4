/** What the solver of constant propagation finds for each phi, instruction and edge
    (lib/qbe-1.0/fold.c), in terms of what it finds for the operands and of what the operations mean. */
module SccpExact {
  import opened Basics
  import opened Folding
  import opened FoldMeaning
  import opened Ssa
  import opened SccpLattice
  import opened SccpInvariant
  import opened SccpGreatest
  import opened ConstantPropagation

  /** The solution knows that the operand is c; a missing operand counts as zero. */
  ghost predicate IsConstant(s: Sol, r: Ref, c: Con) {
    match r
    case RNone => c == Bits(0)
    case RTmp(t) => t < |s.val| && 0 <= s.val[t] < |s.con| && s.con[s.val[t]] == c
    case RCon(k) => k < |s.con| && s.con[k] == c
    case ROther(_) => false
  }

  /** An instruction on two constants that is folded and whose result is defined. */
  ghost predicate Foldable(s: Sol, i: Ins, cl: Con, cr: Con) {
    && i.op.Fold? && IsConstant(s, i.arg0, cl) && IsConstant(s, i.arg1, cr)
    && Defined(i.op.op, i.wide, cl, cr)
  }

  lemma OneConstant(s: Sol, r: Ref, c: Con, c': Con)
    requires IsConstant(s, r, c) && IsConstant(s, r, c')
    ensures c == c'
  {
  }

  lemma LatConstant(fn: Fn, s: Sol, r: Ref)
    requires WellFormed(fn) && Shape(fn, s) && (Plain(fn, r) || r.RNone?)
    ensures Plain(fn, SecondArg(fn, r))
    ensures var v := LatVal(fn, s, SecondArg(fn, r)); if v >= 0 then IsConstant(s, r, s.con[v]) else forall c :: !IsConstant(s, r, c)
  {
    assert s.con[0] == fn.con[0];
  }

  /** A folded constant is what the operation means, for this layout. */
  ghost predicate Meant(op: Op, w: bool, cl: Con, cr: Con, c: Con, at: Layout) {
    Computes(op, w, Value(cl, at), Value(cr, at), Value(c, at) % Modulus(w))
  }

  ghost predicate Defined(op: Op, w: bool, cl: Con, cr: Con) {
    !AddressMix(op, cl, cr) && !(cl.Bits? && cr.Bits? && HasNone(op, w, cl.i, cr.i))
  }

  /** An instruction of a visited block evaluates to what is stored. */
  lemma InsFacts(fn: Fn, s: Sol, n: nat, j: nat)
    requires Solved(fn, s) && n < |fn.blks| && s.visit[n] && j < |fn.blks[n].ins| && fn.blks[n].ins[j].to.Some?
    ensures WellFormed(fn) && Shape(fn, s) && InsOk(fn, fn.blks[n].ins[j])
    ensures var i := fn.blks[n].ins[j];
      var t := i.to.value;
      t < |s.val| && s.val[t] < |s.con| && InsVal(fn, s, i) == (s.val[t], s.con) && NotTop(fn, s, i.arg0) && NotTop(fn, s, i.arg1)
  {
    assert BlkOk(fn, n) && InsOk(fn, fn.blks[n].ins[j]);
    NoneIsTop(fn, s, n);
    InsAgain(fn, s, n, j);
    assert InsExact(fn, s, n, j);
    hide Inv, Greatest, InsVal, BlkOk;
  }

  lemma FoldedIs(fn: Fn, s: Sol, i: Ins, v: int)
    requires WellFormed(fn) && Shape(fn, s) && InsOk(fn, i) && InsVal(fn, s, i) == (v, s.con) && NotTop(fn, s, i.arg0) && NotTop(fn, s, i.arg1)
    ensures v == Bot || 0 <= v < |s.con|
    ensures v >= 0 ==> exists cl, cr :: ConstantFold(s, i, cl, cr, s.con[v])
    ensures forall cl, cr, c :: ConstantFold(s, i, cl, cr, c) ==> v >= 0 && s.con[v] == c
  {
    if i.op.Fold? {
      LatConstant(fn, s, i.arg0);
      LatConstant(fn, s, i.arg1);
      var l, r := LatVal(fn, s, i.arg0), LatVal(fn, s, SecondArg(fn, i.arg1));
      hide LatVal, FoldInt, IsConstant, WellFormed, Shape;
      if l >= 0 && r >= 0 {
        forall cl, cr, c | ConstantFold(s, i, cl, cr, c)
          ensures cl == s.con[l] && cr == s.con[r]
        {
          OneConstant(s, i.arg0, cl, s.con[l]);
          OneConstant(s, i.arg1, cr, s.con[r]);
        }
        if v >= 0 {
          assert ConstantFold(s, i, s.con[l], s.con[r], s.con[v]);
        }
      }
    }
  }

  ghost predicate ConstantFold(s: Sol, i: Ins, cl: Con, cr: Con, c: Con) {
    i.op.Fold? && IsConstant(s, i.arg0, cl) && IsConstant(s, i.arg1, cr) && FoldInt(i.op.op, i.wide, cl, cr) == Some(c)
  }

  lemma FoldDefined(op: Op, w: bool, cl: Con, cr: Con)
    ensures match FoldInt(op, w, cl, cr)
            case None => !Defined(op, w, cl, cr)
            case Some(c) => Defined(op, w, cl, cr) && forall at :: Meant(op, w, cl, cr, c, at)
  {
    hide FoldInt, Computes, HasNone, AddressMix;
    FoldMeans(op, w, cl, cr, _ => 0);
    if FoldInt(op, w, cl, cr).Some? {
      forall at
        ensures Meant(op, w, cl, cr, FoldInt(op, w, cl, cr).value, at)
      {
        FoldMeans(op, w, cl, cr, at);
      }
    }
  }

  /** The result of an instruction is a constant exactly if it can be folded; then it is what the operation means,
      wherever the labels are put. Otherwise it is taken to vary. */
  lemma InsConstant(fn: Fn, s: Sol, n: nat, j: nat)
    requires Solved(fn, s) && n < |fn.blks| && s.visit[n] && j < |fn.blks[n].ins| && fn.blks[n].ins[j].to.Some?
    ensures fn.blks[n].ins[j].to.value < |s.val|
    ensures var i := fn.blks[n].ins[j];
      var v := s.val[i.to.value];
      && (v == Bot || 0 <= v < |s.con|)
      && (v >= 0 <==> exists cl, cr :: Foldable(s, i, cl, cr))
      && forall cl, cr, at :: Foldable(s, i, cl, cr) ==> v >= 0 && Meant(i.op.op, i.wide, cl, cr, s.con[v], at)
  {
    var i := fn.blks[n].ins[j];
    InsFacts(fn, s, n, j);
    var v := s.val[i.to.value];
    FoldedIs(fn, s, i, v);
    hide Solved, Shape, WellFormed, InsOk, InsVal, IsConstant, FoldInt, Meant, Defined;
    if v >= 0 {
      var cl, cr :| ConstantFold(s, i, cl, cr, s.con[v]);
      FoldDefined(i.op.op, i.wide, cl, cr);
      assert Foldable(s, i, cl, cr);
    }
    forall cl, cr | Foldable(s, i, cl, cr)
      ensures v >= 0 && forall at :: Meant(i.op.op, i.wide, cl, cr, s.con[v], at)
    {
      FoldDefined(i.op.op, i.wide, cl, cr);
      assert ConstantFold(s, i, cl, cr, FoldInt(i.op.op, i.wide, cl, cr).value);
    }
  }

  /** The edge from block m to block n has been found to be taken. */
  predicate Live(fn: Fn, s: Sol, m: nat, n: nat)
    requires m < |fn.blks| && |s.dead| == 2 * |fn.blks| + 1
  {
    (fn.blks[m].s1 == n && !s.dead[2 * m]) || (fn.blks[m].s2 == n && !s.dead[2 * m + 1])
  }

  /** The operand is constant k of the table. */
  predicate IsIndex(s: Sol, r: Ref, k: nat) {
    r == RCon(k) || (r.RTmp? && r.t < |s.val| && s.val[r.t] == k)
  }

  /** The first k arguments of a phi, those over live edges, are constant c. */
  ghost predicate AllAre(fn: Fn, s: Sol, n: nat, phi: Phi, k: nat, c: nat)
    requires Shape(fn, s) && PhiOk(fn, phi) && k <= |phi.args|
  {
    forall a :: 0 <= a < k && Live(fn, s, phi.args[a].blk, n) ==> IsIndex(s, phi.args[a].arg, c)
  }

  lemma {:induction false} PhiCommon(fn: Fn, s: Sol, n: nat, phi: Phi, k: nat)
    requires Shape(fn, s) && PhiOk(fn, phi) && k <= |phi.args|
    requires forall a :: 0 <= a < k && Live(fn, s, phi.args[a].blk, n) ==> LatVal(fn, s, phi.args[a].arg) != Top
    ensures var v := PhiVal(fn, s, n, phi, k);
      && (v == Top <==> forall a :: 0 <= a < k ==> !Live(fn, s, phi.args[a].blk, n))
      && (v >= 0 ==> AllAre(fn, s, n, phi, k, v))
      && forall c: nat :: AllAre(fn, s, n, phi, k, c) ==> v == Top || v == c
  {
    if k > 0 {
      PhiCommon(fn, s, n, phi, k - 1);
      var v := PhiVal(fn, s, n, phi, k - 1);
      forall c: nat | AllAre(fn, s, n, phi, k, c)
        ensures AllAre(fn, s, n, phi, k - 1, c)
      {
      }
      if Live(fn, s, phi.args[k - 1].blk, n) && v == Top {
        assert forall a :: 0 <= a < k - 1 ==> !Live(fn, s, phi.args[a].blk, n);
      }
    }
  }

  /** The result of a phi is a constant exactly if all its arguments over live edges are that constant; otherwise it is taken to vary. */
  lemma PhiConstant(fn: Fn, s: Sol, n: nat, p: nat)
    requires Solved(fn, s) && n < |fn.blks| && s.visit[n] && p < |fn.blks[n].phis|
    ensures Shape(fn, s) && PhiOk(fn, fn.blks[n].phis[p])
    ensures var phi := fn.blks[n].phis[p];
      && s.val[phi.to] != Top
      && forall c: nat :: AllAre(fn, s, n, phi, |phi.args|, c) <==> s.val[phi.to] == c
  {
    PhiFacts(fn, s, n, p);
    PhiCommon(fn, s, n, fn.blks[n].phis[p], |fn.blks[n].phis[p].args|);
    hide Solved, PhiVal, AllAre, Shape;
  }

  lemma PhiFacts(fn: Fn, s: Sol, n: nat, p: nat)
    requires Solved(fn, s) && n < |fn.blks| && s.visit[n] && p < |fn.blks[n].phis|
    ensures var phi := fn.blks[n].phis[p];
      && Shape(fn, s) && PhiOk(fn, phi) && s.val[phi.to] != Top && s.val[phi.to] == PhiVal(fn, s, n, phi, |phi.args|)
      && forall a :: 0 <= a < |phi.args| && Live(fn, s, phi.args[a].blk, n) ==> LatVal(fn, s, phi.args[a].arg) != Top
  {
    var phi := fn.blks[n].phis[p];
    assert BlkOk(fn, n);
    NoneIsTop(fn, s, n);
    PhiAgain(fn, s, n, p);
    assert PhiExact(fn, s, n, p);
    hide Inv, Greatest, PhiVal;
    forall a | 0 <= a < |phi.args| && Live(fn, s, phi.args[a].blk, n)
      ensures LatVal(fn, s, phi.args[a].arg) != Top
    {
      assert NotTop(fn, s, phi.args[a].arg);
    }
  }

  /** What is known about the condition lets the branch go this way: a constant goes to the second block exactly if it is
      a number whose low 32 bits are zero. */
  ghost predicate MayTake(s: Sol, b: Blk, second: bool) {
    match b.jmp
    case Jmp => !second
    case Ret(_, _) => false
    case Jnz(a) => forall c :: IsConstant(s, a, c) ==> (second <==> c.Bits? && c.i % 0x1_0000_0000 == 0)
  }

  /** An edge is alive exactly if its block has been visited and the branch may go that way. */
  lemma EdgeLive(fn: Fn, s: Sol, n: nat, second: bool)
    requires Solved(fn, s) && n < |fn.blks|
    ensures |s.dead| == 2 * |fn.blks| + 1 && |s.visit| == |fn.blks|
    ensures !s.dead[if second then 2 * n + 1 else 2 * n] <==> s.visit[n] && MayTake(s, fn.blks[n], second)
  {
    EdgesAgain(fn, s, n);
    assert BlkOk(fn, n);
    var b := fn.blks[n];
    if b.jmp.Jnz? {
      LatConstant(fn, s, b.jmp.arg);
    }
    hide Inv, Greatest, BlkOk;
  }

  /** A block is visited exactly if it is the first one or a live edge leads to it. */
  lemma VisitedExactly(fn: Fn, s: Sol, n: nat)
    requires Solved(fn, s) && n < |fn.blks|
    ensures |s.dead| == 2 * |fn.blks| + 1 && |s.visit| == |fn.blks|
    ensures s.visit[n] <==> n == 0 || exists m: nat :: m < |fn.blks| && Live(fn, s, m, n)
  {
    assert Alive(fn, s, -1);
    if s.visit[n] && n > 0 {
      VisitedEntered(fn, s, n);
      var e: nat :| e < |s.dead| && !s.dead[e] && Dest(fn, e) == n;
      assert Live(fn, s, e / 2, n);
    }
    if m: nat :| m < |fn.blks| && Live(fn, s, m, n) {
      assert Dest(fn, 2 * m) == fn.blks[m].s1 && Dest(fn, 2 * m + 1) == fn.blks[m].s2;
    }
  }
}
