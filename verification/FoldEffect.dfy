/** What constant propagation leaves of a function (lib/qbe-1.0/fold.c), said of the blocks
    before and after it and of the solution, and of nothing that computes them. */
module FoldEffect {
  import opened Basics
  import opened Finite
  import opened Folding
  import opened Ssa
  import opened SccpLattice
  import opened SccpInvariant
  import opened SccpRewrite
  import opened SccpTrim

  // ----- The effect -----

  /** The solution has constant c for a reference. */
  ghost predicate HasConstant(s: Sol, r: Ref, c: int) {
    r.RTmp? && r.t < |s.val| && s.val[r.t] == c && c >= 0
  }

  /** A constant temporary is replaced by its constant, everything else is left. */
  ghost predicate RefFolded(s: Sol, r: Ref, r': Ref) {
    (forall c: nat :: HasConstant(s, r, c) ==> r' == RCon(c)) && ((forall c: nat :: !HasConstant(s, r, c)) ==> r' == r)
  }

  ghost predicate InsFolded(s: Sol, i: Ins, i': Ins) {
    if i.to.Some? && i.to.value < |s.val| && s.val[i.to.value] >= 0 then
      i'.op == Nop && !i'.wide && i'.to == None && i'.arg0 == RNone && i'.arg1 == RNone
    else
      i'.op == i.op && i'.wide == i.wide && i'.to == i.to && RefFolded(s, i.arg0, i'.arg0) && RefFolded(s, i.arg1, i'.arg1)
  }

  /** Some positions below n, in order. */
  ghost predicate Positions(f: seq<nat>, n: nat) {
    (forall k :: 0 <= k < |f| ==> f[k] < n) && forall j, k :: 0 <= j < k < |f| ==> f[j] < f[k]
  }

  /** Exactly the arguments over live edges are left, in order. */
  ghost predicate ArgsFolded(fn: Fn, s: Sol, n: nat, args: seq<PhiArg>, args': seq<PhiArg>)
    requires Shape(fn, s)
  {
    exists f: seq<nat> :: ArgsFrom(fn, s, n, args, args', f)
  }

  ghost predicate ArgsFrom(fn: Fn, s: Sol, n: nat, args: seq<PhiArg>, args': seq<PhiArg>, f: seq<nat>)
    requires Shape(fn, s)
  {
    && Positions(f, |args|) && |args'| == |f|
    && (forall a: nat :: a < |args| ==> (a in f <==> args[a].blk < |fn.blks| && !DeadEdge(fn, s, args[a].blk, n)))
    && forall k :: 0 <= k < |f| ==> ArgFolded(s, args[f[k]], args'[k])
  }

  ghost predicate ArgFolded(s: Sol, a: PhiArg, a': PhiArg) {
    a'.blk == a.blk && RefFolded(s, a.arg, a'.arg)
  }

  /** Exactly the phis that are not constant are left, in order. */
  ghost predicate PhisFolded(fn: Fn, s: Sol, n: nat, phis: seq<Phi>, phis': seq<Phi>)
    requires Shape(fn, s)
  {
    exists f: seq<nat> :: PhisFrom(fn, s, n, phis, phis', f)
  }

  ghost predicate PhisFrom(fn: Fn, s: Sol, n: nat, phis: seq<Phi>, phis': seq<Phi>, f: seq<nat>)
    requires Shape(fn, s)
  {
    && Positions(f, |phis|) && |phis'| == |f|
    && (forall p: nat :: p < |phis| ==> (p in f <==> phis[p].to >= |s.val| || s.val[phis[p].to] < 0))
    && forall k :: 0 <= k < |f| ==> PhiFolded(fn, s, n, phis[f[k]], phis'[k])
  }

  ghost predicate PhiFolded(fn: Fn, s: Sol, n: nat, phi: Phi, phi': Phi)
    requires Shape(fn, s)
  {
    phi'.to == phi.to && phi'.wide == phi.wide && ArgsFolded(fn, s, n, phi.args, phi'.args)
  }

  /** A branch on a constant becomes a jump to the block that it leads to (an address counts as nonzero). */
  ghost predicate JumpFolded(s: Sol, b: Blk, b': Blk) {
    match b.jmp
    case Jmp => b'.jmp == Jmp && b'.s1 == b.s1 && b'.s2 == b.s2
    case Ret(wide, v) => b'.jmp.Ret? && b'.jmp.wide == wide && RefFolded(s, v, b'.jmp.val) && b'.s1 == b.s1 && b'.s2 == b.s2
    case Jnz(a) =>
      && (forall c: nat :: c < |s.con| && (HasConstant(s, a, c) || a == RCon(c)) ==>
            b'.jmp == Jmp && b'.s2 == -1 && b'.s1 == if s.con[c].Bits? && s.con[c].i % 0x1_0000_0000 == 0 then b.s2 else b.s1)
      && (a.RTmp? && (forall c: nat :: !HasConstant(s, a, c)) ==> b'.jmp == Jnz(a) && b'.s1 == b.s1 && b'.s2 == b.s2)
  }

  ghost predicate BlkFolded(fn: Fn, s: Sol, n: nat, b': Blk)
    requires Shape(fn, s) && n < |fn.blks|
  {
    var b := fn.blks[n];
    && PhisFolded(fn, s, n, b.phis, b'.phis) && JumpFolded(s, b, b')
    && |b'.ins| == |b.ins| && forall i :: 0 <= i < |b.ins| ==> InsFolded(s, b.ins[i], b'.ins[i])
  }

  /** Every block that is kept is what is left of it. */
  ghost predicate Folded(fn: Fn, s: Sol, blks: seq<Blk>)
    requires Shape(fn, s)
  {
    |blks| == |fn.blks| && forall n :: 0 <= n < |blks| && s.visit[n] ==> BlkFolded(fn, s, n, blks[n])
  }

  // ----- What that means -----

  ghost predicate NotConstant(s: Sol, t: nat) { t >= |s.val| || s.val[t] < 0 }

  ghost predicate NamesNone(s: Sol, r: Ref) { r.RTmp? ==> NotConstant(s, r.t) }

  /** No constant temporary is assigned or named, and no branch is on a constant. */
  ghost predicate Clean(s: Sol, b: Blk) {
    && (forall p :: 0 <= p < |b.phis| ==>
          NotConstant(s, b.phis[p].to) && forall a :: 0 <= a < |b.phis[p].args| ==> NamesNone(s, b.phis[p].args[a].arg))
    && (forall i :: 0 <= i < |b.ins| ==>
          && (b.ins[i].to.Some? ==> NotConstant(s, b.ins[i].to.value))
          && NamesNone(s, b.ins[i].arg0) && NamesNone(s, b.ins[i].arg1))
    && NamesNone(s, JumpArg(b.jmp)) && (b.jmp.Jnz? ==> !b.jmp.arg.RCon?)
  }

  lemma FoldedNames(s: Sol, r: Ref, r': Ref)
    requires RefFolded(s, r, r')
    ensures NamesNone(s, r')
  {
    if r.RTmp? && !NotConstant(s, r.t) {
      assert HasConstant(s, r, s.val[r.t]);
    } else {
      assert forall c: nat :: !HasConstant(s, r, c);
    }
  }

  lemma FoldedPhis(fn: Fn, s: Sol, n: nat, phis: seq<Phi>, phis': seq<Phi>, p: nat)
    requires Shape(fn, s) && PhisFolded(fn, s, n, phis, phis') && p < |phis'|
    ensures NotConstant(s, phis'[p].to) && forall a :: 0 <= a < |phis'[p].args| ==> NamesNone(s, phis'[p].args[a].arg)
  {
    var f :| PhisFrom(fn, s, n, phis, phis', f);
    assert f[p] in f && PhiFolded(fn, s, n, phis[f[p]], phis'[p]);
    var g :| ArgsFrom(fn, s, n, phis[f[p]].args, phis'[p].args, g);
    forall a | 0 <= a < |phis'[p].args|
      ensures NamesNone(s, phis'[p].args[a].arg)
    {
      assert ArgFolded(s, phis[f[p]].args[g[a]], phis'[p].args[a]);
      FoldedNames(s, phis[f[p]].args[g[a]].arg, phis'[p].args[a].arg);
    }
  }

  lemma FoldedIns(s: Sol, i: Ins, i': Ins)
    requires InsFolded(s, i, i')
    ensures (i'.to.Some? ==> NotConstant(s, i'.to.value)) && NamesNone(s, i'.arg0) && NamesNone(s, i'.arg1)
  {
    if i'.to == i.to && RefFolded(s, i.arg0, i'.arg0) && RefFolded(s, i.arg1, i'.arg1) {
      FoldedNames(s, i.arg0, i'.arg0);
      FoldedNames(s, i.arg1, i'.arg1);
    }
  }

  lemma FoldedJump(fn: Fn, s: Sol, n: nat, b': Blk)
    requires WellFormed(fn) && Shape(fn, s) && n < |fn.blks| && JumpFolded(s, fn.blks[n], b')
    ensures NamesNone(s, JumpArg(b'.jmp)) && (b'.jmp.Jnz? ==> !b'.jmp.arg.RCon?)
  {
    assert BlkOk(fn, n);
    match fn.blks[n].jmp
    case Jmp =>
    case Ret(_, v) => FoldedNames(s, v, b'.jmp.val);
    case Jnz(a) =>
      if a.RTmp? && a.t < |s.val| && s.val[a.t] >= 0 {
        assert HasConstant(s, a, s.val[a.t]);
      } else if a.RTmp? {
        assert forall c: nat :: !HasConstant(s, a, c);
      }
  }

  /** Nothing constant is left in a kept block. */
  lemma FoldedClean(fn: Fn, s: Sol, blks: seq<Blk>, n: nat)
    requires WellFormed(fn) && Shape(fn, s) && Folded(fn, s, blks) && n < |blks| && s.visit[n]
    ensures Clean(s, blks[n])
  {
    var b, b' := fn.blks[n], blks[n];
    hide PhisFolded, JumpFolded, InsFolded, WellFormed, Shape;
    forall p: nat | p < |b'.phis|
      ensures NotConstant(s, b'.phis[p].to) && forall a :: 0 <= a < |b'.phis[p].args| ==> NamesNone(s, b'.phis[p].args[a].arg)
    {
      FoldedPhis(fn, s, n, b.phis, b'.phis, p);
    }
    forall i | 0 <= i < |b'.ins|
      ensures (b'.ins[i].to.Some? ==> NotConstant(s, b'.ins[i].to.value)) && NamesNone(s, b'.ins[i].arg0) && NamesNone(s, b'.ins[i].arg1)
    {
      FoldedIns(s, b.ins[i], b'.ins[i]);
    }
    FoldedJump(fn, s, n, b');
  }

  // ----- The code has this effect -----

  lemma RenFolded(s: Sol, r: Ref)
    ensures RefFolded(s, r, RenRef(s, r))
  {
    if r.RTmp? && r.t < |s.val| && s.val[r.t] >= 0 {
      assert HasConstant(s, r, s.val[r.t]);
    }
  }

  lemma {:induction false} ArgsEffect(fn: Fn, s: Sol, n: nat, args: seq<PhiArg>) returns (f: seq<nat>)
    requires Shape(fn, s)
    ensures ArgsFrom(fn, s, n, args, RewriteArgs(fn, s, n, args), f)
  {
    if args == [] {
      f := [];
    } else {
      var g := ArgsEffect(fn, s, n, args[1..]);
      var rest := seq(|g|, k requires 0 <= k < |g| => g[k] + 1);
      var live := args[0].blk < |fn.blks| && !DeadEdge(fn, s, args[0].blk, n);
      f := if live then [0] + rest else rest;
      RenFolded(s, args[0].arg);
      NextPositions(g, rest, f, |args|, live);
      ArgsNext(fn, s, n, args, g, f, live);
    }
  }

  lemma NextPositions(g: seq<nat>, rest: seq<nat>, f: seq<nat>, n: nat, first: bool)
    requires n > 0 && Positions(g, n - 1) && |rest| == |g| && (forall k :: 0 <= k < |g| ==> rest[k] == g[k] + 1)
    requires f == if first then [0] + rest else rest
    ensures Positions(f, n) && (0 in f <==> first)
    ensures forall a: nat :: a > 0 ==> (a in f <==> (a - 1) as nat in g)
  {
    forall a: nat | a > 0
      ensures a in f <==> (a - 1) as nat in g
    {
      if a in f {
        var k :| 0 <= k < |f| && f[k] == a;
        assert g[if first then k - 1 else k] == a - 1;
      }
      if (a - 1) as nat in g {
        var k :| 0 <= k < |g| && g[k] == a - 1;
        assert f[if first then k + 1 else k] == a;
      }
    }
  }

  lemma ArgsNext(fn: Fn, s: Sol, n: nat, args: seq<PhiArg>, g: seq<nat>, f: seq<nat>, live: bool)
    requires Shape(fn, s) && args != [] && ArgsFrom(fn, s, n, args[1..], RewriteArgs(fn, s, n, args[1..]), g)
    requires live == (args[0].blk < |fn.blks| && !DeadEdge(fn, s, args[0].blk, n)) && RefFolded(s, args[0].arg, RenRef(s, args[0].arg))
    requires Positions(f, |args|) && (0 in f <==> live) && forall a: nat :: a > 0 ==> (a in f <==> (a - 1) as nat in g)
    requires |f| == |g| + (if live then 1 else 0) && (live ==> f[0] == 0) && forall k :: 0 <= k < |g| ==> f[if live then k + 1 else k] == g[k] + 1
    ensures ArgsFrom(fn, s, n, args, RewriteArgs(fn, s, n, args), f)
  {
    FirstArg(fn, s, n, args, live);
    KeptArgs(fn, s, n, args, RewriteArgs(fn, s, n, args[1..]), g, f);
    FoldedFirst(fn, s, n, args, RewriteArgs(fn, s, n, args[1..]), RewriteArgs(fn, s, n, args), g, f, live);
    hide RefFolded, DeadEdge, Shape, RewriteArgs, ArgFolded;
  }

  lemma KeptArgs(fn: Fn, s: Sol, n: nat, args: seq<PhiArg>, rest: seq<PhiArg>, g: seq<nat>, f: seq<nat>)
    requires Shape(fn, s) && args != [] && ArgsFrom(fn, s, n, args[1..], rest, g)
    requires 0 in f <==> args[0].blk < |fn.blks| && !DeadEdge(fn, s, args[0].blk, n)
    requires forall a: nat :: a > 0 ==> (a in f <==> (a - 1) as nat in g)
    ensures forall a: nat :: a < |args| ==> (a in f <==> args[a].blk < |fn.blks| && !DeadEdge(fn, s, args[a].blk, n))
  {
    hide DeadEdge, ArgFolded, Positions;
    forall a: nat | a < |args|
      ensures a in f <==> args[a].blk < |fn.blks| && !DeadEdge(fn, s, args[a].blk, n)
    {
      if a > 0 {
        var j: nat := a - 1;
        assert args[1..][j] == args[a];
      }
    }
  }

  lemma FoldedFirst(fn: Fn, s: Sol, n: nat, args: seq<PhiArg>, rest: seq<PhiArg>, all: seq<PhiArg>, g: seq<nat>, f: seq<nat>, live: bool)
    requires Shape(fn, s) && args != [] && ArgsFrom(fn, s, n, args[1..], rest, g) && |f| == |g| + if live then 1 else 0
    requires |all| == |f| && all[if live then 1 else 0..] == rest && (live ==> f[0] == 0 && ArgFolded(s, args[0], all[0]))
    requires forall k :: 0 <= k < |g| ==> f[if live then k + 1 else k] == g[k] + 1
    ensures forall k :: 0 <= k < |f| ==> f[k] < |args| && ArgFolded(s, args[f[k]], all[k])
  {
    hide ArgFolded, DeadEdge;
    forall k | 0 <= k < |f|
      ensures f[k] < |args| && ArgFolded(s, args[f[k]], all[k])
    {
      if !live || k > 0 {
        var j := if live then k - 1 else k;
        assert f[if live then j + 1 else j] == g[j] + 1;
        assert args[1..][g[j]] == args[f[k]] && all[k] == rest[j];
      }
    }
  }

  lemma FirstArg(fn: Fn, s: Sol, n: nat, args: seq<PhiArg>, live: bool)
    requires Shape(fn, s) && args != [] && live == (args[0].blk < |fn.blks| && !DeadEdge(fn, s, args[0].blk, n))
    ensures RewriteArgs(fn, s, n, args) ==
      (if live then [PhiArg(args[0].blk, RenRef(s, args[0].arg))] else []) + RewriteArgs(fn, s, n, args[1..])
  {
  }

  lemma {:induction false} PhisEffect(fn: Fn, s: Sol, n: nat, phis: seq<Phi>) returns (f: seq<nat>)
    requires Shape(fn, s)
    ensures PhisFrom(fn, s, n, phis, RewritePhis(fn, s, n, phis), f)
  {
    if phis == [] {
      f := [];
    } else {
      var l: nat := |phis| - 1;
      var g := PhisEffect(fn, s, n, phis[..l]);
      f := if Constant(s, phis[l].to) then g else g + [l];
      PhisNext(fn, s, n, phis, g, f);
    }
  }

  lemma PhisNext(fn: Fn, s: Sol, n: nat, phis: seq<Phi>, g: seq<nat>, f: seq<nat>)
    requires Shape(fn, s) && phis != [] && PhisFrom(fn, s, n, phis[..|phis| - 1], RewritePhis(fn, s, n, phis[..|phis| - 1]), g)
    requires f == if Constant(s, phis[|phis| - 1].to) then g else g + [|phis| - 1]
    ensures PhisFrom(fn, s, n, phis, RewritePhis(fn, s, n, phis), f)
  {
    LastPhi(fn, s, n, phis);
    hide PhisFrom, PhiFolded, Shape, RewritePhis, RewriteArgs;
    MorePhis(fn, s, n, phis, RewritePhis(fn, s, n, phis[..|phis| - 1]), RewritePhis(fn, s, n, phis), g, f);
  }

  lemma MorePhis(fn: Fn, s: Sol, n: nat, phis: seq<Phi>, rest: seq<Phi>, all: seq<Phi>, g: seq<nat>, f: seq<nat>)
    requires Shape(fn, s) && phis != [] && PhisFrom(fn, s, n, phis[..|phis| - 1], rest, g)
    requires var c := Constant(s, phis[|phis| - 1].to);
      && f == (if c then g else g + [|phis| - 1]) && |all| == |f| && rest <= all
      && (!c ==> PhiFolded(fn, s, n, phis[|phis| - 1], all[|all| - 1]))
    ensures PhisFrom(fn, s, n, phis, all, f)
  {
    AppendPositions(g, f, |phis| - 1, !Constant(s, phis[|phis| - 1].to));
    KeptPhis(fn, s, n, phis, rest, g, f);
    FoldedMore(fn, s, n, phis, rest, all, g, f);
    hide PhiFolded, Shape, Positions, Constant;
  }

  lemma KeptPhis(fn: Fn, s: Sol, n: nat, phis: seq<Phi>, rest: seq<Phi>, g: seq<nat>, f: seq<nat>)
    requires Shape(fn, s) && phis != [] && PhisFrom(fn, s, n, phis[..|phis| - 1], rest, g)
    requires (forall p: nat :: p < |phis| - 1 ==> (p in f <==> p in g)) && (|phis| - 1 in f <==> !Constant(s, phis[|phis| - 1].to))
    ensures forall p: nat :: p < |phis| ==> (p in f <==> phis[p].to >= |s.val| || s.val[phis[p].to] < 0)
  {
    hide PhiFolded, Shape, Positions;
    forall p: nat | p < |phis|
      ensures p in f <==> phis[p].to >= |s.val| || s.val[phis[p].to] < 0
    {
      assert p < |phis| - 1 ==> phis[..|phis| - 1][p] == phis[p];
    }
  }

  lemma FoldedMore(fn: Fn, s: Sol, n: nat, phis: seq<Phi>, rest: seq<Phi>, all: seq<Phi>, g: seq<nat>, f: seq<nat>)
    requires Shape(fn, s) && phis != [] && PhisFrom(fn, s, n, phis[..|phis| - 1], rest, g) && |all| == |f| && rest <= all
    requires f == g || (f == g + [|phis| - 1] && PhiFolded(fn, s, n, phis[|phis| - 1], all[|all| - 1]))
    ensures forall k :: 0 <= k < |f| ==> f[k] < |phis| && PhiFolded(fn, s, n, phis[f[k]], all[k])
  {
    hide PhiFolded, Shape;
    forall k | 0 <= k < |f|
      ensures f[k] < |phis| && PhiFolded(fn, s, n, phis[f[k]], all[k])
    {
      if k < |g| {
        assert phis[..|phis| - 1][g[k]] == phis[f[k]] && all[k] == rest[k];
      }
    }
  }

  lemma LastPhi(fn: Fn, s: Sol, n: nat, phis: seq<Phi>)
    requires Shape(fn, s) && phis != []
    ensures var phi := phis[|phis| - 1];
      var phi' := Phi(phi.to, phi.wide, RewriteArgs(fn, s, n, phi.args));
      && RewritePhis(fn, s, n, phis) == RewritePhis(fn, s, n, phis[..|phis| - 1]) + (if Constant(s, phi.to) then [] else [phi'])
      && PhiFolded(fn, s, n, phi, phi')
  {
    var f := ArgsEffect(fn, s, n, phis[|phis| - 1].args);
  }

  lemma AppendPositions(g: seq<nat>, f: seq<nat>, l: nat, more: bool)
    requires Positions(g, l) && f == if more then g + [l] else g
    ensures Positions(f, l + 1) && (forall p: nat :: p < l ==> (p in f <==> p in g)) && (l in f <==> more)
    ensures forall k :: 0 <= k < |g| ==> g[k] < l
  {
    assert forall k :: 0 <= k < |g| ==> g[k] < l;
  }

  lemma JumpEffect(fn: Fn, s: Sol, n: nat)
    requires WellFormed(fn) && Shape(fn, s) && n < |fn.blks|
    ensures JumpFolded(s, fn.blks[n], RewriteBlk(fn, s, n))
  {
    assert BlkOk(fn, n);
    JumpOfBlk(fn, s, n);
    match fn.blks[n].jmp
    case Jmp =>
    case Ret(_, v) => RenFolded(s, v);
    case Jnz(a) => RenFolded(s, a);
    hide RewriteBlk;
  }

  lemma BlkEffect(fn: Fn, s: Sol, n: nat)
    requires WellFormed(fn) && Shape(fn, s) && n < |fn.blks|
    ensures BlkFolded(fn, s, n, RewriteBlk(fn, s, n))
  {
    var b, b' := fn.blks[n], RewriteBlk(fn, s, n);
    var f := PhisEffect(fn, s, n, b.phis);
    JumpEffect(fn, s, n);
    forall i | 0 <= i < |b.ins|
      ensures InsFolded(s, b.ins[i], b'.ins[i])
    {
      RenFolded(s, b.ins[i].arg0);
      RenFolded(s, b.ins[i].arg1);
    }
    hide JumpFolded, InsFolded, WellFormed, Shape, RefFolded;
  }

  /** Trimmed blocks are folded ones. */
  lemma TrimmedFolded(fn: Fn, s: Sol, blks: seq<Blk>)
    requires WellFormed(fn) && Shape(fn, s) && Trimmed(fn, s, blks)
    ensures Folded(fn, s, blks)
  {
    hide WellFormed, BlkFolded, RewriteBlk;
    forall n: nat | n < |blks| && s.visit[n]
      ensures BlkFolded(fn, s, n, blks[n])
    {
      BlkEffect(fn, s, n);
    }
  }
}
