/** Trimming dead code and putting constants in place, block by block and in
    place (the second half of fold, and edgedel of lib/qbe-1.0/cfg.c). Whatever the order of
    the block list, the result is the rewritten function of SccpRewrite. */
module SccpTrim {
  import opened Basics
  import opened Finite
  import opened Folding
  import opened Ssa
  import opened SccpLattice
  import opened SccpInvariant
  import opened SccpRewrite

  // ----- The state between two blocks: the blocks in done have been handled -----

  /** Phi arguments lose those that come over dead edges of handled blocks; the
      others are renamed once their own block has been handled. */
  function PartArgs(fn: Fn, s: Sol, done: set<nat>, ren: bool, n: nat, args: seq<PhiArg>): seq<PhiArg>
    requires Shape(fn, s) && forall a :: 0 <= a < |args| ==> args[a].blk < |fn.blks|
  {
    if args == [] then []
    else
      var rest := PartArgs(fn, s, done, ren, n, args[1..]);
      var a := args[0];
      if !DeadEdge(fn, s, a.blk, n) then [PhiArg(a.blk, if ren then RenRef(s, a.arg) else a.arg)] + rest
      else if a.blk in done then rest
      else [a] + rest
  }

  function PartPhis(fn: Fn, s: Sol, done: set<nat>, ren: bool, n: nat, phis: seq<Phi>): seq<Phi>
    requires Shape(fn, s) && forall p :: 0 <= p < |phis| ==> PhiOk(fn, phis[p])
  {
    if phis == [] then []
    else
      var phi := phis[|phis| - 1];
      var rest := PartPhis(fn, s, done, ren, n, phis[..|phis| - 1]);
      assert PhiOk(fn, phi);
      if ren && Constant(s, phi.to) then rest
      else rest + [Phi(phi.to, phi.wide, PartArgs(fn, s, done, ren, n, phi.args))]
  }

  function RemoveArg(args: seq<PhiArg>, f: nat): seq<PhiArg> {
    if args == [] then [] else if args[0].blk == f then args[1..] else [args[0]] + RemoveArg(args[1..], f)
  }

  lemma {:induction false} RemoveDead(fn: Fn, s: Sol, done: set<nat>, ren: bool, n: nat, args: seq<PhiArg>, f: nat)
    requires Shape(fn, s) && (forall a :: 0 <= a < |args| ==> args[a].blk < |fn.blks|)
    requires forall a, b :: 0 <= a < b < |args| ==> args[a].blk != args[b].blk
    requires f < |fn.blks| && DeadEdge(fn, s, f, n) && f !in done
    ensures RemoveArg(PartArgs(fn, s, done, ren, n, args), f) == PartArgs(fn, s, done + {f}, ren, n, args)
  {
    if args != [] {
      var rest := PartArgs(fn, s, done, ren, n, args[1..]);
      var all := PartArgs(fn, s, done, ren, n, args);
      RemoveDead(fn, s, done, ren, n, args[1..], f);
      if args[0].blk == f {
        NoSuchArg(fn, s, done, ren, n, args[1..], f);
        assert all[1..] == rest;
      } else if all != rest {
        assert all[1..] == rest;
      }
    }
  }

  lemma {:induction false} NoSuchArg(fn: Fn, s: Sol, done: set<nat>, ren: bool, n: nat, args: seq<PhiArg>, f: nat)
    requires Shape(fn, s) && (forall a :: 0 <= a < |args| ==> args[a].blk < |fn.blks| && args[a].blk != f)
    ensures PartArgs(fn, s, done + {f}, ren, n, args) == PartArgs(fn, s, done, ren, n, args)
  {
    if args != [] {
      NoSuchArg(fn, s, done, ren, n, args[1..], f);
    }
  }

  lemma {:induction false} AllDone(fn: Fn, s: Sol, done: set<nat>, n: nat, args: seq<PhiArg>)
    requires Shape(fn, s) && (forall a :: 0 <= a < |args| ==> args[a].blk < |fn.blks| && args[a].blk in done)
    ensures PartArgs(fn, s, done, true, n, args) == RewriteArgs(fn, s, n, args)
  {
    if args != [] {
      AllDone(fn, s, done, n, args[1..]);
    }
  }

  // ----- Whole blocks -----

  function DelPhis(phis: seq<Phi>, f: nat): seq<Phi> {
    seq(|phis|, p requires 0 <= p < |phis| => phis[p].(args := RemoveArg(phis[p].args, f)))
  }

  lemma {:induction false} DelPart(fn: Fn, s: Sol, done: set<nat>, ren: bool, n: nat, phis: seq<Phi>, f: nat)
    requires Shape(fn, s) && (forall p :: 0 <= p < |phis| ==> PhiOk(fn, phis[p]))
    requires f < |fn.blks| && DeadEdge(fn, s, f, n) && f !in done
    ensures DelPhis(PartPhis(fn, s, done, ren, n, phis), f) == PartPhis(fn, s, done + {f}, ren, n, phis)
  {
    if phis != [] {
      var phi := phis[|phis| - 1];
      assert PhiOk(fn, phi);
      DelPart(fn, s, done, ren, n, phis[..|phis| - 1], f);
      RemoveDead(fn, s, done, ren, n, phi.args, f);
      var rest := PartPhis(fn, s, done, ren, n, phis[..|phis| - 1]);
      var last := Phi(phi.to, phi.wide, PartArgs(fn, s, done, ren, n, phi.args));
      assert DelPhis(rest + [last], f) == DelPhis(rest, f) + [last.(args := RemoveArg(last.args, f))];
    }
  }

  /** Handling f changes nothing where it leaves no dead edge. */
  lemma {:induction false} KeepPart(fn: Fn, s: Sol, done: set<nat>, ren: bool, n: nat, phis: seq<Phi>, f: nat)
    requires Shape(fn, s) && (forall p :: 0 <= p < |phis| ==> PhiOk(fn, phis[p]))
    requires f < |fn.blks|
    requires DeadEdge(fn, s, f, n) ==> forall p, a :: 0 <= p < |phis| && 0 <= a < |phis[p].args| ==> phis[p].args[a].blk != f
    ensures PartPhis(fn, s, done + {f}, ren, n, phis) == PartPhis(fn, s, done, ren, n, phis)
  {
    if phis != [] {
      var phi := phis[|phis| - 1];
      assert PhiOk(fn, phi);
      KeepPart(fn, s, done, ren, n, phis[..|phis| - 1], f);
      if DeadEdge(fn, s, f, n) {
        NoSuchArg(fn, s, done, ren, n, phi.args, f);
      } else {
        KeepArgs(fn, s, done, ren, n, phi.args, f);
      }
    }
  }

  lemma {:induction false} KeepArgs(fn: Fn, s: Sol, done: set<nat>, ren: bool, n: nat, args: seq<PhiArg>, f: nat)
    requires Shape(fn, s) && (forall a :: 0 <= a < |args| ==> args[a].blk < |fn.blks|)
    requires f < |fn.blks| && !DeadEdge(fn, s, f, n)
    ensures PartArgs(fn, s, done + {f}, ren, n, args) == PartArgs(fn, s, done, ren, n, args)
  {
    if args != [] {
      KeepArgs(fn, s, done, ren, n, args[1..], f);
    }
  }

  /** What happens to the phis of a visited block when it is handled. */
  function RenameArgs(fn: Fn, s: Sol, n: nat, args: seq<PhiArg>): seq<PhiArg>
    requires Shape(fn, s) && forall a :: 0 <= a < |args| ==> args[a].blk < |fn.blks|
  {
    seq(|args|, a requires 0 <= a < |args| =>
      if DeadEdge(fn, s, args[a].blk, n) then args[a] else PhiArg(args[a].blk, RenRef(s, args[a].arg)))
  }

  lemma {:induction false} RenamePart(fn: Fn, s: Sol, done: set<nat>, n: nat, args: seq<PhiArg>)
    requires Shape(fn, s) && (forall a :: 0 <= a < |args| ==> args[a].blk < |fn.blks|)
    ensures forall a :: 0 <= a < |PartArgs(fn, s, done, false, n, args)| ==> PartArgs(fn, s, done, false, n, args)[a].blk < |fn.blks|
    ensures RenameArgs(fn, s, n, PartArgs(fn, s, done, false, n, args)) == PartArgs(fn, s, done, true, n, args)
  {
    if args != [] {
      RenamePart(fn, s, done, n, args[1..]);
    }
  }

  function RenamePhis(fn: Fn, s: Sol, n: nat, phis: seq<Phi>): seq<Phi>
    requires Shape(fn, s) && forall p, a :: 0 <= p < |phis| && 0 <= a < |phis[p].args| ==> phis[p].args[a].blk < |fn.blks|
  {
    if phis == [] then []
    else
      var phi := phis[|phis| - 1];
      var rest := RenamePhis(fn, s, n, phis[..|phis| - 1]);
      if Constant(s, phi.to) then rest else rest + [phi.(args := RenameArgs(fn, s, n, phi.args))]
  }

  lemma {:induction false} RenamePhisPart(fn: Fn, s: Sol, done: set<nat>, n: nat, phis: seq<Phi>)
    requires Shape(fn, s) && (forall p :: 0 <= p < |phis| ==> PhiOk(fn, phis[p]))
    ensures var part := PartPhis(fn, s, done, false, n, phis);
      && |part| == |phis|
      && (forall p, a :: 0 <= p < |part| && 0 <= a < |part[p].args| ==> part[p].args[a].blk < |fn.blks|)
      && RenamePhis(fn, s, n, part) == PartPhis(fn, s, done, true, n, phis)
  {
    if phis != [] {
      var phi := phis[|phis| - 1];
      assert PhiOk(fn, phi);
      RenamePhisPart(fn, s, done, n, phis[..|phis| - 1]);
      RenamePart(fn, s, done, n, phi.args);
      var part := PartPhis(fn, s, done, false, n, phis);
      assert part[..|part| - 1] == PartPhis(fn, s, done, false, n, phis[..|phis| - 1]);
    }
  }

  /** Block n when the blocks in done have been handled. */
  function PartBlk(fn: Fn, s: Sol, handled: set<nat>, done: set<nat>, n: nat): Blk
    requires Shape(fn, s) && n < |fn.blks| && forall p :: 0 <= p < |fn.blks[n].phis| ==> PhiOk(fn, fn.blks[n].phis[p])
  {
    var b := fn.blks[n];
    var phis := PartPhis(fn, s, done, n in handled && s.visit[n], n, b.phis);
    if n !in handled then Blk(phis, b.ins, b.jmp, b.s1, b.s2)
    else if !s.visit[n] then Blk(phis, b.ins, b.jmp, -1, -1)
    else
      var (j, s1, s2) := RewriteJump(s, b);
      Blk(phis, RewriteInss(s, b.ins), j, s1, s2)
  }

  function RewriteInss(s: Sol, ins: seq<Ins>): seq<Ins> {
    seq(|ins|, i requires 0 <= i < |ins| => RewriteIns(s, ins[i]))
  }

  ghost predicate Parts(fn: Fn, s: Sol, blks: seq<Blk>, handled: set<nat>, done: set<nat>)
    requires WellFormed(fn) && Shape(fn, s)
  {
    |blks| == |fn.blks| && forall n :: 0 <= n < |blks| ==> PartIs(fn, s, blks, handled, done, n)
  }

  ghost predicate PartIs(fn: Fn, s: Sol, blks: seq<Blk>, handled: set<nat>, done: set<nat>, n: nat)
    requires WellFormed(fn) && Shape(fn, s) && n < |blks| == |fn.blks|
  {
    assert BlkOk(fn, n);
    blks[n] == PartBlk(fn, s, handled, done, n)
  }

  function SetSucc(b: Blk, second: bool): Blk {
    if second then b.(s2 := -1) else b.(s1 := -1)
  }

  /** Deletes an edge of block n: its phi arguments go too, unless the other
      edge of n leads to the same block. */
  function DelEdge(blks: seq<Blk>, n: nat, second: bool): (r: seq<Blk>)
    requires n < |blks|
    ensures |r| == |blks|
  {
    var d := if second then blks[n].s2 else blks[n].s1;
    var cut := blks[n := SetSucc(blks[n], second)];
    if d < 0 || d >= |blks| || blks[n].s1 == blks[n].s2 then cut
    else cut[d := cut[d].(phis := DelPhis(cut[d].phis, n))]
  }

  /** Everything about block n except the deletion of edges. */
  function TrimBody(fn: Fn, s: Sol, b: Blk, n: nat): Blk
    requires Shape(fn, s) && forall p, a :: 0 <= p < |b.phis| && 0 <= a < |b.phis[p].args| ==> b.phis[p].args[a].blk < |fn.blks|
  {
    b.(phis := RenamePhis(fn, s, n, b.phis), ins := RewriteInss(s, b.ins))
  }

  function TrimJump(s: Sol, blks: seq<Blk>, n: nat): seq<Blk>
    requires n < |blks|
  {
    var b := blks[n];
    match b.jmp
    case Jmp => blks
    case Ret(wide, v) => blks[n := b.(jmp := Ret(wide, RenRef(s, v)))]
    case Jnz(a) =>
      var r := RenRef(s, a);
      if !r.RCon? || r.c >= |s.con| then blks[n := b.(jmp := Jnz(r))]
      else if IsZero(s, r.c) then
        var cut := DelEdge(blks, n, false);
        cut[n := cut[n].(s1 := cut[n].s2, s2 := -1, jmp := Jmp)]
      else
        var cut := DelEdge(blks, n, true);
        cut[n := cut[n].(jmp := Jmp)]
  }

  // ----- Handling one block -----

  /** An edge of n that is dead goes; the phis of the other blocks stay as they are. */
  lemma EdgeGone(fn: Fn, s: Sol, handled: set<nat>, done: set<nat>, n: nat, d: nat)
    requires WellFormed(fn) && Shape(fn, s) && n < |fn.blks| && d < |fn.blks| && n !in done
    ensures BlkOk(fn, d)
    ensures var b, ren := fn.blks[d], d in handled && s.visit[d];
      PartPhis(fn, s, done + {n}, ren, d, b.phis) ==
        if Edge(fn, n, d) && DeadEdge(fn, s, n, d) then DelPhis(PartPhis(fn, s, done, ren, d, b.phis), n)
        else PartPhis(fn, s, done, ren, d, b.phis)
  {
    assert BlkOk(fn, d);
    var b, ren := fn.blks[d], d in handled && s.visit[d];
    if Edge(fn, n, d) && DeadEdge(fn, s, n, d) {
      DelPart(fn, s, done, ren, d, b.phis, n);
    } else {
      if DeadEdge(fn, s, n, d) {
        assert n !in fn.pred[d];
        forall p, a | 0 <= p < |b.phis| && 0 <= a < |b.phis[p].args|
          ensures b.phis[p].args[a].blk != n
        {
          assert ArgsMatch(b.phis[p], fn.pred[d]);
        }
      }
      KeepPart(fn, s, done, ren, d, b.phis, n);
    }
  }

  /** What deleting both edges of block n does to block d. */
  lemma DropAt(blks: seq<Blk>, n: nat, d: nat)
    requires n < |blks| && d < |blks| && -1 <= blks[n].s1 < |blks| && -1 <= blks[n].s2 < |blks|
    ensures var b, blks' := blks[d], DelEdge(DelEdge(blks, n, false), n, true);
      && |blks'| == |blks|
      && blks'[d].phis == (if blks[n].s1 == d || blks[n].s2 == d then DelPhis(b.phis, n) else b.phis)
      && blks'[d].ins == b.ins && blks'[d].jmp == b.jmp
      && (d != n ==> blks'[d].s1 == b.s1 && blks'[d].s2 == b.s2) && (d == n ==> blks'[d].s1 == -1 && blks'[d].s2 == -1)
  {
    hide DelPhis;
  }

  /** A block that has not been visited loses both its edges. */
  lemma DropBlock(fn: Fn, s: Sol, blks: seq<Blk>, done: set<nat>, n: nat)
    requires Solved(fn, s) && n < |fn.blks| && !s.visit[n] && n !in done && Parts(fn, s, blks, done, done)
    ensures Parts(fn, s, DelEdge(DelEdge(blks, n, false), n, true), done + {n}, done + {n})
  {
    hide DelEdge, DelPhis;
    assert BlkOk(fn, n) && PartIs(fn, s, blks, done, done, n);
    NotLeft(fn, s, n);
    var blks' := DelEdge(DelEdge(blks, n, false), n, true);
    DropAt(blks, n, n);
    forall d: nat | d < |fn.blks|
      ensures PartIs(fn, s, blks', done + {n}, done + {n}, d)
    {
      assert PartIs(fn, s, blks, done, done, d);
      EdgeGone(fn, s, done + {n}, done, n, d);
      DropAt(blks, n, d);
      SetAdd(done, n, d);
    }
  }

  lemma NotLeft(fn: Fn, s: Sol, n: nat)
    requires Solved(fn, s) && n < |fn.blks| && !s.visit[n]
    ensures forall d :: DeadEdge(fn, s, n, d)
  {
    assert forall e :: e == 2 * n || e == 2 * n + 1 ==> !FromVisited(fn, s.visit, e);
  }

  /** Which edges of a visited block are dead. */
  lemma DeadEdgesOf(fn: Fn, s: Sol, n: nat, d: nat)
    requires Solved(fn, s) && n < |fn.blks| && s.visit[n] && Edge(fn, n, d)
    ensures BlkOk(fn, n)
    ensures var b := fn.blks[n];
      DeadEdge(fn, s, n, d) <==>
        b.jmp.Jnz? && b.s1 != b.s2 && LatVal(fn, s, b.jmp.arg) >= 0 &&
        d == if IsZero(s, LatVal(fn, s, b.jmp.arg)) then b.s1 else b.s2
  {
    assert BlkOk(fn, n) && JmpDone(fn, s, n, true);
    if fn.blks[n].jmp.Jnz? {
      JnzNotTop(fn, s, -1, 0, 0, n);
      assert JnzJustified(fn, s, n);
    }
  }

  /** Where the phis lose arguments when the branch of a block is trimmed; -1 if nowhere. */
  function CutAt(s: Sol, b: Blk): int {
    match b.jmp
    case Jmp => -1
    case Ret(_, _) => -1
    case Jnz(a) =>
      var r := RenRef(s, a);
      if !r.RCon? || r.c >= |s.con| || b.s1 == b.s2 then -1
      else if IsZero(s, r.c) then b.s1
      else b.s2
  }

  lemma TrimJumpAt(s: Sol, blks: seq<Blk>, n: nat, d: nat)
    requires n < |blks| && d < |blks|
    ensures var b, b' := blks[d], TrimJump(s, blks, n)[d];
      && |TrimJump(s, blks, n)| == |blks|
      && b'.phis == (if CutAt(s, blks[n]) == d then DelPhis(b.phis, n) else b.phis)
      && b'.ins == b.ins
      && (b'.jmp, b'.s1, b'.s2) == (if d == n then RewriteJump(s, b) else (b.jmp, b.s1, b.s2))
  {
  }

  lemma CutDead(fn: Fn, s: Sol, n: nat, d: nat)
    requires Solved(fn, s) && n < |fn.blks| && s.visit[n]
    ensures CutAt(s, fn.blks[n]) == d <==> Edge(fn, n, d) && DeadEdge(fn, s, n, d)
  {
    assert BlkOk(fn, n);
    if Edge(fn, n, d) {
      DeadEdgesOf(fn, s, n, d);
    }
  }

  lemma KeepBlock(fn: Fn, s: Sol, blks: seq<Blk>, done: set<nat>, n: nat)
    requires Solved(fn, s) && n < |fn.blks| && s.visit[n] && n !in done && Parts(fn, s, blks, done, done)
    ensures forall p, a :: 0 <= p < |blks[n].phis| && 0 <= a < |blks[n].phis[p].args| ==> blks[n].phis[p].args[a].blk < |fn.blks|
    ensures Parts(fn, s, TrimJump(s, blks[n := TrimBody(fn, s, blks[n], n)], n), done + {n}, done + {n})
  {
    hide TrimJump, RewriteJump, DelPhis, RenamePhis;
    assert BlkOk(fn, n) && PartIs(fn, s, blks, done, done, n);
    RenamePhisPart(fn, s, done, n, fn.blks[n].phis);
    var mid := blks[n := TrimBody(fn, s, blks[n], n)];
    var blks' := TrimJump(s, mid, n);
    assert CutAt(s, mid[n]) == CutAt(s, fn.blks[n]);
    assert RewriteJump(s, mid[n]) == RewriteJump(s, fn.blks[n]) by { SameJump(s, mid[n], fn.blks[n]); }
    TrimJumpAt(s, mid, n, n);
    forall d: nat | d < |fn.blks|
      ensures PartIs(fn, s, blks', done + {n}, done + {n}, d)
    {
      assert PartIs(fn, s, blks, done, done, d);
      EdgeGone(fn, s, done + {n}, done, n, d);
      CutDead(fn, s, n, d);
      TrimJumpAt(s, mid, n, d);
      SetAdd(done, n, d);
    }
  }

  lemma SetAdd(done: set<nat>, n: nat, d: nat)
    ensures d in done + {n} <==> d in done || d == n
  {
  }

  lemma SameJump(s: Sol, b: Blk, b': Blk)
    requires b.jmp == b'.jmp && b.s1 == b'.s1 && b.s2 == b'.s2
    ensures RewriteJump(s, b) == RewriteJump(s, b')
  {
  }

  // ----- When all blocks have been handled -----

  lemma {:induction false} AllPhisDone(fn: Fn, s: Sol, done: set<nat>, n: nat, phis: seq<Phi>)
    requires Shape(fn, s) && (forall p :: 0 <= p < |phis| ==> PhiOk(fn, phis[p]))
    requires forall m: nat :: m < |fn.blks| ==> m in done
    ensures PartPhis(fn, s, done, true, n, phis) == RewritePhis(fn, s, n, phis)
  {
    if phis != [] {
      assert PhiOk(fn, phis[|phis| - 1]);
      AllPhisDone(fn, s, done, n, phis[..|phis| - 1]);
      AllDone(fn, s, done, n, phis[|phis| - 1].args);
    }
  }

  /** Blocks that are the rewritten ones wherever they can be reached. */
  ghost predicate Trimmed(fn: Fn, s: Sol, blks: seq<Blk>)
    requires Shape(fn, s)
  {
    |blks| == |fn.blks| && forall n :: 0 <= n < |blks| && s.visit[n] ==> blks[n] == RewriteBlk(fn, s, n)
  }

  lemma AllHandled(fn: Fn, s: Sol, blks: seq<Blk>, done: set<nat>)
    requires WellFormed(fn) && Shape(fn, s) && Parts(fn, s, blks, done, done)
    requires forall m: nat :: m < |fn.blks| ==> m in done
    ensures Trimmed(fn, s, blks)
  {
    forall n: nat | n < |fn.blks| && s.visit[n]
      ensures blks[n] == RewriteBlk(fn, s, n)
    {
      assert BlkOk(fn, n) && PartIs(fn, s, blks, done, done, n);
      AllPhisDone(fn, s, done, n, fn.blks[n].phis);
      assert RewriteInss(s, fn.blks[n].ins) == RewriteBlk(fn, s, n).ins;
    }
  }

  /** A block that is kept leads only to blocks that are kept. */
  lemma LeadsToVisited(fn: Fn, s: Sol, n: nat)
    requires Solved(fn, s) && n < |fn.blks| && s.visit[n]
    ensures var (j, s1, s2) := RewriteJump(s, fn.blks[n]);
      (0 <= s1 ==> s1 < |fn.blks| && s.visit[s1]) && (0 <= s2 ==> s2 < |fn.blks| && s.visit[s2])
  {
    assert BlkOk(fn, n) && JmpDone(fn, s, n, true);
    assert fn.blks[n].s1 >= 0 && !s.dead[2 * n] ==> s.visit[fn.blks[n].s1] by {
      assert Dest(fn, 2 * n) == fn.blks[n].s1;
    }
    assert fn.blks[n].s2 >= 0 && !s.dead[2 * n + 1] ==> s.visit[fn.blks[n].s2] by {
      assert Dest(fn, 2 * n + 1) == fn.blks[n].s2;
    }
  }

  predicate AtVisited(s: Sol, r: State) {
    r.Running? ==> r.path != [] && r.path[|r.path| - 1] < |s.visit| && s.visit[r.path[|r.path| - 1]]
  }

  lemma StepStays(fn: Fn, s: Sol, c: Ctx, r: State)
    requires Solved(fn, s) && AtVisited(s, r)
    ensures AtVisited(s, Step(Rewrite(fn, s), c, r))
  {
    hide AfterPhis, RunInss, Read, RewritePhis, RewriteJump;
    if r.Running? {
      LeadsToVisited(fn, s, r.path[|r.path| - 1]);
    }
  }

  /** The blocks that are left out are never entered. */
  lemma {:induction false} TrimmedRun(fn: Fn, s: Sol, blks: seq<Blk>, c: Ctx, k: nat)
    requires Solved(fn, s) && Trimmed(fn, s, blks)
    ensures Run(blks, c, k) == Run(Rewrite(fn, s), c, k) && AtVisited(s, Run(blks, c, k))
  {
    hide RewriteBlk, AfterPhis, RunInss, Leave;
    if k > 0 {
      TrimmedRun(fn, s, blks, c, k - 1);
      StepStays(fn, s, c, Run(blks, c, k - 1));
    }
  }

  /** Trimming starts from the function itself. */
  lemma NothingHandled(fn: Fn, s: Sol)
    requires WellFormed(fn) && Shape(fn, s)
    ensures Parts(fn, s, fn.blks, {}, {})
  {
    forall n: nat | n < |fn.blks|
      ensures PartIs(fn, s, fn.blks, {}, {}, n)
    {
      assert BlkOk(fn, n);
      SamePhis(fn, s, n, fn.blks[n].phis);
    }
  }

  lemma {:induction false} SamePhis(fn: Fn, s: Sol, n: nat, phis: seq<Phi>)
    requires Shape(fn, s) && (forall p :: 0 <= p < |phis| ==> PhiOk(fn, phis[p]))
    ensures PartPhis(fn, s, {}, false, n, phis) == phis
  {
    if phis != [] {
      var phi := phis[|phis| - 1];
      assert PhiOk(fn, phi);
      SamePhis(fn, s, n, phis[..|phis| - 1]);
      SameArgs(fn, s, n, phi.args);
      assert phis == phis[..|phis| - 1] + [Phi(phi.to, phi.wide, phi.args)];
    }
  }

  lemma {:induction false} SameArgs(fn: Fn, s: Sol, n: nat, args: seq<PhiArg>)
    requires Shape(fn, s) && (forall a :: 0 <= a < |args| ==> args[a].blk < |fn.blks|)
    ensures PartArgs(fn, s, {}, false, n, args) == args
  {
    if args != [] {
      SameArgs(fn, s, n, args[1..]);
    }
  }

  lemma {:induction false} CutArg(args: seq<PhiArg>, f: nat, a: nat)
    requires a < |args| && args[a].blk == f && forall x :: 0 <= x < a ==> args[x].blk != f
    ensures RemoveArg(args, f) == args[..a] + args[a + 1..]
  {
    if a > 0 {
      CutArg(args[1..], f, a - 1);
      assert args[..a] + args[a + 1..] == [args[0]] + (args[1..][..a - 1] + args[1..][a..]);
    }
  }

  /** The blocks in the order of the list, without those that have not been visited. */
  function Kept(order: seq<nat>, visit: seq<bool>): seq<nat> {
    if order == [] then []
    else
      var n := order[|order| - 1];
      var rest := Kept(order[..|order| - 1], visit);
      if n < |visit| && visit[n] then rest + [n] else rest
  }

  /** Every phi of block d (if there is one) has an argument for n. */
  ghost predicate ArgsThere(blks: seq<Blk>, d: int, n: nat) {
    0 <= d < |blks| ==> forall p :: 0 <= p < |blks[d].phis| ==> HasArg(blks[d].phis[p], n)
  }

  lemma {:induction false} PartHasArg(fn: Fn, s: Sol, done: set<nat>, ren: bool, n: nat, args: seq<PhiArg>, f: nat, a: nat)
    requires Shape(fn, s) && (forall a :: 0 <= a < |args| ==> args[a].blk < |fn.blks|)
    requires f !in done && a < |args| && args[a].blk == f
    ensures exists x :: 0 <= x < |PartArgs(fn, s, done, ren, n, args)| && PartArgs(fn, s, done, ren, n, args)[x].blk == f
  {
    var all := PartArgs(fn, s, done, ren, n, args);
    if a == 0 {
      assert all[0].blk == f;
    } else {
      PartHasArg(fn, s, done, ren, n, args[1..], f, a - 1);
      var rest := PartArgs(fn, s, done, ren, n, args[1..]);
      var x :| 0 <= x < |rest| && rest[x].blk == f;
      assert all == rest || all[x + 1] == rest[x];
    }
  }

  lemma {:induction false} PartHasArgs(fn: Fn, s: Sol, done: set<nat>, ren: bool, n: nat, phis: seq<Phi>, f: nat)
    requires Shape(fn, s) && (forall p :: 0 <= p < |phis| ==> PhiOk(fn, phis[p]) && HasArg(phis[p], f))
    requires f !in done
    ensures forall p :: 0 <= p < |PartPhis(fn, s, done, ren, n, phis)| ==> HasArg(PartPhis(fn, s, done, ren, n, phis)[p], f)
  {
    if phis != [] {
      var phi := phis[|phis| - 1];
      assert PhiOk(fn, phi);
      PartHasArgs(fn, s, done, ren, n, phis[..|phis| - 1], f);
      var a :| 0 <= a < |phi.args| && phi.args[a].blk == f;
      PartHasArg(fn, s, done, ren, n, phi.args, f, a);
    }
  }

  /** A block that is not handled yet still has its argument in all phis that it leads to. */
  lemma StillThere(fn: Fn, s: Sol, blks: seq<Blk>, handled: set<nat>, done: set<nat>, n: nat, d: nat)
    requires WellFormed(fn) && Shape(fn, s) && n < |fn.blks| && d < |fn.blks| && n !in done && Edge(fn, n, d)
    requires |blks| == |fn.blks| && PartIs(fn, s, blks, handled, done, d)
    ensures ArgsThere(blks, d, n)
  {
    assert BlkOk(fn, d);
    assert n in fn.pred[d];
    PartHasArgs(fn, s, done, d in handled && s.visit[d], d, fn.blks[d].phis, n);
  }

  /** What the deletion of the edges of a block that has not been visited meets. */
  lemma DropPhis(fn: Fn, s: Sol, blks: seq<Blk>, done: set<nat>, n: nat)
    requires Solved(fn, s) && n < |fn.blks| && !s.visit[n] && n !in done && Parts(fn, s, blks, done, done)
    ensures ArgsThere(blks, blks[n].s1, n) && |DelEdge(blks, n, false)| == |blks|
    ensures ArgsThere(DelEdge(blks, n, false), DelEdge(blks, n, false)[n].s2, n)
  {
    assert PartIs(fn, s, blks, done, done, n);
    forall d: nat | d < |fn.blks| && Edge(fn, n, d)
      ensures ArgsThere(blks, d, n)
    {
      assert PartIs(fn, s, blks, done, done, d);
      StillThere(fn, s, blks, done, done, n, d);
    }
    assert BlkOk(fn, n);
    var cut, d1, d2 := DelEdge(blks, n, false), blks[n].s1, blks[n].s2;
    assert d1 >= 0 ==> Edge(fn, n, d1) && ArgsThere(blks, d1, n);
    assert d2 >= 0 ==> Edge(fn, n, d2) && ArgsThere(blks, d2, n);
    assert cut[n].s2 == d2;
    assert 0 <= d2 < |blks| ==> cut[d2].phis == blks[d2].phis;
  }

  lemma BranchPhis(fn: Fn, s: Sol, blks: seq<Blk>, done: set<nat>, n: nat)
    requires Solved(fn, s) && n < |fn.blks| && s.visit[n] && n !in done && Parts(fn, s, blks, done, done)
    ensures forall p, a :: 0 <= p < |blks[n].phis| && 0 <= a < |blks[n].phis[p].args| ==> blks[n].phis[p].args[a].blk < |fn.blks|
    ensures var mid := blks[n := TrimBody(fn, s, blks[n], n)];
      ArgsThere(mid, mid[n].s1, n) && ArgsThere(mid, mid[n].s2, n)
  {
    assert BlkOk(fn, n) && PartIs(fn, s, blks, done, done, n);
    RenamePhisPart(fn, s, done, n, fn.blks[n].phis);
    var mid := blks[n := TrimBody(fn, s, blks[n], n)];
    forall d: nat | d < |fn.blks| && Edge(fn, n, d)
      ensures ArgsThere(mid, d, n)
    {
      assert BlkOk(fn, d) && PartIs(fn, s, blks, done, done, d);
      assert n in fn.pred[d];
      PartHasArgs(fn, s, done, d == n || (d in done && s.visit[d]), d, fn.blks[d].phis, n);
    }
  }

  class Trimmer {
    const fn: Fn
    const s: Sol
    const blk: array<Blk>

    ghost predicate Valid()
      reads this, blk
    {
      Solved(fn, s) && blk.Length == |fn.blks|
    }

    constructor (f: Fn, sol: Sol)
      requires Solved(f, sol)
      ensures Valid() && fn == f && s == sol && fresh(blk) && blk[..] == f.blks
    {
      fn, s := f, sol;
      blk := new Blk[|f.blks|](n requires 0 <= n < |f.blks| => f.blks[n]);
    }

    method CutPhis(d: nat, n: nat)
      requires Valid() && d < blk.Length && forall p :: 0 <= p < |blk[d].phis| ==> HasArg(blk[d].phis[p], n)
      modifies blk
      ensures blk[..] == old(blk[..])[d := old(blk[d]).(phis := DelPhis(old(blk[d]).phis, n))]
    {
      var phis := [];
      var p := 0;
      while p < |blk[d].phis|
        invariant 0 <= p <= |blk[d].phis| && phis == DelPhis(blk[d].phis[..p], n)
        invariant blk[..] == old(blk[..])
      {
        var args := blk[d].phis[p].args;
        assert HasArg(blk[d].phis[p], n);
        var a := 0;
        while args[a].blk != n
          invariant 0 <= a < |args| && forall x :: 0 <= x < a ==> args[x].blk != n
          decreases |args| - a
        {
          a := a + 1;
        }
        CutArg(args, n, a);
        assert blk[d].phis[..p + 1] == blk[d].phis[..p] + [blk[d].phis[p]];
        phis := phis + [blk[d].phis[p].(args := args[..a] + args[a + 1..])];
        p := p + 1;
      }
      assert blk[d].phis[..p] == blk[d].phis;
      blk[d] := blk[d].(phis := phis);
    }

    /** Deletes one of the two edges of block n. */
    method EdgeDel(n: nat, second: bool)
      requires Valid() && n < blk.Length
      requires ArgsThere(blk[..], if second then blk[n].s2 else blk[n].s1, n)
      modifies blk
      ensures blk[..] == DelEdge(old(blk[..]), n, second)
    {
      var d := if second then blk[n].s2 else blk[n].s1;
      var mult := blk[n].s1 == blk[n].s2;
      blk[n] := SetSucc(blk[n], second);
      assert blk[..] == old(blk[..])[n := SetSucc(old(blk[n]), second)];
      if d < 0 || d >= blk.Length || mult {
        return;
      }
      assert ArgsThere(old(blk[..]), d, n);
      CutPhis(d, n);
    }

    /** Puts constants in place in the phis of a block, and removes the phis that are constant. */
    method TrimPhis(n: nat)
      requires Valid() && n < blk.Length
      requires forall p, a :: 0 <= p < |blk[n].phis| && 0 <= a < |blk[n].phis[p].args| ==> blk[n].phis[p].args[a].blk < |fn.blks|
      modifies blk
      ensures blk[..] == old(blk[..])[n := old(blk[n]).(phis := RenamePhis(fn, s, n, old(blk[n]).phis))]
    {
      var phis := [];
      var p := 0;
      while p < |blk[n].phis|
        invariant 0 <= p <= |blk[n].phis| && phis == RenamePhis(fn, s, n, blk[n].phis[..p])
        invariant blk[..] == old(blk[..])
      {
        var phi := blk[n].phis[p];
        assert blk[n].phis[..p + 1][..p] == blk[n].phis[..p];
        if !Constant(s, phi.to) {
          var args := [];
          var a := 0;
          while a < |phi.args|
            invariant 0 <= a <= |phi.args| && args == RenameArgs(fn, s, n, phi.args[..a])
            invariant blk[..] == old(blk[..])
          {
            var arg := phi.args[a];
            assert phi.args[..a + 1][..a] == phi.args[..a];
            args := args + [if DeadEdge(fn, s, arg.blk, n) then arg else PhiArg(arg.blk, RenRef(s, arg.arg))];
            a := a + 1;
          }
          assert phi.args[..a] == phi.args;
          phis := phis + [phi.(args := args)];
        }
        p := p + 1;
      }
      assert blk[n].phis[..p] == blk[n].phis;
      blk[n] := blk[n].(phis := phis);
    }

    method TrimInss(n: nat)
      requires Valid() && n < blk.Length
      modifies blk
      ensures blk[..] == old(blk[..])[n := old(blk[n]).(ins := RewriteInss(s, old(blk[n]).ins))]
    {
      var ins := [];
      var i := 0;
      while i < |blk[n].ins|
        invariant 0 <= i <= |blk[n].ins| && ins == RewriteInss(s, blk[n].ins[..i])
        invariant blk[..] == old(blk[..])
      {
        ins := ins + [RewriteIns(s, blk[n].ins[i])];
        i := i + 1;
      }
      assert blk[n].ins[..i] == blk[n].ins;
      blk[n] := blk[n].(ins := ins);
    }

    method TrimBranch(n: nat)
      requires Valid() && n < blk.Length && ArgsThere(blk[..], blk[n].s1, n) && ArgsThere(blk[..], blk[n].s2, n)
      modifies blk
      ensures blk[..] == TrimJump(s, old(blk[..]), n)
    {
      match blk[n].jmp
      case Jmp =>
      case Ret(wide, v) =>
        blk[n] := blk[n].(jmp := Ret(wide, RenRef(s, v)));
      case Jnz(a) =>
        var r := RenRef(s, a);
        if !r.RCon? || r.c >= |s.con| {
          blk[n] := blk[n].(jmp := Jnz(r));
        } else if IsCon(s.con[r.c], false, 0) {
          EdgeDel(n, false);
          ghost var cut := blk[..];
          blk[n] := blk[n].(s1 := blk[n].s2, s2 := -1, jmp := Jmp);
          assert blk[..] == cut[n := cut[n].(s1 := cut[n].s2, s2 := -1, jmp := Jmp)];
        } else {
          EdgeDel(n, true);
          ghost var cut := blk[..];
          blk[n] := blk[n].(jmp := Jmp);
          assert blk[..] == cut[n := cut[n].(jmp := Jmp)];
        }
    }

    /** A block that has been visited: constants are put in place, and one edge
        goes if the branch is on a constant. */
    method KeepVisited(n: nat, ghost done: set<nat>)
      requires Valid() && n < blk.Length && s.visit[n] && n !in done && Parts(fn, s, blk[..], done, done)
      modifies blk
      ensures Parts(fn, s, blk[..], done + {n}, done + {n})
    {
      hide RenamePhis, RewriteInss, DelEdge;
      ghost var was := blk[..];
      KeepBlock(fn, s, was, done, n);
      BranchPhis(fn, s, was, done, n);
      TrimPhis(n);
      TrimInss(n);
      assert blk[..] == was[n := TrimBody(fn, s, was[n], n)];
      TrimBranch(n);
    }

    /** A block that has not been visited loses its edges. */
    method DropUnvisited(n: nat, ghost done: set<nat>)
      requires Valid() && n < blk.Length && !s.visit[n] && n !in done && Parts(fn, s, blk[..], done, done)
      modifies blk
      ensures Parts(fn, s, blk[..], done + {n}, done + {n})
    {
      hide DelEdge;
      ghost var was := blk[..];
      DropBlock(fn, s, was, done, n);
      DropPhis(fn, s, was, done, n);
      EdgeDel(n, false);
      EdgeDel(n, true);
    }

    /** The whole pass over the list of blocks: the blocks that have not been visited are
        unlinked, and what is left are the blocks of the rewritten function. */
    method Trim(order: seq<nat>) returns (kept: seq<nat>)
      requires Valid() && blk[..] == fn.blks
      requires Distinct(order) && (forall m :: m in order ==> m < |fn.blks|) && forall m: nat :: m < |fn.blks| ==> m in order
      modifies blk
      ensures Valid() && Trimmed(fn, s, blk[..]) && kept == Kept(order, s.visit)
    {
      hide Parts, Trimmed;
      kept := [];
      ghost var done := {};
      NothingHandled(fn, s);
      var i := 0;
      while i < |order|
        invariant 0 <= i <= |order| && Valid() && |s.visit| == |fn.blks| && kept == Kept(order[..i], s.visit)
        invariant done == set m | m in order[..i]
        invariant Parts(fn, s, blk[..], done, done)
      {
        var n := order[i];
        assert order[i] in order && order[i] !in order[..i];
        assert order[..i + 1][..i] == order[..i];
        if s.visit[n] {
          KeepVisited(n, done);
          kept := kept + [n];
        } else {
          DropUnvisited(n, done);
        }
        done := done + {n};
        i := i + 1;
      }
      assert order[..i] == order;
      AllHandled(fn, s, blk[..], done);
    }
  }
}
