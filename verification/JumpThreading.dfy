/** Jump threading (simpljmp and uffind in lib/qbe-1.0/cfg.c): jumps to blocks
    that do nothing but jump are redirected to where those lead. Blocks are named
    by their place in the block list; null is -1. */
module JumpThreading {

  datatype Jump = Jmp | Cond | Ret0 | RetVal(kind: int)

  datatype Blk = Blk(ins: seq<nat>, jmp: Jump, s1: int, s2: int)

  ghost predicate WellFormed(blks: seq<Blk>) {
    blks != [] && forall b :: 0 <= b < |blks| ==> BlkOk(blks, b)
  }

  predicate BlkOk(blks: seq<Blk>, b: nat)
    requires b < |blks|
  {
    match blks[b].jmp
    case Jmp => 0 <= blks[b].s1 < |blks| && blks[b].s2 == -1
    case Cond => 0 <= blks[b].s1 < |blks| && 0 <= blks[b].s2 < |blks|
    case _ => blks[b].s1 == -1 && blks[b].s2 == -1
  }

  // ----- Running -----

  /** Which way a block branches, given all the instructions executed so far. */
  type Choice = (nat, seq<nat>) -> bool

  datatype State = At(b: nat, trace: seq<nat>) | Done(how: Jump, trace: seq<nat>)

  function Step(blks: seq<Blk>, choose: Choice, s: State): State {
    if s.Done? || s.b >= |blks| then s
    else
      var blk := blks[s.b];
      var t := s.trace + blk.ins;
      match blk.jmp
      case Jmp => Go(blk.s1, t)
      case Cond => Go(if choose(s.b, t) then blk.s1 else blk.s2, t)
      case how => Done(how, t)
  }

  function Go(d: int, t: seq<nat>): State {
    if d < 0 then Done(Jmp, t) else At(d, t)
  }

  function Run(blks: seq<Blk>, choose: Choice, k: nat): State {
    if k == 0 then At(0, []) else Step(blks, choose, Run(blks, choose, k - 1))
  }

  /** Whatever one run has done at some point the other one has done at some point:
      the same instructions, and, if it has returned, the same return. */
  ghost predicate Covers(blks: seq<Blk>, blks': seq<Blk>, choose: Choice) {
    forall k: nat :: Covered(Run(blks, choose, k), blks', choose)
  }

  ghost predicate Covered(s: State, blks': seq<Blk>, choose: Choice) {
    exists k: nat :: SeenIn(s, Run(blks', choose, k))
  }

  predicate SeenIn(s: State, s': State) {
    s.trace == s'.trace && (s.Done? ==> s' == s)
  }

  // ----- A single return block -----

  /** Block b with a plain return replaced by a jump to the return block. */
  function ToRet(b: Blk, ret: nat): Blk {
    if b.jmp == Ret0 then b.(jmp := Jmp, s1 := ret) else b
  }

  function WithRet(blks: seq<Blk>): seq<Blk> {
    seq(|blks|, b requires 0 <= b < |blks| => ToRet(blks[b], |blks|)) + [Blk([], Ret0, -1, -1)]
  }

  lemma WithRetOk(blks: seq<Blk>)
    requires WellFormed(blks)
    ensures WellFormed(WithRet(blks))
  {
    forall b: nat | b <= |blks|
      ensures BlkOk(WithRet(blks), b)
    {
      if b < |blks| {
        assert BlkOk(blks, b);
      }
    }
  }

  /** The run with the return block is at most one step behind. */
  predicate OneBehind(n: nat, s: State, s': State) {
    s' == s || (s.Done? && s.how == Ret0 && s' == At(n, s.trace))
  }

  predicate InRange(blks: seq<Blk>, s: State) {
    s.At? ==> s.b < |blks|
  }

  lemma {:induction false} RetRuns(blks: seq<Blk>, choose: Choice, k: nat)
    requires WellFormed(blks)
    ensures InRange(blks, Run(blks, choose, k))
    ensures OneBehind(|blks|, Run(blks, choose, k), Run(WithRet(blks), choose, k))
  {
    if k > 0 {
      RetRuns(blks, choose, k - 1);
      var s := Run(blks, choose, k - 1);
      if s.At? {
        assert BlkOk(blks, s.b);
      }
    }
  }

  // ----- Silent steps -----

  /** A block that only jumps. */
  predicate Empty(g: seq<Blk>, b: nat) {
    b < |g| && g[b].ins == [] && g[b].jmp == Jmp
  }

  /** The block n silent steps after b; -1 if there are fewer. */
  function Skip(g: seq<Blk>, b: int, n: nat): int
    decreases n
  {
    if n == 0 then b
    else if b < 0 || !Empty(g, b) then -1
    else Skip(g, g[b].s1, n - 1)
  }

  ghost predicate Leads(g: seq<Blk>, b: nat, r: nat) {
    exists n: nat :: n > 0 && Skip(g, b, n) == r
  }

  lemma {:induction false} SkipFurther(g: seq<Blk>, b: int, n: nat, m: nat)
    requires Skip(g, b, n) >= 0
    ensures Skip(g, b, n + m) == Skip(g, Skip(g, b, n), m)
    decreases n
  {
    if n > 0 {
      SkipFurther(g, g[b].s1, n - 1, m);
    }
  }

  lemma LeadsFurther(g: seq<Blk>, b: nat, c: nat, d: nat)
    requires Leads(g, b, c) && Leads(g, c, d)
    ensures Leads(g, b, d)
  {
    var n: nat :| n > 0 && Skip(g, b, n) == c;
    var m: nat :| m > 0 && Skip(g, c, m) == d;
    SkipFurther(g, b, n, m);
    assert Skip(g, b, n + m) == d;
  }

  // ----- The union-find forest -----

  /** The first i blocks may be linked; a chain of links goes up the list, except
      perhaps for the last one. */
  ghost predicate Forest(uf: seq<int>, i: nat) {
    forall b {:trigger LinkOk(uf, i, b)} :: 0 <= b < |uf| ==> LinkOk(uf, i, b)
  }

  predicate LinkOk(uf: seq<int>, i: nat, b: nat)
    requires b < |uf|
  {
    -1 <= uf[b] < |uf| && (uf[b] >= 0 ==> b < i && (uf[uf[b]] >= 0 ==> b < uf[b]))
  }

  function Height(uf: seq<int>, b: nat): nat
    requires b < |uf|
  {
    if uf[b] < 0 then 0 else |uf| - b
  }

  ghost function Root(uf: seq<int>, i: nat, b: nat): (r: nat)
    requires Forest(uf, i) && b < |uf|
    ensures r < |uf| && uf[r] < 0
    decreases Height(uf, b)
  {
    assert LinkOk(uf, i, b);
    if uf[b] < 0 then b else Root(uf, i, uf[b])
  }

  ghost predicate SameRoots(uf: seq<int>, uf': seq<int>, i: nat)
    requires Forest(uf, i)
  {
    && |uf'| == |uf| && Forest(uf', i)
    && (forall x :: 0 <= x < |uf| ==> (uf[x] < 0 <==> uf'[x] < 0))
    && forall x :: 0 <= x < |uf| ==> Root(uf', i, x) == Root(uf, i, x)
  }

  lemma Compress(uf: seq<int>, i: nat, c: nat)
    requires Forest(uf, i) && c < |uf| && uf[c] >= 0
    ensures SameRoots(uf, uf[c := Root(uf, i, c)], i)
  {
    var uf' := uf[c := Root(uf, i, c)];
    assert LinkOk(uf, i, c);
    forall b: nat | b < |uf|
      ensures LinkOk(uf', i, b)
    {
      assert LinkOk(uf, i, b);
    }
    forall x: nat | x < |uf|
      ensures Root(uf', i, x) == Root(uf, i, x)
    {
      CompressRoot(uf, i, c, x);
    }
  }

  lemma {:induction false} CompressRoot(uf: seq<int>, i: nat, c: nat, x: nat)
    requires Forest(uf, i) && c < |uf| && uf[c] >= 0 && x < |uf|
    requires Forest(uf[c := Root(uf, i, c)], i)
    ensures Root(uf[c := Root(uf, i, c)], i, x) == Root(uf, i, x)
    decreases Height(uf, x)
  {
    assert LinkOk(uf, i, x);
    if uf[x] >= 0 && x != c {
      CompressRoot(uf, i, c, uf[x]);
    }
  }

  /** Linking root i to another root keeps the forest acyclic. */
  lemma Link(uf: seq<int>, i: nat, r: nat)
    requires Forest(uf, i) && i < |uf| && r < |uf| && uf[r] < 0 && uf[i] < 0 && r != i
    ensures Forest(uf[i := r], i + 1)
    ensures forall x :: 0 <= x < |uf| ==> Root(uf[i := r], i + 1, x) == if Root(uf, i, x) == i then r else Root(uf, i, x)
  {
    var uf', j := uf[i := r], i + 1;
    forall b: nat | b < |uf|
      ensures LinkOk(uf', j, b)
    {
      assert LinkOk(uf, i, b);
    }
    forall x: nat | x < |uf|
      ensures Root(uf', i + 1, x) == if Root(uf, i, x) == i then r else Root(uf, i, x)
    {
      LinkRoot(uf, i, r, x);
    }
  }

  lemma {:induction false} LinkRoot(uf: seq<int>, i: nat, r: nat, x: nat)
    requires Forest(uf, i) && i < |uf| && r < |uf| && uf[r] < 0 && uf[i] < 0 && r != i && x < |uf|
    requires Forest(uf[i := r], i + 1)
    ensures Root(uf[i := r], i + 1, x) == if Root(uf, i, x) == i then r else Root(uf, i, x)
    decreases Height(uf, x)
  {
    assert LinkOk(uf, i, x);
    if uf[x] >= 0 {
      LinkRoot(uf, i, r, uf[x]);
    }
  }

  lemma {:induction false} Later(uf: seq<int>, i: nat, x: nat)
    requires Forest(uf, i) && x < |uf|
    ensures Forest(uf, i + 1) && Root(uf, i + 1, x) == Root(uf, i, x)
    decreases Height(uf, x)
  {
    var j := i + 1;
    forall b: nat | b < |uf|
      ensures LinkOk(uf, j, b)
    {
      assert LinkOk(uf, i, b);
    }
    assert LinkOk(uf, i, x);
    if uf[x] >= 0 {
      Later(uf, i, uf[x]);
    }
  }

  // ----- What the forest says about the function -----

  /** Every block silently leads to its root, and an empty block among the first i
      that is a root leads back to itself. */
  ghost predicate Sound(g: seq<Blk>, uf: seq<int>, i: nat) {
    && |uf| == |g| && Forest(uf, i)
    && (forall b :: 0 <= b < |g| ==> ToRoot(g, uf, i, b))
    && forall b :: 0 <= b < i && b < |g| && Empty(g, b) && uf[b] < 0 ==> BackToItself(g, uf, i, b)
  }

  ghost predicate ToRoot(g: seq<Blk>, uf: seq<int>, i: nat, b: nat)
    requires |uf| == |g| && Forest(uf, i) && b < |g|
  {
    Root(uf, i, b) == b || Leads(g, b, Root(uf, i, b))
  }

  ghost predicate BackToItself(g: seq<Blk>, uf: seq<int>, i: nat, b: nat)
    requires |uf| == |g| && Forest(uf, i) && b < |g|
  {
    0 <= g[b].s1 < |g| && Root(uf, i, g[b].s1) == b
  }

  lemma SoundStays(g: seq<Blk>, uf: seq<int>, uf': seq<int>, i: nat)
    requires Sound(g, uf, i) && SameRoots(uf, uf', i)
    ensures Sound(g, uf', i)
  {
    forall b: nat | b < |g|
      ensures ToRoot(g, uf', i, b)
    {
      assert ToRoot(g, uf, i, b);
    }
    forall b: nat | b < i && b < |g| && Empty(g, b) && uf'[b] < 0
      ensures BackToItself(g, uf', i, b)
    {
      assert BackToItself(g, uf, i, b);
    }
  }

  lemma SoundLink(g: seq<Blk>, uf: seq<int>, i: nat)
    requires WellFormed(g) && Sound(g, uf, i) && i < |g| && Empty(g, i) && uf[i] < 0
    ensures 0 <= g[i].s1 < |g|
    ensures var r := Root(uf, i, g[i].s1); Sound(g, if r == i then uf else uf[i := r], i + 1)
  {
    assert BlkOk(g, i);
    var r := Root(uf, i, g[i].s1);
    var uf', j := if r == i then uf else uf[i := r], i + 1;
    LinkEither(uf, i, r);
    assert ToRoot(g, uf, i, g[i].s1);
    assert Leads(g, i, r) by {
      assert Skip(g, i, 1) == g[i].s1;
      assert Leads(g, i, g[i].s1);
      if r != g[i].s1 {
        LeadsFurther(g, i, g[i].s1, r);
      }
    }
    forall b: nat | b < |g|
      ensures ToRoot(g, uf', j, b)
    {
      assert ToRoot(g, uf, i, b);
      if Root(uf, i, b) == i && b != i && r != i {
        LeadsFurther(g, b, i, r);
      }
    }
    forall b: nat | b < j && b < |g| && Empty(g, b) && uf'[b] < 0
      ensures BackToItself(g, uf', j, b)
    {
      if b < i {
        assert BackToItself(g, uf, i, b);
      }
    }
  }

  lemma LinkEither(uf: seq<int>, i: nat, r: nat)
    requires Forest(uf, i) && i < |uf| && r < |uf| && uf[r] < 0 && uf[i] < 0
    ensures var uf' := if r == i then uf else uf[i := r];
      && Forest(uf', i + 1)
      && forall x :: 0 <= x < |uf| ==> Root(uf', i + 1, x) == if Root(uf, i, x) == i then r else Root(uf, i, x)
  {
    if r == i {
      Later(uf, i, i);
      forall x: nat | x < |uf|
        ensures Forest(uf, i + 1) && Root(uf, i + 1, x) == Root(uf, i, x)
      {
        Later(uf, i, x);
      }
    } else {
      Link(uf, i, r);
    }
  }

  lemma SoundSkip(g: seq<Blk>, uf: seq<int>, i: nat)
    requires Sound(g, uf, i) && i < |g| && !Empty(g, i)
    ensures Sound(g, uf, i + 1) && forall x :: 0 <= x < |g| ==> Root(uf, i + 1, x) == Root(uf, i, x)
  {
    var j := i + 1;
    Later(uf, i, 0);
    forall x: nat | x < |g|
      ensures Root(uf, i + 1, x) == Root(uf, i, x)
    {
      Later(uf, i, x);
    }
    forall b: nat | b < |g|
      ensures ToRoot(g, uf, j, b)
    {
      assert ToRoot(g, uf, i, b);
    }
    forall b: nat | b < j && b < |g| && Empty(g, b) && uf[b] < 0
      ensures BackToItself(g, uf, j, b)
    {
      assert BackToItself(g, uf, i, b);
    }
  }

  // ----- The threaded function -----

  ghost function NewSucc(g: seq<Blk>, uf: seq<int>, d: int): int
    requires |uf| == |g| && Forest(uf, |g|) && d < |g|
  {
    if d < 0 then d else Root(uf, |g|, d)
  }

  /** Two branches to the same block become one jump. */
  function Collapse(b: Blk): Blk {
    if b.s1 >= 0 && b.s1 == b.s2 then b.(jmp := Jmp, s2 := -1) else b
  }

  ghost function ThreadedBlk(g: seq<Blk>, uf: seq<int>, b: nat): Blk
    requires WellFormed(g) && |uf| == |g| && Forest(uf, |g|) && b < |g|
  {
    assert BlkOk(g, b);
    Collapse(g[b].(s1 := NewSucc(g, uf, g[b].s1), s2 := NewSucc(g, uf, g[b].s2)))
  }

  ghost predicate Threaded(g: seq<Blk>, uf: seq<int>, h: seq<Blk>) {
    && WellFormed(g) && Sound(g, uf, |g|) && |h| == |g|
    && forall b :: 0 <= b < |g| ==> h[b] == ThreadedBlk(g, uf, b)
  }

  /** The original run is n silent steps away from the threaded one. */
  predicate Sim(g: seq<Blk>, s: State, s': State, n: nat) {
    match s
    case Done(_, _) => s' == s
    case At(b, t) => s'.At? && s'.trace == t && s'.b < |g| && Skip(g, b, n) == s'.b
  }

  lemma SilentStep(g: seq<Blk>, choose: Choice, s: State, s': State, n: nat)
    requires WellFormed(g) && Sim(g, s, s', n) && n > 0
    ensures Sim(g, Step(g, choose, s), s', n - 1)
  {
    if s.At? {
      assert Empty(g, s.b) && BlkOk(g, s.b);
      assert s.trace + [] == s.trace;
    }
  }

  /** From the same block both runs do the same, up to silent steps. */
  lemma BothStep(g: seq<Blk>, uf: seq<int>, h: seq<Blk>, choose: Choice, s: State, s': State) returns (n: nat)
    requires Threaded(g, uf, h) && Sim(g, s, s', 0)
    ensures Sim(g, Step(g, choose, s), Step(h, choose, s'), n)
  {
    var s1, s1' := Step(g, choose, s), Step(h, choose, s');
    if s.At? {
      assert BlkOk(g, s.b) && h[s.b] == ThreadedBlk(g, uf, s.b);
      if s1.At? {
        n := Distance(g, uf, s1.b);
        assert s1' == At(Root(uf, |g|, s1.b), s1.trace);
        return;
      }
    }
    n := 0;
  }

  /** How many silent steps a block is away from its root. */
  lemma Distance(g: seq<Blk>, uf: seq<int>, b: nat) returns (n: nat)
    requires Sound(g, uf, |g|) && b < |g|
    ensures Skip(g, b, n) == Root(uf, |g|, b)
  {
    assert ToRoot(g, uf, |g|, b);
    if Root(uf, |g|, b) == b {
      n := 0;
    } else {
      n :| n > 0 && Skip(g, b, n) == Root(uf, |g|, b);
    }
  }

  lemma {:induction false} Follow(g: seq<Blk>, uf: seq<int>, h: seq<Blk>, choose: Choice, k: nat) returns (k': nat, n: nat)
    requires Threaded(g, uf, h)
    ensures Sim(g, Run(g, choose, k), Run(h, choose, k'), n)
  {
    if k == 0 {
      k', n := 0, 0;
    } else {
      k', n := Follow(g, uf, h, choose, k - 1);
      if n > 0 {
        SilentStep(g, choose, Run(g, choose, k - 1), Run(h, choose, k'), n);
        n := n - 1;
      } else {
        n := BothStep(g, uf, h, choose, Run(g, choose, k - 1), Run(h, choose, k'));
        k' := k' + 1;
      }
    }
  }

  lemma {:induction false} CatchUp(g: seq<Blk>, choose: Choice, k: nat, s': State, n: nat)
    requires WellFormed(g) && Sim(g, Run(g, choose, k), s', n)
    ensures Sim(g, Run(g, choose, k + n), s', 0)
    decreases n
  {
    if n > 0 {
      SilentStep(g, choose, Run(g, choose, k), s', n);
      CatchUp(g, choose, k + 1, s', n - 1);
    }
  }

  lemma {:induction false} FollowBack(g: seq<Blk>, uf: seq<int>, h: seq<Blk>, choose: Choice, k': nat) returns (k: nat)
    requires Threaded(g, uf, h)
    ensures Sim(g, Run(g, choose, k), Run(h, choose, k'), 0)
  {
    if k' == 0 {
      k := 0;
    } else {
      k := FollowBack(g, uf, h, choose, k' - 1);
      var n := BothStep(g, uf, h, choose, Run(g, choose, k), Run(h, choose, k' - 1));
      CatchUp(g, choose, k + 1, Run(h, choose, k'), n);
      k := k + 1 + n;
    }
  }

  /** The main result: with the same decisions, the original and the threaded
      function execute the same instructions, and one returns if and only if the other does. */
  lemma SameBehaviour(blks: seq<Blk>, uf: seq<int>, h: seq<Blk>, choose: Choice)
    requires WellFormed(blks) && Threaded(WithRet(blks), uf, h)
    ensures Covers(blks, h, choose) && Covers(h, blks, choose)
  {
    var g := WithRet(blks);
    forall k: nat
      ensures Covered(Run(blks, choose, k), h, choose)
    {
      RetRuns(blks, choose, k);
      var s := Run(blks, choose, k);
      var k', n := Follow(g, uf, h, choose, if Run(g, choose, k) == s then k else k + 1);
      if Run(g, choose, k) != s {
        assert s.trace + [] == s.trace;
        assert Run(g, choose, k + 1) == s;
      }
      assert SeenIn(s, Run(h, choose, k'));
    }
    forall k': nat
      ensures Covered(Run(h, choose, k'), blks, choose)
    {
      var k := FollowBack(g, uf, h, choose, k');
      RetRuns(blks, choose, k);
      assert SeenIn(Run(h, choose, k'), Run(blks, choose, k));
    }
  }

  /** No detour is left: nothing leads to a block that only jumped, unless that block jumps to itself. */
  lemma NoDetours(g: seq<Blk>, uf: seq<int>, h: seq<Blk>, b: nat, c: nat)
    requires Threaded(g, uf, h) && b < |g| && c < |g| && (h[b].s1 == c || h[b].s2 == c) && Empty(g, c)
    ensures h[c].jmp == Jmp && h[c].s1 == c && h[c].ins == []
  {
    assert BlkOk(g, b) && BlkOk(g, c);
    assert h[b] == ThreadedBlk(g, uf, b) && h[c] == ThreadedBlk(g, uf, c);
    assert uf[c] < 0;
    assert BackToItself(g, uf, |g|, c);
  }

  // ----- What is left, in terms of the original blocks -----

  /** Block b does nothing but go on with c, which may be the new return block. */
  predicate Silent(blks: seq<Blk>, b: nat, c: nat) {
    b < |blks| && blks[b].ins == [] && ((blks[b].jmp == Jmp && blks[b].s1 == c) || (blks[b].jmp == Ret0 && c == |blks|))
  }

  ghost predicate SilentPath(blks: seq<Blk>, p: seq<nat>, b: nat, c: nat) {
    && p != [] && p[0] == b && p[|p| - 1] == c
    && forall i, j :: 0 <= i < j < |p| && j == i + 1 ==> Silent(blks, p[i], p[j])
  }

  ghost predicate Comes(blks: seq<Blk>, b: nat, c: nat) {
    exists p :: SilentPath(blks, p, b, c)
  }

  /** Where block d silently ends up: at a block that does something, or that leads only back to itself. */
  ghost predicate EndsAt(blks: seq<Blk>, d: int, r: int) {
    d >= 0 && r >= 0 && Comes(blks, d, r) && forall c: nat :: Silent(blks, r, c) ==> Comes(blks, c, r)
  }

  /** Branches lead to the ends; two branches to one block are a jump; plain returns are jumps to the return block. */
  ghost predicate JumpSimplified(blks: seq<Blk>, b: Blk, b': Blk) {
    match b.jmp
    case Jmp => b'.jmp == Jmp && EndsAt(blks, b.s1, b'.s1) && b'.s2 == -1
    case Cond =>
      exists r, r' :: EndsAt(blks, b.s1, r) && EndsAt(blks, b.s2, r') &&
        if r == r' then b'.jmp == Jmp && b'.s1 == r && b'.s2 == -1 else b'.jmp == Cond && b'.s1 == r && b'.s2 == r'
    case Ret0 => b'.jmp == Jmp && b'.s1 == |blks| && b'.s2 == -1
    case RetVal(_) => b'.jmp == b.jmp && b'.s1 == -1 && b'.s2 == -1
  }

  /** The blocks with their instructions, and a return block that they share. */
  ghost predicate Simplified(blks: seq<Blk>, h: seq<Blk>) {
    && |h| == |blks| + 1 && h[|blks|] == Blk([], Ret0, -1, -1)
    && forall b :: 0 <= b < |blks| ==> h[b].ins == blks[b].ins && JumpSimplified(blks, blks[b], h[b])
  }

  lemma SilentIsEmpty(blks: seq<Blk>, b: nat, c: nat)
    requires WellFormed(blks) && b <= |blks|
    ensures Silent(blks, b, c) <==> Empty(WithRet(blks), b) && WithRet(blks)[b].s1 == c
  {
    if b < |blks| {
      assert BlkOk(blks, b);
    }
  }

  lemma {:induction false} SkipComes(blks: seq<Blk>, b: nat, n: nat)
    requires WellFormed(blks) && b <= |blks| && Skip(WithRet(blks), b, n) >= 0
    ensures Comes(blks, b, Skip(WithRet(blks), b, n))
    decreases n
  {
    var g := WithRet(blks);
    if n == 0 {
      assert SilentPath(blks, [b], b, b);
    } else {
      WithRetOk(blks);
      assert BlkOk(g, b);
      var c := g[b].s1;
      SilentIsEmpty(blks, b, c);
      SkipComes(blks, c, n - 1);
      var r := Skip(g, c, n - 1);
      var p :| SilentPath(blks, p, c, r);
      assert SilentPath(blks, [b] + p, b, r) by {
        var q := [b] + p;
        forall i, j | 0 <= i < j < |q| && j == i + 1
          ensures Silent(blks, q[i], q[j])
        {
          if i > 0 {
            assert q[i] == p[i - 1] && q[j] == p[j - 1];
          }
        }
      }
    }
  }

  lemma RootEnds(blks: seq<Blk>, uf: seq<int>, d: nat)
    requires WellFormed(blks) && Sound(WithRet(blks), uf, |blks| + 1) && d <= |blks|
    ensures EndsAt(blks, d, Root(uf, |blks| + 1, d))
  {
    var g := WithRet(blks);
    var r := Root(uf, |g|, d);
    RootComes(blks, uf, d);
    forall c: nat | Silent(blks, r, c)
      ensures Comes(blks, c, r)
    {
      SilentIsEmpty(blks, r, c);
      assert BackToItself(g, uf, |g|, r);
      RootComes(blks, uf, c);
    }
  }

  lemma RootComes(blks: seq<Blk>, uf: seq<int>, d: nat)
    requires WellFormed(blks) && Sound(WithRet(blks), uf, |blks| + 1) && d <= |blks|
    ensures Comes(blks, d, Root(uf, |blks| + 1, d))
  {
    var g := WithRet(blks);
    assert ToRoot(g, uf, |g|, d);
    if Root(uf, |g|, d) == d {
      assert SilentPath(blks, [d], d, d);
    } else {
      var n: nat :| n > 0 && Skip(g, d, n) == Root(uf, |g|, d);
      SkipComes(blks, d, n);
    }
  }

  lemma ReturnIsRoot(blks: seq<Blk>, uf: seq<int>)
    requires WellFormed(blks) && Sound(WithRet(blks), uf, |blks| + 1)
    ensures Root(uf, |blks| + 1, |blks|) == |blks|
  {
    assert ToRoot(WithRet(blks), uf, |blks| + 1, |blks|);
  }

  lemma ThreadedSimplified(blks: seq<Blk>, uf: seq<int>, h: seq<Blk>)
    requires WellFormed(blks) && Threaded(WithRet(blks), uf, h)
    ensures Simplified(blks, h)
  {
    var g := WithRet(blks);
    assert h[|blks|] == ThreadedBlk(g, uf, |blks|);
    forall b: nat | b < |blks|
      ensures h[b].ins == blks[b].ins && JumpSimplified(blks, blks[b], h[b])
    {
      assert h[b] == ThreadedBlk(g, uf, b);
      BlkSimplified(blks, uf, b);
    }
  }

  lemma BlkSimplified(blks: seq<Blk>, uf: seq<int>, b: nat)
    requires WellFormed(blks) && WellFormed(WithRet(blks)) && Sound(WithRet(blks), uf, |blks| + 1) && b < |blks|
    ensures var b' := ThreadedBlk(WithRet(blks), uf, b); b'.ins == blks[b].ins && JumpSimplified(blks, blks[b], b')
  {
    hide Root, EndsAt, Forest;
    assert BlkOk(blks, b);
    match blks[b].jmp
    case Jmp => RootEnds(blks, uf, blks[b].s1);
    case Cond =>
      RootEnds(blks, uf, blks[b].s1);
      RootEnds(blks, uf, blks[b].s2);
    case Ret0 => ReturnIsRoot(blks, uf);
    case RetVal(_) =>
  }

  // ----- The code -----

  /** The block as it is after the first loop: an empty one may have been
      redirected already, but within its tree. */
  ghost predicate Forwarded(g: seq<Blk>, uf: seq<int>, i: nat, b: nat, blk: Blk)
    requires |uf| == |g| && Forest(uf, i) && b < |g|
  {
    && blk == g[b].(s1 := blk.s1)
    && (blk.s1 != g[b].s1 ==>
          0 <= blk.s1 < |g| && 0 <= g[b].s1 < |g| && Root(uf, i, blk.s1) == Root(uf, i, g[b].s1))
  }

  /** The first i blocks are done. */
  ghost predicate Upto(g: seq<Blk>, uf: seq<int>, blk: seq<Blk>, i: nat) {
    && WellFormed(g) && |blk| == |g| && i <= |g| && Sound(g, uf, i)
    && forall b :: 0 <= b < i ==> Forwarded(g, uf, i, b, blk[b])
  }

  lemma UptoStays(g: seq<Blk>, uf: seq<int>, uf': seq<int>, blk: seq<Blk>, i: nat)
    requires Upto(g, uf, blk, i) && SameRoots(uf, uf', i)
    ensures Upto(g, uf', blk, i)
  {
    SoundStays(g, uf, uf', i);
    forall b: nat | b < i
      ensures Forwarded(g, uf', i, b, blk[b])
    {
      assert Forwarded(g, uf, i, b, blk[b]);
    }
  }

  lemma UptoNext(g: seq<Blk>, uf: seq<int>, blk: seq<Blk>, i: nat)
    requires Upto(g, uf, blk, i) && i < |g| && blk[i] == g[i] && uf[i] < 0
    ensures !Empty(g, i) ==> Upto(g, uf, blk, i + 1)
    ensures Empty(g, i) ==>
      && 0 <= g[i].s1 < |g|
      && var r := Root(uf, i, g[i].s1);
         Upto(g, if r == i then uf else uf[i := r], blk[i := g[i].(s1 := r)], i + 1)
  {
    var j := i + 1;
    if Empty(g, i) {
      assert BlkOk(g, i);
      var r := Root(uf, i, g[i].s1);
      var uf', blk' := if r == i then uf else uf[i := r], blk[i := g[i].(s1 := r)];
      SoundLink(g, uf, i);
      LinkEither(uf, i, r);
      forall b: nat | b < j
        ensures Forwarded(g, uf', j, b, blk'[b])
      {
        assert b < i ==> Forwarded(g, uf, i, b, blk[b]);
      }
    } else {
      SoundSkip(g, uf, i);
      forall b: nat | b < j
        ensures Forwarded(g, uf, j, b, blk[b])
      {
        assert b < i ==> Forwarded(g, uf, i, b, blk[b]);
      }
    }
  }

  lemma SameThreaded(g: seq<Blk>, uf: seq<int>, uf': seq<int>, b: nat)
    requires WellFormed(g) && |uf| == |g| && Forest(uf, |g|) && SameRoots(uf, uf', |g|) && b < |g|
    ensures ThreadedBlk(g, uf', b) == ThreadedBlk(g, uf, b)
  {
    assert BlkOk(g, b);
  }

  class Threader {
    const blk: array<Blk>
    const uf: array<int>

    /** The blocks with room for the return block, and nothing linked. */
    constructor (b: seq<Blk>)
      requires WellFormed(b)
      ensures Upto(WithRet(b), uf[..], blk[..], 0) && fresh(blk) && fresh(uf)
      ensures blk.Length == |b| + 1 && blk[|b|] == WithRet(b)[|b|]
      ensures forall x :: 0 <= x < |b| ==> blk[x] == b[x]
      ensures forall x :: 0 <= x < uf.Length ==> uf[x] == -1
    {
      var ret := Blk([], Ret0, -1, -1);
      blk := new Blk[|b| + 1](x requires 0 <= x < |b| + 1 => if x < |b| then b[x] else ret);
      uf := new int[|b| + 1](_ => -1);
      new;
      WithRetOk(b);
      forall x: nat | x <= |b|
        ensures LinkOk(uf[..], 0, x)
      {
      }
    }

    /** The root of a block. Every link on the way is redirected to the root. */
    method Find(c: nat, ghost i: nat) returns (r: nat)
      requires c < uf.Length && Forest(uf[..], i)
      modifies uf
      ensures r == Root(old(uf[..]), i, c) && SameRoots(old(uf[..]), uf[..], i)
      decreases Height(uf[..], c)
    {
      assert LinkOk(uf[..], i, c);
      if uf[c] >= 0 {
        r := Find(uf[c], i);
        Compress(uf[..], i, c);
        ghost var u := uf[..];
        uf[c] := r;
        assert uf[..] == u[c := r];
      } else {
        r := c;
      }
    }

    /** The first loop on block i: a plain return becomes a jump to the return
        block, and an empty block is linked to where it leads. */
    method Gather(i: nat, ghost g: seq<Blk>)
      requires Upto(g, uf[..], blk[..], i) && i < |g| - 1 && ToRet(blk[i], |g| - 1) == g[i] && uf[i] < 0
      modifies blk, uf
      ensures Upto(g, uf[..], blk[..], i + 1)
      ensures forall b :: i < b < blk.Length ==> blk[b] == old(blk[b]) && (uf[b] < 0 <==> old(uf[b]) < 0)
    {
      if blk[i].jmp == Ret0 {
        blk[i] := blk[i].(jmp := Jmp, s1 := blk.Length - 1);
      }
      assert Upto(g, uf[..], blk[..], i);
      UptoNext(g, uf[..], blk[..], i);
      if blk[i].ins == [] && blk[i].jmp == Jmp {
        ghost var u := uf[..];
        var r := Find(blk[i].s1, i);
        UptoStays(g, u, uf[..], blk[..], i);
        UptoNext(g, uf[..], blk[..], i);
        ghost var u', b' := uf[..], blk[..];
        blk[i] := blk[i].(s1 := r);
        if blk[i].s1 != i {
          uf[i] := blk[i].s1;
        }
        assert uf[..] == if r == i then u' else u'[i := r];
        assert blk[..] == b'[i := g[i].(s1 := r)];
      }
    }

    /** The second loop on block i: its successors are replaced by their roots. */
    method Resolve(i: nat, ghost g: seq<Blk>)
      requires i < blk.Length == |g| && WellFormed(g) && Sound(g, uf[..], |g|) && Forwarded(g, uf[..], |g|, i, blk[i])
      modifies blk, uf
      ensures SameRoots(old(uf[..]), uf[..], |g|) && Sound(g, uf[..], |g|)
      ensures blk[..] == old(blk[..])[i := ThreadedBlk(g, old(uf[..]), i)]
    {
      hide Root, Forest;
      ghost var u := uf[..];
      OwnSuccs(g, u, i, blk[i]);
      var r := Successor(blk[i].s1, g);
      blk[i] := blk[i].(s1 := r);
      ghost var u' := uf[..];
      r := Successor(blk[i].s2, g);
      blk[i] := blk[i].(s2 := r);
      SameSucc(g, u, u', g[i].s2);
      RootsFurther(u, u', uf[..], |g|);
      if blk[i].s1 >= 0 && blk[i].s1 == blk[i].s2 {
        blk[i] := blk[i].(jmp := Jmp, s2 := -1);
      }
      assert blk[i] == ThreadedBlk(g, u, i);
    }

    /** What a successor is replaced by: its root, or null if there is none. */
    method Successor(t: int, ghost g: seq<Blk>) returns (r: int)
      requires |g| == uf.Length && WellFormed(g) && Sound(g, uf[..], |g|) && -1 <= t < |g|
      modifies uf
      ensures SameRoots(old(uf[..]), uf[..], |g|) && Sound(g, uf[..], |g|)
      ensures r == NewSucc(g, old(uf[..]), t)
    {
      ghost var u := uf[..];
      SameRootsSelf(u, |g|);
      r := t;
      if t >= 0 {
        r := Find(t, |g|);
        SoundStays(g, u, uf[..], |g|);
      }
    }

    method GatherAll(blks: seq<Blk>)
      requires Upto(WithRet(blks), uf[..], blk[..], 0) && blk[|blks|] == WithRet(blks)[|blks|]
      requires forall x :: 0 <= x < |blks| ==> blk[x] == blks[x]
      requires forall x :: 0 <= x < uf.Length ==> uf[x] == -1
      modifies blk, uf
      ensures Upto(WithRet(blks), uf[..], blk[..], |blks| + 1)
    {
      hide Upto;
      ghost var g := WithRet(blks);
      UptoSizes(g, uf[..], blk[..], 0);
      var i := 0;
      while i < |blks|
        invariant 0 <= i <= |blks| && Upto(g, uf[..], blk[..], i) && blk.Length == uf.Length == |g|
        invariant forall b :: i <= b < |blks| ==> blk[b] == blks[b] && uf[b] < 0
        invariant blk[|blks|] == g[|blks|] && uf[|blks|] < 0
      {
        Gather(i, g);
        i := i + 1;
      }
      UptoNext(g, uf[..], blk[..], i);
    }

    method ResolveAll(ghost g: seq<Blk>)
      requires Upto(g, uf[..], blk[..], |g|) && g != [] && g[|g| - 1].s1 == -1 && g[|g| - 1].s2 == -1
      modifies blk, uf
      ensures Threaded(g, old(uf[..]), blk[..])
    {
      hide Forest, SameRoots, ThreadedBlk;
      ghost var u := uf[..];
      SameRootsSelf(u, |g|);
      var i := 0;
      while i < blk.Length - 1
        invariant 0 <= i < blk.Length == uf.Length == |g|
        invariant Sound(g, uf[..], |g|) && SameRoots(u, uf[..], |g|)
        invariant forall b :: 0 <= b < i ==> blk[b] == ThreadedBlk(g, u, b)
        invariant forall b :: i <= b < |g| ==> Forwarded(g, uf[..], |g|, b, blk[b])
      {
        ghost var u', b' := uf[..], blk[..];
        Resolve(i, g);
        SameThreaded(g, u, u', i);
        RootsFurther(u, u', uf[..], |g|);
        ForwardedStay(g, u', uf[..], i + 1, b');
        i := i + 1;
      }
      LastThreaded(g, u, uf[..], blk[|g| - 1]);
    }
  }

  lemma UptoSizes(g: seq<Blk>, uf: seq<int>, blk: seq<Blk>, i: nat)
    requires Upto(g, uf, blk, i)
    ensures |uf| == |blk| == |g| && WellFormed(g)
  {
  }

  lemma RootsFurther(uf: seq<int>, uf': seq<int>, uf'': seq<int>, i: nat)
    requires Forest(uf, i) && SameRoots(uf, uf', i) && SameRoots(uf', uf'', i)
    ensures SameRoots(uf, uf'', i)
  {
  }

  lemma ForwardedStay(g: seq<Blk>, uf: seq<int>, uf': seq<int>, i: nat, blk: seq<Blk>)
    requires |uf| == |g| == |blk| && Forest(uf, |g|) && SameRoots(uf, uf', |g|)
    requires forall b :: i <= b < |g| ==> Forwarded(g, uf, |g|, b, blk[b])
    ensures forall b :: i <= b < |g| ==> Forwarded(g, uf', |g|, b, blk[b])
  {
  }

  /** The return block leads nowhere. */
  lemma LastThreaded(g: seq<Blk>, uf: seq<int>, uf': seq<int>, blk: Blk)
    requires WellFormed(g) && |uf| == |g| && Forest(uf, |g|) && SameRoots(uf, uf', |g|)
    requires g[|g| - 1].s1 == -1 && g[|g| - 1].s2 == -1 && Forwarded(g, uf', |g|, |g| - 1, blk)
    ensures blk == ThreadedBlk(g, uf, |g| - 1)
  {
    assert BlkOk(g, |g| - 1);
  }

  /** A block whose first successor has been moved along the forest is threaded like the original one. */
  lemma OwnSuccs(g: seq<Blk>, uf: seq<int>, i: nat, b: Blk)
    requires WellFormed(g) && |uf| == |g| && Sound(g, uf, |g|) && i < |g| && Forwarded(g, uf, |g|, i, b)
    ensures -1 <= b.s1 < |g| && -1 <= g[i].s1 < |g| && -1 <= g[i].s2 < |g| && b == g[i].(s1 := b.s1)
    ensures NewSucc(g, uf, b.s1) == NewSucc(g, uf, g[i].s1)
  {
    assert BlkOk(g, i);
  }

  lemma SameSucc(g: seq<Blk>, uf: seq<int>, uf': seq<int>, t: int)
    requires |uf| == |g| && Forest(uf, |g|) && SameRoots(uf, uf', |g|) && -1 <= t < |g|
    ensures |uf'| == |g| && Forest(uf', |g|) && NewSucc(g, uf', t) == NewSucc(g, uf, t)
  {
  }

  lemma SameRootsSelf(uf: seq<int>, i: nat)
    requires Forest(uf, i)
    ensures SameRoots(uf, uf, i)
  {
  }

  /** The pass: the blocks that it returns behave like the given ones. */
  method SimplJmp(blks: seq<Blk>) returns (h: seq<Blk>, ghost uf: seq<int>)
    requires WellFormed(blks)
    ensures Threaded(WithRet(blks), uf, h) && Simplified(blks, h)
    ensures forall choose: Choice :: Covers(blks, h, choose) && Covers(h, blks, choose)
  {
    hide Upto, Threaded, Simplified;
    var t := new Threader(blks);
    t.GatherAll(blks);
    uf := t.uf[..];
    t.ResolveAll(WithRet(blks));
    h := t.blk[..];
    ThreadedSimplified(blks, uf, h);
    forall choose: Choice
      ensures Covers(blks, h, choose) && Covers(h, blks, choose)
    {
      SameBehaviour(blks, uf, h, choose);
    }
  }
}
