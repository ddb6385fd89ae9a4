/** Basic-block formation (src/passes/BasicBlockPass.cpp): a flat list of
    statements with labels and jumps is cut into blocks. */
module BasicBlocks {
  import opened Basics

  /** Fresh(i) is the label that is made for the conditional jump at position i. */
  datatype Label = Src(id: int) | Fresh(at: nat)

  /** Plain stands for all statements that do not branch. A jump without a condition is unconditional. */
  datatype Stmt = Plain(id: nat) | Mark(name: Label) | Jump(cond: Option<nat>, target: Label) | Return(id: nat)

  predicate Unconditional(s: Stmt) {
    s.Return? || (s.Jump? && s.cond.None?)
  }

  predicate Conditional(s: Stmt) {
    s.Jump? && s.cond.Some?
  }

  // ----- What the pass requires -----

  ghost predicate FlatOk(stmts: seq<Stmt>) {
    && stmts != [] && Unconditional(stmts[|stmts| - 1])
    && (forall i, j :: 0 <= i < j < |stmts| && stmts[i].Mark? && stmts[j].Mark? ==> stmts[i] != stmts[j])
    && (forall i :: 0 <= i < |stmts| ==> StmtOk(stmts, i))
  }

  ghost predicate StmtOk(stmts: seq<Stmt>, i: nat)
    requires i < |stmts|
  {
    && (Unconditional(stmts[i]) && i + 1 < |stmts| ==> stmts[i + 1].Mark?)
    && (stmts[i].Mark? ==> stmts[i].name.Src?)
    && (stmts[i].Jump? ==> stmts[i].target.Src? && HasLabel(stmts, stmts[i].target))
  }

  ghost predicate HasLabel(stmts: seq<Stmt>, l: Label) {
    exists j :: 0 <= j < |stmts| && stmts[j] == Mark(l)
  }

  // ----- Running -----

  /** The outcome of a condition, given all the statements that have been executed. */
  type Choice = (nat, seq<nat>) -> bool

  datatype Flat = At(pc: nat, trace: seq<nat>) | Done(id: nat, trace: seq<nat>) | Stuck(trace: seq<nat>)

  function Find(stmts: seq<Stmt>, l: Label, i: nat): int
    requires i <= |stmts|
    decreases |stmts| - i
  {
    if i == |stmts| then -1 else if stmts[i] == Mark(l) then i else Find(stmts, l, i + 1)
  }

  function GoFlat(stmts: seq<Stmt>, l: Label, t: seq<nat>): Flat {
    var j := Find(stmts, l, 0);
    if j < 0 then Stuck(t) else At(j, t)
  }

  function FlatStep(stmts: seq<Stmt>, choose: Choice, s: Flat): Flat {
    if !s.At? then s
    else if s.pc >= |stmts| then Stuck(s.trace)
    else
      match stmts[s.pc]
      case Plain(id) => At(s.pc + 1, s.trace + [id])
      case Mark(_) => At(s.pc + 1, s.trace)
      case Return(id) => Done(id, s.trace)
      case Jump(cond, l) =>
        if cond.None? || choose(cond.value, s.trace) then GoFlat(stmts, l, s.trace) else At(s.pc + 1, s.trace)
  }

  function FlatRun(stmts: seq<Stmt>, choose: Choice, k: nat): Flat {
    if k == 0 then At(0, []) else FlatStep(stmts, choose, FlatRun(stmts, choose, k - 1))
  }

  type Block = seq<Stmt>

  datatype Blocked = In(b: nat, i: nat, trace: seq<nat>) | Ended(id: nat, trace: seq<nat>) | Lost(trace: seq<nat>)

  /** The block that starts with the label. */
  function FindBlock(blocks: seq<Block>, l: Label, b: nat): int
    requires b <= |blocks|
    decreases |blocks| - b
  {
    if b == |blocks| then -1
    else if blocks[b] != [] && blocks[b][0] == Mark(l) then b
    else FindBlock(blocks, l, b + 1)
  }

  function GoBlock(blocks: seq<Block>, l: Label, t: seq<nat>): Blocked {
    var b := FindBlock(blocks, l, 0);
    if b < 0 then Lost(t) else In(b, 0, t)
  }

  /** Control never runs from one block into the next. */
  function BlockStep(blocks: seq<Block>, choose: Choice, s: Blocked): Blocked {
    if !s.In? then s
    else if s.b >= |blocks| || s.i >= |blocks[s.b]| then Lost(s.trace)
    else
      match blocks[s.b][s.i]
      case Plain(id) => In(s.b, s.i + 1, s.trace + [id])
      case Mark(_) => In(s.b, s.i + 1, s.trace)
      case Return(id) => Ended(id, s.trace)
      case Jump(cond, l) =>
        if cond.None? || choose(cond.value, s.trace) then GoBlock(blocks, l, s.trace) else In(s.b, s.i + 1, s.trace)
  }

  function BlockRun(blocks: seq<Block>, choose: Choice, k: nat): Blocked {
    if k == 0 then In(0, 0, []) else BlockStep(blocks, choose, BlockRun(blocks, choose, k - 1))
  }

  // ----- The blocks, statement by statement -----

  /** The blocks after some statements, and for each block the statement that made it (-1 for the first). */
  datatype Out = Out(blocks: seq<Block>, made: seq<int>)

  function Append(o: Out, s: Stmt): Out
    requires o.blocks != []
  {
    var l := |o.blocks| - 1;
    o.(blocks := o.blocks[l := o.blocks[l] + [s]])
  }

  function NewBlock(o: Out, first: Stmt, i: nat): Out {
    Out(o.blocks + [[first]], o.made + [i])
  }

  /** After the first i statements. */
  function Formed(stmts: seq<Stmt>, i: nat): (o: Out)
    requires i <= |stmts|
    ensures o.blocks != [] && |o.made| == |o.blocks|
  {
    if i == 0 then Out([[]], [-1])
    else
      var o := Formed(stmts, i - 1);
      var s := stmts[i - 1];
      if s.Mark? then
        var o' := if i >= 2 && Unconditional(stmts[i - 2]) then o else Append(o, Jump(None, s.name));
        NewBlock(o', s, i - 1)
      else if Conditional(s) then
        NewBlock(Append(Append(o, s), Jump(None, Fresh(i - 1))), Mark(Fresh(i - 1)), i - 1)
      else Append(o, s)
  }

  /** What is there stays: only the last block grows. */
  predicate Grows(o: Out, o': Out) {
    && 0 < |o.blocks| <= |o'.blocks| && |o.made| == |o.blocks| && |o'.made| == |o'.blocks|
    && (forall b :: 0 <= b < |o.blocks| ==> o.made[b] == o'.made[b])
    && (forall b :: 0 <= b < |o.blocks| - 1 ==> o.blocks[b] == o'.blocks[b])
    && o.blocks[|o.blocks| - 1] <= o'.blocks[|o.blocks| - 1]
  }

  lemma GrowsFurther(o: Out, o': Out, o'': Out)
    requires Grows(o, o') && Grows(o', o'')
    ensures Grows(o, o'')
  {
    var l := |o.blocks| - 1;
    if l < |o'.blocks| - 1 {
      assert o''.blocks[l] == o'.blocks[l];
    }
  }

  lemma AppendGrows(o: Out, s: Stmt)
    requires o.blocks != [] && |o.made| == |o.blocks|
    ensures Grows(o, Append(o, s))
  {
  }

  lemma NewGrows(o: Out, first: Stmt, i: nat)
    requires o.blocks != [] && |o.made| == |o.blocks|
    ensures Grows(o, NewBlock(o, first, i))
  {
  }

  lemma {:induction false} FormedGrows(stmts: seq<Stmt>, i: nat, j: nat)
    requires i <= j <= |stmts|
    ensures Grows(Formed(stmts, i), Formed(stmts, j))
    decreases j - i
  {
    if i < j {
      FormedGrows(stmts, i, j - 1);
      StepGrows(stmts, j - 1);
      GrowsFurther(Formed(stmts, i), Formed(stmts, j - 1), Formed(stmts, j));
    }
  }

  lemma StepGrows(stmts: seq<Stmt>, i: nat)
    requires i < |stmts|
    ensures Grows(Formed(stmts, i), Formed(stmts, i + 1))
  {
    hide Grows;
    var o, s := Formed(stmts, i), stmts[i];
    AppendGrows(o, s);
    AppendGrows(o, Jump(None, Head(stmts, i)));
    NewGrows(o, s, i);
    var a, b := Append(o, Jump(None, Head(stmts, i))), Append(Append(o, s), Jump(None, Head(stmts, i)));
    NewGrows(a, s, i);
    GrowsFurther(o, a, NewBlock(a, s, i));
    AppendGrows(Append(o, s), Jump(None, Head(stmts, i)));
    GrowsFurther(o, Append(o, s), b);
    NewGrows(b, Mark(Head(stmts, i)), i);
    GrowsFurther(o, b, NewBlock(b, Mark(Head(stmts, i)), i));
  }

  /** Where statement i is put. */
  function Place(stmts: seq<Stmt>, i: nat): (int, int)
    requires i < |stmts|
  {
    var o := Formed(stmts, i);
    if stmts[i].Mark? then (|o.blocks|, 0) else (|o.blocks| - 1, |o.blocks[|o.blocks| - 1]|)
  }

  // ----- The block of each label -----

  /** The label of the block that statement i makes. */
  function Head(stmts: seq<Stmt>, i: nat): Label
    requires i < |stmts|
  {
    if stmts[i].Mark? then stmts[i].name else Fresh(i)
  }

  /** Block b was made by an earlier statement than the blocks after it, and starts with its label. */
  ghost predicate Headed(stmts: seq<Stmt>, o: Out, i: nat)
    requires i <= |stmts|
  {
    && |o.made| == |o.blocks|
    && (forall b :: 1 <= b < |o.blocks| ==> HeadOk(stmts, o, i, b))
    && (forall b, c :: 1 <= b < c < |o.blocks| ==> o.made[b] < o.made[c])
    && (o.blocks != [] && o.blocks[0] != [] ==> !o.blocks[0][0].Mark?)
  }

  predicate HeadOk(stmts: seq<Stmt>, o: Out, i: nat, b: nat)
    requires |o.made| == |o.blocks| && b < |o.blocks| && i <= |stmts|
  {
    && 0 <= o.made[b] < i && (stmts[o.made[b]].Mark? || Conditional(stmts[o.made[b]]))
    && o.blocks[b] != [] && o.blocks[b][0] == Mark(Head(stmts, o.made[b]))
  }

  lemma AppendHeaded(stmts: seq<Stmt>, o: Out, i: nat, s: Stmt)
    requires i <= |stmts| && Headed(stmts, o, i) && o.blocks != [] && !s.Mark?
    ensures Headed(stmts, Append(o, s), i)
  {
    var o' := Append(o, s);
    forall b | 1 <= b < |o'.blocks|
      ensures HeadOk(stmts, o', i, b)
    {
      assert HeadOk(stmts, o, i, b);
    }
  }

  lemma NewHeaded(stmts: seq<Stmt>, o: Out, i: nat)
    requires i < |stmts| && Headed(stmts, o, i) && o.blocks != [] && (stmts[i].Mark? || Conditional(stmts[i]))
    ensures Headed(stmts, NewBlock(o, Mark(Head(stmts, i)), i), i + 1)
  {
    var o', j := NewBlock(o, Mark(Head(stmts, i)), i), i + 1;
    forall b | 1 <= b < |o'.blocks|
      ensures HeadOk(stmts, o', j, b)
    {
      if b < |o.blocks| {
        assert HeadOk(stmts, o, i, b);
      }
    }
    forall b, c | 1 <= b < c < |o'.blocks|
      ensures o'.made[b] < o'.made[c]
    {
      assert HeadOk(stmts, o, i, b);
    }
  }

  lemma LaterHeaded(stmts: seq<Stmt>, o: Out, i: nat)
    requires i < |stmts| && Headed(stmts, o, i)
    ensures Headed(stmts, o, i + 1)
  {
    var j := i + 1;
    forall b | 1 <= b < |o.blocks|
      ensures HeadOk(stmts, o, j, b)
    {
      assert HeadOk(stmts, o, i, b);
    }
  }

  lemma StepHeaded(stmts: seq<Stmt>, i: nat)
    requires i < |stmts| && Headed(stmts, Formed(stmts, i), i)
    ensures Headed(stmts, Formed(stmts, i + 1), i + 1)
  {
    hide Headed;
    var o, s, h := Formed(stmts, i), stmts[i], Head(stmts, i);
    if s.Mark? {
      if i >= 1 && Unconditional(stmts[i - 1]) {
        NewHeaded(stmts, o, i);
      } else {
        AppendHeaded(stmts, o, i, Jump(None, h));
        NewHeaded(stmts, Append(o, Jump(None, h)), i);
      }
    } else {
      AppendHeaded(stmts, o, i, s);
      if Conditional(s) {
        AppendHeaded(stmts, Append(o, s), i, Jump(None, h));
        NewHeaded(stmts, Append(Append(o, s), Jump(None, h)), i);
      } else {
        LaterHeaded(stmts, Append(o, s), i);
      }
    }
  }

  lemma NoneHeaded(stmts: seq<Stmt>)
    ensures Headed(stmts, Formed(stmts, 0), 0)
  {
    assert Formed(stmts, 0) == Out([[]], [-1]);
    hide Formed;
  }

  lemma {:induction false} FormedHeaded(stmts: seq<Stmt>, i: nat)
    requires i <= |stmts|
    ensures Headed(stmts, Formed(stmts, i), i)
  {
    hide Formed, Headed;
    if i > 0 {
      FormedHeaded(stmts, i - 1);
      StepHeaded(stmts, i - 1);
    } else {
      NoneHeaded(stmts);
    }
  }

  /** The blocks that the pass leaves behind. */
  function Final(stmts: seq<Stmt>): Out { Formed(stmts, |stmts|) }

  lemma HeadsDiffer(stmts: seq<Stmt>, b: nat, c: nat)
    requires FlatOk(stmts) && 1 <= b < c < |Final(stmts).blocks|
    ensures var o := Final(stmts); o.blocks[b] != [] && o.blocks[c] != [] && o.blocks[b][0] != o.blocks[c][0]
  {
    var o := Final(stmts);
    FormedHeaded(stmts, |stmts|);
    assert HeadOk(stmts, o, |stmts|, b) && HeadOk(stmts, o, |stmts|, c);
    var i: nat, j: nat := o.made[b], o.made[c];
    assert StmtOk(stmts, i) && StmtOk(stmts, j);
  }

  /** A jump to the label of a block finds that block. */
  lemma FindsBlock(stmts: seq<Stmt>, b: nat)
    requires FlatOk(stmts) && 1 <= b < |Final(stmts).blocks|
    ensures 0 <= Final(stmts).made[b] < |stmts|
    ensures FindBlock(Final(stmts).blocks, Head(stmts, Final(stmts).made[b]), 0) == b
  {
    FormedHeaded(stmts, |stmts|);
    assert HeadOk(stmts, Final(stmts), |stmts|, b);
    FindsFrom(stmts, b, 0);
  }

  lemma {:induction false} FindsFrom(stmts: seq<Stmt>, b: nat, c: nat)
    requires FlatOk(stmts) && 1 <= b < |Final(stmts).blocks| && c <= b
    requires HeadOk(stmts, Final(stmts), |stmts|, b) && Headed(stmts, Final(stmts), |stmts|)
    ensures FindBlock(Final(stmts).blocks, Head(stmts, Final(stmts).made[b]), c) == b
    decreases b - c
  {
    if c < b {
      if c > 0 {
        HeadsDiffer(stmts, c, b);
      }
      FindsFrom(stmts, b, c + 1);
    }
  }

  // ----- Where things are -----

  predicate Has(blocks: seq<Block>, p: (int, int), s: Stmt) {
    0 <= p.0 < |blocks| && 0 <= p.1 < |blocks[p.0]| && blocks[p.0][p.1] == s
  }

  lemma GrowsHas(o: Out, o': Out, p: (int, int), s: Stmt)
    requires Grows(o, o') && Has(o.blocks, p, s)
    ensures Has(o'.blocks, p, s)
  {
  }

  /** Where the statement after statement i is put, unless it is a label. */
  function After(stmts: seq<Stmt>, i: nat): (int, int)
    requires i < |stmts|
  {
    var o := Formed(stmts, i + 1);
    (|o.blocks| - 1, |o.blocks[|o.blocks| - 1]|)
  }

  /** The last block has length k. */
  predicate EndsAt(o: Out, l: int, k: int) {
    0 <= l == |o.blocks| - 1 && |o.blocks[l]| == k
  }

  lemma LastAppended(o: Out, s: Stmt, l: nat, k: nat)
    requires EndsAt(o, l, k)
    ensures EndsAt(Append(o, s), l, k + 1) && Has(Append(o, s).blocks, (l, k), s)
  {
  }

  lemma StillHas(o: Out, s: Stmt, l: nat, k: nat, k': nat, s': Stmt)
    requires EndsAt(o, l, k) && Has(o.blocks, (l, k'), s')
    ensures Has(Append(o, s).blocks, (l, k'), s')
  {
  }

  lemma LastNew(o: Out, first: Stmt, i: nat, l: nat, k: nat)
    requires EndsAt(o, l, k)
    ensures EndsAt(NewBlock(o, first, i), l + 1, 1) && Has(NewBlock(o, first, i).blocks, (l + 1, 0), first)
    ensures forall k', s :: Has(o.blocks, (l, k'), s) ==> Has(NewBlock(o, first, i).blocks, (l, k'), s)
  {
  }

  lemma FormedNext(stmts: seq<Stmt>, i: nat)
    requires i < |stmts|
    ensures var o, s := Formed(stmts, i), stmts[i];
      Formed(stmts, i + 1) ==
        if s.Mark? then NewBlock(if i > 0 && Unconditional(stmts[i - 1]) then o else Append(o, Jump(None, s.name)), s, i)
        else if Conditional(s) then NewBlock(Append(Append(o, s), Jump(None, Fresh(i))), Mark(Fresh(i)), i)
        else Append(o, s)
  {
    hide Append, NewBlock;
  }

  lemma PlaceAndAfter(stmts: seq<Stmt>, i: nat) returns (l: nat, k: nat)
    requires i < |stmts|
    ensures EndsAt(Formed(stmts, i), l, k) && Place(stmts, i) == if stmts[i].Mark? then (l + 1, 0) else (l, k)
    ensures forall l: nat, k :: EndsAt(Formed(stmts, i + 1), l, k) ==> After(stmts, i) == (l, k)
  {
    hide Formed;
    l := |Formed(stmts, i).blocks| - 1;
    k := |Formed(stmts, i).blocks[l]|;
  }

  lemma ForkPlaced(stmts: seq<Stmt>, i: nat)
    requires i < |stmts| && Conditional(stmts[i])
    ensures var bs, p := Formed(stmts, i + 1).blocks, Place(stmts, i);
      Has(bs, p, stmts[i]) && Has(bs, (p.0, p.1 + 1), Jump(None, Fresh(i))) && Has(bs, (p.0 + 1, 0), Mark(Fresh(i)))
    ensures After(stmts, i) == (Place(stmts, i).0 + 1, 1)
  {
    FormedNext(stmts, i);
    var l, k := PlaceAndAfter(stmts, i);
    var o, s, j := Formed(stmts, i), stmts[i], Jump(None, Fresh(i));
    hide Formed, Append, NewBlock, Has, EndsAt, Place, After;
    LastAppended(o, s, l, k);
    LastAppended(Append(o, s), j, l, k + 1);
    StillHas(Append(o, s), j, l, k + 1, k, s);
    LastNew(Append(Append(o, s), j), Mark(Fresh(i)), i, l, k + 2);
  }

  lemma OtherPlaced(stmts: seq<Stmt>, i: nat)
    requires i < |stmts| && !Conditional(stmts[i])
    ensures Has(Formed(stmts, i + 1).blocks, Place(stmts, i), stmts[i])
    ensures After(stmts, i) == (Place(stmts, i).0, Place(stmts, i).1 + 1)
  {
    FormedNext(stmts, i);
    var l, k := PlaceAndAfter(stmts, i);
    var o, s := Formed(stmts, i), stmts[i];
    hide Formed, Append, NewBlock, Has, EndsAt, Place, After;
    if s.Mark? {
      var j := Jump(None, s.name);
      LastAppended(o, j, l, k);
      LastNew(o, s, i, l, k);
      LastNew(Append(o, j), s, i, l, k + 1);
    } else {
      LastAppended(o, s, l, k);
    }
  }

  lemma Placed(stmts: seq<Stmt>, i: nat)
    requires i < |stmts|
    ensures Has(Final(stmts).blocks, Place(stmts, i), stmts[i])
    ensures var p := Place(stmts, i);
      if Conditional(stmts[i]) then
        && Has(Final(stmts).blocks, (p.0, p.1 + 1), Jump(None, Fresh(i)))
        && Has(Final(stmts).blocks, (p.0 + 1, 0), Mark(Fresh(i)))
        && After(stmts, i) == (p.0 + 1, 1)
      else After(stmts, i) == (p.0, p.1 + 1)
  {
    var o, p := Formed(stmts, i + 1), Place(stmts, i);
    if Conditional(stmts[i]) {
      ForkPlaced(stmts, i);
    } else {
      OtherPlaced(stmts, i);
    }
    FormedGrows(stmts, i + 1, |stmts|);
    hide Formed, Place, After, Has, Grows;
    GrowsHas(o, Final(stmts), p, stmts[i]);
    if Conditional(stmts[i]) {
      GrowsHas(o, Final(stmts), (p.0, p.1 + 1), Jump(None, Fresh(i)));
      GrowsHas(o, Final(stmts), (p.0 + 1, 0), Mark(Fresh(i)));
    }
  }

  /** Statement i makes the block that a jump to its label finds. */
  lemma MadeBy(stmts: seq<Stmt>, i: nat)
    requires FlatOk(stmts) && i < |stmts| && (stmts[i].Mark? || Conditional(stmts[i]))
    ensures FindBlock(Final(stmts).blocks, Head(stmts, i), 0) == After(stmts, i).0
  {
    var o := Formed(stmts, i + 1);
    FormedGrows(stmts, i + 1, |stmts|);
    FindsBlock(stmts, |o.blocks| - 1);
  }

  // ----- Silent steps -----

  /** Labels and unconditional jumps leave no trace. */
  function SilentNext(blocks: seq<Block>, p: (int, int)): (int, int) {
    if !(0 <= p.0 < |blocks| && 0 <= p.1 < |blocks[p.0]|) then (-1, -1)
    else
      match blocks[p.0][p.1]
      case Mark(_) => (p.0, p.1 + 1)
      case Jump(None, l) => (FindBlock(blocks, l, 0), 0)
      case _ => (-1, -1)
  }

  function Skip(blocks: seq<Block>, p: (int, int), n: nat): (int, int)
    decreases n
  {
    if n == 0 then p else Skip(blocks, SilentNext(blocks, p), n - 1)
  }

  lemma {:induction false} SkipFurther(blocks: seq<Block>, p: (int, int), n: nat, m: nat)
    ensures Skip(blocks, p, n + m) == Skip(blocks, Skip(blocks, p, n), m)
    decreases n
  {
    if n > 0 {
      SkipFurther(blocks, SilentNext(blocks, p), n - 1, m);
    }
  }

  /** From the end of statement i, which does not branch away, control gets to statement i + 1. */
  lemma NextPlace(stmts: seq<Stmt>, i: nat) returns (n: nat)
    requires FlatOk(stmts) && i + 1 < |stmts| && !Unconditional(stmts[i])
    ensures Skip(Final(stmts).blocks, After(stmts, i), n) == Place(stmts, i + 1)
  {
    if stmts[i + 1].Mark? {
      n := 1;
      Inserted(stmts, i + 1);
      var p := After(stmts, i);
      assert Skip(Final(stmts).blocks, p, 1) == Skip(Final(stmts).blocks, SilentNext(Final(stmts).blocks, p), 0);
    } else {
      n := 0;
    }
  }

  /** A label that control can fall into has a jump to it put before it. */
  lemma Inserted(stmts: seq<Stmt>, i: nat)
    requires FlatOk(stmts) && i < |stmts| && stmts[i].Mark? && (i > 0 ==> !Unconditional(stmts[i - 1]))
    ensures var o := Formed(stmts, i);
      var p := (|o.blocks| - 1, |o.blocks[|o.blocks| - 1]|);
      && Has(Final(stmts).blocks, p, Jump(None, stmts[i].name))
      && SilentNext(Final(stmts).blocks, p) == Place(stmts, i)
  {
    var o := Formed(stmts, i);
    var p := (|o.blocks| - 1, |o.blocks[|o.blocks| - 1]|);
    FormedGrows(stmts, i + 1, |stmts|);
    GrowsHas(Formed(stmts, i + 1), Final(stmts), p, Jump(None, stmts[i].name));
    MadeBy(stmts, i);
    Placed(stmts, i);
  }

  // ----- The two runs -----

  /** The blocked run is n silent steps away from where the flat one is. */
  predicate Sim(stmts: seq<Stmt>, s: Flat, s': Blocked, n: nat) {
    match s
    case At(pc, t) => s'.In? && s'.trace == t && pc < |stmts| && Skip(Final(stmts).blocks, (s'.b, s'.i), n) == Place(stmts, pc)
    case Done(id, t) => s' == Ended(id, t)
    case Stuck(_) => false
  }

  lemma SilentStep(stmts: seq<Stmt>, choose: Choice, s: Flat, s': Blocked, n: nat)
    requires Sim(stmts, s, s', n) && n > 0
    ensures Sim(stmts, s, BlockStep(Final(stmts).blocks, choose, s'), n - 1)
  {
    if s.At? {
      var p := SilentNext(Final(stmts).blocks, (s'.b, s'.i));
      Nowhere(Final(stmts).blocks, n - 1);
      Placed(stmts, s.pc);
      FindRange(Final(stmts).blocks);
    }
  }

  lemma {:induction false} Nowhere(blocks: seq<Block>, n: nat)
    ensures Skip(blocks, (-1, -1), n) == (-1, -1) && forall i :: Skip(blocks, (-1, i), n).0 == -1
  {
    if n > 0 {
      Nowhere(blocks, n - 1);
    }
  }

  lemma FindRange(blocks: seq<Block>)
    ensures forall l :: -1 <= FindBlock(blocks, l, 0) < |blocks|
  {
    forall l
      ensures -1 <= FindBlock(blocks, l, 0) < |blocks|
    {
      FindInRange(blocks, l, 0);
    }
  }

  lemma {:induction false} FindInRange(blocks: seq<Block>, l: Label, b: nat)
    requires b <= |blocks|
    ensures -1 <= FindBlock(blocks, l, b) < |blocks|
    decreases |blocks| - b
  {
    if b < |blocks| {
      FindInRange(blocks, l, b + 1);
    }
  }

  /** A jump in the flat list finds the label, whose block a jump in the blocks finds. */
  lemma JumpLands(stmts: seq<Stmt>, l: Label)
    requires FlatOk(stmts) && HasLabel(stmts, l)
    ensures var j := Find(stmts, l, 0);
      0 <= j < |stmts| && stmts[j] == Mark(l) && (FindBlock(Final(stmts).blocks, l, 0), 0) == Place(stmts, j)
  {
    var k :| 0 <= k < |stmts| && stmts[k] == Mark(l);
    FindFinds(stmts, l, 0, k);
    var j := Find(stmts, l, 0);
    MadeBy(stmts, j);
    Placed(stmts, j);
  }

  lemma {:induction false} FindFinds(stmts: seq<Stmt>, l: Label, i: nat, k: nat)
    requires i <= k < |stmts| && stmts[k] == Mark(l)
    ensures i <= Find(stmts, l, i) <= k && stmts[Find(stmts, l, i)] == Mark(l)
    decreases k - i
  {
    if stmts[i] != Mark(l) {
      FindFinds(stmts, l, i + 1, k);
    }
  }

  /** At the same statement both runs do the same, up to silent steps. */
  lemma BothStep(stmts: seq<Stmt>, choose: Choice, s: Flat, s': Blocked) returns (n: nat)
    requires FlatOk(stmts) && Sim(stmts, s, s', 0)
    ensures Sim(stmts, FlatStep(stmts, choose, s), BlockStep(Final(stmts).blocks, choose, s'), n)
  {
    n := 0;
    if s.At? {
      var i := s.pc;
      Placed(stmts, i);
      assert StmtOk(stmts, i);
      hide Formed, Place, After, Find, FindBlock;
      if stmts[i].Jump? && (stmts[i].cond.None? || choose(stmts[i].cond.value, s.trace)) {
        JumpLands(stmts, stmts[i].target);
      } else if !stmts[i].Return? {
        n := GoOn(stmts, i);
      }
    }
  }

  /** From the statement after i of its block there are n silent steps to the next statement of the list. */
  lemma GoOn(stmts: seq<Stmt>, i: nat) returns (n: nat)
    requires FlatOk(stmts) && i < |stmts| && !Unconditional(stmts[i])
    ensures i + 1 < |stmts|
    ensures Skip(Final(stmts).blocks, (Place(stmts, i).0, Place(stmts, i).1 + 1), n) == Place(stmts, i + 1)
  {
    Placed(stmts, i);
    assert StmtOk(stmts, i);
    hide Formed, Place, After, Find, FindBlock;
    n := NextPlace(stmts, i);
    if stmts[i].Jump? {
      var p := Place(stmts, i);
      FallThrough(stmts, i);
      SkipFurther(Final(stmts).blocks, (p.0, p.1 + 1), 2, n);
      n := 2 + n;
    }
  }

  lemma FallThrough(stmts: seq<Stmt>, i: nat)
    requires FlatOk(stmts) && i < |stmts| && Conditional(stmts[i])
    ensures Skip(Final(stmts).blocks, (Place(stmts, i).0, Place(stmts, i).1 + 1), 2) == After(stmts, i)
  {
    var g, p := Final(stmts).blocks, Place(stmts, i);
    Placed(stmts, i);
    MadeBy(stmts, i);
    var q := SilentNext(g, (p.0, p.1 + 1));
    assert q == (p.0 + 1, 0) && SilentNext(g, q) == (p.0 + 1, 1);
    assert Skip(g, (p.0, p.1 + 1), 2) == Skip(g, q, 1) == Skip(g, SilentNext(g, q), 0);
  }

  lemma Start(stmts: seq<Stmt>) returns (n: nat)
    requires FlatOk(stmts)
    ensures Sim(stmts, At(0, []), In(0, 0, []), n)
  {
    n := 0;
    if stmts[0].Mark? {
      Inserted(stmts, 0);
      n := 1;
      assert Skip(Final(stmts).blocks, (0, 0), 1) == Skip(Final(stmts).blocks, SilentNext(Final(stmts).blocks, (0, 0)), 0);
    }
  }

  lemma {:induction false} CatchUp(stmts: seq<Stmt>, choose: Choice, s: Flat, k': nat, n: nat)
    requires Sim(stmts, s, BlockRun(Final(stmts).blocks, choose, k'), n)
    ensures Sim(stmts, s, BlockRun(Final(stmts).blocks, choose, k' + n), 0)
    decreases n
  {
    if n > 0 {
      SilentStep(stmts, choose, s, BlockRun(Final(stmts).blocks, choose, k'), n);
      CatchUp(stmts, choose, s, k' + 1, n - 1);
    }
  }

  lemma {:induction false} Follow(stmts: seq<Stmt>, choose: Choice, k: nat) returns (k': nat)
    requires FlatOk(stmts)
    ensures Sim(stmts, FlatRun(stmts, choose, k), BlockRun(Final(stmts).blocks, choose, k'), 0)
  {
    var n;
    if k == 0 {
      n := Start(stmts);
      k' := 0;
    } else {
      k' := Follow(stmts, choose, k - 1);
      n := BothStep(stmts, choose, FlatRun(stmts, choose, k - 1), BlockRun(Final(stmts).blocks, choose, k'));
      k' := k' + 1;
    }
    CatchUp(stmts, choose, FlatRun(stmts, choose, k), k', n);
    k' := k' + n;
  }

  lemma {:induction false} FollowBack(stmts: seq<Stmt>, choose: Choice, k': nat) returns (k: nat, n: nat)
    requires FlatOk(stmts)
    ensures Sim(stmts, FlatRun(stmts, choose, k), BlockRun(Final(stmts).blocks, choose, k'), n)
  {
    if k' == 0 {
      k := 0;
      n := Start(stmts);
    } else {
      k, n := FollowBack(stmts, choose, k' - 1);
      if n > 0 {
        SilentStep(stmts, choose, FlatRun(stmts, choose, k), BlockRun(Final(stmts).blocks, choose, k' - 1), n);
        n := n - 1;
      } else {
        n := BothStep(stmts, choose, FlatRun(stmts, choose, k), BlockRun(Final(stmts).blocks, choose, k' - 1));
        k := k + 1;
      }
    }
  }

  /** The same statements have been executed, and both runs have returned alike or neither has ended. */
  predicate Same(s: Flat, s': Blocked) {
    match s
    case At(_, t) => s'.In? && s'.trace == t
    case Done(id, t) => s' == Ended(id, t)
    case Stuck(_) => false
  }

  ghost predicate SomeBlockRun(blocks: seq<Block>, choose: Choice, s: Flat) {
    exists k': nat :: Same(s, BlockRun(blocks, choose, k'))
  }

  ghost predicate SomeFlatRun(stmts: seq<Stmt>, choose: Choice, s': Blocked) {
    exists k: nat :: Same(FlatRun(stmts, choose, k), s')
  }

  /** Whatever one form has done at some point the other form has done at some point. */
  ghost predicate SameBehaviour(stmts: seq<Stmt>, blocks: seq<Block>, choose: Choice) {
    && (forall k: nat :: SomeBlockRun(blocks, choose, FlatRun(stmts, choose, k)))
    && (forall k': nat :: SomeFlatRun(stmts, choose, BlockRun(blocks, choose, k')))
  }

  lemma BlocksBehave(stmts: seq<Stmt>, choose: Choice)
    requires FlatOk(stmts)
    ensures SameBehaviour(stmts, Final(stmts).blocks, choose)
  {
    var blocks := Final(stmts).blocks;
    forall k: nat
      ensures SomeBlockRun(blocks, choose, FlatRun(stmts, choose, k))
    {
      var k' := Follow(stmts, choose, k);
      assert Same(FlatRun(stmts, choose, k), BlockRun(blocks, choose, k'));
    }
    forall k': nat
      ensures SomeFlatRun(stmts, choose, BlockRun(blocks, choose, k'))
    {
      var k, n := FollowBack(stmts, choose, k');
      assert Same(FlatRun(stmts, choose, k), BlockRun(blocks, choose, k'));
    }
  }

  // ----- The form of the blocks -----

  /** A block ends in its only unconditional branch, with at most one conditional jump, just
      before it; a label can only be its first statement. */
  predicate BlockOk(b: Block) {
    && b != [] && Unconditional(b[|b| - 1])
    && (forall i :: 0 <= i < |b| - 1 ==> !Unconditional(b[i]) && (Conditional(b[i]) ==> i == |b| - 2))
    && (forall i :: 1 <= i < |b| ==> !b[i].Mark?)
  }

  predicate Growing(b: Block) {
    && (forall i :: 0 <= i < |b| ==> !b[i].Jump? && !b[i].Return?)
    && (forall i :: 1 <= i < |b| ==> !b[i].Mark?)
  }

  /** All blocks are finished, except perhaps the last one. */
  predicate AllOk(bs: seq<Block>, closed: bool) {
    && bs != [] && (forall b :: 0 <= b < |bs| - 1 ==> BlockOk(bs[b]))
    && if closed then BlockOk(bs[|bs| - 1]) else Growing(bs[|bs| - 1])
  }

  lemma AppendOk(o: Out, s: Stmt)
    requires AllOk(o.blocks, false) && (s.Plain? || Unconditional(s))
    ensures AllOk(Append(o, s).blocks, Unconditional(s))
  {
    AddOk(o.blocks[|o.blocks| - 1], s);
    hide BlockOk, Growing;
  }

  lemma AddOk(b: Block, s: Stmt)
    requires Growing(b)
    ensures s.Plain? ==> Growing(b + [s])
    ensures Unconditional(s) ==> BlockOk(b + [s])
    ensures Conditional(s) ==> forall l :: BlockOk(b + [s] + [Jump(None, l)])
  {
  }

  lemma ForkOk(o: Out, s: Stmt, l: Label)
    requires AllOk(o.blocks, false) && Conditional(s)
    ensures AllOk(Append(Append(o, s), Jump(None, l)).blocks, true)
  {
    AddOk(o.blocks[|o.blocks| - 1], s);
    hide BlockOk, Growing;
  }

  lemma NewOk(o: Out, l: Label, i: nat)
    requires AllOk(o.blocks, true)
    ensures AllOk(NewBlock(o, Mark(l), i).blocks, false)
  {
    assert Growing([Mark(l)]);
    hide BlockOk, Growing;
  }

  lemma {:induction false} FormedBlocks(stmts: seq<Stmt>, i: nat)
    requires FlatOk(stmts) && i <= |stmts|
    ensures AllOk(Formed(stmts, i).blocks, i > 0 && Unconditional(stmts[i - 1]))
  {
    if i > 0 {
      FormedBlocks(stmts, i - 1);
      assert StmtOk(stmts, i - 1);
      assert i > 1 ==> StmtOk(stmts, i - 2);
      hide AllOk;
      var o, s := Formed(stmts, i - 1), stmts[i - 1];
      if s.Mark? {
        if i > 1 && Unconditional(stmts[i - 2]) {
          NewOk(o, s.name, i - 1);
        } else {
          AppendOk(o, Jump(None, s.name));
          NewOk(Append(o, Jump(None, s.name)), s.name, i - 1);
        }
      } else if Conditional(s) {
        ForkOk(o, s, Fresh(i - 1));
        NewOk(Append(Append(o, s), Jump(None, Fresh(i - 1))), Fresh(i - 1), i - 1);
      } else {
        AppendOk(o, s);
      }
    }
  }

  lemma FinalBlocks(stmts: seq<Stmt>)
    requires FlatOk(stmts)
    ensures forall b :: 0 <= b < |Final(stmts).blocks| ==> BlockOk(Final(stmts).blocks[b])
  {
    FormedBlocks(stmts, |stmts|);
  }

  // ----- Nothing lost, nothing else added -----

  /** All statements of the blocks, one after another. */
  function Flatten(blocks: seq<Block>): seq<Stmt> {
    if blocks == [] then [] else Flatten(blocks[..|blocks| - 1]) + blocks[|blocks| - 1]
  }

  /** What statement i becomes: before a label that is fallen into there is a jump to it, and after a conditional jump
      there is a jump to a new label, which comes next. */
  function Piece(stmts: seq<Stmt>, i: nat): seq<Stmt>
    requires i < |stmts|
  {
    var s := stmts[i];
    if s.Mark? && (i == 0 || !Unconditional(stmts[i - 1])) then [Jump(None, s.name), s]
    else if Conditional(s) then [s, Jump(None, Fresh(i)), Mark(Fresh(i))]
    else [s]
  }

  function Pieces(stmts: seq<Stmt>, i: nat): seq<Stmt>
    requires i <= |stmts|
  {
    if i == 0 then [] else Pieces(stmts, i - 1) + Piece(stmts, i - 1)
  }

  /** The blocks have these statements, in this order, and a new block begins at each label and nowhere else. */
  ghost predicate Complete(stmts: seq<Stmt>, blocks: seq<Block>) {
    && Flatten(blocks) == Pieces(stmts, |stmts|)
    && (forall b, i :: 0 <= b < |blocks| && 1 <= i < |blocks[b]| ==> !blocks[b][i].Mark?)
    && forall b :: 1 <= b < |blocks| ==> blocks[b] != [] && blocks[b][0].Mark?
  }

  lemma FlattenAppend(o: Out, s: Stmt)
    requires o.blocks != []
    ensures Flatten(Append(o, s).blocks) == Flatten(o.blocks) + [s]
  {
    var l := |o.blocks| - 1;
    var bs := Append(o, s).blocks;
    assert bs[..l] == o.blocks[..l] && bs[l] == o.blocks[l] + [s];
  }

  lemma FlattenNew(o: Out, first: Stmt, i: nat)
    ensures Flatten(NewBlock(o, first, i).blocks) == Flatten(o.blocks) + [first]
  {
    assert (o.blocks + [[first]])[..|o.blocks|] == o.blocks;
  }

  lemma Together(p: seq<Stmt>, a: Stmt, b: Stmt, c: Stmt)
    ensures p + [a] + [b] == p + [a, b] && p + [a] + [b] + [c] == p + [a, b, c]
  {
  }

  lemma {:induction false} FormedPieces(stmts: seq<Stmt>, i: nat)
    requires i <= |stmts|
    ensures Flatten(Formed(stmts, i).blocks) == Pieces(stmts, i)
  {
    hide Formed, Flatten, Piece;
    if i == 0 {
      NoPieces(stmts);
    } else {
      var o := Formed(stmts, i - 1);
      FormedPieces(stmts, i - 1);
      StepPieces(stmts, i - 1, o);
      assert Pieces(stmts, i) == Flatten(o.blocks) + Piece(stmts, i - 1);
    }
  }

  lemma NoPieces(stmts: seq<Stmt>)
    ensures Flatten(Formed(stmts, 0).blocks) == Pieces(stmts, 0)
  {
    assert Formed(stmts, 0).blocks == [[]] && Flatten([[]]) == Flatten([]) + [];
  }

  lemma StepPieces(stmts: seq<Stmt>, i: nat, o: Out)
    requires i < |stmts| && o == Formed(stmts, i)
    ensures Flatten(Formed(stmts, i + 1).blocks) == Flatten(o.blocks) + Piece(stmts, i)
  {
    var s := stmts[i];
    var p := Flatten(o.blocks);
    FlattenAppend(o, s);
    if s.Mark? {
      var j := Jump(None, s.name);
      FlattenAppend(o, j);
      FlattenNew(Append(o, j), s, i);
      FlattenNew(o, s, i);
      Together(p, j, s, s);
    } else if Conditional(s) {
      var o', j, m := Append(o, s), Jump(None, Fresh(i)), Mark(Fresh(i));
      FlattenAppend(o', j);
      FlattenNew(Append(o', j), m, i);
      Together(p, s, j, m);
    }
    hide Flatten, Append, NewBlock;
  }

  lemma FinalComplete(stmts: seq<Stmt>)
    requires FlatOk(stmts)
    ensures Complete(stmts, Final(stmts).blocks)
  {
    FinalBlocks(stmts);
    FormedPieces(stmts, |stmts|);
    FormedHeaded(stmts, |stmts|);
    hide Flatten, Pieces;
    var blocks: seq<Block> := Final(stmts).blocks;
    forall b: nat, i: nat | 0 <= b < |blocks| && 1 <= i < |blocks[b]|
      ensures !blocks[b][i].Mark?
    {
      assert BlockOk(blocks[b]);
    }
    forall b: nat | 1 <= b < |blocks|
      ensures blocks[b] != [] && blocks[b][0].Mark?
    {
      assert HeadOk(stmts, Final(stmts), |stmts|, b);
    }
  }

  // ----- The code -----

  class Pass {
    var newContents: seq<Block>

    constructor ()
    {
      newContents := [];
    }

    method CreateBasicBlock() returns (current: nat)
      modifies this
      ensures newContents == old(newContents) + [[]] && current == |old(newContents)|
    {
      current := |newContents|;
      newContents := newContents + [[]];
    }

    method Push(current: nat, s: Stmt)
      requires current < |newContents|
      modifies this
      ensures newContents == old(newContents)[current := old(newContents)[current] + [s]]
    {
      newContents := newContents[current := newContents[current] + [s]];
    }

    /** A new block that starts with the given label. */
    method StartBlock(first: Stmt) returns (current: nat)
      modifies this
      ensures newContents == old(newContents) + [[first]] && current == |old(newContents)|
    {
      current := CreateBasicBlock();
      Push(current, first);
      assert [] + [first] == [first];
    }

    /** One statement of the list; the new block is -1 after an unconditional branch. */
    method Add(stmts: seq<Stmt>, i: nat, current: int, prevUnconditionalBranch: bool) returns (current': int)
      requires FlatOk(stmts) && i < |stmts| && newContents == Formed(stmts, i).blocks
      requires prevUnconditionalBranch <==> i > 0 && Unconditional(stmts[i - 1])
      requires current == if prevUnconditionalBranch then -1 else |newContents| - 1
      modifies this
      ensures newContents == Formed(stmts, i + 1).blocks
      ensures current' == if Unconditional(stmts[i]) then -1 else |newContents| - 1
    {
      assert StmtOk(stmts, i) && (i > 0 ==> StmtOk(stmts, i - 1));
      hide FlatOk, StmtOk;
      var statement := stmts[i];
      ghost var o := Formed(stmts, i);
      if statement.Mark? {
        if !prevUnconditionalBranch {
          Push(current, Jump(None, statement.name));
          assert newContents == Append(o, Jump(None, statement.name)).blocks;
        }
        current' := StartBlock(statement);
        return;
      }
      Push(current, statement);
      assert newContents == Append(o, statement).blocks;
      if Unconditional(statement) {
        return -1;
      }
      if statement.Jump? {
        Push(current, Jump(None, Fresh(i)));
        assert newContents == Append(Append(o, statement), Jump(None, Fresh(i))).blocks;
        current' := StartBlock(Mark(Fresh(i)));
        return;
      }
      return current;
    }

    /** The blocks have the same runs as the flat list, whatever the decisions. */
    method Process(stmts: seq<Stmt>) returns (blocks: seq<Block>)
      requires FlatOk(stmts)
      modifies this
      ensures forall choose: Choice :: SameBehaviour(stmts, blocks, choose)
      ensures forall b :: 0 <= b < |blocks| ==> BlockOk(blocks[b])
      ensures blocks == Final(stmts).blocks && Complete(stmts, blocks)
    {
      newContents := [];
      var current: int := CreateBasicBlock();
      var lastWasUnconditionalBranch := false;
      var i := 0;
      while i < |stmts|
        invariant 0 <= i <= |stmts| && newContents == Formed(stmts, i).blocks
        invariant lastWasUnconditionalBranch <==> i > 0 && Unconditional(stmts[i - 1])
        invariant current == if lastWasUnconditionalBranch then -1 else |newContents| - 1
      {
        current := Add(stmts, i, current, lastWasUnconditionalBranch);
        lastWasUnconditionalBranch := Unconditional(stmts[i]);
        i := i + 1;
      }
      blocks := newContents;
      assert i == |stmts| && blocks == Final(stmts).blocks;
      FinalBlocks(stmts);
      FinalComplete(stmts);
      hide *;
      forall choose: Choice
        ensures SameBehaviour(stmts, blocks, choose)
      {
        BlocksBehave(stmts, choose);
      }
    }
  }
}
