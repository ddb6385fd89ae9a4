/** Parallel-move sequentialisation of the QBE register allocator
    (lib/qbe-1.0/rega.c): a set of moves that must happen at once is turned
    into a sequence of copies and swaps. Instructions are emitted backwards
    (lib/qbe-1.0/util.c), so the buffer from the cursor on is in execution order. */
module ParallelMove {
  import opened Finite

  datatype Cls = Kw | Kl | Ks | Kd

  /** A register or a stack slot. */
  datatype Loc = Tmp(r: nat) | Slot(s: nat)

  datatype Move = Move(src: Loc, dst: Loc, cls: Cls)

  datatype Ins =
    | Copy(cls: Cls, to: Loc, arg: Loc)
    | Swap(cls: Cls, arg0: Loc, arg1: Loc)

  datatype Status = ToMove | Moving | Moved

  /** Kw and Kl are integer classes, Ks and Kd are floating-point ones. */
  predicate IntBase(k: Cls) { k.Kw? || k.Kl? }

  /** Kl and Kd are the 64-bit classes. */
  predicate Wide(k: Cls) { k.Kl? || k.Kd? }

  /** The bitwise or of two class numbers (Kw=0, Kl=1, Ks=2, Kd=3). */
  function Or(a: Cls, b: Cls): Cls {
    if IntBase(a) && IntBase(b) then
      if Wide(a) || Wide(b) then Kl else Kw
    else
      if Wide(a) || Wide(b) then Kd else Ks
  }

  // ----- What the emitted instructions do -----

  /** The contents of a location: its low and its high 32 bits. */
  datatype Value = Value(lo: int, hi: int)

  type Store = Loc -> Value

  /** What a 32-bit transfer leaves in the high half of a location: anything (zeros, the sign, what was
      there before), and not always the same. It may depend on how many instructions are still to
      come, on the location and on everything that is stored. */
  type Target = (nat, Loc, Store) -> int

  function Transfer(k: Cls, v: Value, hi: int): Value {
    if Wide(k) then v else Value(v.lo, hi)
  }

  function Write(s: Store, l: Loc, v: Value): Store {
    x => if x == l then v else s(x)
  }

  /** One instruction, with n more to come. */
  function Step(i: Ins, s: Store, ext: Target, n: nat): Store {
    match i
    case Copy(k, to, arg) => Write(s, to, Transfer(k, s(arg), ext(n, to, s)))
    case Swap(k, a, b) => Write(Write(s, a, Transfer(k, s(b), ext(n, a, s))), b, Transfer(k, s(a), ext(n, b, s)))
  }

  /** Runs a sequence of instructions in execution order. */
  function Run(code: seq<Ins>, s: Store, ext: Target): Store {
    if code == [] then s else Run(code[1..], Step(code[0], s, ext, |code| - 1), ext)
  }

  /** Equal as far as a temporary of class k can tell. */
  predicate Agree(k: Cls, a: Value, b: Value) {
    a.lo == b.lo && (Wide(k) ==> a.hi == b.hi)
  }

  // ----- The moves -----

  ghost predicate DistinctDst(pm: seq<Move>) {
    forall i, j :: 0 <= i < j < |pm| ==> pm[i].dst != pm[j].dst
  }

  /** Chained moves stay in one register file, as the assertion in pmrec demands. */
  ghost predicate OneBase(pm: seq<Move>) {
    forall i, j :: 0 <= i < |pm| && 0 <= j < |pm| && pm[i].src != pm[i].dst && pm[i].src == pm[j].dst && pm[j].src != pm[j].dst
      ==> IntBase(pm[i].cls) == IntBase(pm[j].cls)
  }

  ghost predicate IsDst(pm: seq<Move>, l: Loc) {
    exists i :: 0 <= i < |pm| && pm[i].dst == l
  }

  /** The code carries out all moves at once: every destination ends up with
      the old contents of its source, and nothing else changes. */
  ghost predicate Implements(pm: seq<Move>, code: seq<Ins>) {
    forall s: Store, ext: Target ::
      (forall i :: 0 <= i < |pm| ==> Agree(pm[i].cls, Run(code, s, ext)(pm[i].dst), s(pm[i].src))) &&
      (forall l :: !IsDst(pm, l) ==> Run(code, s, ext)(l) == s(l))
  }

  // ----- The invariant of the recursion -----

  ghost predicate MovedDst(pm: seq<Move>, st: seq<Status>, l: Loc)
    requires |st| == |pm|
  {
    exists i :: 0 <= i < |pm| && st[i].Moved? && pm[i].dst == l
  }

  /** The code so far performs the finished moves. While a cycle that starts
      at move c is open (c >= 0), the destination of c holds what belongs
      to the move that reads the destination of top. */
  ghost predicate Realises(pm: seq<Move>, st: seq<Status>, code: seq<Ins>, c: int, top: int, k: Cls)
    requires |st| == |pm| && -1 <= c < |pm| && 0 <= top < |pm|
  {
    forall s: Store, ext: Target :: RealisesOn(pm, st, Run(code, s, ext), s, c, top, k)
  }

  ghost predicate RealisesOn(pm: seq<Move>, st: seq<Status>, fin: Store, s: Store, c: int, top: int, k: Cls)
    requires |st| == |pm| && -1 <= c < |pm| && 0 <= top < |pm|
  {
    (forall i :: 0 <= i < |pm| && st[i].Moved? ==> Agree(pm[i].cls, fin(pm[i].dst), s(pm[i].src))) &&
    (c >= 0 ==> Agree(k, fin(pm[c].dst), s(pm[top].dst))) &&
    (forall l :: !MovedDst(pm, st, l) && (c >= 0 ==> l != pm[c].dst) ==> fin(l) == s(l))
  }

  /** Whatever overwrites the source of a finished move is finished too,
      or starts the open cycle. */
  ghost predicate Closed(pm: seq<Move>, st: seq<Status>, c: int)
    requires |st| == |pm|
  {
    forall i, j :: 0 <= i < |pm| && 0 <= j < |pm| && st[i].Moved? && pm[j].dst == pm[i].src
      ==> st[j].Moved? || j == c
  }

  lemma EmitCopy(pm: seq<Move>, st: seq<Status>, code: seq<Ins>, i: int, k: Cls)
    requires |st| == |pm| && 0 <= i < |pm| && DistinctDst(pm)
    requires !st[i].Moved? && Closed(pm, st, -1)
    requires forall j :: 0 <= j < |pm| && pm[j].dst == pm[i].src ==> st[j].Moved?
    requires Realises(pm, st, code, -1, i, k)
    ensures Realises(pm, st[i := Moved], [Copy(pm[i].cls, pm[i].dst, pm[i].src)] + code, -1, i, k)
    ensures Closed(pm, st[i := Moved], -1)
  {
  }

  /** The swap that opens a cycle: move i reads the destination of c, which is under way. */
  lemma OpenCycle(pm: seq<Move>, st: seq<Status>, code: seq<Ins>, i: int, c: int, k: Cls)
    requires |st| == |pm| && 0 <= i < |pm| && 0 <= c < |pm| && DistinctDst(pm)
    requires i != c && pm[i].src == pm[c].dst && !st[i].Moved? && !st[c].Moved?
    requires Closed(pm, st, -1) && (Wide(pm[i].cls) ==> Wide(k))
    requires Realises(pm, st, code, -1, i, k)
    ensures Realises(pm, st[i := Moved], [Swap(k, pm[i].src, pm[i].dst)] + code, c, i, k)
    ensures Closed(pm, st[i := Moved], c)
  {
  }

  /** A swap on the way out of a cycle: move i reads the destination of top, just finished. */
  lemma ExtendCycle(pm: seq<Move>, st: seq<Status>, code: seq<Ins>, i: int, top: int, c: int, k: Cls)
    requires |st| == |pm| && 0 <= i < |pm| && 0 <= top < |pm| && 0 <= c < |pm| && DistinctDst(pm)
    requires i != c && top != c && top != i && pm[i].src == pm[top].dst
    requires !st[i].Moved? && !st[c].Moved? && st[top].Moved?
    requires Closed(pm, st, c) && (Wide(pm[i].cls) ==> Wide(k))
    requires Unread(pm, st, pm[top].dst)
    requires Realises(pm, st, code, c, top, k)
    ensures Realises(pm, st[i := Moved], [Swap(k, pm[i].src, pm[i].dst)] + code, c, i, k)
    ensures Closed(pm, st[i := Moved], c)
  {
  }

  /** The start of the cycle needs no instruction: its destination already holds its source. */
  lemma CloseCycle(pm: seq<Move>, st: seq<Status>, code: seq<Ins>, c: int, top: int, k: Cls)
    requires |st| == |pm| && 0 <= top < |pm| && 0 <= c < |pm|
    requires pm[c].src == pm[top].dst && st[top].Moved?
    requires Closed(pm, st, c) && DistinctDst(pm) && (Wide(pm[c].cls) ==> Wide(k))
    requires Realises(pm, st, code, c, top, k)
    ensures Realises(pm, st[c := Moved], code, -1, c, k)
    ensures Closed(pm, st[c := Moved], -1)
  {
  }

  /** A move onto itself needs no instruction. */
  lemma SkipSelf(pm: seq<Move>, st: seq<Status>, code: seq<Ins>, i: int, k: Cls)
    requires |st| == |pm| && 0 <= i < |pm| && DistinctDst(pm)
    requires pm[i].src == pm[i].dst && !st[i].Moved? && Closed(pm, st, -1)
    requires Realises(pm, st, code, -1, i, k)
    ensures Realises(pm, st[i := Moved], code, -1, i, k)
    ensures Closed(pm, st[i := Moved], -1)
  {
  }

  /** The moves still to be finished; at most one instruction is emitted for each. */
  ghost function Pending(st: seq<Status>): set<int> {
    set i | 0 <= i < |st| && !st[i].Moved?
  }

  ghost function Untouched(st: seq<Status>): set<int> {
    set i | 0 <= i < |st| && st[i].ToMove?
  }

  lemma NoCycle(pm: seq<Move>, st: seq<Status>, code: seq<Ins>, i: int, k: Cls, i': int, k': Cls)
    requires |st| == |pm| && 0 <= i < |pm| && 0 <= i' < |pm|
    requires Realises(pm, st, code, -1, i, k)
    ensures Realises(pm, st, code, -1, i', k')
  {
  }

  lemma PendingShrinks(st: seq<Status>, i: int)
    requires 0 <= i < |st| && !st[i].Moved?
    ensures |Pending(st[i := Moved])| == |Pending(st)| - 1
  {
    assert Pending(st[i := Moved]) == Pending(st) - {i};
  }

  lemma UntouchedShrinks(st: seq<Status>, i: int)
    requires 0 <= i < |st| && st[i].ToMove?
    ensures |Untouched(st[i := Moving])| == |Untouched(st)| - 1
    ensures Pending(st[i := Moving]) == Pending(st)
  {
    assert Untouched(st[i := Moving]) == Untouched(st) - {i};
  }

  /** Going down into the move that overwrites the source of i changes no finished move. */
  lemma BeginMove(pm: seq<Move>, st: seq<Status>, code: seq<Ins>, i: int, j: int, k: Cls)
    requires |st| == |pm| && 0 <= i < |pm| && 0 <= j < |pm| && st[i].ToMove?
    requires Closed(pm, st, -1) && Realises(pm, st, code, -1, i, k)
    ensures Closed(pm, st[i := Moving], -1) && Realises(pm, st[i := Moving], code, -1, j, k)
    ensures |Untouched(st[i := Moving])| < |Untouched(st)| && Pending(st[i := Moving]) == Pending(st)
  {
    UntouchedShrinks(st, i);
    var st' := st[i := Moving];
    assert forall x :: 0 <= x < |pm| ==> st'[x].Moved? == st[x].Moved?;
    forall s: Store, ext: Target
      ensures RealisesOn(pm, st', Run(code, s, ext), s, -1, j, k)
    {
      assert RealisesOn(pm, st, Run(code, s, ext), s, -1, i, k);
      assert forall l :: MovedDst(pm, st, l) ==> MovedDst(pm, st', l);
    }
  }

  lemma PendingBound(st: seq<Status>)
    ensures |Pending(st)| <= |st|
  {
    SubsetSize(Pending(st), Below(|st|));
  }

  lemma StartsEmpty(pm: seq<Move>, st: seq<Status>, code: seq<Ins>)
    requires |st| == |pm| && code == [] && forall i :: 0 <= i < |st| ==> st[i].ToMove?
    ensures Closed(pm, st, -1)
    ensures |pm| > 0 ==> Realises(pm, st, code, -1, 0, Kw)
  {
  }

  lemma AllMoved(pm: seq<Move>, st: seq<Status>, code: seq<Ins>)
    requires |st| == |pm| && forall i :: 0 <= i < |st| ==> st[i].Moved?
    requires |pm| > 0 ==> Realises(pm, st, code, -1, 0, Kw)
    requires |pm| == 0 ==> code == []
    ensures Implements(pm, code)
  {
  }

  /** From one status to a later one: only untouched moves have been finished, and i. */
  ghost predicate Progress(st: seq<Status>, st': seq<Status>, i: int) {
    |st| == |st'| && forall x :: 0 <= x < |st| && x != i ==> st'[x] == st[x] || (st[x].ToMove? && st'[x].Moved?)
  }

  /** A transfer of class k is wide enough for every move under way. */
  ghost predicate CoversOpen(pm: seq<Move>, st: seq<Status>, k: Cls)
    requires |st| == |pm|
  {
    forall m :: 0 <= m < |pm| && st[m].Moving? && Wide(pm[m].cls) ==> Wide(k)
  }

  /** No finished move reads l. */
  ghost predicate Unread(pm: seq<Move>, st: seq<Status>, l: Loc)
    requires |st| == |pm|
  {
    forall j :: 0 <= j < |pm| && st[j].Moved? ==> pm[j].src != l
  }

  /** What pmrec relies on when it is called for move i: the widest class on
      the way here is k, and room instructions may still be emitted. */
  ghost predicate Before(pm: seq<Move>, st: seq<Status>, code: seq<Ins>, i: int, k: Cls, room: int) {
    && |st| == |pm| && 0 <= i < |pm| && st[i].ToMove?
    && DistinctDst(pm) && OneBase(pm)
    && |Pending(st)| <= room
    && Closed(pm, st, -1) && Realises(pm, st, code, -1, i, k)
    && (pm[i].src != pm[i].dst ==> IntBase(pm[i].cls) == IntBase(k))
    && CoversOpen(pm, st, k)
  }

  /** What pmrec has done for move i when it returns c: see Realises. */
  ghost predicate After(pm: seq<Move>, st: seq<Status>, k: Cls, i: int,
                        st': seq<Status>, code': seq<Ins>, c: int, k': Cls, room': int) {
    && |st| == |st'| == |pm| && 0 <= i < |pm|
    && st'[i].Moved? && Progress(st, st', i)
    && |Pending(st')| <= room'
    && -1 <= c < |pm| && (c >= 0 ==> st'[c].Moving?)
    && Closed(pm, st', c) && Realises(pm, st', code', c, i, k')
    && (c >= 0 ==> Unread(pm, st', pm[i].dst))
    && (Wide(k) ==> Wide(k')) && IntBase(k) == IntBase(k')
  }

  lemma SelfMove(pm: seq<Move>, st: seq<Status>, code: seq<Ins>, i: int, k: Cls, room: int)
    requires Before(pm, st, code, i, k, room) && pm[i].src == pm[i].dst
    ensures After(pm, st, k, i, st[i := Moved], code, -1, k, room)
  {
    SkipSelf(pm, st, code, i, k);
    PendingShrinks(st, i);
  }

  lemma CycleFound(pm: seq<Move>, st: seq<Status>, code: seq<Ins>, i: int, j: int, k: Cls, k': Cls, room: int)
    requires Before(pm, st, code, i, k, room) && pm[i].src != pm[i].dst && k' == Or(k, pm[i].cls)
    requires 0 <= j < |pm| && pm[j].dst == pm[i].src && st[j].Moving?
    ensures room > 0
    ensures After(pm, st, k, i, st[i := Moved], [Swap(k', pm[i].src, pm[i].dst)] + code, j, k', room - 1)
  {
    NoCycle(pm, st, code, i, k, i, k');
    OpenCycle(pm, st, code, i, j, k');
    PendingShrinks(st, i);
  }

  lemma Descend(pm: seq<Move>, st: seq<Status>, code: seq<Ins>, i: int, j: int, k: Cls, k': Cls, room: int)
    requires Before(pm, st, code, i, k, room) && pm[i].src != pm[i].dst && k' == Or(k, pm[i].cls)
    requires 0 <= j < |pm| && pm[j].dst == pm[i].src && st[j].ToMove?
    ensures Before(pm, st[i := Moving], code, j, k', room)
    ensures |Untouched(st[i := Moving])| < |Untouched(st)|
  {
    NoCycle(pm, st, code, i, k, i, k');
    BeginMove(pm, st, code, i, j, k');
  }

  /** Back from the move j that overwrites the source of i, which turned out to start the cycle. */
  lemma CycleEnds(pm: seq<Move>, st: seq<Status>, i: int, j: int, k: Cls, k1: Cls,
                  st': seq<Status>, code': seq<Ins>, k': Cls, room': int)
    requires |st| == |pm| && 0 <= i < |pm| && DistinctDst(pm) && st[i].ToMove?
    requires k1 == Or(k, pm[i].cls) && IntBase(k) == IntBase(pm[i].cls)
    requires 0 <= j < |pm| && j != i && pm[j].dst == pm[i].src && st[j].ToMove?
    requires After(pm, st[i := Moving], k1, j, st', code', i, k', room')
    ensures After(pm, st, k, i, st'[i := Moved], code', -1, k', room')
  {
    CloseCycle(pm, st', code', i, j, k');
    PendingShrinks(st', i);
  }

  lemma CycleGoesOn(pm: seq<Move>, st: seq<Status>, i: int, j: int, k: Cls, k1: Cls,
                    st': seq<Status>, code': seq<Ins>, c: int, k': Cls, room': int)
    requires |st| == |pm| && 0 <= i < |pm| && DistinctDst(pm) && st[i].ToMove?
    requires k1 == Or(k, pm[i].cls) && IntBase(k) == IntBase(pm[i].cls) && pm[i].src != pm[i].dst
    requires 0 <= j < |pm| && j != i && pm[j].dst == pm[i].src && st[j].ToMove?
    requires c != -1 && c != i && After(pm, st[i := Moving], k1, j, st', code', c, k', room')
    ensures room' > 0
    ensures After(pm, st, k, i, st'[i := Moved], [Swap(k', pm[i].src, pm[i].dst)] + code', c, k', room' - 1)
  {
    ExtendCycle(pm, st', code', i, j, c, k');
    PendingShrinks(st', i);
  }

  lemma NoCycleThere(pm: seq<Move>, st: seq<Status>, i: int, j: int, k: Cls, k1: Cls,
                     st': seq<Status>, code': seq<Ins>, k': Cls, room': int)
    requires |st| == |pm| && 0 <= i < |pm| && DistinctDst(pm) && st[i].ToMove?
    requires k1 == Or(k, pm[i].cls) && IntBase(k) == IntBase(pm[i].cls)
    requires 0 <= j < |pm| && j != i && pm[j].dst == pm[i].src && st[j].ToMove?
    requires After(pm, st[i := Moving], k1, j, st', code', -1, k', room')
    ensures room' > 0
    ensures After(pm, st, k, i, st'[i := Moved], [Copy(pm[i].cls, pm[i].dst, pm[i].src)] + code', -1, k', room' - 1)
  {
    NoCycle(pm, st', code', j, k', i, k');
    EmitCopy(pm, st', code', i, k');
    PendingShrinks(st', i);
  }

  lemma NothingToWaitFor(pm: seq<Move>, st: seq<Status>, code: seq<Ins>, i: int, j: int, k: Cls, k': Cls, room: int)
    requires Before(pm, st, code, i, k, room) && pm[i].src != pm[i].dst && k' == Or(k, pm[i].cls)
    requires 0 <= j <= |pm| && (j < |pm| ==> pm[j].dst == pm[i].src && st[j].Moved?)
    requires forall x :: 0 <= x < j ==> pm[x].dst != pm[i].src
    ensures room > 0
    ensures After(pm, st, k, i, st[i := Moved], [Copy(pm[i].cls, pm[i].dst, pm[i].src)] + code, -1, k', room - 1)
  {
    NoCycle(pm, st, code, i, k, i, k');
    EmitCopy(pm, st, code, i, k');
    PendingShrinks(st, i);
  }

  // ----- Where the instructions come from -----

  ghost predicate SomeWide(pm: seq<Move>, k: Cls) {
    Wide(k) ==> exists j :: 0 <= j < |pm| && Wide(pm[j].cls)
  }

  /** A copy is a move as it stands. A swap is for a move too, and wide only if some move is. */
  ghost predicate FromMove(pm: seq<Move>, m: Move, i: Ins) {
    m.src != m.dst &&
    match i
    case Copy(k, to, arg) => m == Move(arg, to, k)
    case Swap(k, a, b) => m.src == a && m.dst == b && IntBase(k) == IntBase(m.cls) && (Wide(m.cls) ==> Wide(k)) && SomeWide(pm, k)
  }

  /** Each instruction is for a move of its own. */
  ghost predicate OwnMoves(pm: seq<Move>, code: seq<Ins>, from: seq<nat>) {
    && |from| == |code| && (forall x :: 0 <= x < |from| ==> from[x] < |pm| && FromMove(pm, pm[from[x]], code[x]))
    && forall x, y :: 0 <= x < y < |from| ==> from[x] != from[y]
  }

  ghost predicate Origins(pm: seq<Move>, st: seq<Status>, code: seq<Ins>, from: seq<nat>) {
    |st| == |pm| && OwnMoves(pm, code, from) && forall x :: 0 <= x < |from| ==> from[x] < |st| && st[from[x]].Moved?
  }

  lemma OriginsNone(pm: seq<Move>, st: seq<Status>)
    requires |st| == |pm|
    ensures Origins(pm, st, [], [])
  {
  }

  lemma OriginsOwn(pm: seq<Move>, st: seq<Status>, code: seq<Ins>, from: seq<nat>)
    requires Origins(pm, st, code, from)
    ensures OwnMoves(pm, code, from)
  {
  }

  lemma MoveWide(pm: seq<Move>, i: nat)
    requires i < |pm|
    ensures SomeWide(pm, pm[i].cls)
  {
  }

  lemma OriginsMore(pm: seq<Move>, st: seq<Status>, code: seq<Ins>, from: seq<nat>, i: nat, ins: Ins)
    requires Origins(pm, st, code, from) && i < |pm| && !st[i].Moved? && FromMove(pm, pm[i], ins)
    ensures Origins(pm, st[i := Moved], [ins] + code, [i] + from)
  {
  }

  lemma OriginsCopy(pm: seq<Move>, st: seq<Status>, code: seq<Ins>, from: seq<nat>, i: nat)
    requires Origins(pm, st, code, from) && i < |pm| && !st[i].Moved? && pm[i].src != pm[i].dst
    ensures Origins(pm, st[i := Moved], [Copy(pm[i].cls, pm[i].dst, pm[i].src)] + code, [i] + from)
  {
    OriginsMore(pm, st, code, from, i, Copy(pm[i].cls, pm[i].dst, pm[i].src));
  }

  lemma OriginsSwap(pm: seq<Move>, st: seq<Status>, code: seq<Ins>, from: seq<nat>, i: nat, k: Cls)
    requires Origins(pm, st, code, from) && i < |pm| && !st[i].Moved? && pm[i].src != pm[i].dst
    requires IntBase(k) == IntBase(pm[i].cls) && (Wide(pm[i].cls) ==> Wide(k)) && SomeWide(pm, k)
    ensures Origins(pm, st[i := Moved], [Swap(k, pm[i].src, pm[i].dst)] + code, [i] + from)
  {
    OriginsMore(pm, st, code, from, i, Swap(k, pm[i].src, pm[i].dst));
  }

  /** The class that pmrec goes on with. */
  lemma OrCovers(pm: seq<Move>, i: nat, k: Cls)
    requires i < |pm| && IntBase(pm[i].cls) == IntBase(k) && SomeWide(pm, k)
    ensures var k' := Or(k, pm[i].cls); IntBase(k') == IntBase(k) && (Wide(pm[i].cls) ==> Wide(k')) && SomeWide(pm, k')
  {
  }

  lemma OriginsStay(pm: seq<Move>, st: seq<Status>, code: seq<Ins>, from: seq<nat>, i: nat, s: Status)
    requires Origins(pm, st, code, from) && i < |pm| && !st[i].Moved?
    ensures Origins(pm, st[i := s], code, from)
  {
  }

  lemma NotYet(pm: seq<Move>, st: seq<Status>, code: seq<Ins>, i: nat, k: Cls, room: int)
    requires Before(pm, st, code, i, k, room)
    ensures |st| == |pm| && DistinctDst(pm) && st[i].ToMove? && (pm[i].src != pm[i].dst ==> IntBase(pm[i].cls) == IntBase(k))
  {
  }

  /** The recursion for another move leaves i under way, and the class is at least as wide. */
  lemma StillMoving(pm: seq<Move>, st: seq<Status>, k: Cls, i: nat, j: nat, st': seq<Status>, code': seq<Ins>, c: int, k': Cls, room': int)
    requires After(pm, st, k, j, st', code', c, k', room') && i < |pm| && i != j && st[i].Moving?
    ensures st'[i].Moving? && (Wide(k) ==> Wide(k')) && IntBase(k) == IntBase(k')
  {
  }

  class Mover {
    var pm: array<Move>
    var npm: nat
    var insb: array<Ins>
    var curi: nat

    ghost predicate Valid()
      reads this
    {
      npm <= pm.Length && curi <= insb.Length
    }

    ghost function Moves(): seq<Move>
      reads this, pm
      requires npm <= pm.Length
    {
      pm[..npm]
    }

    /** The instruction buffer is filled from its end. */
    method Emit(i: Ins, ghost base: nat)
      requires Valid() && 0 < curi <= base <= insb.Length
      modifies insb, this`curi
      ensures Valid() && curi == old(curi) - 1
      ensures insb[curi..base] == [i] + old(insb[curi..base])
      ensures insb[base..] == old(insb[base..])
    {
      curi := curi - 1;
      insb[curi] := i;
    }

    /** False stands for the abort when there are more moves than registers. */
    method PmAdd(src: Loc, dst: Loc, k: Cls) returns (ok: bool)
      requires Valid()
      modifies pm, this`npm
      ensures Valid() && ok == (old(npm) < pm.Length)
      ensures Moves() == if ok then old(Moves()) + [Move(src, dst, k)] else old(Moves())
    {
      ok := npm < pm.Length;
      if ok {
        pm[npm] := Move(src, dst, k);
        npm := npm + 1;
      }
    }

    /** The first move that overwrites l, or npm. */
    method FindWriter(l: Loc) returns (j: nat)
      requires Valid()
      ensures j <= npm && (j < npm ==> pm[j].dst == l)
      ensures forall x :: 0 <= x < j ==> pm[x].dst != l
    {
      j := 0;
      while j < npm && pm[j].dst != l
        invariant 0 <= j <= npm
        invariant forall x :: 0 <= x < j ==> pm[x].dst != l
      {
        j := j + 1;
      }
    }

    method PmRec(status: array<Status>, i: nat, k: Cls, ghost base: nat, ghost from: seq<nat>) returns (c: int, k': Cls, ghost from': seq<nat>)
      requires Valid() && status.Length == npm && i < npm && curi <= base <= insb.Length
      requires Before(Moves(), status[..], insb[curi..base], i, k, curi)
      requires Origins(Moves(), status[..], insb[curi..base], from) && SomeWide(Moves(), k)
      modifies insb, this`curi, status
      ensures Valid() && curi <= base && insb[base..] == old(insb[base..])
      ensures After(Moves(), old(status[..]), k, i, status[..], insb[curi..base], c, k', curi)
      ensures Origins(Moves(), status[..], insb[curi..base], from') && SomeWide(Moves(), k')
      decreases |Untouched(status[..])|
    {
      hide Realises, Run, OneBase, DistinctDst, Closed, CoversOpen, Progress, Unread, Pending, Untouched, Before, After, Origins, SomeWide, Or, IntBase, Wide;
      ghost var ms, st := Moves(), status[..];
      from' := from;
      NotYet(ms, st, insb[curi..base], i, k, curi);
      if pm[i].src == pm[i].dst {
        SelfMove(ms, st, insb[curi..base], i, k, curi);
        OriginsStay(ms, st, insb[curi..base], from, i, Moved);
        status[i] := Moved;
        assert status[..] == st[i := Moved];
        return -1, k, from;
      }
      assert IntBase(pm[i].cls) == IntBase(k);
      OrCovers(ms, i, k);
      k' := Or(k, pm[i].cls);
      ghost var k1 := k';
      var j := FindWriter(pm[i].src);
      if j < npm && status[j].Moving? {
        c := j; // start of cycle
        CycleFound(ms, st, insb[curi..base], i, j, k, k', curi);
        OriginsSwap(ms, st, insb[curi..base], from, i, k');
        from' := [i] + from;
        Emit(Swap(k', pm[i].src, pm[i].dst), base);
      } else if j < npm && status[j].ToMove? {
        Descend(ms, st, insb[curi..base], i, j, k, k', curi);
        OriginsStay(ms, st, insb[curi..base], from, i, Moving);
        status[i] := Moving;
        assert status[..] == st[i := Moving];
        c, k', from' := PmRec(status, j, k', base, from);
        ghost var st' := status[..];
        StillMoving(ms, st[i := Moving], k1, i, j, st', insb[curi..base], c, k', curi);
        if c == i {
          c := -1; // end of cycle
          CycleEnds(ms, st, i, j, k, k1, st', insb[curi..base], k', curi);
          OriginsStay(ms, st', insb[curi..base], from', i, Moved);
        } else if c != -1 {
          CycleGoesOn(ms, st, i, j, k, k1, st', insb[curi..base], c, k', curi);
          OriginsSwap(ms, st', insb[curi..base], from', i, k');
          from' := [i] + from';
          Emit(Swap(k', pm[i].src, pm[i].dst), base);
        } else {
          NoCycleThere(ms, st, i, j, k, k1, st', insb[curi..base], k', curi);
          OriginsCopy(ms, st', insb[curi..base], from', i);
          from' := [i] + from';
          Emit(Copy(pm[i].cls, pm[i].dst, pm[i].src), base);
        }
      } else {
        c := -1;
        NothingToWaitFor(ms, st, insb[curi..base], i, j, k, k', curi);
        OriginsCopy(ms, st, insb[curi..base], from, i);
        from' := [i] + from;
        Emit(Copy(pm[i].cls, pm[i].dst, pm[i].src), base);
      }
      ghost var st' := status[..];
      status[i] := Moved;
      assert status[..] == st'[i := Moved];
    }

    /** Sequentialises the moves in pm. The new instructions are those between
        the new and the old cursor; their execution order is the order of the buffer. */
    method PmGen() returns (ghost from: seq<nat>)
      requires Valid() && npm <= curi
      requires DistinctDst(Moves()) && OneBase(Moves())
      modifies insb, this`curi
      ensures Valid() && curi <= old(curi)
      ensures insb[old(curi)..] == old(insb[curi..])
      ensures Implements(Moves(), insb[curi..old(curi)])
      ensures OwnMoves(Moves(), insb[curi..old(curi)], from)
    {
      hide Origins, OwnMoves, SomeWide;
      var status := new Status[npm](_ => ToMove);
      ghost var base := curi;
      ghost var ms := Moves();
      PendingBound(status[..]);
      StartsEmpty(ms, status[..], insb[curi..base]);
      from := [];
      OriginsNone(ms, status[..]);
      var i := 0;
      while i < npm
        invariant Valid() && curi <= base && 0 <= i <= npm
        invariant |Pending(status[..])| <= curi
        invariant insb[base..] == old(insb[curi..])
        invariant forall x :: 0 <= x < npm ==> !status[x].Moving? && (x < i ==> status[x].Moved?)
        invariant Closed(ms, status[..], -1)
        invariant npm == 0 ==> curi == base
        invariant Origins(ms, status[..], insb[curi..base], from)
        invariant npm > 0 ==> Realises(ms, status[..], insb[curi..base], -1, 0, Kw)
      {
        if status[i].ToMove? {
          NoCycle(ms, status[..], insb[curi..base], 0, Kw, i, pm[i].cls);
          MoveWide(ms, i);
          var c, k';
          c, k', from := PmRec(status, i, pm[i].cls, base, from);
          NoCycle(ms, status[..], insb[curi..base], i, k', 0, Kw);
        }
        i := i + 1;
      }
      AllMoved(ms, status[..], insb[curi..base]);
      OriginsOwn(ms, status[..], insb[curi..base], from);
    }
  }
}
