/** Reverse postorder numbering of the blocks of a function (fillrpo in
    lib/qbe-1.0/cfg.c). Before numbering, blocks are named by their place in
    the block list, the start block being 0; null is -1. */
module ReversePostorder {
  import opened Finite
  import Dominators

  /** The successors of every block. */
  datatype Graph = Graph(s1: seq<int>, s2: seq<int>)

  ghost predicate WellFormed(g: Graph) {
    0 < |g.s1| == |g.s2| &&
    forall b :: 0 <= b < |g.s1| ==> -1 <= g.s1[b] < |g.s1| && -1 <= g.s2[b] < |g.s1|
  }

  ghost predicate Edge(g: Graph, u: nat, v: nat) {
    u < |g.s1| && u < |g.s2| && (g.s1[u] == v || g.s2[u] == v)
  }

  ghost predicate Walk(g: Graph, p: seq<nat>) {
    p != [] && p[0] < |g.s1| && forall i, j :: 0 <= i < j < |p| && j == i + 1 ==> Edge(g, p[i], p[j])
  }

  ghost predicate Reaches(g: Graph, u: nat, v: nat) {
    exists p :: Walk(g, p) && p[0] == u && p[|p| - 1] == v
  }

  /** The state of the depth-first search: the finished blocks and the stack of open ones. */
  ghost predicate Inv(g: Graph, id: seq<int>, x: int, black: set<nat>, stack: seq<nat>) {
    && WellFormed(g) && |id| == |g.s1|
    && Colours(id, black, stack) && (stack != [] ==> Walk(g, stack) && stack[0] == 0)
    && Numbers(id, x, black)
    && Finished(g, id, black, stack)
  }

  /** Exactly the blocks that are neither finished nor open still have the number -1. */
  ghost predicate Colours(id: seq<int>, black: set<nat>, stack: seq<nat>) {
    && Distinct(stack)
    && (forall b :: b in black ==> b < |id| && b !in stack)
    && (forall b :: b in stack ==> b < |id|)
    && (forall b :: 0 <= b < |id| ==> (id[b] == -1 <==> b !in black && b !in stack))
  }

  ghost predicate Finished(g: Graph, id: seq<int>, black: set<nat>, stack: seq<nat>) {
    forall b {:trigger FinishedOk(g, id, black, stack, b)} :: b in black ==> FinishedOk(g, id, black, stack, b)
  }

  /** The finished blocks carry the numbers above x, each one once. */
  ghost predicate Numbers(id: seq<int>, x: int, black: set<nat>) {
    && -1 <= x && |black| == |id| - 1 - x
    && (forall b :: b in black ==> b < |id| && x < id[b] < |id|)
    && (forall b, c :: b in black && c in black && b != c ==> id[b] != id[c])
  }

  /** A finished block is reachable, has a predecessor that has (or will get) a
      lower number, and an edge from it to a number that is not higher closes a cycle. */
  ghost predicate FinishedOk(g: Graph, id: seq<int>, black: set<nat>, stack: seq<nat>, b: nat) {
    && b < |id| && Reaches(g, 0, b)
    && (b != 0 ==> HasParent(g, id, black, stack, b))
    && (forall v: nat :: Edge(g, b, v) ==> EdgeOk(g, id, black, stack, b, v))
  }

  ghost predicate HasParent(g: Graph, id: seq<int>, black: set<nat>, stack: seq<nat>, b: nat)
    requires b < |id|
  {
    exists u: nat :: Edge(g, u, b) && (u in stack || (u in black && u < |id| && id[u] < id[b]))
  }

  ghost predicate EdgeOk(g: Graph, id: seq<int>, black: set<nat>, stack: seq<nat>, b: nat, v: nat)
    requires b < |id|
  {
    (v in black || v in stack) && ((v in black && v < |id| && id[v] > id[b]) || Reaches(g, v, b))
  }

  lemma StackReaches(g: Graph, stack: seq<nat>, j: nat)
    requires Walk(g, stack) && j < |stack| && stack[j] < |g.s1|
    ensures Reaches(g, stack[j], stack[|stack| - 1])
  {
    var p := stack[j..];
    assert Walk(g, p);
  }

  /** The blocks that the search has not seen. */
  ghost function White(id: seq<int>): set<int> {
    set b | 0 <= b < |id| && id[b] == -1
  }

  lemma OnTop(g: Graph, stack: seq<nat>, b: nat)
    ensures forall c :: c in stack + [b] <==> c in stack || c == b
    ensures b < |g.s1| ==>
      (Walk(g, stack + [b]) <==> stack == [] || (Walk(g, stack) && Edge(g, stack[|stack| - 1], b)))
    ensures Distinct(stack + [b]) <==> Distinct(stack) && b !in stack
  {
    var st := stack + [b];
    assert forall i :: 0 <= i < |stack| ==> st[i] == stack[i];
    assert st[|stack|] == b;
    if stack != [] && Walk(g, st) {
      assert Edge(g, st[|stack| - 1], st[|stack|]);
      assert st[0] == stack[0];
    }
  }

  /** Opening block b, on top of its parent. */
  lemma Push(g: Graph, id: seq<int>, x: int, black: set<nat>, stack: seq<nat>, b: nat)
    requires Inv(g, id, x, black, stack) && b < |id| && id[b] == -1
    requires if stack == [] then b == 0 else Edge(g, stack[|stack| - 1], b)
    ensures Inv(g, id[b := 1], x, black, stack + [b])
    ensures White(id[b := 1]) < White(id)
  {
    OnTop(g, stack, b);
    assert b in White(id) && b !in White(id[b := 1]);
    forall c | c in black
      ensures FinishedOk(g, id[b := 1], black, stack + [b], c)
    {
      StillFinished(g, id, id[b := 1], black, black, stack, stack + [b], c);
    }
  }

  /** A finished block stays finished when blocks are opened or finished. */
  lemma StillFinished(g: Graph, id: seq<int>, id': seq<int>, black: set<nat>, black': set<nat>,
                      stack: seq<nat>, stack': seq<nat>, c: nat)
    requires c in black && FinishedOk(g, id, black, stack, c) && |id| == |id'| && black <= black'
    requires forall u :: u in black ==> u < |id| && id'[u] == id[u]
    requires forall u :: u in stack ==> u in stack' || (u in black' && u < |id| && id'[u] < id[c])
    ensures FinishedOk(g, id', black', stack', c)
  {
    if c != 0 {
      var u: nat :| Edge(g, u, c) && (u in stack || (u in black && u < |id| && id[u] < id[c]));
      assert u in stack' || (u in black' && u < |id'| && id'[u] < id'[c]);
    }
    forall v: nat | Edge(g, c, v)
      ensures EdgeOk(g, id', black', stack', c, v)
    {
      assert EdgeOk(g, id, black, stack, c, v);
    }
  }

  lemma RoomForOne(id: seq<int>, x: int, black: set<nat>, b: nat)
    requires Numbers(id, x, black) && b < |id| && b !in black
    ensures x >= 0
  {
    SubsetSize(black + {b}, Below(|id|));
  }

  /** The number x is new, and lower than the others. */
  lemma NewNumber(id: seq<int>, x: int, black: set<nat>, b: nat)
    requires Numbers(id, x, black) && b < |id| && b !in black && x >= 0
    ensures Numbers(id[b := x], x - 1, black + {b})
  {
  }

  /** Block b has just been finished. */
  lemma JustFinished(g: Graph, id: seq<int>, x: int, black: set<nat>, stack: seq<nat>, b: nat)
    requires b < |id| && Inv(g, id, x, black, stack + [b]) && x >= 0
    requires forall v: nat :: Edge(g, b, v) ==> v in black || v in stack + [b]
    ensures FinishedOk(g, id[b := x], black + {b}, stack, b)
  {
    var st, id' := stack + [b], id[b := x];
    OnTop(g, stack, b);
    StackReaches(g, st, 0);
    if b != 0 {
      assert stack != [] by {
        assert st[0] == 0;
      }
      var u := stack[|stack| - 1];
      assert Edge(g, u, b) && u in stack;
    }
    forall v: nat | Edge(g, b, v)
      ensures EdgeOk(g, id', black + {b}, stack, b, v)
    {
      if v !in black {
        var j :| 0 <= j < |st| && st[j] == v;
        StackReaches(g, st, j);
      }
    }
  }

  lemma AllFinished(g: Graph, id: seq<int>, x: int, black: set<nat>, stack: seq<nat>, b: nat)
    requires b < |id| && Inv(g, id, x, black, stack + [b]) && x >= 0
    requires forall v: nat :: Edge(g, b, v) ==> v in black || v in stack + [b]
    ensures Finished(g, id[b := x], black + {b}, stack)
  {
    OnTop(g, stack, b);
    forall c | c in black + {b}
      ensures FinishedOk(g, id[b := x], black + {b}, stack, c)
    {
      if c == b {
        JustFinished(g, id, x, black, stack, b);
      } else {
        assert FinishedOk(g, id, black, stack + [b], c);
        StillFinished(g, id, id[b := x], black, black + {b}, stack + [b], stack, c);
      }
    }
  }

  /** Finishing block b with number x, once its successors have been dealt with. */
  lemma Pop(g: Graph, id: seq<int>, x: int, black: set<nat>, stack: seq<nat>, b: nat)
    requires b < |id| && Inv(g, id, x, black, stack + [b])
    requires forall v: nat :: Edge(g, b, v) ==> v in black || v in stack + [b]
    ensures x >= 0 && Inv(g, id[b := x], x - 1, black + {b}, stack)
  {
    OnTop(g, stack, b);
    RoomForOne(id, x, black, b);
    NewNumber(id, x, black, b);
    AllFinished(g, id, x, black, stack, b);
    assert stack != [] ==> stack[0] == (stack + [b])[0];
  }

  /** The finished blocks are all reachable ones. */
  lemma {:induction false} ReachedFinished(g: Graph, id: seq<int>, x: int, black: set<nat>, p: seq<nat>)
    requires Inv(g, id, x, black, []) && 0 in black && Walk(g, p) && p[0] == 0
    ensures p[|p| - 1] in black
    decreases |p|
  {
    if |p| > 1 {
      var q := p[..|p| - 1];
      ReachedFinished(g, id, x, black, q);
      assert Edge(g, p[|p| - 2], p[|p| - 1]);
      assert FinishedOk(g, id, black, [], q[|q| - 1]);
      assert EdgeOk(g, id, black, [], q[|q| - 1], p[|p| - 1]);
    }
  }

  lemma {:induction false} ImageSize(id: seq<int>, s: set<nat>)
    requires forall b :: b in s ==> b < |id|
    requires forall b, c :: b in s && c in s && b != c ==> id[b] != id[c]
    ensures |set b | b in s :: id[b]| == |s|
  {
    if b :| b in s {
      ImageSize(id, s - {b});
      assert (set c | c in s :: id[c]) == (set c | c in s - {b} :: id[c]) + {id[b]};
    }
  }

  /** Every number above x is in use. */
  lemma NumbersOnto(id: seq<int>, x: int, black: set<nat>, i: int)
    requires Numbers(id, x, black) && x < i < |id|
    ensures exists b :: b in black && id[b] == i
  {
    var used := set b | b in black :: id[b];
    ImageSize(id, black);
    if i !in used {
      SubsetSize(used, Below(|id|) - Below(x + 1) - {i});
    }
  }

  /** What fillrpo establishes: exactly the reachable blocks are numbered, without gaps,
      starting from the start block; rpo is the inverse; every other numbered block has
      a predecessor with a lower number; and an edge that does not go
      to a higher number closes a cycle. */
  ghost predicate Numbering(g: Graph, id: seq<int>, rpo: seq<nat>) {
    && WellFormed(g) && |id| == |g.s1| && id[0] == 0 && 0 < |rpo| <= |id|
    && (forall b :: 0 <= b < |id| ==> if Reaches(g, 0, b) then 0 <= id[b] < |rpo| && rpo[id[b]] == b else id[b] == -1)
    && (forall i :: 0 <= i < |rpo| ==> rpo[i] < |id| && id[rpo[i]] == i)
    && LowerPreds(g, id) && HigherOrCycle(g, id)
  }

  ghost predicate LowerPreds(g: Graph, id: seq<int>) {
    forall b {:trigger LowerPred(g, id, b)} :: 0 < b < |id| && id[b] >= 0 ==> LowerPred(g, id, b)
  }

  ghost predicate LowerPred(g: Graph, id: seq<int>, b: nat)
    requires b < |id|
  {
    exists u: nat :: u < |id| && Edge(g, u, b) && 0 <= id[u] < id[b]
  }

  ghost predicate HigherOrCycle(g: Graph, id: seq<int>) {
    forall u: nat, v: nat {:trigger Edge(g, u, v)} :: u < |id| && v < |id| && id[u] >= 0 && Edge(g, u, v)
      ==> id[v] > id[u] || Reaches(g, v, u)
  }

  /** id is id0 shifted down by n. */
  ghost predicate Shifted(id0: seq<int>, id: seq<int>, n: int) {
    |id| == |id0| && forall b :: 0 <= b < |id| ==> id[b] == if id0[b] == -1 then -1 else id0[b] - n
  }

  lemma FinishPreds(g: Graph, id0: seq<int>, x: int, black: set<nat>, id: seq<int>)
    requires Inv(g, id0, x, black, []) && Shifted(id0, id, x + 1)
    ensures LowerPreds(g, id)
  {
    forall b: nat | 0 < b < |id| && id[b] >= 0
      ensures LowerPred(g, id, b)
    {
      assert FinishedOk(g, id0, black, [], b);
      assert HasParent(g, id0, black, [], b);
    }
  }

  lemma FinishEdges(g: Graph, id0: seq<int>, x: int, black: set<nat>, id: seq<int>)
    requires Inv(g, id0, x, black, []) && Shifted(id0, id, x + 1)
    ensures HigherOrCycle(g, id)
  {
    forall u: nat, v: nat | u < |id| && v < |id| && id[u] >= 0 && Edge(g, u, v)
      ensures id[v] > id[u] || Reaches(g, v, u)
    {
      assert FinishedOk(g, id0, black, [], u);
      assert EdgeOk(g, id0, black, [], u, v);
    }
  }

  lemma StartSearch(g: Graph, id: seq<int>)
    requires WellFormed(g) && |id| == |g.s1| && forall b :: 0 <= b < |id| ==> id[b] == -1
    ensures Inv(g, id, |id| - 1, {}, [])
  {
  }

  lemma SearchDone(g: Graph, id: seq<int>, x: int, black: set<nat>)
    requires Inv(g, id, x, black, [])
    ensures Numbers(id, x, black) && |black| == |id| - (x + 1) && x >= -1
    ensures forall b :: 0 <= b < |id| ==> (id[b] == -1 <==> b !in black)
  {
  }

  /** The search is over; shifting the numbers down by x + 1 gives the numbering. */
  lemma Finish(g: Graph, id0: seq<int>, x: int, black: set<nat>, id: seq<int>, rpo: seq<nat>)
    requires Inv(g, id0, x, black, []) && 0 in black && id0[0] == x + 1 && Shifted(id0, id, x + 1)
    requires |rpo| == |black| && forall b :: b in black ==> rpo[id0[b] - (x + 1)] == b
    ensures Numbering(g, id, rpo)
  {
    FinishPreds(g, id0, x, black, id);
    FinishEdges(g, id0, x, black, id);
    forall b: nat | b < |id|
      ensures Reaches(g, 0, b) <==> b in black
    {
      if b in black {
        assert FinishedOk(g, id0, black, [], b);
      } else if Reaches(g, 0, b) {
        var p :| Walk(g, p) && p[0] == 0 && p[|p| - 1] == b;
        ReachedFinished(g, id0, x, black, p);
      }
    }
    forall i | 0 <= i < |rpo|
      ensures rpo[i] < |id| && id[rpo[i]] == i
    {
      NumbersOnto(id0, x, black, i + x + 1);
    }
  }

  /** The predecessor lists of the numbered blocks, by number, meet what the dominator computation needs. */
  lemma NumberedForDominators(g: Graph, id: seq<int>, rpo: seq<nat>, pred: Dominators.Preds)
    requires Numbering(g, id, rpo) && |pred| == |rpo| && Dominators.WellFormed(pred)
    requires forall i, j: nat :: 0 <= i < |rpo| && j < |rpo| ==> (j in pred[i] <==> Edge(g, rpo[j], rpo[i]))
    ensures Dominators.Numbered(pred)
  {
    forall i | 0 < i < |pred|
      ensures Dominators.HasLowerPred(pred, i)
    {
      assert LowerPred(g, id, rpo[i]);
      var u: nat :| u < |id| && Edge(g, u, rpo[i]) && 0 <= id[u] < id[rpo[i]];
      var p := id[u];
      assert rpo[p] == u && Edge(g, rpo[p], rpo[i]);
      assert p in pred[i] && p < i;
    }
  }

  // ----- The order of two successors -----

  ghost predicate OnAllWalks(g: Graph, a: nat, b: nat) {
    forall p :: Walk(g, p) && p[0] == 0 && p[|p| - 1] == b ==> a in p
  }

  /** The successor that is searched first (the one in the shallower loop), and the other one. */
  function FirstOf(g: Graph, loop: seq<int>, b: nat): int
    requires b < |g.s1| == |g.s2| && 0 <= g.s1[b] < |loop| && 0 <= g.s2[b] < |loop|
  {
    if loop[g.s1[b]] > loop[g.s2[b]] then g.s2[b] else g.s1[b]
  }

  function SecondOf(g: Graph, loop: seq<int>, b: nat): int
    requires b < |g.s1| == |g.s2| && 0 <= g.s1[b] < |loop| && 0 <= g.s2[b] < |loop|
  {
    if loop[g.s1[b]] > loop[g.s2[b]] then g.s1[b] else g.s2[b]
  }

  /** Two successors that can be reached through b only, of which the one that is searched first does not lead to the other. */
  ghost predicate Branches(g: Graph, loop: seq<int>, b: nat) {
    && b < |g.s1| == |g.s2| && 0 <= g.s1[b] < |loop| && 0 <= g.s2[b] < |loop| && g.s1[b] != g.s2[b] && g.s1[b] != b && g.s2[b] != b
    && OnAllWalks(g, b, g.s1[b]) && OnAllWalks(g, b, g.s2[b]) && !Reaches(g, FirstOf(g, loop, b), SecondOf(g, loop, b))
  }

  /** Then the other one, in the deeper loop if there is a difference, has the lower number. */
  ghost predicate BranchOk(g: Graph, loop: seq<int>, id: seq<int>, black: set<nat>, b: nat) {
    Branches(g, loop, b) ==>
      var u, v := FirstOf(g, loop, b), SecondOf(g, loop, b);
      u < |id| && v < |id| && u as nat in black && v as nat in black && id[v] < id[u]
  }

  ghost predicate BranchesOk(g: Graph, loop: seq<int>, id: seq<int>, black: set<nat>) {
    forall b :: b in black ==> BranchOk(g, loop, id, black, b)
  }

  /** Of two successors that can be reached through their predecessor only, the one in the shallower loop has the higher
      number (the first one, if there is no difference), unless it leads to the other one. */
  ghost predicate DeeperLower(g: Graph, loop: seq<int>, id: seq<int>) {
    forall b: nat :: b < |id| && id[b] >= 0 && Branches(g, loop, b) ==>
      var u, v := FirstOf(g, loop, b), SecondOf(g, loop, b);
      u < |id| && v < |id| && 0 <= id[v] < id[u]
  }

  lemma FinishBranches(g: Graph, loop: seq<int>, id0: seq<int>, x: int, black: set<nat>, id: seq<int>)
    requires Inv(g, id0, x, black, []) && Shifted(id0, id, x + 1) && BranchesOk(g, loop, id0, black)
    ensures DeeperLower(g, loop, id)
  {
    hide Branches;
    forall b: nat | b < |id| && id[b] >= 0 && Branches(g, loop, b)
      ensures BranchOk(g, loop, id0, black, b)
    {
      assert b in black;
    }
  }

  lemma NoBranches(g: Graph, loop: seq<int>, id: seq<int>)
    ensures BranchesOk(g, loop, id, {})
  {
  }

  lemma BranchesStay(g: Graph, loop: seq<int>, id: seq<int>, id': seq<int>, black: set<nat>, black': set<nat>)
    requires BranchesOk(g, loop, id, black) && |id'| == |id| && black <= black'
    requires forall c :: c in black ==> c < |id| && id'[c] == id[c]
    ensures forall b :: b in black ==> BranchOk(g, loop, id', black', b)
  {
    hide Branches;
    forall b | b in black
      ensures BranchOk(g, loop, id', black', b)
    {
      assert BranchOk(g, loop, id, black, b);
    }
  }

  /** A block that the search has seen can be reached over blocks that it has seen. */
  lemma {:induction false} SeenWalk(g: Graph, id: seq<int>, x: int, black: set<nat>, stack: seq<nat>, c: nat) returns (p: seq<nat>)
    requires Inv(g, id, x, black, stack) && stack != [] && (c in black || c in stack) && c < |id|
    ensures Walk(g, p) && p[0] == 0 && p[|p| - 1] == c && forall i :: 0 <= i < |p| ==> p[i] in black || p[i] in stack
    decreases if c in stack then 0 else 1 + |black|, if c in black then id[c] - x else 0
  {
    if c in stack {
      var k :| 0 <= k < |stack| && stack[k] == c;
      p := stack[..k + 1];
      assert Walk(g, p);
    } else {
      assert FinishedOk(g, id, black, stack, c) && HasParent(g, id, black, stack, c);
      var u: nat :| Edge(g, u, c) && (u in stack || (u in black && u < |id| && id[u] < id[c]));
      var q := SeenWalk(g, id, x, black, stack, u);
      p := q + [c];
      OnTop(g, q, c);
      WalkOn(g, q, c);
    }
  }

  lemma WalkOn(g: Graph, p: seq<nat>, v: nat)
    requires Walk(g, p) && Edge(g, p[|p| - 1], v)
    ensures Walk(g, p + [v])
  {
    var q := p + [v];
    forall i, j | 0 <= i < j < |q| && j == i + 1
      ensures Edge(g, q[i], q[j])
    {
      assert j < |p| ==> Edge(g, p[i], p[j]);
    }
  }

  /** What can be reached through b only has not been seen before b. */
  lemma NotSeenBefore(g: Graph, id: seq<int>, x: int, black: set<nat>, stack: seq<nat>, b: nat, c: nat)
    requires Inv(g, id, x, black, stack) && b < |id| && id[b] == -1 && c < |id| && OnAllWalks(g, b, c)
    requires stack == [] ==> black == {}
    ensures id[c] == -1
  {
    if c in black || c in stack {
      var p := SeenWalk(g, id, x, black, stack, c);
    }
  }

  /** Both successors of a block that is opened are still unseen, if they can be reached through it only. */
  lemma BothUnseen(g: Graph, loop: seq<int>, id: seq<int>, x: int, black: set<nat>, stack: seq<nat>, b: nat)
    requires Inv(g, id, x, black, stack) && b < |id| && id[b] == -1 && |loop| == |id| && (stack == [] ==> black == {}) && Branches(g, loop, b)
    ensures id[FirstOf(g, loop, b)] == -1 && id[SecondOf(g, loop, b)] == -1
  {
    NotSeenBefore(g, id, x, black, stack, b, g.s1[b]);
    NotSeenBefore(g, id, x, black, stack, b, g.s2[b]);
  }

  /** What has become of the blocks during a search: numbers are kept, new ones lie between the counters, and go to blocks that
      can be reached from where it began. */
  ghost predicate Searched(g: Graph, loop: seq<int>, id: seq<int>, x: int, black: set<nat>, id': seq<int>, x': int, black': set<nat>, b: int) {
    && |id'| == |id| && black <= black' && x' <= x && BranchesOk(g, loop, id', black')
    && (forall c :: c in black ==> c < |id| && id'[c] == id[c])
    && (forall c :: c in black' && c !in black ==> c < |id| && b >= 0 && Reaches(g, b, c) && x' < id'[c] <= x)
  }

  lemma SearchNothing(g: Graph, loop: seq<int>, id: seq<int>, x: int, black: set<nat>, b: int)
    requires BranchesOk(g, loop, id, black) && forall c :: c in black ==> c < |id|
    ensures Searched(g, loop, id, x, black, id, x, black, b)
  {
  }

  lemma BlackInRange(g: Graph, loop: seq<int>, id: seq<int>, x: int, black: set<nat>, stack: seq<nat>, b: int)
    requires Inv(g, id, x, black, stack) && BranchesOk(g, loop, id, black)
    ensures Searched(g, loop, id, x, black, id, x, black, b)
  {
    SearchNothing(g, loop, id, x, black, b);
  }

  lemma InvColours(g: Graph, id: seq<int>, x: int, black: set<nat>, stack: seq<nat>)
    requires Inv(g, id, x, black, stack)
    ensures Colours(id, black, stack)
  {
  }

  lemma SearchedOk(g: Graph, loop: seq<int>, id: seq<int>, x: int, black: set<nat>, id': seq<int>, x': int, black': set<nat>, b: int)
    requires Searched(g, loop, id, x, black, id', x', black', b)
    ensures BranchesOk(g, loop, id', black')
  {
  }

  /** Opening block b changes no number that has been given. */
  lemma Reopened(g: Graph, loop: seq<int>, id: seq<int>, id': seq<int>, black: set<nat>, b: nat)
    requires BranchesOk(g, loop, id, black) && b < |id| && id' == id[b := 1] && b !in black && forall c :: c in black ==> c < |id|
    ensures BranchesOk(g, loop, id', black)
  {
    BranchesStay(g, loop, id, id', black, black);
  }

  /** The two searches from a block, and then the block itself. */
  lemma SearchBlock(g: Graph, loop: seq<int>, id0: seq<int>, id: seq<int>, x: int, black: set<nat>, stack: seq<nat>, b: nat, t1: int, t2: int,
                    id1: seq<int>, x1: int, black1: set<nat>, id2: seq<int>, x2: int, black2: set<nat>)
    requires Inv(g, id0, x, black, stack) && (stack == [] ==> black == {}) && BranchesOk(g, loop, id0, black) && |loop| == |id0|
    requires b < |id0| && id0[b] == -1 && id == id0[b := 1]
    requires Searched(g, loop, id, x, black, id1, x1, black1, t1) && Searched(g, loop, id1, x1, black1, id2, x2, black2, t2)
    requires Colours(id1, black1, stack + [b]) && Colours(id2, black2, stack + [b])
    requires (t1 >= 0 ==> Edge(g, b, t1)) && (t2 >= 0 ==> Edge(g, b, t2))
    requires Branches(g, loop, b) ==> t1 == FirstOf(g, loop, b) && t2 == SecondOf(g, loop, b)
    requires (t1 >= 0 ==> t1 as nat in black1 || t1 as nat in stack + [b]) && (t2 >= 0 ==> t2 as nat in black2 || t2 as nat in stack + [b])
    ensures Searched(g, loop, id0, x, black, id2[b := x2], x2 - 1, black2 + {b}, b)
  {
    BranchesStay(g, loop, id2, id2[b := x2], black2, black2 + {b});
    NewReached(g, id0, id, x, black, b, t1, t2, id1, x1, black1, id2, x2, black2, stack);
    BranchDone(g, loop, id0, id, x, black, stack, b, t1, t2, id1, x1, black1, id2, x2, black2);
  }

  lemma NewReached(g: Graph, id0: seq<int>, id: seq<int>, x: int, black: set<nat>, b: nat, t1: int, t2: int,
                   id1: seq<int>, x1: int, black1: set<nat>, id2: seq<int>, x2: int, black2: set<nat>, stack: seq<nat>)
    requires |id| == |id0| == |id1| == |id2| == |g.s1| && b < |id0| && id == id0[b := 1] && b !in black && b !in black1 && b !in black2
    requires black <= black1 <= black2 && x2 <= x1 <= x && (t1 >= 0 ==> Edge(g, b, t1)) && (t2 >= 0 ==> Edge(g, b, t2))
    requires (forall c :: c in black ==> c < |id| && id1[c] == id[c]) && (forall c :: c in black1 ==> c < |id1| && id2[c] == id1[c])
    requires forall c :: c in black1 && c !in black ==> c < |id| && t1 >= 0 && Reaches(g, t1, c) && x1 < id1[c] <= x
    requires forall c :: c in black2 && c !in black1 ==> c < |id| && t2 >= 0 && Reaches(g, t2, c) && x2 < id2[c] <= x1
    ensures forall c :: c in black ==> c < |id0| && id2[b := x2][c] == id0[c]
    ensures forall c :: c in black2 + {b} && c !in black ==> c < |id0| && Reaches(g, b, c) && x2 - 1 < id2[b := x2][c] <= x
  {
    forall c | c in black2 + {b} && c !in black
      ensures c < |id0| && Reaches(g, b, c) && x2 - 1 < id2[b := x2][c] <= x
    {
      if c == b {
        ReachSelf(g, b);
      } else if c in black1 {
        ReachOn(g, b, t1, c);
      } else {
        ReachOn(g, b, t2, c);
      }
    }
  }

  lemma BranchDone(g: Graph, loop: seq<int>, id0: seq<int>, id: seq<int>, x: int, black: set<nat>, stack: seq<nat>, b: nat, t1: int, t2: int,
                   id1: seq<int>, x1: int, black1: set<nat>, id2: seq<int>, x2: int, black2: set<nat>)
    requires Inv(g, id0, x, black, stack) && (stack == [] ==> black == {}) && |loop| == |id0|
    requires b < |id0| && id0[b] == -1 && id == id0[b := 1]
    requires Searched(g, loop, id, x, black, id1, x1, black1, t1) && Searched(g, loop, id1, x1, black1, id2, x2, black2, t2)
    requires Colours(id1, black1, stack + [b]) && Colours(id2, black2, stack + [b])
    requires Branches(g, loop, b) ==> t1 == FirstOf(g, loop, b) && t2 == SecondOf(g, loop, b)
    requires (t1 >= 0 ==> t1 as nat in black1 || t1 as nat in stack + [b]) && (t2 >= 0 ==> t2 as nat in black2 || t2 as nat in stack + [b])
    ensures BranchOk(g, loop, id2[b := x2], black2 + {b}, b)
  {
    if Branches(g, loop, b) {
      BothUnseen(g, loop, id0, x, black, stack, b);
      hide BranchesOk, OnAllWalks;
      var u: nat, v: nat := t1, t2;
      assert u !in stack + [b] && v !in stack + [b] && u !in black && v !in black;
      assert u in black1 && x1 < id1[u];
      assert v !in black1;
      assert v in black2 && id2[v] <= x1;
    }
  }

  lemma ReachSelf(g: Graph, b: nat)
    requires b < |g.s1|
    ensures Reaches(g, b, b)
  {
    assert Walk(g, [b]);
  }

  lemma ReachOn(g: Graph, b: nat, t: nat, c: nat)
    requires Edge(g, b, t) && Reaches(g, t, c) && b < |g.s1|
    ensures Reaches(g, b, c)
  {
    var p :| Walk(g, p) && p[0] == t && p[|p| - 1] == c;
    var q := [b] + p;
    forall i, j | 0 <= i < j < |q| && j == i + 1
      ensures Edge(g, q[i], q[j])
    {
      assert i > 0 ==> Edge(g, p[i - 1], p[j - 1]);
    }
    assert Walk(g, q);
  }

  class Fn {
    var s1: array<int>
    var s2: array<int>
    var loop: array<int>
    var id: array<int>
    var nblk: nat
    var rpo: array<nat>

    ghost predicate Valid()
      reads this, s1, s2, loop, id
    {
      && s1.Length == s2.Length == loop.Length == id.Length
      && id != s1 && id != s2 && id != loop
      && WellFormed(G())
    }

    ghost function G(): Graph
      reads this, s1, s2
    {
      Graph(s1[..], s2[..])
    }

    /** Numbers everything that can be reached from b and is not numbered yet, from x downwards. */
    method RpoRec(b: int, x: int, ghost black: set<nat>, ghost stack: seq<nat>)
      returns (x': int, ghost black': set<nat>)
      requires Valid() && -1 <= b < id.Length && Inv(G(), id[..], x, black, stack)
      requires b >= 0 ==> if stack == [] then b == 0 else Edge(G(), stack[|stack| - 1], b)
      requires BranchesOk(G(), loop[..], id[..], black) && (stack == [] ==> black == {})
      modifies id
      ensures Valid() && Inv(G(), id[..], x', black', stack) && black <= black'
      ensures b >= 0 ==> b in black' || b in stack
      ensures b >= 0 && old(id[b]) == -1 ==> id[b] == x' + 1
      ensures White(id[..]) <= White(old(id[..]))
      ensures Searched(G(), loop[..], old(id[..]), x, black, id[..], x', black', b)
      decreases White(id[..]), 0
    {
      hide Numbers, Finished, Walk, Searched, BranchesOk;
      black' := black;
      if b == -1 || id[b] != -1 {
        BlackInRange(G(), loop[..], id[..], x, black, stack, b);
        return x, black;
      }
      ghost var white := id[..];
      id[b] := 1;
      assert id[..] == white[b := 1];
      Push(G(), white, x, black, stack, b);
      Reopened(G(), loop[..], white, id[..], black, b);
      x', black' := RpoSuccs(b, x, black, stack, white);
      ghost var done := id[..];
      Pop(G(), done, x', black', stack, b);
      id[b] := x';
      black' := black' + {b};
      assert id[..] == done[b := x'];
      x' := x' - 1;
    }

    /** Searches from the successors of a block that has been opened. */
    method RpoSuccs(b: nat, x: int, ghost black: set<nat>, ghost stack: seq<nat>, ghost white: seq<int>)
      returns (x': int, ghost black': set<nat>)
      requires Valid() && b < id.Length && Inv(G(), white, x, black, stack) && white[b] == -1 && id[..] == white[b := 1]
      requires Inv(G(), id[..], x, black, stack + [b]) && BranchesOk(G(), loop[..], white, black) && BranchesOk(G(), loop[..], id[..], black)
      requires stack == [] ==> black == {}
      modifies id
      ensures Valid() && Inv(G(), id[..], x', black', stack + [b]) && black <= black'
      ensures forall v: nat :: Edge(G(), b, v) ==> v in black' || v in stack + [b]
      ensures White(id[..]) <= White(old(id[..]))
      ensures Searched(G(), loop[..], white, x, black, id[..][b := x'], x' - 1, black' + {b}, b)
      decreases White(id[..]), 1
    {
      hide Numbers, Finished, Walk, Searched, BranchesOk;
      var t1, t2 := Order(b);
      OnTop(G(), stack, b);
      x', black' := RpoRec(t1, x, black, stack + [b]);
      ghost var half, x1, black1 := id[..], x', black';
      SearchedOk(G(), loop[..], white[b := 1], x, black, half, x1, black1, t1);
      x', black' := RpoRec(t2, x', black', stack + [b]);
      InvColours(G(), half, x1, black1, stack + [b]);
      InvColours(G(), id[..], x', black', stack + [b]);
      SearchBlock(G(), loop[..], white, white[b := 1], x, black, stack, b, t1, t2, half, x1, black1, id[..], x', black');
    }

    /** The successors in the order in which they are searched: the one in the shallower loop first. */
    method Order(b: nat) returns (t1: int, t2: int)
      requires Valid() && b < id.Length
      ensures -1 <= t1 < id.Length && -1 <= t2 < id.Length && (t1 >= 0 ==> Edge(G(), b, t1)) && (t2 >= 0 ==> Edge(G(), b, t2))
      ensures forall v: nat :: Edge(G(), b, v) ==> v == t1 || v == t2
      ensures Branches(G(), loop[..], b) ==> t1 == FirstOf(G(), loop[..], b) && t2 == SecondOf(G(), loop[..], b)
    {
      t1, t2 := s1[b], s2[b];
      if t1 != -1 && t2 != -1 && loop[t1] > loop[t2] {
        t1, t2 := t2, t1;
      }
    }

    method FillRpo()
      requires Valid()
      modifies this`nblk, this`rpo, id
      ensures Valid() && nblk == rpo.Length && Numbering(G(), id[..], rpo[..]) && DeeperLower(G(), loop[..], id[..])
    {
      hide Numbering, Inv, Numbers, BranchesOk, Searched, DeeperLower;
      ghost var g := G();
      Unnumber();
      StartSearch(g, id[..]);
      NoBranches(g, loop[..], id[..]);
      ghost var id0 := id[..];
      var x, black := RpoRec(0, id.Length - 1, {}, []);
      SearchedOk(g, loop[..], id0, id.Length - 1, {}, id[..], x, black, 0);
      Compact(x, black);
    }

    /** Shifts the numbers above x down, and makes the array of the numbered blocks. */
    method Compact(x: int, ghost black: set<nat>)
      requires Valid() && Inv(G(), id[..], x, black, []) && 0 in black && id.Length > 0 && id[0] == x + 1
      requires BranchesOk(G(), loop[..], id[..], black)
      modifies this`nblk, this`rpo, id
      ensures Valid() && G() == old(G()) && nblk == rpo.Length && Numbering(G(), id[..], rpo[..]) && DeeperLower(G(), loop[..], id[..])
    {
      hide WellFormed, Numbering, Inv, Numbers, Shifted, BranchesOk, DeeperLower;
      ghost var g, id0 := G(), id[..];
      SearchDone(g, id0, x, black);
      nblk := id.Length - (x + 1);
      rpo := new nat[nblk];
      Renumber(x + 1, black);
      assert Shifted(id0, id[..], x + 1) && G() == g;
      assert forall b :: b in black ==> rpo[..][id0[b] - (x + 1)] == b;
      Finish(g, id0, x, black, id[..], rpo[..]);
      FinishBranches(g, loop[..], id0, x, black, id[..]);
    }

    method Unnumber()
      modifies id
      ensures forall c :: 0 <= c < id.Length ==> id[c] == -1
    {
      var b := 0;
      while b < id.Length
        invariant 0 <= b <= id.Length
        invariant forall c :: 0 <= c < b ==> id[c] == -1
      {
        id[b] := -1;
        b := b + 1;
      }
    }

    /** Shifts the numbers down by n and fills in their inverse. */
    method Renumber(n: nat, ghost black: set<nat>)
      requires rpo.Length == nblk == |black| == id.Length - n
      requires Numbers(id[..], n - 1, black)
      requires forall b :: 0 <= b < id.Length ==> (id[b] == -1 <==> b !in black)
      modifies id, rpo
      ensures Shifted(old(id[..]), id[..], n)
      ensures forall b :: b in black ==> rpo[old(id[b]) - n] == b
    {
      var b := 0;
      while b < id.Length
        invariant 0 <= b <= id.Length
        invariant forall c :: b <= c < id.Length ==> id[c] == old(id[c])
        invariant forall c :: 0 <= c < b ==> id[c] == if old(id[c]) == -1 then -1 else old(id[c]) - n
        invariant forall c :: c in black && c < b ==> rpo[old(id[c]) - n] == c
      {
        if id[b] != -1 {
          assert b in black;
          id[b] := id[b] - n;
          rpo[id[b]] := b;
        }
        b := b + 1;
      }
    }
  }
}
