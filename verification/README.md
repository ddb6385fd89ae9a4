# wrenc: verified models

wrenc compiles Wren to native code. This project models the parts of it that keep a global
invariant or preserve the meaning of a program, and proves that they do.

* **QBE passes** (`lib/qbe-1.0`). `Ssa` is a small SSA language with blocks, phis, instructions,
  branches and an outside world, together with what it means to run it. On it stand the solver of sparse conditional
  constant propagation (`SccpLattice`, `SccpInvariant`, `SccpGreatest`, `Sccp`), the rewriting that follows
  it (`SccpRewrite`, `SccpTrim`) and the pass as a whole (`ConstantPropagation`). `SccpExact` says what the solver finds and
  `FoldEffect` what the pass leaves, both without the functions that compute it. `Folding` is the integer
  arithmetic behind it, and `FoldMeaning` what that means for numbers and bits. `ReversePostorder` and `Dominators` number the blocks and find dominators and frontiers,
  `ControlFlow` puts these together,
  `JumpThreading` removes detours, `Liveness` finds what is live, and `ParallelMove` turns parallel moves into copies and swaps.
* **Memory management** (`rtsrc`). `Tracing` is the three-colour scanner with its intrusive list of grey objects,
  `LinkedLists`, `Slabs`, `SizeClasses` and `Allocators` are the slab allocator, `Collector` is a whole collection, and `Programs` is what
  programs do between collections.
* **Compiler front end** (`src`). `Pratt` is the expression parser, `PrattTrees` what the trees that it builds stand for, `BasicBlocks` the pass that forms basic blocks.
* **Runtime** (`rtsrc`). `Fibres` is the scheduler of fibres, `FibreRuns` whole runs of it, `MethodTable` the method table of a class and inheritance.
* **Codecs**. `StackMaps` is the writer, the reader and the search of stack maps, `StackMapSearch` all three together, `StackMapLayout` where everything stands in the bytes, and `Utf8` the code points of strings.

`Basics` and `Finite` hold what several of these share. The code that works in place is written as classes and methods with loops. Each method is tied to a function of the old
state, or to a property of the result; the theory is about immutable values and stands in lemmas.
Names follow the original. Blocks, slabs and similar things that are pointers in the original are numbers here, and null is -1 or 0.

## What turned out to be false

* **Constant propagation can change the meaning of a program.** A branch on the address of a label is folded as
  if the address were not zero, but the branch looks at its low 32 bits only. `ConstantPropagation.LabelAtZero` is an example;
  `SccpRewrite.PreservedExactly` says that the two runs agree exactly until the original one passes such a branch.
* **A collection can free reachable objects.** The white number starts again when a module is loaded, because the scanner is
  thrown away. `Collector.StaleExactly` says when an object can have the next white number already: if the discarded scanner
  had done exactly one cycle and an object has survived it, and not otherwise (as long as the 32-bit number does not wrap around,
  and objects outside slabs have either never been found or were found by the last cycle). `Programs.AfterOneCycle` is a program that
  goes wrong in this way; `Programs.Program.Play` says that all programs that avoid the case are safe. `Collector.ExactIff` says when a
  cycle is exact, whatever the words of the objects are at its beginning.
* **A class does not always inherit what its parent uses**: of several definitions of a signature in one parent class the
  first one is inherited, while the parent itself uses the latest. `MethodTable.RedefineAndInherit` is an example;
  `MethodTable.NearestIsItsOwn` says when the two are the same.
* **Reading a code point does not report all broken bytes**: bytes from 0xf8 up, over-long forms, and forms for numbers
  above 0x10ffff give a number instead of -1. `Utf8.NotAStart`, `Utf8.Overlong` and `Utf8.BeyondUnicode` are examples;
  `Utf8.ReadIsWritten` says, from the first two bytes, exactly when a number that is read is a code point that is written there.

## Model

| member | source | states |
|---|---|---|
| Folding.FoldWords | lib/qbe-1.0/fold.c:327-462 | For plain constants of either class, folding gives the operation on the operands' own low bits (signed and unsigned division, shifts and comparisons included), and is refused exactly when that is undefined. |
| Folding.FoldCorrect | lib/qbe-1.0/fold.c:327-462 | The same with addresses of labels: for every layout of the labels the folded constant denotes the result, and folding is refused exactly for undefined divisions, for sums of two addresses, for taking an address from a number or from an address of another label, and for every other operation on an address (comparing a label with itself included). |
| Folding.CompareAgrees | lib/qbe-1.0/fold.c:411-430 | A comparison of 32-bit operands done on sign-extended 64-bit words agrees with the 32-bit comparison, unsigned ones too. |
| Folding.OverflowMeans | lib/qbe-1.0/fold.c:368-377 | The check for the smallest number divided by -1 recognises exactly the divisions that overflow. |
| Folding.AddAddress | lib/qbe-1.0/fold.c:343-354 | The sum of an address and a number denotes the sum for every layout. |
| Folding.SubAddress | lib/qbe-1.0/fold.c:355-365 | The difference of two addresses of one label, or of an address and a number, denotes the difference for every layout. |
| FoldMeaning.FoldMeans | lib/qbe-1.0/fold.c:327-462 | The same without any of the functions that compute it. Quotient and remainder round towards zero and have the sign of the dividend, each bit of and, or and xor is that of the two bits, shifts floor or multiply by a power of two whose exponent is below the width, extensions read two's complement or not, and each of the ten comparisons is the order of the numbers. Folding is refused exactly if there is no such result: division by zero, the smallest number by -1, and mixed addresses. |
| FoldMeaning.ComputeMeans | lib/qbe-1.0/fold.c:378-430 | What is computed for two words is what the operation means on their low parts. |
| FoldMeaning.UndefinedMeans | lib/qbe-1.0/fold.c:368-377 | The operations without result are exactly the divisions by zero and of the smallest number by -1. |
| FoldMeaning.QuotTruncates | lib/qbe-1.0/fold.c:382-383 | Dividend = divisor * quotient + remainder, and the remainder is smaller than the divisor and has the sign of the dividend. |
| FoldMeaning.BitwiseBit | lib/qbe-1.0/fold.c:387-389 | Bit k of the result depends on bit k of the operands, as it should. |
| SccpInvariant.PhiValBelow | lib/qbe-1.0/fold.c:81-92 | Evaluating a phi gives a lattice value that is at or below what each argument over a live edge gives, so the stored value stays in the table of constants. |
| SccpInvariant.UsedNotTop | lib/qbe-1.0/fold.c:121-130 | No temporary that a visited block uses is still Top: the assertion "ssa invariant broken" cannot fail. |
| SccpInvariant.UpdateKeeps | lib/qbe-1.0/fold.c:51-66 | Lowering a value and queueing its uses keeps the whole invariant of the solver. |
| SccpInvariant.VisitPhiKeeps | lib/qbe-1.0/fold.c:81-92 | Visiting a phi keeps the invariant and leaves the phi evaluated or queued. |
| SccpInvariant.VisitInsKeeps | lib/qbe-1.0/fold.c:96-119 | Visiting an instruction keeps the invariant and leaves the instruction evaluated or queued. |
| SccpInvariant.EnterBlock | lib/qbe-1.0/fold.c:216-222 | When an edge comes alive, the invariant holds again for a visit of its block that has just begun. |
| SccpInvariant.VisitDone | lib/qbe-1.0/fold.c:221-231 | After its phis, instructions and branch, a block counts as visited and the invariant holds between two rounds. |
| SccpInvariant.RevisitDone | lib/qbe-1.0/fold.c:221-231 | Visiting the phis of a block again is enough when the block has been visited before. |
| SccpInvariant.SkipEdge | lib/qbe-1.0/fold.c:212-217 | An edge without target, or that is alive already, may be dropped from the list. |
| SccpInvariant.DropUse | lib/qbe-1.0/fold.c:233-252 | A use may leave the stack when what it names has been evaluated, or its block has not been visited. |
| SccpInvariant.JmpAgain | lib/qbe-1.0/fold.c:121-155 | Visiting a branch again keeps the invariant, and relinks no edge that is still on the list: both assertions on dead edges hold. |
| SccpGreatest.GreatestStart | lib/qbe-1.0/fold.c:194-208 | The initial state is above every solution. |
| SccpGreatest.PhiStep | lib/qbe-1.0/fold.c:81-92 | Visiting a phi does not take the state below any solution, however that has been found. |
| SccpGreatest.InsStep | lib/qbe-1.0/fold.c:96-119 | Nor does visiting an instruction: its value is monotone, for constants in different tables too. |
| SccpGreatest.JmpStep | lib/qbe-1.0/fold.c:121-155 | Visiting a branch relinks only edges that are alive in every solution. |
| SccpGreatest.GreatestEnter | lib/qbe-1.0/fold.c:216-220 | Every solution visits the block into which an edge has come alive. |
| SccpGreatest.NotRaised | lib/qbe-1.0/fold.c:51-66 | At the end no value that is Bot can be raised: the result would be a solution above the greatest one. |
| SccpGreatest.VisitedEntered | lib/qbe-1.0/fold.c:211-232 | At the end every visited block has a live edge into it. |
| SccpGreatest.EdgesAgain | lib/qbe-1.0/fold.c:121-155 | At the end an edge is alive exactly if its block is visited and the branch, looked at again, may take it. |
| SccpGreatest.PhiAgain | lib/qbe-1.0/fold.c:81-92 | At the end evaluating a phi of a visited block again gives its stored value. |
| SccpGreatest.InsAgain | lib/qbe-1.0/fold.c:96-119 | At the end evaluating an instruction of a visited block again gives its stored value, and no new constant. |
| SccpGreatest.SolvedUnique | lib/qbe-1.0/fold.c:210-255 | What the solver finds does not depend on the order in which it works. |
| SccpExact.InsConstant | lib/qbe-1.0/fold.c:96-119 | At the end the result of a visited instruction is a constant exactly if the instruction is foldable, its operands are constants and the operation has a result on them; the constant is that result for every layout. Otherwise it is Bot, never Top. |
| SccpExact.PhiConstant | lib/qbe-1.0/fold.c:81-92 | The result of a visited phi is constant c exactly if all arguments over live edges are c; otherwise it is Bot. |
| SccpExact.EdgeLive | lib/qbe-1.0/fold.c:121-155 | An edge is alive exactly if its block is visited and the branch is a jump along it, or its condition is not constant, or is a constant that goes this way: to the second block if it is a number with a zero low word, to the first one otherwise. |
| SccpExact.VisitedExactly | lib/qbe-1.0/fold.c:211-232 | A block is visited exactly if it is the start block or a live edge leads to it. |
| Sccp.PushLinks | lib/qbe-1.0/fold.c:130-149 | Linking an edge in front through its work field keeps the list of edges intact. |
| Sccp.PopLinks | lib/qbe-1.0/fold.c:212-215 | Unlinking the first edge keeps the list intact. |
| Sccp.Folder.constructor | lib/qbe-1.0/fold.c:194-208 | The initial state satisfies the invariant, with only the start edge on the list. |
| Sccp.Folder.Update | lib/qbe-1.0/fold.c:51-66 | The loop over the uses leaves the state that the lattice step describes. |
| Sccp.Folder.IsDead | lib/qbe-1.0/fold.c:68-79 | True exactly if no live edge leads from the one block to the other, whichever branch it is. |
| Sccp.Folder.MergeArgs | lib/qbe-1.0/fold.c:87-90 | The loop merges exactly the arguments over live edges. |
| Sccp.Folder.NewCon | lib/qbe-1.0/util.c:352-369 | The index of a constant in the table, which grows only if the constant is new. |
| Sccp.Folder.DoIns | lib/qbe-1.0/fold.c:96-119 | The state after an instruction is that of the lattice step, with the table of constants. |
| Sccp.Folder.DoJmp | lib/qbe-1.0/fold.c:121-155 | Relinks the edges that the branch may take; the list stays intact, and the assertions of the code hold. |
| Sccp.Folder.VisitBlock | lib/qbe-1.0/fold.c:219-231 | Visiting a block re-establishes the invariant, lowers values only, and satisfies the assertion on unconditional edges. |
| Sccp.Folder.TakeEdge | lib/qbe-1.0/fold.c:211-232 | One round over the edge list keeps the invariant and makes progress: an edge comes alive or the list gets shorter. |
| Sccp.Folder.TakeUse | lib/qbe-1.0/fold.c:233-252 | One round over the use stack keeps the invariant and makes progress: a value is lowered or the stack gets shorter. |
| Sccp.Folder.Solve | lib/qbe-1.0/fold.c:210-255 | The solver ends on every function, and ends with the greatest solution: no other sound result has more constants, more dead edges or fewer visited blocks, and evaluating anything again gives what is stored. |
| SccpRewrite.SolutionSound | lib/qbe-1.0/fold.c:210-255 | In every run, until it leaves a block over an unsafe branch, every executed block is marked visited, every edge taken is not dead, and every assigned temporary with a constant value holds it. |
| SccpRewrite.StepSim | lib/qbe-1.0/fold.c:273-310 | One block of the rewritten function does what the original block does, as long as the branch is safe. |
| SccpRewrite.MeaningPreserved | lib/qbe-1.0/fold.c:183-322 | For every layout, outside world and number of blocks, the rewritten function has the same path, events and outcome, if no visited block branches on an address with a zero low word. |
| SccpRewrite.Parting | lib/qbe-1.0/fold.c:298-308 | The first branch of a run on an address with a zero low word separates the two runs for good. |
| SccpRewrite.PreservedExactly | lib/qbe-1.0/fold.c:183-322 | The rewritten function behaves like the original one if and only if the original run has not passed such a branch. |
| SccpTrim.DropBlock | lib/qbe-1.0/fold.c:274-282 | Dropping a block that was not visited removes exactly its arguments from the phis that it leads to. |
| SccpTrim.KeepBlock | lib/qbe-1.0/fold.c:283-309 | Rewriting a visited block in place, with the deletion of one edge, leads to the same blocks in whatever order the blocks are handled. |
| SccpTrim.TrimmedRun | lib/qbe-1.0/fold.c:273-310 | Blocks that were dropped are never entered: the trimmed blocks run like the rewritten function. |
| FoldEffect.TrimmedFolded | lib/qbe-1.0/fold.c:271-310 | What is left of a kept block, said without the rewriting functions: its phis that are not constant, in order, with their arguments over live edges; nop in place of exactly the instructions whose result is constant, all others with their operation, class and result; constants in place of constant temporaries; and a jump to the right block in place of a branch on a constant. |
| FoldEffect.FoldedClean | lib/qbe-1.0/fold.c:168-180 | In a kept block no phi or instruction assigns a temporary with a constant value, no operand, phi argument or branch names one, and no conditional branch is on a constant. |
| SccpTrim.Trimmer.CutPhis | lib/qbe-1.0/cfg.c:27-35 | Each phi loses the argument of one predecessor; the search for it cannot run off the end. |
| SccpTrim.Trimmer.EdgeDel | lib/qbe-1.0/cfg.c:14-35 | Deletes an edge with its phi arguments, unless the other branch leads to the same block. |
| SccpTrim.Trimmer.TrimPhis | lib/qbe-1.0/fold.c:283-291 | Removes the phis of constants and renames the arguments over live edges. |
| SccpTrim.Trimmer.TrimBranch | lib/qbe-1.0/fold.c:298-308 | Renames the condition and removes a branch on a constant. |
| SccpTrim.Trimmer.Trim | lib/qbe-1.0/fold.c:271-310 | One pass over the block list, in any order, leaves the rewritten form of the visited blocks, and links exactly these. What that form is, is said by `FoldEffect.TrimmedFolded` and `FoldEffect.FoldedClean`. |
| ConstantPropagation.FoldFn | lib/qbe-1.0/fold.c:183-322 | The whole pass, with the greatest solution: each kept block is left with exactly the phis, instructions and branch that `FoldEffect` describes, and names and assigns no temporary that is constant. For every layout, world and number of steps the result runs like the original exactly if no unsafe branch was passed, and only blocks on the list are entered. |
| ConstantPropagation.NoneIsTop | lib/qbe-1.0/fold.c:168-180 | Nothing that is renamed is still Top: the assertion in renref cannot fail. |
| ConstantPropagation.KeptExactly | lib/qbe-1.0/fold.c:273-282 | The blocks left on the list are exactly the visited ones. |
| ConstantPropagation.LabelAtZero | lib/qbe-1.0/fold.c:298-308 | A function that returns from another block after the pass, when its label is placed where the low word is zero. |
| ConstantPropagation.BranchOnLabelReady | lib/qbe-1.0/fold.c:182-184 | That function meets all requirements of the pass. |
| ReversePostorder.Push | lib/qbe-1.0/cfg.c:84-86 | Opening a block keeps the invariant of the search: open blocks form a walk, finished ones carry distinct high numbers. |
| ReversePostorder.Pop | lib/qbe-1.0/cfg.c:93-97 | Numbering a block when its successors are finished keeps the invariant. |
| ReversePostorder.Fn.RpoRec | lib/qbe-1.0/cfg.c:79-98 | Numbers exactly the blocks that become reachable, downwards from x; it ends, and never runs out of numbers. Two successors that are reached through their predecessor only get their numbers in the order that `FillRpo` states. |
| ReversePostorder.Fn.FillRpo | lib/qbe-1.0/cfg.c:100-123 | The numbers are a bijection from the reachable blocks onto 0 to nblk - 1; every block but the start has a predecessor with a lower number, and every edge that does not go to a higher number closes a cycle. Of two successors that are reached through their predecessor only, the one in the deeper loop has the lower number (the second one, if there is no difference), unless the other one leads to it. |
| ReversePostorder.NumberedForDominators | lib/qbe-1.0/cfg.c:100-123 | Such a numbering meets what the dominator computation needs. |
| Dominators.UpdateKeepsInv | lib/qbe-1.0/cfg.c:165-176 | One update of an immediate dominator keeps the invariant: ancestors hold every true dominator, and only blocks common to all paths with fewer retreating edges than passes made. |
| Dominators.EnoughPasses | lib/qbe-1.0/cfg.c:163-177 | After as many passes as there are blocks the tree is exact, reducible graph or not. |
| Dominators.FixpointExact | lib/qbe-1.0/cfg.c:163-177 | A pass without change means that the tree is exact. |
| Dominators.ExactStays | lib/qbe-1.0/cfg.c:165-176 | Once exact, the tree is not changed any more, so the loop ends. |
| Dominators.Fn.Inter | lib/qbe-1.0/cfg.c:130-149 | Finds the deepest common ancestor: its chain is the intersection of the two chains. |
| Dominators.Fn.MeetOfPreds | lib/qbe-1.0/cfg.c:166-171 | The meet over all predecessors that have been reached. |
| Dominators.Fn.Pass | lib/qbe-1.0/cfg.c:164-176 | One pass keeps the invariant with one more retreating edge. |
| Dominators.Fn.FillDom | lib/qbe-1.0/cfg.c:151-177 | Ends on every graph, with each block's chain being exactly its dominators. |
| Dominators.Fn.Sdom | lib/qbe-1.0/cfg.c:186-195 | True exactly if the blocks differ and the first lies on every path from the start to the second. |
| Dominators.Fn.AddFron | lib/qbe-1.0/cfg.c:203-216 | Adds a block to a frontier at most once. |
| Dominators.Fn.FronOfEdge | lib/qbe-1.0/cfg.c:227-232 | Climbing from the source of an edge adds its target to the frontier of exactly the blocks that dominate the source and not, strictly, the target. |
| Dominators.Fn.FillFron | lib/qbe-1.0/cfg.c:218-234 | Each frontier holds, once each, exactly the blocks with a predecessor that is dominated while they are not strictly dominated. |
| ControlFlow.FillPreds | lib/qbe-1.0/cfg.c:55-77 | Each numbered block gets exactly its numbered predecessors, each one once, also one whose two branches lead to the block. |
| ControlFlow.SameDominance | lib/qbe-1.0/cfg.c:150-192 | A number dominates another one over the predecessor lists if and only if its block lies on every walk of the original graph from the start to the other's block. |
| ControlFlow.Dominates | lib/qbe-1.0/cfg.c:55-203 | After numbering, predecessor lists and dominators, sdom holds for two reachable blocks if and only if they differ and the first lies on every walk from the start to the second. |
| ControlFlow.Frontiers | lib/qbe-1.0/cfg.c:55-234 | And the frontiers are those of the original graph. |
| JumpThreading.Compress | lib/qbe-1.0/cfg.c:282-292 | Path compression changes no root and keeps the forest acyclic. |
| JumpThreading.Link | lib/qbe-1.0/cfg.c:312-317 | Linking a root to another root keeps the forest acyclic and moves exactly its own tree. |
| JumpThreading.SoundLink | lib/qbe-1.0/cfg.c:312-317 | Every block silently leads to its root, and an empty block that stays a root leads back to itself. |
| JumpThreading.Follow | lib/qbe-1.0/cfg.c:319-328 | Every state of the original run is some silent steps away from a state of the threaded run. |
| JumpThreading.FollowBack | lib/qbe-1.0/cfg.c:319-328 | Every state of the threaded run is a state of the original run. |
| JumpThreading.SameBehaviour | lib/qbe-1.0/cfg.c:294-330 | With any decisions both functions execute the same instructions, and one returns (in the same way) if and only if the other does. |
| JumpThreading.NoDetours | lib/qbe-1.0/cfg.c:319-328 | Afterwards nothing leads to a block that only jumped, unless that block jumps to itself. |
| JumpThreading.ThreadedSimplified | lib/qbe-1.0/cfg.c:302-329 | The form of the result, in terms of the original blocks alone. |
| JumpThreading.Threader.Find | lib/qbe-1.0/cfg.c:282-292 | Ends, returns the root, and changes no root. |
| JumpThreading.Threader.Gather | lib/qbe-1.0/cfg.c:306-318 | One block of the first loop keeps the invariant of the forest. |
| JumpThreading.Threader.Resolve | lib/qbe-1.0/cfg.c:319-328 | One block of the second loop: successors become roots, equal branches become one jump. |
| JumpThreading.SimplJmp | lib/qbe-1.0/cfg.c:294-330 | The pass as a whole preserves the behaviour for all decisions. Each block keeps its instructions; its branches go to where silent jumps end, that is, to a block that does something or that leads only back to itself; two branches to one block become a jump; and all plain returns become jumps to one new return block. |
| Liveness.BeforeExactly | lib/qbe-1.0/live.c:72-124 | Going backwards through a block gives exactly what is read before it is assigned, or passes through to the end. |
| Liveness.LiveOnExactly | lib/qbe-1.0/live.c:3-20 | What a predecessor must keep alive: arguments of phis, and what is live in the successor and no phi assigns. |
| Liveness.LiveFound | lib/qbe-1.0/live.c:56-129 | In stable sets everything is found that some path reads before it is assigned. |
| Liveness.StableExact | lib/qbe-1.0/live.c:56-129 | Sets that are sound and stable are exact, at the start and at the end of each block. |
| Liveness.ExactInside | lib/qbe-1.0/live.c:83-124 | They are then exact before each instruction, too. |
| Liveness.GenExactly | lib/qbe-1.0/live.c:3-33 | gen holds exactly the temporaries that a block reads, assigns, or passes to a phi. |
| Liveness.Analysis.LiveOnto | lib/qbe-1.0/live.c:3-20 | The two loops over the phis of a successor compute that set and add the arguments to gen. |
| Liveness.Analysis.Bset | lib/qbe-1.0/live.c:22-33 | Adds a temporary and keeps the counters equal to the number of live temporaries of each kind. |
| Liveness.Analysis.ScanBlk | lib/qbe-1.0/live.c:70-124 | From the end to the start of a block; nlive is the highest number of temporaries of each kind that are live at once. |
| Liveness.Analysis.Visit | lib/qbe-1.0/live.c:59-124 | One block of a pass: the sets stay sound, the set at the end grows, and a change is reported. |
| Liveness.Analysis.Pass | lib/qbe-1.0/live.c:56-125 | A pass that reports no change (after the first one) leaves stable sets. |
| Liveness.Analysis.FillLive | lib/qbe-1.0/live.c:38-129 | Ends, with a temporary in a set if and only if some path reads it before it is assigned, and with gen and nlive exact. |
| ParallelMove.EmitCopy | lib/qbe-1.0/rega.c:238-241 | A copy emitted in front realises one more move, as its source is still unread. |
| ParallelMove.OpenCycle | lib/qbe-1.0/rega.c:222-225 | The swap at the start of a cycle realises its last move and leaves the rest owed. |
| ParallelMove.ExtendCycle | lib/qbe-1.0/rega.c:233-236 | A swap on the way back realises one more move of the cycle. |
| ParallelMove.CloseCycle | lib/qbe-1.0/rega.c:229-232 | When the recursion is back at the start, the whole cycle has been realised. |
| ParallelMove.Mover.Emit | lib/qbe-1.0/util.c:228-237 | The buffer is filled from its end: the new instruction comes before all earlier ones. |
| ParallelMove.Mover.PmAdd | lib/qbe-1.0/rega.c:190-199 | Adds a move, or reports that there are too many. |
| ParallelMove.Mover.FindWriter | lib/qbe-1.0/rega.c:218-220 | The first move that overwrites a location. |
| ParallelMove.Mover.PmRec | lib/qbe-1.0/rega.c:203-245 | Realises a move and everything that must come before it; what it returns says which cycle is still open. It ends, and writes at most one instruction for each move, with the class that the move needs. |
| ParallelMove.Mover.PmGen | lib/qbe-1.0/rega.c:247-258 | In execution order, the code gives every destination the old value of its source and changes no other location, whatever 32-bit transfers leave in the high halves, for all moves with distinct destinations: shared sources, self-moves and tails of cycles included. Each instruction is for a move of its own that is not a self-move: a copy is the move as it stands, and a swap has its locations and is wide if the move is, and only if some move is. |
| Tracing.Push | rtsrc/GCTracingScanner.cpp:203-205 | Turning a black object grey keeps the list linked and without repetition, and the colours right. |
| Tracing.Pop | rtsrc/GCTracingScanner.cpp:212-221 | The first grey object leaves the list, which is never found to hold a word that is not grey. |
| Tracing.Whiten | rtsrc/GCTracingScanner.cpp:223-225 | A scanned object becomes white, and was not scanned before. |
| Tracing.ClosedHolds | rtsrc/GCTracingScanner.cpp:208-230 | A set that holds the roots and is closed holds everything that can be reached. |
| Tracing.TraceEnds | rtsrc/GCTracingScanner.cpp:208-230 | With nothing grey left, exactly those objects are white that were so before, or are reached without passing through such ones. |
| Tracing.Scanner.BeginGCCycle | rtsrc/GCTracingScanner.cpp:91-101 | Moves the 32-bit white number on, which stays odd, and begins with nothing marked. |
| Tracing.Scanner.AddToGreyList | rtsrc/GCTracingScanner.cpp:183-206 | Ignores null and marked objects (also with the lowest bit set), marks all others, and unmarks none. |
| Tracing.Scanner.MarkAll | rtsrc/GCTracingScanner.cpp:238-256 | Marks all values that are reported. |
| Tracing.Scanner.ScanOne | rtsrc/GCTracingScanner.cpp:212-226 | Scans one grey object, which may report itself or objects in cycles. |
| Tracing.Scanner.EndGCCycle | rtsrc/GCTracingScanner.cpp:208-230 | Ends on every heap, with exactly the traced objects white and all other words unchanged. |
| Collector.ExactIff | rtsrc/GCTracingScanner.cpp:91-230 | Whatever the words are at the beginning: white is the same as reachable if and only if each object that already has the white number is reachable and each object it reports has it too or is found without such objects. |
| Collector.FreshExact | rtsrc/GCTracingScanner.cpp:91-230 | If no object has the white number at the beginning, white is the same as reachable. |
| Collector.LifetimeFresh | rtsrc/GCTracingScanner.cpp:98-100 | In the lifetime of one scanner no word is above the white number, so every cycle begins fresh until the number wraps around. |
| Collector.StaleExactly | rtsrc/GCTracingScanner.cpp:91-100 | If every word is new or from the last cycle, the next cycle begins fresh unless the scanner was thrown away after exactly one cycle and an object has survived it. |
| Collector.ResetLosesObjects | rtsrc/WrenRuntime.cpp:92-94 | After a scanner has been replaced, a reachable object is left black. |
| Collector.NoneDangling | rtsrc/SlabObjectAllocator.cpp:349-376 | When only unreachable objects are destroyed, what can be reached reports no destroyed object. |
| Collector.Runtime.NewObject | rtsrc/SlabObjectAllocator.h:29-40 | A new object has an odd word that is not the white number, at an even address at which there was no object; it is refused exactly if its size is too small for an object or too big for a slab. A new slab is made exactly if no slab of its size has free space. |
| Collector.Runtime.AddStatic | rtsrc/ObjMap.cpp:19-22 | An object outside the slabs has a word like any other. |
| Collector.Runtime.ResetScanner | rtsrc/WrenRuntime.cpp:92-94 | Loading a module throws the scanner away, so that the white number of the next cycle is the first one again. |
| Collector.Runtime.Mark | rtsrc/WrenRuntime.cpp:155-181 | Marks from all groups of roots and traces; makes a scanner if there is none. |
| Collector.Runtime.Sweep | rtsrc/GCTracingScanner.cpp:228-230 | The sweep destroys, once each, exactly the objects in slabs that are not white; their words are gone. |
| Collector.Runtime.RunGC | rtsrc/WrenRuntime.cpp:155-181 | The objects in slabs that survive are those with the white number. If stale objects do no harm (if the cycle begins fresh, say), these are exactly the reachable ones, and nothing reachable reports a destroyed object; within a lifetime every cycle begins fresh, and a lifetime begins with the first cycle of a scanner. |
| Programs.Program.Make | rtsrc/SlabObjectAllocator.h:29-40 | A program gets the object that it asks for exactly if the size is not refused, and can then use it. Memory grows only if there is no free slot of that size. |
| Programs.Program.Collect | rtsrc/WrenRuntime.cpp:155-181 | Whatever a program has done before, a collection keeps exactly what the program can reach, unless the scanner has been thrown away after exactly one cycle; no garbage is left in the slabs. |
| Programs.Program.Play | rtsrc/WrenRuntime.cpp:66-107 | Any sequence of making, defining, writing, reading and forgetting objects, collecting and loading modules without that case runs to its end, or to the first object of a size that is refused: every collection is exact, and at no time does anything reachable report a destroyed object. |
| Programs.AfterOneCycle | rtsrc/WrenRuntime.cpp:92-94 | In that case a program from the very beginning, with objects of any size that is not refused, ends with a root that reports a destroyed object. |
| LinkedLists.LinkedList.InsertAtStart | rtsrc/LinkedList.h:24-42 | Puts a node in front of the list. |
| LinkedLists.LinkedList.InsertAtEnd | rtsrc/LinkedList.h:44-61 | Puts a node at the end of the list. |
| LinkedLists.LinkedList.InsertAfter | rtsrc/LinkedList.h:63-83 | Puts a node after another one, also after the last. |
| LinkedLists.LinkedList.Remove | rtsrc/LinkedList.h:85-112 | Takes a node out of the list, wherever it is, and clears its links. |
| LinkedLists.LinkedList.Detach | rtsrc/SlabObjectAllocator.cpp:409-419 | Linking the neighbours before removing a node does no harm. |
| LinkedLists.WithoutChained | rtsrc/LinkedList.h:85-112 | Both directions, and both ends, of the list are right after a removal. |
| LinkedLists.AfterChained | rtsrc/LinkedList.h:63-83 | Both directions, and both ends, of the list are right after an insertion. |
| Slabs.Covered | rtsrc/SlabObjectAllocator.cpp:296-388 | In a tiled slab every byte belongs to an object or a shim. |
| Slabs.Disjoint | rtsrc/SlabObjectAllocator.cpp:296-388 | No byte belongs to two tiles. |
| Slabs.Carve | rtsrc/SlabObjectAllocator.cpp:192-216 | Taking a slot from the front of a shim keeps the slab tiled; the checks on alignment and length cannot fail. |
| Slabs.SweepAbsorb | rtsrc/SlabObjectAllocator.cpp:319-365 | A shim, or an object that is not kept, after a shim becomes part of it. |
| Slabs.SweepOver | rtsrc/SlabObjectAllocator.cpp:319-348 | The sweep steps over a kept object, or over a shim with no shim before it. |
| Slabs.SweepFree | rtsrc/SlabObjectAllocator.cpp:367-376 | An object that is not kept becomes a shim of its own. |
| Slabs.SweepDone | rtsrc/SlabObjectAllocator.cpp:296-388 | At the end exactly the kept objects are left, and no two shims are adjacent. |
| Slabs.StillRoom | rtsrc/SlabObjectAllocator.cpp:381-387 | Sweeping never uses up the shims. |
| Slabs.Slab.constructor | rtsrc/SlabObjectAllocator.cpp:275-283 | A new slab is one shim over all usable memory. |
| Slabs.Slab.TakeFirst | rtsrc/SlabObjectAllocator.cpp:188-228 | Hands out the first slot of the first shim: whole slots inside the slab, not one that is in use. Tiling, free list and count stay exact. |
| Slabs.Slab.SweepShim | rtsrc/SlabObjectAllocator.cpp:319-335 | Merges a shim with the one before it, in memory and in the free list. |
| Slabs.Slab.SweepObject | rtsrc/SlabObjectAllocator.cpp:350-376 | Frees an object into the shim before it, or into a new shim. |
| Slabs.Slab.Sweep | rtsrc/SlabObjectAllocator.cpp:296-379 | Exactly the objects with the given word are left, and each of the others is destroyed once; the slab is exactly tiled, shims are merged, the free list is the set of shims, and the count is exact. |
| SizeClasses.BestSizeFits | rtsrc/SlabObjectAllocator.cpp:143-162 | The size of a category is at least what was asked for, less than twice that, and a multiple of 8. |
| SizeClasses.BestSizeStable | rtsrc/SlabObjectAllocator.cpp:123-175 | The size of a category is its own best size, so what a request gets does not depend on the categories that exist. |
| SizeClasses.BestSizeLeast | rtsrc/SlabObjectAllocator.cpp:118-176 | The size that a request gets is the smallest one that is large enough among the preferred sizes, the powers of two and the sizes between them, a power of two times the root of two, rounded up. |
| SizeClasses.HalfFits | rtsrc/SlabObjectAllocator.cpp:143-228 | Every size from that of an object up to half of the usable part of a slab is granted. |
| Allocators.Allocator.GetOrCreateBestCategory | rtsrc/SlabObjectAllocator.cpp:118-176 | The category of the best size, found or made; refused below the size of an object. |
| Allocators.Allocator.CreateSlab | rtsrc/SlabObjectAllocator.cpp:263-284 | A new slab joins both lists of its category and changes nothing else. |
| Allocators.Allocator.TakeSlot | rtsrc/SlabObjectAllocator.cpp:182-228 | Takes a slot from one slab, and takes the slab off the list if it is full now; the new block overlaps no other one. |
| Allocators.Allocator.AllocateRaw | rtsrc/SlabObjectAllocator.cpp:178-228 | The memory handed out is new, aligned and large enough; all other blocks stay. There is one more slab exactly if the request is granted and no slab of its size has free space; otherwise the block is the first free slot of the first slab on the free list. |
| Allocators.Allocator.RoomExactly | rtsrc/SlabObjectAllocator.cpp:182-189 | The free list of a category has a first slab, with a first shim, exactly if some slab of that size has free space. |
| Allocators.Allocator.NoOverlap | rtsrc/SlabObjectAllocator.cpp:178-228 | Blocks that have been handed out never overlap, in one slab or in several. |
| Allocators.Allocator.FreeStart | rtsrc/SlabObjectAllocator.cpp:182-192 | The first slab with free space has no predecessor on the list: the assertions of the code hold. |
| Allocators.OnList | rtsrc/SlabObjectAllocator.cpp:381-387 | The test on the links tells exactly whether a slab is on the list. |
| Allocators.Allocator.SweepSlab | rtsrc/SlabObjectAllocator.cpp:296-388 | Sweeps one slab and puts it back on the list if it was full; other slabs are untouched. |
| Allocators.Allocator.DeallocateUnreachableObjects | rtsrc/SlabObjectAllocator.cpp:286-294 | Following the lists of all categories sweeps every slab: exactly the blocks with the given word are left, and each of the others is destroyed once. |
| Pratt.ParseSound | src/wren_compiler.cpp:2708-2736 | What is parsed has exactly the tokens that were consumed, but for newlines where they are ignored; every operand respects precedence and associativity, and the next token does not continue it. |
| Pratt.LoopSound | src/wren_compiler.cpp:2729-2733 | The loop only adds operators that may take the tree so far as left operand. |
| Pratt.InfixSound | src/wren_compiler.cpp:2343-2462 | Left-associative operators, the right-nesting logical ones, the conditional and subscripts. |
| Pratt.Complete | src/wren_compiler.cpp:2708-2736 | Reading the tokens of any proper tree gets to the point where that tree is the left operand. |
| Pratt.ParseExactly | src/wren_compiler.cpp:2708-2736 | Parsing the tokens of any proper tree gives that tree back, whatever follows that does not continue it. |
| Pratt.ArgsExactly | src/wren_compiler.cpp:1763-1778 | The same for lists of up to 16 arguments. |
| Pratt.Unambiguous | src/wren_compiler.cpp:2638-2702 | With this rule table, two different proper trees never have the same tokens. |
| Pratt.AcceptedExactly | src/wren_compiler.cpp:2708-2740 | For all sequences of tokens: accepted, with this tree, are exactly the tokens of a proper tree in which each newline comes after an operator, a colon, a comma or an opening bracket, or before a closing bracket (with only newlines between). |
| Pratt.ParseAlike | src/wren_compiler.cpp:2708-2740 | The newlines that may be there make no difference to what is parsed, and none to what is left but that they are there. |
| PrattTrees.TwoOperators | src/wren_compiler.cpp:2638-2702 | Of any two binary or logical operators the tighter one takes the operand between them; of two on one level the left one does, but for the logical ones. The levels are written out. |
| PrattTrees.PrefixOperator | src/wren_compiler.cpp:2009-2019 | A prefix operator binds more tightly than all binary ones, and less than a subscript. |
| PrattTrees.ConditionalTakesAll | src/wren_compiler.cpp:2400-2442 | A conditional expression takes whole disjunctions as condition and as last branch. |
| PrattTrees.ConditionalNests | src/wren_compiler.cpp:2400-2442 | Conditional expressions nest to the right. |
| PrattTrees.EraseMeans | src/wren_compiler.cpp:1930-1934 | The tree that is built has no parentheses, is the specified tree if that has none, and has the same value whatever the operators stand for. |
| PrattTrees.EraseTokens | src/wren_compiler.cpp:1930-1934 | It has the same tokens but for parentheses. |
| PrattTrees.Expression | src/wren_compiler.cpp:2738-2740 | Given the tokens of a proper tree, with newlines where they are ignored, the code builds that very tree if there are no parentheses in it, and otherwise one with the same tokens but for parentheses and the same value; nothing else is accepted whole. |
| Pratt.Parser.NextToken | src/wren_compiler.cpp:876-886 | Goes on by one token, but not beyond the end. |
| Pratt.Parser.Consume | src/wren_compiler.cpp:1101-1111 | Takes the expected token, or reports an error and may skip one. |
| Pratt.Parser.ParsePrecedence | src/wren_compiler.cpp:2708-2736 | Builds the tree that the specification parses, without its parentheses, and leaves the tokens after it, or reports an error exactly where the specification finds one; it always ends. What that means for whole expressions is said by `PrattTrees.Expression`. |
| Pratt.Parser.Grouping | src/wren_compiler.cpp:1930-1934 | A parenthesised expression leaves no node of its own. |
| Pratt.Parser.UnaryOp | src/wren_compiler.cpp:2009-2019 | The operand of a prefix operator. |
| Pratt.Parser.InfixOp | src/wren_compiler.cpp:2444-2462 | A left-associative operator with the left operand first and the right one after it. |
| Pratt.Parser.LogicalAnd | src/wren_compiler.cpp:2343-2370 | The right operand of a conjunction. |
| Pratt.Parser.LogicalOr | src/wren_compiler.cpp:2372-2398 | The right operand of a disjunction. |
| Pratt.Parser.Conditional | src/wren_compiler.cpp:2400-2442 | Both branches of a conditional expression. |
| Pratt.Parser.Subscript | src/wren_compiler.cpp:2310-2334 | A subscript with its arguments. |
| Pratt.Parser.FinishArgumentList | src/wren_compiler.cpp:1763-1778 | The loop builds the list of arguments, or reports an error, at the seventeenth at the latest. |
| BasicBlocks.FormedHeaded | src/passes/BasicBlockPass.cpp:33-81 | Every block but the first starts with the label of the statement that made it, in the order of these statements. |
| BasicBlocks.HeadsDiffer | src/passes/BasicBlockPass.cpp:33-81 | No two blocks have the same label. |
| BasicBlocks.JumpLands | src/passes/BasicBlockPass.cpp:33-50 | A jump finds the block that starts with its label, where the flat list goes on. |
| BasicBlocks.FallThrough | src/passes/BasicBlockPass.cpp:62-81 | The jump and label that are put after a conditional jump lead to the next statement. |
| BasicBlocks.Follow | src/passes/BasicBlockPass.cpp:12-85 | Every state of the flat run is reached by the blocks. |
| BasicBlocks.FollowBack | src/passes/BasicBlockPass.cpp:12-85 | Every state of the run of the blocks is some silent steps away from one of the flat run. |
| BasicBlocks.BlocksBehave | src/passes/BasicBlockPass.cpp:12-85 | Both forms execute the same statements with any decisions, and return alike or both do not. |
| BasicBlocks.FinalBlocks | src/passes/BasicBlockPass.cpp:12-85 | Every block ends in its only unconditional branch, with at most one conditional jump, just before it, and has a label only at its start. |
| BasicBlocks.FinalComplete | src/passes/BasicBlockPass.cpp:33-81 | No statement is lost, and nothing is added but those jumps and labels. |
| BasicBlocks.Pass.CreateBasicBlock | src/passes/BasicBlockPass.cpp:87-93 | A new empty block at the end. |
| BasicBlocks.Pass.Process | src/passes/BasicBlockPass.cpp:12-85 | The pass produces blocks of that form with that behaviour. Their statements, one after another, are those of the list with a jump before each label that is fallen into and a jump to a new label after each conditional jump; a new block begins at each label and nowhere else. |
| Fibres.Scheduler.Current | rtsrc/ObjFibre.cpp:127-132 | The current fibre, which is the main one at first. |
| Fibres.Scheduler.New | rtsrc/ObjFibre.cpp:110-125 | A new fibre that is not on the stack of fibres; refused for functions of more than one parameter. |
| Fibres.Scheduler.StartAndSwitchTo | rtsrc/ObjFibre.cpp:336-367 | The new fibre runs on a stack of its own; the old one has an address to go back to and a context for the collector. |
| Fibres.Scheduler.ResumeSuspended | rtsrc/ObjFibre.cpp:369-420 | The resumed fibre runs; the one that was left has address and context, or, at its end, has lost its stack. |
| Fibres.Scheduler.Call | rtsrc/ObjFibre.cpp:269-319 | A new or suspended fibre is put on top of the stack of fibres, with a record of whether call or try was used; refused for any other, with nothing changed. |
| Fibres.Scheduler.Yield | rtsrc/ObjFibre.cpp:321-334 | The current fibre is taken off the stack and suspended, and the fibre that called it receives the value; the program ends exactly if nobody called it. |
| Fibres.Scheduler.End | rtsrc/ObjFibre.cpp:422-451 | A fibre that returns or fails is taken off the stack. The one that called it receives the result; of a fibre that has failed it receives the error message if it has used try, and has it raised if it has used call. |
| Fibres.Scheduler.ParentWaits | rtsrc/ObjFibre.cpp:369-374 | The fibre that control returns to is waiting for exactly this one: the abort for a wrong state cannot happen. |
| Fibres.Scheduler.WhoIsWhere | rtsrc/ObjFibre.h:49-56 | At every moment the running fibre is the current one, the waiting ones are the rest of the stack, and every suspended fibre has an address, a context and a stack. |
| FibreRuns.MatchingEnd | rtsrc/ObjFibre.cpp:183-205 | In a whole run, the end of a fibre answers the last call or try of it that is still open: its error is the value of the matching try, and is raised by the matching call, whatever other fibres have done in between. |
| FibreRuns.Run | rtsrc/ObjFibre.cpp:269-451 | Any sequence of making, calling, trying, yielding and ending fibres has such a log, and goes on to its end, or until a fibre that nobody has called yields. |
| MethodTable.Put | rtsrc/ObjClass.cpp:88-127 | Writing where the search ended leaves no gap, keeps every method within six probes, and changes the table by exactly one method. |
| MethodTable.Unique | rtsrc/ObjClass.cpp:88-127 | No signature is in the table twice. |
| MethodTable.MovedAll | rtsrc/ObjClass.cpp:129-144 | Moving to the map loses, adds and changes nothing. |
| MethodTable.FunctionTable.LookupMethod | rtsrc/ObjClass.cpp:35-71 | Agrees with a plain map for every signature; aborts exactly if the signature is absent and all 256 slots are full. |
| MethodTable.FunctionTable.Search | rtsrc/ObjClass.cpp:94-126 | At most six probes. |
| MethodTable.FunctionTable.FindFunctionTableEntry | rtsrc/ObjClass.cpp:88-127 | The entry of the method, or an empty one where it may be put; the methods stay the same also when the table moves to the map. |
| MethodTable.FunctionTable.RelocateSignaturesToSTL | rtsrc/ObjClass.cpp:129-144 | The map holds the same methods as the table. |
| MethodTable.ObjClass.AddFunction | rtsrc/ObjClass.cpp:73-86 | Adds to a plain map, with or without override, and records the definition. |
| MethodTable.InheritedExactly | rtsrc/ObjClass.cpp:200-217 | An inheriting class keeps its own methods and gets, for every other signature, the first definition in its nearest ancestor that has one. |
| MethodTable.NearestIsItsOwn | rtsrc/ObjClass.cpp:200-217 | That is what the ancestor itself uses if and only if there the first and the last entry for the signature have the same function. |
| MethodTable.DefinedOnce | rtsrc/ObjClass.cpp:73-86 | So it is where each signature is defined once. |
| MethodTable.RedefinedInParent | rtsrc/ObjClass.cpp:200-217 | An example where it is not so. |
| MethodTable.RedefineAndInherit | rtsrc/ObjClass.cpp:192-218 | The same through the code: one signature, looked up in the parent and in the class that inherits from it, gives different functions. |
| MethodTable.FinaliseSetup | rtsrc/ObjClass.cpp:192-218 | What each class ends up with does not depend on the order in which the classes are set up. |
| StackMaps.ReadBack | common/StackMapDescription.cpp:42-91 | Every object that is written is read back, whatever follows it. |
| StackMaps.AllBack | common/StackMapDescription.cpp:42-91 | So is every sequence of objects. |
| StackMaps.RoundTrip | common/StackMapDescription.cpp:29-92 | Reading a stack map gives back all functions and call sites, each call site attached to its own function, with functions that have none. |
| StackMaps.Writer.WriteFunction | src/backend_llvm/WrenGCMetadataPrinter.cpp:72-94 | The bytes of a function and its name. |
| StackMaps.Writer.WriteSite | src/backend_llvm/WrenGCMetadataPrinter.cpp:228-251 | The bytes of a call site, padded to 8. |
| StackMapLayout.FunctionLayout | src/backend_llvm/WrenGCMetadataPrinter.cpp:72-94 | Where the address, the count and the stack size of a function stand in its record, with the lowest byte first, and where its padded name is. |
| StackMapLayout.SiteLayout | src/backend_llvm/WrenGCMetadataPrinter.cpp:228-251 | Where the parts of the record of a call site stand. |
| StackMapLayout.MapLayout | src/backend_llvm/WrenGCMetadataPrinter.cpp:96-263 | A stack map begins with version 1 and ends with the end mark. |
| StackMaps.Writer.EmitStackMaps | src/backend_llvm/WrenGCMetadataPrinter.cpp:96-263 | The interleaving of functions and call sites writes each function, with its name, just before its own call sites. |
| StackMaps.SortSorts | common/StackMapDescription.cpp:94-102 | Sorting orders by address and keeps every call site. |
| StackMaps.StackMapDescription.constructor | common/StackMapDescription.cpp:29-103 | Reads until the end mark and sorts; aborts exactly where the specification does. |
| StackMaps.StackMapDescription.Lookup | common/StackMapDescription.cpp:105-128 | Bisection finds a call site with an address if and only if there is one, and describes one that has it. |
| StackMapSearch.EmitReadLookup | common/StackMapDescription.cpp:29-128 | From the compiler to the search: nothing is found exactly if no call site has the address, otherwise the values and the function of a call site that has it. |
| Utf8.ReadOne | rtsrc/ObjString.cpp:118-156 | A code point that has been written is read back, and iteration moves over exactly its bytes, whatever is around it. |
| Utf8.EncodeTable | rtsrc/ObjString.cpp:295-316 | The bytes of a code point are those in the table of RFC 3629: how many, how each is marked, and which part of the number each carries. |
| Utf8.OrderKept | rtsrc/ObjString.cpp:295-316 | The order of the bytes is the order of the code points. |
| Utf8.RoundTrip | rtsrc/ObjString.cpp:190-227 | Writing any list of code points and walking through the string gives the list back. |
| Utf8.ReadIsWritten | rtsrc/ObjString.cpp:118-156 | On arbitrary bytes, a number that is read is a code point that is written there if and only if the first two bytes are ones with which RFC 3629 lets a code point begin (surrogates, which AppendCodepoint writes, included). |
| Utf8.ReportedExactly | rtsrc/ObjString.cpp:118-156 | -1 is read exactly in the middle of a code point and where the bytes that the first one announces are not all there; iteration moves over one byte where the tail is broken, and over the whole code point otherwise. |
| Utf8.NotAStart | rtsrc/ObjString.cpp:118-156 | The byte 0xff is read as 63. |
| Utf8.Overlong | rtsrc/ObjString.cpp:118-156 | The bytes 0xc0 0x80 are read as 0. |
| Utf8.BeyondUnicode | rtsrc/ObjString.cpp:118-156 | The bytes 0xf4 0x90 0x80 0x80 are read as 0x110000. |
| Utf8.ObjString.AppendCodepoint | rtsrc/ObjString.cpp:295-316 | Appends the encoding of RFC 3629; refused outside 0 to 0x10ffff. |
| Utf8.ObjString.CodePointAt_ | rtsrc/ObjString.cpp:118-156 | The code point at an index, which may count from the end. |
| Utf8.ObjString.Iterate | rtsrc/ObjString.cpp:190-227 | The next position lies strictly further and inside the string, on arbitrary bytes. |
| Utf8.ObjString.CodePoints | rtsrc/ObjString.cpp:190-229 | Iterating over a string ends, and reads what the walk reads. |

## Left out

* The C and C++ types of fixed width are mostly unbounded numbers; where width matters (constants, white number, addresses of call sites, codecs) it is written out.
* QBE parsing, printing, instruction selection, calling conventions and the passes in `ssa.c`, `load.c`, `copy.c` and `spill.c`.
* Folding of floating-point operations, conversions from floating point and `cast`; the `local` flag of constants.
* The bit sets of `util.c`: sets are used in their place.
* Edges are deleted from phis, but predecessor lists are not updated in `edgedel` (they are computed again before they are used).
* `fillrpo` unlinks unreachable blocks; the deletion of their edges is not modelled there.
* The lists of children in the dominator tree (`dom`, `dlink`), loops and their costs.
* Fixed and caller-save registers, and calls, in liveness.
* ParallelMove.Mover.PmGen: needs room in the instruction buffer and moves of one kind of registers, as the code does, which aborts otherwise.
* The rest of register allocation.
* Memory from the operating system: the caller gives an address at which a new slab overlaps no other one.
* Destructors of objects, and the contents of objects other than their words and what they report.
* Marking from machine stacks: the values found there are given as roots. The search for the function of an instruction pointer is not part of this model.
* Collector.Runtime.RunGC: objects outside slabs are never freed; what a dangling pointer does after an inexact cycle is not modelled.
* Programs.Program.Play: the objects outside slabs are roots throughout, as the classes in the globals of the core module are; for others `Collector.ExactIff` and the contract of `RunGC` hold. Programs with so many collections that the 32-bit white number wraps around are left to `Collector.ExactIff` too.
* `transfer` and `transferError` of fibres, the switching of stacks itself, and thread environment blocks on Windows.
* Lexing, statements, classes, assignment, method calls, lists, maps and interpolation in the expression parser: tokens that begin them have no rule here.
* The intermediate code that the parser builds, and newlines before a dot.
* Nested blocks in `BasicBlockPass` (the original aborts), and debug information.
* Hashing of signatures: they are given as numbers, and 0 is none of them.
* LLVM's own data structures: the writer of stack maps starts from functions with their numbers of call sites and from call sites with packed offsets, which fit their fields.
* `std::sort` and `std::lower_bound` are written out as insertion and bisection.
* The code points of strings are read and written with division and remainder in place of masks and shifts.
