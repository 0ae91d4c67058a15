# The memory system of the Oaklisp virtual machine

This project models how the Oaklisp emulator keeps its heap and its stacks, and how the cold-world
linker builds the first heap image, and proves that they do what they are for.  `dafny verify
dfyconfig.toml` checks all of it.

**Words.**  A word is a fixnum, an immediate, a locative to one cell or a pointer to an object
(`Words.dfy`).  Addresses count words.  Where the bits matter they are modelled: the 64-bit words of
world files and hash keys, the fixnum instructions, packed strings.

**Copying collector** (`CopyHeap`, `LocChain`, `Firm`, `CopyPassTwo`, `Isomorphism`, `Collector`,
`LonelyCell`, `NextHeap`, `SpacePolicy`).  All of memory is one array; spaces are ranges of it.
`Collector.Heap` runs both passes on it.  A ghost move maps old cells to new ones; pass one moves whole
objects, pass two moves cells that only locatives reach.  A word is *half* done after pass one and *done*
when it is the image of the original.  The closed set `live` shows that nothing unreachable is moved; the
least closed sets of `Firm` are what pass one moves, and can be known before the collection.  `NextHeap`
carries the heap from one collection to the next.

**Mark-sweep collector** (`Bitmap`, `Extents`, `FreeLists`, `MsGraph`, `MsSweep`, `MsAlloc`,
`MarkSweep`).  `MarkSweep.MsHeap` is the single-threaded collector and allocator over the object-start
and mark bitmaps and the free lists threaded through dead objects.  `Satb` is the concurrent mark as a
transition system, and `SatbSteps` says what its steps do to the heap the program sees.

**Stacks** (`Segments`, `Stacks`, `StackMachine`, `StackLaws`, `StackVm`).  A stack is a bounded buffer over a list
of flushed segments; a virtual machine with two of them refines a machine with two unbounded stacks,
about which the laws of continuations and throws are proved.  Its operations are everything loop.c does
to the stacks short of entering a trap handler; an instruction that computes a value is a run of them.
`StackLaws` says what each does, on stacks written out value by value.

**Cold linker** (`ColdData`, `ColdPairs`, `ColdConstants`, `ColdCount`, `ColdLayout`, `ColdPhases`,
`ColdImage`, `ColdFaults`, `ColdLinker`, `ColdReads`, `OakString`).  The natural recursive layout of a
constant is the specification of the iterative, memoised one; what a reference stands for, and an
independent decoder, are defined on the image.  `ColdReads` says what the finished image holds in terms of
the object files alone.

**Weak pointers and method search** (`Primes`, `WeakHash`, `WeakTable`, `WeakMoves`, `Dispatch`).
`WeakMoves` shows that what the copying collector does to references is what the weak table needs.

**Handshake, world files, fixnums** (`Handshake`, `WorldIo`, `Fixnum`, with `Arith`, `Counting`
and `Options` below them all).

Where the code falls short of what its comments promise, the model follows the code and a lemma gives
the exact condition:

- A comment in `gc` calls it ordinary that e_bp alone keeps a cell.  The cell comes through whole if
  and only if the object it points to is one that pass one finds, through pointers and chains of
  locatives, from its own roots (`Isomorphism.LonelyExactBefore`, and for a chain of such cells
  `Isomorphism.InnerExact`); `LonelyCell.CellLost` is a heap and an e_bp where it does not.
- To-space is promised never to run out, but a new space filled to its last word can exhaust it:
  exactly when is `SpacePolicy.ExhaustionExact`, and `SpacePolicy.ExactFit` reaches such states.
- The command line's sizing rule allows a four-cell context buffer when segments hold one value, and a
  second frame is then written past its end (`Stacks.FrameFits`; `Stacks.SecondFrame` gets there).
- The top of the stack is always to be visible.  Two instructions can leave the buffer empty, and do so
  exactly as follows: BLT-STACK with nothing to keep, if what it drops ends at a segment boundary
  (`Stacks.Stack.Blt`, `Segments.PulledExact`), and BLAST 0, if its value is the only one in the buffer
  (`Stacks.Stack.Blast`).  `StackVm.TopLost` and `StackVm.TopBlasted` do so soon after a continuation has
  been filled; every other instruction keeps the top visible (`StackVm.Vm.Step`).
- The manual has BLAST n equal to STORE-STK n and POP 1.  It is so exactly when a value is left below:
  on the last value POP 1 stops with an underflow (`StackMachine.BlastIsStorePop`).
- The loader relocates the boot reference whether or not it is a pointer (`WorldIo.DumpAndLoad`;
  `WorldIo.BootMoved` is a number that comes back as another).

## Model

| member | source | states |
|---|---|---|
| Collector.Heap.Collect | src/emulator/gc.c:530-672 | A whole collection, both passes: every root of every kind, e_nil, every word of to-space and (in a partial collection) of static space holds the image of its old contents under one move; only cells of the closed set `live` are moved, and the objects moved whole are exactly those pass one can find; weak entries follow or are dropped; allocation stays below the end of to-space.  The room asked for is that `live` fits with a word to spare, however full the old space was |
| Isomorphism.FollowSame | src/emulator/gc.c:551-655 | Any program that reads its way from corresponding roots along a path of slots ends at corresponding words in the old and the new heap, for paths of any length |
| Isomorphism.ReadsSame | src/emulator/gc.c:551-655 | Words read one after the other from a root on, each out of the cell the one before it led to, have images that are read one after the other in the same way from the new heap |
| Isomorphism.AccessSame | src/emulator/gc.c:551-655 | One access, through a pointer's slot or a locative, gives the image of what the same access gave before |
| Isomorphism.ImageInjective | src/emulator/gc.c:551-655 | Distinct references have distinct images, and a reference never becomes equal to a non-reference: sharing and identity survive |
| Isomorphism.MovedClosed | src/emulator/gc.c:551-655 | The moved cells are closed under reference, so nothing reachable is left behind |
| Isomorphism.InnerReady | src/emulator/gc.c:625-633 | A locative seen only in pass two (e_bp, the program counter) can be redirected whenever each cell its chain leads to is moved with its object or holds nothing pass one leaves behind, even if it is the only reference to its cell |
| Isomorphism.InnerExact | src/emulator/gc.c:625-633 | That condition, which can be checked before the collection, holds exactly when the chain does not come to a cell outside the objects found that points to an object not found |
| Isomorphism.LonelyExactBefore | src/emulator/gc.c:340-347 | At any time in pass two, the new cell of a lonely cell gets the image of a pointer if and only if the object pointed to is one that pointers and chains of locatives lead to from the roots of pass one |
| LonelyCell.CellLost | src/emulator/gc.c:626-632 | A heap, its state after pass one and an e_bp that is the only reference to its cell, where the new cell gets a pointer into old space |
| Firm.PassOneExact | src/emulator/gc.c:551-616 | Pass one moves exactly the least set of cells that holds the objects its roots lead to through pointers, looking through locatives |
| Firm.LeastClosed | src/emulator/gc.c:551-616 | There is such a least set, determined by the heap and the roots alone |
| NextHeap.MovedExactly | src/emulator/gc.c:551-655 | The cells moved by the end of the collection are exactly those that can be reached from all its roots |
| NextHeap.ReachableExists | src/emulator/gc.c:551-655 | For any roots there is a least closed set, so the set of cells that can be reached always exists |
| NextHeap.NextOk | src/emulator/gc.c:769-868 | The heap a collection leaves is again a proper heap, with the moved objects at their new places and lengths, whether to-space becomes the new space or the static space, so collections can follow one another |
| NextHeap.WordAfter | src/emulator/gc.c:551-655 | Every root and word is, in its new form, a proper word of that heap |
| NextHeap.PartialOk | src/emulator/data.h:374-376 | A proper heap is one also as a partial collection sees it, with only the new space moving, when `live` is closed in that view; its objects keep their lengths |
| CopyPassTwo.LonelyExact | src/emulator/gc.c:340-347 | The new cell of a lonely cell holds the image of its contents if and only if the object it points to, if any, has been moved |
| LocChain.Meet | src/emulator/gc.c:263-289 | The tortoise-and-hare walk ends on every chain: in some round the chain is over or the two meet |
| Collector.Heap.FollowChain | src/emulator/gc.c:263-289 | The chain walk as the loop it is: it ends at a word that is no locative into old space or reports a circle, having seen only cells of the chain |
| Collector.Heap.GetLength | src/emulator/gc.c:161-196 | The length read in the middle of a collection, through forwarded type slots, is the length the object had before it |
| CopyHeap.LengthRead | src/emulator/gc.c:161-196 | Forwarded or not, the type slots an object's length is read from give the length it had before the collection |
| CopyHeap.LenIs | src/emulator/gc.c:161-196 | The length of an object of a fixed-length type is that of the type, that of any other its own second word |
| Collector.Heap.TouchObject | src/emulator/gc.c:204-260 | Touching a pointer transports the object once, keeps the invariant of pass one, and returns the new pointer |
| Collector.Heap.Transport | src/emulator/gc.c:215-257 | An object not yet moved is copied cell by cell to the allocation point, leaving a forwarding locative in each old cell, and keeps the invariant of pass one |
| Collector.Heap.TouchLocative | src/emulator/gc.c:261-303 | Touching a locative transports the object its chain ends in and leaves the locative as it is |
| Collector.Heap.Scavenge | src/emulator/gc.c:365-372 | When the scan catches up with allocation, every word of to-space has been touched |
| Collector.Heap.TouchCell | src/emulator/gc.c:308-362 | Redirecting a locative finds the cell's new home or moves the lonely cell, keeping the invariant of pass two |
| Collector.Heap.LocScavenge | src/emulator/gc.c:374-381 | Afterwards every word of to-space is the image of its original, including cells moved meanwhile |
| Collector.Heap.ScanWeak | src/emulator/weak.c:399-430 | After a copying collection a weak entry follows its cell if that was moved and is empty if not |
| CopyHeap.NullTest | src/emulator/gc.c:174-176 | The nil test in mid-collection agrees with the test on the original word |
| CopyHeap.ForwardTest | src/emulator/gc.c:207-213 | A type slot holds a locative exactly when its object has been moved |
| CopyPassTwo.CellTest | src/emulator/gc.c:316-319 | A cell holds a locative into to-space exactly when it has been moved |
| CopyHeap.MovedFits | src/emulator/gc.c:231-251 | Cells moved are at most the cells in use before the flip |
| CopyHeap.Room | src/emulator/gc.c:231-251 | If what can be reached fits in to-space with a word to spare, the exhaustion exit is not reached when an object is transported |
| CopyHeap.MovedWithin | src/emulator/gc.c:231-251 | To-space is filled with no more cells than there are in any set that holds all that is moved, and with just as many if it is the set of those |
| CopyPassTwo.CellRoom | src/emulator/gc.c:322-339 | Nor when a lonely cell is |
| NextHeap.RoomNeeded | src/emulator/gc.c:231-251 | That room is also necessary: a collection that ends within to-space has moved just the cells that can be reached, and they fit with a word to spare |
| SpacePolicy.CollectionKeeps | src/emulator/gc.c:530-543 | A collection succeeds if and only if what survives is less than to-space; then sizes stay ordered and the request fits |
| SpacePolicy.FullResult | src/emulator/gc.c:833-868 | After a full collection all that survived is static, and new space is empty and of the configured size, or of three times the request |
| SpacePolicy.PartialResult | src/emulator/gc.c:792-831 | After a partial collection static space is as it was; exactly when a second flip is made at once; how large the space and the next one are |
| SpacePolicy.AllocationResult | src/emulator/data.h:528-549 | An allocation takes its words from the space there is if that leaves one to spare, and otherwise from what a partial collection leaves |
| SpacePolicy.ExhaustionExact | src/emulator/gc.c:792-868 | Exactly in which states a collection can exhaust to-space: new space completely used, and for a partial collection the next new space no bigger |
| SpacePolicy.ExactFit | src/emulator/gc.c:530-543 | Such states are reached by allocating exactly up to the end after a collection, for a full and for a partial collection |
| SpacePolicy.SurvivorsFit | src/emulator/gc.c:530-543 | In a heap laid out in such spaces the cells moved are at most what the sizing counts as used, and a word to spare gives the collector the room it needs |
| SpacePolicy.AllocationFits | src/emulator/data.h:528-549 | An allocation never takes more words than there are, after any collections it causes |
| SpacePolicy.Spaces.Gc | src/emulator/gc.c:769-868 | The resizing code, with its jump back to the flip, computes the specified sizes |
| SpacePolicy.Spaces.Allocate | src/emulator/data.h:528-549 | ALLOCATE_PROT collects when a request would not leave a word to spare, and computes the specified sizes |
| Satb.Safety | src/emulator/gc-ms.c:1128-1212 | Over every interleaving of tracing with loads, barriered stores, root changes and allocation, at the end of remark every heap object the program can reach is marked or lies at or above sweep_limit |
| Satb.Exactness | src/emulator/gc-ms.c:1128-1212 | Below sweep_limit the marked objects are exactly those reachable at the initial mark and those allocated since |
| Satb.SnapshotMarked | src/emulator/gc-ms.c:357-377 | Everything reachable in the snapshot is marked when tracing is over |
| Satb.StepKeeps | src/emulator/gc-ms.c:357-377 | Every step of a mutator, of the tracer and of the pauses keeps the tri-colour invariant |
| Satb.BarrierCovered | src/emulator/gc-ms.c:357-377 | The barrier leaves the word about to be overwritten marked or logged |
| Satb.AllocKeeps | src/emulator/gc-ms.c:469-483 | Objects allocated while marking, black below the limit or above it, keep the invariant |
| Satb.SnapshotIs | src/emulator/gc-ms.c:1128-1212 | The recorded snapshot is the heap and the roots of the initial-mark pause, through to the end |
| SatbSteps.LastStoreRead | src/emulator/loop.c:611-617 | A load gives what was stored last into the word, whatever other threads, the tracer and the pauses have done in between |
| SatbSteps.Stores | src/emulator/loop.c:611-617 | A store writes its word and changes no other word, no root and no length |
| SatbSteps.Logs | src/emulator/gc-ms.c:357-377 | The barrier logs the old word exactly while marking is under way and if it is a reference, and changes nothing else |
| SatbSteps.Allocates | src/emulator/gc-ms.c:469-483 | A new object holds what it is made with, its thread holds it, and no older object changes |
| SatbSteps.CollectorLeaves | src/emulator/gc-ms.c:1128-1212 | No step of the tracer or of a pause changes a word of the heap or a root |
| SatbSteps.ProgramLeaves | src/emulator/gc-ms.c:469-483 | No step of the program changes a mark or the work of the tracer, but for the mark of what it allocates below sweep_limit while marking |
| SatbSteps.SnapshotTaken | src/emulator/gc-ms.c:1128-1160 | The initial mark records the heap and the roots as they are and sets sweep_limit to the allocation point |
| SatbSteps.PassedOn | src/emulator/gc-ms.c:752-826 | A word one thread puts in a global register another can load from it |
| SatbSteps.RemarkEnds | src/emulator/gc-ms.c:1160-1212 | From any state in the remark pause the tracer comes to its end by its own steps |
| MarkSweep.MsHeap.Collect | src/emulator/gc-ms.c:1213-1260 | Exactly the objects unreachable from the roots end up on the free lists, no word of a live object changes, and the result says whether free space covers the request; a weak entry stays exactly if it names no object or one that was reachable, and is nil otherwise, so that the table can be collected again |
| MarkSweep.MsHeap.New | src/emulator/data.h:477-524 | An allocation, with its collection and retry, collects exactly when neither the free list of the class nor the bump pointer can serve; it takes a block of the class if there is one (without a collection the first in its list) and else bumps, and returns a block that no reachable object had, holding the caller's words, or NULL only after a collection that left too little; every object reachable before is still allocated and unchanged, after a collection exactly the unreachable ones are free, and a weak entry is as after one |
| MarkSweep.MsHeap.TryNew | src/emulator/data.h:477-492 | The free list of the class first, its first fit; the bump pointer only if no block of the class is big enough; NULL, with nothing changed, exactly if neither serves |
| MarkSweep.MsHeap.constructor | src/emulator/gc-ms.c:1401-1416 | An empty heap satisfies the invariant |
| MarkSweep.MsHeap.Trace | src/emulator/gc-ms.c:648-670 | When the mark stack is empty the marked objects are exactly the reachable ones |
| MarkSweep.MsHeap.MarkRef | src/emulator/gc-ms.c:616-645 | Marking a word marks and pushes the object it keeps alive, a locative's containing object included |
| MsGraph.TargetMeans | src/emulator/gc-ms.c:616-645 | A pointer into the heap keeps its object alive, a locative the one object that contains its cell, any other word nothing |
| MarkSweep.MsHeap.MarkRoots | src/emulator/gc-ms.c:752-826 | Afterwards the targets of all root words are marked, and only those |
| MarkSweep.MsHeap.Sweep | src/emulator/gc-ms.c:828-898 | Every object without a mark is on the free list of its class, everything else is untouched, and the total is the sum of the entries |
| MarkSweep.MsHeap.FreeListAlloc | src/emulator/gc-ms.c:131-177 | The block returned was the first entry of its class's list that is big enough, is off the list, and is zero beyond the request; NULL exactly when no dead block of the class is big enough; the corruption check is never taken |
| MarkSweep.MsHeap.FindObjectStart | src/emulator/gc-ms.c:545-580 | The start of the unique object that contains the address |
| MarkSweep.MsHeap.Extent | src/emulator/gc-ms.c:519-540 | The distance to the next object start or to free_point |
| MarkSweep.MsHeap.ScanWeak | src/emulator/gc-ms.c:1002-1037 | Entries whose object is unmarked are emptied, and only those |
| MarkSweep.MsHeap.Bump | src/emulator/gc-ms.c:180-186 | A new object at free_point; every older object keeps its extent and words |
| MarkSweep.MsHeap.Assign | src/emulator/gc-ms.c:616-645 | A store of a word that names an allocated object keeps the heap well-formed |
| Extents.Tiling | src/emulator/gc-ms.c:519-567 | Object extents tile the used heap: every used address lies in exactly one object |
| Extents.BumpExtents | src/emulator/gc-ms.c:180-186 | Bump allocation adds one extent and changes no other |
| MsGraph.ExactlyReachable | src/emulator/gc-ms.c:648-670 | A set that contains the roots' targets, is closed, and holds only reachable objects is the set of reachable objects |
| MsGraph.TraceDone | src/emulator/gc-ms.c:648-670 | The marking invariant with an empty stack gives that set |
| FreeLists.Pushed | src/emulator/gc-ms.c:870-890 | Threading a dead object through its own words puts it on the head of its list |
| FreeLists.Unlinked | src/emulator/gc-ms.c:151-153 | Storing an entry's link in its predecessor takes just that entry off the list |
| FreeLists.SizeClass | src/emulator/gc-ms.c:95-104 | The class of a size is the first whose bound is not exceeded |
| MsAlloc.NoneFits | src/emulator/gc-ms.c:131-177 | When the search reaches the end of the list, no entry of the class is big enough |
| MsSweep.SweepPush | src/emulator/gc-ms.c:828-898 | Sweeping one dead object keeps lists, sizes, total and live words as they must be |
| Bitmap.GreatestAtOrBelow | src/emulator/gc-ms.c:545-567 | The backward scan with count-leading-zeros finds the greatest set bit at or below an index |
| Bitmap.DropOnes | src/emulator/gc-ms.c:840-870 | Dropping the lowest set bit leaves one bit less, so the sweep of a bitmap word ends |
| StackVm.Vm.Execute | src/emulator/loop.c:1088-1147 | Any run of all the operations of loop.c on the stacks does over buffers and flushed segments exactly what it does on two unbounded stacks, and ends the same way when it ends early; it can stop sooner only at a BLT-STACK that keeps nothing or a BLAST 0, which empties the buffer, and up to and including which the stacks are still the same |
| StackVm.Vm.Step | src/emulator/cmdline.c:356-392 | One operation: with the sizing rule (and five cells or more of context buffer) no access of depth up to 255, frame push, frame pop or deep pop overruns a buffer or reaches stack_overunflush; the buffer ends up empty exactly when `Bares` says so of the state before |
| StackVm.Vm.BltStack | src/emulator/loop.c:1465-1486 | BLT-STACK does what it means on the unbounded stack, and loses sight of the top exactly when it keeps nothing and drops the buffer and whole segments |
| StackVm.Vm.SwapStk | src/emulator/loop.c:1519-1527 | SWAP does what it means on the unbounded stack, though the value n down may have to be pulled in first |
| StackVm.Vm.BlastStk | src/emulator/loop.c:1529-1535 | BLAST does what it means on the unbounded stack, and loses sight of the top exactly when n is 0 and its value is the only one in the buffer |
| StackVm.Vm.CloseEnvironment | src/emulator/loop.c:2051-2093 | MAKE-CLOSED-ENVIRONMENT takes the top n values off, top first, and pushes the environment; with n = 0 there is room for the push |
| StackVm.Vm.ReachDown | src/emulator/loop.c:1812-1815 | A look at a value n down leaves the stack as it is, and dies exactly when the stack is not that deep |
| StackVm.TopLost | src/emulator/loop.c:1465-1486 | A machine that fills a continuation and then runs BLT-STACK 0,1 has an empty buffer over a stack that is not empty |
| StackVm.TopBlasted | src/emulator/loop.c:1529-1535 | A machine that fills a continuation and then runs POP 1 and BLAST 0 has an empty buffer over a stack that is not empty |
| StackMachine.BlastIsStorePop | doc/lim/bytecode.tex:177-178 | BLAST n equals STORE-STK n followed by POP 1 if and only if the stack has two values or more |
| StackMachine.SwapTwice | doc/lim/bytecode.tex:177-178 | SWAP 0 does nothing, and SWAP n twice does nothing |
| StackMachine.ContinuationRestores | src/emulator/loop.c:1088-1147 | After FILL-CONTINUATION, any run, including earlier entries into it, followed by CONTINUE restores exactly the captured stacks plus the value passed and minus the frame returned through |
| StackMachine.ThrowRestores | src/emulator/loop.c:987-1018 | THROW to a tag restores exactly the prefixes FILLTAG recorded, plus the thrown value and minus the frame, if neither stack has dropped below them since |
| StackMachine.PrefixKept | src/emulator/loop.c:2340-2348 | As long as neither stack drops below a height, what lies below it stays |
| StackMachine.PhotoPersists | src/emulator/loop.c:1088-1117 | No instruction but a refill changes what a continuation has captured |
| StackLaws.PushPop | src/emulator/stacks-loop.h:146-167 | POP undoes a push, unless that was onto an empty stack |
| StackLaws.Loaded | src/emulator/loop.c:1574-1584 | LOAD-STK n pushes the value n others lie on, and dies on a stack not that deep |
| StackLaws.LoadUncovers | src/emulator/loop.c:1574-1584 | That is the value POP n would uncover |
| StackLaws.Stored | src/emulator/loop.c:1544-1551 | STORE-STK n replaces that value by the top and leaves the others |
| StackLaws.Exchanged | src/emulator/loop.c:1519-1527 | SWAP n exchanges the two and leaves the others |
| StackLaws.Blasted | src/emulator/loop.c:1529-1535 | BLAST n moves the top there and leaves the others |
| StackLaws.PoppedMany | src/emulator/stacks-loop.h:217-230 | POP n drops just the top n, and dies if no value would be left |
| StackLaws.BltDrops | src/emulator/loop.c:1465-1486 | BLT-STACK keeps the top values and those below what it drops, in order |
| StackLaws.Replaced | src/emulator/loop.c:608-611 | Computing a value in place of the top leaves what pushing it instead of the top would have left |
| StackLaws.Looked | src/emulator/loop.c:1812-1815 | Looking at a value changes nothing, and dies just when loading it would |
| StackLaws.Enclosed | src/emulator/loop.c:2051-2093 | MAKE-CLOSED-ENVIRONMENT n replaces the top n values by the environment |
| StackLaws.CallReturn | src/emulator/stacks-loop.h:246-288 | Calling and returning restores the caller's registers, with the program counter it left, and both stacks |
| StackLaws.Returned | src/emulator/stacks-loop.h:276-288 | A return takes the frame on top, and never the outermost one |
| StackLaws.OnlyTheObject | src/emulator/loop.c:1088-1117 | FILL-CONTINUATION and FILLTAG change the object on top of the stack and nothing else |
| StackLaws.Thrown | src/emulator/loop.c:987-1018 | THROW traps exactly when a stack is lower than the tag says; what it leaves otherwise |
| StackLaws.Continued | src/emulator/loop.c:1119-1147 | What CONTINUE leaves, and when it dies |
| StackVm.PhotosKept | src/emulator/stacks.c:77-139 | Because the segment heap only grows, captured segment lists keep their contents |
| Segments.ContentsGrow | src/emulator/stacks.c:104-124 | A segment list keeps its contents while new segments are made |
| Segments.PulledBound | src/emulator/stacks.c:182-218 | Pulling segments in until more than n values are there succeeds exactly when the stack is deeper than n, and overshoots by less than a segment |
| Segments.PulledExact | src/emulator/stacks.c:182-218 | Pulling segments in overshoots by nothing exactly when some number of whole segments holds just what is missing |
| Stacks.Stack.Flush | src/emulator/stacks.c:77-139 | Flushing leaves the stack's one sequence as it was and the requested number of values in the buffer |
| Stacks.Stack.Unflush | src/emulator/stacks.c:168-243 | Unflushing leaves the sequence as it was and the buffer with just the segments needed; exactly when it underflows and when it would overrun the buffer |
| Stacks.Stack.PopN | src/emulator/stacks.c:255-313 | Removes exactly the top n for any n below the height, with the top visible afterwards, and underflows otherwise; pushed_count stays the total segment length |
| Stacks.Stack.CheckPop | src/emulator/stacks-loop.h:183-196 | Makes accesses of the given depth possible exactly when the stack is deep enough |
| Stacks.Stack.Push | src/emulator/stacks-loop.h:146-155 | Appends one value whatever the state of the buffer |
| Stacks.Stack.Pop | src/emulator/stacks-loop.h:163-167 | Removes the top value; it underflows exactly when that is the last one |
| Stacks.Stack.StoreUp | src/emulator/loop.c:1544-1551 | STORE-STK changes the one value n down, in the buffer and never in a segment |
| Stacks.Stack.SwapUp | src/emulator/loop.c:1519-1527 | SWAP n exchanges the top with the value n down, exactly when the stack is deep enough |
| Stacks.Stack.Blast | src/emulator/loop.c:1529-1535 | BLAST n overwrites the value n down with the top and drops the top; where the top of the stack then is in the buffer, and when that is empty |
| Stacks.Stack.Enclose | src/emulator/loop.c:2051-2093 | Takes n values off in order and pushes one, or underflows exactly when there are fewer than n |
| Stacks.Stack.Blt | src/emulator/loop.c:1465-1486 | BLT-STACK drops exactly the values under the kept ones; where the top of the stack then is in the buffer, and that the buffer is empty exactly when nothing is kept and what is dropped ends at a segment boundary |
| Stacks.Stack.PushFrame | src/emulator/stacks-loop.h:246-274 | Appends the three words of a frame, or writes past the buffer exactly when neither the buffer nor half of it leaves room |
| Stacks.Stack.PopFrame | src/emulator/stacks-loop.h:276-288 | Gives back the last frame pushed; it underflows exactly at three words or fewer |
| Stacks.Stack.Height | src/emulator/stacks-loop.h:120-126 | Buffer plus pushed_count is the height of the whole stack |
| Stacks.FrameFits | src/emulator/cmdline.c:381-392 | A frame always fits exactly when the context buffer has five cells or more; the sizing rule allows four when max_segment_size is one |
| Stacks.SecondFrame | src/emulator/cmdline.c:381-392 | With the least sizes accepted, the first frame fills the four cells and the second is written past them |
| Stacks.SizeRule | src/emulator/cmdline.c:356-392 | The buffer holds a maximal segment on top of the deepest access |
| StackVm.Vm.Fill | src/emulator/loop.c:1088-1117 | FILL-CONTINUATION captures all but the top two values and every context, and leaves both stacks as they were |
| StackVm.Vm.Continue | src/emulator/loop.c:1119-1147 | CONTINUE puts captured lists back under empty buffers, as on the unbounded stacks |
| StackVm.Vm.Throw | src/emulator/loop.c:987-1018 | THROW checks the recorded heights, unwinds and returns, as on the unbounded stacks, however much has been flushed |
| StackVm.Vm.Tag | src/emulator/loop.c:2340-2348 | FILLTAG records the two heights of the unbounded stacks |
| ColdLinker.Link | src/emulator/oak-cold-linker.c:2080-2119 | The phases in order: the input is refused exactly when the counting pass refuses it; linking succeeds if and only if every block is sound (resolvable patches that do not clash, chaining that finds its RETURN), told from the object files alone, and fails for the first fault there is; a linked world has every region, symbol, block and patch as it should be |
| ColdFaults.FirstFaultUnique | src/emulator/oak-cold-linker.c:1784-1880 | The first fault of the object files is one fault: at most one reason for giving up |
| ColdFaults.TakenIsClash | src/emulator/oak-cold-linker.c:1036-1051 | When the patches before have been applied, a patch finds its word taken exactly if opcodes other than noops were there or an earlier patch asked for anything but the number 0 |
| ColdLinker.ConstantsDecode | src/emulator/oak-cold-linker.c:1784-1880 | In a linked world every constant decodes, from the cell its patch names and from the image alone, to what the object file said |
| ColdReads.CodeReads | src/emulator/oak-cold-linker.c:1784-1831 | In a linked world every word of opcodes no patch goes to is that of the object file, at its place, except that the final RETURN of a top level block that is not the last is a noop, so that execution runs on into the next; no other opcode differs unless blocks that keep no word follow |
| ColdReads.PatchReads | src/emulator/oak-cold-linker.c:1833-1873 | Every patched word is what its last patch asks for: a reference to a constant that decodes to the s-expression, the cell of the variable at its place, or the block, with its header |
| ColdReads.ReturnGoes | src/emulator/oak-cold-linker.c:1757-1782 | Opcodes that end in a RETURN, but for noops, have a noop in its place and are the same otherwise |
| ColdReads.NoneToGo | src/emulator/oak-cold-linker.c:1757-1782 | All other opcodes are refused |
| ColdReads.IntegerReads | src/emulator/oak-cold-linker.c:984-1004 | The linker takes an integer exactly if it is a fixnum of the target, and the word it writes is the one the emulator reads back as that integer |
| ColdData.LayDenotes | src/emulator/oak-cold-linker.c:1169-1246 | The reference for a constant stands for it in the world, whatever was cached before |
| ColdData.LaidOnce | src/emulator/oak-cold-linker.c:1143-1260 | A constant that has been laid out is shared: later it takes no cells and gets the same reference, whatever else has been laid out in between |
| ColdData.DenotesDecodes | src/emulator/oak-cold-linker.c:1169-1246 | A reference that stands for a constant is decoded to it by an independent reader of the image, which reads symbols by the names in their objects |
| ColdData.NormIs | src/emulator/oak-cold-linker.c:1212-1260 | Reading a constant back changes nothing in it but #f, which is the empty list |
| ColdData.NameDecodes | src/emulator/oak-cold-linker.c:1680-1689 | A symbol is recognised by its type slot and its name read back from its string |
| ColdData.EntryCommutes | src/emulator/oak-cold-linker.c:1164-1168 | A cache entry for a larger pair makes no difference, so a pair may be entered before its cells are written |
| ColdData.ChainStep | src/emulator/oak-cold-linker.c:1169-1196 | One turn of the loop over the cdr chain has the allocation order, sharing and result of recursing on the cdr |
| ColdConstants.Data.PairAlloc | src/emulator/oak-cold-linker.c:1169-1196 | The loop writes exactly what the natural recursion lays out, and fails exactly when the constant cannot be represented or the region is too small |
| ColdConstants.Data.ConstantRefgen | src/emulator/oak-cold-linker.c:1212-1246 | The same for any constant, in place, writing nothing outside the cells it allocates and never overwriting |
| ColdConstants.Data.RealStringAlloc | src/emulator/oak-cold-linker.c:1118-1140 | Writes the header and the packed words of a string; no word is out of range for the target |
| ColdConstants.PackFits | src/emulator/oak-cold-linker.c:1126-1138 | A word of packed characters is always a fixnum of the target |
| ColdData.StringDecodes | src/emulator/oak-cold-linker.c:1126-1138 | Character i of a packed string is in word i / cpw at byte i % cpw |
| ColdData.UnpackByte | src/emulator/xmalloc.c:144-150 | Each byte can be extracted from a packed word |
| OakString.OakCStringFill | src/emulator/xmalloc.c:136-152 | Fills the buffer with the packed characters and a NUL, and touches nothing else |
| OakString.ReadPacked | src/emulator/xmalloc.c:136-152 | Reading what the linker packed gives the string back |
| ColdPairs.SexpHash | src/emulator/oak-cold-linker.c:857-877 | The iterative hash is the natural recursive one, modulo 2 to the 32 |
| ColdPairs.SexpEqual | src/emulator/oak-cold-linker.c:879-902 | The iterative comparison decides equality of s-expressions |
| ColdConstants.Data.Lookup | src/emulator/oak-cold-linker.c:904-910 | The bucket search finds an entry exactly when the pair is cached |
| ColdConstants.Data.Insert | src/emulator/oak-cold-linker.c:912-920 | Adds one entry and keeps every other findable |
| ColdData.LayFits | src/emulator/oak-cold-linker.c:1436-1468 | A constant takes no more cells than the counting pass counted for it, however much is already cached |
| ColdPhases.CountsSuffice | src/emulator/oak-cold-linker.c:1475-1547 | dat_count covers the handbuilt objects, the name of every symbol and every constant, and every symbol and variable a patch mentions is in its table |
| ColdPhases.CountsExact | src/emulator/oak-cold-linker.c:1475-1547 | The tables hold exactly the names preloaded and mentioned, and the count is exactly the handbuilt objects, the constants and a name for every mention |
| ColdPhases.PatchFound | src/emulator/oak-cold-linker.c:1494-1535 | Every patch counted is in a block of a file |
| ColdPhases.PatchCounted | src/emulator/oak-cold-linker.c:1494-1535 | Every patch of every block is counted |
| ColdPhases.CountThings | src/emulator/oak-cold-linker.c:1475-1547 | Counts as specified; gives up exactly when a file has no blocks, an opcode list is not whole words, or there are too many variables |
| ColdPhases.CountDataLoop | src/emulator/oak-cold-linker.c:1436-1468 | The loop over the cdr chain counts what the recursion counts |
| ColdCount.PatchesSound | src/emulator/oak-cold-linker.c:1519-1535 | Counting patches leaves room for their constants beside the names of all symbols seen |
| ColdCount.PatchesExact | src/emulator/oak-cold-linker.c:1519-1535 | What counting a list of patches adds to the tables and to the count, exactly |
| ColdLayout.OpsCountIs | src/emulator/oak-cold-linker.c:1498-1516 | The opcodes counted are exactly those of the words laid out |
| ColdLayout.BlocksInOrder | src/emulator/oak-cold-linker.c:1700-1751 | No two blocks overlap and none leaves code space, when every top level block has a word of opcodes |
| ColdLayout.BlocksCover | src/emulator/oak-cold-linker.c:1700-1751 | The blocks fill code space: every word after the three reserved ones is in one |
| ColdLayout.TopsAscend | src/emulator/oak-cold-linker.c:1706-1721 | The addresses of top level blocks ascend exactly when every one but the last has a word of opcodes |
| ColdPhases.BuildBlkTable | src/emulator/oak-cold-linker.c:1700-1751 | Every block is in the table at its place, and code space is not exceeded when top level blocks have opcodes |
| ColdPhases.UniqInjective | src/emulator/oak-cold-linker.c:1695-1698 | Block numbers of different blocks differ |
| ColdPhases.LayoutNames | src/emulator/oak-cold-linker.c:1580-1611 | Variables get consecutive cells in order; symbols get disjoint pairs of cells within their region |
| ColdLinker.PatchSymbols | src/emulator/oak-cold-linker.c:1680-1689 | Every symbol object gets a type and a name that decodes; the counted room is enough |
| ColdLinker.Linker.Spew | src/emulator/oak-cold-linker.c:1784-1880 | Every block ends up with its header, opcodes and patches if all are sound, nothing outside code space but new data changes, and otherwise the failure is the first fault of the object files |
| ColdLinker.Linker.ApplyPatches | src/emulator/oak-cold-linker.c:1833-1873 | Each patched cell refers to the constant, variable or block asked for, and the data stays within what was counted; it fails exactly at the first patch that is unresolved or clashes |
| ColdLinker.Linker.ApplyPatch | src/emulator/oak-cold-linker.c:1835-1872 | One patch: what it asks for is looked up first, then its word must be free; done exactly when both go well |
| ColdLinker.Linker.ChangeReturn | src/emulator/oak-cold-linker.c:1757-1782 | Removes the final RETURN from the word, changing nothing else, and fails exactly when the word is not opcodes or has no RETURN before trailing noops |
| ColdImage.ChainEffect | src/emulator/oak-cold-linker.c:1757-1831 | Chaining a block, whether or not it keeps a word of its own: it succeeds exactly when the object files say so (`Chainable`), and then the block and all blocks written before are as they should be for one chaining more |
| ColdImage.ChainBack | src/emulator/oak-cold-linker.c:1757-1831 | A top level block of one word keeps none, so what is changed belongs to the nearest block before that keeps one: done exactly when there is one, no patch has taken that word, and it still has a RETURN after the chainings so far |
| Primes.NextHashPrime | src/emulator/weak.c:125-147 | Ends with a prime, the least one that is at least the argument and 17 |
| Primes.TrialDivision | src/emulator/weak.c:138-145 | An odd number without odd divisors up to its square root is a prime |
| Primes.PrimeAbove | src/emulator/weak.c:133-146 | There is a prime above every number, so the search ends |
| WeakTable.Table.RefToWp | src/emulator/weak.c:302-359 | Stable, injective, and undone by wp_to_ref: a live reference keeps its weak pointer, a new one gets an index no live reference has, the one freed last if any is free and else the next; the tables grow only if that does not fit, and the exit is taken only with so many references live at once; the outcome is that of a linear scan |
| WeakTable.SlotsCounted | src/emulator/weak.c:203-218 | Live references and free slots together are as many as wp_index: no slot is ever lost |
| WeakTable.Table.EnterWp | src/emulator/weak.c:150-175 | Adds the association where a probe finds it; the full-table exit is unreachable |
| WeakTable.Table.Rebuild | src/emulator/weak.c:203-218 | The hash holds exactly what the table says, and exactly the empty slots are on the free list |
| WeakTable.Table.Grow | src/emulator/weak.c:234-285 | Growing keeps every weak pointer, doubles the table just as often as is needed, and makes the hash the least prime above twice that |
| WeakTable.Table.EnsureCapacity | src/emulator/weak.c:288-297 | Afterwards the table has the size asked for and holds what it held; nothing changes if it had that size |
| WeakTable.Table.PostGc | src/emulator/weak.c:399-437 | Surviving references keep their weak pointers across a collection and the slots of the others become free |
| WeakMoves.TableApart | src/emulator/weak.c:399-437 | What `PostGc` requires is what a collection gives: live references that survive get different new references, and nil stays nil |
| WeakHash.ScanAgrees | src/emulator/weak.c:313-358 | What the hash knows is what a linear scan of the table finds |
| WeakHash.ProbeEnds | src/emulator/weak.c:315-358 | A probe meets a free slot before it has looked everywhere |
| WeakHash.NotThere | src/emulator/weak.c:324-326 | A probe that meets a free slot has shown the reference is new |
| WeakHash.KeysApart | src/emulator/weak.c:108-113 | The hash key loses nothing: different references have different keys |
| WeakHash.Insert | src/emulator/weak.c:349-350 | Filling the first free slot on a probe's way keeps every other association findable |
| WeakHash.LiveBound | src/emulator/weak.c:329-347 | Live references are at most wp_index, and fewer when a slot is empty |
| Dispatch.Methods.FindMethodTypePair | src/emulator/dispatch.c:85-184 | On an acyclic graph the explicit-stack walk ends with the first type in recursive pre-order that has a method; it moves that method to the front of its list, changes no other list and the outcome of no later search |
| Dispatch.SearchIsFirst | src/emulator/dispatch.c:85-184 | The recursive search finds the first type in the list of all supertypes in pre-order that has a method, and the first of its methods |
| Dispatch.MatchIs | src/emulator/dispatch.c:109-136 | The match of an alist is its first cell with the operation, and there is none exactly if no cell has it |
| Dispatch.Methods.LookIn | src/emulator/dispatch.c:109-136 | Finds the first match of an alist and moves it to the front, changing nothing else; without a match nothing changes |
| Dispatch.Relink | src/emulator/dispatch.c:121-126 | The three stores move one cell of a list to its front |
| Dispatch.MatchMoved | src/emulator/dispatch.c:120-127 | Moving the first match of one operation changes the first match of none |
| Dispatch.SearchAgrees | src/emulator/dispatch.c:85-184 | A search depends on alists only through first matches |
| Dispatch.AssqChecked | src/emulator/dispatch.c:56-75 | If the search stops, on a list that may be circular: the first pair with the key, or a trap at the first cell that is not a pair or holds none, whichever comes first |
| Dispatch.SpineIs | src/emulator/dispatch.c:56-75 | On a list written out, the k-th cell is the one the search comes to after k steps |
| Dispatch.StopsOnce | src/emulator/dispatch.c:56-75 | A list has one first place where the search can stop, and one outcome |
| Dispatch.StopsSoon | src/emulator/dispatch.c:56-75 | A search that stops does so within as many cells as there are pairs, so a circular list without a match never stops it |
| Dispatch.StopsAtEnd | src/emulator/dispatch.c:56-75 | On a list that ends the search always stops |
| Handshake.Exclusion | src/emulator/gc.c:487-503 | Over every interleaving, while a thread collects it holds gc_lock and every other thread is blocked on it with its flag up or has announced its exit |
| Handshake.UntilReleased | src/emulator/gc.c:880-891 | They stay so until the collector itself moves on |
| Handshake.LeavesOnlyWhenStopped | src/emulator/gc.c:495-503 | The wait loop is left only when every other thread is stopped |
| Handshake.GetsOn | src/emulator/gc.c:495-503 | A collector whose fellows are all stopped leaves the wait loop for the collection, changing no flag |
| Handshake.Starts | src/emulator/gc.c:487-503 | A thread that needs a collection with the lock free and the others stopped comes to it, with its flag, gc_pending and the lock set |
| Handshake.Leaves | src/emulator/gc.c:880-891 | After the collection its flag, gc_pending and the lock are released and nothing else has changed |
| Handshake.Resumes | src/emulator/threads.c:379-391 | A parked thread that gets the lock goes on, with its flag down and nothing else changed |
| Handshake.Announces | src/emulator/threads.c:314-369 | A thread that ends has both its flags up before it waits for the lock |
| Handshake.Exits | src/emulator/threads.c:314-369 | It is gone once it has had the lock |
| Handshake.Chooses | src/emulator/gc.c:487-503 | A running thread can park exactly when a collection is pending, and can always ask for one or end |
| Handshake.NeverStuck | src/emulator/gc.c:487-503 | There is no deadlock: as long as a thread is not gone, some thread can take a step |
| Handshake.StepKeeps | src/emulator/threads.c:252-264 | Every flag access and lock operation keeps the invariant between flags, lock and program points |
| Handshake.OthersOk | src/emulator/threads.c:314-391 | No step of one thread, parking and exiting included, lets a stopped thread go |
| WorldIo.DumpAndLoad | src/emulator/worldio.c:552-639 | Dumping and loading at any aligned base gives the heap and the weak table uniformly moved, and the word any pointer led to is, moved, where the pointer now leads; the boot reference comes back right exactly if it is a pointer (or the base is zero) |
| WorldIo.BootMoved | src/emulator/worldio.c:552-639 | The number 1 as boot reference of an empty world is not the number 1 after loading at address 8 |
| WorldIo.RefTrip | src/emulator/worldio.c:146-177 | A pointer comes back with its tag, to the cell with the same index; a non-pointer comes back unchanged |
| WorldIo.Pointee | src/emulator/worldio.c:146-177 | The cell of the dump a pointer is given is the word it points to in memory |
| WorldIo.MovedInjective | src/emulator/worldio.c:412-427 | Different references stay different |
| WorldIo.DumpBinaryWorld | src/emulator/worldio.c:253-329 | Writes exactly the specified words through its buffer, and gives up exactly when something points outside the spaces |
| WorldIo.GivesUp | src/emulator/worldio.c:146-177 | The exit for a wild pointer is taken exactly for a pointer outside new space and, if it is dumped, static space |
| WorldIo.ReadWorldStream | src/emulator/worldio.c:552-639 | Accepts exactly the streams whose counts are in range and present, and relocates every pointer |
| WorldIo.ReoffsetAll | src/emulator/worldio.c:412-427 | Adds the base to the pointers of a range, in place |
| Fixnum.DivRemainder | src/emulator/loop.c:496-508 | DIV and REMAINDER satisfy x = q*y + r rounding toward zero, with fixnum results; DIV traps exactly when there is no fixnum quotient |
| Fixnum.QuotientmModulo | src/emulator/loop.c:646-660 | QUOTIENTM and MODULO satisfy the identity rounding toward minus infinity, and trap on the same inputs as DIV and REMAINDER |
| Fixnum.TimesExact | src/emulator/loop.c:418-440 | TIMES traps exactly when the product is not a fixnum |
| Fixnum.SplitAgrees | src/emulator/loop.c:450-479 | The 15-bit split multiply agrees with the double-width one on all 32-bit fixnums, with no partial product leaving the word |
| Fixnum.AshExact | src/emulator/loop.c:662-705 | ASH shifts left exactly or traps exactly when the result is not a fixnum, and shifts right rounding down for any count |
| Fixnum.OverflownExact | src/emulator/data.h:322-327 | The three top bits differ exactly when a word-sized result is not a fixnum |
| Fixnum.RotInverse | src/emulator/loop.c:707-732 | A rotation by any count loses nothing: rotating on by the rest of the width gives the number back |
| Fixnum.RotSplits | src/emulator/loop.c:728-730 | The bits shifted out at the top come around at the bottom |
| Fixnum.AdvanceMoves | src/emulator/loop.c:96-104 | Advancing the program counter moves by exactly n instructions and never stops in a gap |
| Fixnum.AdvanceAdds | src/emulator/loop.c:96-104 | Advances add up |
| Fixnum.TagizeRoundTrip | src/emulator/oak-cold-linker.c:984-1004 | What the linker writes for an integer the emulator reads back, exactly for the integers in range |

## Left out

- Collector.Heap.Collect: not the collection before a dump, the trace output and the consistency checks; e_bp and the program counter must meet the condition of `Isomorphism.InnerExact`, without which a collection does not keep the heap.
- Collector.Heap.FollowChain: to-space is a range of the one memory array rather than a fresh allocation.
- NextHeap.NextOk: every reference is taken to lead into the heap, and the static objects to be known; lonely cells are carried along as cells, not as objects.
- SpacePolicy.Spaces.Gc: not a configured maximum size of new space, nor a failing allocation of a space.
- Satb.Safety: stops at the end of remark, before lazy sweeping; weak pointers are not read while marking, because that read has no barrier; threads do not start during the cycle; flag and bitmap accesses are sequentially consistent.
- MarkSweep.MsHeap.Collect: single-threaded and eager; when the free space does not cover the request the copying collector takes over, and only that hand-over is modelled.
- MarkSweep.MsHeap.New: MAKE-LAMBDA, which hands out a reference into the middle of one block, is two allocations; the words of a free block are zeroed or filled by the caller.
- MarkSweep.MsHeap.FindObjectStart: a 64-bit bitmap word is a sequence of 64 booleans.
- StackVm.Vm.Execute: instructions that touch only registers or the heap are one step that changes the registers, and those that compute a value are runs of pops and a new top, whatever the value is; a CONTINUE or THROW through an object that is neither a continuation nor an escape ends the model; TRAP handlers are not entered; heights are unbounded integers; a run ends where BLT-STACK or BLAST leaves the buffer empty, because what the code then reads is outside the buffer.
- Segments moved by a collection keep their identity here; what the collector does to them is the collector's theorem.
- ColdLinker.Link: not the words of the handbuilt objects and of the twelve preloaded variables, not the printed output; the hash tables keyed by strings are ordered lists of distinct keys.
- ColdLinker.Linker.Spew: patches lie within the opcodes of their own block and code patches name a block number below the largest block count, as the compiler writes them; every top level block has a word of opcodes or more (for what an empty one does to the layout see `ColdLayout.TopsAscend`); opcodes are not cut to 16 bits.
- ColdPairs.SexpEqual: not the shortcut for identical pointers, which changes no result.
- ColdData.LayDenotes: addresses are tagged words, not shifted 64-bit numbers; `#f` and the empty list are one object in the image.
- The s-expression reader of the linker, its file formats and its command line.
- WeakTable.Table.Grow: table sizes are unbounded integers apart from the limit check; allocation failures.
- WeakTable.Table.PostGc: the references that survive must stay distinct, which the copying collector guarantees (`WeakMoves.TableApart`); the count of discarded entries is not returned.
- Dispatch.Methods.FindMethodTypePair: the supertype graph has no cycles and no two alists share a cell; the search stack is unbounded, so its move to the heap is not visible.
- Dispatch.AssqChecked: on a list that is circular without a match the loop does not end (`Dispatch.StopsSoon`); the search is taken to stop somewhere.
- Handshake.Exclusion: a fixed set of threads; alloc_lock is not modelled, so any running thread may need a collection at any time; no claim that the others come to stop.
- WorldIo.DumpAndLoad: binary worlds only, after the header line; stream errors and ASCII worlds are not modelled.
- Fixnum.TimesExact: not the variant that multiplies in floating point.
- Terminal and file input and output, signals, timers, the full instruction set, native code and the Oaklisp-level library.
