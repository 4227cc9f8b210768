# Verified model of the xo memory managers

This project models, in Dafny, the parts of the xo repository that manage memory, and proves that they do what they are for:

* the two-generation copying collector of `xo-alloc` (nursery with a checkpoint, tenured space, write barrier, mutation log, incremental and full collections) and the bump arenas it runs on;
* the N-generation collector of `xo-gc` (ages in object headers, one gray pointer and one mutation log per generation, in-place forwarding);
* the header-keeping arena of `xo-arena` byte by byte, with its iterator and the collector's iterator over all generations;
* the circular buffer of `xo-arena`;
* the compare-exchange reference counting of `xo-refcnt`.

## How it is laid out

| file | contents |
|---|---|
| `Evacuation.dfy` | the theory both collectors share: memory, forwarding, reachability, the evacuation invariant and its consequences |
| `Layout.dfy`, `ArenaAlloc.dfy` | objects end to end in a bump-allocated range, bytes held by sets of objects; the class `ArenaAlloc` |
| `Generations.dfy`, `Cycles.dfy`, `GC.dfy` | the two-generation heap, how a collection begins and ends, and the class `GC` |
| `Ideal.dfy`, `Mutator.dfy`, `MutatorX1.dfy` | an ideal heap that never moves anything, and the proofs that an application of either collector cannot tell the difference |
| `Stores.dfy`, `MutationLogs.dfy`, `Turns.dfy`, `X1.dfy` | the N-generation heap, its logs, how a collection begins and ends, and the class `X1Collector` |
| `Verify.dfy` | the N-generation collector's own check of its heap: what its counters count |
| `Recursion.dfy`, `Depth.dfy`, `Overrun.dfy` | when in-place forwarding terminates: what is enough, what is necessary, and runs in which it does not |
| `Retirement.dfy`, `TooEarly.dfy`, `SmallHeaps.dfy` | when log entries are retired too early, and runs in which they are; what these runs have in common |
| `Alignment.dfy`, `AllocHeader.dfy`, `ArenaWalk.dfy` | rounding, the 64-bit header, the arena and the iterators |
| `CircularBuffer.dfy` | the byte queue |
| `Refcounted.dfy` | reference counting as a state machine over the atomic steps of all threads |

An address is a natural number and null is 0. Memory is a map from the address where an object starts to the object (its header and its reference fields) or to the forwarding pointer that overwrote it. A collection is described by a value `Evac`: memory before, memory now, the objects subject to evacuation, every pointer that must be preserved, and for each copy what it was copied from. Classes keep the fields the original classes keep and change them in place; ghost fields hold the description of the collection in progress.

## Assumptions

* Every allocation is one object; it has room for a forwarding pointer (16 bytes in the two-generation collector, 8 in the other). A shallow copy keeps size and fields, and forwarding the children of an object forwards every field.
* Objects a collector does not own are leaves, and every object type is installed.
* Where the original throws or reports an error, the model's methods return a result that says so. Committing memory succeeds in the two-generation arenas; in the other arena and in the buffer it may fail, as a parameter says.
* Sizes, counters and addresses do not overflow 64 bits; the reference counter, which is compared with a special value, is modelled modulo 2^32.
* Threads share the reference counter with sequentially consistent steps.

## Where code and documentation differ

The model follows the code.

* `GC.cpp:888-891` calls the part of the nursery after the checkpoint N1; the code (`GC.cpp:562`, `:1016`) and the model call the part before it N1.
* The write barrier also logs stores of nursery pointers into N1 objects that cross nothing (`GC.cpp:562`).
* `GC.hpp:278-287` says collections are enabled when there were at least as many calls to enable as to disable; the code collects only when there were exactly as many (`GC.cpp:1491`, `:1512-1524`).
* `MutationLogStore.cpp:351-357` clears the wrong logs: entries put aside at the fixpoint stay in the incoming role. `ExecuteGc` leaves them there, its contract says exactly when there are any, and `LeftoversComeBack` says what that does to the next collection; `DropLeftovers` is what was meant.
* The debug assertion at `MutationLogStore.cpp:457-462` is inverted relative to its comment; the model is of the release build.
* `X1VerifyStats.hpp` calls a wild log entry fatal, but `is_ok` does not look at that counter, and entries are wild in healthy heaps: `EntryVerdict` says exactly which.
* An entry is retired by comparing generations (`MutationLogEntry.cpp:146-149`) although ages decide what happens next: `RetirementIsSoundIff` gives the configurations for which that is right, and for exactly these the remembered set is proved complete over all runs. The default, two generations and two survivals, is one of them; two survivals are wrong for three generations or more. For every configuration in which it is wrong, `LoseEntry` is a run of the collector that ends with an old-to-young pointer that nothing remembers.
* `_forward_inplace_aux` looks into every object outside from-space it meets (`GCObjectStore.cpp:557-572`), and never returns from a cycle of such objects. The plainest is a cycle of tenured objects that a root leads to: `OverrunByOld` is a run in the default configuration with one tenured object that refers to itself, and one slot. Copies are looked into as well, so that cycles of young objects can become such: in `OverrunStack` an old object held by two root slots refers to a cycle of two young ones; the first visit redirects its field to a copy, the second goes round the copied cycle for ever. The model gives the stack as a number of nested visits. For any collection, `Shallow` says what is enough and `CameBack` what is necessary, both of the heap before it and with any cycles among the objects that move. They differ only where an object that does not move, in reach of a root or of a live object that does, refers to one that moves, or where a log entry has a field of such a live object redirected before it is moved; everywhere else (`Separate`) the condition is exact, and so for a collection of everything.
* `MutationLogStore::swap_roles` also swaps the logs of the last generation, which has none (`MutationLogStore.cpp:283-292`), when everything is collected; `SwapRoles` leaves that out.
* The debug assertion in `header2age` (`GCObjectStore.cpp:228-236`) fails for an object of age 127, where ages stop growing; the release build and the model go on.
* The header of an allocation is cut to its bit fields without a check (`DArena.cpp:474-484`); `SizeIsKeptIff` and `HeaderIsTrueIff` say when the arena can be walked.
* With guard bytes, `DArena::_alloc` writes up to two guards beyond what it asked `expand` for; `GuardsOverrun` attains the bound.
* `pin_range` checks nothing. The queue delivers every byte whatever is pinned; a pin keeps its bytes exactly if it ends within what is occupied when it is made: `PinsKept` says that such a pin is never touched again, and `LosePin` has the append that overwrites any other.
* The layout comment of `DCircularBuffer.hpp` shows pins inside the unread input; `FittedHoldsInputIff` says that such a pin takes unread input out of the occupied range. The queue still delivers every byte.

## Model

| member | source | states |
|---|---|---|
| Evacuation.ForwardingIsHomomorphism | xo-alloc/src/alloc/Object.cpp:44-213 | when no pointer into from-space is left, every field of every survivor, at its new address, points to the new address of what it pointed to: sharing and cycles are kept |
| Evacuation.ForwardingIsInjective | xo-alloc/src/alloc/Object.cpp:195-230 | forwarding never merges two survivors, nor a survivor with anything outside the heap |
| Evacuation.CopiedIffLive | xo-alloc/src/alloc/Object.cpp:74-193 | an object subject to collection was copied if and only if a chain of references leads to it from a root or from an object that does not move |
| Evacuation.CopyKeepsInv | xo-alloc/src/alloc/Object.cpp:195-230 | copying a live object to an unused address and overwriting it with a forwarding pointer keeps the evacuation invariant |
| Evacuation.FixKeepsInv | xo-alloc/src/alloc/Object.cpp:44-72 | redirecting one field to its target's new home keeps it |
| Evacuation.FieldTargetIsLive | xo-alloc/src/alloc/Object.cpp:157-193 | a pointer into from-space found in a copy or an old object leads to a live object: the scan moves nothing that is garbage |
| Layout.BytesConserved | xo-alloc/src/alloc/GC.cpp:1311-1353 | in a range covered by objects, the bytes of any set of objects and of all others add up to the range |
| Arenas.AlignLub | xo-alloc/src/alloc/ArenaAlloc.cpp:172-236 | rounding up to whole huge pages: the least multiple not below |
| Arenas.ArenaAlloc.Expand | xo-alloc/src/alloc/ArenaAlloc.cpp:172-236 | commits enough for the offset asked for and less than one huge page more, or fails, exactly when that exceeds the reserve |
| Arenas.ArenaAlloc.Alloc | xo-alloc/src/alloc/ArenaAlloc.cpp:396-430 | hands out the padded size at the free pointer, or fails, exactly when the reserve is exhausted |
| Arenas.ArenaAlloc.SetFreePtr | xo-alloc/src/alloc/ArenaAlloc.cpp:237-252 | moves the free pointer, and the checkpoint down with it |
| Generations.RoomForCopy | xo-alloc/src/alloc/GC.cpp:766-823 | no copy can exhaust a to-space: what was copied plus what may still be fits what the exchange of spaces made room for |
| Generations.FromByAddress | xo-alloc/src/alloc/GC.cpp:607-618 | whether a pointer is subject to collection, and which part of the nursery it is in, can be told from its address |
| Generations.CopyKeepsCollecting | xo-alloc/src/alloc/GC.cpp:466-530 | moving an object to where the collector puts it keeps the whole invariant of a collection: placement by age, coverage of the spaces, byte budget |
| Generations.PassesCompose | xo-alloc/src/alloc/GC.cpp:1205-1251 | two passes over the log are as good as one over what the first was given |
| Cycles.CycleBegins | xo-alloc/src/alloc/GC.cpp:766-823 | any heap between collections satisfies, once the roles of its spaces are exchanged, what a collection needs |
| Cycles.NothingLeftBehind | xo-alloc/src/alloc/GC.cpp:877-1070 | when roots and log have been dealt with, no root, old object or copy points into from-space |
| Cycles.CrossingOrigin | xo-alloc/src/alloc/GC.cpp:924-1070 | a pointer from tenured space to the nursery after a collection crossed generations before it, so that the log knew it |
| Cycles.CycleEnds | xo-alloc/src/alloc/GC.cpp:1306-1416 | what is left is a heap between collections again, with a log of exactly the pointers that cross generations |
| Cycles.CopiedAndGarbage | xo-alloc/src/alloc/GC.cpp:1311-1353 | bytes copied out of a from-space range and bytes of unreachable objects in it make up the range |
| Cycles.FiguresAreExact | xo-alloc/src/alloc/GC.cpp:1311-1353 | no subtraction of the cleanup phase goes below zero, and each garbage figure is the size of the unreachable objects of one region |
| Cycles.AssignKeepsLog | xo-alloc/src/alloc/GC.cpp:532-597 | a store that logs itself as the write barrier does keeps every pointer that crosses generations remembered |
| Cycles.CheckpointKeepsHeap | xo-alloc/src/alloc/GC.cpp:438-446 | moving the checkpoint keeps the heap and leaves nothing unremembered |
| Cycles.KeptEntries | xo-alloc/src/alloc/GC.cpp:924-1070 | which entries a collection keeps depends only on the heap before it: those of tenured survivors whose target is in N0 |
| Cycles.LogOrderDoesNotMatter | xo-alloc/src/alloc/GC.cpp:1223-1250 | two collections of one heap, whatever the order, duplicates or stale entries of their logs, rescue the same objects and keep the same entries up to forwarding |
| Collector.GC.constructor | xo-alloc/src/alloc/GC.cpp:77-129 | a new collector satisfies the invariant; its spaces are empty, reserved where and as large as asked for, and nothing is pending |
| Collector.GC.AllocGcCopy | xo-alloc/src/alloc/GC.cpp:466-530 | a copy of an N0 object goes to the nursery, every other one to tenured space, at its free pointer; the promotion counter counts N1 bytes |
| Collector.GC.ShallowMove | xo-alloc/src/alloc/Object.cpp:195-213 | moves an owned object once and returns where it is; leaves any other alone |
| Collector.GC.Forward | xo-alloc/src/alloc/Object.cpp:44-72 | returns where a pointer should lead from now on, never into from-space |
| Collector.GC.ForwardChildren | xo-alloc/src/alloc/Object.cpp:157-193 | afterwards the object is white |
| Collector.GC.ScanGray | xo-alloc/src/alloc/Object.cpp:157-193 | the nested scan ends on every graph, with every copy white; objects below the gray pointers are white throughout |
| Collector.GC.DeepMove | xo-alloc/src/alloc/Object.cpp:74-193 | evacuates an object with everything reachable from it |
| Collector.GC.CopyGlobals | xo-alloc/src/alloc/GC.cpp:865-875 | every registered root, however often registered, leads to where its object is now |
| Collector.GC.CopyObject | xo-alloc/src/alloc/GC.cpp:843-863 | redirects one root and no other variable |
| Collector.GC.ForwardTenuredEntry | xo-alloc/src/alloc/GC.cpp:924-1012 | settles an entry with a tenured parent: child rescued, field redirected, entry kept if it still crosses; without a rescue nothing is copied |
| Collector.GC.FollowParent | xo-alloc/src/alloc/GC.cpp:1013-1050 | settles an entry whose parent has moved |
| Collector.GC.IncrementalPhase | xo-alloc/src/alloc/GC.cpp:877-1070 | after a pass every entry is settled or deferred with a parent that has not moved, and deferred entries are dropped only if nothing was rescued |
| Collector.GC.IncrementalForwardMlog | xo-alloc/src/alloc/GC.cpp:1205-1251 | the fixpoint is reached after at most two passes, with every entry of a surviving parent settled |
| Collector.GC.FullForwardMlog | xo-alloc/src/alloc/GC.cpp:1253-1290 | likewise for a full collection |
| Collector.GC.SwapSpaces | xo-alloc/src/alloc/GC.cpp:766-823 | exchanges the roles of the spaces collected, or fails, exactly when the reserve could not hold what may be promoted or survive |
| Collector.GC.Figures | xo-alloc/src/alloc/GC.cpp:1311-1353 | the figures reported are exact: what survived is what nursery to-space holds, what was promoted and what persisted is what tenured to-space holds anew |
| Collector.GC.CleanupPhase | xo-alloc/src/alloc/GC.cpp:1306-1416 | the nursery's checkpoint moves to its free pointer always, the tenured one in a full collection only; no incremental collection is pending any more, and after a full one no full one; from-space is forgotten |
| Collector.GC.ExecuteGc | xo-alloc/src/alloc/GC.cpp:1418-1482 | a collection of either kind preserves the graph of live objects, places survivors by age, redirects the roots, leaves an exact log and the invariant; the spaces exchange roles; an incremental one leaves the tenured checkpoint and adds what it promoted to what lies beyond it, a full one moves it to the end; the figures reported add up to the bytes in use before; it fails exactly when the reserve lacks room for what may be promoted or allocated, with nothing moved |
| Collector.GC.AssignMember | xo-alloc/src/alloc/GC.cpp:532-597 | stores, logs exactly the stores of nursery pointers into tenured or N1 objects, told by address, and keeps the invariant; during a collection it logs nothing |
| Collector.GC.CheckWriteBarrier | xo-alloc/src/alloc/GC.cpp:620-738 | in every state between collections the check succeeds for every object the collector owns, if incremental collections are allowed |
| Collector.GC.RequestGc | xo-alloc/src/alloc/GC.cpp:1484-1504 | if collections are enabled it runs one, and tenured objects are subject to it if and only if a full one was asked for, no other is allowed, or more than the threshold has been promoted since the last; what it ran is no longer pending; otherwise it notes the request and changes nothing else |
| Collector.GC.EnableGc | xo-alloc/src/alloc/GC.cpp:1511-1524 | runs a pending collection exactly when the calls balance, a full one by the same rule; nothing is pending afterwards |
| Collector.GC.Alloc | xo-alloc/src/alloc/GC.cpp:448-464 | a new object at an address no field or root has seen; a collection runs first exactly if collections are enabled, none is pending and more than the threshold has been allocated since the last, a full one by the same rule; if they are disabled, one is then pending |
| Collector.GC.Checkpoint | xo-alloc/src/alloc/GC.cpp:438-446 | both checkpoints move to the free pointers, and the invariant is kept |
| Collector.GC.RemoveGcRoot | xo-alloc/src/alloc/GC.cpp:419-430 | removes every registration of one root and no other |
| Mutator.CollectionIsInvisible | xo-alloc/src/alloc/GC.cpp:1418-1482 | whatever a collection copied or reclaimed, the heap still stands for the same ideal heap in which nothing moves |
| Ideals.MovingIsInvisible | xo-alloc/src/alloc/Object.cpp:44-230 | for either collector: moving objects and redirecting pointers leaves the heap standing for the same ideal heap, each object of the kind and with the references it had |
| Mutator.Step | xo-alloc/src/alloc/GC.cpp:413-597 | each operation of the application does to the ideal heap what it should, and keeps both bounds on what has been allocated and promoted since the last collection |
| Mutator.Run | xo-alloc/src/alloc/GC.cpp:413-1524 | after any run of allocations, loads, stores, root changes, checkpoints and requested or due collections, the heap stands for the one an ideal heap would have reached; the tenured space never holds more since its checkpoint than the threshold and one nursery; while collections stay enabled the nursery never holds more since its checkpoint than the threshold and the largest object; a run stops early only out of memory |
| Ideals.PointerEqualityAgrees | xo-alloc/src/alloc/GC.cpp:843-863 | comparing two roots, or a root with null, gives the ideal answer |
| MutatorX1.CollectionIsInvisible | xo-gc/src/gc/DX1Collector.cpp:484-562 | whatever a collection of any generations copied or reclaimed, the heap still stands for the same ideal heap |
| MutatorX1.Step | xo-gc/src/gc/DX1Collector.cpp:484-607 | each operation of the application does to the ideal heap what it should |
| MutatorX1.Run | xo-gc/src/gc/DX1Collector.cpp:456-607 | after any run of allocations, loads, stores, root changes and collections of any generations, leftovers dropped, the heap stands for the one an ideal heap would have reached; a run stops early only where there was no room or the stack was too small for what the heap held |
| Stores.GenSteps | xo-gc/src/gc/GCObjectStore.cpp:931-958 | one more survival takes an object up by one generation at most, and never down |
| Stores.AgesOf | xo-gc/include/xo/gc/GCObjectStoreConfig.hpp:29-40 | generation g is for the ages from g times the number of survivals up to the next multiple, the last generation for all later ones |
| Stores.Movable | xo-gc/src/gc/GCObjectStore.cpp:505-523 | an object of a collected generation is always eligible, and its copy goes no further than the first generation that is not collected |
| Stores.MoveKeepsMoving | xo-gc/src/gc/GCObjectStore.cpp:931-958 | a copy to the generation of its new age keeps the invariant: age and generation agree, addresses are fresh |
| Stores.ObjectsAreApart | xo-gc/src/gc/GCObjectStore.cpp:1027-1070 | between collections no two objects overlap, and each has room for its header before it |
| Stores.ScanEnds | xo-gc/src/gc/GCObjectStore.cpp:1147-1190 | scanning the generations up to the bound used reaches every copy |
| Stores.VisitKeepsPristine | xo-gc/src/gc/GCObjectStore.cpp:1147-1190 | scanning an object keeps it so that every gray copy holds only pointers into from-space, out of the heap, or to objects with short chains behind them |
| Stores.ShortReturns | xo-gc/src/gc/GCObjectStore.cpp:552-572 | while objects move and fields are redirected, chains of references never get longer than they were before the collection |
| Stores.ReturnsWasShort | xo-gc/src/gc/GCObjectStore.cpp:552-572 | and where everything is white they are as long as they were |
| Stores.WhiteFromScanned | xo-gc/src/gc/GCObjectStore.cpp:1147-1190 | when every copy has been scanned, everything that a scanned object leads to is white |
| Stores.GenerationByAge | xo-gc/src/gc/GCObjectStore.cpp:713-746 | the generation told by address is the one told by age: the verifier's count of bad ages stays zero |
| X1.X1Collector.ShallowMove | xo-gc/src/gc/GCObjectStore.cpp:1027-1070 | moves an object one step up, or fails, exactly when that generation's to-space is exhausted |
| X1.X1Collector.ForwardInplace | xo-gc/src/gc/GCObjectStore.cpp:525-711 | forwards one field; the stack holds out where the pointer led, before the collection, to short chains, and only if it led to short ones through objects that do not move; where everything behind it is white, exactly then |
| X1.X1Collector.VisitChildren | xo-gc/src/gc/GCObjectStore.cpp:552-572 | afterwards the object and every older one reached from it are white; the stack holds out where every field is plain, and only if every field led to short chains through objects that do not move; where everything is white, exactly if the chains are short |
| X1.X1Collector.ForwardChildrenUntilFixpoint | xo-gc/src/gc/GCObjectStore.cpp:1072-1191 | the scan over all generations ends with every copy scanned, and never runs out of stack if what is gray or still to be moved holds plain pointers only; with nothing gray it does nothing |
| X1.X1Collector.DeepMoveGcOwned | xo-gc/src/gc/GCObjectStore.cpp:960-1025 | evacuates an object with everything reachable from it |
| X1.X1Collector.DeepMoveInterior | xo-gc/src/gc/GCObjectStore.cpp:913-928 | the same, or nothing if the object is not in from-space |
| X1.X1Collector.DeepMoveRoot | xo-gc/src/gc/GCObjectStore.cpp:864-911 | redirects one root slot; the stack holds out only if the slot led to short chains through objects that do not move, and if what it holds does not move any more and all behind it is white, exactly if the chains behind it are short |
| X1.X1Collector.CopyRoots | xo-gc/src/gc/DX1Collector.cpp:582-601 | redirects every root; the stack holds out if nothing the roots lead to that does not move, or not any more, leads to long chains; and only if through objects that do not move none of it does, and nothing at all of what they lead to a second time |
| X1.X1Collector.CheckForwardInplace | xo-gc/src/gc/MutationLogEntry.cpp:34-89 | follows parent and snapshot, so that field and snapshot are equal exactly if no later store superseded the entry |
| X1.X1Collector.CheckForwardParentInplace | xo-gc/src/gc/MutationLogEntry.cpp:91-114 | the entry names the parent where it is now |
| X1.X1Collector.RefreshSnapshot | xo-gc/src/gc/MutationLogEntry.cpp:116-180 | an entry is kept exactly if, by the ages of parent and child, the pointer goes from an older to a younger generation that is not the last |
| X1.X1Collector.PreserveChildOfLiveParent | xo-gc/src/gc/MutationLogStore.cpp:516-574 | the child is evacuated, the field redirected, the entry settled |
| X1.X1Collector.ForwardEntry | xo-gc/src/gc/MutationLogStore.cpp:399-510 | each entry is dealt with or put aside; a rescue is never put aside |
| X1.X1Collector.ForwardMutationLog | xo-gc/src/gc/MutationLogStore.cpp:294-358 | the fixpoint is reached; entries left have current fields and parents that were not moved |
| X1.X1Collector.SwapRoles | xo-gc/src/gc/GCObjectStore.cpp:833-844 | exchanges spaces and logs of exactly the generations collected |
| X1.X1Collector.ExecuteGc | xo-gc/src/gc/DX1Collector.cpp:484-562 | a collection moves objects of exactly the generations asked for, preserves the graph of live objects, makes survivors one collection older and takes them one step up, redirects the roots, decides the fate of every log entry, and keeps every pointer remembered that must be; it exhausts a to-space only if there was not room for everything; `Shallow` is enough stack and `CameBack` is necessary, and where they agree, a collection of everything included, it overruns the stack exactly if they do not hold |
| X1.X1Collector.PartialIsSafe | xo-gc/src/gc/MutationLogStore.cpp:191-280 | where no entry is retired too early, every old-to-young pointer has an entry in every state between collections, so that the young generations can be collected alone |
| X1.X1Collector.AssignMember | xo-gc/src/gc/MutationLogStore.cpp:151-265 | stores; logs under the generation of the target exactly the stores into an object of an older generation, or of the same generation and older, unless the target is in the last; and keeps the invariant |
| X1.X1Collector.DropLeftovers | xo-gc/src/gc/MutationLogStore.cpp:350-357 | what is missing for the invariant between collections |
| X1.X1Collector.VerifyAux | xo-gc/src/gc/GCObjectStore.cpp:713-748 | one pointer adds one to one verdict: external if it lies in no space, in from-space if only there, and in to-space otherwise, right if it lies in the space of its age and in no younger one |
| X1.X1Collector.VerifyOk | xo-gc/src/gc/DX1Collector.cpp:372-441 | the check says yes if and only if no object of to-space is forwarded, every pointer of these or of root objects that leads into to-space leads to the space for its age, and no other leads to from-space; each counter is the number of fields whose pointer lies where it says, each log counter the number of entries; between collections the answer is always yes, pointers to objects have all been counted as right, and all others as external |
| Verification.HealthyNumbers | xo-gc/src/gc/GCObjectStore.cpp:713-748 | between collections the fields counted as right are those that hold pointers to objects, and those counted as external all others, each field of each object once |
| X1.X1Collector.VerifyLogs | xo-gc/src/gc/MutationLogStore.cpp:103-149 | each counter of entries grows by the number of entries that are superseded, lead to to-space of the log's own generation, to its from-space, or elsewhere |
| X1.X1Collector.HeapVerifies | xo-gc/include/xo/gc/X1VerifyStats.hpp:15-46 | between collections the check can be made and finds nothing wrong, in particular no current entry that leads to from-space |
| Verification.PassesIff | xo-gc/include/xo/gc/X1VerifyStats.hpp:18-20 | the fatal counters are zero if and only if every pointer and object of the heap is in order |
| Verification.VerdictsAddUp | xo-gc/src/gc/GCObjectStore.cpp:713-748 | every pointer visited is counted exactly once |
| Verification.GenerationAtHome | xo-gc/src/gc/GCObjectStore.cpp:736-748 | between collections the generation by address is the one by age |
| Verification.EntryVerdict | xo-gc/src/gc/MutationLogStore.cpp:103-149 | between collections a current entry is vital if its target is in the log's own generation, and counted as wild if and only if the target has been promoted beyond it |
| Logs.SnapshotTells | xo-gc/src/gc/MutationLogEntry.cpp:48-89 | superseded entries can be told from current ones by address, in every combination of moved and unmoved parents and children |
| Logs.PhiIsInjective | xo-gc/src/gc/GCObjectStore.cpp:1027-1070 | forwarding never maps two pointers of the heap before to one |
| Logs.TotalSizeUpdate | xo-gc/src/gc/MutationLogStore.cpp:303-348 | the number of waiting entries, which bounds the passes, changes by what one log gains or loses |
| Turns.TurnBegins | xo-gc/src/gc/GCObjectStore.cpp:833-844 | any heap between collections satisfies, once roles are exchanged, what a collection needs |
| Turns.NothingLeftBehind | xo-gc/src/gc/DX1Collector.cpp:517-530 | when roots and logs have been dealt with, nothing points into from-space |
| Turns.RememberedAgain | xo-gc/src/gc/MutationLogStore.cpp:399-574 | in every configuration in which deciding by generation is right, the default included, every pointer that goes or may come to go from an older to a younger generation has a current entry in a log not above its target's generation again |
| Logs.RememberedIsComplete | xo-gc/src/gc/MutationLogStore.cpp:191-280 | every old-to-young pointer is one of these |
| Turns.OutOfRoom | xo-gc/src/gc/GCObjectStore.cpp:931-958 | an object has no room where it is to go only if the objects destined for that generation, all together, had none before the collection |
| Depth.ShallowIffCameBack | xo-gc/src/gc/GCObjectStore.cpp:552-572 | what is enough stack for a collection and what is necessary agree, unless an object that does not move, in reach, refers to one that does, or an entry has a field redirected early |
| Depth.DeepIsYoungReturn | xo-gc/src/gc/GCObjectStore.cpp:1147-1190 | when a collection has ended, chains from whatever live moved objects refer to, through objects that do not move, were short |
| Recursion.PartIsAll | xo-gc/src/gc/GCObjectStore.cpp:552-572 | where nothing leads out of the part that does not move, chains in it are all the chains there are |
| Depth.FullIsShallowIff | xo-gc/src/gc/DX1Collector.cpp:582-601 | for a collection of everything, what is enough stack and what is necessary agree: only a slot registered twice matters |
| Depth.AcyclicIsShallow | xo-gc/src/gc/GCObjectStore.cpp:552-572 | if all chains of references are short, no collection overruns the stack |
| Turns.AllLogsFollow | xo-gc/src/gc/MutationLogStore.cpp:399-574 | a log afterwards holds, for each incoming entry that was to be kept, the entry for where parent and child are now, and no other; every entry in it is current |
| Turns.AllLeftovers | xo-gc/src/gc/MutationLogStore.cpp:336-357 | an incoming entry is left over if and only if it was current and its parent died |
| Turns.EntryIsKeptOrRetired | xo-gc/src/gc/MutationLogStore.cpp:426-513 | a current entry of a live parent is kept if still needed and retired otherwise |
| Turns.LeftoversAre | xo-gc/src/gc/MutationLogStore.cpp:336-357 | something is left in an incoming log exactly if the parent of a current entry died |
| Turns.LeftoversComeBack | xo-gc/src/gc/MutationLogStore.cpp:336-357 | after the next exchange of roles the logs are in order if and only if nothing was left over |
| Turns.StoreKeepsLogs | xo-gc/src/gc/MutationLogStore.cpp:191-280 | the write barrier keeps old-to-young pointers remembered |
| Turns.AllocKeepsHeap | xo-gc/src/gc/DX1Collector.cpp:603-607 | a new object needs no entry and keeps the invariant |
| Recursion.ReturnsIffAcyclic | xo-gc/src/gc/GCObjectStore.cpp:552-572 | looking into objects, in memory as it is, comes back, given stack enough, if and only if no cycle of them is reachable |
| Recursion.ReturnsIffWalksAreShort | xo-gc/src/gc/GCObjectStore.cpp:552-572 | a given stack is enough exactly if no chain of references is longer |
| Recursion.SelfReferenceNeverReturns | xo-gc/src/gc/GCObjectStore.cpp:552-572 | the least input on which it does not: an object that refers to itself |
| Overrun.OverrunByOld | xo-gc/src/gc/GCObjectStore.cpp:864-911 | a run in the default configuration, with one old object that refers to itself, that overruns any stack |
| Overrun.OverrunStack | xo-gc/src/gc/GCObjectStore.cpp:557-572 | another, with a cycle of young objects behind an old one that is met twice |
| Retirement.OlderBefore | xo-gc/src/gc/MutationLogEntry.cpp:144-149 | in any configuration, a pointer that the write barrier would log after a collection is one that it would have logged before |
| Retirement.OwedCrosses | xo-gc/src/gc/MutationLogEntry.cpp:144-149 | where deciding by generation is right, such a pointer has an entry that is kept once its log has been worked through |
| Retirement.RetirementIsSoundIff | xo-gc/src/gc/MutationLogEntry.cpp:144-149 | no entry is ever retired too early if and only if one survival promotes, or there is one generation, or ages never reach the threshold, or there are two generations and two survivals |
| TooEarly.LoseEntry | xo-gc/src/gc/MutationLogEntry.cpp:144-149 | in every configuration in which deciding by generation is not right, a run of the collector ends with an old-to-young pointer that has no entry |
| Retirement.TooEarlyInSecond | xo-gc/src/gc/MutationLogEntry.cpp:144-149 | two survivals, three generations: parent of age 3, child of age 1, a collection of the youngest generation, then one of two |
| AllocHeader.HeaderRoundTrip | xo-arena/include/xo/arena/AllocHeaderConfig.hpp:60-160 | what is read from a header is what was put in, cut to its fields: the age is read back if and only if it fits its field, and as the largest that fits otherwise |
| AllocHeader.SizeIsKeptIff | xo-arena/src/arena/DArena.cpp:470-484 | the size is stored unharmed if and only if it fits its field |
| AllocHeader.HeaderFits | xo-arena/include/xo/arena/AllocHeaderConfig.hpp:60-76 | a header fits in 64 bits |
| AllocHeader.HeaderLayout | xo-arena/include/xo/arena/AllocHeaderConfig.hpp:60-104 | the type is in the high bits of the header, above those of age and size, and the size in the low ones |
| AllocHeader.BytesRoundTrip | xo-arena/src/arena/DArena.cpp:492-496 | a word stored byte by byte is read back |
| AllocHeader.LowestFirst | xo-arena/src/arena/DArena.cpp:492-496 | byte i of a stored word is bits 8i to 8i + 7 of it |
| ArenaWalk.PayloadsAreApart | xo-arena/src/arena/DArena.cpp:406-530 | payloads are disjoint, with header and guards between them |
| ArenaWalk.HeaderIsTrueIff | xo-arena/src/arena/DArena.cpp:470-484 | a header tells the truth about an allocation if and only if type, age and size fit |
| ArenaWalk.DArena.Expand | xo-arena/src/arena/DArena.cpp:544-629 | commits whole units within the reserve, less than one more than asked for, and starts the arena with its guard |
| ArenaWalk.DArena.Alloc | xo-arena/src/arena/DArena.cpp:406-530 | appends one aligned allocation with a full guard before its header and another behind it, and disturbs no earlier one; or fails, exactly when there is no memory or no size field |
| ArenaWalk.DArena.Clear | xo-arena/src/arena/DArena.cpp:637-642 | the arena can be used again exactly if something was committed or there are no guards |
| ArenaWalk.GuardsOverrun | xo-arena/src/arena/DArena.cpp:488-520 | the free pointer can be two guards beyond committed memory |
| ArenaWalk.DArenaIterator.Deref | xo-arena/src/arena/DArenaIterator.cpp:69-94 | shows the allocation at the iterator, or fails at the end |
| ArenaWalk.DArenaIterator.Next | xo-arena/src/arena/DArenaIterator.cpp:117-144 | goes to the next allocation |
| ArenaWalk.Walk | xo-arena/src/arena/DArenaIterator.cpp:21-144 | from begin to end finds exactly the allocations made, in order, with address, type, age and size |
| ArenaWalk.DX1CollectorIterator.Normalize | xo-gc/src/gc/DX1CollectorIterator.cpp:35-72 | skips empty generations and loses nothing |
| ArenaWalk.DX1CollectorIterator.Next | xo-gc/src/gc/DX1CollectorIterator.cpp:110-131 | one allocation less to come |
| ArenaWalk.WalkAll | xo-gc/src/gc/DX1Collector.cpp:645-682 | from begin to end visits the allocations of all generations, empty ones included, each in its place, and ends at the end iterator |
| CircularBuffer.DCircularBuffer.Append | xo-arena/src/arena/DCircularBuffer.cpp:172-202 | accepts a prefix: everything, or all the reserve has room for if commits succeed; that is all but a page when nothing is pinned and everything was consumed; what was unread stays, followed by it; pins that ended within what was occupied are untouched; no more than a unit too much is committed |
| CircularBuffer.DCircularBuffer.Consume | xo-arena/src/arena/DCircularBuffer.cpp:228-275 | takes the first unread bytes, in every state: bytes taken and bytes unread are the bytes accepted, in order; pinned bytes stay; with nothing pinned, what is left moves to the start exactly if it is farther from it than a page, than its own size and than is worth it |
| CircularBuffer.DCircularBuffer.PinRange | xo-arena/src/arena/DCircularBuffer.cpp:277-296 | adds one pin; the queue goes on working whatever is pinned, and the checked invariants go on holding exactly if the pin lies within what is occupied, starts not after the first unread byte and not before the pin before last |
| CircularBuffer.LosePin | xo-arena/src/arena/DCircularBuffer.cpp:172-202 | a pin with bytes beyond what is occupied loses them: there is an append that overwrites them |
| CircularBuffer.DCircularBuffer.UnpinRange | xo-arena/src/arena/DCircularBuffer.cpp:298-326 | removes one pin; the queue is unchanged, other pinned bytes stay; with the last one gone the input moves to the start by the same rule, and not otherwise |
| CircularBuffer.DCircularBuffer.CheckResetMapStart | xo-arena/src/arena/DCircularBuffer.cpp:371-395 | moving the input to the start changes no byte of it, happens under no pin, and otherwise exactly if the input is too far away: afterwards it never is |
| CircularBuffer.DCircularBuffer.ExpandTo | xo-arena/src/arena/DCircularBuffer.cpp:328-359 | the mapped range stays aligned and within the reserve, and grows by less than a unit more than asked for |
| CircularBuffer.FittedHoldsInputIff | xo-arena/src/arena/DCircularBuffer.cpp:361-369 | shrinking keeps the unread input occupied if and only if the first pin does not start inside it |
| CircularBuffer.WithPinSortedIff | xo-arena/src/arena/DCircularBuffer.cpp:277-296 | pins stay in order if and only if the new one does not start before the one before last |
| Refcounted.StepKeepsInv | xo-refcnt/src/Refcounted.cpp:101-160 | every atomic step of every thread keeps the invariant |
| Refcounted.CountingIsSafe | xo-refcnt/src/Refcounted.cpp:101-160 | in every state of every run the counter is the number of references, the object is deleted at most once and not while there are any, the counter of a deleted object is the poison, and the assertion against a second deletion is never run into |
| Refcounted.DeletedIffReleased | xo-refcnt/src/Refcounted.cpp:148-160 | when all threads are done, the object is gone if and only if no reference is left |
| Refcounted.NoUseAfterDelete | xo-refcnt/src/Refcounted.cpp:101-160 | no thread takes a step on a deleted object |
| Refcounted.FailureMeansProgress | xo-refcnt/src/Refcounted.cpp:113-145 | a failed exchange means that another one has succeeded since the load |

## Left out

- Collection statistics, history, copy callbacks and object statistics of the two-generation collector, apart from the figures of one collection.
- `enable_gc_once`, `clear`, destructors, weak pointers, pinned objects and `remove_gc_root_poly`, which is empty.
- Blocking and pending requests of the N-generation collector (`request_gc`), and the check's counter of objects without an installed type, as every type is.
- Roots in objects the N-generation collector does not own that have children of their own.
- Collector.GC.FullForwardMlog: the loop over deferred entries is not written out, since a full pass never leaves any.
- Collector.GC.CleanupPhase: drops from-space from memory at once; in the original it stays until it is reused, and nothing reads it.
- X1.X1Collector.ForwardMutationLog: the final loop that clears logs that are already empty is not written out.
- X1.X1Collector.ExecuteGc: a collection of the young generations alone requires every old-to-young pointer to have an entry; in the configurations where entries are retired too early, nothing promises that between collections. Where `Separate` does not hold, `Shallow` is not necessary: an old object that refers to a young one may not be met again once its field has been redirected.
- Collector.GC.constructor: thresholds are positive; with a threshold of zero nothing is committed, and the first collection throws when it resets the free pointer (`ArenaAlloc.cpp:237-252`).
- Collector.GC.Alloc: sizes from 16 bytes up, so that a forwarding pointer fits; the original hands out less, and would overwrite what comes next when it moved such an object.
- Stores.MoveKeepsMoving: a space keeps its objects as a sequence, and gray pointers count objects; that stepping by header and size, without guard bytes, visits the same objects follows from their lying end to end (`ObjectsAreApart`), and is what ArenaWalk.Walk proves of the arena.
- ArenaWalk.DArena.Alloc: allocations that share one header (`super_alloc`, `sub_alloc`) are not part of this model; the guard byte is a constant.
- CircularBuffer.DCircularBuffer.Append: `report_append`, which extends what is occupied but not the input, is not part of this model.
- Refcounted.CountingIsSafe: fewer than 2^32 - 1 references at a time, as the special value requires; weaker memory orders are not modelled.
- `ListAlloc`, the trees and hash map of xo-arena, expression trees, symbol tables and everything above the memory managers: holders of data that would add only easy members.
