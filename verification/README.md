# A hobby kernel, modelled and proved

This project models the stateful cores of a small x86 kernel and of the AML
interpreter (LAI) that it carries, and proves what they keep, what they compute
and where they do not do what they are for.

| modules | what they model |
|---|---|
| `Bits` | unsigned words as bits |
| `AmlTypes`, `AmlMachine`, `AmlInterpreter`, `AmlOperators` | the AML interpreter: context, block, item and operand stacks, its turns as functions of the state, and the same turns on stacks updated in place |
| `AmlInvariant` | what keeps the four stacks in step on any bytes |
| `AmlSyntax`, `AmlLayout`, `AmlSteps`, `AmlSimulation`, `AmlCorrectness` | structured AML with its byte encoding and a recursive meaning, and the proof that the machine agrees with it |
| `LaiPrograms`, `AmlCalls` | what programs compute when they run with LAI's own operators, and what called methods see |
| `ObjectHeap`, `HeapLife`, `Objects` | reference-counted AML values: finalize, move, assign, clone, resize |
| `FieldBits`, `Fields`, `FieldLaws`, `FieldList` | bit fields of operation regions and buffers, access widths, update rules, field lists |
| `HashTable`, `NamespaceTree`, `PathLaws`, `Namespace` | the hash table with bucket index, the ACPI namespace that rests on it, and what paths mean in it |
| `Sync` | the mutex and the event of the interpreter, any number of threads interleaving at atomic operations |
| `RobinHoodTable`, `RobinHood` | the Robin Hood hash map |
| `LinkedSlots`, `LinkedArray` | the doubly linked deque inside a storage area |
| `FlexArray` | the array of slots with compaction |
| `SchedulerState`, `SchedulerInvariant`, `SchedulerFairness`, `SchedulerEvents`, `EventRouting`, `SchedulerRules`, `Scheduler` | round robin, parking and suspension, event upcalls, kills, as a state machine and as methods on the scheduler's state; who may run, who is told, and what the calls come to over whole runs |
| `PageOwnership`, `Paging`, `RecycledFrames` | physical frames, page tables that live in them, page-allocating calls, demand faults, starts and ends of processes |
| `VirtualMemory` | copies between the kernel and the address space of a process |
| `StreamLog`, `DataSink` | byte streams made of fragments, and which bytes a process is handed by its reads |

Where the source updates an object in place the model is a class whose methods
are proved against a function of the old state; the laws are lemmas about that
function. `dafny verify dfyconfig.toml` checks the whole project.

## Where the code departs from its intent

Each of these is modelled as coded, with a lemma or contract that says exactly when
the intent is met.

- Continue never commits the program counter that it sets (`AmlCorrectness.ContinueSticks`).
- A method that runs off its end panics if its caller has operands pending (`AmlCorrectness.ImplicitReturn`).
- `map.h` removes out of bounds when a cluster wraps around (`RobinHoodTable.CrossesIffWraps`, `RobinHood.Map.Remove`), and takes key 0 for present when its home slot is empty (`RobinHood.Map.LocateBucket`).
- `linked_array.h` loses its ends when an empty list is resized (`LinkedArray.Deque.Resize`).
- `flex_array.h` miscounts when more than one element is shifted (`FlexArray.Flex.Shift`), and overruns the new area when it shrinks (`FlexArray.Flex.Resize`).
- A field write keeps its mask in a `size_t`, which has 32 bits on this machine (`kernel/Makefile:32`): in 64-bit units it clears the upper halves and drops what belongs there (`FieldLaws.WriteIsRightIff`, `FieldLaws.ReadBackIff`, `FieldLaws.IndependentIff`, `FieldLaws.QwordWriteLoses`).
- Buffer fields that do not start at a byte are read unshifted (`Fields.ReadBufferIsRight`).
- The last chunk of a virtual copy adds the first offset again (`VirtualMemory.FaithfulIff`, `VirtualMemory.OverrunsIff`).
- A new process does not clear the flags in its low page tables (`PageOwnership.CreationIsExactIff`; `RecycledFrames.Recycle` is a run in which that matters).
- A waiter for the contended mutex or an event never reads the word again (`Sync.LocksIff`, `Sync.StaleReachedIff`, `Sync.SucceedsIff`, `Sync.StaleEventReachedIff`).
- A block read of a data sink repeats bytes that were already streamed, and a stream read whose destination refuses the bytes has taken them off the stream (`DataSink.HandedOnceIff`, `DataSink.RepeatedByte`, `DataSink.RefusedRead`).
- `lai_var_finalize` clears a variable only after it has released the value, and so meets it again if its own package goes with the value (`Objects.Store.FinalizeCell`, `HeapLife.SelfContained`).
- `lai_obj_resize_pkg` can take away the variable it works through (`Objects.Store.ResizePkg`, `HeapLife.LosesOnlyInCycles`).
- A data sink takes over a buffer that another fragment may hold (`DataSink.Sink.AppendData`).
- A write of nothing to the start of a page without an entry follows a null pointer (`VirtualMemory.Space.WriteVirtualMemory`).
- A path segment of fewer than four characters in front of a dot is not padded (`NamespaceTree.ShortSegment`).

## Model

| member | source | states |
|---|---|---|
| AmlCorrectness.MachineIffMeaning | kernel/src/cpp/acpi/lai/exec.c:1318-1794 | for every method of every program of the fragment, every argument and local value: the explicit-stack machine run on the byte encoding comes to a verdict (value returned, or fault) if and only if recursive evaluation of the structured form comes to it |
| AmlCorrectness.MachineFollows | kernel/src/cpp/acpi/lai/exec.c:1318-1794 | the machine reaches the verdict of the recursive meaning with all stacks empty but for one operand, and where the meaning needs more fuel the machine is still at work after at least as many turns |
| AmlCorrectness.OneVerdict | kernel/src/cpp/acpi/lai/exec.c:1318-1341 | a run of the interpreter has at most one verdict, whenever it is looked at |
| AmlCorrectness.MeaningIsOne | kernel/src/cpp/acpi/lai/exec.c:1318-1341 | fuel bounds only how far the recursive evaluation looks: two verdicts of it agree |
| AmlCorrectness.LeavesConditions | kernel/src/cpp/acpi/lai/exec.c:2392-2414 | the unwinding of Continue leads to exactly one state: the innermost loop, with the conditions inside it and their blocks dropped and nothing else |
| AmlCorrectness.ContinueSticks | kernel/src/cpp/acpi/lai/exec.c:2392-2419 | Continue leads to the innermost loop with only conditions between, and stops the run without one; as the program counter it sets is never committed, directly in a loop every further turn leaves the state as it is, and inside conditions the next round starts if and only if the loop stands at the end of its block behind them |
| AmlCorrectness.ImplicitReturn | kernel/src/cpp/acpi/lai/exec.c:1419-1434 | a method that runs off its end panics exactly if operands of a caller are pending, and yields 0 otherwise |
| AmlInvariant.ProcessKeepsInvariant | kernel/src/cpp/acpi/lai/exec.c:1382-1794 | every turn, on any bytes, keeps the four stacks in step: one block per block-owning item, one context per method item, operand frames nondecreasing, each item between 0 and its arity |
| AmlInvariant.RunKeepsInvariant | kernel/src/cpp/acpi/lai/exec.c:1318-1341 | the same for any number of turns |
| AmlInvariant.EvalNeverCorrupt | kernel/src/cpp/acpi/lai/exec.c:3679-3757 | no run on any method code finds its stacks in disagreement, and one that ends leaves context, block and item stacks empty and exactly one operand, an object |
| AmlSimulation.SimExpr | kernel/src/cpp/acpi/lai/exec.c:1923-2110 | the turns spent on an encoded term push what its recursive evaluation yields, with the same changes to locals and arguments, or fail alike |
| AmlSimulation.SimOperator | kernel/src/cpp/acpi/lai/exec.c:1555-1582 | an operator evaluates its operands left to right, writes its targets and pushes what its recursive meaning says |
| AmlSimulation.SimCall | kernel/src/cpp/acpi/lai/exec.c:1583-1656 | a call evaluates its arguments, runs the callee on its own cells and hands its value to the caller, as recursive evaluation does |
| AmlSimulation.SimWhile | kernel/src/cpp/acpi/lai/exec.c:1726-1757 | a While loop of any number of rounds, left by its predicate, Break or Return from any depth, ends in the state its meaning gives |
| AmlSimulation.SimCond | kernel/src/cpp/acpi/lai/exec.c:1758-1794 | If and If/Else take the branch the meaning takes and leave it as the meaning does, Break and Return included |
| AmlSimulation.SimStmts | kernel/src/cpp/acpi/lai/exec.c:1923-2486 | a statement list encoded in the code is worked off to the state, loop exit, return or fault that its meaning gives |
| AmlSimulation.SimReturn | kernel/src/cpp/acpi/lai/exec.c:1657-1725 | Return unwinds every loop and condition up to its method and delivers the value |
| AmlLayout.VarintDecodes | kernel/src/cpp/acpi/lai/exec.c:1343-1373 | a PkgLength of any width decodes to the size that was encoded (ACPI specification, section 20.2.4) |
| AmlLayout.StmtLies | kernel/src/cpp/acpi/lai/exec.c:2357-2520 | the encoding of a statement, put anywhere in code, is where the parser expects opcode, package and content |
| AmlLayout.ConstantLies | kernel/src/cpp/acpi/lai/exec.c:2116-2260 | an encoded integer constant of any prefix is read back as its value |
| AmlSteps.StepIfElse | kernel/src/cpp/acpi/lai/exec.c:2451-2486 | the turn that parses If opens the branch and notes where the Else body starts and ends |
| AmlSteps.StepReturn | kernel/src/cpp/acpi/lai/exec.c:1657-1725 | the turn that completes Return drops everything above the method and passes the value on |
| AmlSteps.StepReduce | kernel/src/cpp/acpi/lai/exec.c:1555-1582 | the turn that completes an operator replaces exactly its operands by its result |
| AmlSyntax.LittleEndianRoundTrip | kernel/src/cpp/acpi/lai/exec.c:1884-1914 | multi-byte constants decode to what was encoded |
| LaiPrograms.BinaryTerm | kernel/src/cpp/acpi/lai/exec.c:488-608 | with the operators of LAI a binary term yields what the ACPI specification, section 19.6, says of its operands on 64 bits and stores it in its target alone; it fails exactly where an operand is no number or C has no value |
| LaiPrograms.UnaryTerm | kernel/src/cpp/acpi/lai/exec.c:219-286 | the same for Not and the two bit searches; Store and CopyObject put whatever they are given into their target |
| LaiPrograms.LogicalTerm | kernel/src/cpp/acpi/lai/exec.c:646-708 | the connectives and comparisons yield 0 exactly where they do not hold, and else 1 or all ones; they fail exactly where an operand is no number |
| LaiPrograms.LNotTerm | kernel/src/cpp/acpi/lai/exec.c:639-646 | LNot yields 1 for 0 and 0 for any other number |
| LaiPrograms.DivideTerm | kernel/src/cpp/acpi/lai/exec.c:609-624 | Divide leaves remainder and quotient in its two targets, in this order, and no value of its own; it fails exactly on what is no number and on a divisor of 0 |
| LaiPrograms.StepTerm | kernel/src/cpp/acpi/lai/exec.c:625-638 | Increment and Decrement step a local or an argument by one around the ends of 64 bits |
| LaiPrograms.TermRuns | kernel/src/cpp/acpi/lai/exec.c:1555-1582 | on the explicit stacks, the turns spent on any encoded term that has a value leave it as an operand, with the cells changed as its meaning says |
| LaiPrograms.BinaryRuns | kernel/src/cpp/acpi/lai/exec.c:1555-1582 | on the explicit stacks, the turns spent on an encoded binary term leave that result as an operand and in the target |
| LaiPrograms.UnaryRuns | kernel/src/cpp/acpi/lai/exec.c:1555-1582 | and those spent on a unary term |
| LaiPrograms.MethodOfTwo | kernel/src/cpp/acpi/lai/exec.c:1318-1341 | a whole run: a method that returns an operator of two arguments ends with what the operator means for them |
| LaiPrograms.ComputeMeans | kernel/src/cpp/acpi/lai/exec.c:488-608 | the arithmetic of the binary operators has a value unless it divides by 0 or shifts by 64 or more, and then the one each operator promises |
| AmlOperators.FoundBits | kernel/src/cpp/acpi/lai/exec.c:259-286 | FindSetLeftBit and FindSetRightBit yield one more than the highest and the lowest set bit, and 0 for 0 |
| AmlOperators.CountLeftBit | kernel/src/cpp/acpi/lai/exec.c:259-272 | the right-shifting loop computes FindSetLeftBit |
| AmlOperators.CountRightBit | kernel/src/cpp/acpi/lai/exec.c:273-286 | the left-shifting loop on 64 bits computes FindSetRightBit |
| AmlOperators.NegatedBits | kernel/src/cpp/acpi/lai/exec.c:565-586 | NAnd and NOr negate And and Or on each of the 64 bits |
| AmlOperators.ShiftedBits | kernel/src/cpp/acpi/lai/exec.c:587-608 | shifts by less than 64 move bits and drop those that leave the word |
| AmlInterpreter.Interpreter.Run | kernel/src/cpp/acpi/lai/exec.c:1318-1341 | the loop over the item stack performs the specified run |
| AmlInterpreter.Interpreter.Process | kernel/src/cpp/acpi/lai/exec.c:1382-1794 | one turn on the four stacks updated in place is the specified transition |
| AmlInterpreter.Interpreter.ProcessLoop | kernel/src/cpp/acpi/lai/exec.c:1726-1757 | the turn of a loop item: test, next round or exit |
| AmlInterpreter.Interpreter.ProcessCond | kernel/src/cpp/acpi/lai/exec.c:1758-1794 | the turn of a condition item: branch taken, Else body entered, or left |
| AmlInterpreter.Interpreter.ProcessReturn | kernel/src/cpp/acpi/lai/exec.c:1657-1725 | the turn of a return item |
| AmlInterpreter.Interpreter.LeaveToMethod | kernel/src/cpp/acpi/lai/exec.c:1666-1717 | pops loops and conditions, each with its block, until a method item is on top |
| AmlInterpreter.Interpreter.LeaveToLoop | kernel/src/cpp/acpi/lai/exec.c:2392-2448 | pops conditions until a loop item is on top, and panics on anything else |
| AmlInterpreter.Interpreter.ParseVarint | kernel/src/cpp/acpi/lai/exec.c:1343-1373 | the byte-by-byte loop decodes a PkgLength, or reports that the code ends inside it |
| AmlInterpreter.Interpreter.Parse | kernel/src/cpp/acpi/lai/exec.c:1923-2110 | one parsing turn is the specified transition |
| AmlCalls.CallPasses | kernel/src/cpp/acpi/lai/exec.c:1598-1645 | a call of a method that returns its argument i yields the value that argument i of the call came out as, counted from the left, and no value if the call has no such argument; the cells of the caller are as the arguments left them |
| AmlCalls.CallStartsEmpty | kernel/src/cpp/acpi/lai/exec.c:1598-1645 | no local of a called method has a value, whatever those of the caller hold |
| AmlCalls.CallPassesRun | kernel/src/cpp/acpi/lai/exec.c:1583-1656 | on the explicit stacks, the turns spent on the encoded call leave that argument as an operand of the caller |
| AmlCalls.CallStartsEmptyRun | kernel/src/cpp/acpi/lai/exec.c:1583-1656 | and the same for the locals |
| AmlCalls.CallComputes | kernel/src/cpp/acpi/lai/exec.c:1583-1656 | a method that applies an operator to its arguments i and j, called with numbers, yields what the operator means for them in this order |
| Objects.Store.Finalize | kernel/src/cpp/acpi/lai/variable.c:12-44 | giving a reference up ends, keeps every count equal to the references that are left, changes no surviving head and frees nothing twice; in a heap that had lost nothing exactly those heads stay that lie in a set whose members are each held from outside or referred to from within it |
| Objects.Store.FinalizeCell | kernel/src/cpp/acpi/lai/variable.c:12-44 | a variable gives its reference up and is zero; the heads that stay are exactly those still sustained from outside; it goes wrong exactly if the package that holds the variable goes with its value, which takes a cycle |
| Objects.Store.FinalizeHead | kernel/src/cpp/acpi/lai/variable.c:19-44 | a head with a count above 1 loses exactly one and nothing else changes; one with count 1 is freed, and with it exactly what outside references no longer sustain |
| Objects.Store.FreeElements | kernel/src/cpp/acpi/lai/variable.c:12-17 | the loop over a dying package finalizes every element |
| Objects.Store.Swap | kernel/src/cpp/acpi/lai/variable.c:46-51 | a swap exchanges two values and their references |
| Objects.Store.Move | kernel/src/cpp/acpi/lai/variable.c:53-59 | a move carries the value over, leaves zero behind and finalizes what the destination held; counts stay exact for all cells, self-moves and cells inside each other included |
| Objects.Store.Assign | kernel/src/cpp/acpi/lai/variable.c:61-80 | an assignment shares the value under exact counts, whatever the cells are, and every head still referred to is unchanged |
| Objects.AssignedCells | kernel/src/cpp/acpi/lai/variable.c:61-80 | after an assignment the destination equals the source and every other cell is as before |
| ObjectHeap.MovedCells | kernel/src/cpp/acpi/lai/variable.c:53-59 | after a move the destination holds the value, the source is zero, no other cell has changed, and a move to itself does nothing |
| ObjectHeap.SwapBalances | kernel/src/cpp/acpi/lai/variable.c:46-51 | exchanging a cell with a temporary keeps references and counts in balance |
| ObjectHeap.CellLives | kernel/src/cpp/acpi/lai/variable.c:19-44 | nothing dangles: what any cell refers to has a positive count |
| ObjectHeap.TreeSurvives | kernel/src/cpp/acpi/lai/variable.c:19-44 | a value that is still referred to keeps its whole structure while other references go |
| ObjectHeap.NothingLeaks | kernel/src/cpp/acpi/lai/variable.c:12-44 | without cycles every head in use can be reached from a variable outside the heap |
| ObjectHeap.AllGivenBack | kernel/src/cpp/acpi/lai/variable.c:12-44 | once the last outside reference to acyclic objects is gone, all memory has been freed |
| ObjectHeap.CyclesLeak | kernel/src/cpp/acpi/lai/variable.c:12-44 | packages that refer to each other in a circle, or one to itself, keep more than the counts that outside references give them, and are out of reach once there are none |
| ObjectHeap.CycleExists | kernel/src/cpp/acpi/lai/variable.c:12-44 | such a heap with exact counts: a package whose only element is itself |
| Objects.CellsSurvive | kernel/src/cpp/acpi/lai/variable.c:19-44 | finalization leaves the cells of every head that is not freed as they were |
| Objects.Store.Create | kernel/src/cpp/acpi/lai/object.c:12-67 | a new object has count 1, zero elements, and no other head changes |
| Objects.Store.ClonePackage | kernel/src/cpp/acpi/lai/object.c:699-705 | a package is copied element by element, recursively, into new heads only, with the same structure |
| Objects.Store.Clone | kernel/src/cpp/acpi/lai/object.c:710-733 | the destination gets a value of its own of the same structure, made of heads that did not exist before; the variables but the destination stay, all other surviving cells are unchanged, and what goes is what only the old value kept, even when the source lies inside the destination |
| Objects.Store.ResizePkg | kernel/src/cpp/acpi/lai/object.c:100-118 | whatever cell holds it, a package keeps the elements that fit, gets zero elements for the rest and finalizes those cut off; the cell goes under the call exactly if it is an element of the package that is moved or cut off, or lies in a package that only the elements cut off sustained |
| HeapLife.WhatStays | kernel/src/cpp/acpi/lai/variable.c:12-44 | once counts are exact again after references were given up, the heads in use are exactly those that lie in a set sustained from outside, cycles included |
| HeapLife.MeetsItselfOnlyInCycles | kernel/src/cpp/acpi/lai/variable.c:19-44 | a variable is met again by its own finalization only in a heap with a cycle |
| HeapLife.LosesOnlyInCycles | kernel/src/cpp/acpi/lai/object.c:100-118 | and a resize loses its cell only in such a heap |
| HeapLife.SelfContained | kernel/src/cpp/acpi/lai/variable.c:19-44 | both happen in a heap with exact counts: a package whose only element is itself |
| ObjectHeap.HigherStay | kernel/src/cpp/acpi/lai/variable.c:19-44 | giving a value up frees no head that ranks above what it refers to |
| RobinHood.Map.LocateBucket | shared/map.h:241-267 | probing ends on every valid table, full ones too, and finds exactly the keys that are there; the one false hit is key 0 on an empty home slot |
| RobinHoodTable.Chain | shared/map.h:241-267 | from the home of an entry up to it every slot is taken by an entry at least as far from its home |
| RobinHoodTable.GiveUp | shared/map.h:257-266 | a lookup that comes to a slot with no probes has proved that the key is absent |
| RobinHood.Map.Exists | shared/map.h:123-125 | true exactly for the keys of the map, for keys other than 0 |
| RobinHood.Map.Fetch | shared/map.h:74-81 | the value of a key in the map; a panic exactly when nothing is found |
| RobinHood.Map.Set | shared/map.h:132-186 | a new key is added and nothing else changes, through displacement and any growth; a duplicate or a full table is refused |
| RobinHood.Map.Probe | shared/map.h:156-185 | the displacement loop puts down the entry in the air and keeps the spacing and the represented map |
| RobinHoodTable.InsertionEnds | shared/map.h:156-185 | the entry in the air lands on the first empty slot with all probe counts right |
| RobinHood.Map.Resize | shared/map.h:41-72 | every entry is set again and the map is the same, even when the new table grows on the way |
| RobinHoodTable.RehashEnds | shared/map.h:54-68 | a complete pass over the old table has carried over exactly its map |
| RobinHood.Map.Remove | shared/map.h:87-117 | removes exactly the key, unless the cluster behind it wraps around the end of the table: then the loop writes out of bounds; exactly then |
| RobinHood.Map.ShiftCluster | shared/map.h:98-116 | backward shift closes the hole and keeps spacing and map, and fails exactly when an entry in slot 0 would have to move |
| RobinHoodTable.CrossesIffWraps | shared/map.h:110-116 | the out-of-bounds write happens exactly when the cluster of the removed slot reaches slot 0 |
| RobinHoodTable.RemovalCanCross | shared/map.h:110-116 | a table of two slots whose removal writes in front of the storage area |
| RobinHoodTable.ShiftBack | shared/map.h:98-116 | one turn of the shift moves the hole on by one and keeps everything else spaced |
| RobinHoodTable.LiveIsMap | shared/map.h:192-214 | iterating from slot 0 meets every entry of the map exactly once |
| RobinHood.Cursor.Next | shared/map.h:196-214 | the iterator yields the remaining entries in slot order, one per step |
| RobinHood.Cursor.HasNext | shared/map.h:201-209 | true exactly while entries remain |
| LinkedArray.Deque.Push | shared/linked_array.h:94-117 | appends to the sequence, growing the storage area if needed; the panic over a full array is out of reach |
| LinkedArray.Deque.Unshift | shared/linked_array.h:144-167 | prepends to the sequence |
| LinkedArray.Deque.Pop | shared/linked_array.h:119-137 | takes the last element off the sequence |
| LinkedArray.Deque.Shift | shared/linked_array.h:169-187 | takes the first element off the sequence |
| LinkedArray.Deque.GetAt | shared/linked_array.h:196-210 | element number index of the sequence, a panic exactly beyond its end |
| LinkedArray.Deque.RemoveAt | shared/linked_array.h:212-236 | takes element number index out of the sequence |
| LinkedArray.Deque.Resize | shared/linked_array.h:238-283 | a non-empty sequence survives; an empty one never does: its ends are linked to slots that were never filled |
| LinkedArray.Deque.MoveEntries | shared/linked_array.h:246-268 | the loop writes the entries in list order to the front of the new area |
| LinkedArray.Deque.ProbeIndex | shared/linked_array.h:302-326 | yields a free slot that is no longer cached, and never runs off the area while the array is not full |
| LinkedArray.Deque.CacheIndex | shared/linked_array.h:294-300 | the two cached slots stay free and distinct |
| LinkedArray.Deque.TakeOut | shared/linked_array.h:119-137 | unlinking a slot takes exactly its element out and caches the slot |
| LinkedArray.Deque.PutIn | shared/linked_array.h:94-117 | linking a free slot in puts exactly its element in |
| LinkedArray.Cursor.Next | shared/linked_array.h:79-82 | steps through the sequence in order |
| LinkedArray.Cursor.Remove | shared/linked_array.h:57-73 | takes the current element out, after which the next step comes to the one behind it |
| LinkedSlots.TakeOutKeeps | shared/linked_array.h:119-137 | links in both directions, flags and values agree with the shorter list |
| LinkedSlots.PutInKeeps | shared/linked_array.h:94-117 | links in both directions, flags and values agree with the longer list |
| HashTable.WalkIsExact | kernel/src/cpp/acpi/lai/util-hash.h:92-127 | the chain for a hash comes to every live element with it exactly once, and to nothing else |
| HashTable.Table.Insert | kernel/src/cpp/acpi/lai/util-hash.h:57-90 | adds exactly the element; a vacant slot and a free bucket are always found |
| HashTable.Table.Grow | kernel/src/cpp/acpi/lai/util-hash.h:13-55 | elements keep their slots and are all indexed again |
| HashTable.Table.Index | kernel/src/cpp/acpi/lai/util-hash.h:28-41 | probing puts a slot into the first free bucket and keeps each live slot in exactly one bucket |
| HashTable.Table.Advance | kernel/src/cpp/acpi/lai/util-hash.h:101-114 | the next position of the chain that hits, with nothing skipped |
| HashTable.Table.Get | kernel/src/cpp/acpi/lai/util-hash.h:116-127 | the live element at a hit of the chain |
| HashTable.Table.Remove | kernel/src/cpp/acpi/lai/util-hash.h:129-140 | vacates exactly the slot of the hit |
| HashTable.VacantSlot | kernel/src/cpp/acpi/lai/util-hash.h:70-75 | with fewer elements than slots some slot is vacant |
| HashTable.FreeBucket | kernel/src/cpp/acpi/lai/util-hash.h:81-89 | with fewer live slots than buckets some bucket is free |
| HashTable.BucketIsMasked | kernel/src/cpp/acpi/lai/util-hash.h:33-40 | in a table of a power of two buckets, each probe step is the 32 bits of h + i under the mask m - 1, for hashes of any sign and sums that wrap |
| NamespaceTree.PrintedPathResolves | kernel/src/cpp/acpi/lai/ns.c:244-279 | parsing the printed path of an installed node that is no alias yields that node, from any context, exactly when all names on the path consist of name characters, of which the dot is one |
| NamespaceTree.ShortSegment | kernel/src/cpp/acpi/lai/ns.c:549-608 | the dot counts as a name character, so a segment of fewer than four characters is padded only at the end of a path |
| NamespaceTree.SearchIsInnermost | kernel/src/cpp/acpi/lai/ns.c:610-637 | the search finds the innermost enclosing scope that has the name, and yields the child or, of an alias, its target; it fails only if no scope has the name |
| Namespace.AcpiNamespace.GetChild | kernel/src/cpp/acpi/lai/ns.c:142-151 | the child of that name, of which there is at most one |
| Namespace.AcpiNamespace.ResolvePath | kernel/src/cpp/acpi/lai/ns.c:549-608 | the loop over segments resolves root, parent prefixes, names and aliases as specified |
| Namespace.AcpiNamespace.StringifyPath | kernel/src/cpp/acpi/lai/ns.c:244-279 | writing from right to left gives the path from the root |
| Namespace.AcpiNamespace.ResolveSearch | kernel/src/cpp/acpi/lai/ns.c:610-637 | the loop over parents performs the search |
| Namespace.AcpiNamespace.Install | kernel/src/cpp/acpi/lai/ns.c:56-98 | a new name enters its parent and nothing else changes, a duplicate stays out; names stay unique and every installed node stays findable through its hash table |
| Namespace.AcpiNamespace.Uninstall | kernel/src/cpp/acpi/lai/ns.c:100-132 | the node leaves its parent and nothing else changes; the panic comes exactly for a node that is not there |
| PathLaws.NameResolves | kernel/src/cpp/acpi/lai/ns.c:578-607 | a path of one name of up to four characters leads to the child whose name is that, filled up with underscores: to the target of the child if it is an alias, otherwise to the child itself; without such a child it leads nowhere |
| PathLaws.ThroughName | kernel/src/cpp/acpi/lai/ns.c:578-607 | a name, a dot and a further path lead where that path leads from the child of the name, or from its target if it is an alias |
| PathLaws.FromRoot | kernel/src/cpp/acpi/lai/ns.c:554-558 | a backslash in front starts from the root, whatever the context |
| PathLaws.FromParent | kernel/src/cpp/acpi/lai/ns.c:559-573 | a caret in front starts from the parent, and from the root stays there |
| PathLaws.PrintedAlias | kernel/src/cpp/acpi/lai/ns.c:244-279 | the printed path of an alias leads to its target exactly when all names on it consist of name characters |
| Fields.ReadField | kernel/src/cpp/acpi/lai/opregion.c:466-488 | reading gives exactly the bits of the field and zeros above them, whatever the access width |
| Fields.WriteField | kernel/src/cpp/acpi/lai/opregion.c:490-505 | every bit of the region after a write, read off the flags by division: access types 1 to 4 write units of 1, 2, 4 and 8 bytes, type 0 the least of these that holds the field up to the limit of the address space; units without a bit of the field stay as they were, in the others the field gets the source bits and the rest is kept, set or cleared for the rules 0, 1 and 2, but the upper half of each 64-bit unit is cleared, as the 32-bit mask does not reach it; other types or rules are refused |
| Fields.ReadFieldInternal | kernel/src/cpp/acpi/lai/opregion.c:391-420 | the chunked loop joins the bits of the field, and no others, to the buffer |
| Fields.WriteFieldInternal | kernel/src/cpp/acpi/lai/opregion.c:422-464 | the read-modify-write loop changes the field and, by update rule and mask, the rest of its units |
| FieldLaws.WriteIsRightIff | kernel/src/cpp/acpi/lai/opregion.c:422-464 | writes of a field put its bits in place and obey the update rule beside it, for all contents, if and only if the access width is below 64, or the rule is WriteZeroes and the field lies in the low half of one 64-bit unit |
| FieldLaws.QwordWriteLoses | kernel/src/cpp/acpi/lai/opregion.c:436-454 | a write to a field of 40 bits under Preserve, in 64-bit units: its bit 39 and the bit 50 beside it are lost |
| FieldLaws.ReadAfterWrite | kernel/src/cpp/acpi/lai/opregion.c:391-505 | a read finds each bit that was written but those in the upper half of a 64-bit unit of the write |
| FieldLaws.ReadBackIff | kernel/src/cpp/acpi/lai/opregion.c:391-505 | a read finds what was written, for all contents, if and only if the access width is below 64 or the field lies in the low half of one unit |
| FieldLaws.FieldsIndependent | kernel/src/cpp/acpi/lai/opregion.c:422-464 | under Preserve a write to one field changes no bit of a field beside it but those it wipes in upper halves |
| FieldLaws.IndependentIff | kernel/src/cpp/acpi/lai/opregion.c:422-464 | it leaves the other field alone, for all contents, if and only if that has no bit in the upper half of a 64-bit unit of the write |
| FieldLaws.SameForWidthsIff | kernel/src/cpp/acpi/lai/opregion.c:422-464 | under Preserve two access widths leave the same region, for all contents, if and only if both or neither is 64 |
| FieldLaws.RulesDisturb | kernel/src/cpp/acpi/lai/opregion.c:440-454 | under the other two rules the bits beside the field in its units become zeros, or ones where the mask reaches |
| Fields.BufferPutAt | kernel/src/cpp/acpi/lai/opregion.c:18-30 | puts the bits of a value at any bit position by or, and touches no other bit |
| Fields.BufferGetAt | kernel/src/cpp/acpi/lai/opregion.c:32-46 | cuts out exactly the bits asked for |
| Fields.AccessWidth | kernel/src/cpp/acpi/lai/opregion.c:48-89 | the width for each access type; for AnyAcc the least of 8, 16, 32 and 64 that holds the field, cut off at the largest allowed; a panic exactly for types above 4 |
| Fields.RoundUpIsPower | kernel/src/cpp/acpi/lai/opregion.c:65-71 | the rounded size is a power of two, not below the size and less than twice it |
| Fields.WriteBuffer | kernel/src/cpp/acpi/lai/exec-operand.c:387-413 | a buffer field gets the bits of the integer and no other bit changes |
| Fields.ReadBuffer | kernel/src/cpp/acpi/lai/exec-operand.c:415-436 | what the loop reads: its first byte is masked but not shifted |
| Fields.ReadBufferIsRight | kernel/src/cpp/acpi/lai/exec-operand.c:415-436 | reading a buffer field is right for all contents if and only if it starts at a byte or is empty |
| FieldList.FieldsSideBySide | kernel/src/cpp/acpi/lai/exec.c:2881-2927 | the named fields of a list occupy disjoint bit ranges in the order of the list, whatever bytes were parsed |
| FieldList.ListedFieldsIndependent | kernel/src/cpp/acpi/lai/exec.c:2881-2927 | writing one field of a list under Preserve changes in the other fields of the list only the bits in upper halves of its 64-bit units |
| FieldList.ListedIndependentIff | kernel/src/cpp/acpi/lai/exec.c:2881-2927 | and it leaves another field of the list alone, for all contents, if and only if that has no bit in such a half |
| FieldList.ListRoundTrip | kernel/src/cpp/acpi/lai/exec.c:2881-2927 | parsing an encoded list of names, gaps and access changes gives its layout |
| FieldList.ListFails | kernel/src/cpp/acpi/lai/exec.c:2886-2903 | behind any well-formed elements, a connection is a panic, an access element or name that is cut off runs out of code, and a gap without a length is an error |
| FieldList.ParseFieldList | kernel/src/cpp/acpi/lai/exec.c:2881-2927 | the loop over the bytes of a list computes its elements |
| SchedulerInvariant.ExactlyOnePlace | kernel/src/cpp/scheduling/scheduler.cpp:143-298 | over any run every live thread either runs or stands in the execution queue, once |
| SchedulerInvariant.PerformKeeps | kernel/src/cpp/scheduling/syscalls.cpp:91-135 | every call, switch, tick, emission, creation and kill keeps that, and queued events and process lists refer to live threads only |
| SchedulerInvariant.ContextSwitchKeeps | kernel/src/cpp/scheduling/scheduler.cpp:143-298 | a context switch keeps the invariant |
| SchedulerInvariant.KillThreadKeeps | kernel/src/cpp/scheduling/scheduler.cpp:531-573 | a killed thread is gone from queue, events and its process, and nothing else is |
| SchedulerInvariant.KillProcessKeeps | kernel/src/cpp/scheduling/scheduler.cpp:575-605 | the threads that go are exactly those of the process |
| SchedulerFairness.SwitchTakesFirst | kernel/src/cpp/scheduling/scheduler.cpp:232-298 | the first thread of the queue that may run is dispatched and those before it go to the end; if none may run, none runs and the order is unchanged |
| SchedulerFairness.StepKeepsPlace | kernel/src/cpp/scheduling/scheduler.cpp:531-573 | nothing but a context switch moves a thread back in the queue |
| SchedulerFairness.DispatchedInTime | kernel/src/cpp/scheduling/scheduler.cpp:232-298 | a thread at position p that may run at every switch is dispatched within p + 1 switches, whatever else happens between them |
| SchedulerEvents.PassServesEach | kernel/src/cpp/scheduling/scheduler.cpp:176-230 | one pass over the event queue delivers to each thread at most its oldest event, drops the events of a thread that refuses them, and keeps all others in order |
| SchedulerEvents.FirstInFirstOut | kernel/src/cpp/scheduling/events.cpp:12-51 | over any run, what waited for a thread followed by what was emitted to it is what was taken for it followed by what still waits |
| SchedulerEvents.StepAddsEvents | kernel/src/cpp/scheduling/events.cpp:12-51 | every step but a context switch leaves the events of a surviving thread alone and only appends what it emits |
| SchedulerEvents.BackupStays | kernel/src/cpp/scheduling/syscalls.cpp:112-135 | while a thread works on an event nothing but its end touches the saved registers |
| SchedulerEvents.RegistersComeBack | kernel/src/cpp/scheduling/syscalls.cpp:112-135 | after a delivery, whatever happens until the thread ends the event, it is given no other, and then its registers are those from before the delivery |
| Scheduler.Scheduler.DeliverEvents | kernel/src/cpp/scheduling/scheduler.cpp:176-230 | the loop with its removing iterator performs the specified pass |
| Scheduler.Scheduler.ExecuteNext | kernel/src/cpp/scheduling/scheduler.cpp:232-298 | the loop of shift and push performs the specified dispatch |
| Scheduler.Scheduler.MayRun | kernel/src/cpp/scheduling/scheduler.cpp:237-270 | the chain of skips lets through exactly the threads that are not parked, whose process is not suspended, that work on an event if they are event-only, and whose suspension, if any, has run out |
| Scheduler.Scheduler.HandleContextSwitch | kernel/src/cpp/scheduling/scheduler.cpp:143-298 | the whole context switch, with the invariant kept; a thread that runs afterwards is neither parked nor suspended, nor is its process, and it works on an event if it is event-only |
| Scheduler.Scheduler.HandleTimerTick | kernel/src/cpp/scheduling/scheduler.cpp:303-312 | time goes on by one slice before the switch |
| Scheduler.Scheduler.EmitEvent | kernel/src/cpp/scheduling/events.cpp:12-51 | queues one event for each listener of the process that shares a bit with the id and whose thread lives and is not busy, in the order of hooking, with that listener's thread and handler, and none for the others |
| Scheduler.Scheduler.KillThread | kernel/src/cpp/scheduling/scheduler.cpp:531-565 | the removing loops take out exactly the thread |
| Scheduler.Scheduler.KillProcess | kernel/src/cpp/scheduling/scheduler.cpp:575-605 | all threads of the process, its end told to listeners, the process gone |
| Scheduler.Scheduler.CreateThread | kernel/src/cpp/scheduling/scheduler.cpp:443-529 | a new thread under a new id at the end of the queue |
| Scheduler.Scheduler.CreateProcess | kernel/src/cpp/scheduling/scheduler.cpp:314-440 | a new process with one queued thread, told to listeners |
| Scheduler.Scheduler.ManualContextSwitchReturn | kernel/src/cpp/scheduling/scheduler.cpp:645-654 | the running thread goes to the end of the queue |
| Scheduler.Scheduler.HandleSystemCall | kernel/src/cpp/scheduling/syscalls.cpp:91-193 | each modelled call leads to its specified state; the thread runs on exactly if it was not taken off the processor |
| Scheduler.Scheduler.HandlePolicyCall | kernel/src/cpp/scheduling/syscalls.cpp:164-193 | only known policies are set, on oneself or another live thread; becoming event-only yields unless an event is being handled |
| Scheduler.Scheduler.HandleKillCall | kernel/src/cpp/scheduling/syscalls.cpp:326-353 | 0 or the own id ends the caller, another live id that thread |
| Scheduler.Scheduler.HandleParkCall | kernel/src/cpp/scheduling/syscalls.cpp:354-376 | 0 or the own id parks the caller, which yields |
| Scheduler.Scheduler.ServeAll | kernel/src/cpp/scheduling/scheduler.cpp:143-312 | any sequence of steps is performed as specified with the invariant kept |
| SchedulerRules.DispatchedMayRun | kernel/src/cpp/scheduling/scheduler.cpp:232-298 | the thread that a context switch dispatches is not parked, its process is not suspended, it works on an event if it is event-only, and if it was suspended, its time has come; one that was parked has just been given an event |
| SchedulerRules.IdleIff | kernel/src/cpp/scheduling/scheduler.cpp:232-298 | no thread runs after a context switch if and only if each one is parked, of a suspended process, event-only without an event in work, or suspended without end or beyond now |
| SchedulerRules.SwitchLeaves | kernel/src/cpp/scheduling/scheduler.cpp:176-298 | a context switch changes a thread by the delivery of its oldest event, if it works on none and is not busy, and by the end of its suspension if it is dispatched; by nothing else |
| SchedulerRules.OthersLeftAlone | kernel/src/cpp/scheduling/syscalls.cpp:91-376 | no other step changes a thread that does not run, but by naming it: parking, freeing, or setting its policy |
| SchedulerRules.CallerChanges | kernel/src/cpp/scheduling/syscalls.cpp:91-376 | each field of the thread that makes a call is changed by that call alone which is for it |
| SchedulerRules.GivesUpIff | kernel/src/cpp/scheduling/syscalls.cpp:91-376 | by which calls, and in which states, a thread gives up the processor; it then goes to the very end of the queue, unless it ends |
| SchedulerRules.TimeGoesOn | kernel/src/cpp/scheduling/scheduler.cpp:303-312 | each tick of the timer is 5 milliseconds, and nothing else makes time go on |
| SchedulerRules.StepBringsNobodyBack | kernel/src/cpp/scheduling/scheduler.cpp:531-573 | a thread that is gone is never back: no id is used again |
| SchedulerRules.AfterPark | kernel/src/cpp/scheduling/syscalls.cpp:354-376 | after a park call the thread it names, 0 being the caller, does not run, over any run in which it is not freed and gets no event |
| SchedulerRules.AfterUnpark | kernel/src/cpp/scheduling/syscalls.cpp:377-388 | freeing a thread makes it parked no longer, and changes nothing else |
| SchedulerRules.DeliveryUnparks | kernel/src/cpp/scheduling/scheduler.cpp:189-200 | the delivery of an event frees a parked thread |
| SchedulerRules.AfterSuspend | kernel/src/cpp/scheduling/syscalls.cpp:94-111 | after a suspend call the caller does not run before the milliseconds asked for have passed, over any run, and is held back no longer than that |
| SchedulerRules.AfterEventOnly | kernel/src/cpp/scheduling/syscalls.cpp:164-193 | after policy 1 has been set for a thread that works on no event, it does not run, over any run in which no event waits for it at a context switch and its policy stays |
| SchedulerRules.BusyIsLeftInPeace | kernel/src/cpp/scheduling/syscalls.cpp:164-193 | no step queues an event for a thread of policy 2, and no context switch delivers one to it |
| SchedulerRules.PolicyNumbers | kernel/src/cpp/scheduling/syscalls.cpp:164-193 | the numbers 0, 1 and 2 set the policies normal, event-only and busy, for the thread named or, at 0, the caller; nothing else changes, and nothing at all for other numbers and unknown threads |
| SchedulerRules.HookedIsTold | kernel/src/cpp/scheduling/syscalls.cpp:136-163 | once a thread has hooked events by a mask, the next event that shares a bit with the mask is queued for it, last, with its handler |
| SchedulerRules.StartIsTold | kernel/src/cpp/scheduling/scheduler.cpp:314-440 | those who listen to event 1 of process 1 are told of each start, in order; the new process has one thread, which waits at the end of the queue with nothing to hold it back |
| SchedulerRules.EndIsTold | kernel/src/cpp/scheduling/scheduler.cpp:575-605 | those who listen to event 2 of process 1 and outlive the process are told of its end, and no other event is added |
| SchedulerRules.NewThreadIsReady | kernel/src/cpp/scheduling/scheduler.cpp:443-529 | a new thread belongs to the process of the caller, waits at the end of the queue with nothing to hold it back, and enters at its entry point on its stack |
| SchedulerRules.AfterKill | kernel/src/cpp/scheduling/syscalls.cpp:326-353 | exactly the thread named, 0 being the caller, is gone with its events and its place; all other threads are as they were |
| EventRouting.EmittedIsRouted | kernel/src/cpp/scheduling/events.cpp:12-51 | the events that an emission queues correspond one to one, in order, to the listeners whose mask shares a bit with the id and whose thread lives and is not busy; each carries the id, the data and the handler |
| EventRouting.RoutedIsUnique | kernel/src/cpp/scheduling/events.cpp:12-51 | which determines them |
| PageOwnership.KillKeepsExact | kernel/src/cpp/scheduling/scheduler.cpp:611-633 | after a kill the frames in use are again exactly those of the kernel and of the surviving processes, each with one owner, and no surviving mapping has changed |
| PageOwnership.KillFreesItsSlots | kernel/src/cpp/scheduling/scheduler.cpp:611-636 | the frames freed are exactly those of the directory, tables, owned pages and shared page of the victim |
| PageOwnership.StoresAreIsolated | kernel/src/cpp/paging/virtual.cpp:54-103 | whatever is stored into pages that a process owns, no page table of any process changes |
| PageOwnership.NewTableKeeps | kernel/src/cpp/paging/virtual.cpp:105-121 | adding a table changes no mapping and keeps ownership exact |
| PageOwnership.MapOwnedKeeps | kernel/src/cpp/paging/paging.cpp:77-91 | giving a page a free frame changes that one mapping and keeps ownership exact |
| PageOwnership.EntryWriteIsLocal | kernel/src/cpp/scheduling/syscalls.cpp:459-468 | writing one entry of one table changes that one mapping, of that one process |
| PageOwnership.CreationIsExactIff | kernel/src/cpp/scheduling/scheduler.cpp:358-393 | a new process keeps ownership exact if and only if the frames that first fit yields for its low tables carry no ownership flag from an earlier use, which can be seen from memory and bitmap before the call: they are not wiped and the flags are not written |
| PageOwnership.RecycledTableBreaksExact | kernel/src/cpp/scheduling/scheduler.cpp:372-393 | when first fit yields the page table of an ended process that had reserved a page for such a table, the new process comes to own frames that are not its own |
| RecycledFrames.Recycle | kernel/src/cpp/scheduling/scheduler.cpp:339-399 | that happens: two processes start and reserve a page, the first ends, the second touches its page, a third starts, and ownership is no longer exact |
| PageOwnership.StaleFlagBreaksExact | kernel/src/cpp/scheduling/scheduler.cpp:372-393 | each stale flag makes one page of the 1:1 map count as owned |
| Paging.Kernel.AllocPhysicalPage | kernel/src/cpp/heap/physical.cpp:15-46 | the first run of free frames: skipping behind a used frame loses none |
| Paging.Kernel.FreePhysicalPage | kernel/src/cpp/heap/physical.cpp:48-54 | frees one frame and says whether it was in use |
| Paging.Kernel.FetchPageIndex | kernel/src/cpp/paging/virtual.cpp:105-121 | finds the table of a page, or adds an empty one if asked to |
| Paging.Kernel.FindFreeVirtualPages | kernel/src/cpp/paging/virtual.cpp:123-142 | the first run of empty pages from 100 MB on; tables are added on the way and no mapping changes |
| Paging.Kernel.PreferredVirtualPagesFree | kernel/src/cpp/paging/virtual.cpp:144-157 | true exactly if every page of the range is empty |
| Paging.Kernel.AllocatePages | kernel/src/cpp/scheduling/syscalls.cpp:431-471 | refuses an empty, unaligned or occupied request without a trace; otherwise reserves exactly the range: each page is owned by the process and may be read and written at its level, has a free frame that holds zeros exactly if bit 1 of the flags is set, and is to get one on first access exactly if bit 0 is; no other mapping changes, and no page of any process loses its contents |
| Paging.Kernel.HandlePageFault | kernel/src/cpp/paging/paging.cpp:54-103 | a lazily reserved page gets a free frame that holds zeros and keeps its access rights, and nothing else changes; in every other case exactly this process is killed |
| Paging.Kernel.KillProcess | kernel/src/cpp/scheduling/scheduler.cpp:611-638 | the two loops over directories and entries free exactly the frames of the victim |
| Paging.Kernel.CreateProcess | kernel/src/cpp/scheduling/scheduler.cpp:339-399 | takes the first 28 free frames and leaves a process with the 100 MB map, each page mapped to itself at the level that the flag of the process says, an empty guard page, the shared page out of its reach, and the kernel flags its low tables had before |
| Paging.Kernel.Store | kernel/src/cpp/paging/virtual.cpp:54-103 | writing an own page changes its bytes and no mapping |
| Paging.Kernel.Serve | kernel/src/cpp/scheduling/syscalls.cpp:431-471 | any interleaving of page-allocating calls, faults, stores, kills and starts into clean frames keeps ownership exact, and every page that its process owns keeps its mapping and contents through all calls but its own stores to it, its faults and its end |
| Paging.ServeFromBoot | kernel/src/cpp/scheduling/scheduler.cpp:339-399 | the same from the empty machine on; no directory stands in the way of what pages allow |
| Paging.CreationKeepsLazy | kernel/src/cpp/scheduling/scheduler.cpp:339-399 | a start into clean frames also keeps the frames behind lazily reserved pages unassigned |
| Paging.ReserveThenTouch | kernel/src/cpp/paging/paging.cpp:79-95 | a page reserved for first access is there after it, with a frame that was free and holds zeros, and page and table let the process read and write |
| PageOwnership.KillGivesBack | kernel/src/cpp/scheduling/scheduler.cpp:611-638 | of the frames in use exactly those are free after a kill that hold the directory, the shared page, a table, or a present page that one of two kernel flags marks |
| PageOwnership.NoFrameShared | kernel/src/cpp/scheduling/scheduler.cpp:339-399 | no two pages to be given back lie in one frame, whosever they are, and none lies in a directory, a table or the kernel's memory |
| VirtualMemory.FaithfulIff | kernel/src/cpp/paging/virtual.cpp:10-103 | page-wise copying equals byte-by-byte translation if and only if the range starts on a page, stays in one, or ends with one |
| VirtualMemory.OverrunsIff | kernel/src/cpp/paging/virtual.cpp:42-49 | the copy leaves the frames of the range if and only if the last page holds more bytes than the offset of the first leaves room for |
| VirtualMemory.CheckCovers | kernel/src/cpp/paging/virtual.cpp:63-69 | the check of a write covers every page the copy touches, and one page more exactly if the range leaves off before the offset it began with |
| VirtualMemory.EmptyCheck | kernel/src/cpp/paging/virtual.cpp:63-69 | the check is missing exactly for an empty range that starts on a page |
| VirtualMemory.StoredBytes | kernel/src/cpp/paging/virtual.cpp:54-103 | what a well-placed write stores is what translation finds at each byte |
| VirtualMemory.StoredElsewhere | kernel/src/cpp/paging/virtual.cpp:54-103 | no other byte of memory changes |
| VirtualMemory.Space.ReadVirtualMemory | kernel/src/cpp/paging/virtual.cpp:10-52 | succeeds exactly if every page may be read, the first if it is at the level of the user, all others if the process owns them; then yields the bytes the copy reaches, which in a well-placed range are those at their addresses |
| VirtualMemory.Space.WriteVirtualMemory | kernel/src/cpp/paging/virtual.cpp:54-103 | all or nothing: refuses without a change exactly if some checked page may not be written; what is written lies in writable pages, for a process in its own; in a well-placed range the bytes stand at their addresses and no other byte changes; a missing entry is followed exactly for an empty range that starts on a page without one |
| DataSink.Sink.AppendData | kernel/src/cpp/scheduling/structures/datasink.h:30-58 | adds the bytes of the buffer to the stream and refuses an empty one; every buffer to be released keeps to one fragment if and only if the caller hands over none that another fragment holds |
| DataSink.Sink.ConsumeDataStream | kernel/src/cpp/scheduling/structures/datasink.h:60-86 | yields the next min(requested, available) bytes; exactly the unique buffers read to their end are released, each once |
| DataSink.Sink.ConsumeBlock | kernel/src/cpp/scheduling/structures/datasink.h:88-95 | drops the front fragment with what was left of it and releases its buffer if it is unique |
| DataSink.TakenIsPrefix | kernel/src/cpp/scheduling/structures/datasink.h:60-86 | what has been read is the beginning of what has been written, and all of it exactly when no fragment is left |
| DataSink.Sink.ReadBlock | kernel/src/cpp/scheduling/syscalls.cpp:567-598 | hands out the whole buffer of the front: the bytes taken last, as many as had been streamed from it, come again in front of the rest; without a fragment, or without a place to write to, nothing changes |
| DataSink.Sink.ReadStream | kernel/src/cpp/scheduling/syscalls.cpp:526-557 | refuses a size of 0 or above 2048 without a change; otherwise takes the next min(requested, available) bytes off the stream, and where the process does not accept them yields -1 and they are gone |
| DataSink.HandedOnceIff | kernel/src/cpp/scheduling/syscalls.cpp:526-598 | over any history of a sink, the process was handed every byte taken, once and in order, if and only if no block repeats what had been handed out and whatever was refused comes again in a block; and every byte it was handed is the written one at the position the history gives |
| StreamLog.OnceInOrderIff | kernel/src/cpp/scheduling/syscalls.cpp:526-598 | the same of any sequence of reads, each of which takes up where the last one ended |
| DataSink.RefusedRead | kernel/src/cpp/scheduling/syscalls.cpp:546-557 | a stream read to an address that refuses it: its bytes are missing from what the process gets |
| DataSink.RepeatedByte | kernel/src/cpp/scheduling/syscalls.cpp:567-598 | a byte read from the stream comes again with its block |
| DataSink.RefusedThenBlock | kernel/src/cpp/scheduling/syscalls.cpp:526-598 | bytes that were refused and then come with their block are not lost, so a refusal alone decides nothing |
| FlexArray.Flex.Defragment | shared/flex_array.h:77-100 | ends although its index moves back; the values stand in the first slots in their old order |
| FlexArray.MoveKeeps | shared/flex_array.h:87-98 | moving a value down over empty slots changes no value and no order |
| FlexArray.Flex.Push | shared/flex_array.h:150-165 | appends, always onto an empty slot, unless the array is fragmented |
| FlexArray.Flex.SetAt | shared/flex_array.h:121-136 | sets exactly one slot; the flag goes up exactly if a slot other than the next one is filled |
| FlexArray.Flex.RemoveAt | shared/flex_array.h:138-148 | empties exactly one slot; the flag goes up exactly if it was not the last one |
| FlexArray.Flex.Pop | shared/flex_array.h:168-186 | takes the last values off; more than there are reach below the first slot |
| FlexArray.Flex.Shift | shared/flex_array.h:190-208 | takes one value off however many are asked for; the count stays right if and only if at most one is asked for or present |
| FlexArray.Flex.Resize | shared/flex_array.h:47-73 | growing keeps all values; shrinking panics or overruns the new area, by the flag and the count |
| FlexArray.Flex.GetAt | shared/flex_array.h:117-119 | a panic exactly outside the capacity or on an empty slot |
| Sync.MutualExclusion | kernel/src/cpp/acpi/lai/exec_impl.h:108-149 | however any number of threads interleave, at most one holds the mutex, the locked bit is set exactly while one does, and no assertion fires |
| Sync.MutexRunKeeps | kernel/src/cpp/acpi/lai/exec_impl.h:108-149 | every schedule keeps the word unlocked, locked or contended, with as many holders as it says |
| Sync.LocksIff | kernel/src/cpp/acpi/lai/exec_impl.h:108-134 | some schedule in which it waits patiently gives a waiting thread the mutex if and only if its copy of the word is not the contended one |
| Sync.StaleWaiterNeverLocks | kernel/src/cpp/acpi/lai/exec_impl.h:108-134 | a waiter that read the word as contended never looks at it again: in no schedule does it take the mutex, it can only time out |
| Sync.StaleReachedIff | kernel/src/cpp/acpi/lai/exec_impl.h:108-149 | from the unlocked mutex such a waiter comes about in some schedule if and only if there are at least two threads |
| Sync.EventRunKeeps | kernel/src/cpp/acpi/lai/exec_impl.h:151-221 | in every schedule, with waits that are woken or pass their deadline, the word is a pure count or the pure waiters mark, the count is signals minus successful waits minus discards, and no assertion fires but the one against overflow |
| Sync.OverflowOnly | kernel/src/cpp/acpi/lai/exec_impl.h:178-202 | the overflow assertion stops exactly a signal that has read the largest count |
| Sync.SucceedsIff | kernel/src/cpp/acpi/lai/exec_impl.h:151-202 | with a thread about to signal, some schedule in which it waits patiently makes a wait succeed if and only if its copy of the word is not the waiters mark |
| Sync.StaleEventWaiter | kernel/src/cpp/acpi/lai/exec_impl.h:151-176 | a waiter that read the waiters mark keeps that copy, and its wait never succeeds: only its deadline ends it |
| Sync.StaleEventReachedIff | kernel/src/cpp/acpi/lai/exec_impl.h:151-176 | from the fresh event such a waiter comes about as soon as there is a thread |

## Left out

- AmlCorrectness.MachineIffMeaning: covers methods of integer constants, locals, arguments, the integer operators, Store, CopyObject, If, Else, While, Break, Continue, Return and calls; strings, buffers, packages, references and named objects as operands, Concat, BCD, Notify, Sleep, Stall, Acquire and the creation of nodes inside methods are not part of this model.
- AmlMachine: division by zero and shifts by 64 or more, undefined in C, stop the run with a fault of their own; stacks never run out of memory; names in methods are single segments of four characters.
- AmlSyntax.Compile: a program is loaded as method nodes under unique names; parsing definition blocks is not part of this model.
- Objects: counts are unbounded, and a freed head is marked instead of handed back to an allocator; the two words of a head that memset clears are cleared together.
- Objects.Store.Clone: the value to be cloned has to be acyclic, as the source recurses without end on a cycle.
- Objects: conversions between types, string and buffer contents are not part of this model.
- RobinHood.Map.Set: with key 0 among the entries growth can refuse a duplicate, so the exact outcome is stated for maps without key 0.
- RobinHood.Map: float load factors are the rationals 92/100 and 19/10; capacities stay below 2^32; string keys and their hash are left out, being one more way to make a key.
- LinkedArray.Deque: new storage is taken to start with empty slots and to hold at least two, which the source relies on but does not ensure; peeks are left out, as easy.
- FlexArray.Flex: new slots are taken to start empty; the release of entries by the destructor is left out.
- HashTable: hashes are integers of any sign and the table size a power of two; the hash of a name is any function of it.
- Namespace.AcpiNamespace.Install: one node at a time under a parent that is no alias; AML name strings with their prefixes (`lai_amlname_parse`), the iterators, device ids and the predefined objects are left out.
- NamespaceTree: node names hold no NUL character.
- Fields: an operation region is memory; port, PCI and other address spaces, index and bank fields and region overrides are not part of this model.
- Fields.ReadFieldInternal: a 64-bit unit whose mask would shift by 64 or more ends with a status of its own, because the shift is undefined in C; callers get it only for such units.
- Fields: offsets are unbounded, where the source cuts the offset of a field down to its lower 32 bits when it looks for the first access unit; the two agree in regions of less than 2^29 bytes.
- FieldList.ParseFieldList: names are single segments, and nodes are not installed while the list is parsed.
- Sync: the clock is a choice of the schedule, so a deadline may pass at any step in which a thread is blocked; the kernel's wait and wake are steps that may return at any time, so wake-ups may be lost or spurious; fairness is not claimed.
- SchedulerState: registers are one value with program counter and stack pointer, and the three words pushed for an event handler are not modelled; CPU time and return values in registers are left out.
- SchedulerState: `elapsed_ms` does not wrap, and calls that name a killed thread, whose memory the source would still use because its thread list is never pruned, do nothing. A listener whose thread has ended is passed over; that the source would also take it off the list makes no difference, as no id is used again.
- SchedulerState.CreateProcess: the main thread is scheduled at once; virtual processes but the one for process events, terminal input and the calls that touch no thread are left out.
- Scheduler: `ThreadMutex`, `ThreadSemaphore` and `async` test and set in separate steps under preemption; the laws one would want do not hold of them.
- Paging.Kernel.AllocPhysicalPage: the bitmap has no end, as in the source, which does not look for one; physical memory is taken as large enough.
- Paging.Kernel.AllocatePages: asks for a run of empty pages below 4 GB, where the source would search past the last directory.
- Paging.Kernel.CreateProcess: the stack of the main thread and the blocks inside the shared page are left out, and with them `reset_virtual_pages`, which ignores its loop index.
- Paging.Kernel.Serve: a start goes ahead where `PageOwnership.CleanStart` holds, as ownership is not exact after any other; programs loaded by the ELF loader map frames of their own through entries the ownership predicate already counts, but the loader is not part of this model.
- Objects.Store.ResizePkg: where a cyclic package takes the cell of the call with it, the model stops with `CellLost`; what the source then does, through the dangling pointer or up to an assertion over a count below zero, is left open.
- Objects.Store.FinalizeCell: where a variable is met again by its own finalization the source fails its assertion over the count; the model reports that and goes on as if the variable had been cleared first.
- VirtualMemory.Space: addresses do not wrap around 4 GB, and a page with an entry that is not present is translated by its address field, as in the source.
- DataSink: permissions and the identifiers of sinks are left out, and whether the program's memory accepts what a read yields is a parameter of the call; appending by a process is the method of the sink.
- `kmalloc` and `kfree`: allocation yields fresh memory.
- Hardware, assembly, drawing, drivers, PCI and ACPI table discovery, strings and number formatting: tables and input/output, with no property across functions.
