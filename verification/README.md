# Verified model of dmd's header-side algorithms

Most of the D compiler is written in D and reaches its C++ headers only as declarations.
This project models the parts of the repository whose algorithms are in C, C++ and Python
files, and proves what they are for.

- **Vtable layout and header walk** (`compiler/tools/gen_cpp_layout_test.py`).
  `VtableLayout.dfy` defines the layout rules on the list of a chain's virtual methods and
  proves them against an independent account of overriding (`Parent`, `Root`,
  `MostDerived`); `InheritanceChain.dfy` states the results class by class,
  `LayoutChecks.dfy` those for the emitted checks, and `ExampleHierarchy.dfy` works out one
  hierarchy. `VtableTool.dfy` is the memoising generator: tables are heap objects, so that
  the copy of the base table matters, and the cache holds sentinels while a class is in
  progress. `HeaderWalk.dfy` is the walk over the cursor graph.
- **Growable array** (`compiler/include/dmd/root/array.h`). `BlockHeap.dfy` is the
  allocator, `GrowableArray.dfy` the template as a class whose union holds either the
  inline element or a block number, `ArrayCapacity.dfy` the 32-bit capacity arithmetic and
  its consequences over runs, `ArrayRuns.dfy` any run of operations on any number of
  arrays in one heap, `ArrayText.dfy` the printed form. An element that was never written
  is `Undefined`.
- **Hidden calls** (`druntime/src/etc/valgrind/valgrind.h`). `Rotation.dfy` treats the
  preambles, `Machine.dfy` the instructions, `CallSequence.dfy` the 26 macro texts and the
  general text they are instances of, `HiddenCall.dfy` what holds at the call and after it.
- **Complex division** (`compiler/include/dmd/root/complex_t.h`): `ComplexDivision.dfy`,
  over exact reals.
- **80-bit floating point encoding** (`compiler/include/dmd/root/longdouble.h`):
  `SoftLongDouble.dfy`, and `DecimalExponents.dfy` for the limits that count in tens.

`Powers.dfy` and `Common.dfy` are shared. `dafny verify dfyconfig.toml` checks everything.

## Assumptions

- Classes and cursors are finite maps from distinct hashes; the definition that a base
  specifier resolves to is part of the data. What clang reports about a method is the
  predicate `ClangReports`: mangled names are unique along a chain, and a non-empty
  overridden list names exactly one earlier method, declared in a proper base class, which
  is the current overrider there.
- Memory allocation succeeds, and `xrealloc` counts as allocating, copying and freeing.
  `memcpy` requires regions that do not overlap; `size_t` has 64 bits.
- Machine memory holds one word at each word-aligned address; the argument vector is word
  aligned, as C objects of its type are, and lies in the caller's frame or red zone.

## Results that differ from what one might expect

- `toChars` of an empty array computes a buffer of 2 characters and stores 3. The buffer
  is filled exactly for every non-empty array (`FitsExactlyWhenNonEmpty`).
- Inserting an array into itself is defined at its end only; anywhere else the `memcpy`
  reads cells that it writes, unless the array is empty (`SelfInsertOverlaps`). With
  `memmove` instead it would be right at every index (`MemmoveWouldInsert`).
- `reserve` makes the promised room exactly when the new capacity fits 32 bits
  (`ReserveMakesRoom`); growth by one does up to length 2863311530. `setDim` gives the
  array the dimension asked for under the same condition (`DimensionIsReached`). A
  dimension beyond 32 bits is silently truncated, and the array stays sound exactly when
  the capacity does not truncate to 0 or 1 (`SettableIsSound`).
- `LDBL_MIN_10_EXP` is one too low: by section 5.2.4.2.2 of C11 it should be -4931, since
  10^-4932 is below `LDBL_MIN` (`MinDecimalExponent`). `LDBL_MAX_10_EXP` is right.
- The conversion of `longdouble_soft` to bool is wrong for a zero mantissa under a
  non-zero exponent, and for nothing else that is finite (`TruthIsNonZero`).

## Model

| member | source | states |
|---|---|---|
| VtableLayout.FindSlot | compiler/tools/gen_cpp_layout_test.py:273-277 | the scan stops at the first slot whose method is named, and reports -1 only if none is |
| VtableLayout.VirtualsAreExact | compiler/tools/gen_cpp_layout_test.py:265-267 | the methods that take part in the layout are exactly the children that are methods and virtual |
| VtableLayout.VirtualsAreCounted | compiler/tools/gen_cpp_layout_test.py:265-267 | each takes part once |
| VtableLayout.VirtualsInOrder | compiler/tools/gen_cpp_layout_test.py:265-267 | they take part in the order of their declarations |
| VtableLayout.FirstBaseIsFirst | compiler/tools/gen_cpp_layout_test.py:256-263 | the base is the definition of the first child that is a base specifier, whatever stands before it, and there is none without one |
| VtableLayout.TableIsLaidOut | compiler/tools/gen_cpp_layout_test.py:265-279 | in any well-reported chain the slots correspond one to one, in order, to the methods that override nothing, and each slot holds the most derived overrider of its method |
| VtableLayout.OverrideKeepsLayout | compiler/tools/gen_cpp_layout_test.py:271-277 | adding an override keeps that correspondence: it goes into the slot of its root and nowhere else |
| VtableLayout.IntroductionKeepsLayout | compiler/tools/gen_cpp_layout_test.py:278-279 | adding a method that overrides nothing opens one new slot at the end |
| VtableLayout.SlotStability | compiler/tools/gen_cpp_layout_test.py:248-282 | base and derived tables agree slot by slot on the introducing method, tables only grow, no two slots share an introducing method or an entry |
| VtableLayout.DeclaredMethodIndex | compiler/tools/gen_cpp_layout_test.py:284-288 | a virtual method is found in the table of its own class, at its own entry, in the slot of the method at the root of its overrides |
| VtableLayout.OverrideKeepsIndex | compiler/tools/gen_cpp_layout_test.py:284-288 | the index of an override equals the index that the introducing method has in the introducing class |
| InheritanceChain.DispatchThroughBase | compiler/tools/gen_cpp_layout_test.py:248-282 | for any class of a chain and any of its slots, the same slot of the most derived class holds the most derived overrider of the same introduced method |
| InheritanceChain.DeclaringClass | compiler/tools/gen_cpp_layout_test.py:255-263 | every method of a chain is declared by one of its classes |
| InheritanceChain.IntroducingClass | compiler/tools/gen_cpp_layout_test.py:255-263 | the root of a method is declared by the same class or a base of it |
| InheritanceChain.IndexAgreesWithLayout | compiler/tools/gen_cpp_layout_test.py:284-288 | index lookup, class by class: never -1 for a declared virtual method, the entry is that method, and the index is the one its root has in the class that introduced it, which exists |
| InheritanceChain.SlotsNameVirtualMethods | compiler/tools/gen_cpp_layout_test.py:265-279 | every slot of a class names a method that some class of its chain declares virtual |
| LayoutChecks.VirtualMethodHasSlot | compiler/tools/gen_cpp_layout_test.py:265-279 | in a well-reported chain every method that the last class declares virtual has a slot |
| ExampleHierarchy.Example | compiler/tools/gen_cpp_layout_test.py:248-282 | a hierarchy of two classes with a non-virtual method and an override: it meets the assumptions, and its table is the one expected |
| InheritanceChain.ChainIsUnique | compiler/tools/gen_cpp_layout_test.py:255-263 | a class has at most one chain of first bases, so the uncached table is well defined |
| InheritanceChain.AcyclicHasChain | compiler/tools/gen_cpp_layout_test.py:255-263 | in an acyclic hierarchy every class has a chain |
| VtableTool.UncachedStep | compiler/tools/gen_cpp_layout_test.py:265-282 | extending the uncached table of the base by the class's own methods gives the uncached table of the class |
| VtableTool.ClearForBase | compiler/tools/gen_cpp_layout_test.py:252-262 | a class in progress is never on the chain of the base it asks for, so sentinels are not mistaken for tables |
| VtableTool.Generator.ComputeVtable | compiler/tools/gen_cpp_layout_test.py:248-282 | terminates on every hierarchy, cyclic or not; for a class with a chain returns the uncached table; every finished cache entry is uncached and none is ever altered |
| VtableTool.Generator.BaseVtable | compiler/tools/gen_cpp_layout_test.py:255-263 | the table a class starts from, computed with the class itself held by a sentinel |
| VtableTool.Generator.FindBase | compiler/tools/gen_cpp_layout_test.py:256-263 | only the first base specifier counts |
| VtableTool.Generator.FillTable | compiler/tools/gen_cpp_layout_test.py:265-279 | the new table is a fresh copy of the base table extended method by method; the base table is not written |
| VtableTool.VtableList.IndexOf | compiler/tools/gen_cpp_layout_test.py:273-277 | the loop over the entries finds the first named slot |
| VtableTool.AnswerQueries | compiler/tools/gen_cpp_layout_test.py:246-282 | for any sequence of queries to a new generator, each answer is the uncached table of its class and still is when all are answered, so neither order nor history of queries matters |
| VtableTool.AnswerAcyclicQueries | compiler/tools/gen_cpp_layout_test.py:246-282 | in an acyclic hierarchy every class has a chain, and each answer is the table of the chain of the class queried |
| VtableTool.Generator.GetVtableIndex | compiler/tools/gen_cpp_layout_test.py:284-288 | the index in the uncached table of the class |
| VtableTool.Generator.EmitVtableChecks | compiler/tools/gen_cpp_layout_test.py:402-426 | for every class, cached or not, exactly the checks of its virtual methods that are not overloaded and have an index in its uncached table, in order; none for a name that two of them share |
| LayoutChecks.ChecksAreExact | compiler/tools/gen_cpp_layout_test.py:413-426 | a check is in the list if and only if it is the check of one of the methods |
| LayoutChecks.DeclaredOnce | compiler/tools/gen_cpp_layout_test.py:413-418 | a name counts once if and only if no other virtual method of the class has it |
| LayoutChecks.ChecksSpelledOut | compiler/tools/gen_cpp_layout_test.py:413-426 | a check is emitted if and only if it names a method that shares its name with no other, with the first slot that holds that method |
| LayoutChecks.OverloadedIsNotChecked | compiler/tools/gen_cpp_layout_test.py:418-426 | no check is emitted for an overloaded name |
| LayoutChecks.ChecksGrow | compiler/tools/gen_cpp_layout_test.py:416-426 | the checks stand in the order of the methods |
| LayoutChecks.ChecksAreDistinct | compiler/tools/gen_cpp_layout_test.py:416-426 | no name is checked twice |
| LayoutChecks.UniqueMethodIsChecked | compiler/tools/gen_cpp_layout_test.py:413-426 | in a well-reported chain a method whose name is not overloaded is always checked, against the slot of its root |
| VtableTool.UniqueMethodIsEmitted | compiler/tools/gen_cpp_layout_test.py:402-426 | and that check is in the list emitted for the class |
| HeaderWalk.Walker.Run | compiler/tools/gen_cpp_layout_test.py:455-479 | the walk sees exactly the cursors reachable through namespaces; emit_enum and emit_record are called exactly once for each reachable definition of their kinds in the headers and for nothing else; a function is collected if and only if a reachable dmd block of the headers has it as a child and it is declared in the headers; each block is collected once |
| HeaderWalk.Walker.WalkChild | compiler/tools/gen_cpp_layout_test.py:459-478 | one child not seen yet is visited and, if it is a namespace, walked |
| HeaderWalk.Walker.Walk | compiler/tools/gen_cpp_layout_test.py:457-478 | terminates on every finite graph; every namespace seen is gone through except those whose walk is still open |
| HeaderWalk.Walker.Visit | compiler/tools/gen_cpp_layout_test.py:459-477 | one cursor is marked and, by its kind, emitted, collected or entered |
| HeaderWalk.Walker.CollectDmdNamespace | compiler/tools/gen_cpp_layout_test.py:449-453 | appends the functions of the block that are declared in the headers, in order |
| HeaderWalk.FunctionsAreExact | compiler/tools/gen_cpp_layout_test.py:449-453 | exactly the children that are function declarations in the headers, defined or not |
| HeaderWalk.FunctionsAreCounted | compiler/tools/gen_cpp_layout_test.py:449-453 | each of them once |
| HeaderWalk.FunctionsInOrder | compiler/tools/gen_cpp_layout_test.py:449-453 | in the order of the children |
| HeaderWalk.CollectedIsExact | compiler/tools/gen_cpp_layout_test.py:449-453 | what is collected from a list of blocks is what they have |
| HeaderWalk.CollectedConcatenates | compiler/tools/gen_cpp_layout_test.py:447-453 | block by block, in the order of the blocks |
| HeaderWalk.RootChildReachable | compiler/tools/gen_cpp_layout_test.py:457-459 | every child of the translation unit is reached |
| HeaderWalk.ReachableChild | compiler/tools/gen_cpp_layout_test.py:464-477 | and every child of a reachable namespace, in the headers or not |
| HeaderWalk.ClosedSetContains | compiler/tools/gen_cpp_layout_test.py:457-477 | a set of cursors closed under the walk's steps contains everything reachable |
| HeaderWalk.SelectionIsExact | compiler/tools/gen_cpp_layout_test.py:470-477 | what is emitted and collected from a list of visits is exactly what qualifies, without duplicates |
| HeaderWalk.DoneAfterVisit | compiler/tools/gen_cpp_layout_test.py:459-477 | marking a cursor opens at most one namespace that is still to be walked |
| ArrayCapacity.ReserveMakesRoom | compiler/include/dmd/root/array.h:83-119 | reserve leaves room for nentries more if and only if the new capacity fits 32 bits, and then never shrinks capacity |
| ArrayCapacity.DimensionIsReached | compiler/include/dmd/root/array.h:149-156 | setDim reaches the dimension asked for, with room for it, if and only if growth to it fits 32 bits |
| ArrayCapacity.SettableIsSound | compiler/include/dmd/root/array.h:149-156 | after setDim the truncated length is within the truncated capacity, and the storage is where data() looks for it, if and only if the dimension fits, or lies beyond 32 bits and leaves a capacity above 1 |
| ArrayCapacity.ReservableIsSound | compiler/include/dmd/root/array.h:83-119 | reserve leaves a sound array if and only if its buffer is sound and the elements still fit |
| ArrayCapacity.LargestSingleGrowth | compiler/include/dmd/root/array.h:112-115 | growing a full array by one fits 32 bits exactly up to length 2863311530 |
| ArrayCapacity.GrowthIsPaidFor | compiler/include/dmd/root/array.h:83-119 | one addition costs at most 4 copies, counted with a potential that covers the floor in length / 2 |
| ArrayCapacity.AmortisedCost | compiler/include/dmd/root/array.h:72-119 | in any run from a constructed or zero-filled array, n single additions with any pops, removes and stores copy at most 4n elements |
| ArrayCapacity.AdditionsAreCounted | compiler/include/dmd/root/array.h:72-147 | the additions of a history are the steps that grow the array, each counted once |
| ArrayCapacity.PeakIsGreatest | compiler/include/dmd/root/array.h:72-156 | the peak is the length at some point of the history and the greatest one |
| ArrayCapacity.GrowthIsModest | compiler/include/dmd/root/array.h:110-116 | capacity after growth is at most 1.5 times the new length |
| ArrayCapacity.GrowthIsGenerous | compiler/include/dmd/root/array.h:110-116 | and at least 1.5 times the old length, rounded down |
| ArrayCapacity.CapacityBound | compiler/include/dmd/root/array.h:83-156 | in any run without explicit reserve, 2 * allocated <= max(2, 3 * peak length) |
| BlockHeap.Heap.Realloc | compiler/include/dmd/root/array.h:116 | xrealloc as allocation, copy and free: the old block is gone, the new one starts with as much of its contents as fits |
| GrowableArray.Array.constructor | compiler/include/dmd/root/array.h:33-37 | an empty array with one inline cell and no block |
| GrowableArray.Array.Zeroed | compiler/include/dmd/root/array.h:88-100 | the zero-filled header is an empty array of capacity 0 |
| GrowableArray.Array.Destroy | compiler/include/dmd/root/array.h:39-43 | frees the block the array owns, if any, and nothing else |
| GrowableArray.Array.MoveToHeap | compiler/include/dmd/root/array.h:98-106 | leaving the inline storage keeps the element that shares the union with the pointer |
| GrowableArray.Array.Reserve | compiler/include/dmd/root/array.h:83-119 | makes room and keeps the contents, in all four branches, where the new capacity fits 32 bits; where it is truncated, keeps what it has room for; touches no other array's block |
| GrowableArray.Array.Push | compiler/include/dmd/root/array.h:72-76 | appends one element |
| GrowableArray.Array.Append | compiler/include/dmd/root/array.h:78-81 | appends another array's elements; an array appended to itself is doubled even when its storage moves |
| GrowableArray.Array.Remove | compiler/include/dmd/root/array.h:121-126 | removes element i and keeps the order of the others |
| GrowableArray.Array.InsertArray | compiler/include/dmd/root/array.h:128-139 | prefix, inserted elements, suffix; a null argument changes nothing |
| GrowableArray.SelfInsertOverlaps | compiler/include/dmd/root/array.h:134-136 | the cells that the memcpy of a self-insert reads and those it writes are apart, as memcpy demands, if and only if the index is the length or the array is empty |
| GrowableArray.MemmoveWouldInsert | compiler/include/dmd/root/array.h:132-136 | opening the gap leaves the array's own cells alone, and a memmove in place of the memcpy would give prefix, elements, suffix at any index |
| GrowableArray.Array.Insert | compiler/include/dmd/root/array.h:141-147 | inserts one element at an index |
| GrowableArray.Array.SetDim | compiler/include/dmd/root/array.h:149-156 | sets the length to the dimension truncated to 32 bits and keeps the common prefix, wherever the result is sound; what a growing one exposes is open |
| GrowableArray.Array.Find | compiler/include/dmd/root/array.h:158-166 | the first index of the element, or SIZE_MAX exactly when it does not occur |
| GrowableArray.Array.Contains | compiler/include/dmd/root/array.h:168-171 | membership |
| GrowableArray.Array.Get | compiler/include/dmd/root/array.h:173-179 | the element at an index |
| GrowableArray.Array.Copy | compiler/include/dmd/root/array.h:186-192 | a new array with the same elements and blocks of its own |
| GrowableArray.Array.Shift | compiler/include/dmd/root/array.h:194-200 | inserts at the front |
| GrowableArray.Array.Zero | compiler/include/dmd/root/array.h:202-205 | all elements become zero bytes |
| GrowableArray.Array.Pop | compiler/include/dmd/root/array.h:207-210 | takes off the last element |
| GrowableArray.Array.OtherKept | compiler/include/dmd/root/array.h:19-28 | whatever one array does leaves every other array's contents and blocks as they were |
| ArrayRuns.AgreesAfter | compiler/include/dmd/root/array.h:72-210 | each operation on memory that agrees with a plain sequence agrees with the same operation on the sequence |
| ArrayRuns.PlainAdditions | compiler/include/dmd/root/array.h:72-76 | the plain meaning of push, insert and shift: where the new element stands, and that the others keep their order |
| ArrayRuns.PlainRemovals | compiler/include/dmd/root/array.h:121-126 | removing undoes inserting, and popping takes off the last |
| ArrayRuns.PlainChanges | compiler/include/dmd/root/array.h:173-205 | assigning changes one element, zeroing all |
| ArrayRuns.PlainSizes | compiler/include/dmd/root/array.h:149-156 | reserving changes nothing, setting the dimension keeps the common prefix |
| ArrayRuns.StepMeaning | compiler/include/dmd/root/array.h:72-210 | each operation changes the one array it is applied to, or adds one |
| ArrayRuns.RunsCompose | compiler/include/dmd/root/array.h:72-210 | a run does its operations one after another |
| ArrayRuns.EnabledOnOne | compiler/include/dmd/root/array.h:72-210 | which operations on one array a run may do: all but those with an index out of range or a capacity that wraps badly |
| ArrayRuns.EnabledSizes | compiler/include/dmd/root/array.h:83-192 | setDim and reserve exactly where they leave the array sound; copying and destroying always |
| ArrayRuns.EnabledOnTwo | compiler/include/dmd/root/array.h:78-139 | and on two: a self-insert at the end only |
| ArrayRuns.Pool.PoolKept | compiler/include/dmd/root/array.h:33-119 | an operation on one array keeps every live block with exactly one live owner |
| ArrayRuns.Pool.Run | compiler/include/dmd/root/array.h:21-210 | after any run over any arrays every live array holds what the same run makes of plain sequences, and live blocks and live heap arrays correspond |
| ArrayRuns.Pool.HoldsItems | compiler/include/dmd/root/array.h:21-28 | a live array of a pool has the length and, wherever they are defined, the elements of its plain counterpart |
| ArrayRuns.Pool.StorageIsExact | compiler/include/dmd/root/array.h:21-43 | a live array owns a block of its capacity exactly when that exceeds the inline one |
| ArrayRuns.Pool.NoSharedBlock | compiler/include/dmd/root/array.h:33-43 | no two live arrays share a block |
| ArrayRuns.Pool.EveryBlockIsOwned | compiler/include/dmd/root/array.h:33-43 | each live block belongs to a live array |
| ArrayRuns.Pool.CopyIsEnabled | compiler/include/dmd/root/array.h:186-192 | a live array can always be copied |
| ArrayRuns.Pool.CostOfArray | compiler/include/dmd/root/array.h:72-119 | the cost and capacity bounds hold of each array of a pool for its own history |
| ArrayRuns.Pool.NothingLeaks | compiler/include/dmd/root/array.h:39-43 | when a run has destroyed all arrays, each block ever allocated has been freed exactly once |
| ArrayText.FitsExactlyWhenNonEmpty | compiler/include/dmd/root/array.h:45-70 | the text fits the computed buffer if and only if the array is not empty, and then fills it exactly |
| ArrayText.EmptyArrayOverflows | compiler/include/dmd/root/array.h:48-67 | the empty array: 3 characters stored, 2 computed |
| ArrayText.ElementStands | compiler/include/dmd/root/array.h:56-65 | the text of each element stands where the sizes of those before it put it, behind the bracket or a comma |
| ArrayText.PrintedEnds | compiler/include/dmd/root/array.h:57-67 | the text starts with the bracket and ends with the other one and the terminator |
| ArrayText.ToChars | compiler/include/dmd/root/array.h:45-70 | the buffer holds the bracketed, comma-joined texts and the terminator, every store within bounds |
| Rotation.RotateSwaps | druntime/src/etc/valgrind/valgrind.h:275-277 | rotating a word by k exchanges its upper k bits with the rest |
| Rotation.RotationsAddUp | druntime/src/etc/valgrind/valgrind.h:275-277 | any sequence of rotations adds its counts modulo the width, and is the identity if they add up to a multiple of it |
| Rotation.RightUndoesLeft | druntime/src/etc/valgrind/valgrind.h:713-715 | rotating to the right, bit by bit, undoes rotating to the left |
| Rotation.RightRotationsAddUp | druntime/src/etc/valgrind/valgrind.h:713-715 | rotations to the right whose counts add up to full turns are the identity |
| Rotation.Preambles32AreIdentity | druntime/src/etc/valgrind/valgrind.h:713-715 | the 32-bit preambles, to the left or to the right, leave every word alone |
| Rotation.Preambles64AreIdentity | druntime/src/etc/valgrind/valgrind.h:781-783 | the 64-bit preambles, in either order of the last counts, leave every word alone |
| Machine.PreambleIsNop | druntime/src/etc/valgrind/valgrind.h:416-418 | on x86 and amd64 the preamble is the identity on every machine state |
| Machine.MarkedText | druntime/src/etc/valgrind/valgrind.h:416-434 | the text that Valgrind looks for: the four rotations and an exchange of a register with itself |
| Machine.NativeRequestReturnsDefault | druntime/src/etc/valgrind/valgrind.h:420-440 | a native client request changes nothing and returns the default, as the NVALGRIND form does |
| Machine.AndMaskAligns | druntime/src/etc/valgrind/valgrind.h:1242-1747 | the and-masks of both alignments, 32 and 64 bits wide, round down to a multiple of 16 |
| Machine.AlignRoundsDown | druntime/src/etc/valgrind/valgrind.h:1242-1747 | the alignment instruction gives the greatest multiple of 16 that is not above |
| Machine.RolExchanges | druntime/src/etc/valgrind/valgrind.h:416-418 | a rotate instruction exchanges the upper bits of its register with the rest |
| Machine.Cpu.Execute | druntime/src/etc/valgrind/valgrind.h:1781-1788 | executing a program in place computes its state function |
| CallSequence.MacrosAreGenerated | druntime/src/etc/valgrind/valgrind.h:1249-2208 | each of the 26 macros, x86 and amd64, arity 0 to 12, is an instance of one general text |
| CallSequence.CallIsMarked | druntime/src/etc/valgrind/valgrind.h:2066-2067 | every sequence ends with the load of the target and that text |
| CallSequence.PadAligns | druntime/src/etc/valgrind/valgrind.h:1754-1784 | the pad of any arity covers the red zone and aligns the stack after the pushes |
| CallSequence.PushedArgument | druntime/src/etc/valgrind/valgrind.h:2057-2060 | pushing any number of arguments last to first puts each where it belongs |
| CallSequence.PushedElsewhere | druntime/src/etc/valgrind/valgrind.h:1754-1773 | the pushes write nothing outside the new stack words |
| CallSequence.ExecBefore | druntime/src/etc/valgrind/valgrind.h:2054-2068 | the sequence of any arity runs through to the call state, and its preamble does not disturb the register it rotates, which holds the first argument or the saved stack pointer |
| HiddenCall.AtTheCall | druntime/src/etc/valgrind/valgrind.h:1660-2208 | for any arity: alignment to 16, stack and stack arguments below the red zone, target and arguments in place, red zone and caller's memory unwritten, what is put aside, and the frame pointer set to the CFA operand |
| HiddenCall.AfterTheCall | druntime/src/etc/valgrind/valgrind.h:1731-1749 | after any callee that respects the ABI, stack pointer, frame pointer and all registers not declared trashed are restored |
| HiddenCall.RedZoneSurvives | druntime/src/etc/valgrind/valgrind.h:1754-1773 | a callee that leaves the memory above its stack arguments alone leaves the red zone and all above it alone |
| HiddenCall.HiddenCallContract | druntime/src/etc/valgrind/valgrind.h:1240-2208 | the two together, for each macro and every machine state with room on the stack; the red zone and all above survive the whole sequence unless the callee writes above its stack arguments |
| HiddenCall.Amd64Contract | druntime/src/etc/valgrind/valgrind.h:1660-2208 | the contract of each amd64 macro with registers, offsets and the red zone written out |
| HiddenCall.X86Contract | druntime/src/etc/valgrind/valgrind.h:1240-1654 | the contract of each x86 macro written out |
| HiddenCall.BeginCall | druntime/src/etc/valgrind/valgrind.h:2038-2068 | what is given to a macro is what its target finds, register by register and word by word |
| HiddenCall.FillArgvec | druntime/src/etc/valgrind/valgrind.h:2044-2053 | the argument vector holds target and arguments |
| ComplexDivision.DivIsQuotient | compiler/include/dmd/root/complex_t.h:31-47 | both branches compute x times the conjugate of y over the square of its absolute value |
| ComplexDivision.DivThenMul | compiler/include/dmd/root/complex_t.h:29-47 | (x / y) * y == x for every non-zero y |
| ComplexDivision.MulThenDiv | compiler/include/dmd/root/complex_t.h:29-47 | (x * y) / y == x for every non-zero y |
| ComplexDivision.ScalingBound | compiler/include/dmd/root/complex_t.h:33-43 | the ratio is at most 1 and the denominator between the larger part of y and twice it |
| ComplexDivision.ScaledDenominator | compiler/include/dmd/root/complex_t.h:35-43 | the denominator is never zero for a non-zero y |
| ComplexDivision.MulInjective | compiler/include/dmd/root/complex_t.h:29 | a product determines its other factor |
| ComplexDivision.DivByReal | compiler/include/dmd/root/complex_t.h:58-60 | dividing by a real number divides both parts |
| ComplexDivision.ProductTruth | compiler/include/dmd/root/complex_t.h:29-49 | a product converts to true exactly when both factors do |
| ComplexDivision.MulCommutes | compiler/include/dmd/root/complex_t.h:29 | the product does not depend on the order of its factors |
| ComplexDivision.MulAssociates | compiler/include/dmd/root/complex_t.h:29 | nor on how three of them are grouped |
| ComplexDivision.MulIsProduct | compiler/include/dmd/root/complex_t.h:29 | a real factor scales both parts, the square of I is -1, and a number times its conjugate is the square of its absolute value |
| ComplexDivision.DivSelf | compiler/include/dmd/root/complex_t.h:31-47 | a non-zero number divided by itself is 1 |
| ComplexDivision.AddIsSum | compiler/include/dmd/root/complex_t.h:26-28 | sums form a commutative group, and every number is its real part plus I times its imaginary one |
| ComplexDivision.MulDistributes | compiler/include/dmd/root/complex_t.h:26-29 | products distribute over sums |
| ComplexDivision.DivDistributes | compiler/include/dmd/root/complex_t.h:26-47 | quotients distribute over sums |
| ComplexDivision.SubUndoesAdd | compiler/include/dmd/root/complex_t.h:26-28 | subtraction undoes addition and adds the negated number |
| ComplexDivision.ComparisonsAgree | compiler/include/dmd/root/complex_t.h:49-52 | == is equality, != its opposite, == holds exactly when the difference converts to false, and only zero does |
| SoftLongDouble.OrderIsLexicographic | compiler/include/dmd/root/longdouble.h:88-93 | numeric order of well-formed magnitudes is lexicographic in exponent and mantissa |
| SoftLongDouble.PackedOrder | compiler/include/dmd/root/longdouble.h:88-93 | non-negative numbers compare like their packed ten bytes |
| SoftLongDouble.PackedFields | compiler/include/dmd/root/longdouble.h:88-93 | mantissa in the low 64 bits, exponent in the next 15, sign on top |
| SoftLongDouble.ValueOfFields | compiler/include/dmd/root/longdouble.h:88-93 | the mantissa counts, each step of the exponent doubles except the one from the denormals, and the sign negates |
| SoftLongDouble.UnitsArePowers | compiler/include/dmd/root/longdouble.h:88-93 | powers of two are counted in units of the least denormal, 1 being the encoding with exponent 0x3fff |
| SoftLongDouble.FieldsAreStored | compiler/include/dmd/root/longdouble.h:140-147 | ldouble stores its arguments as far as the fields hold them |
| SoftLongDouble.MaxIsLargest | compiler/include/dmd/root/longdouble.h:230 | LDBL_MAX bounds every finite encoding |
| SoftLongDouble.MinIsLeastNormal | compiler/include/dmd/root/longdouble.h:231 | LDBL_MIN is the least positive normal number |
| SoftLongDouble.EpsilonIsGapAfterOne | compiler/include/dmd/root/longdouble.h:232 | LDBL_EPSILON is the gap between 1 and the next number |
| SoftLongDouble.LimitsBound | compiler/include/dmd/root/longdouble.h:230-232 | the three bounds, for the constants of the header themselves |
| SoftLongDouble.LimitsMatchFormulas | compiler/include/dmd/root/longdouble.h:230-235 | the three limits satisfy the formulas of section 5.2.4.2.2 of C11 in terms of the mantissa digits and the binary exponents |
| DecimalExponents.Bound4932 | compiler/include/dmd/root/longdouble.h:236-237 | 10^4932 lies between 13352 and 14653 times 2^16370 |
| DecimalExponents.MaxDecimalExponent | compiler/include/dmd/root/longdouble.h:236 | 10^k is at most LDBL_MAX if and only if k is at most LDBL_MAX_10_EXP |
| DecimalExponents.MinDecimalExponent | compiler/include/dmd/root/longdouble.h:237 | 10^-k is at least LDBL_MIN if and only if k is at most 4931, so LDBL_MIN_10_EXP is outside the normal range |
| DecimalExponents.HeaderDecimalExponents | compiler/include/dmd/root/longdouble.h:230-237 | the two, for the constants of the header themselves |
| SoftLongDouble.DigitsFit | compiler/include/dmd/root/longdouble.h:229 | LDBL_DIG is the greatest q with 10^q <= 2^63 |
| SoftLongDouble.NegNegates | compiler/include/dmd/root/longdouble.h:173 | unary minus negates the value and is its own inverse |
| SoftLongDouble.NegFlipsTopBit | compiler/include/dmd/root/longdouble.h:173 | unary minus flips the sign bit and nothing else, of zero as well |
| SoftLongDouble.TruthIsNonZero | compiler/include/dmd/root/longdouble.h:134 | conversion to bool is right about a finite number exactly when it is not a zero mantissa under a non-zero exponent |
| SoftLongDouble.FalseEncodings | compiler/include/dmd/root/longdouble.h:134 | only the two encodings of zero convert to false, whatever the exponent means |
| SoftLongDouble.UnnormalZeroIsTrue | compiler/include/dmd/root/longdouble.h:134 | such a number: zero in value, true as a bool |

## Left out

- Multiple inheritance: the layout code itself stops at the first base.
- The table of a class on a cycle of bases: only termination is proved, because the table then depends on where the computation started.
- Field offsets, sizes, enum members and the text of the emitted D asserts, and the skip lists for headers and types.
- libclang, ctypes, subprocesses and file output; cursors are given data.
- Operations after which a wrapped capacity leaves the array unsound: they require that it does not, which is `Fits` for insertions (past it they write outside the buffer, by `ReserveMakesRoom`), `Settable` for `setDim` and `Reservable` for `reserve`; each is proved to be the exact condition.
- 32-bit hosts, where the byte count of an allocation may overflow as well.
- Elements with destructors or `toChars` of their own; an element is a value and, for printing, its text.
- Valgrind's reaction to requests and marked calls; the hidden call is any callee that respects the ABI.
- The CFI directives, which assemble to no instruction, and condition flags.
- The call sequences of other processors, which repeat the idea; the preambles of the MIPS family, which write a register that is always zero; and that of s390x, which moves registers to themselves.
- Unaligned and partial-word memory accesses, which the sequences do not make.
- `VG_USERREQ_TOOL_BASE`: two shifts and masks.
- Floating-point rounding, infinities and NaN in the complex type; division by zero has no exact-real meaning.
- `ld_*` arithmetic and conversions, implemented in a D file that is not part of this model.
- Assignment to the fields of `longdouble_soft` variables in place; its operators pass by value and are functions here.
- The declaration-only headers and `visitor.h`.
