# SSA register word and instruction set of the frugal JIT

This project models the core of the SSA intermediate representation in
`internal/atm/ssa/ir.go` and proves properties of that model.

**Registers.** A register (`Reg`) is a packed 64-bit word:
- bit 63 is the pointer flag;
- bits 59–62 are the kind;
- bits 0–58 are the index.

The model treats the word as a `bv64`. It covers:
- the kind constants and the four fixed registers `Rz`, `Pn`, `Tr` and `Pr`;
- the constructor `mkreg`, which panics for any kind above 7;
- the accessors `Ptr`, `Index` and `kind`;
- the transformations `zero`, `rename` and `normalize`;
- `Reg.String`, with the architecture register-name table as a parameter.

**Instructions.** The fifteen instruction variants form one closed datatype `IrNode`.
- Each variant reports the register slots it reads (`Usages`) and the slots it writes (`Definations`).
- The Go code returns pointers into the instruction, so a renaming pass can write through them. The model expresses such a write as `WithUsage`/`WithDefinition`: an instruction that differs from the original in exactly that slot. `Nodes.Instr` is a mutable cell that holds an instruction and performs those writes in place.

**Phi nodes and terminators.**
- A phi node lists its source registers by ascending predecessor block id. It sorts a pair of parallel arrays (`_PhiSorter`) in place to do so.
- A switch builds a table of its cases sorted by value, followed by the default branch. It exposes that table through a stateful cursor (`_SwitchSuccessors`).
- A return has no successors (`_EmptySuccessor`).

**Text.** The printers of the phi, switch, return and call instructions are modelled, including:
- the receiver check in `IrCall.String`;
- the panics raised by an unknown architecture register.

Go panics become the `Panic` case of a `Result`. Basic blocks are integer ids.

Design notes:
- `mkreg` rejects every kind above 7, including 12–15. The fixed registers `Rz`/`Pn`/`Tr`/`Pr` and `normalize` set those kinds with bit operations, never through `mkreg`.
- The receiver/call-type check is made only when a call is printed (`IrCall.String`), not when a call is built.
- Calling `Block`/`Value` on a switch cursor before the first `Next` indexes position −1 of the table, which is a Go runtime panic. The model keeps that call possible and returns `Panic(IndexOutOfRange(-1))` rather than forbidding it with a precondition.

Files:
- `basics.dfy`: `Option`, `Result` and the panic reasons.
- `registers.dfy`: the register word.
- `ordering.dfy`: ascending enumeration of a finite set of ids.
- `ir.dfy`: the instructions and their read/write slots.
- `phi.dfy`: the phi sorter and `IrPhi.Usages`.
- `switch.dfy`: the switch table and the successor cursors.
- `nodes.dfy`: in-place slot writes.
- `text.dfy`: `%d` and `strings.Join`.
- `render.dfy`: the printers.

## Model

| member | source | states |
|---|---|---|
| Registers.Ptr | internal/atm/ssa/ir.go:80-82 | a register is a pointer exactly when the top bit (bit 63) of its word is set |
| Registers.PtrBit | internal/atm/ssa/ir.go:80-82 | the pointer flag is bit 63: the extracted bit is 0 or 1, and it is 1 exactly when `Ptr` holds |
| Registers.Index | internal/atm/ssa/ir.go:84-86 | the index is the low 59 bits, never above `2^59-1` |
| Registers.Kind | internal/atm/ssa/ir.go:144-146 | the kind is the 4-bit field at bits 59–62, so it is at most 15 |
| Registers.MkReg | internal/atm/ssa/ir.go:64-70 | succeeds exactly when kind ≤ 7, otherwise panics with "invalid register kind" carrying that kind; a built register reads back as pointer bit `ptr & 1`, that kind and index 0 |
| Registers.Zero | internal/atm/ssa/ir.go:136-142 | the zero register keeps the pointer flag, has the zero kind and index 0 |
| Registers.Rename | internal/atm/ssa/ir.go:148-150 | keeps pointer flag and kind, sets the index to `i` masked to 59 bits |
| Registers.Normalize | internal/atm/ssa/ir.go:152-154 | keeps the pointer flag, forces kind 15 whatever the prior kind, sets the index to `i` masked to 59 bits |
| Registers.UnpackPack | internal/atm/ssa/ir.go:28-53 | packing a pointer bit, kind and index and reading the three fields back returns them unchanged |
| Registers.PackUnpack | internal/atm/ssa/ir.go:28-53 | every 64-bit word is the packing of its own three fields |
| Registers.FieldsDetermine | internal/atm/ssa/ir.go:80-86 | two registers are equal iff their pointer flag, kind and index are equal (no two field triples alias) |
| Registers.MkRegIsPack | internal/atm/ssa/ir.go:64-70 | for a valid kind, `mkreg` is the packing of `ptr & 1`, the kind and index 0 |
| Registers.RenameLastWins | internal/atm/ssa/ir.go:148-150 | renaming twice equals renaming once with the second index; the same rename twice equals it once |
| Registers.NormalizeLastWins | internal/atm/ssa/ir.go:152-154 | normalizing twice equals normalizing once with the second index; `normalize` is idempotent |
| Registers.RenameOfNormalized | internal/atm/ssa/ir.go:148-154 | renaming a normalized register equals normalizing with the new index |
| Registers.ZeroFixedPoints | internal/atm/ssa/ir.go:136-142 | `Rz.zero() == Rz`, `Pn.zero() == Pn`, `zero` is idempotent, and it yields `Pn` exactly for pointer registers and `Rz` exactly for the others |
| Registers.ConstantsDecode | internal/atm/ssa/ir.go:54-62 | `Rz`/`Pn` are the non-pointer and pointer zero-kind registers with index 0, `Tr`/`Pr` the non-pointer and pointer temporaries with index 0 |
| Ordering.Ascending | internal/atm/ssa/ir.go:238-251 | reference order for sorting by id: the ids of a finite set, strictly increasing, each once, all of them |
| Ordering.AscendingUnique | internal/atm/ssa/ir.go:249 | any strictly increasing listing of exactly a set's ids is that set's ascending order, so the sort's result does not depend on map iteration order |
| Ordering.DistinctCovers | internal/atm/ssa/ir.go:243-246 | a duplicate-free list of members of a set, as long as the set, lists every member |
| Ir.IsTerminator | internal/atm/ssa/ir.go:263-270 | only switch and return implement `IrTerminator`; a terminator reads registers and writes none |
| Ir.HasUsages | internal/atm/ssa/ir.go:177-180 | the variants implementing `IrUsages`: phi, switch, return, load, store, LEA, unary, binary, bit-test-set, call and write barrier |
| Ir.HasDefinitions | internal/atm/ssa/ir.go:182-185 | the variants implementing `IrDefinations`: phi, load, load-arg, the two constants, LEA, unary, binary, bit-test-set and call |
| Ir.PhiBlocks | internal/atm/ssa/ir.go:238-251 | the predecessor block ids of a phi, strictly ascending, one per map entry and covering every entry |
| Ir.PhiSources | internal/atm/ssa/ir.go:238-251 | one source register per map entry; the j-th is the map's register for the j-th block in ascending order |
| Ir.SwitchValues | internal/atm/ssa/ir.go:309-330 | the case values of a switch, strictly ascending, one per entry of `Br` and covering every entry |
| Ir.ReceiverRegs | internal/atm/ssa/ir.go:689-695 | a call's receiver contributes two read slots when present and none when absent |
| Ir.Usages | internal/atm/ssa/ir.go:238-712 | the read slots of each variant; variants without a `Usages` method read nothing; a phi reads one slot per predecessor |
| Ir.Definitions | internal/atm/ssa/ir.go:253-699 | the written slots of each variant; variants without a `Definations` method write nothing |
| Ir.PhiSourcesDetermine | internal/atm/ssa/ir.go:238-251 | two phis over the same blocks with the same ordered sources have the same map: the ordered list is a faithful view of the map |
| Ir.CallUsagesDetermine | internal/atm/ssa/ir.go:689-695 | with receiver presence fixed, the read slots of a call determine its receiver and its inputs |
| Ir.SlotsDetermine | internal/atm/ssa/ir.go:177-185 | an instruction is determined by its shape (`Erase`) together with its read and written slots: the slots reach every register field |
| Ir.PhiWithSource | internal/atm/ssa/ir.go:238-251 | writing through the k-th phi usage replaces exactly the k-th ordered source, keeping the result register and the predecessor set |
| Ir.PhiWriteOneSource | internal/atm/ssa/ir.go:243-250 | updating the map entry of the k-th block in ascending order changes exactly the k-th ordered source |
| Ir.BlocksDistinct | internal/atm/ssa/ir.go:249 | distinct positions of the sorted phi list hold distinct block ids |
| Ir.CallWithUsage | internal/atm/ssa/ir.go:689-695 | writing the k-th usage of a call changes exactly that position of receiver-then-inputs and leaves the outputs and shape alone |
| Ir.WithUsage | internal/atm/ssa/ir.go:177-180 | writing the k-th read slot: the usages become the old ones with position k replaced, definitions and shape unchanged |
| Ir.WithDefinition | internal/atm/ssa/ir.go:182-185 | writing the k-th written slot: the definitions become the old ones with position k replaced, usages and shape unchanged |
| Ir.WithUsageIsUnique | internal/atm/ssa/ir.go:177-180 | any instruction of the same shape whose slots differ only at usage k is `WithUsage`: the write touches nothing else |
| Ir.WithDefinitionIsUnique | internal/atm/ssa/ir.go:182-185 | any instruction of the same shape whose slots differ only at definition k is `WithDefinition` |
| Ir.WriteBackIsIdentity | internal/atm/ssa/ir.go:177-180 | writing a slot leaves the instruction unchanged iff the slot already held that register |
| Ir.IrCopy | internal/atm/ssa/ir.go:591-598 | a copy is an addition that reads `[v, Rz]` and writes `[r]` |
| PhiSort.PhiSorter.Len | internal/atm/ssa/ir.go:192-194 | the number of pairs, equal to the length of both parallel arrays |
| PhiSort.PhiSorter.Less | internal/atm/ssa/ir.go:201-203 | orders positions by block id, strictly: never a position before itself, nor before another position with the same id |
| PhiSort.PhiSorter.Swap | internal/atm/ssa/ir.go:196-199 | swaps positions i and j in both the id array and the register array, and nothing else |
| PhiSort.InsertBlock | internal/atm/ssa/ir.go:249 | one sorting step: permutes both arrays and extends the sorted prefix by one, while the ids stay distinct and each id stays paired with its own register |
| PhiSort.SortByBlock | internal/atm/ssa/ir.go:249 | `sort.Sort`: both arrays end as permutations of their old contents, the ids strictly increasing and every id still paired with its map register |
| PhiSort.DumpSources | internal/atm/ssa/ir.go:239-246 | collects every map entry once into two parallel arrays of the map's size, with distinct ids paired with their registers |
| PhiSort.SortedPairsAreSources | internal/atm/ssa/ir.go:238-251 | a strictly increasing, correctly paired listing of the whole map is exactly the ascending blocks and their sources |
| PhiSort.SortedPairs | internal/atm/ssa/ir.go:213-223 | the (block, register) pairs of a phi sorted by block id are `PhiBlocks` and `PhiSources` |
| PhiSort.PhiUsages | internal/atm/ssa/ir.go:238-251 | the usages of a phi are its source registers ordered by ascending predecessor id, whatever the map order |
| Switches.SwitchTargets | internal/atm/ssa/ir.go:309-337 | the table has one entry per case plus one; the cases come first, strictly ascending by value, each mapped to its `Br` block; the last entry is `(0, Ln)` |
| Switches.TargetsCover | internal/atm/ssa/ir.go:313-319 | every case of `Br` appears among the table's case entries |
| Switches.SortedCasesAreTargets | internal/atm/ssa/ir.go:309-337 | any table of the cases sorted by value followed by the default is the table `SwitchTargets` (so it does not depend on map order) |
| Switches.DumpTargets | internal/atm/ssa/ir.go:310-325 | fills a fresh array with every case of `Br` once and then the default branch |
| Switches.InsertCase | internal/atm/ssa/ir.go:328-330 | one sorting step over the case prefix: permutes the table, extends the sorted prefix by one, keeps the table a listing of the cases, leaves the default entry alone |
| Switches.SortCases | internal/atm/ssa/ir.go:328-330 | `sort.Slice(t[:n], …)`: the first `n` entries end as a permutation of their old contents, sorted by value and still the cases of `Br`; the default entry is untouched |
| Switches.SwitchSuccessors.constructor | internal/atm/ssa/ir.go:333-336 | a fresh cursor holds the table and stands before the first entry (`i == -1`) |
| Switches.SwitchSuccessors.Next | internal/atm/ssa/ir.go:282-285 | advances the position by one and reports whether it is still inside the table |
| Switches.SwitchSuccessors.Block | internal/atm/ssa/ir.go:287-293 | the block of the current entry; nil past the end; an index panic before the first `Next` |
| Switches.SwitchSuccessors.Value | internal/atm/ssa/ir.go:295-301 | `(value, true)` on a case entry, `(0, false)` on the default entry and past it; an index panic before the first `Next` |
| Switches.Iter | internal/atm/ssa/ir.go:309-337 | builds a fresh cursor over `SwitchTargets` at position −1; the switch is a value and is not changed |
| Switches.EmptySuccessor.Next | internal/atm/ssa/ir.go:376 | always false |
| Switches.EmptySuccessor.Block | internal/atm/ssa/ir.go:377 | always nil |
| Switches.EmptySuccessor.Value | internal/atm/ssa/ir.go:378 | always `(0, false)` |
| Switches.TerminatorSuccessors | internal/atm/ssa/ir.go:371-373 | only terminators have successors: a switch yields its cursor over its table, a return the empty successor |
| Switches.EdgesOf | internal/atm/ssa/ir.go:282-301 | what a cursor yields for a table: one edge per entry, each with that entry's block, with a value exactly on entries before the last |
| Switches.SwitchEdges | internal/atm/ssa/ir.go:309-337 | a switch yields `len(Br)+1` edges: the cases in strictly ascending value order, each with its value and `Br` block, every case among them, then `(Ln, no value)` |
| Switches.SuccessorEdges | internal/atm/ssa/ir.go:404-406 | a return yields no edges; a switch yields `len(Br)+1` |
| Switches.SwitchEdgesDetermine | internal/atm/ssa/ir.go:303-337 | two switches with the same edges have the same default and the same case map: the edge list loses nothing |
| Switches.Drain | internal/atm/ssa/ir.go:282-301 | calling `Next` until it fails and reading `Block`/`Value` each time collects exactly `EdgesOf` the table and leaves the cursor past the end |
| Switches.CollectSuccessors | internal/atm/ssa/ir.go:371-373 | walking the successors of a terminator collects exactly `SuccessorEdges` |
| Render.Sigil | internal/atm/ssa/ir.go:126-132 | pointer registers print with `%p`, others with `%r` |
| Render.FieldsText | internal/atm/ssa/ir.go:88-134 | printing fails exactly for an architecture register whose index is outside the name table, with that index in the panic; otherwise an architecture register prints as `%` and its name |
| Render.RegString | internal/atm/ssa/ir.go:88-134 | `Reg.String` panics exactly for an architecture register beyond the table, with that index; an in-range architecture register prints as `%` and its name |
| Render.FieldsTextShape | internal/atm/ssa/ir.go:107-133 | a non-architecture register always prints, in the form its kind selects (`nil`/`$0`, `%tp`/`%tr` with digits, `%p`/`%r` with digits, or with kind.index) |
| Render.RegStringDistinguishes | internal/atm/ssa/ir.go:88-134 | two non-architecture registers that print alike have the same pointer flag and kind, and the same index unless they are zero registers |
| Render.RegStringInjective | internal/atm/ssa/ir.go:88-134 | a register that is neither architecture nor zero prints differently from every other non-architecture register |
| Render.ZeroRegistersPrintAlike | internal/atm/ssa/ir.go:107-114 | a zero-kind register prints as `nil` when it is a pointer and `$0` otherwise, the same as its `zero()` |
| Render.FmtReg | internal/atm/ssa/ir.go:227 | `%s` of a register prints its text when `String` succeeds |
| Render.Collect | internal/atm/ssa/ir.go:388-391 | a loop that stops at the first panic: succeeds iff every element succeeds, with their values in order, otherwise reports the first panic |
| Render.RegStrings | internal/atm/ssa/ir.go:388-391 | the texts of a register list: success iff every register prints, each text is that register's, and a failure is an architecture-index panic |
| Render.RenderRegs | internal/atm/ssa/ir.go:388-391 | the loop over the registers computes `RegStrings` |
| Render.PhiEntries | internal/atm/ssa/ir.go:225-228 | one `bb_<id>: <reg>` entry per map entry, in ascending block order |
| Render.PhiEntriesFollowUsages | internal/atm/ssa/ir.go:210-251 | the j-th printed phi entry names the j-th block and the j-th usage, so `String` lists entries in the same order as `Usages` |
| Render.PhiString | internal/atm/ssa/ir.go:210-236 | printing a phi computes `PhiText`: `<R> = φ(...)` over the sorted entries |
| Render.SwitchLinesSorted | internal/atm/ssa/ir.go:348-357 | a switch prints one line per case in ascending value order, each with that case's value and block, then the default line |
| Render.SwitchWithoutCasesIsGoto | internal/atm/ssa/ir.go:343-346 | a switch prints as a `goto` exactly when it has no cases, and then as `goto bb_<Ln>` |
| Render.SwitchString | internal/atm/ssa/ir.go:339-365 | printing a switch computes `SwitchText` |
| Render.ReturnText | internal/atm/ssa/ir.go:384-398 | a return prints iff every returned register prints; otherwise the architecture-index panic propagates |
| Render.ReturnString | internal/atm/ssa/ir.go:384-398 | the loop that prints a return computes `ReturnText` |
| Render.CallText | internal/atm/ssa/ir.go:643-687 | printing a call panics with "invalid receiver" exactly when receiver presence disagrees with the interface call type; it succeeds iff the receiver agrees and every input and output register prints |
| Render.CallString | internal/atm/ssa/ir.go:643-687 | the loops that print a call compute `CallText` |
| Nodes.Instr.SetUsage | internal/atm/ssa/ir.go:177-180 | storing through the k-th usage pointer changes the held instruction to `WithUsage`: that slot only |
| Nodes.Instr.SetDefinition | internal/atm/ssa/ir.go:182-185 | storing through the k-th definition pointer changes the held instruction to `WithDefinition`: that slot only |

## Left out

- `Rv` (ir.go:72-78) is not modelled. It converts `hir` register types, and the `hir` package is not part of this model.
- The architecture register tables `ArchRegs`/`ArchRegNames` are defined outside this file. They are the parameter `arch` (the name of each physical register by index).
- The `String` methods of Load, Store, LoadArg, ConstInt, ConstPtr, LEA, UnaryExpr, BinaryExpr, BitTestSet, WriteBarrier and Breakpoint, and of the unary and binary operator enums, are not modelled. They are plain formatting and carry no invariant.
- The `%p` address printed for a ConstPtr is not modelled. It is a machine address.
- `hir.CallHandle` is reduced to its call type, slot number and function name. `Fn.String()` is modelled as that name.
- The "invalid call type" default panic of `IrCall.String` cannot occur in the model, because `CallType` is a closed datatype of the three call types.
- Basic blocks are integer ids.
  - Phi maps and switch tables are keyed by id rather than by block pointer.
  - Two distinct blocks with the same id cannot both appear in one phi map.
- Shared storage between register slots is not modelled. The model stores registers by value, so a write through one slot never changes another slot or another instruction. In Go that holds only when nothing is shared, and these fields can be shared:
  - `IrPhi.V` maps to `*Reg` pointers, and two entries can hold the same pointer (ir.go:207).
  - `IrCall.Rx` is a `*IrReceiver` (ir.go:638), and two calls can point at the same receiver.
  - `IrCall.In`, `IrCall.Out` and `IrReturn.R` are slices (ir.go:639-640, 381). They can share a backing array, within one call or across instructions.
- Ir.WithUsage, Ir.WithDefinition, Nodes.Instr.SetUsage, Nodes.Instr.SetDefinition: their "only that slot changes" holds for the Go code only when none of the shared storage just listed is shared.
- Go iterates maps in an unspecified order. `DumpSources` and `DumpTargets` pick an arbitrary order, and every property holds for every order.
- `sort.Sort` and `sort.Slice` are modelled by an insertion sort using the same `Len`/`Less`/`Swap`.
  - Block ids and case values are distinct map keys, so every correct sort gives the same result (`Ordering.AscendingUnique`).
  - Whether a sort is stable therefore does not matter.
- `IrPhi.String` sorts a slice of (id, register) structs with `sort.Slice`. The model reuses the phi sorter for it, which gives the same order.
- Go's `fmt` recovers a panic raised in a `%s` operand's `String` method and prints `%!s(PANIC=String method: …)`; `FmtReg` models this. The direct `.String()` calls in `IrReturn.String` and `IrCall.String` propagate the panic, and `ReturnText` and `CallText` model that.
- Text is a sequence of Unicode code points, not UTF-8 bytes, so `φ` is one character.
- `Ir.Usages`: its own contract states only that variants without a `Usages` method read nothing and that a phi reads one slot per map entry. The per-variant slot order is its definition. `Ir.SlotsDetermine` and `Ir.WithUsage` state what the slots promise.
- `Ir.Definitions`: its own contract states only that variants without a `Definations` method write nothing. The per-variant order is its definition, and it is covered the same way as `Ir.Usages`.
