# ZENEDGE: models and proofs

ZENEDGE is a small kernel with a Linux-side bridge. This project models the parts of it
whose correctness is not visible from one function and proves what they promise. Check
everything with `dafny verify dfyconfig.toml`.

Each component has a specification module (values and functions, with the theorems) and,
where the source works by updating things in place, a class whose methods are proved equal
to those functions on every state.

- `M3Machine`, `WasmSemantics`, `M3Compile`, `M3Correct`, `M3Accepts`, `M3Success`, `M3Alu`,
  `M3Operators`, `M3Compilation`: wasm3's compiler from Wasm's operand stack to slot/register
  code, its target machine, the theorem that compiled functions compute what Wasm defines
  (WebAssembly Core Specification 1.0, sections 4.4.1 to 4.4.3), when a function compiles at
  all, and what the operators compute.
- `M3Moves`: the parallel move at block exits. `CodePages`, `CodeReuse`: code pages and bridges.
  `M3Paged`: compiled code emitted onto those pages and run from them.
  `Leb128`, `WordBits`, `Words`: LEB128 integers (section 5.2.2), bitwise and wrapping words.
- `IpcRing`, `Bridge`: the shared-memory rings as interleaved single-word steps, and the
  kernel and bridge talking over two of them.
- `KheapSpec`, `KheapRuns`, `Kheap`: the kernel heap. `Bitmap`, `PmmSpec`, `PmmAnswers`,
  `PmmRuns`, `PmmBoot`, `Pmm`: physical pages. `VmmSpec`, `VmmLife`, `Vmm`: page tables over
  them. `BlobHeap`, `BlobIds`, `BridgeHeap`: the shared blob heap, each side alone.
- `JobGraph`, `JobEdges`: the job scheduler. `Sha256`, `Div64`: arithmetic kernels.
  `FlightRecorder`, `Contracts`: the event ring and resource contracts.

Where a promised law is false of the code, the code is kept and the exact condition is
proved, in both directions, with a concrete failing case. These are: an unfed `local.tee` is
accepted; `CopyStackSlotsR` saves only the first colliding source; `Compile_Select` and
`PreserveArgsAndLocals` ignore a failed `EmitOp`; the room a branch table asks for wraps in
32 bits; the LEB128 readers ignore unused bits of the last byte; a response that finds its
ring full is dropped; a duplicate step id keeps the scheduler from stopping and can run before what
it waits for, and an id of 2^31 or more stops it early; the page allocator's fallback calls itself for ever without a
run, charges a boundary-crossing run to one node, miscounts overlapping regions, maps
without memory above the first megabyte, low-memory frees and late reservations; its boot mistakes regions and kernels that reach
into the last page below 4 GB; `vmm_map_range` rounds address and size apart and can leave
the last bytes unmapped; destroying
a user directory frees a table in the kernel's entry 0; page mapping takes a 4 MB directory
entry for one that names a table; a blob id of 0 leaks blocks, a full blob table forgets a
blob until a lookup finds it, and a lookup of a freed blob records it again; the bridge's
allocator fails for ever once its ids have run out; the event ring shrinks and contract
violation counts vanish when their counters wrap; size roundings wrap near the word limit. A
payload freed on the bridge's side can look like a blob: there the exact condition is that
of the heap's invariant, and what lookups then answer is proved one way only.

## Model

| member | source | states |
|---|---|---|
| `M3Correct.CompilerPreservesMeaning` | kernel/lib/wasm3/m3_compile.c:2841-2926 | For every signature, every straight-line body of i32 ops that compiles and whose tees have an operand, every reserved constant area and every starting frame: running the emitted code from op_Entry traps exactly when Wasm's stack semantics traps, and otherwise leaves exactly Wasm's results in the return slots and nothing changed above maxStackSlots. |
| `M3Correct.BodyCorrect` | kernel/lib/wasm3/m3_compile.c:2608-2631 | The simulation between compile-time records, machine state and Wasm configuration is kept by every prefix of a body: each stack entry's slot or the register holds its value, each dynamic slot's use count equals the entries naming it, at most one entry owns the register. |
| `M3Correct.OpCorrect` | kernel/lib/wasm3/m3_compile.c:2093-2173 | One compiled op, whatever it is, keeps that simulation with the Wasm step, or both trap. |
| `M3Correct.SimPush` | kernel/lib/wasm3/m3_compile.c:542-570 | Recording an entry in a free slot or the free register keeps use counts and values in agreement. |
| `M3Correct.SimConsume` | kernel/lib/wasm3/m3_compile.c:584-609 | Popping an entry releases its slot or the register and keeps the rest of the simulation. |
| `M3Correct.SimPreserve` | kernel/lib/wasm3/m3_compile.c:474-497 | Spilling the register to a fresh slot changes where the owning entry lives and no value. |
| `M3Correct.ConstCorrect` | kernel/lib/wasm3/m3_compile.c:659-761 | A constant is found in, added to, or inlined beside the constant pool, and the new entry holds its value in each of the three cases. |
| `M3Correct.GetCorrect` | kernel/lib/wasm3/m3_compile.c:1322-1338 | local.get shares the local's slot without code, and the entry holds the local's value. |
| `M3Correct.SimSetReferenced` | kernel/lib/wasm3/m3_exec.h:975-996 | Assigning a local that stack entries still refer to: the preserving copy saves the old value in the slot the entries were redirected to, and their values are unchanged. |
| `M3Correct.FindReferencedFound` | kernel/lib/wasm3/m3_compile.c:932-968 | When some entry names the local's slot, all entries naming it are redirected to one fresh slot whose use count equals their number. |
| `M3Correct.AssignCorrect` | kernel/lib/wasm3/m3_compile.c:1294-1319 | local.set and local.tee leave the value in the local and every other local and entry as it was. |
| `M3Correct.BinaryCorrect` | kernel/lib/wasm3/m3_compile.c:2093-2173 | For all four register/slot placements of the two operands the emitted operator computes the Wasm result or traps with it, using commutativity exactly where the source's table does. |
| `M3Correct.UnaryCorrect` | kernel/lib/wasm3/m3_compile.c:2093-2173 | A unary operator on a register or slot operand yields the Wasm result in the register. |
| `M3Correct.SelectCorrect` | kernel/lib/wasm3/m3_compile.c:1983-2060 | The select form chosen from which operand is in the register picks the operand Wasm picks. |
| `M3Correct.DropCorrect` | kernel/lib/wasm3/m3_compile.c:2063-2067 | drop removes the top entry and touches no value. |
| `M3Correct.CopyResultsCorrect` | kernel/lib/wasm3/m3_compile.c:1105-1147 | The result copies put each result in its own return slot without destroying one still to be copied. |
| `M3Correct.EndCorrect` | kernel/lib/wasm3/m3_compile.c:1269-1290 | end returns with all results of the Wasm stack in the return slots. |
| `M3Correct.OpExtends` | kernel/lib/wasm3/m3_compile.c:542-761 | Compiling an op only appends code and constants, never lowers the high-water mark, and keeps layout and constants already placed. |
| `M3Accepts.AcceptedIffTeesFed` | kernel/lib/wasm3/m3_compile.c:1294-1319 | For every accepted function: no local.tee executes on an empty operand stack if and only if the body is never stuck in Wasm's semantics (local.tee does not check its operand). |
| `M3Accepts.UnfedTeeSticks` | kernel/lib/wasm3/m3_compile.c:1294-1319 | An accepted body with an unfed local.tee is stuck in Wasm's semantics. |
| `M3Accepts.UnfedTeeAccepted` | kernel/lib/wasm3/m3_compile.c:1294-1319 | A concrete function whose only op is an unfed local.tee is accepted. |
| `M3Accepts.BodyTracks` | kernel/lib/wasm3/m3_compile.c:542-609 | The compile-time stack has the height and local types of the Wasm configuration throughout. |
| `M3Success.CompilesIff` | kernel/lib/wasm3/m3_compile.c:542-609 | An opcode compiles if and only if Wasm's configuration has its operands and local (the unchecked operand of local.tee apart) and the record has room for it. Underrun and unknown-local errors mean exactly a missing operand or local; overflow means 2000 stack entries or no dynamic slot of use count 0; a use-count error more than 255 users of the local assigned. |
| `M3Success.FunctionCompilesIff` | kernel/lib/wasm3/m3_compile.c:2841-2926 | Within the limits (an operand height of at most 255, 2000 stack entries and 4000 slots) and with its tees fed, a function compiles if and only if its body runs through and ends with as many operands as the signature has results. |
| `M3Success.BodyCompilesIff` | kernel/lib/wasm3/m3_compile.c:2608-2631 | Within the limits a body compiles if and only if it never gets stuck. |
| `M3Success.BeginIff` | kernel/lib/wasm3/m3_compile.c:2876-2904 | A function whose locals or slots do not fit is refused before its body is read, and no other. |
| `M3Success.AdditionCompiles` | kernel/lib/wasm3/m3_compile.c:2093-2173 | Two constants and an addition compile. |
| `M3Success.ConstIff` | kernel/lib/wasm3/m3_compile.c:659-761 | A constant is refused exactly at the height limit, or when it is neither in the table nor finds room there nor a free slot. |
| `M3Success.AssignIff` | kernel/lib/wasm3/m3_compile.c:1294-1319 | An assignment is refused exactly for an unknown local, or when operands still name the local and no slot is free or more than 255 of them do. |
| `M3Success.UnaryIff` | kernel/lib/wasm3/m3_compile.c:2093-2173 | A unary operator is refused exactly without its operand, or when the register holds a deeper one and no slot is free to save it in. |
| `M3Success.BinaryIff` | kernel/lib/wasm3/m3_compile.c:2093-2173 | The same for two operands. |
| `M3Success.SelectIff` | kernel/lib/wasm3/m3_compile.c:1983-2060 | The same for the three operands of select. |
| `M3Success.OpCosts` | kernel/lib/wasm3/m3_compile.c:659-761 | How many instructions and table constants each opcode adds: reads of locals and of constants in the table are free, and a store precedes an operator only if the register holds a deeper operand. |
| `M3Success.FunctionTight` | kernel/lib/wasm3/m3_compile.c:2901-2914 | The slots asked of op_Entry are no more than the layout has or the code writes. |
| `M3Alu.I32Commutes` | kernel/lib/wasm3/m3_exec.h:125-147 | The operators compiled through the commutative macro are commutative on all 32-bit operands. |
| `M3Alu.CompiledI32` | kernel/lib/wasm3/m3_exec.h:125-147 | The compiler theorem for the concrete i32 operators, with division and remainder traps. |
| `M3Operators.UnsignedArithmeticSpec` | kernel/lib/wasm3/m3_exec.h:204-213 | Add, Sub and Mul give the mathematical result where it fits 32 bits, and subtraction undoes addition. |
| `M3Operators.SignedArithmeticSpec` | kernel/lib/wasm3/m3_exec.h:204-213 | Read as signed numbers, likewise. |
| `M3Operators.UnsignedDivisionSpec` | kernel/lib/wasm3/m3_math_utils.h:156-162 | Unsigned division traps exactly on 0; otherwise n = q*d + r with r below d. |
| `M3Operators.SignedDivisionSpec` | kernel/lib/wasm3/m3_math_utils.h:167-177 | Signed division traps exactly on 0 and for -2^31 / -1, the remainder only on 0; n = q*d + r with r below d in magnitude and of n's sign. |
| `M3Operators.UnsignedComparisonSpec` | kernel/lib/wasm3/m3_exec.h:185-188 | Each unsigned comparison answers 1 or 0 as its name says. |
| `M3Operators.SignedComparisonSpec` | kernel/lib/wasm3/m3_exec.h:179-182 | Signed order is unsigned order after 2^31 is added to both sides. |
| `M3Operators.AndOrXorSpec` | kernel/lib/wasm3/m3_exec.h:220-222 | And, Or and Xor bit by bit. |
| `M3Operators.ShlSpec` | kernel/lib/wasm3/m3_exec.h:216-218 | A left shift by the count mod 32 moves every bit up that far and brings in zeros. |
| `M3Operators.ShrUSpec` | kernel/lib/wasm3/m3_exec.h:216-218 | A logical right shift moves every bit down and brings in zeros. |
| `M3Operators.ShrSSpec` | kernel/lib/wasm3/m3_exec.h:216-218 | An arithmetic right shift brings in copies of the sign bit. |
| `M3Operators.RotlSpec` | kernel/lib/wasm3/m3_math_utils.h:125-129 | Rotating left: bit i comes from bit i - n, round 32. |
| `M3Operators.RotrSpec` | kernel/lib/wasm3/m3_math_utils.h:132-136 | Rotating right: bit i comes from bit i + n, round 32. |
| `M3Operators.RotationsCancel` | kernel/lib/wasm3/m3_math_utils.h:125-136 | Rotating left and back right restores every word. |
| `M3Operators.ClzSpec` | kernel/lib/wasm3/m3_exec.h:297-316 | Clz: the word lies below 2^(32 - n) and, unless it is 0, not below half of that. |
| `M3Operators.CtzSpec` | kernel/lib/wasm3/m3_exec.h:297-319 | Ctz: the lowest n bits are 0 and, unless all are, the next is 1. |
| `M3Operators.PopcntSpec` | kernel/lib/wasm3/m3_exec.h:322-323 | Popcnt: the number of bits that are 1. |
| `M3Operators.ExtendSpec` | kernel/lib/wasm3/m3_exec.h:341-348 | Sign extension: the number between -2^7 and 2^7 (or -2^15 and 2^15) congruent to the word; Eqz tells 0 from the rest. |
| `M3Paged.PagedCodePreservesMeaning` | kernel/lib/wasm3/m3_compile.c:2864-2926 | From Wasm to the code pages: for every body that compiles (tees fed), emitted with room at every unchecked op onto any pages under any pattern of granted and refused pages, threaded execution from those pages, op_Entry included, following bridges and decoding words, traps exactly when Wasm traps and otherwise leaves exactly Wasm's results in the return slots; further steps change nothing. |
| `M3Paged.PagedCodeRunsIff` | kernel/lib/wasm3/m3_compile.c:2035-2060 | Where Wasm does not trap, running from the pages comes to what the compiled code computes if and only if every select found room when it was emitted. |
| `M3Paged.LostSelectFaults` | kernel/lib/wasm3/m3_compile.c:2051-2056 | Otherwise execution that comes to that select runs into an operand word. |
| `M3Paged.ThreadIsWalk` | kernel/lib/wasm3/m3_exec_defs.h:52-63 | Threaded execution does exactly the ops that following the bridges reads. |
| `M3Paged.WordsReadBack` | kernel/lib/wasm3/m3_compile.c:55-95 | Every instruction is recovered from its op word and operand words. |
| `M3Paged.OnlyEndReturns` | kernel/lib/wasm3/m3_compile.c:1269-1290 | Compiled code returns at its last instruction and nowhere else. |
| `M3Compilation.CompileFunctionBody` | kernel/lib/wasm3/m3_compile.c:2841-2926 | The imperative compilation of a whole function returns exactly what the functional compiler the theorems are about returns, errors included (M3Success.FunctionCompilesIff says when it succeeds). |
| `M3Compilation.Compilation.AllocateWithinRange` | kernel/lib/wasm3/m3_compile.c:355-382 | Scans for and marks the first unused slot of the range, or fails when there is none. Equal to the functional compiler's step on every state. |
| `M3Compilation.Compilation.Push` | kernel/lib/wasm3/m3_compile.c:542-570 | Appends the record and claims the register for it if the slot number says so, with the stack limit. Equal to the functional compiler's step on every state. |
| `M3Compilation.Compilation.Pop` | kernel/lib/wasm3/m3_compile.c:584-609 | Removes the top record and releases its slot or the register; underrun is an error. Equal to the functional compiler's step on every state. |
| `M3Compilation.Compilation.PushAllocatedSlot` | kernel/lib/wasm3/m3_compile.c:629-656 | A new record in a freshly allocated slot. Equal to the functional compiler's step on every state. |
| `M3Compilation.Compilation.PreserveRegisterIfOccupied` | kernel/lib/wasm3/m3_compile.c:474-497 | Spills the owning record to a new slot and emits the store. Equal to the functional compiler's step on every state. |
| `M3Compilation.Compilation.IncrementUsage` | kernel/lib/wasm3/m3_compile.c:401-414 | One more user of a slot, up to the counter's limit. Equal to the functional compiler's step on every state. |
| `M3Compilation.Compilation.FindReferencedLocal` | kernel/lib/wasm3/m3_compile.c:932-968 | One pass redirects every record that names the local and counts the users of the new slot. Equal to the functional compiler's step on every state. |
| `M3Compilation.Compilation.PushConst` | kernel/lib/wasm3/m3_compile.c:659-761 | Pool lookup, pool insertion or inline constant, in that order. Equal to the functional compiler's step on every state. |
| `M3Compilation.Compilation.CompileGetLocal` | kernel/lib/wasm3/m3_compile.c:1322-1338 | local.get by sharing the slot. Equal to the functional compiler's step on every state. |
| `M3Compilation.Compilation.AssignLocal` | kernel/lib/wasm3/m3_compile.c:1294-1319 | local.set and local.tee with the preserving copy when the local is referenced. Equal to the functional compiler's step on every state. |
| `M3Compilation.Compilation.CompileUnaryOp` | kernel/lib/wasm3/m3_compile.c:2093-2173 | Operand placement, register claim and emission of a unary operator. Equal to the functional compiler's step on every state. |
| `M3Compilation.Compilation.CompileBinaryOp` | kernel/lib/wasm3/m3_compile.c:2093-2173 | The same for a binary operator, including the spill when both operands are elsewhere. Equal to the functional compiler's step on every state, whose refusals M3Success.BinaryIff describes. |
| `M3Compilation.Compilation.CompileSelectOp` | kernel/lib/wasm3/m3_compile.c:1983-2060 | The same for select. Equal to the functional compiler's step on every state. |
| `M3Compilation.Compilation.EmitResultCopies` | kernel/lib/wasm3/m3_compile.c:1105-1147 | The return copies, last result first. Equal to the functional compiler's step on every state. |
| `M3Compilation.Compilation.CompileFunctionEnd` | kernel/lib/wasm3/m3_compile.c:1269-1290 | Stack height check, result copies and return. Equal to the functional compiler's step on every state. |
| `M3Compilation.Compilation.CompileBody` | kernel/lib/wasm3/m3_compile.c:2608-2631 | The op loop, stopping at the first error. Equal to the functional compiler's step on every state. |
| `M3Compilation.Compilation.BeginFunction` | kernel/lib/wasm3/m3_compile.c:2856-2905 | Return slots, arguments, locals and constant area laid out before the body. Equal to the functional compiler's step on every state. |
| `M3Moves.ParallelMoveIffSerial` | kernel/lib/wasm3/m3_compile.c:990-1051 | With distinct targets and temporaries above everything: for every starting state the emitted copies perform the simultaneous assignment of all sources to all targets, if and only if no target is the slot of two or more later sources (unless that value is already in place). |
| `M3Moves.MovesFitIff` | kernel/lib/wasm3/m3_compile.c:1003-1030 | The copies are refused, with the stack-overflow error, if and only if the first temporary leaves no room for two slots per target that has to be saved; otherwise there is one copy per misplaced source and one per saved target. |
| `M3Moves.SerialMoves` | kernel/lib/wasm3/m3_compile.c:990-1051 | The sufficient half, for every state, including what the copies leave untouched. |
| `M3Moves.ClashingMoves` | kernel/lib/wasm3/m3_compile.c:1003-1030 | The necessary half: on a state that tells the sources apart some target ends up with a wrong value. |
| `M3Moves.ClashExample` | kernel/lib/wasm3/m3_compile.c:1003-1030 | A concrete three-way clash and the wrong code emitted for it. |
| `M3Moves.MoveRecord.CopyStackSlotsR` | kernel/lib/wasm3/m3_compile.c:990-1051 | The recursive method emits exactly those copies, restores every stack record it changed, and reports slot exhaustion. |
| `M3Moves.MoveRecord.CopyFirst` | kernel/lib/wasm3/m3_compile.c:1003-1040 | Saving the first colliding source and moving one source, with what must be put back. |
| `CodePages.PageBreaksInvisible` | kernel/lib/wasm3/m3_compile.c:25-80 | For every program of ops, branch tables (with the code of each target on a page of its own) and selects, every layout of the pages and every pattern of granted and refused pages under which no checked op fails: if each unchecked op finds its room, following the bridges reads back exactly that program, each op with its operands on one page; no page is overfilled, room for a bridge remains at every op boundary, and open + full + active pages equals the total. |
| `CodePages.ReadsBackIff` | kernel/lib/wasm3/m3_compile.c:2035-2060 | For every emission in which no checked op fails: some walk along the bridges reads back exactly the program if and only if at each unchecked op the page had room or another page could be had. Compile_Select does not look at the result of EmitOp, nor does PreserveArgsAndLocals (lines 1839-1841), whose copies are items of the same kind. |
| `CodePages.LostSelectSticks` | kernel/lib/wasm3/m3_compile.c:2051-2056 | If one select did not find room, execution reaches, after exactly the ops before it, a point it never gets past, whatever was emitted later. |
| `CodePages.EmitOpReads` | kernel/lib/wasm3/m3_compile.c:55-80 | An op with at most as many words as EmitOp asks for, emitted anywhere, reads back as that op and nothing else, across a page break or not. |
| `CodePages.EmitTableReads` | kernel/lib/wasm3/m3_compile.c:1546-1603 | A branch table of fewer than 2^32 - 6 targets reads back as its slot, its count and all its addresses, default included, on one page, although between the addresses every target acquires a page, emits its code there, over further pages, and releases it. |
| `CodePages.EmitTableKeeps` | kernel/lib/wasm3/m3_compile.c:1546-1603 | Below that bound no page is overfull, also when decoding ends inside the table or a page is refused for some target or its code; a completed table keeps the accounting. |
| `CodePages.TargetReads` | kernel/lib/wasm3/m3_compile.c:1567-1602 | The code of a target reads back from where its page stood when the target began, then and after anything emitted later. |
| `CodePages.TargetKeeps` | kernel/lib/wasm3/m3_compile.c:1567-1602 | One target: if completed, its address is the next word on the table's page and nothing else changed there; in no case is a page overfull. |
| `CodePages.TablesStayInPageIff` | kernel/lib/wasm3/m3_compile.c:1546-1603 | A branch table stays inside its pages from every state, for every targets decoded, their code and refused pages, if and only if its count is below 2^32 - 6: at or above, the 32-bit sums of the room request wrap. |
| `CodePages.WrappedTableExample` | kernel/lib/wasm3/m3_compile.c:1546-1547 | A count of 0xFFFF_FFFC asks for two lines, and a page is overrun. |
| `CodePages.EnsureReads` | kernel/lib/wasm3/m3_compile.c:26-52 | A bridge is a single machine step that shows no op. |
| `CodePages.EnsureKeeps` | kernel/lib/wasm3/m3_compile.c:26-52 | For every 32-bit request: granted if and only if the page has the wrapped sum of request and bridge free or a page with that room can be had; then the accounting holds, nothing emitted changes, and that much room is there. |
| `CodePages.WalkGrown` | kernel/lib/wasm3/m3_code.c:95-116 | Code already emitted reads the same after any later emission. |
| `CodePages.NewPageFits` | kernel/lib/wasm3/m3_code.c:15-64 | The 32-bit size arithmetic refuses exactly the requests that do not fit; a page granted is the least multiple of 32 KB with the lines asked for. |
| `CodePages.AcquireKeeps` | kernel/lib/wasm3/m3_env.c:1113-1134 | A page is had exactly if an open or released page has room or a new one is granted; it moves between lists without being lost or doubled, and failure changes nothing. |
| `CodePages.CompilationStarts` | kernel/lib/wasm3/m3_env.c:1137-1140 | An acquired page starts a compilation with room for a bridge. |
| `CodePages.CompilationEnds` | kernel/lib/wasm3/m3_env.c:1143-1163 | Releasing the page restores the balance open + full + active = total. |
| `CodeReuse.CompilationSorts` | kernel/lib/wasm3/m3_env.c:1096-1163 | Through every compilation, over any number of pages, open pages keep at least six free lines and full pages have fewer. |
| `CodeReuse.NewPageIffNoneFits` | kernel/lib/wasm3/m3_env.c:1113-1134 | So a request costs the runtime a further page if and only if none of its listed pages, open or full, has the lines. |
| `CodeReuse.ReleasedPageIsNext` | kernel/lib/wasm3/m3_env.c:1096-1134 | A page given back is the next one handed out if it has the lines asked for, and not handed out otherwise. |
| `CodePages.SelectStaysInPageIff` | kernel/lib/wasm3/m3_compile.c:2051-2056 | Compile_Select stays inside its page if and only if its EmitOp succeeds or the page has lines for the slot words. |
| `CodePages.SelectReadsIff` | kernel/lib/wasm3/m3_compile.c:2051-2056 | Some walk reads the select back if and only if the page has the threshold plus a bridge free or a page with that room can be had. |
| `CodePages.SelectExamples` | kernel/lib/wasm3/m3_compile.c:2051-2056 | Two lines left and no page to be had: the slot words overrun the page. Seven lines left: they stay inside, and no walk reads the select. |
| `CodeRuntime.Runtime.RemoveCodePageOfCapacity` | kernel/lib/wasm3/m3_env.c:114-137 | The list walk unlinks the first page with room and no other. |
| `CodeRuntime.Runtime.AcquireCodePageWithCapacity` | kernel/lib/wasm3/m3_env.c:1113-1134 | Open list, then released list, then a new page, with the counters. |
| `CodeRuntime.Runtime.ReleaseCodePage` | kernel/lib/wasm3/m3_env.c:1096-1163 | Back to the full list below six free lines, else to the open list. |
| `CodeRuntime.Runtime.EnsureCodePageNumLines` | kernel/lib/wasm3/m3_compile.c:26-52 | Bridges to another page when fewer than the asked lines plus two, in 32 bits, are free; nothing changes on failure. |
| `CodeRuntime.Runtime.EmitOp` | kernel/lib/wasm3/m3_compile.c:55-95 | The op word, if its room is there, then the operand words, one at a time; nothing changes on failure. |
| `CodeRuntime.Runtime.EmitTable` | kernel/lib/wasm3/m3_compile.c:1546-1603 | The room request, the op, slot and count words, and target by target a page, its code and its address, stopping where decoding ends or a page is refused. |
| `CodeRuntime.Runtime.EmitTarget` | kernel/lib/wasm3/m3_compile.c:1567-1602 | One target on an acquired page, with the table's page put aside and taken up again; a page whose code found no room stays held. |
| `CodeRuntime.Runtime.EmitSelect` | kernel/lib/wasm3/m3_compile.c:2051-2056 | The op word if its room is there, and the slot words in either case. |
| `Leb128.RoundTripU32` | kernel/lib/wasm3/m3_core.c:435-442 | Every u32, encoded as LEB128 anywhere in a buffer, is read back, and exactly its encoding is consumed. |
| `Leb128.RoundTripI32` | kernel/lib/wasm3/m3_core.c:465-472 | The same for every i32. |
| `Leb128.RoundTripI64` | kernel/lib/wasm3/m3_core.c:475-482 | The same for every i64, including ten-byte encodings. |
| `Leb128.ReadUnsignedSpec` | kernel/lib/wasm3/m3_core.c:356-389 | For every input: success exactly if a well-formed group sequence within the bit limit starts here; its bytes are consumed and its value mod 2^64 returned; at most ceil(maxBits/7) bytes and never past the end are read. |
| `Leb128.ReadSignedSpec` | kernel/lib/wasm3/m3_core.c:392-432 | The same with the two's complement value of the groups. |
| `Leb128.U32ExactIff` | kernel/lib/wasm3/m3_core.c:435-442 | What ReadLEB_u32 returns is the number encoded, if and only if four continuation bytes are not followed by a byte of 16 or more, whose unused bits are not checked. |
| `Leb128.I32ExactIff` | kernel/lib/wasm3/m3_core.c:465-472 | The same for ReadLEB_i32: inexact exactly if four continuation bytes are followed by a byte from 8 to 119. |
| `Leb128.I64ExactIff` | kernel/lib/wasm3/m3_core.c:475-482 | The same for ReadLEB_i64: inexact exactly if nine continuation bytes are followed by a byte from 1 to 126. |
| `Leb128.TruncationExamples` | kernel/lib/wasm3/m3_core.c:435-472 | A five-byte encoding of 2^35 - 1 is accepted as 2^32 - 1, and one of 2^32 - 1 is read as the i32 -1. |
| `Leb128.EncodeUnsigned` | kernel/lib/wasm3/m3_core.c:356-389 | The reference encoder: a well-formed group sequence whose value is the number. |
| `Leb128.EncodeSigned` | kernel/lib/wasm3/m3_core.c:392-432 | The signed reference encoder: a well-formed group sequence whose two's complement value is the number. |
| `Leb128.ReadLebUnsigned` | kernel/lib/wasm3/m3_core.c:356-389 | The byte loop equals the reader specified above, on every input. |
| `Leb128.ReadLebSigned` | kernel/lib/wasm3/m3_core.c:392-432 | The same for the signed loop with its sign extension. |
| `IpcRing.EveryRunIsFifo` | kernel/ipc/ipc.c:304-384 | In every interleaving of single-word steps of one producer and one consumer, what was taken followed by what lies between tail and head equals what was published, entry by entry and whole, and at most size - 1 entries are in the ring. |
| `IpcRing.StepKeeps` | kernel/ipc/ipc.c:167-199 | Each single step (check, write one field, publish head, read one field, publish tail) keeps that invariant. |
| `IpcRing.WriterAlone` | bridge/stream.py:54-82 | The slot being written is none of the slots the consumer may read. |
| `IpcRing.FullIffSizeMinusOne` | kernel/ipc/ipc.c:304-332 | The full test succeeds exactly at size - 1 entries, the empty test exactly at none. |
| `IpcRing.SharedRing.Push` | bridge/stream.py:68-82 | A push is exactly the producer's step sequence, and its answer says whether the entry was published. |
| `IpcRing.SharedRing.Pop` | bridge/stream.py:54-66 | A pop is exactly the consumer's step sequence and returns the entry taken. |
| `Bridge.RunKeeps` | bridge/zenedge_bridge.py:313-325 | The invariant of both rings and of the bridge between them in every run of kernel and bridge steps. |
| `Bridge.CommandsConserved` | bridge/zenedge_bridge.py:175-248 | Commands sent = in the command ring + in the bridge's hand + dropped + in the response ring + received, in every run. |
| `Bridge.DropIffFull` | bridge/zenedge_bridge.py:206-248 | A response is dropped exactly if the response ring holds size - 1 entries at that moment. |
| `Bridge.UnreadAnswersAreLost` | bridge/zenedge_bridge.py:206-248 | For rings of every size there is a run of n commands sent, taken and answered one by one without a poll, in which exactly the answers beyond size - 1 are lost. |
| `Bridge.OneTooManyLoses` | bridge/zenedge_bridge.py:206-248 | The discipline's bound is tight: with size commands outstanding, an answer can be lost. |
| `Bridge.DisciplinedNeverDrops` | bridge/zenedge_bridge.py:206-248 | If the kernel never has more than size - 1 commands outstanding, no response is ever dropped. |
| `Bridge.AnswersMatchCommands` | bridge/zenedge_bridge.py:258-325 | Under that discipline the i-th response received carries the id of the i-th command sent, and nothing is lost. |
| `Bridge.AnswersCarryResults` | bridge/zenedge_bridge.py:206-325 | Under that discipline the i-th response received carries status, result and time stamp as the i-th handler gave them. |
| `Bridge.Exchange` | bridge/zenedge_bridge.py:175-325 | Between exchanges any command can be sent, taken and answered and the answer read: the run exists, and what the kernel reads is what the handler said, with the command's number. |
| `Bridge.SendOne` | kernel/ipc/ipc.c:304-338 | Progress: with room in the ring, any command can be sent. |
| `Bridge.TakeOne` | bridge/zenedge_bridge.py:175-204 | Progress: a free bridge can take the next command there is. |
| `Bridge.PollOne` | kernel/ipc/ipc.c:340-380 | Progress: the kernel can read the next answer there is. |
| `KheapRuns.EveryRunKeeps` | kernel/mm/kheap.c:89-191 | Every run of kmalloc, kfree and krealloc keeps the list an exact 16-aligned tiling of the heap with no two adjacent free blocks; blocks are disjoint, and free bytes + live bytes + headers equal the heap size. |
| `KheapSpec.TakeKeeps` | kernel/mm/kheap.c:64-111 | Splitting and marking a block keeps tiling and the no-adjacent-free rule and yields a block of at least the wanted size. |
| `KheapSpec.FailsIffNoneFits` | kernel/mm/kheap.c:89-111 | kmalloc finds nothing if and only if every free block is too small. |
| `KheapSpec.ReleaseKeeps` | kernel/mm/kheap.c:113-160 | Freeing with coalescing in both directions keeps tiling and leaves no two adjacent free blocks. |
| `KheapSpec.ReleaseLive` | kernel/mm/kheap.c:143-160 | Exactly the freed block disappears from the live ones. |
| `KheapSpec.TakeLive` | kernel/mm/kheap.c:89-111 | Exactly the new block is added to the live ones. |
| `KheapSpec.ReleaseUndoesTake` | kernel/mm/kheap.c:89-160 | kfree right after kmalloc restores the block list exactly. |
| `KheapSpec.PayloadsDisjoint` | kernel/mm/kheap.c:41-62 | Payloads are aligned, inside the heap and pairwise disjoint. |
| `KheapSpec.BytesConserved` | kernel/mm/kheap.c:64-87 | Headers and payloads add up to the heap. |
| `KheapSpec.GrowKeeps` | kernel/mm/kheap.c:170-180 | Growing a live block into its free neighbour keeps the invariant and the block's address. |
| `KheapRuns.ReallocCosts` | kernel/mm/kheap.c:162-191 | A krealloc that succeeds takes no more of the free bytes than the growth, a header and 16 bytes: what growing in place swallowed beyond that is given back. |
| `KheapRuns.GrownInPlace` | kernel/mm/kheap.c:170-180 | Where the next block is free and large enough, the block grows in place to the size asked for, the rest is a free block right behind (or, with no room for a header and 17 bytes, part of it), and all other blocks stay. |
| `KheapSpec.AlignUpCovers` | kernel/mm/kheap.c:89-95 | Rounding a request up covers it if and only if it is at most 2^64 - 16; above that it rounds to 0. |
| `KheapSpec.HugeRequestExample` | kernel/mm/kheap.c:89-105 | A request for 2^64 - 1 bytes is granted, with a block of no bytes. |
| `Kheap.KernelHeap.Init` | kernel/mm/kheap.c:41-62 | One free block over the aligned range. |
| `Kheap.KernelHeap.SplitBlock` | kernel/mm/kheap.c:64-87 | Header and link writes equal the list split; only header bytes change. |
| `Kheap.KernelHeap.FindFit` | kernel/mm/kheap.c:89-111 | The walk stops at the first block that fits. |
| `Kheap.KernelHeap.Kmalloc` | kernel/mm/kheap.c:89-111 | Takes the first fit; fails exactly if none fits or the size is 0; every live payload keeps its bytes. |
| `Kheap.KernelHeap.FindRunStart` | kernel/mm/kheap.c:113-122 | The backward walk ends at the first block of the free run. |
| `Kheap.KernelHeap.CoalesceAt` | kernel/mm/kheap.c:113-141 | The in-place merge equals the list coalescing, with inverse next/prev links. |
| `Kheap.KernelHeap.Kfree` | kernel/mm/kheap.c:143-160 | A live block is released and merged. For every other pointer (null, foreign, into a block, freed before, merged since or not) nothing changes. Other payloads keep their bytes. |
| `Kheap.KernelHeap.GrowInPlace` | kernel/mm/kheap.c:170-180 | Swallows the free neighbour; the old bytes stay in place. |
| `Kheap.KernelHeap.CopyBytes` | kernel/mm/kheap.c:184-187 | The byte loop copies between disjoint ranges and touches nothing else. |
| `Kheap.KernelHeap.Krealloc` | kernel/mm/kheap.c:162-191 | On all paths (in place, grown, moved, failed) the old payload's bytes are at the result, every other live payload is unchanged, the block list is the specified one, the block at the result is no larger than the old one or, if larger, than the request, a header and 16 bytes, and failure occurs exactly if neither growing nor a new block can serve; without a header in front of the pointer the answer is null and nothing changes. |
| `Kheap.KernelHeap.FreeSize` | kernel/mm/kheap.c:193-200 | The sum of the free blocks' sizes. |
| `JobSpec.RunsLeastClosedSetIffIdsFitInt` | kernel/sched/sched_core.c:133-185 | A finished run completes exactly the least set closed under 'all dependencies are in', if and only if no step still to be run has an id of 2^31 or more. |
| `JobSpec.RunsOnceAndInOrder` | kernel/sched/sched_core.c:133-185 | In every run, finished or not, a step runs at most once, never if already completed, and only after all its dependencies. |
| `JobSpec.RunsEverythingIffAcyclic` | kernel/sched/sched_core.c:133-185 | A finished run of a fresh job runs every step if and only if the dependencies can be ranked (are acyclic) and no id is 2^31 or more; the run order is then such a ranking. |
| `JobEdges.StepsFollowWhatTheyWaitFor` | kernel/job/job_graph.c:25-96 | On a job built by any sequence of add_step and add_dep calls that names no step twice, in every run a step follows each id it was made to depend on. |
| `JobEdges.AlwaysInOrderIff` | kernel/job/job_graph.c:25-96 | On any graph the calls can build, duplicates included: every run respects what the steps wait for if and only if no doubled id runs early (the first doubled id is below 2^31, cannot run on the strength of the steps before it, and no larger id among these stops the loop first). |
| `JobEdges.EarlyExample` | kernel/job/job_graph.c:25-96 | Step 1 named twice and made to wait for step 2 is run first. |
| `JobEdges.BuildRecords` | kernel/job/job_graph.c:25-64 | The graph that any calls build: the first 32 steps asked for, in order, the first of each id waiting for the first four known ids asked of it, in order, and ready exactly if there is none. |
| `JobEdges.AddDepRecordsIff` | kernel/job/job_graph.c:48-64 | add_dep records the edge if and only if both ids are known and the step has fewer than four dependencies; then exactly that step changes: one dependency more, the last, and not ready. |
| `JobEdges.AddStepAppendsIff` | kernel/job/job_graph.c:25-46 | The 33rd step is refused; any other is appended, ready, uncompleted and without dependencies. |
| `JobSpec.StopsIff` | kernel/sched/sched_core.c:133-185 | On every graph add_step and add_dep can build the loop stops if and only if no id was added twice, or the first doubled id, or that of a step before it that can run once that id is completed, is 2^31 or more; without doubled ids it stops within one turn per step. |
| `JobSpec.StopsIffNoDuplicates` | kernel/sched/sched_core.c:133-185 | With ids below 2^31 only: the loop stops if and only if no id was added twice. |
| `JobSpec.DuplicateExample` | kernel/job/job_graph.c:25-46 | Two steps with one id: after any number of turns the first is picked again. |
| `JobSpec.LargeIdExample` | kernel/job/job_graph.c:89-96 | An id of 2^31 stops the loop with two runnable steps left. |
| `JobSpec.RunnableIsLeastClosed` | kernel/job/job_graph.c:66-87 | The set of runnable steps is closed and below every closed set. |
| `JobSpec.MarkKeeps` | kernel/job/job_graph.c:66-87 | Marking completes one step and makes the ready flags say again that all dependencies are done. |
| `JobSpec.AddStepBuilt` | kernel/job/job_graph.c:25-46 | add_step keeps the construction invariant, and distinctness exactly if the id is new. |
| `JobSpec.AddDepBuilt` | kernel/job/job_graph.c:48-64 | add_dep keeps the construction invariant and distinctness. |
| `JobSpec.AddDepCoherentIff` | kernel/job/job_graph.c:48-64 | An edge added later leaves the ready flags right exactly if it is refused, the step is completed, or with it some dependency is still open. |
| `JobScheduler.JobGraph.MarkCompleted` | kernel/job/job_graph.c:66-87 | The nested rescan, which writes flags of the table it reads, equals the specified marking. |
| `JobScheduler.JobGraph.NextReady` | kernel/job/job_graph.c:89-96 | The first ready, uncompleted step's id as a C int, or -1. |
| `JobScheduler.JobGraph.AddStep` | kernel/job/job_graph.c:25-46 | Appends a ready step, or refuses the 33rd. |
| `JobScheduler.JobGraph.AddDep` | kernel/job/job_graph.c:48-64 | Adds the edge to the first step with that id; answers 0 if and only if both ids are known and that step has fewer than four dependencies (JobEdges.TakesDep), and -1 otherwise, changing nothing. |
| `JobScheduler.JobGraph.RunJob` | kernel/sched/sched_core.c:121-185 | The driving loop terminates on distinct ids and performs a finished run. |
| `PmmRuns.PagesConserved` | kernel/mm/pmm.c:312-491 | After every run of single-page requests, contiguous requests for a named node or for any, and frees of one page or many: free_pages equals the clear bits and the sum of the nodes' free counts, each node's counters match its bits, pages in use are those at the start plus the held ones, free + held is constant, and with nothing held the whole state is the initial one. |
| `PmmRuns.InitEstablishesIff` | kernel/mm/pmm.c:144-246 | Boot makes every counter right if and only if the map's available regions share no page and make the last page of the first megabyte, or one above it, available. |
| `PmmBoot.BootLeavesUsed` | kernel/mm/pmm.c:144-200 | After boot a page is in use if and only if it lies in the first megabyte, holds a byte of the kernel, or lies whole in no available region of the map, all said in bytes; the wrap of the sums near 4 GB is part of it. |
| `PmmBoot.GrantsSpareKernel` | kernel/mm/pmm.c:183-491 | So no page held through any run of requests after boot holds a byte of the kernel, lies below 1 MB or outside available memory. |
| `PmmBoot.SpanOffers` | kernel/mm/pmm.c:150-172 | The page range computed for a region is exactly the pages it holds whole, except in the last page below 4 GB. |
| `PmmBoot.KernelSpan` | kernel/mm/pmm.c:183-200 | The pages reserved for the kernel are exactly those that hold a byte of it, unless its end lies in the last page below 4 GB: then none is. |
| `PmmBoot.TopExamples` | kernel/mm/pmm.c:144-200 | One available byte in the last page makes all memory available; a region up to 4 GB is lost; a kernel reaching there is not reserved. |
| `PmmRuns.HighestIff` | kernel/mm/pmm.c:144-180 | highest_page reaches page k > 0 if and only if the map makes some page at or above k available. |
| `PmmRuns.LowMemoryExample` | kernel/mm/pmm.c:204-246 | A map of the low 640 KB only: the 32-bit node size wraps, and node 0 comes to 2^31 pages that do not exist. |
| `PmmRuns.FallbackBoots` | kernel/mm/pmm.c:265-283 | The built-in fallback memory map boots into a state with every counter right, wherever the kernel lies. |
| `PmmRuns.InitCountIffDisjoint` | kernel/mm/pmm.c:144-180 | free_pages after init_bitmap equals the clear bits if and only if no two available regions overlap. |
| `PmmRuns.OverlapExample` | kernel/mm/pmm.c:144-180 | A region listed twice boots into a state with wrong counters. |
| `PmmRuns.ReserveLaterKeepsIff` | kernel/mm/pmm.c:493-510 | A reservation after boot keeps the node counters if and only if it takes no free page. |
| `PmmRuns.LateReserveExample` | kernel/mm/pmm.c:493-510 | On the fallback machine, reserving the page at 1 MB breaks the node counters. |
| `PmmRuns.LowFreeExample` | kernel/mm/pmm.c:463-485 | There, freeing page 0 breaks the counters. |
| `PmmRuns.CrossingExample` | kernel/mm/pmm.c:397-440 | There, 20000 pages from any node are granted across the boundary and the counters break. |
| `PmmRuns.EndlessExample` | kernel/mm/pmm.c:383-461 | 65536 pages from a named node: the fallback goes on for ever, from every state. |
| `PmmSpec.AllocPageSpec` | kernel/mm/pmm.c:332-381 | A page is refused if and only if none is free; otherwise it is the first free page of the preferred node, or of the other when that is exhausted, and exactly its bit changes. |
| `PmmSpec.AllocPagesReturnsIffRunExists` | kernel/mm/pmm.c:383-461 | A contiguous request on a named node returns (the fallback calls itself back and forth) if and only if some node has such a run, and then yields the leftmost run of the preferred node or else of the other. |
| `PmmAnswers.AllocPagesAnswers` | kernel/mm/pmm.c:383-461 | Every request, by page and node numbers: none for 0 pages; for one page, or several on a named node, the first run of the node asked for (0 unless 1 is named), else of the other; for several with NUMA_NODE_ANY the first run from 1 MB on; what is taken, and the counter, exactly; and which requests are refused or never return. |
| `PmmSpec.AnyRunKeepsIff` | kernel/mm/pmm.c:397-440 | A NUMA_NODE_ANY request gets the leftmost run above 1 MB or fails only without one; the node counters stay right if and only if there is none or the leftmost one does not cross the boundary. |
| `PmmSpec.FreePageKeepsIff` | kernel/mm/pmm.c:463-485 | Freeing keeps all counters if and only if the address is not below 1 MB, and clears exactly that page's bit. |
| `PmmSpec.FreeUndoesGrant` | kernel/mm/pmm.c:487-491 | Freeing what was granted restores bitmap and every counter exactly. |
| `PmmSpec.BitsDetermineState` | kernel/mm/pmm.c:204-246 | Under the invariant the bits determine all counters. |
| `PmmSpec.TakeKeepsIff` | kernel/mm/pmm.c:423-438 | Charging a run to a node keeps the counters if and only if the node holds all of it. |
| `Bitmap.FirstRunIsLeftmost` | kernel/mm/pmm.c:413-441 | The run found is free, leftmost, and found whenever there is one. |
| `Bitmap.SkipPast` | kernel/mm/pmm.c:416-422 | Skipping past a used page loses no candidate. |
| `Bitmap.TestSet` | kernel/mm/pmm.c:48-67 | Setting a bit of the packed bitmap changes that bit and no other. |
| `Bitmap.TestClear` | kernel/mm/pmm.c:55-67 | The same for clearing. |
| `PmmObject.PageAllocator.constructor` | kernel/mm/pmm.c:265-309 | pmm_init: bitmap, reservations and nodes in place equal the specified boot (PmmBoot.BootLeavesUsed says which pages that leaves used). |
| `PmmObject.PageAllocator.FindRun` | kernel/mm/pmm.c:411-441 | The skip-ahead search with 32-bit sums equals the search from every start, for every count. |
| `PmmObject.PageAllocator.AllocFromNode` | kernel/mm/pmm.c:312-330 | First free page of the node, with all three counters. |
| `PmmObject.PageAllocator.AllocPage` | kernel/mm/pmm.c:332-381 | Preferred node, then the other; unknown ids fall back to node 0. |
| `PmmObject.PageAllocator.AllocPages` | kernel/mm/pmm.c:383-461 | The contiguous allocator with its recursive fallback, where that returns. |
| `PmmObject.PageAllocator.FreePage` | kernel/mm/pmm.c:463-485 | Ignores pages beyond the highest and double frees; otherwise clears and credits. |
| `PmmObject.PageAllocator.FreePages` | kernel/mm/pmm.c:487-491 | Page by page. |
| `PmmObject.PageAllocator.ReserveRange` | kernel/mm/pmm.c:493-510 | Marks the pages the range touches and counts those that were free. |
| `PmmObject.PageAllocator.SetupNodes` | kernel/mm/pmm.c:204-246 | The split in two nodes and the counting loop. |
| `VmmLife.LifeRestoresAllocator` | kernel/mm/vmm.c:241-316 | Create a directory, map and unmap pages in any order, destroy it: once no unmapped page is held, the allocator's bitmap and all counters are exactly those before creation, and no other directory's translation ever changed. |
| `VmmLife.EmptyLifeRestoresIff` | kernel/mm/vmm.c:241-316 | Creating a directory and destroying it at once restores the allocator if and only if entry 0 of the kernel's directory, which is copied, names no table: teardown frees that table and what it maps. |
| `VmmLife.SharedTableExample` | kernel/mm/vmm.c:241-316 | A machine with a table in the kernel's entry 0, on which creating and destroying a user directory changes the allocator. |
| `VmmLife.DestroyFreesOwned` | kernel/mm/vmm.c:288-316 | Teardown frees exactly the directory, its user tables and the pages they map. |
| `VmmLife.ActKeeps` | kernel/mm/vmm.c:122-235 | Every single action keeps the account: pages in use = those at the start, the owned ones and the spare ones, disjointly. |
| `VmmLife.CreateStarts` | kernel/mm/vmm.c:241-286 | Creation fails exactly without a free page, then changing nothing; what it makes owns exactly its one page if and only if entry 0 of the kernel's directory names no table. |
| `VmmLife.NewDirectorySharesKernel` | kernel/mm/vmm.c:241-286 | A new directory holds the kernel's entry 0 and entries 768 to 1023 and zeros between: every page from 3 GB on and of the first 4 MB goes where the kernel's directory sends it, entry by entry, every other page nowhere. |
| `VmmLife.LifeSharesKernel` | kernel/mm/vmm.c:122-286 | Through the whole life of the address space these entries stay, and every page from 3 GB on resolves, and is walked, as in the kernel's directory, which itself is unchanged. |
| `VmmLife.RightsAreThePages` | kernel/mm/vmm.c:122-173 | In every address space a user page is writable, and open to user mode, exactly as its own entry says. |
| `VmmSpec.MapPageChangesOnlyThatPage` | kernel/mm/vmm.c:122-173 | Mapping fails exactly if a table is missing and no page is free, then changing nothing; otherwise the translation changes at that page and nowhere else, fresh table or not. |
| `VmmSpec.EmptyDirectoryWellFormed` | kernel/mm/vmm.c:241-262 | A directory page in use without present entries is well-formed. |
| `VmmSpec.UnmapChangesOnlyThatPage` | kernel/mm/vmm.c:191-214 | Unmapping changes the translation at that page and nowhere else. |
| `VmmSpec.UnmapUndoesMap` | kernel/mm/vmm.c:122-214 | Unmapping a page just mapped restores every translation of the tables. |
| `VmmSpec.MapTakesEffectIff` | kernel/mm/vmm.c:122-173 | A mapping vmm_map_page reports as made is in the tables afterwards if and only if no 4 MB directory entry covers the page. |
| `VmmSpec.MapGrantsIff` | kernel/mm/vmm.c:131-148 | A mapped page has the rights asked for if and only if the table it lies in does not withhold them; a table made for it withholds none. |
| `VmmSpec.HugeIsOverwritten` | kernel/mm/vmm.c:122-214 | Under a 4 MB entry mapping reports success, writes its entry into the data the entry maps, makes no translation, and unmapping clears that word. |
| `VmmSpec.HugeExample` | kernel/mm/vmm.c:122-173 | Mapping page 5 where a 4 MB entry covers it reports success, overwrites word 5 of the data and maps nothing. |
| `VmmSpec.TranslateIsLookup` | kernel/mm/vmm.c:216-235 | Outside 4 MB entries vmm_virt_to_phys answers what the tables map. |
| `VmmSpec.MapRangeChangesOnlyRange` | kernel/mm/vmm.c:175-189 | A range maps a prefix of its pages to consecutive frames, all of them exactly on success, with 32-bit wrap-around, and changes no other translation. |
| `VmmSpec.PageCountIff` | kernel/mm/vmm.c:175-178 | The page count covers the size, with no page too many, if and only if the size is at most 2^32 - 4096; above it is 0. |
| `VmmSpec.RangeCoversIff` | kernel/mm/vmm.c:175-178 | The pages mapped hold all the bytes asked for if and only if the offset of the first byte in its page and what the size leaves over fit one page together, and the size does not wrap. |
| `VmmSpec.StraddlingExample` | kernel/mm/vmm.c:175-178 | Two bytes across a page boundary: one page is mapped. |
| `VmmObject.AddressSpaces.MapPage` | kernel/mm/vmm.c:122-173 | The in-place table writes equal the specified mapping, under a 4 MB entry as well. |
| `VmmObject.AddressSpaces.MapRange` | kernel/mm/vmm.c:175-189 | The page loop equals the specified range mapping. |
| `VmmObject.AddressSpaces.UnmapPage` | kernel/mm/vmm.c:191-214 | Clears the entry and returns the frame that was mapped, or 0. |
| `VmmObject.AddressSpaces.VirtToPhys` | kernel/mm/vmm.c:216-235 | The two-level walk computes the translation. |
| `VmmObject.AddressSpaces.CreateUserPd` | kernel/mm/vmm.c:241-286 | The two copying loops: entry 0 and entries 768 to 1023 of the kernel's directory, zeros between. |
| `VmmObject.AddressSpaces.DestroyUserPd` | kernel/mm/vmm.c:288-316 | The nested freeing loops, skipping 4 MB entries. |
| `Sha256Stream.HashChunks` | kernel/lib/sha256.c:78-142 | However a message is cut into updates, the result is the FIPS 180-4 digest of the whole message. |
| `Sha256Stream.Context.Update` | kernel/lib/sha256.c:91-100 | The context holds the hash of all whole blocks so far and the bytes left over. |
| `Sha256Stream.Context.Final` | kernel/lib/sha256.c:102-142 | The digest of everything hashed, through either padding branch. |
| `Sha256Stream.Context.Transform` | kernel/lib/sha256.c:31-76 | The block loop computes the compression function of section 6.2.2. |
| `Sha256Spec.PadBlocks` | kernel/lib/sha256.c:102-132 | Below 56 left-over bytes the padding fits one block, from 56 on it takes two; both hash the padded message of section 5.1.1. |
| `Sha256Spec.ZeroCountIsLeast` | kernel/lib/sha256.c:105-116 | The number of zero bytes is the least that completes a block. |
| `Sha256Spec.RoundConstants` | kernel/lib/sha256.c:12-29 | The 64 round constants are the first 32 bits of the fractional parts of the cube roots of the first 64 primes (section 4.2.2). |
| `Sha256Spec.InitialHash` | kernel/lib/sha256.c:78-89 | The initial hash value: the same of the square roots of the first eight primes (section 5.3.3). |
| `Div64.LongDivision` | kernel/lib/divdi3.c:25-37 | Shift-subtract division yields quotient and remainder for every 64-bit n and nonzero d. |
| `Div64.ShiftDoesNotOverflow` | kernel/lib/divdi3.c:29-30 | The shifted remainder never loses a bit, also for d above 2^63. |
| `Div64.UDiv` | kernel/lib/divdi3.c:10-38 | The quotient on both paths, and 0 for division by 0. |
| `Div64.UMod` | kernel/lib/divdi3.c:41-63 | The remainder on both paths, and 0 for division by 0. |
| `Div64.UDivMod` | kernel/lib/divdi3.c:66-70 | n = q*d + r with r below d; for d = 0 the remainder is n. |
| `Div64.TruncatedDivision` | kernel/lib/divdi3.c:73-90 | The signed results satisfy n = q*d + r with r smaller than d in magnitude and of n's sign: truncation toward zero. |
| `Div64.TruncatedUnique` | kernel/lib/divdi3.c:73-90 | They are the only pair with these properties. |
| `Div64.Div` | kernel/lib/divdi3.c:73-80 | __divdi3 is truncating division for operands other than INT64_MIN. |
| `Div64.Mod` | kernel/lib/divdi3.c:83-90 | __moddi3 is its remainder. |
| `WordBits.PowerOfTwo` | kernel/lib/divdi3.c:17-22 | x & (x-1) is 0 exactly for powers of two. |
| `WordBits.AndMask` | kernel/lib/divdi3.c:47-49 | n & (2^k - 1) is n mod 2^k. |
| `BlobSpec.EveryRunKeepsIff` | kernel/ipc/heap.c:114-243 | All through a run from an empty heap that accounting holds if and only if no lookup records a header whose blob is not among the lost ones; such a header is always that of a freed blob. |
| `BlobSpec.EveryRunBalances` | kernel/ipc/heap.c:114-243 | In every run whatever, free_blocks plus the blocks of known and lost blobs exceeds the heap by exactly the blocks of freed blobs recorded again, in 32 bits. |
| `BlobSpec.EveryRunKeeps` | kernel/ipc/heap.c:114-243 | In every run of heap_alloc, heap_free and heap_get_blob in which no lookup records a freed blob, of any length and whatever ids come up: blobs, known or lost, occupy disjoint blocks; a bit is set exactly under one; free_blocks equals the clear bits; free + occupied blocks is constant. |
| `BlobSpec.LookKeepsIff` | kernel/ipc/heap.c:193-243 | The accounting survives a lookup if and only if it records nothing, a lost blob or a blob without blocks. |
| `BlobSpec.CreditedTwiceExample` | kernel/ipc/heap.c:168-243 | A blob freed, looked up and freed again: one block more is free than there is. |
| `BlobSpec.KnownIsFound` | kernel/ipc/heap.c:193-243 | A known blob is found at its own header, and nothing changes. |
| `BlobSpec.LostIsFoundIff` | kernel/ipc/heap.c:193-243 | A lost blob becomes known exactly by a lookup of its id that misses the table and meets its header first, while the table has an entry left. |
| `BlobSpec.FoundIsFreed` | kernel/ipc/heap.c:168-243 | Found so and freed, it gives exactly its blocks back. |
| `BlobSpec.AllocKeeps` | kernel/ipc/heap.c:114-166 | For every size: refused exactly if there is no free run, the run taken is leftmost, and the accounting of known and lost blobs goes on to hold. |
| `BlobSpec.NothingLostIff` | kernel/ipc/heap.c:146-158 | With nothing lost so far, a granted request loses no block if and only if the table has an entry left or the wrapped block count is 0. |
| `BlobSpec.AddressableIff` | kernel/ipc/heap.c:139-158 | A new entry leaves the ids nonzero and distinct if and only if the 16-bit id is neither 0 nor live. |
| `BlobIds.EveryRunAddressable` | kernel/ipc/heap.c:114-243 | In every run with at most 65535 grants, lookups of whatever ids included, no two entries of the table share an id and none has id 0. |
| `BlobIds.IdsCount` | kernel/ipc/heap.c:139-143 | The k-th blob granted in any run gets the number 1 + k, counted to 2^32 - 1 and cut to 16 bits. |
| `BlobIds.NoIdZeroIff` | kernel/ipc/heap.c:139-143 | No blob is given id 0, the failure code, if and only if at most 65535 are granted. |
| `BlobIds.HeaderWritten` | kernel/ipc/heap.c:125-166 | One header is written, at the first block taken, with the id answered, the kind and size asked for and the data offset; bits and table change by exactly that blob, and a refusal changes nothing. |
| `BlobIds.ScanJumpsOver` | kernel/ipc/heap.c:216-240 | A scan that meets a blob of another id looks at none of its further blocks, whatever they hold, and goes on right behind it. |
| `BlobSpec.LostUntilFound` | kernel/ipc/heap.c:146-243 | In every run, a lost blob that is lost no more has been recorded by a lookup of its id on the way. |
| `BlobSpec.FullTableExample` | kernel/ipc/heap.c:146-191 | The 257th live blob is lost: without lookups its block stays taken through every later run. |
| `BlobSpec.FoundAgainExample` | kernel/ipc/heap.c:146-243 | After one free, looking it up and freeing it gives the block back, with all accounts right. |
| `BlobSpec.IdZeroStays` | kernel/ipc/heap.c:168-243 | No later run, lookups included, frees an entry of id 0. |
| `BlobSpec.CyclesReach` | kernel/ipc/heap.c:139-143 | Each allocation and free advances the id counter by one and restores everything else, so that counter is reached. |
| `BlobSpec.AllocKeepsHeaders` | kernel/ipc/heap.c:155-166 | The header in the first block of every known or lost blob describes it; writing a new one keeps this. This is what lookups go by. |
| `BlobSpec.FreeKeepsHeaders` | kernel/ipc/heap.c:168-191 | Freeing keeps the headers of all other known blobs right. |
| `BlobSpec.WrappedSizeExample` | kernel/ipc/heap.c:118-122 | A size of 0xFFFF_FFE0 is granted with no block at all. |
| `BlobSpec.IdZeroExample` | kernel/ipc/heap.c:139-143 | The 65536th allocation reports failure, and its block stays taken through every later run, whatever it looks up. |
| `BlobSpec.BlocksCoverIff` | kernel/ipc/heap.c:118-122 | The block count covers header and data if and only if the 32-bit sums do not wrap. |
| `BlobSpec.FreeKeeps` | kernel/ipc/heap.c:168-191 | Freeing keeps the accounting, clears exactly the blob's blocks and removes exactly its entry. |
| `BlobSpec.SwapRemoveKeepsOthers` | kernel/ipc/heap.c:183-185 | Swap-with-last removes exactly one entry, as multisets. |
| `BlobSpec.FreeUndoesAlloc` | kernel/ipc/heap.c:114-191 | Freeing right after allocating restores bitmap, counter and table. |
| `KernelBlobs.BlobHeap.FindFreeBlocks` | kernel/ipc/heap.c:49-65 | The one-pass run scan equals the leftmost search. |
| `KernelBlobs.BlobHeap.Alloc` | kernel/ipc/heap.c:114-166 | Bitmap, counters, table and block header in place equal the specified allocation. |
| `KernelBlobs.BlobHeap.Free` | kernel/ipc/heap.c:168-191 | The table scan and swap removal equal the specified free. |
| `KernelBlobs.BlobHeap.GetBlob` | kernel/ipc/heap.c:193-243 | The table loop and the offset loop with its 32-bit jumps equal the specified lookup, with the entry it adds. |
| `BridgeHeapSpec.FindIsDirectory` | bridge/heap.py:85-120 | The offset cache and the size-skipping scan behind it answer as a search of the live-blob directory would, and leave the cache right. |
| `BridgeHeapSpec.EveryRunKeepsIff` | bridge/heap.py:85-499 | All through a run headers, bitmap and cache are right if and only if no freed payload shows a header at a block boundary. |
| `BridgeHeapSpec.EveryRunFinds` | bridge/heap.py:85-499 | Through every run of allocations, frees, lookups and payload writes in which no freed payload shows a header, every lookup answers as the directory would. |
| `BridgeHeapSpec.EmptyHeapInv` | bridge/heap.py:45-52 | A freshly attached empty heap satisfies the invariant. |
| `BridgeHeapSpec.BlocksFit` | bridge/heap.py:324-325 | The block count covers header and data with less than a block to spare. |
| `BridgeHeapSpec.AllocateKeeps` | bridge/heap.py:316-390 | Allocation takes the leftmost room, fails for room only if there is none, and adds exactly one blob to the directory. |
| `BridgeHeapSpec.IdsRunOut` | bridge/heap.py:316-390 | Once next_blob_id has reached 2^16 no later run allocates anything. |
| `BridgeHeapSpec.IdsRunOutExample` | bridge/heap.py:316-390 | 65535 blobs allocated and freed from an empty heap come to that, with the heap empty. |
| `BridgeHeapSpec.FreeKeepsIff` | bridge/heap.py:450-499 | free_blob succeeds exactly on live ids, and the invariant of headers, bitmap and cache survives it if and only if the freed payload shows no header at a block boundary. |
| `BridgeHeapSpec.GhostBlobFound` | bridge/heap.py:85-120 | If the first header-like block of a freed payload names an id that is not live, looking that id up afterwards finds a blob there. |
| `BridgeHeapSpec.GhostExample` | bridge/heap.py:450-499 | From an empty heap: a payload holding a header for id 7 is freed, and id 7 is found. |
| `BridgeHeapSpec.PayloadWriteKeeps` | bridge/heap.py:219-251 | Writing inside a payload, whatever the bytes, disturbs no lookup. |
| `BridgeHeap.HeapManager.FindBlobOffset` | bridge/heap.py:85-120 | The scan loop with its cache writes equals the specified lookup. |
| `BridgeHeap.HeapManager.FindFreeBlocks` | bridge/heap.py:392-417 | The run scan equals the leftmost search. |
| `BridgeHeap.HeapManager.AllocateBlob` | bridge/heap.py:316-390 | The buffer writes equal the specified allocation; an id or size that does not fit the header changes nothing. |
| `BridgeHeap.HeapManager.FreeBlob` | bridge/heap.py:450-499 | The buffer writes equal the specified free. |
| `FlightSpec.SealOrderIsRecent` | kernel/trace/flightrec.c:98-119 | Read in seal order the ring is the last min(head, 256) events of the log; these are the last min(n, 256) of all n events if and only if the 32-bit counter has not just wrapped. |
| `FlightSpec.CounterWrapExample` | kernel/trace/flightrec.c:98-119 | After exactly 2^32 events the seal covers none of the 256 in the ring. |
| `FlightSpec.LogKeeps` | kernel/trace/flightrec.c:73-90 | Logging keeps the ring equal to the log's tail, across counter wrap-around. |
| `FlightSpec.NewestSpec` | kernel/trace/flightrec.c:174-189 | The duration reported is that of the newest matching STEP_END, or 0 without one. |
| `FlightSpec.PicksExactly` | kernel/trace/flightrec.c:191-229 | Step and violation statistics count exactly the matching events. |
| `FlightSpec.StatsAre` | kernel/trace/flightrec.c:191-232 | A job's statistics: how many of its events are step ends, the sum of their durations, how many are overruns or violations, and, with no zero stamp, the span from its least to its greatest time stamp. |
| `FlightSpec.TsAreExtremes` | kernel/trace/flightrec.c:206-214 | last_ts is the latest time stamp of the job; without zero stamps first_ts is the earliest; without events both are 0. |
| `FlightSpec.FirstIsLeastIff` | kernel/trace/flightrec.c:206-214 | first_ts is the earliest stamp if and only if no event of the job is stamped 0 or its last one is (0 is taken for unset). |
| `FlightRecorder.Recorder.Log` | kernel/trace/flightrec.c:73-90 | The ring write advances the log by one event. |
| `FlightRecorder.Recorder.LastDuration` | kernel/trace/flightrec.c:174-189 | The backward scan finds the newest match in the retained suffix. |
| `FlightRecorder.Recorder.GetJobStats` | kernel/trace/flightrec.c:191-232 | The accumulating loop equals the statistics of the retained suffix. |
| `FlightSeal.SealHash` | kernel/trace/flightrec.c:98-119 | The seal is the SHA-256 digest of the counter followed by the retained events in log order. |
| `ContractSpec.StateIsClosedForm` | kernel/contracts.c:79-197 | After any run, of any length: the usage fields show the totals, the violation fields the numbers of overruns mod 2^32, and the state is OK without overruns, SAFE_MODE from 3 CPU or 2 memory overruns on, WARNED otherwise, by the true numbers. |
| `ContractSpec.StoredCountsAgreeIff` | kernel/contracts.c:79-122 | The state is what the stored counts say if and only if neither limit was reached or a stored count still reaches its limit. |
| `ContractSpec.WrapExample` | kernel/contracts.c:79-100 | 2^32 CPU overruns reach SAFE_MODE with a stored count of 0. |
| `ContractSpec.PagesWithinBudget` | kernel/contracts.c:124-197 | With page calls only, usage is 4 KB per page held and never above the budget. |
| `ContractObject.TaskContract.ChargeCpu` | kernel/contracts.c:79-100 | Usage, violation count and transition in place. |
| `ContractObject.TaskContract.ChargeMemory` | kernel/contracts.c:102-122 | The same for memory. |
| `ContractObject.TaskContract.AllocPage` | kernel/contracts.c:124-179 | Denied in safe mode or over budget; a page is had exactly if neither holds and the allocator grants it. |
| `ContractObject.TaskContract.FreePage` | kernel/contracts.c:181-197 | Credits one page. |

## Left out

- wasm3 floats, 64-bit and two-slot types, calls, blocks, loops, branches, globals and memory: the compiler theorem is about straight-line one-slot i32 code; the parallel move covers what block exits add. For two-slot types the use-count invariant does not hold of the code (kernel/lib/wasm3/m3_compile.c:401-424).
- The typeStack, stack-polymorphic state, branch patching, backtraces and tracing of wasm3.
- M3Correct.CompilerPreservesMeaning: pages are not part of it but of M3Paged.PagedCodePreservesMeaning, where compilation comes first and emission second, so a page refused midway is an emission that fails; the byte scan of ReserveConstants is replaced by an arbitrary reserved size up to its maximum; arguments and results are bounded by 1000 as the parser bounds them; the stack index that a failed Push leaves incremented is not modelled, since compilation then stops.
- M3Success.FunctionCompilesIff: within the limits it names; at a limit each opcode is described by M3Success.CompilesIff.
- M3Paged.PagedCodePreservesMeaning: op pointers are numbers; op_Entry's function pointer is an operand that nothing reads.
- M3Compilation.Compilation.PushConst: negative i32 constants are never found in the pool again, as in the source, whose comparison sign-extends one side (kernel/lib/wasm3/m3_compile.c:659-700).
- CodePages.PageBreaksInvisible, CodePages.ReadsBackIff: page buffers are values indexed by page, not C arrays; words later overwritten by branch patching are not covered, and the address words of a branch table are values of the program (CodePages.TargetReads says what stands where each target began).
- CodeRuntime.Runtime.RemoveCodePageOfCapacity: the list is a sequence of pages; relinking of next pointers, at the front or in the middle, is not modelled.
- Weak memory, interrupts and the response drain in the interrupt handler (kernel/ipc/ipc.c:462-476): sequential consistency and one reader per ring are assumed. Doorbells and ring magic checks are left out.
- kernel/kmain64.cpp's main loop accepts any OK response as the awaited one, so request matching there is not a kept property.
- Kheap: header size 48 as on x86_64; corruption checks are left out, as are addresses near the top of the address space. A header stands exactly where one was stored: the model does not say what its bytes look like, so neither payload bytes that imitate a header's magic nor a client overwriting one is covered.
- Kheap.KernelHeap.Kfree: a pointer in front of which a client has written a header-like payload is not covered, as above.
- Kheap.KernelHeap.Krealloc: with a nonzero size the pointer must not be one the heap has already got back; the source would go on and use the free block.
- PmmObject.PageAllocator.AllocPages: requires a run to exist for contiguous requests on a named node, since the source does not return otherwise; parsing of the multiboot structures and logging are left out.
- PmmBoot.BootLeavesUsed: the kernel's start does not lie above its end.
- VmmSpec.MapPageChangesOnlyThatPage: not for pages under a 4 MB directory entry, where it fails (VmmSpec.HugeIsOverwritten, VmmSpec.MapTakesEffectIff).
- VmmSpec.UnmapUndoesMap: the same.
- VmmSpec.UnmapChangesOnlyThatPage: the same.
- VmmSpec.MapRangeChangesOnlyRange: not for ranges that touch a 4 MB entry; what one page of such a range does is VmmSpec.HugeIsOverwritten.
- VmmSpec.MapTakesEffectIff: the data of the 4 MB entry lies in the modelled memory and does not start with the directory itself.
- VmmObject.AddressSpaces.MapRange: the same ranges as VmmSpec.MapRangeChangesOnlyRange.
- VmmObject.AddressSpaces.MapPage: a 4 MB entry must map memory the model has; so for UnmapPage and VirtToPhys.
- VmmObject.AddressSpaces.UnmapPage: as for MapPage.
- VmmObject.AddressSpaces.VirtToPhys: as for MapPage.
- Vmm: flags are below 2^12; TLB invalidation and CR3 itself are left out. Directory entry 0 of the kernel's directory must not be a table, or destroying a user directory would free it.
- VmmLife.LifeRestoresAllocator: for kernel directories whose entry 0 names no table; otherwise it fails already without any action (VmmLife.EmptyLifeRestoresIff). The owner of the address space maps only pages it holds, at unmapped user pages; remapping over a mapping would lose the old page, as in the source.
- VmmLife.LifeSharesKernel: for the same kernel directories; at creation every directory shares (VmmLife.NewDirectorySharesKernel). A 4 MB entry resolves to itself and the offset in it, whatever lies there.
- VmmLife.RightsAreThePages: for the same kernel directories.
- VmmLife.EmptyLifeRestoresIff: a table in entry 0 lies at or below the highest page.
- JobEdges.StepsFollowWhatTheyWaitFor: for jobs that name no step twice; JobEdges.AlwaysInOrderIff covers the others.
- JobScheduler.JobGraph.RunJob: requires distinct ids and right ready flags; without them the loop need not end (JobSpec.StopsIff).
- Div64.Div: excludes INT64_MIN operands, whose negation is undefined in C.
- Div64.Mod: excludes INT64_MIN operands, whose negation is undefined in C.
- BlobSpec, BridgeHeapSpec: each side alone. The two sides disagree about the header's offset field (kernel/ipc/heap.c:162, bridge/heap.py:360-369), the kernel's free leaves the header magic in place, and the bitmap of a full-size heap reaches into the mesh area (kernel/ipc/ipc_proto.h:259-279); checksums and tensors are left out. Kernel headers are those heap_alloc has written, known, lost or stale: payload bytes that look like a header are not covered on the kernel's side, nor a data region that shows headers before heap_init.
- BlobIds.ScanJumpsOver: for sizes whose block count does not wrap; a wrapped one makes the scan go on at the next block.
- BridgeHeapSpec.EveryRunFinds: for runs that BridgeHeapSpec.EveryRunKeepsIff admits; BridgeHeapSpec.GhostBlobFound says what happens otherwise.
- BridgeHeapSpec.FreeKeepsIff: the equivalence is with the invariant, as said above.
- FlightSpec.StatsAre: the span is stated for stamps above 0; FlightSpec.FirstIsLeastIff says what a stamp of 0 does.
- FlightRecorder: span handles and console dumps are left out; how an event and the counter look as bytes is a parameter.
- ContractSpec, ContractObject: contract_set_state called from outside, the registry and admission control are left out.
- Drivers, boot code, console, shell, WASI and libc bindings, Gym and model handlers, mesh table, oracle, time conversion, and kernel/trace/ifr.c, whose build-then-verify is not a property of the code as written.
