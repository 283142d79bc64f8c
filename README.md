# RISK-XVII interpreter loop, modelled in Dafny

This project models the execution engine of the `vm_riskxvii` emulator: one
iteration of the fetch–execute loop in `main.c`, and the loop itself. An
iteration has four parts:

- The instruction switch computes the ALU, load, store, branch and jump effects
  on the program counter and the 32-entry register file `R`.
- The stop test ends the loop on an undecodable word.
- The virtual-operation dispatch handles what a store into the memory-mapped
  window reports. Only three of these operations change modelled state: halt,
  the heap allocator and heap free. The allocator and free work on the
  128-flag block bitmap `avail_blocks`.
- Register 0 is forced to 0, and the PC moves to the next word unless the
  instruction jumped.

The project has three layers:

- **Values.** `Words` holds u32 words as integers in [0, 2^32), with
  wrap-around written out and the i32 view. `Isa` holds the decoded
  instruction record and the memory-accessor interface. `Layout` holds the
  memory constants. `Alu` holds the values the switch computes. `Heap` holds
  the allocator and free as functions of the bitmap.
- **Specification.** `Semantics` defines one iteration (`Next`) and the loop
  (`Run`) as functions of a state `(pc, regs, avail, status)`. It proves what
  each kind of instruction does.
- **Imperative engine.** `Engine.Machine` is the interpreter as the C code
  runs it. It has a register array and a bitmap array updated in place, the
  switch, the allocator's nested loops, free, the loop body and the loop.
  Each method is proved to leave the machine in exactly the state the
  `Semantics` functions give.

Every way the loop can end is a terminal status:

- `Stopped`: the loop was left, either through an undecodable word or through
  a PC past instruction memory.
- `Halted`: the virtual halt operation ran.
- `Fatal`: an allocation or a free failed.

Two places where the code does something other than what one would expect,
modelled as written:

- A 64-byte allocation takes two blocks, not one, because `min_blocks` is
  `size / 64 + 1` (`Heap.AllocFromEmpty`).
- The allocator's search can only succeed at block 0
  (`Heap.FirstFitOnlyAtZero`). It is not a first-fit over contiguous ranges.

Assumptions the model makes:

- The register reinterpretation macro `R_CAST` is not visible. Because the
  register-type array is zeroed and never assigned, `R_CAST(x, 0)` is taken
  as the i32 view of `x`.
- Under that reading, ADD and SUB (main.c:122, main.c:128) add and subtract
  two i32 values. Signed overflow there is undefined behaviour in C; the
  model takes it as two's-complement wrap-around. The u32 sum or difference
  of the raw words then has the same bits as the i32 one
  (`Words.WrapAgreesWithSigned`).
- The bitwise operations are modelled on the raw u32 bits. An i32 operand
  converted to u32 keeps its bits, so this assumes no more than
  two's-complement representation; no lemma states it separately.
- Plain `char` is taken as signed, so LB sign-extends the byte it reads
  (main.c:163-165). On a platform where `char` is unsigned, LB would behave
  like LBU.
- The decoded immediate is taken as a raw u32, so LUI's `>> 12` is a logical
  shift.
- The values of the configuration macros are not visible. The model uses
  `INSTRUCTION_MEMORY_SIZE` = 1024, `MAX_BANKS` = 128,
  `NON_DYNAMIC_SIZE` = 0xb700, the literal heap base written to R[28], and
  `TOTAL_MEM_SIZE` = 0xb700 + 128 · 64.
- The memory accessors of `memory.c` are not part of this model. Each
  iteration receives a `Bus`:
  - `load` gives each load accessor's status and out-parameter;
  - `store` gives each store accessor's status and reported virtual operation;
  - `word` gives the memory words the loop reads directly, at 0x830 and
    0x834, after that iteration's store.
- Every accessor call receives `avail_blocks` (main.c:164-211). The
  accessors are assumed to leave it unchanged, and to leave the registers
  and the PC unchanged. Only the loop body changes the bitmap, so the
  `Semantics.Next` clause that the bitmap changes only on a store depends
  on this assumption.
- Shift counts of 32 or more are undefined in C. The model takes them
  modulo 32, as the hardware's variable shifts do.

## Model

| member | source | states |
|---|---|---|
| Words.WrapAgreesWithSigned | main.c:121-128 | u32 addition and subtraction of raw words, read back as u32, equal the i32 addition and subtraction of the i32 views that R_CAST yields; adding a u32 immediate to the i32 view gives the same bits as adding it to the raw word |
| Words.SignExtend8Bits | main.c:161-168 | LB's `char` widening keeps the low byte, fills the upper 24 bits with copies of bit 7, and gives an i32 in [-128, 128) with the same low byte |
| Words.SignExtend16Bits | main.c:169-176 | LH's i16 widening keeps the low halfword, fills the upper 16 bits with copies of bit 15, and gives an i32 in [-32768, 32768) with the same low halfword |
| Words.ZeroExtendBits | main.c:186-201 | LBU and LHU widening keeps the low byte or halfword and clears every bit above it |
| Alu.LoadUpper | main.c:130-132 | LUI stores `imm >> 12`: a value below 2^20 that, shifted back up by 12, is the immediate with its low 12 bits cleared |
| Alu.ShiftLeftBits | main.c:152-154 | SLL multiplies R[rs1] by 2 to the power of the count, wrapping modulo 2^32 |
| Alu.ShiftRightBits | main.c:155-157 | SRL never increases R[rs1], keeps it for a count of 0, and clears the top `count` bits (no sign fill) |
| Alu.ShiftRightMovesBits | main.c:155-157 | for 0 < n < 32, SRL's result shifted back up by n is R[rs1] with its low n bits cleared; with the bound above, the result is exactly the high 32-n bits of R[rs1] moved down, zero-filled |
| Alu.RotateRightBits | main.c:158-160 | the SRA expression keeps R[rs1] for a count of 0, and keeps a word whose bits are all 0 or all 1 for every count |
| Alu.RotateRightAsWritten | main.c:158-160 | for 0 < n < 32 the modelled SRA is exactly `(a >> n) \| (a << (32 - n))` |
| Alu.RotateRightMovesBits | main.c:158-160 | for 0 < n < 32, SRA puts the high 32-n bits of R[rs1] at the bottom and its low n bits at the top, without sign extension |
| Alu.RotateRightInverse | main.c:158-160 | for 0 < n < 32, SRA by n followed by SRA by 32-n gives the original word back |
| Alu.ShiftRightArithmeticRotates | main.c:158-160 | SRA of 1 by 1 gives 0x80000000, and SRA of 0x80000000 by 4 gives 0x08000000, where an arithmetic shift would give 0 and 0xF8000000 |
| Alu.AluValue | main.c:121-224 | ADD, ADDI and SUB store the wrapped i32 sum or difference of the R_CAST views; LUI stores a value below 2^20; the four set-less-than instructions store 0 or 1 |
| Alu.ArithmeticWraps | main.c:121-129 | ADD, ADDI and SUB give the mathematical sum or difference, corrected by 2^32 exactly when it leaves the u32 range; 0xFFFFFFFF + 1 gives 0 |
| Alu.SetLessMeaning | main.c:213-224 | SLT, SLTI and SLTIU yield 1 exactly when the i32 views compare below and 0 otherwise; SLTU yields 1 exactly when the u32 values compare below; SLTIU always equals SLTI |
| Alu.SetLessImmediateUnsignedIsSigned | main.c:222-224 | SLTIU of 1 against the immediate 0xFFFFFFFF yields 0, while an unsigned comparison (SLTU) of the same values yields 1 |
| Alu.BranchTaken | main.c:225-259 | BEQ is taken exactly when SUB of the two registers gives 0 and BNE exactly when it does not; BLT/BGE exactly when SLT gives 1/0; BLTU/BGEU exactly when SLTU gives 1/0 |
| Heap.MinBlocks | main.c:316-317 | `min_blocks` is at least 1 and is the fewest 64-byte blocks whose capacity exceeds the requested size, so a 64-byte request needs two |
| Heap.FreeCount | main.c:327-332 | the count of free blocks in a window never exceeds the window's width, and is 0 for an empty window |
| Heap.FreeCountBound | main.c:327-332 | the count reaches the window's width exactly when every block in the window is free |
| Heap.FirstFit | main.c:326-347 | a start the search accepts is at least where the search began, names a block, and lies below min_blocks |
| Heap.FirstFitOnlyAtZero | main.c:326-347 | because the inner loops stop at min_blocks rather than i + min_blocks, the search succeeds exactly when it starts at 0 and blocks 0 .. min_blocks-1 are free, and then accepts 0 |
| Heap.Mark | main.c:336-342 | marking sets every flag in the window start .. min_blocks-1 to used, leaves every flag outside it as it was, and keeps the bitmap's length |
| Heap.Alloc | main.c:314-354 | a successful allocation returns a bitmap of the same 128 flags |
| Heap.AllocSucceedsExactly | main.c:314-354 | allocation succeeds exactly when min_blocks ≤ MAX_BANKS and blocks 0 .. min_blocks-1 are free; it then returns 0xb700, marks exactly those blocks used and leaves every other flag unchanged |
| Heap.AllocFromEmpty | main.c:316-342 | on an all-free heap every request that fits succeeds at 0xb700 and marks blocks 0 .. size/64: one block below 64 bytes, two for a 64-byte request |
| Heap.AllocAfterAllocFails | main.c:314-354 | after one successful allocation every further allocation fails, whatever its size |
| Heap.Release | main.c:355-381 | a successful free returns a bitmap of the same 128 flags |
| Heap.ReleaseSucceedsExactly | main.c:355-381 | free succeeds exactly when NON_DYNAMIC_SIZE ≤ address < TOTAL_MEM_SIZE, address % 4 == 0 and the address's block is used; the `% 64` alternative adds nothing; on success it clears exactly that flag |
| Heap.AllocThenRelease | main.c:314-381 | freeing the address an allocation returned, read back as i32, succeeds and clears block 0; for a request below 64 bytes this restores the bitmap |
| Semantics.Widen | main.c:161-201 | the out-parameter of LW is stored as is; those of LB and LBU keep their low byte and those of LH and LHU their low halfword; LB's and LH's results are i8 and i16 values, LBU's and LHU's are below 2^8 and 2^16 |
| Semantics.AluEffect | main.c:121-224 | a register-computing case changes no register other than rd, leaves the PC, does not jump, stop or fail, and reports no virtual operation |
| Semantics.LoadEffect | main.c:161-201 | a load case changes no register other than rd, leaves the PC, does not jump or stop, reports no virtual operation, and never sets failed_memory whatever the accessor's status |
| Semantics.StoreEffect | main.c:202-212 | the store case of the switch changes no register and not the PC, does not jump or stop, and never sets failed_memory whatever the accessor's status |
| Semantics.BranchEffect | main.c:225-260 | a branch case changes no register; it jumps exactly when its comparison holds and otherwise leaves the PC; it never stops, fails or reports a virtual operation |
| Semantics.JumpEffect | main.c:261-270 | JAL and JALR write PC + 4 into rd and change no other register; they always jump and never stop, fail or report a virtual operation |
| Semantics.Execute | main.c:112-271 | the switch never sets failed_memory, sets should_terminate exactly for INSTRUCTION_INVALID, and reports a virtual operation only for a store |
| Semantics.Retire | main.c:385-390 | an iteration that keeps running has R[0] == 0 and every other register as the switch left it, the bitmap it is given, and the PC past the instruction unless the instruction jumped |
| Semantics.HeapAllocStep | main.c:314-354 | HEAP_ALLOC keeps running exactly when min_blocks ≤ MAX_BANKS and blocks 0 .. min_blocks-1 are free, and then leaves 0xb700 in R[28]; otherwise the machine dies with PC, registers and bitmap as they were |
| Semantics.HeapFreeStep | main.c:355-381 | HEAP_FREE keeps running exactly when the i32 address at 0x834 lies in the heap, is a multiple of 4 and names a used block; otherwise the machine dies with PC, registers and bitmap as they were |
| Semantics.Dispatch | main.c:274-390 | after the switch, the loop is left exactly when should_terminate or failed_memory is set; a machine that keeps running has R[0] == 0; one that ends keeps the switch's PC and registers and the bitmap; only allocation and free change the bitmap |
| Semantics.Next | main.c:95-390 | one iteration keeps 32 registers and 128 flags, leaves the loop exactly when the word is INSTRUCTION_INVALID, leaves R[0] == 0 whatever was written to it when it keeps running, and changes the bitmap only on a store |
| Semantics.NextByKind | main.c:112-390 | only a store reaches the virtual-operation dispatch, an undecodable word stops the machine exactly as it was, and every other instruction retires its switch effect |
| Semantics.DispatchAfterStore | main.c:274-390 | after a store, the iteration keeps the state's shape and never leaves the loop; it either moves to PC + 4 with R[0] == 0 or ends the machine with PC, registers and bitmap unchanged |
| Semantics.NextEndsInPlace | main.c:274-381 | every way an iteration can end the machine (undecodable word, halt, failed allocation or free) leaves PC, registers and bitmap as they were; only a store can halt or kill it |
| Semantics.NextKeepsZeroRegister | main.c:385 | an iteration that starts with R[0] == 0 ends with R[0] == 0, whatever status it ends in |
| Semantics.NextSequentialPc | main.c:385-390 | an instruction that neither branches nor jumps moves the PC by exactly 4 when the machine keeps running, and leaves it unchanged when the machine ends |
| Semantics.NextBranchTarget | main.c:225-259 | a conditional branch keeps running and changes no register except R[0] := 0 and no flag; the PC becomes PC + imm when the branch is taken and PC + 4 otherwise |
| Semantics.NextBranch | main.c:225-259 | BEQ/BNE compare the raw registers for equality, BLT/BGE compare their i32 views, and BLTU/BGEU compare them as u32; a taken branch sets the PC to its own address + imm and an untaken one to PC + 4 |
| Semantics.NextJump | main.c:261-270 | JAL and JALR write old PC + 4 into rd and touch no other register; JAL jumps to PC + imm; JALR reads rs1 after that write, so with rd == rs1 it jumps to old PC + 4 + imm |
| Semantics.NextAlu | main.c:121-224 | a register-computing instruction writes its ALU value to rd, touches no other register and no flag, and moves to PC + 4 |
| Semantics.NextLoad | main.c:161-201 | a load writes the accessor's widened out-parameter to rd only and moves to PC + 4, whatever status the accessor reports |
| Semantics.NextStore | main.c:202-390 | the store case of the switch changes no register; a reported halt ends the machine as it is; any operation other than halt, allocation and free (or none) just retires, whatever status the accessor reports |
| Semantics.NextHeapAlloc | main.c:314-354 | a store that triggers allocation keeps running exactly when min_blocks ≤ MAX_BANKS and blocks 0 .. min_blocks-1 are free; it then sets R[28] = 0xb700, marks exactly those blocks used and moves to PC + 4; otherwise the machine dies with its state unchanged |
| Semantics.NextHeapFree | main.c:355-381 | a store that triggers free keeps running exactly when the i32 address at 0x834 lies in the heap, is a multiple of 4 and names a used block; it then clears that flag alone and moves to PC + 4; otherwise the machine dies with its state unchanged |
| Semantics.Run | main.c:94-391 | the loop keeps 32 registers and 128 flags; a machine still running at its end has its PC inside instruction memory; a machine that has already ended is left as it is |
| Semantics.RunKeepsZeroRegister | main.c:94-391 | from a state with R[0] == 0, such as boot, every state the loop reaches has R[0] == 0 |
| Semantics.RunStopsOnlyAtEndOrInvalid | main.c:94-391 | when the loop is left, the PC is past instruction memory or points at an undecodable word |
| Engine.Machine.constructor | main.c:24-39 | the machine starts with PC 0, all registers 0, all heap blocks free, and is running |
| Engine.Machine.ExecuteAlu | main.c:121-224 | the in-place register-computing cases leave the register array as the AluEffect function says |
| Engine.Machine.ExecuteLoad | main.c:161-201 | the in-place load cases leave the register array as the LoadEffect function says, and combine the accessor's status into failed_memory by `&=` |
| Engine.Machine.ExecuteBranch | main.c:225-260 | the in-place branch cases set the PC and the jumped flag as the BranchEffect function says |
| Engine.Machine.ExecuteJump | main.c:261-270 | the in-place JAL and JALR cases leave the register array and the PC as the JumpEffect function says |
| Engine.Machine.ExecuteInstruction | main.c:112-271 | the in-place switch leaves the register array, the PC and the jumped / terminate / failed / virtual-operation flags exactly as the Execute function says, and leaves the bitmap alone |
| Engine.Machine.CountFree | main.c:327-332 | the allocator's counting loop returns the FreeCount of its window and changes nothing |
| Engine.Machine.MarkFrom | main.c:334-343 | the allocator's marking loop marks blocks start .. min_blocks-1 as the Mark function says and puts the address of block `start` in R[28] |
| Engine.Machine.HeapAlloc | main.c:314-354 | the nested allocator loops succeed exactly when the Alloc function does; on success they set the bitmap and R[28] as it says; on failure both arrays are unchanged |
| Engine.Machine.HeapFree | main.c:355-381 | the in-place free succeeds exactly when the Release function does and then leaves its bitmap; otherwise the bitmap is unchanged |
| Engine.Machine.FinishIteration | main.c:274-390 | the stop test, the virtual-operation dispatch, the R[0] reset and the PC advance update the machine exactly as the Dispatch function says |
| Engine.Machine.Step | main.c:95-390 | one iteration of the loop body updates the machine in place exactly as the Next function says, so every Semantics.Next* property holds of it |
| Engine.Machine.Run | main.c:94-393 | the loop updates the machine exactly as the Run function says, so Semantics.RunKeepsZeroRegister and Semantics.RunStopsOnlyAtEndOrInvalid hold of it |

Some lemmas only unfold the model's own definitions for the proofs above, so
they have no row:

- `Isa.FamiliesDisjoint`: the opcode families do not overlap.
- `Words.WrapOnce`: the closed form of a single wrap-around.
- `Semantics.ExecuteByFamily`: `Execute` takes its family's case.
- `Semantics.DispatchRetires`: with nothing to dispatch, an iteration retires.
- `Semantics.RunUnfold`: one step of `Run`.
- `Semantics.RunEnds`: how `Run` ends when it takes no further iteration.

## Left out

- Command-line handling and image loading, including the file-size check (main.c:19-62). This is file I/O. The model starts from the loaded state with a decoded program.
- Instruction decoding (`instruction_decode`) and its debug listing: `instruction.c` is not part of this model. The decoded program is an input, fixed for the run, since the instruction window is written only at load time.
- The debug `#ifdef` listing and trace paths (main.c:64-91, main.c:104-109). They are compile-time toggles that only print.
- The accessors' internals (bounds checks, the memory-mapped window, READ_CHARACTER and READ_SINT): `memory.c` is not part of this model. Each iteration's accessor replies are parameters (`Bus`), so the contents of data memory are not modelled.
- Console output from PRINT_CHAR, PRINT_SINT, PRINT_UINT, DUMP_PC, DUMP_REG, DUMP_MEM_W, the diagnostics and `register_dump` (main.c:285-313, main.c:393). These are output only. `util.c` is not part of this model.
- The READ_CHARACTER and READ_SINT cases of the dispatch (main.c:299-304). The loop does nothing for them, because the memory accessors perform the reads.
- The unused `MemoryBank` typedef (main.c:13-15) and `executed_instructions_count` (main.c:93, main.c:386). Neither affects behaviour.
- `free`/`exit` teardown. Halt and the allocator's and free's error exits are the terminal statuses `Halted` and `Fatal`.
- The register-type array `RT`. It is all zero and never assigned, so it is not a field; see the `R_CAST` assumption above.
- Alu.ShiftLeftBits, Alu.ShiftRightBits, Alu.RotateRightBits: shift counts of 32 or more (and SRA's `32 - 0`) are undefined behaviour in C. They are modelled as taken modulo 32.
- Semantics.Run, Engine.Machine.Run: the loop takes one `Bus` per iteration, so a run stops after `|buses|` iterations even if the machine is still running. A machine that never halts is covered by taking longer sequences.
- Heap.Release, Engine.Machine.HeapFree: the block index is computed only inside the range check. C computes it earlier, with truncating division, but uses it only after the check, where the operands are non-negative.
