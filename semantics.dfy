/**
 * One iteration of the interpreter loop as a function of the machine state,
 * the decoded instruction and the memory subsystem's replies, and the loop
 * itself as a function of the decoded program. The Engine module's class
 * is proved to update its arrays exactly as these functions say.
 */
module Semantics {
  import opened Words
  import opened Isa
  import opened Layout
  import opened Alu
  import opened Heap

  /**
   * Where the machine is: still looping; stopped by leaving the loop (an
   * undecodable word or the PC past instruction memory), after which the
   * registers are dumped; killed by a failed allocation or free; or halted
   * by the virtual halt operation.
   */
  datatype Status = Running | Stopped | Fatal | Halted

  /** The modelled machine state: PC, register file, heap bitmap (`true` = in use) and status. */
  datatype State = State(pc: Word, regs: seq<Word>, avail: seq<bool>, status: Status)
  {
    predicate WellFormed() {
      |regs| == 32 && |avail| == MaxBanks
    }
  }

  /** The state at the start of the loop: PC 0, every register 0, every heap block free. */
  function Boot(): State {
    State(0, seq(32, _ => 0), EmptyHeap(), Running)
  }

  /**
   * What the instruction switch leaves behind: the register file and PC, and
   * the flags `jumped`, `should_terminate`, `failed_memory` and
   * `virt_instruction` that the rest of the iteration looks at.
   */
  datatype Effect = Effect(
    regs: seq<Word>, pc: Word,
    jumped: bool, terminate: bool, failed: bool, virt: VirtualOp)

  /** The accessor a load goes through, and how its out-parameter is widened into a register. */
  function LoadAccessorOf(op: Opcode): LoadAccessor
    requires op.IsLoad()
  {
    match op
    case LB => GetChar
    case LH => GetI16
    case LW => GetI32
    case LBU => GetByte
    case LHU => GetU16
  }

  /** A C `char` or `i16` is sign-extended into the u32 register, a `byte` or `u16` zero-extended. */
  function Widen(acc: LoadAccessor, x: Word): (r: Word)
    ensures acc == GetI32 ==> r == x
    ensures acc == GetChar || acc == GetByte ==> r % 0x100 == x % 0x100
    ensures acc == GetI16 || acc == GetU16 ==> r % 0x1_0000 == x % 0x1_0000
    ensures acc == GetChar ==> -0x80 <= Signed(r) < 0x80
    ensures acc == GetI16 ==> -0x8000 <= Signed(r) < 0x8000
    ensures acc == GetByte ==> r < 0x100
    ensures acc == GetU16 ==> r < 0x1_0000
  {
    match acc
    case GetChar => SignExtend8(x)
    case GetI16 => SignExtend16(x)
    case GetI32 => x
    case GetByte => ZeroExtend8(x)
    case GetU16 => ZeroExtend16(x)
  }

  /** The accessor a store goes through. */
  function StoreAccessorOf(op: Opcode): StoreAccessor
    requires op.IsStore()
  {
    match op
    case SB => SetByte
    case SH => SetU16
    case SW => SetU32
  }

  /** A load; `failed_memory` starts at 0 and is combined with the accessor's status by `&=`. */
  function LoadEffect(s: State, inst: Instruction, bus: Bus): (e: Effect)
    requires s.WellFormed() && inst.op.IsLoad()
    ensures |e.regs| == 32 && e.pc == s.pc
    ensures forall r :: 0 <= r < 32 && r != inst.rd ==> e.regs[r] == s.regs[r]
    ensures !e.jumped && !e.terminate && !e.failed && e.virt == VirtualNone
  {
    var acc := LoadAccessorOf(inst.op);
    var reply := bus.load(acc, Wrap(s.regs[inst.rs1] + inst.imm));
    Effect(s.regs[inst.rd := Widen(acc, reply.value)], s.pc, false, false, false && reply.ok, VirtualNone)
  }

  /** A store of the second source register; the accessor may select a virtual operation. */
  function StoreEffect(s: State, inst: Instruction, bus: Bus): (e: Effect)
    requires s.WellFormed() && inst.op.IsStore()
    ensures e.regs == s.regs && e.pc == s.pc
    ensures !e.jumped && !e.terminate && !e.failed
  {
    var reply := bus.store(StoreAccessorOf(inst.op), Wrap(s.regs[inst.rs1] + inst.imm), s.regs[inst.rs2]);
    Effect(s.regs, s.pc, false, false, false && reply.ok, reply.op)
  }

  /** A conditional branch: when taken, the PC moves by the immediate from the branch's own address. */
  function BranchEffect(s: State, inst: Instruction): (e: Effect)
    requires s.WellFormed() && inst.op.IsBranch()
    ensures e.regs == s.regs
    ensures e.jumped <==> BranchTaken(inst.op, s.regs[inst.rs1], s.regs[inst.rs2])
    ensures !e.jumped ==> e.pc == s.pc
    ensures !e.terminate && !e.failed && e.virt == VirtualNone
  {
    if BranchTaken(inst.op, s.regs[inst.rs1], s.regs[inst.rs2])
    then Effect(s.regs, Wrap(s.pc + inst.imm), true, false, false, VirtualNone)
    else Effect(s.regs, s.pc, false, false, false, VirtualNone)
  }

  /** A register-computing instruction: its value goes to `rd`. */
  function AluEffect(s: State, inst: Instruction): (e: Effect)
    requires s.WellFormed() && inst.op.IsAlu()
    ensures |e.regs| == 32 && e.pc == s.pc
    ensures forall r :: 0 <= r < 32 && r != inst.rd ==> e.regs[r] == s.regs[r]
    ensures !e.jumped && !e.terminate && !e.failed && e.virt == VirtualNone
  {
    var v := AluValue(inst.op, s.regs[inst.rs1], s.regs[inst.rs2], inst.imm);
    Effect(s.regs[inst.rd := v], s.pc, false, false, false, VirtualNone)
  }

  /**
   * JAL and JALR: the link value PC + 4 goes to `rd` first; JALR then reads
   * `rs1` from the updated register file.
   */
  function JumpEffect(s: State, inst: Instruction): (e: Effect)
    requires s.WellFormed() && inst.op.IsJump()
    ensures |e.regs| == 32 && e.regs[inst.rd] == Wrap(s.pc + 4)
    ensures forall r :: 0 <= r < 32 && r != inst.rd ==> e.regs[r] == s.regs[r]
    ensures e.jumped && !e.terminate && !e.failed && e.virt == VirtualNone
  {
    var linked := s.regs[inst.rd := Wrap(s.pc + 4)];
    if inst.op == JAL then Effect(linked, Wrap(s.pc + inst.imm), true, false, false, VirtualNone)
    else Effect(linked, Wrap(linked[inst.rs1] + inst.imm), true, false, false, VirtualNone)
  }

  /** The instruction switch: the effect of one decoded instruction. */
  function Execute(s: State, inst: Instruction, bus: Bus): (e: Effect)
    requires s.WellFormed()
    ensures |e.regs| == 32 && !e.failed
    ensures e.terminate <==> inst.op == InstructionInvalid
    ensures e.virt != VirtualNone ==> inst.op.IsStore()
  {
    if inst.op.IsAlu() then AluEffect(s, inst)
    else if inst.op.IsLoad() then LoadEffect(s, inst, bus)
    else if inst.op.IsStore() then StoreEffect(s, inst, bus)
    else if inst.op.IsBranch() then BranchEffect(s, inst)
    else if inst.op.IsJump() then JumpEffect(s, inst)
    else if inst.op == InstructionInvalid then Effect(s.regs, s.pc, false, true, false, VirtualNone)
    else Effect(s.regs, s.pc, false, false, false, VirtualNone)
  }

  /** The end of an iteration that keeps running: register 0 forced to 0, PC advanced unless it jumped. */
  function Retire(e: Effect, regs: seq<Word>, avail: seq<bool>): (r: State)
    requires |regs| == 32 && |avail| == MaxBanks
    ensures r.WellFormed() && r.status == Running && r.avail == avail
    ensures r.regs[0] == 0 && forall k :: 0 < k < 32 ==> r.regs[k] == regs[k]
    ensures !e.jumped ==> r.pc == Wrap(e.pc + 4)
    ensures e.jumped ==> r.pc == e.pc
  {
    State(if e.jumped then e.pc else Wrap(e.pc + 4), regs[0 := 0], avail, Running)
  }

  /** HEAP_ALLOC: the size is the word at 0x830; a failed allocation kills the machine. */
  function HeapAllocStep(avail: seq<bool>, e: Effect, bus: Bus): (r: State)
    requires |avail| == MaxBanks && |e.regs| == 32
    ensures r.WellFormed() && (r.status == Running || r.status == Fatal)
    ensures r.status == Running <==>
      var m := MinBlocks(bus.word(AllocSizeAddress));
      m <= MaxBanks && AllFree(avail, m)
    ensures r.status == Fatal ==> r == State(e.pc, e.regs, avail, Fatal)
    ensures r.status == Running ==> r.regs[AllocResultReg] == HeapBase
  {
    AllocSucceedsExactly(avail, bus.word(AllocSizeAddress));
    match Alloc(avail, bus.word(AllocSizeAddress))
    case OutOfMemory => State(e.pc, e.regs, avail, Fatal)
    case Allocated(base, marked) => Retire(e, e.regs[AllocResultReg := base], marked)
  }

  /** HEAP_FREE: the address is the i32 view of the word at 0x834; a failed free kills the machine. */
  function HeapFreeStep(avail: seq<bool>, e: Effect, bus: Bus): (r: State)
    requires |avail| == MaxBanks && |e.regs| == 32
    ensures r.WellFormed() && (r.status == Running || r.status == Fatal)
    ensures r.status == Running <==>
      var address := Signed(bus.word(FreeAddressAddress));
      && NonDynamicSize <= address < TotalMemSize
      && address % 4 == 0
      && avail[(address - NonDynamicSize) / 64]
    ensures r.status == Fatal ==> r == State(e.pc, e.regs, avail, Fatal)
  {
    ReleaseSucceedsExactly(avail, Signed(bus.word(FreeAddressAddress)));
    match Release(avail, Signed(bus.word(FreeAddressAddress)))
    case None => State(e.pc, e.regs, avail, Fatal)
    case Some(cleared) => Retire(e, e.regs, cleared)
  }

  /**
   * What follows the switch, given the heap bitmap and the switch's effect:
   * the stop test, the virtual-operation dispatch, then retirement.
   */
  function Dispatch(avail: seq<bool>, e: Effect, bus: Bus): (r: State)
    requires |avail| == MaxBanks && |e.regs| == 32
    ensures r.WellFormed()
    ensures r.status == Stopped <==> e.terminate || e.failed
    ensures r.status == Running ==> r.regs[0] == 0
    ensures r.status != Running ==> r.pc == e.pc && r.regs == e.regs && r.avail == avail
    ensures e.virt != VirtualHeapAlloc && e.virt != VirtualHeapFree ==> r.avail == avail
  {
    if e.terminate || e.failed then State(e.pc, e.regs, avail, Stopped)
    else if e.virt == VirtualHalt then State(e.pc, e.regs, avail, Halted)
    else if e.virt == VirtualHeapAlloc then HeapAllocStep(avail, e, bus)
    else if e.virt == VirtualHeapFree then HeapFreeStep(avail, e, bus)
    else Retire(e, e.regs, avail)
  }

  /** One iteration of the interpreter loop. */
  function Next(s: State, inst: Instruction, bus: Bus): (r: State)
    requires s.WellFormed() && s.status == Running
    ensures r.WellFormed()
    ensures r.status == Stopped <==> inst.op == InstructionInvalid
    ensures r.status == Running ==> r.regs[0] == 0
    ensures !inst.op.IsStore() ==> r.avail == s.avail
  {
    Dispatch(s.avail, Execute(s, inst, bus), bus)
  }

  /**
   * The loop: fetch the decoded word at PC / 4 while the PC is inside
   * instruction memory and the machine runs; `buses` supplies the memory
   * replies of successive iterations, one each, and bounds how many are taken.
   */
  function Run(s: State, program: seq<Instruction>, buses: seq<Bus>): (r: State)
    requires s.WellFormed() && |program| == ProgramWords
    ensures r.WellFormed()
    ensures r.status == Running ==> r.pc < InstructionMemorySize
    ensures s.status != Running ==> r == s
    decreases |buses|
  {
    if s.status != Running then s
    else if s.pc >= InstructionMemorySize then s.(status := Stopped)
    else if buses == [] then s
    else
      Run(Next(s, program[s.pc / 4], buses[0]), program, buses[1..])
  }

  // ---------------------------------------------------------------------
  // Properties of one iteration

  /** The switch takes exactly one family's case for each opcode. */
  lemma ExecuteByFamily(s: State, inst: Instruction, bus: Bus)
    requires s.WellFormed()
    ensures inst.op.IsAlu() ==> Execute(s, inst, bus) == AluEffect(s, inst)
    ensures inst.op.IsLoad() ==> Execute(s, inst, bus) == LoadEffect(s, inst, bus)
    ensures inst.op.IsStore() ==> Execute(s, inst, bus) == StoreEffect(s, inst, bus)
    ensures inst.op.IsBranch() ==> Execute(s, inst, bus) == BranchEffect(s, inst)
    ensures inst.op.IsJump() ==> Execute(s, inst, bus) == JumpEffect(s, inst)
    ensures !inst.op.IsAlu() && !inst.op.IsLoad() && !inst.op.IsStore()
            && !inst.op.IsBranch() && !inst.op.IsJump() ==>
      Execute(s, inst, bus)
        == Effect(s.regs, s.pc, false, inst.op == InstructionInvalid, false, VirtualNone)
  {
    FamiliesDisjoint(inst.op);
  }

  /** With no stop, no virtual operation and no failure, the iteration just retires. */
  lemma DispatchRetires(s: State, e: Effect, bus: Bus)
    requires s.WellFormed() && |e.regs| == 32
    requires !e.terminate && !e.failed && e.virt == VirtualNone
    ensures Dispatch(s.avail, e, bus) == Retire(e, e.regs, s.avail)
  {
  }

  /**
   * How an iteration ends, by instruction kind: only a store reaches the
   * virtual-operation dispatch, an undecodable word stops the machine as it
   * is, and everything else retires the switch's effect.
   */
  lemma NextByKind(s: State, inst: Instruction, bus: Bus)
    requires s.WellFormed() && s.status == Running
    ensures
      var e := Execute(s, inst, bus);
      && (inst.op.IsStore() ==>
            && Next(s, inst, bus) == Dispatch(s.avail, e, bus)
            && e.regs == s.regs && e.pc == s.pc && !e.jumped && !e.terminate && !e.failed)
      && (inst.op == InstructionInvalid ==> Next(s, inst, bus) == s.(status := Stopped))
      && (!inst.op.IsStore() && inst.op != InstructionInvalid ==>
            && Next(s, inst, bus) == Retire(e, e.regs, s.avail)
            && (!inst.op.IsBranch() && !inst.op.IsJump() ==> !e.jumped && e.pc == s.pc))
  {
    ExecuteByFamily(s, inst, bus);
    var e := Execute(s, inst, bus);
    if !inst.op.IsStore() && inst.op != InstructionInvalid {
      DispatchRetires(s, e, bus);
    }
  }

  /**
   * After a store's switch case, the dispatch keeps the state's shape, never
   * reports a loop exit, and either retires to the next word with register
   * 0 reading 0 or ends the machine where it is.
   */
  lemma DispatchAfterStore(s: State, e: Effect, bus: Bus)
    requires s.WellFormed() && e.regs == s.regs && e.pc == s.pc
    requires !e.jumped && !e.terminate && !e.failed
    ensures
      var t := Dispatch(s.avail, e, bus);
      && t.WellFormed() && t.status != Stopped
      && (t.status == Running ==> t.pc == Wrap(s.pc + 4) && t.regs[0] == 0)
      && (t.status != Running ==> t.pc == s.pc && t.regs == s.regs && t.avail == s.avail)
  {
  }

  /**
   * Every way an iteration can end the machine leaves PC, registers and
   * heap bitmap exactly as they were: an undecodable word stops it, since
   * `failed_memory` starts at 0 and is only combined by `&=`, so no
   * accessor status can; only a store can halt it or kill it.
   */
  lemma NextEndsInPlace(s: State, inst: Instruction, bus: Bus)
    requires s.WellFormed() && s.status == Running
    ensures
      var t := Next(s, inst, bus);
      && (t.status != Running ==> t.pc == s.pc && t.regs == s.regs && t.avail == s.avail)
      && (t.status == Halted || t.status == Fatal ==> inst.op.IsStore())
  {
    NextByKind(s, inst, bus);
    if inst.op.IsStore() {
      DispatchAfterStore(s, Execute(s, inst, bus), bus);
    }
  }

  /** An instruction that neither branches nor jumps moves the PC to the next word, or leaves it where it is if it ends the machine. */
  lemma NextSequentialPc(s: State, inst: Instruction, bus: Bus)
    requires s.WellFormed() && s.status == Running
    requires !inst.op.IsBranch() && !inst.op.IsJump()
    ensures Next(s, inst, bus).status == Running ==> Next(s, inst, bus).pc == Wrap(s.pc + 4)
    ensures Next(s, inst, bus).status != Running ==> Next(s, inst, bus).pc == s.pc
  {
    NextByKind(s, inst, bus);
    if inst.op.IsStore() {
      DispatchAfterStore(s, Execute(s, inst, bus), bus);
    }
  }

  /** A conditional branch retires to its target when taken and to the next word otherwise. */
  lemma NextBranchTarget(s: State, inst: Instruction, bus: Bus)
    requires s.WellFormed() && s.status == Running && inst.op.IsBranch()
    ensures
      var t := Next(s, inst, bus);
      && t.status == Running && t.avail == s.avail && t.regs == s.regs[0 := 0]
      && t.pc == if BranchTaken(inst.op, s.regs[inst.rs1], s.regs[inst.rs2])
                 then Wrap(s.pc + inst.imm) else Wrap(s.pc + 4)
  {
    ExecuteByFamily(s, inst, bus);
    FamiliesDisjoint(inst.op);
    DispatchRetires(s, BranchEffect(s, inst), bus);
  }

  /**
   * A conditional branch compares the raw register contents (signed or
   * unsigned as the opcode says); when taken the PC becomes the branch's own
   * address plus the immediate, otherwise the next word. Nothing else changes
   * except that register 0 is forced to 0.
   */
  lemma NextBranch(s: State, inst: Instruction, bus: Bus)
    requires s.WellFormed() && s.status == Running && inst.op.IsBranch()
    ensures
      var t, a, b := Next(s, inst, bus), s.regs[inst.rs1], s.regs[inst.rs2];
      && t.status == Running && t.avail == s.avail && t.regs == s.regs[0 := 0]
      && (inst.op == BEQ ==> t.pc == if a == b then Wrap(s.pc + inst.imm) else Wrap(s.pc + 4))
      && (inst.op == BNE ==> t.pc == if a != b then Wrap(s.pc + inst.imm) else Wrap(s.pc + 4))
      && (inst.op == BLT ==> t.pc == if Signed(a) < Signed(b) then Wrap(s.pc + inst.imm) else Wrap(s.pc + 4))
      && (inst.op == BLTU ==> t.pc == if a < b then Wrap(s.pc + inst.imm) else Wrap(s.pc + 4))
      && (inst.op == BGE ==> t.pc == if Signed(a) >= Signed(b) then Wrap(s.pc + inst.imm) else Wrap(s.pc + 4))
      && (inst.op == BGEU ==> t.pc == if a >= b then Wrap(s.pc + inst.imm) else Wrap(s.pc + 4))
  {
    NextBranchTarget(s, inst, bus);
  }

  /**
   * JAL and JALR link the old PC + 4 into `rd`. JALR reads `rs1` after that
   * write, so with `rd == rs1` its target is old PC + 4 + imm.
   */
  lemma NextJump(s: State, inst: Instruction, bus: Bus)
    requires s.WellFormed() && s.status == Running && inst.op.IsJump()
    ensures
      var t := Next(s, inst, bus);
      && t.status == Running && t.avail == s.avail
      && (inst.rd != 0 ==> t.regs[inst.rd] == Wrap(s.pc + 4))
      && (forall r :: 0 < r < 32 && r != inst.rd ==> t.regs[r] == s.regs[r])
      && (inst.op == JAL ==> t.pc == Wrap(s.pc + inst.imm))
      && (inst.op == JALR ==>
            t.pc == Wrap((if inst.rd == inst.rs1 then Wrap(s.pc + 4) else s.regs[inst.rs1]) + inst.imm))
  {
    ExecuteByFamily(s, inst, bus);
    FamiliesDisjoint(inst.op);
    DispatchRetires(s, JumpEffect(s, inst), bus);
  }

  /** A register-computing instruction writes its value to `rd` only, and moves to the next word. */
  lemma NextAlu(s: State, inst: Instruction, bus: Bus)
    requires s.WellFormed() && s.status == Running && inst.op.IsAlu()
    ensures
      var t, v := Next(s, inst, bus), AluValue(inst.op, s.regs[inst.rs1], s.regs[inst.rs2], inst.imm);
      && t.status == Running && t.pc == Wrap(s.pc + 4) && t.avail == s.avail
      && (inst.rd != 0 ==> t.regs[inst.rd] == v)
      && (forall r :: 0 < r < 32 && r != inst.rd ==> t.regs[r] == s.regs[r])
  {
    ExecuteByFamily(s, inst, bus);
    FamiliesDisjoint(inst.op);
    DispatchRetires(s, AluEffect(s, inst), bus);
  }

  /**
   * A load writes the accessor's out-parameter, widened as its C type says,
   * to `rd` only, and moves to the next word whatever status the accessor reports.
   */
  lemma NextLoad(s: State, inst: Instruction, bus: Bus)
    requires s.WellFormed() && s.status == Running && inst.op.IsLoad()
    ensures
      var t, acc := Next(s, inst, bus), LoadAccessorOf(inst.op);
      var v := Widen(acc, bus.load(acc, Wrap(s.regs[inst.rs1] + inst.imm)).value);
      && t.status == Running && t.pc == Wrap(s.pc + 4) && t.avail == s.avail
      && (inst.rd != 0 ==> t.regs[inst.rd] == v)
      && (forall r :: 0 < r < 32 && r != inst.rd ==> t.regs[r] == s.regs[r])
  {
    ExecuteByFamily(s, inst, bus);
    FamiliesDisjoint(inst.op);
    DispatchRetires(s, LoadEffect(s, inst, bus), bus);
  }

  /**
   * A store changes no register. The virtual operation its accessor reports
   * decides the rest: halt ends the machine as it is; allocation and free
   * are described by NextHeapAlloc and NextHeapFree; any other operation,
   * or none, just moves to the next word, whatever status the accessor reports.
   */
  lemma NextStore(s: State, inst: Instruction, bus: Bus)
    requires s.WellFormed() && s.status == Running && inst.op.IsStore()
    ensures
      var t := Next(s, inst, bus);
      var op := bus.store(StoreAccessorOf(inst.op), Wrap(s.regs[inst.rs1] + inst.imm), s.regs[inst.rs2]).op;
      && (op == VirtualHalt ==> t == s.(status := Halted))
      && (op != VirtualHalt && op != VirtualHeapAlloc && op != VirtualHeapFree ==>
            t == s.(pc := Wrap(s.pc + 4), regs := s.regs[0 := 0]))
  {
    ExecuteByFamily(s, inst, bus);
    var e := StoreEffect(s, inst, bus);
    assert Next(s, inst, bus) == Dispatch(s.avail, e, bus);
  }

  /**
   * A store that triggers an allocation, with m = size / 64 + 1 for the size
   * word at 0x830: if m exceeds the heap or any of blocks 0 .. m-1 is in
   * use, the machine dies as it is; otherwise register 28 receives the heap
   * base 0xb700, exactly blocks 0 .. m-1 become used and the PC moves on.
   */
  lemma NextHeapAlloc(s: State, inst: Instruction, bus: Bus)
    requires s.WellFormed() && s.status == Running && inst.op.IsStore()
    requires bus.store(StoreAccessorOf(inst.op), Wrap(s.regs[inst.rs1] + inst.imm), s.regs[inst.rs2]).op
      == VirtualHeapAlloc
    ensures
      var t, m := Next(s, inst, bus), MinBlocks(bus.word(AllocSizeAddress));
      && (t.status == Running <==> m <= MaxBanks && AllFree(s.avail, m))
      && (t.status != Running ==> t == s.(status := Fatal))
      && (t.status == Running ==>
            && t.pc == Wrap(s.pc + 4)
            && t.regs == s.regs[AllocResultReg := HeapBase][0 := 0]
            && |t.avail| == MaxBanks
            && (forall k :: 0 <= k < m ==> t.avail[k])
            && (forall k :: m <= k < MaxBanks ==> t.avail[k] == s.avail[k]))
  {
    ExecuteByFamily(s, inst, bus);
    AllocSucceedsExactly(s.avail, bus.word(AllocSizeAddress));
  }

  /**
   * A store that triggers a free of the i32 address in the word at 0x834:
   * it succeeds exactly when the address lies in the dynamic region, is a
   * multiple of 4 and names a used block, which alone is then cleared;
   * otherwise the machine dies with the bitmap unchanged.
   */
  lemma NextHeapFree(s: State, inst: Instruction, bus: Bus)
    requires s.WellFormed() && s.status == Running && inst.op.IsStore()
    requires bus.store(StoreAccessorOf(inst.op), Wrap(s.regs[inst.rs1] + inst.imm), s.regs[inst.rs2]).op
      == VirtualHeapFree
    ensures
      var t, address := Next(s, inst, bus), Signed(bus.word(FreeAddressAddress));
      && (t.status == Running <==>
            && NonDynamicSize <= address < TotalMemSize
            && address % 4 == 0
            && s.avail[(address - NonDynamicSize) / 64])
      && (t.status != Running ==> t == s.(status := Fatal))
      && (t.status == Running ==>
            && t.pc == Wrap(s.pc + 4)
            && t.regs == s.regs[0 := 0]
            && t.avail == s.avail[(address - NonDynamicSize) / 64 := false])
  {
    ExecuteByFamily(s, inst, bus);
    ReleaseSucceedsExactly(s.avail, Signed(bus.word(FreeAddressAddress)));
  }

  /** Register 0 reads 0 after an iteration that starts with it 0, whether or not the machine keeps running. */
  lemma NextKeepsZeroRegister(s: State, inst: Instruction, bus: Bus)
    requires s.WellFormed() && s.status == Running && s.regs[0] == 0
    ensures Next(s, inst, bus).regs[0] == 0
  {
    NextEndsInPlace(s, inst, bus);
  }

  // ---------------------------------------------------------------------
  // Properties of the loop

  /** A running machine with its PC inside instruction memory takes one more iteration. */
  lemma RunUnfold(s: State, program: seq<Instruction>, buses: seq<Bus>)
    requires s.WellFormed() && |program| == ProgramWords && s.status == Running
    requires s.pc < InstructionMemorySize && buses != []
    ensures Run(s, program, buses) == Run(Next(s, program[s.pc / 4], buses[0]), program, buses[1..])
  {
  }

  /** When the loop does not take another iteration, it only records a PC past instruction memory. */
  lemma RunEnds(s: State, program: seq<Instruction>, buses: seq<Bus>)
    requires s.WellFormed() && |program| == ProgramWords
    requires !(s.status == Running && s.pc < InstructionMemorySize && buses != [])
    ensures Run(s, program, buses)
      == if s.status == Running && s.pc >= InstructionMemorySize then s.(status := Stopped) else s
  {
  }

  /** From a state whose register 0 reads 0 (as at boot), every state the loop reaches has register 0 reading 0. */
  lemma {:induction false} RunKeepsZeroRegister(s: State, program: seq<Instruction>, buses: seq<Bus>)
    requires s.WellFormed() && |program| == ProgramWords && s.regs[0] == 0
    ensures Run(s, program, buses).regs[0] == 0
    decreases |buses|
  {
    if s.status == Running && s.pc < InstructionMemorySize && buses != [] {
      var inst := program[s.pc / 4];
      NextKeepsZeroRegister(s, inst, buses[0]);
      RunKeepsZeroRegister(Next(s, inst, buses[0]), program, buses[1..]);
    }
  }

  /**
   * A running machine leaves the loop (status Stopped) only with its PC past
   * instruction memory or at an undecodable word, which it did not advance past.
   */
  lemma {:induction false} RunStopsOnlyAtEndOrInvalid(s: State, program: seq<Instruction>, buses: seq<Bus>)
    requires s.WellFormed() && |program| == ProgramWords && s.status == Running
    ensures
      var t := Run(s, program, buses);
      t.status == Stopped ==>
        t.pc >= InstructionMemorySize || program[t.pc / 4].op == InstructionInvalid
    decreases |buses|
  {
    if s.pc < InstructionMemorySize && buses != [] {
      var inst := program[s.pc / 4];
      NextEndsInPlace(s, inst, buses[0]);
      var t := Next(s, inst, buses[0]);
      if t.status == Running {
        RunStopsOnlyAtEndOrInvalid(t, program, buses[1..]);
      }
    }
  }
}
