/**
 * The decoded instruction record the interpreter consumes, the virtual
 * operations a store can trigger, and the interface of the memory accessors.
 * Decoding and the accessors' internals live outside this model: a decoded
 * `Instruction` is an input, and the accessors' replies arrive through `Bus`.
 */
module Isa {
  import opened Words

  /** The instruction names the decoder produces (RV32I subset, plus the decoder's sentinels). */
  datatype Opcode =
    | InstructionCount   // enum sentinel: the interpreter treats it as a no-op
    | InstructionInvalid // the word did not decode
    | ADD | ADDI | SUB | LUI
    | XOR | XORI | OR | ORI | AND | ANDI
    | SLL | SRL | SRA
    | LB | LH | LW | LBU | LHU
    | SB | SH | SW
    | SLT | SLTI | SLTU | SLTIU
    | BEQ | BNE | BLT | BLTU | BGE | BGEU
    | JAL | JALR
  {
    /** The instructions that compute a value from registers and the immediate into `rd`. */
    predicate IsAlu() {
      ADD? || ADDI? || SUB? || LUI? || XOR? || XORI? || OR? || ORI? || AND? || ANDI?
      || SLL? || SRL? || SRA? || SLT? || SLTI? || SLTU? || SLTIU?
    }

    /** The instructions that go through a load accessor. */
    predicate IsLoad() {
      LB? || LH? || LW? || LBU? || LHU?
    }

    /** The conditional branches. */
    predicate IsBranch() {
      BEQ? || BNE? || BLT? || BLTU? || BGE? || BGEU?
    }

    /** The instructions that redirect control unconditionally. */
    predicate IsJump() {
      JAL? || JALR?
    }

    /** The instructions that go through a store accessor. */
    predicate IsStore() {
      SB? || SH? || SW?
    }
  }

  /** The instruction families of the interpreter's switch do not overlap. */
  lemma FamiliesDisjoint(op: Opcode)
    ensures op.IsAlu() ==> !op.IsLoad() && !op.IsStore() && !op.IsBranch() && !op.IsJump()
    ensures op.IsLoad() ==> !op.IsStore() && !op.IsBranch() && !op.IsJump()
    ensures op.IsStore() ==> !op.IsBranch() && !op.IsJump()
    ensures op.IsBranch() ==> !op.IsJump()
  {
  }

  /** A register index: the register file has 32 entries. */
  type Reg = r: int | 0 <= r < 32

  /** The decoded instruction record. `imm` is the already sign-extended or shifted immediate, as a raw u32. */
  datatype Instruction = Instruction(op: Opcode, rd: Reg, rs1: Reg, rs2: Reg, imm: Word)

  /** The virtual operations a store into the memory-mapped window can report. */
  datatype VirtualOp =
    | VirtualNone
    | VirtualPrintChar | VirtualPrintSint | VirtualPrintUint
    | VirtualHalt
    | VirtualReadCharacter | VirtualReadSint
    | VirtualDumpPc | VirtualDumpReg | VirtualDumpMemW
    | VirtualHeapAlloc | VirtualHeapFree
    | VirtualInvalid | VirtualCount

  /** The five load accessors, by the C type of their out-parameter. */
  datatype LoadAccessor = GetChar | GetI16 | GetI32 | GetByte | GetU16

  /** The three store accessors, by the width they write. */
  datatype StoreAccessor = SetByte | SetU16 | SetU32

  /** A load accessor's reply: its status and the raw value it left in its out-parameter. */
  datatype LoadReply = LoadReply(ok: bool, value: Word)

  /** A store accessor's reply: its status and the virtual operation its address selects. */
  datatype StoreReply = StoreReply(ok: bool, op: VirtualOp)

  /**
   * What the memory subsystem answers during one step: the load accessors
   * (by address), the store accessors (by address and value), and the word
   * the interpreter reads directly from memory at a fixed address after the
   * step's store.
   */
  datatype Bus = Bus(
    load: (LoadAccessor, Word) -> LoadReply,
    store: (StoreAccessor, Word, Word) -> StoreReply,
    word: Word -> Word)
}
