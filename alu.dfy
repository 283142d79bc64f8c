/**
 * The values the interpreter's switch computes for the register-writing and
 * branching instructions. Every source operand that goes through the
 * register reinterpretation macro is read with the all-default type tag,
 * i.e. as its i32 view; adding, subtracting and combining i32 views bitwise
 * and converting the result back to u32 yields the same value as the u32
 * operation on the raw words (Words.WrapAgreesWithSigned), which is how
 * these functions compute it.
 */
module Alu {
  import opened Words
  import opened Isa

  /**
   * LUI as written: the immediate shifted right by 12, not the immediate
   * itself. The register receives the immediate's upper 20 bits in its low
   * 20 bits.
   */
  function LoadUpper(imm: Word): (r: Word)
    ensures r < 0x10_0000
    ensures r * 0x1000 == imm - imm % 0x1000
  {
    imm / 0x1000
  }

  /**
   * SLL on raw bits: a left shift is a multiplication by a power of two that
   * wraps modulo 2^32. C leaves counts of 32 and above undefined; the count
   * is taken modulo 32, as the hardware shift instruction does.
   */
  function ShiftLeftBits(a: bv32, n: bv32): (r: bv32)
    ensures r == a * (1 << (n & 31))
  {
    a << (n & 31)
  }

  /** SLL on the u32 register contents. */
  function ShiftLeft(a: Word, n: Word): Word
  {
    ShiftLeftBits(a as bv32, n as bv32) as int
  }

  /**
   * SRL on raw bits, the count taken modulo 32 as for ShiftLeftBits: the
   * result never exceeds the operand, a zero count keeps it, and the top n
   * bits are cleared (no sign fill).
   */
  function ShiftRightBits(a: bv32, n: bv32): (r: bv32)
    ensures r <= a
    ensures n & 31 == 0 ==> r == a
    ensures n & 31 != 0 ==> r < 1 << (32 - (n & 31))
  {
    a >> (n & 31)
  }

  /** SRL on the u32 register contents. */
  function ShiftRight(a: Word, n: Word): Word
  {
    ShiftRightBits(a as bv32, n as bv32) as int
  }

  /**
   * SRL moves bits down: shifted back up by n, the result is `a` with its low
   * n bits cleared. With the bound on ShiftRightBits this fixes the result as
   * the high 32-n bits of `a`, zero-filled from the top.
   */
  lemma ShiftRightMovesBits(a: bv32, n: bv32)
    requires 0 < n < 32
    ensures ShiftRightBits(a, n) << n == a & !((1 << n) - 1)
  {
  }

  /**
   * The SRA expression `(a >> n) | (a << (32 - n))` on raw bits, each count
   * taken modulo 32 as for ShiftLeftBits. A zero count keeps the word, and so
   * does any count on a word whose bits are all equal.
   */
  function RotateRightBits(a: bv32, n: bv32): (r: bv32)
    ensures n & 31 == 0 ==> r == a
    ensures a == 0 || a == 0xFFFF_FFFF ==> r == a
  {
    (a >> (n & 31)) | (a << ((32 - n) & 31))
  }

  /** SRA as written: a rotation of the first register, not an arithmetic shift. */
  function RotateRight(a: Word, n: Word): Word
  {
    RotateRightBits(a as bv32, n as bv32) as int
  }

  /** Where the count is defined (0 < n < 32), the masking changes nothing: this is the C expression. */
  lemma RotateRightAsWritten(a: bv32, n: bv32)
    requires 0 < n < 32
    ensures RotateRightBits(a, n) == (a >> n) | (a << (32 - n))
  {
  }

  /**
   * SRA rotates right by n: the low 32-n bits of the result are the high
   * 32-n bits of `a`, and the high n bits of the result are the low n bits
   * of `a` (no sign extension).
   */
  lemma RotateRightMovesBits(a: bv32, n: bv32)
    requires 0 < n < 32
    ensures (RotateRightBits(a, n) << n) >> n == a >> n
    ensures RotateRightBits(a, n) >> (32 - n) == a & ((1 << n) - 1)
  {
  }

  /** Rotating right by n and then by 32 - n gives the word back. */
  lemma RotateRightInverse(a: bv32, n: bv32)
    requires 0 < n < 32
    ensures RotateRightBits(RotateRightBits(a, n), 32 - n) == a
  {
  }

  /** SLT, SLTI and SLTIU: 1 when the i32 view of `a` is below that of `b`, else 0. */
  function SetLessSigned(a: Word, b: Word): Word
  {
    if Signed(a) < Signed(b) then 1 else 0
  }

  /** SLTU: 1 when `a` is below `b` as unsigned words, else 0. */
  function SetLessUnsigned(a: Word, b: Word): Word
  {
    if a < b then 1 else 0
  }

  /**
   * The value a register-computing instruction writes to `rd`, from the two
   * source registers `a`, `b` and the immediate. SLTIU compares exactly as
   * SLTI does: signed. Addition and subtraction of the raw words give the
   * bits of the C arithmetic on the i32 views, wrapped into a u32 register.
   */
  function AluValue(op: Opcode, a: Word, b: Word, imm: Word): (r: Word)
    requires op.IsAlu()
    ensures op == ADD ==> r == Wrap(Signed(a) + Signed(b))
    ensures op == ADDI ==> r == Wrap(Signed(a) + imm)
    ensures op == SUB ==> r == Wrap(Signed(a) - Signed(b))
    ensures op == LUI ==> r < 0x10_0000
    ensures op == SLT || op == SLTI || op == SLTU || op == SLTIU ==> r <= 1
  {
    match op
    case ADD => WrapAgreesWithSigned(a, b); Wrap(a + b)
    case ADDI => WrapAgreesWithSigned(a, imm); Wrap(a + imm)
    case SUB => WrapAgreesWithSigned(a, b); Wrap(a - b)
    case LUI => LoadUpper(imm)
    case XOR => Xor(a, b)
    case XORI => Xor(a, imm)
    case OR => Or(a, b)
    case ORI => Or(a, imm)
    case AND => And(a, b)
    case ANDI => And(a, imm)
    case SLL => ShiftLeft(a, b)
    case SRL => ShiftRight(a, b)
    case SRA => RotateRight(a, b)
    case SLT => SetLessSigned(a, b)
    case SLTI => SetLessSigned(a, imm)
    case SLTU => SetLessUnsigned(a, b)
    case SLTIU => SetLessSigned(a, imm)
  }

  /**
   * Addition and subtraction wrap around modulo 2^32: their results are the
   * mathematical sum and difference, less or plus 2^32 exactly when those
   * leave the u32 range.
   */
  lemma ArithmeticWraps(a: Word, b: Word, imm: Word)
    ensures AluValue(ADD, a, b, imm) == if a + b < WordModulus then a + b else a + b - WordModulus
    ensures AluValue(ADDI, a, b, imm) == if a + imm < WordModulus then a + imm else a + imm - WordModulus
    ensures AluValue(SUB, a, b, imm) == if a >= b then a - b else a - b + WordModulus
    ensures AluValue(ADD, 0xFFFF_FFFF, 1, imm) == 0
  {
    WrapOnce(a + b);
    WrapOnce(a + imm);
    WrapOnce(a - b);
  }

  /** SRA moves the bits shifted out at the bottom back in at the top, where an arithmetic shift would not. */
  lemma ShiftRightArithmeticRotates()
    ensures AluValue(SRA, 1, 1, 0) == 0x8000_0000
    ensures AluValue(SRA, 0x8000_0000, 4, 0) == 0x0800_0000
  {
  }

  /** The comparisons yield 1 exactly when their relation holds, and SLTIU's is the signed one. */
  lemma SetLessMeaning(a: Word, b: Word, imm: Word)
    ensures AluValue(SLT, a, b, imm) == 1 <==> Signed(a) < Signed(b)
    ensures AluValue(SLTU, a, b, imm) == 1 <==> a < b
    ensures AluValue(SLTI, a, b, imm) == 1 <==> Signed(a) < Signed(imm)
    ensures AluValue(SLTIU, a, b, imm) == 1 <==> Signed(a) < Signed(imm)
    ensures AluValue(SLTIU, a, b, imm) == AluValue(SLTI, a, b, imm)
    ensures AluValue(SLT, a, b, imm) <= 1 && AluValue(SLTU, a, b, imm) <= 1
  {
  }

  /** An instance where SLTIU differs from an unsigned comparison: 1 is not below 0xFFFFFFFF as i32 (-1). */
  lemma SetLessImmediateUnsignedIsSigned()
    ensures AluValue(SLTIU, 1, 0, 0xFFFF_FFFF) == 0
    ensures AluValue(SLTU, 1, 0xFFFF_FFFF, 0) == 1
  {
  }

  /**
   * Whether a conditional branch is taken; the comparisons use the raw
   * register contents. Each branch agrees with the register-computing
   * instruction that compares the same registers: BEQ/BNE with a zero or
   * non-zero SUB, BLT/BGE with SLT, BLTU/BGEU with SLTU.
   */
  function BranchTaken(op: Opcode, a: Word, b: Word): (r: bool)
    requires op.IsBranch()
    ensures op == BEQ ==> (r <==> AluValue(SUB, a, b, 0) == 0)
    ensures op == BNE ==> (r <==> AluValue(SUB, a, b, 0) != 0)
    ensures op == BLT ==> (r <==> AluValue(SLT, a, b, 0) == 1)
    ensures op == BGE ==> (r <==> AluValue(SLT, a, b, 0) == 0)
    ensures op == BLTU ==> (r <==> AluValue(SLTU, a, b, 0) == 1)
    ensures op == BGEU ==> (r <==> AluValue(SLTU, a, b, 0) == 0)
  {
    match op
    case BEQ => a == b
    case BNE => a != b
    case BLT => Signed(a) < Signed(b)
    case BLTU => a < b
    case BGE => Signed(a) >= Signed(b)
    case BGEU => a >= b
  }
}
