/**
 * 32-bit machine words. Registers, the program counter and immediates hold
 * raw u32 values, modelled as integers in [0, 2^32); the C arithmetic on
 * them wraps modulo 2^32, which `Wrap` writes out. Bitwise operations go
 * through `bv32`. The signed (i32) view is a function of the raw value, used
 * where the interpreter compares as signed.
 */
module Words {

  const WordModulus: int := 0x1_0000_0000

  /** A raw u32 value. */
  type Word = x: int | 0 <= x < WordModulus

  /** u32 arithmetic: the result modulo 2^32. */
  function Wrap(x: int): Word
  {
    x % WordModulus
  }

  /** Wrapping a value at most one modulus away from the u32 range adds or subtracts the modulus once. */
  lemma WrapOnce(x: int)
    requires -WordModulus <= x < 2 * WordModulus
    ensures Wrap(x) == if x < 0 then x + WordModulus else if x < WordModulus then x else x - WordModulus
  {
  }

  /** The two's-complement i32 view of a raw word. */
  function Signed(x: Word): int
  {
    if x < 0x8000_0000 then x else x - WordModulus
  }

  /** u32 `&`. */
  function And(a: Word, b: Word): Word
  {
    var x: bv32 := (a as bv32) & (b as bv32);
    x as int
  }

  /** u32 `|`. */
  function Or(a: Word, b: Word): Word
  {
    var x: bv32 := (a as bv32) | (b as bv32);
    x as int
  }

  /** u32 `^`. */
  function Xor(a: Word, b: Word): Word
  {
    var x: bv32 := (a as bv32) ^ (b as bv32);
    x as int
  }

  /** A C `char` (signed byte) assigned to a u32 register: the low 8 bits, sign-extended. */
  function SignExtend8(x: Word): Word
  {
    var b := x % 0x100;
    if b < 0x80 then b else b + 0xFFFF_FF00
  }

  /** An i16 assigned to a u32 register: the low 16 bits, sign-extended. */
  function SignExtend16(x: Word): Word
  {
    var h := x % 0x1_0000;
    if h < 0x8000 then h else h + 0xFFFF_0000
  }

  /** A `byte` assigned to a u32 register: the low 8 bits, zero-extended. */
  function ZeroExtend8(x: Word): Word
  {
    x % 0x100
  }

  /** A u16 assigned to a u32 register: the low 16 bits, zero-extended. */
  function ZeroExtend16(x: Word): Word
  {
    x % 0x1_0000
  }

  /**
   * Sign extension keeps the low byte, fills the upper 24 bits with copies
   * of bit 7, and agrees with the i8 value of that byte.
   */
  lemma SignExtend8Bits(x: Word)
    ensures SignExtend8(x) % 0x100 == x % 0x100
    ensures x % 0x100 < 0x80 ==> SignExtend8(x) / 0x100 == 0
    ensures x % 0x100 >= 0x80 ==> SignExtend8(x) / 0x100 == 0xFF_FFFF
    ensures -0x80 <= Signed(SignExtend8(x)) < 0x80
    ensures Signed(SignExtend8(x)) % 0x100 == x % 0x100
  {
  }

  /**
   * Sign extension keeps the low halfword, fills the upper 16 bits with
   * copies of bit 15, and agrees with the i16 value of that halfword.
   */
  lemma SignExtend16Bits(x: Word)
    ensures SignExtend16(x) % 0x1_0000 == x % 0x1_0000
    ensures x % 0x1_0000 < 0x8000 ==> SignExtend16(x) / 0x1_0000 == 0
    ensures x % 0x1_0000 >= 0x8000 ==> SignExtend16(x) / 0x1_0000 == 0xFFFF
    ensures -0x8000 <= Signed(SignExtend16(x)) < 0x8000
    ensures Signed(SignExtend16(x)) % 0x1_0000 == x % 0x1_0000
  {
  }

  /** Zero extension keeps the low byte or halfword and clears everything above it. */
  lemma ZeroExtendBits(x: Word)
    ensures ZeroExtend8(x) % 0x100 == x % 0x100 && ZeroExtend8(x) < 0x100
    ensures ZeroExtend16(x) % 0x1_0000 == x % 0x1_0000 && ZeroExtend16(x) < 0x1_0000
  {
  }

  /** u32 addition and subtraction are the i32 operations read back as raw words. */
  lemma WrapAgreesWithSigned(a: Word, b: Word)
    ensures Wrap(a + b) == Wrap(Signed(a) + Signed(b))
    ensures Wrap(a - b) == Wrap(Signed(a) - Signed(b))
    ensures Wrap(a + b) == Wrap(Signed(a) + b)
  {
  }
}
