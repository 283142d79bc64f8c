/**
 * The fixed memory layout the interpreter relies on. The values of the
 * configuration macros are not part of this model, so the ones below are
 * assumptions: main.c shows only that instruction and data memory together
 * take 2048 bytes, and the even split into 1024 bytes each is assumed, as
 * are the 128-entry heap bitmap of 64-byte blocks and the dynamic region
 * starting at 0xb700, the literal heap base main.c writes to register 28.
 */
module Layout {

  /** INSTRUCTION_MEMORY_SIZE: bytes of instruction memory; the loop runs while the PC is below it. */
  const InstructionMemorySize: int := 1024

  /** Number of instruction words in instruction memory. */
  const ProgramWords: nat := 256

  /** MAX_BANKS: number of heap blocks, one flag each in `avail_blocks`. */
  const MaxBanks: nat := 128

  /** Size in bytes of one heap block. */
  const BlockSize: nat := 64

  /** NON_DYNAMIC_SIZE: first address of the dynamic (heap) region. */
  const NonDynamicSize: int := 0xb700

  /** TOTAL_MEM_SIZE: one past the last address of memory; the heap runs up to it. */
  const TotalMemSize: int := NonDynamicSize + MaxBanks * BlockSize

  /** The literal heap base the allocator writes into the result register. */
  const HeapBase: int := 0xb700

  /** Register that receives the address of a successful allocation. */
  const AllocResultReg: int := 28

  /** Memory address of the word holding the requested allocation size. */
  const AllocSizeAddress: int := 0x830

  /** Memory address of the word holding the address to free. */
  const FreeAddressAddress: int := 0x834
}
