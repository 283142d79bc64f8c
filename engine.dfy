/**
 * The interpreter as the C program runs it: a register file and a heap
 * bitmap updated in place, one loop iteration at a time. Each method is
 * proved to leave the machine exactly as the Semantics functions say, so
 * everything proved there holds of this class.
 */
module Engine {
  import opened Words
  import opened Isa
  import opened Layout
  import opened Alu
  import opened Heap
  import opened Semantics

  class Machine {
    /** `program_counter`. */
    var pc: Word
    /** The register file `R`. */
    var R: array<Word>
    /** `avail_blocks`: one flag per heap block, `true` when in use. */
    var avail: array<bool>
    /** Whether the loop still runs, and how it ended if not. */
    var status: Status

    ghost predicate Valid()
      reads this
    {
      R.Length == 32 && avail.Length == MaxBanks
    }

    /** The machine as a Semantics state. */
    ghost function Snapshot(): State
      reads this, R, avail
    {
      State(pc, R[..], avail[..], status)
    }

    /** The machine at the start of the loop: zeroed registers, an empty heap, PC 0. */
    constructor ()
      ensures Valid() && fresh(R) && fresh(avail)
      ensures Snapshot() == Boot()
    {
      pc := 0;
      R := new Word[32](_ => 0);
      avail := new bool[MaxBanks](_ => false);
      status := Running;
    }

    /** The register-computing cases of the switch: the value goes to `rd`. */
    method ExecuteAlu(inst: Instruction)
      requires Valid() && inst.op.IsAlu()
      modifies R
      ensures R[..] == AluEffect(old(Snapshot()), inst).regs
    {
      R[inst.rd] := AluValue(inst.op, R[inst.rs1], R[inst.rs2], inst.imm);
    }

    /**
     * The load cases: the accessor's out-parameter, widened as its C type
     * says, goes to `rd`; its status is combined into `failed` by `&=`.
     */
    method ExecuteLoad(inst: Instruction, bus: Bus, failedBefore: bool) returns (failed: bool)
      requires Valid() && inst.op.IsLoad()
      modifies R
      ensures R[..] == LoadEffect(old(Snapshot()), inst, bus).regs
      ensures failed == (failedBefore && bus.load(LoadAccessorOf(inst.op), Wrap(old(R[inst.rs1]) + inst.imm)).ok)
    {
      var acc := LoadAccessorOf(inst.op);
      var reply := bus.load(acc, Wrap(R[inst.rs1] + inst.imm));
      failed := failedBefore && reply.ok;
      R[inst.rd] := Widen(acc, reply.value);
    }

    /**
     * The branch cases: when the comparison of the raw registers holds, the
     * PC moves by the immediate from the branch's own address.
     */
    method ExecuteBranch(inst: Instruction) returns (jumped: bool)
      requires Valid() && inst.op.IsBranch()
      modifies this`pc
      ensures jumped == BranchEffect(old(Snapshot()), inst).jumped
      ensures pc == BranchEffect(old(Snapshot()), inst).pc
    {
      jumped := false;
      if BranchTaken(inst.op, R[inst.rs1], R[inst.rs2]) {
        pc := Wrap(pc + inst.imm);
        jumped := true;
      }
    }

    /** JAL and JALR: link PC + 4 into `rd` first, then jump; JALR reads `rs1` after the link. */
    method ExecuteJump(inst: Instruction)
      requires Valid() && inst.op.IsJump()
      modifies this`pc, R
      ensures R[..] == JumpEffect(old(Snapshot()), inst).regs
      ensures pc == JumpEffect(old(Snapshot()), inst).pc
    {
      R[inst.rd] := Wrap(pc + 4);
      if inst.op == JAL {
        pc := Wrap(pc + inst.imm);
      } else {
        pc := Wrap(R[inst.rs1] + inst.imm);
      }
    }

    /**
     * The instruction switch: updates the register file and the PC and
     * reports the flags the rest of the iteration looks at.
     */
    method ExecuteInstruction(inst: Instruction, bus: Bus)
        returns (jumped: bool, terminate: bool, failed: bool, virt: VirtualOp)
      requires Valid()
      modifies this`pc, R
      ensures Valid() && status == old(status) && avail[..] == old(avail[..])
      ensures Effect(R[..], pc, jumped, terminate, failed, virt) == Execute(old(Snapshot()), inst, bus)
    {
      ghost var s := Snapshot();
      ExecuteByFamily(s, inst, bus);
      jumped, terminate, failed, virt := false, false, false, VirtualNone;
      if inst.op.IsAlu() {
        ExecuteAlu(inst);
      } else if inst.op.IsLoad() {
        failed := ExecuteLoad(inst, bus, failed);
      } else if inst.op.IsStore() {
        var reply := bus.store(StoreAccessorOf(inst.op), Wrap(R[inst.rs1] + inst.imm), R[inst.rs2]);
        failed := failed && reply.ok;
        virt := reply.op;
      } else if inst.op.IsBranch() {
        jumped := ExecuteBranch(inst);
      } else if inst.op.IsJump() {
        ExecuteJump(inst);
        jumped := true;
      } else if inst.op == InstructionInvalid {
        terminate := true;
      }
    }

    /** The allocator's inner count: how many of the blocks start .. minBlocks-1 are free. */
    method CountFree(start: nat, minBlocks: nat) returns (freeCount: nat)
      requires Valid() && start <= MaxBanks && minBlocks <= MaxBanks
      ensures freeCount == FreeCount(avail[..], start, minBlocks)
    {
      freeCount := 0;
      var j := start;
      while j < minBlocks
        invariant start <= j <= if start <= minBlocks then minBlocks else start
        invariant freeCount == FreeCount(avail[..], start, j)
      {
        if !avail[j] {
          freeCount := freeCount + 1;
        }
        j := j + 1;
      }
    }

    /**
     * The allocator's marking loop: blocks start .. minBlocks-1 become used,
     * and the address of block `start` goes to register 28.
     */
    method MarkFrom(start: nat, minBlocks: nat)
      requires Valid() && start < minBlocks <= MaxBanks
      modifies R, avail
      ensures avail[..] == Mark(old(avail[..]), start, minBlocks)
      ensures R[..] == old(R[..])[AllocResultReg := HeapBase + start * 64]
    {
      var j := start;
      while j < minBlocks
        invariant start <= j <= minBlocks
        invariant avail[..] == Mark(old(avail[..]), start, j)
        invariant R[..] == if j == start then old(R[..]) else old(R[..])[AllocResultReg := HeapBase + start * 64]
      {
        if j == start {
          R[AllocResultReg] := HeapBase + j * 64;
        }
        avail[j] := true;
        j := j + 1;
      }
    }

    /**
     * HEAP_ALLOC with the allocator's nested loops: for each start i, count
     * the free blocks among i .. min_blocks-1; at the first start where the
     * count reaches min_blocks, put the block's address in register 28 and
     * mark those blocks used. Reports whether a block was found.
     */
    method HeapAlloc(size: Word) returns (found: bool)
      requires Valid()
      modifies R, avail
      ensures found == Alloc(old(avail[..]), size).Allocated?
      ensures found ==>
        && avail[..] == Alloc(old(avail[..]), size).avail
        && R[..] == old(R[..])[AllocResultReg := Alloc(old(avail[..]), size).base]
      ensures !found ==> avail[..] == old(avail[..]) && R[..] == old(R[..])
    {
      var minBlocks := MinBlocks(size);
      found := false;
      if minBlocks > MaxBanks {
        return;
      }
      var i := 0;
      while i < MaxBanks
        invariant 0 <= i <= MaxBanks
        invariant avail[..] == old(avail[..]) && R[..] == old(R[..])
        invariant FirstFit(old(avail[..]), minBlocks, i) == FirstFit(old(avail[..]), minBlocks, 0)
      {
        var freeCount := CountFree(i, minBlocks);
        if freeCount >= minBlocks {
          FreeCountBound(avail[..], i, minBlocks);
          found := true;
          MarkFrom(i, minBlocks);
          break;
        }
        i := i + 1;
      }
    }

    /**
     * HEAP_FREE of the raw word read from memory, taken as an i32 address:
     * clears the block's flag when the address is in the dynamic region, a
     * multiple of 4 or of 64, and the block is in use. Reports whether it did.
     */
    method HeapFree(word: Word) returns (found: bool)
      requires Valid()
      modifies avail
      ensures found == Release(old(avail[..]), Signed(word)).Some?
      ensures found ==> avail[..] == Release(old(avail[..]), Signed(word)).value
      ensures !found ==> avail[..] == old(avail[..])
    {
      var address := Signed(word);
      found := false;
      if address >= NonDynamicSize && address < TotalMemSize {
        if address % 4 == 0 || address % 64 == 0 {
          var block := (address - NonDynamicSize) / 64;
          if avail[block] {
            avail[block] := false;
            found := true;
          }
        }
      }
    }

    /**
     * The rest of the loop body once the switch has run: the stop test, the
     * virtual operation, then register 0 forced to 0 and the PC advanced
     * unless the instruction jumped.
     */
    method FinishIteration(jumped: bool, terminate: bool, failed: bool, virt: VirtualOp, bus: Bus)
      requires Valid() && status == Running
      modifies this, R, avail
      ensures Valid() && R == old(R) && avail == old(avail)
      ensures Snapshot()
        == Dispatch(old(avail[..]), Effect(old(R[..]), old(pc), jumped, terminate, failed, virt), bus)
    {
      if terminate || failed {
        status := Stopped;
        return;
      }
      if virt == VirtualHalt {
        status := Halted;
        return;
      } else if virt == VirtualHeapAlloc {
        var ok := HeapAlloc(bus.word(AllocSizeAddress));
        if !ok {
          status := Fatal;
          return;
        }
      } else if virt == VirtualHeapFree {
        var ok := HeapFree(bus.word(FreeAddressAddress));
        if !ok {
          status := Fatal;
          return;
        }
      }
      R[0] := 0;
      if !jumped {
        pc := Wrap(pc + 4);
      }
    }

    /** One iteration of the loop body: the instruction switch, then the rest of the iteration. */
    method Step(inst: Instruction, bus: Bus)
      requires Valid() && status == Running
      modifies this, R, avail
      ensures Valid() && R == old(R) && avail == old(avail)
      ensures Snapshot() == Next(old(Snapshot()), inst, bus)
    {
      var jumped, terminate, failed, virt := ExecuteInstruction(inst, bus);
      FinishIteration(jumped, terminate, failed, virt, bus);
    }

    /**
     * The interpreter loop over the decoded program, taking one set of
     * memory replies per iteration: it runs while the machine runs, the PC
     * is inside instruction memory and replies remain, and a PC past
     * instruction memory leaves the loop.
     */
    method Run(program: seq<Instruction>, buses: seq<Bus>)
      requires Valid() && |program| == ProgramWords
      modifies this, R, avail
      ensures Valid() && R == old(R) && avail == old(avail)
      ensures Snapshot() == Semantics.Run(old(Snapshot()), program, buses)
    {
      var k := 0;
      ghost var rest := buses;
      while k < |buses| && status == Running && pc < InstructionMemorySize
        invariant 0 <= k <= |buses| && rest == buses[k..]
        invariant Valid() && R == old(R) && avail == old(avail)
        invariant Semantics.Run(Snapshot(), program, rest)
          == Semantics.Run(old(Snapshot()), program, buses)
      {
        RunUnfold(Snapshot(), program, rest);
        Step(program[pc / 4], buses[k]);
        k := k + 1;
        rest := rest[1..];
      }
      RunEnds(Snapshot(), program, rest);
      if status == Running && pc >= InstructionMemorySize {
        status := Stopped;
      }
    }
  }
}
