/**
 * The heap allocator's behaviour as functions of the availability bitmap
 * (`true` = block in use), and what is proved about it. The bitmap has one
 * flag per 64-byte block; block k starts at NON_DYNAMIC_SIZE + 64 * k.
 */
module Heap {
  import opened Words
  import opened Layout

  datatype Option<T> = None | Some(value: T)

  /** The outcome of an allocation request. */
  datatype AllocOutcome = Allocated(base: Word, avail: seq<bool>) | OutOfMemory

  /** The bitmap at boot: every block free. */
  function EmptyHeap(): seq<bool>
  {
    seq(MaxBanks, _ => false)
  }

  /**
   * `min_blocks`: the request size divided by 64, plus one: the fewest
   * blocks whose capacity exceeds `size` (so a 64-byte request takes two
   * blocks, not one).
   */
  function MinBlocks(size: Word): (m: nat)
    ensures 1 <= m
    ensures (m - 1) * 64 <= size < m * 64
  {
    size / 64 + 1
  }

  /** Number of free blocks among indices lo .. hi-1 (zero when the range is empty). */
  function FreeCount(s: seq<bool>, lo: nat, hi: nat): (r: nat)
    requires hi <= |s|
    ensures r <= if lo <= hi then hi - lo else 0
    decreases hi
  {
    if hi <= lo then 0 else FreeCount(s, lo, hi - 1) + (if s[hi - 1] then 0 else 1)
  }

  /** Blocks 0 .. m-1 are all free. */
  predicate AllFree(s: seq<bool>, m: nat)
    requires m <= |s|
  {
    forall k :: 0 <= k < m ==> !s[k]
  }

  /**
   * The allocator's search as written: the first candidate start i, from `i`
   * upwards, for which the count of free blocks among i .. m-1 (the window
   * ends at m, not at i + m) reaches m.
   */
  function FirstFit(s: seq<bool>, m: nat, i: nat): (r: Option<nat>)
    requires |s| == MaxBanks && 1 <= m <= MaxBanks && i <= MaxBanks
    ensures r.Some? ==> i <= r.value < MaxBanks && r.value < m
    decreases MaxBanks - i
  {
    if i == MaxBanks then None
    else if FreeCount(s, i, m) >= m then (FreeCountBound(s, i, m); Some(i))
    else FirstFit(s, m, i + 1)
  }

  /** `s` with the flags lo .. hi-1 set to used. */
  function Mark(s: seq<bool>, lo: nat, hi: nat): (r: seq<bool>)
    ensures |r| == |s|
    ensures forall k :: lo <= k < hi && k < |s| ==> r[k]
    ensures forall k :: 0 <= k < |s| && !(lo <= k < hi) ==> r[k] == s[k]
  {
    seq(|s|, k requires 0 <= k < |s| => (lo <= k < hi) || s[k])
  }

  /**
   * HEAP_ALLOC: a request larger than the heap is fatal; otherwise the first
   * start the search accepts is marked used from the start up to m-1 and its
   * address is the result; no accepted start is fatal too.
   */
  function Alloc(avail: seq<bool>, size: Word): (r: AllocOutcome)
    requires |avail| == MaxBanks
    ensures r.Allocated? ==> |r.avail| == MaxBanks
  {
    var m := MinBlocks(size);
    if m > MaxBanks then OutOfMemory
    else match FirstFit(avail, m, 0)
      case None => OutOfMemory
      case Some(i) => Allocated(HeapBase + i * 64, Mark(avail, i, m))
  }

  /**
   * HEAP_FREE on the i32 `address` read from memory: it must lie in the
   * dynamic region, be a multiple of 4 or of 64, and name a block in use,
   * which is then freed.
   */
  function Release(avail: seq<bool>, address: int): (r: Option<seq<bool>>)
    requires |avail| == MaxBanks
    ensures r.Some? ==> |r.value| == MaxBanks
  {
    if NonDynamicSize <= address < TotalMemSize && (address % 4 == 0 || address % 64 == 0) then
      var block := (address - NonDynamicSize) / 64;
      if avail[block] then Some(avail[block := false]) else None
    else None
  }

  /** A count of free blocks reaches the width of its range exactly when all the blocks in it are free. */
  lemma {:induction false} FreeCountBound(s: seq<bool>, lo: nat, hi: nat)
    requires hi <= |s|
    ensures lo <= hi ==> (FreeCount(s, lo, hi) == hi - lo <==> forall k :: lo <= k < hi ==> !s[k])
    decreases hi
  {
    if lo < hi {
      FreeCountBound(s, lo, hi - 1);
    }
  }

  /**
   * Because the window always ends at m, a start i > 0 sees fewer than m
   * blocks: the search can only ever accept start 0, and accepts it exactly
   * when blocks 0 .. m-1 are all free.
   */
  lemma {:induction false} FirstFitOnlyAtZero(s: seq<bool>, m: nat, i: nat)
    requires |s| == MaxBanks && 1 <= m <= MaxBanks && i <= MaxBanks
    ensures FirstFit(s, m, i) == if i == 0 && AllFree(s, m) then Some(0) else None
    decreases MaxBanks - i
  {
    if i < MaxBanks {
      FreeCountBound(s, i, m);
      if !(i == 0 && AllFree(s, m)) {
        FirstFitOnlyAtZero(s, m, i + 1);
      }
    }
  }

  /**
   * An allocation succeeds exactly when the request fits in the heap and
   * blocks 0 .. m-1 are free; it then returns the heap base and marks exactly
   * those blocks used, leaving every other flag as it was.
   */
  lemma AllocSucceedsExactly(avail: seq<bool>, size: Word)
    requires |avail| == MaxBanks
    ensures Alloc(avail, size).Allocated? <==>
      MinBlocks(size) <= MaxBanks && AllFree(avail, MinBlocks(size))
    ensures Alloc(avail, size).Allocated? ==>
      var r := Alloc(avail, size);
      && r.base == HeapBase
      && |r.avail| == MaxBanks
      && (forall k :: 0 <= k < MinBlocks(size) ==> r.avail[k])
      && (forall k :: MinBlocks(size) <= k < MaxBanks ==> r.avail[k] == avail[k])
  {
    var m := MinBlocks(size);
    if m <= MaxBanks {
      FirstFitOnlyAtZero(avail, m, 0);
    }
  }

  /**
   * On an empty heap every request that fits succeeds at the heap base and
   * takes blocks 0 .. size/64: one block below 64 bytes, two for exactly 64.
   */
  lemma AllocFromEmpty(size: Word)
    requires MinBlocks(size) <= MaxBanks
    ensures Alloc(EmptyHeap(), size).Allocated?
    ensures Alloc(EmptyHeap(), size).base == HeapBase
    ensures |Alloc(EmptyHeap(), size).avail| == MaxBanks
    ensures forall k :: 0 <= k < MaxBanks ==>
      Alloc(EmptyHeap(), size).avail[k] == (k <= size / 64)
  {
    AllocSucceedsExactly(EmptyHeap(), size);
  }

  /** After one successful allocation, every further allocation fails, whatever its size. */
  lemma AllocAfterAllocFails(avail: seq<bool>, first: Word, second: Word)
    requires |avail| == MaxBanks
    requires Alloc(avail, first).Allocated?
    ensures |Alloc(avail, first).avail| == MaxBanks
    ensures Alloc(Alloc(avail, first).avail, second) == OutOfMemory
  {
    AllocSucceedsExactly(avail, first);
    var next := Alloc(avail, first).avail;
    AllocSucceedsExactly(next, second);
    assert next[0];
  }

  /**
   * A free succeeds exactly when the address lies in the dynamic region, is
   * a multiple of 4 (the multiple-of-64 alternative adds nothing) and its
   * block is in use; it then clears that one flag.
   */
  lemma ReleaseSucceedsExactly(avail: seq<bool>, address: int)
    requires |avail| == MaxBanks
    ensures Release(avail, address).Some? <==>
      && NonDynamicSize <= address < TotalMemSize
      && address % 4 == 0
      && avail[(address - NonDynamicSize) / 64]
    ensures Release(avail, address).Some? ==>
      Release(avail, address).value == avail[(address - NonDynamicSize) / 64 := false]
  {
    if address % 64 == 0 {
      var q := address / 64;
      assert address == 4 * (16 * q);
    }
  }

  /**
   * Freeing the address a successful allocation returned (read back as i32)
   * succeeds and clears block 0; for a request of fewer than 64 bytes this
   * restores the bitmap.
   */
  lemma AllocThenRelease(avail: seq<bool>, size: Word)
    requires |avail| == MaxBanks
    requires Alloc(avail, size).Allocated?
    ensures |Alloc(avail, size).avail| == MaxBanks
    ensures Release(Alloc(avail, size).avail, Signed(Alloc(avail, size).base))
      == Some(Alloc(avail, size).avail[0 := false])
    ensures size < 64 ==>
      Release(Alloc(avail, size).avail, Signed(Alloc(avail, size).base)) == Some(avail)
  {
    AllocSucceedsExactly(avail, size);
    var r := Alloc(avail, size);
    assert Signed(r.base) == NonDynamicSize;
    ReleaseSucceedsExactly(r.avail, NonDynamicSize);
    if size < 64 {
      assert r.avail[0 := false] == avail;
    }
  }
}
