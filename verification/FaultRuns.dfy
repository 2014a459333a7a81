/** Runs of page faults from the two states in which the tables start (kernel/mm/mm.c:12-40 and 134-153). */
module FaultRuns {
  import opened IdentityMap
  import opened PageBitmap
  import opened PageTree
  import opened PageFaults
  import opened DemandPaging
  import opened KernelMap
  import opened SharedFrames
  import opened MemoryManagement

  /** Any run of faults after `mm_init`, over memory of any size and contents. Pages outside the identity map get
  private frames. All frames are distinct exactly as long as none of those frames is one that the identity map covers;
  and with too little memory for the whole identity map, no fault is ever handled. */
  method FaultsAfterBoot(memSize: Word, boot: Memory, faults: seq<(Word, Word)>)
    returns (mm: MemoryManager, handled: nat, ghost steps: nat)
    requires 256 < memSize / 4096 <= MAX_PAGES && |boot| == memSize / 4096
    ensures mm.Valid() && Tree(mm.mem, mm.kernelPml4, mm.UsedSet()) && handled <= |faults|
    ensures BuiltSteps(steps, memSize / 4096 - 257) && (handled > 0 ==> steps == 2048)
    ensures DemandPrivate(mm.mem, mm.kernelPml4, mm.UsedSet(), InitFlat(steps))
    ensures (forall v: nat | Faulted(faults[..handled], v) :: v !in InitFlat(steps)) ==>
              (Distinct(Flat(mm.mem, mm.kernelPml4)) <==> FramesOutside(Flat(mm.mem, mm.kernelPml4), steps))
  {
    mm := new MemoryManager.MmInit(memSize, boot);
    steps :| Booted(mm.Now(), mm.kernelPml4, steps);
    ghost var s := mm.Now();
    BootIsDemandPrivate(s, mm.kernelPml4, steps);
    handled := mm.RunFaults(faults, InitFlat(steps));
    if forall v: nat | Faulted(faults[..handled], v) :: v !in InitFlat(steps) {
      DistinctAfterBoot(s, mm.Now(), mm.kernelPml4, steps, faults[..handled]);
    }
  }

  /** Any run of faults on an empty level-4 table, whatever else is in use: no two pages ever share a frame, and no
  frame holds a table. */
  method FaultsFromEmptyRoot(mm: MemoryManager, faults: seq<(Word, Word)>) returns (handled: nat)
    requires mm.Valid() && Tree(mm.mem, mm.kernelPml4, mm.UsedSet()) && OnlyRoot(mm.mem, mm.kernelPml4)
    modifies mm`freePages, mm`mem, mm.bitmap
    ensures mm.Valid() && Tree(mm.mem, mm.kernelPml4, mm.UsedSet())
    ensures Private(mm.mem, mm.kernelPml4, mm.UsedSet())
    ensures handled <= |faults| && AfterFaults(old(mm.Now()), mm.Now(), mm.kernelPml4, faults[..handled])
  {
    PrivateIsDemandPrivate(mm.mem, mm.kernelPml4, mm.UsedSet());
    handled := mm.RunFaults(faults, map[]);
    PrivateIsDemandPrivate(mm.mem, mm.kernelPml4, mm.UsedSet());
  }

  /** One fault on page `i` of the first 2 MB. */
  method FaultNext(mm: MemoryManager, i: nat)
    requires mm.Valid() && Tree(mm.mem, mm.kernelPml4, mm.UsedSet())
    requires 1 <= i < 512 && Filling(mm.Now(), mm.kernelPml4, i) && mm.freePages > 0
    modifies mm`freePages, mm`mem, mm.bitmap
    ensures mm.Valid() && Tree(mm.mem, mm.kernelPml4, mm.UsedSet()) && |mm.mem| == old(|mm.mem|)
    ensures Filling(mm.Now(), mm.kernelPml4, i + 1)
  {
    ghost var s := mm.Now();
    FirstRegion(i);
    var halted := mm.PageFault(0, 4096 * i);
    FillNext(s, mm.Now(), mm.kernelPml4, i);
  }

  method StartFaults(memSize: Word, boot: Memory) returns (mm: MemoryManager)
    requires 2560 < memSize / 4096 <= MAX_PAGES && |boot| == memSize / 4096
    ensures fresh(mm) && fresh(mm.bitmap) && mm.Valid() && |mm.mem| > 2560
    ensures Tree(mm.mem, mm.kernelPml4, mm.UsedSet()) && Filling(mm.Now(), mm.kernelPml4, 1)
  {
    mm := new MemoryManager.MmInit(memSize, boot);
    ghost var steps: nat :| Booted(mm.Now(), mm.kernelPml4, steps);
    StartFilling(mm.Now(), mm.kernelPml4, steps);
  }

  /** With more than 10 MB of memory, 251 faults, on pages 1 to 251, leave pages 251 and 2560 with the same frame. */
  method ShareFrame(memSize: Word, boot: Memory) returns (mm: MemoryManager)
    requires 2560 < memSize / 4096 <= MAX_PAGES && |boot| == memSize / 4096
    ensures var flat := Flat(mm.mem, mm.kernelPml4);
            251 in flat && 2560 in flat && Target(flat[251]) == 2560 == Target(flat[2560])
    ensures !Distinct(Flat(mm.mem, mm.kernelPml4))
  {
    mm := StartFaults(memSize, boot);
    var i := 1;
    while i <= 251
      invariant 1 <= i <= 252 && mm.Valid() && |mm.mem| > 2560 && fresh(mm.bitmap)
      invariant Tree(mm.mem, mm.kernelPml4, mm.UsedSet()) && Filling(mm.Now(), mm.kernelPml4, i)
    {
      FaultNext(mm, i);
      i := i + 1;
    }
    FillingShares(mm.Now(), mm.kernelPml4);
  }
}
