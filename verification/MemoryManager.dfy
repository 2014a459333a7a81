/** Physical page allocator, page-table builder and demand paging (kernel/mm/mm.c). */
module MemoryManagement {
  import opened AccessRights
  import opened Options
  import opened Bits
  import opened PageTree
  import opened HardwareWalk
  import opened IdentityMap
  import opened PageBitmap
  import opened Mappings
  import opened PageFaults
  import opened DemandPaging
  import opened KernelMap
  import opened SharedFrames

  class MemoryManager {
    var totalPages: nat
    var freePages: nat
    var bitmap: array<Word>
    var mem: Memory
    var kernelPml4: nat  // frame of the level-4 table

    ghost function UsedSet(): set<nat>
      reads this`totalPages, this`bitmap, bitmap
    {
      UsedPages(bitmap[..], totalPages)
    }

    /** `free_pages` is the number of clear bits below `total_pages`; page 0 stays reserved, so that address 0 can
    mean failure. */
    ghost predicate Valid()
      reads this, bitmap
    {
      && bitmap.Length == (totalPages + 63) / 64
      && |mem| == totalPages <= MAX_PAGES
      && freePages == totalPages - |UsedSet()|
      && 0 in UsedSet()
    }

    /** `mm_init`, over memory with any contents. The level-4 table and the tables below it come from the pages above
    1 MB; mapping stops, silently, at the first step for which no page is left. With two steps or more, the frames
    mapped are not private: those above 1 MB are free pages or hold tables. */
    constructor MmInit(memSize: Word, boot: Memory)
      requires 256 < memSize / 4096 <= MAX_PAGES && |boot| == memSize / 4096
      ensures fresh(bitmap) && Valid() && totalPages == memSize / 4096 && Tree(mem, kernelPml4, UsedSet())
      ensures exists steps: nat :: Booted(Now(), kernelPml4, steps)
      ensures Private(mem, kernelPml4, UsedSet()) <==> totalPages < 257 + InitCost(2)
    {
      totalPages := memSize / 4096;
      freePages := memSize / 4096;
      bitmap := new Word[(memSize / 4096 + 63) / 64];
      mem := boot;
      kernelPml4 := 0;
      new;
      ghost var steps := BuildKernelMap();
      BootIsPrivateExactly(Now(), kernelPml4, steps);
    }

    ghost function Now(): Snapshot
      reads this, bitmap
    {
      Snapshot(mem, UsedSet(), freePages)
    }

    /** The search loops of `pmm_alloc_page`. */
    method FindClearBit() returns (found: bool, i: nat, j: nat)
      ensures found ==> i < bitmap.Length && j < 64 && !Used(bitmap[..], 64 * i + j) && Passed(bitmap[..], i, j)
      ensures !found ==> Passed(bitmap[..], bitmap.Length, 0)
    {
      i, j := 0, 0;
      while i < bitmap.Length
        invariant i <= bitmap.Length && Passed(bitmap[..], i, 0)
      {
        if bitmap[i] != ALL_ONES {
          j := 0;
          while j < 64
            invariant j <= 64 && Passed(bitmap[..], i, j)
          {
            assert (64 * i + j) / 64 == i && (64 * i + j) % 64 == j;
            if !Bit(bitmap[i], j) { return true, i, j; }
            assert Used(bitmap[..], 64 * i + j);
            j := j + 1;
          }
          NotFullWord(bitmap[..], i);
          assert false;
        } else {
          FullWord(bitmap[..], i);
        }
        i := i + 1;
      }
      found := false;
    }

    method AllocPage() returns (addr: Word)
      requires Valid()
      modifies this`freePages, this`mem, bitmap
      ensures Valid()
      ensures old(freePages) == 0 ==>
                addr == 0 && freePages == 0 && mem == old(mem) && UsedSet() == old(UsedSet())
      ensures old(freePages) > 0 ==>
                var n := FirstFree(old(UsedSet()), 0, totalPages);
                && 0 < n < totalPages && addr == 4096 * n
                && UsedSet() == old(UsedSet()) + {n} && freePages == old(freePages) - 1
                && mem == old(mem)[n := ZeroFrame()]
    {
      addr := 0;
      if freePages > 0 {
        var found, i, j := FindClearBit();
        NothingFound(bitmap[..], totalPages);
        if found { addr := TakePage(i, j); }
      }
    }

    /** The hit of the search: mark the page, count it and clear it. */
    method TakePage(i: nat, j: nat) returns (page: Word)
      requires Valid() && freePages > 0
      requires i < bitmap.Length && j < 64 && !Used(bitmap[..], 64 * i + j) && Passed(bitmap[..], i, j)
      modifies this`freePages, this`mem, bitmap
      ensures Valid() && page == 4096 * (64 * i + j)
      ensures 64 * i + j == FirstFree(old(UsedSet()), 0, totalPages) < totalPages
      ensures UsedSet() == old(UsedSet()) + {64 * i + j} && freePages == old(freePages) - 1
      ensures mem == old(mem)[64 * i + j := ZeroFrame()]
    {
      ghost var n := 64 * i + j;
      ghost var before := bitmap[..];
      LowestClearIsPage(before, totalPages, n);
      assert n / 64 == i && n % 64 == j;
      MarkPage(before, n, totalPages);
      bitmap[i] := Or(bitmap[i], Pow2(j));
      assert bitmap[..] == before[i := Or(before[i], Pow2(j))];
      freePages := freePages - 1;
      page := (i * 64 + j) * 4096;
      mem := ClearFrame(mem, page / 4096);
    }

    /** `pmm_free_page` trusts its caller: the accounting survives exactly when the page was in use and is not page 0.
    The bitmap has a bit for every page it accepts, which may lie in the padding of the last word. */
    method FreePage(page: Word)
      requires Valid() && page / 4096 / 64 < bitmap.Length
      modifies this`freePages, bitmap
      ensures UsedSet() == old(UsedSet()) - {page / 4096} && freePages == old(freePages) + 1
      ensures Valid() <==> page / 4096 in old(UsedSet()) && page / 4096 != 0
    {
      var n := page / 4096;
      UnmarkPage(bitmap[..], n, totalPages);
      bitmap[n / 64] := ClearBit(bitmap[n / 64], n % 64);
      assert bitmap[..] == old(bitmap[..])[n / 64 := bitmap[n / 64]];
      freePages := freePages + 1;
    }

    /** The step that `vmm_map_page` repeats for the three levels above the leaves: make entry `i` of table `t` point
    to a table. */
    method EnsureTable(t: nat, i: int) returns (ok: bool)
      requires Valid() && t in UsedSet() && 0 <= i < 512
      modifies this`freePages, this`mem, bitmap
      ensures Valid() && EnsuresTable(old(Now()), Now(), t, i, ok)
      ensures ok && !Present(old(mem[t][i])) ==> Present(mem[t][i]) && WriteBit(mem[t][i]) && UserBit(mem[t][i])
    {
      if Present(mem[t][i]) { return true; }
      var table := AllocPage();
      if table == 0 { return false; }
      ghost var n := FirstFree(old(UsedSet()), 0, totalPages);
      assert n != t;
      OrOfFrame(n, TABLE_FLAGS);
      LinkWord(n);
      LinkIsOpen(4096 * n + TABLE_FLAGS);
      mem := Write(mem, t, i, Or(table, TABLE_FLAGS));
      ok := true;
    }

    /** One level of the descent for a page, which started from `s0`: make the entry `w` of table `t` point to a table
    and follow it. */
    method EnsureLevel(ghost s0: Snapshot, ghost root: nat, ghost w: Path, t: nat, i: int) returns (ok: bool, next: nat)
      requires Valid() && w.Step? && InRange(w, 3) && i == w.index && Reached(s0, Now(), root, w.up, t)
      modifies this`freePages, this`mem, bitmap
      ensures Valid()
      ensures ok ==> Reached(s0, Now(), root, w, next)
      ensures !ok ==> RanOut(s0, Now(), root, w)
    {
      ok := EnsureTable(t, i);
      NextLevel(s0, old(Now()), Now(), root, w, t, ok);
      next := Target(mem[t][i]);
    }

    /** `vmm_map_page` on the address space whose level-4 table is frame `root`. Any address, frame address and flags
    are accepted; bits 48..63 of the address are ignored. */
    method MapPage(root: nat, vaddr: Word, paddr: Word, flags: Word) returns (r: int)
      requires Valid() && Tree(mem, root, UsedSet())
      modifies this`freePages, this`mem, bitmap
      ensures Valid() && MapsPage(old(Now()), Now(), root, VpnOf(vaddr), Or(paddr, flags), r)
    {
      var pml4Idx, pdpIdx := vaddr / 0x80_0000_0000 % 512, vaddr / 0x4000_0000 % 512;
      var pdIdx, ptIdx := vaddr / 0x20_0000 % 512, vaddr / 0x1000 % 512;
      LeafPathOfAddress(vaddr);
      OrOfWords(paddr, flags);
      r := MapEntry(root, VpnOf(vaddr), pml4Idx, pdpIdx, pdIdx, ptIdx, Or(paddr, flags));
    }

    /** The part of `vmm_map_page` above the leaf: get or create the three tables on the way, up to `at`. */
    method BuildTables(root: nat, pml4Idx: int, pdpIdx: int, pdIdx: int) returns (ok: bool, t: nat, ghost at: Path)
      requires Valid() && Tree(mem, root, UsedSet())
      requires 0 <= pml4Idx < 512 && 0 <= pdpIdx < 512 && 0 <= pdIdx < 512
      modifies this`freePages, this`mem, bitmap
      ensures Valid()
      ensures OnWay(at, Step(Step(Step(Root, pml4Idx), pdpIdx), pdIdx))
      ensures ok ==> Reached(old(Now()), Now(), root, Step(Step(Step(Root, pml4Idx), pdpIdx), pdIdx), t)
      ensures !ok ==> RanOut(old(Now()), Now(), root, at)
    {
      ghost var s0 := Now();
      ghost var p1 := Step(Root, pml4Idx);
      ghost var p2 := Step(p1, pdpIdx);
      ghost var p3 := Step(p2, pdIdx);
      PathsInRange(pml4Idx, pdpIdx, pdIdx);
      assert OnWay(p2, p3) && OnWay(p1, p2);
      StartLevel(s0, root);
      at := p1;
      ok, t := EnsureLevel(s0, root, p1, root, pml4Idx);
      if ok {
        at := p2;
        ok, t := EnsureLevel(s0, root, p2, t, pdpIdx);
        if ok {
          at := p3;
          ok, t := EnsureLevel(s0, root, p3, t, pdIdx);
        }
      }
    }

    /** The body of `vmm_map_page`, once the four indices are known. */
    method MapEntry(root: nat, ghost vpn: nat, pml4Idx: int, pdpIdx: int, pdIdx: int, ptIdx: int, e: Word)
      returns (r: int)
      requires Valid() && Tree(mem, root, UsedSet())
      requires vpn < VPN_LIMIT && 0 <= pml4Idx < 512 && 0 <= pdpIdx < 512 && 0 <= pdIdx < 512
      requires LeafPath(vpn) == Step(Step(Step(Step(Root, pml4Idx), pdpIdx), pdIdx), ptIdx)
      modifies this`freePages, this`mem, bitmap
      ensures Valid() && MapsPage(old(Now()), Now(), root, vpn, e, r)
    {
      ghost var s0 := Now();
      var ok, t, at := BuildTables(root, pml4Idx, pdpIdx, pdIdx);
      if ok {
        LeafStep(s0, Now(), root, vpn, t, e);
        mem := Write(mem, t, ptIdx, e);
        r := 0;
      } else {
        RanOutFails(s0, Now(), root, vpn, e, at);
        r := -1;
      }
    }

    /** `page_fault_handler`. */
    method PageFault(errorCode: Word, faultingAddress: Word) returns (halted: bool)
      requires Valid() && Tree(mem, kernelPml4, UsedSet())
      modifies this`freePages, this`mem, bitmap
      ensures Valid()
      ensures halted <==> errorCode % 2 == 1 || old(freePages) == 0
      ensures halted ==> Now() == old(Now())
      ensures !halted ==> FaultsIn(old(Now()), Now(), kernelPml4, VpnOf(faultingAddress))
      ensures !halted && Missing(old(mem), kernelPml4, LeafPath(VpnOf(faultingAddress)).up) < old(freePages) ==>
                AccessAt(mem, kernelPml4, faultingAddress) == Some(Access(true, true))
    {
      ghost var s := Now();
      if errorCode % 2 == 0 {
        var handled := DemandPage(faultingAddress);
        if handled {
          if Missing(s.mem, kernelPml4, LeafPath(VpnOf(faultingAddress)).up) < s.free {
            FaultAllowsUserWrites(s, Now(), kernelPml4, faultingAddress);
          }
          return false;
        }
      }
      halted := true;
    }

    /** The mapping that the fault handler asks for: the page of the address, present, writable and user. */
    method MapFaultingPage(faultingAddress: Word, page: Word, ghost n: nat) returns (r: int)
      requires Valid() && Tree(mem, kernelPml4, UsedSet()) && page == 4096 * n
      modifies this`freePages, this`mem, bitmap
      ensures Valid() && MapsPage(old(Now()), Now(), kernelPml4, VpnOf(faultingAddress), 4096 * n + TABLE_FLAGS, r)
    {
      OrOfFrame(n, TABLE_FLAGS);
      var base := PageBase(faultingAddress);
      r := MapPage(kernelPml4, base, page, TABLE_FLAGS);
    }

    /** The demand-paging branch. The page it takes is leaked, not returned, when the mapping then fails. */
    method DemandPage(faultingAddress: Word) returns (handled: bool)
      requires Valid() && Tree(mem, kernelPml4, UsedSet())
      modifies this`freePages, this`mem, bitmap
      ensures Valid()
      ensures handled <==> old(freePages) > 0
      ensures !handled ==> Now() == old(Now())
      ensures handled ==> FaultsIn(old(Now()), Now(), kernelPml4, VpnOf(faultingAddress))
    {
      ghost var s0, vpn := Now(), VpnOf(faultingAddress);
      var page := AllocPage();
      if page == 0 { return false; }
      ghost var s1, n := Now(), FirstFree(s0.used, 0, totalPages);
      TakeFrame(s0, kernelPml4, n, vpn);
      var r := MapFaultingPage(faultingAddress, page, n);
      FaultStep(s0, s1, Now(), kernelPml4, vpn, n, r);
      handled := true;
    }

    /** The loop of `mm_init` that clears the bitmap and the one that marks the first 256 pages. */
    method ReserveFirstMegabyte()
      requires 256 < totalPages <= MAX_PAGES && freePages == totalPages && bitmap.Length == (totalPages + 63) / 64
      modifies this`freePages, bitmap
      ensures FirstPages(UsedSet(), 256) && freePages == totalPages - 256
    {
      var i := 0;
      while i < bitmap.Length
        invariant i <= bitmap.Length && freePages == totalPages
        invariant forall k :: 0 <= k < i ==> bitmap[k] == 0
      {
        bitmap[i] := 0;
        i := i + 1;
      }
      EmptyBitmap(bitmap[..], totalPages);
      i := 0;
      while i < 256
        invariant i <= 256 && freePages == totalPages - i && FirstPages(UsedSet(), i)
      {
        ghost var before := bitmap[..];
        MarkPage(before, i, totalPages);
        bitmap[i / 64] := Or(bitmap[i / 64], Pow2(i % 64));
        assert bitmap[..] == before[i / 64 := Or(before[i / 64], Pow2(i % 64))];
        freePages := freePages - 1;
        i := i + 1;
      }
    }

    /** The rest of `mm_init`: reserve the first megabyte, take the level-4 table, and map. */
    method BuildKernelMap() returns (ghost steps: nat)
      requires 256 < totalPages <= MAX_PAGES && freePages == totalPages == |mem|
      requires bitmap.Length == (totalPages + 63) / 64
      modifies this`freePages, this`mem, this`kernelPml4, bitmap
      ensures Valid() && Tree(mem, kernelPml4, UsedSet()) && Booted(Now(), kernelPml4, steps)
    {
      ReserveFirstMegabyte();
      CountFirstPages(UsedSet(), 256);
      TakeRoot();
      steps := MapSteps();
    }

    method TakeRoot()
      requires Valid() && freePages == totalPages - 256 > 0 && FirstPages(UsedSet(), 256)
      modifies this`freePages, this`mem, this`kernelPml4, bitmap
      ensures Valid() && freePages == totalPages - 257
      ensures NothingMapped(Now(), kernelPml4)
    {
      ghost var s := Now();
      var root := AllocPage();
      RootTaken(s, Now());
      assert root == 4096 * 256;
      kernelPml4 := root / 4096;
    }

    /** The mapping loop of `mm_init`, which ignores the results of the calls it makes. */
    method MapSteps() returns (ghost steps: nat)
      requires Valid() && NothingMapped(Now(), kernelPml4) && freePages == totalPages - 257
      modifies this`freePages, this`mem, bitmap
      ensures Valid() && Tree(mem, kernelPml4, UsedSet()) && Booted(Now(), kernelPml4, steps)
    {
      var addr: int := 0;
      steps := 0;
      ghost var k: nat := 0;
      StartSteps(Now(), kernelPml4);
      while addr < 0x1_0000_0000
        invariant k <= 2048 && addr == 0x20_0000 * k
        invariant Valid() && StepsDone(old(freePages), Now(), kernelPml4, k, steps)
      {
        steps := MapStep(addr, old(freePages), k, steps);
        k := k + 1;
        addr := addr + 0x20_0000;
      }
      StepsEnd(old(freePages), Now(), kernelPml4, steps);
      StepsKeepTree(old(freePages), Now(), kernelPml4, k, steps);
    }

    /** One turn of that loop. */
    method MapStep(addr: Word, ghost avail: nat, ghost k: nat, ghost steps: nat) returns (ghost steps': nat)
      requires k < 2048 && addr == 0x20_0000 * k && Valid() && StepsDone(avail, Now(), kernelPml4, k, steps)
      modifies this`freePages, this`mem, bitmap
      ensures Valid() && StepsDone(avail, Now(), kernelPml4, k + 1, steps')
    {
      ghost var s := Now();
      StepsKeepTree(avail, s, kernelPml4, k, steps);
      var r := MapToItself(addr, k);
      steps' := StepMapped(avail, s, Now(), kernelPml4, k, steps, r);
    }

    /** The call in its body: the page at `addr`, present and writable. */
    method MapToItself(addr: Word, ghost k: nat) returns (r: int)
      requires k < 2048 && addr == 0x20_0000 * k && Valid() && Tree(mem, kernelPml4, UsedSet())
      modifies this`freePages, this`mem, bitmap
      ensures Valid() && MapsPage(old(Now()), Now(), kernelPml4, 512 * k, StepEntry(k), r)
    {
      assert VpnOf(addr) == 512 * k by { StepOfAddress(k); }
      assert Or(addr, 3) == StepEntry(k) by { OrOfFrame(512 * k, 3); }
      r := MapPage(kernelPml4, addr, addr, 3);
    }

    /** Any run of faults, in any order and with any error codes, which ends early exactly if the kernel halts. The
    pages mapped since it started with the map `boot` have private frames throughout, and no frame in use changes. */
    method RunFaults(faults: seq<(Word, Word)>, ghost boot: map<nat, Word>) returns (handled: nat)
      requires Valid() && Tree(mem, kernelPml4, UsedSet()) && DemandPrivate(mem, kernelPml4, UsedSet(), boot)
      modifies this`freePages, this`mem, bitmap
      ensures Valid() && Tree(mem, kernelPml4, UsedSet()) && DemandPrivate(mem, kernelPml4, UsedSet(), boot)
      ensures handled <= |faults| && (handled < |faults| ==> faults[handled].0 % 2 == 1 || freePages == 0)
      ensures AfterFaults(old(Now()), Now(), kernelPml4, faults[..handled])
    {
      handled := 0;
      while handled < |faults|
        invariant handled <= |faults| && AfterFaults(old(Now()), Now(), kernelPml4, faults[..handled])
        invariant Valid() && Tree(mem, kernelPml4, UsedSet()) && DemandPrivate(mem, kernelPml4, UsedSet(), boot)
      {
        ghost var s := Now();
        var halted := PageFault(faults[handled].0, faults[handled].1);
        if halted { return; }
        FaultKeepsPrivate(s, Now(), kernelPml4, VpnOf(faults[handled].1), boot);
        OneMoreFault(old(Now()), s, Now(), kernelPml4, faults[..handled], faults[handled]);
        assert faults[..handled + 1] == faults[..handled] + [faults[handled]];
        handled := handled + 1;
      }
    }
  }

  /** The clearing loop of the allocator, over the 512 words of one frame. */
  method ClearFrame(mem: Memory, n: nat) returns (mem': Memory)
    requires n < |mem|
    ensures mem' == mem[n := ZeroFrame()]
  {
    var k := 0;
    var frame := mem[n];
    while k < 512
      invariant 0 <= k <= 512 && forall i :: 0 <= i < k ==> frame[i] == 0
    {
      frame := frame[k := 0];
      k := k + 1;
    }
    assert frame == ZeroFrame();
    mem' := mem[n := frame];
  }
}
