/** The kernel's heap: best fit with usage counters (lib/memory.c). */
module KernelHeap {
  import opened BlockList
  import opened BlockSizes

  const HEADER: nat := 12      // sizeof(memory_block_t): 32-bit size, enum flag and pointer
  const LEAST: nat := 4        // smallest payload worth splitting off
  const HEAP_START: nat := 0x10_0000
  const HEAP_SIZE: nat := 0x10_0000
  const SIZE_LIMIT: nat := 0x1_0000_0000
  const INITIAL: seq<Block> := [Block(HEAP_SIZE - HEADER, true)]

  /** `(size + 3) & ~3` in 32 bits */
  function Aligned(size: nat): nat {
    (size + 3) % SIZE_LIMIT / 4 * 4
  }

  /** The rounded size covers the request exactly when the addition does not wrap; then it is the next multiple of 4. */
  lemma AlignedCovers(size: nat)
    requires size < SIZE_LIMIT
    ensures Aligned(size) >= size <==> size <= SIZE_LIMIT - 4
    ensures size <= 0xFFFF_FFFC ==> Aligned(size) == (size + 3) / 4 * 4 && size <= Aligned(size) < size + 4
    ensures size > 0xFFFF_FFFC ==> Aligned(size) == 0
  {
  }

  predicate Fits(b: Block, size: nat) { b.free && b.size >= size }

  /** The search loop on its first `n` blocks: the first of the smallest blocks that fit, -1 if none does. */
  function BestOf(bs: seq<Block>, size: nat, n: nat): (best: int)
    requires n <= |bs|
    ensures -1 <= best < n
  {
    if n == 0 then -1
    else
      var best := BestOf(bs, size, n - 1);
      if Fits(bs[n - 1], size) && (best == -1 || bs[n - 1].size < bs[best].size) then n - 1 else best
  }

  lemma {:induction false} BestIsBest(bs: seq<Block>, size: nat, n: nat)
    requires n <= |bs|
    ensures BestOf(bs, size, n) == -1 <==> forall i :: 0 <= i < n ==> !Fits(bs[i], size)
    ensures var best := BestOf(bs, size, n);
            best != -1 ==> Fits(bs[best], size) && forall i :: 0 <= i < n && Fits(bs[i], size) ==>
              bs[best].size <= bs[i].size && (i < best ==> bs[best].size < bs[i].size)
  {
    if n > 0 { BestIsBest(bs, size, n - 1); }
  }

  /** Effect of `kmalloc` on the blocks; the pointer is null if no block fits. */
  function AfterMalloc(bs: seq<Block>, size: nat): seq<Block> {
    BestIsBest(bs, Aligned(size), |bs|);
    var best := BestOf(bs, Aligned(size), |bs|);
    if best == -1 then bs else Taken(HEADER, LEAST, bs, best, Aligned(size))
  }

  function MallocPointer(bs: seq<Block>, size: nat): nat {
    var best := BestOf(bs, Aligned(size), |bs|);
    if best == -1 then 0 else Addr(HEADER, HEAP_START, bs, best) + HEADER
  }

  ghost function AfterFree(bs: seq<Block>, a: nat): seq<Block>
    requires a in Live(HEADER, HEAP_START, bs)
  {
    Released(HEADER, bs, IndexOf(HEADER, HEAP_START, bs, a))
  }

  /** `kmalloc` returns null only if no block fits; otherwise it adds one live block, at an address not in use, and
  leaves every other live block alone. The block is large enough exactly if rounding the size does not wrap. */
  lemma MallocAddsBlock(bs: seq<Block>, size: nat)
    requires Tiling(HEADER, HEAP_SIZE, bs)
    ensures Tiling(HEADER, HEAP_SIZE, AfterMalloc(bs, size))
    ensures var p, live, live' := MallocPointer(bs, size), Live(HEADER, HEAP_START, bs),
                                  Live(HEADER, HEAP_START, AfterMalloc(bs, size));
            if p == 0
            then AfterMalloc(bs, size) == bs && forall i :: 0 <= i < |bs| ==> !Fits(bs[i], Aligned(size))
            else && p >= HEADER && p - HEADER !in live && p - HEADER in live' && live'[p - HEADER] >= Aligned(size)
                 && (live'[p - HEADER] >= size <==> size <= SIZE_LIMIT - 4)
                 && live' == live[p - HEADER := live'[p - HEADER]]
                 && LiveBytes(AfterMalloc(bs, size)) == LiveBytes(bs) + live'[p - HEADER]
  {
    var best := BestOf(bs, Aligned(size), |bs|);
    BestIsBest(bs, Aligned(size), |bs|);
    if best != -1 {
      var a := Addr(HEADER, HEAP_START, bs, best);
      PutToUse(bs, best, Aligned(size));
      assert MallocPointer(bs, size) - HEADER == a;
      LargeEnough(size, Live(HEADER, HEAP_START, AfterMalloc(bs, size))[a]);
    }
  }

  lemma LargeEnough(size: nat, n: nat)
    requires Aligned(size) <= n < HEAP_SIZE
    ensures n >= size <==> size <= SIZE_LIMIT - 4
  {
    if size < SIZE_LIMIT { AlignedCovers(size); }
  }

  /** Which block `kmalloc` takes: the first of the smallest free blocks that hold the size rounded up to a multiple of
  4. It returns null exactly if no free block holds it. */
  lemma MallocTakesBest(bs: seq<Block>, size: nat)
    requires size <= 0xFFFF_FFFC
    ensures MallocPointer(bs, size) == 0 <==>
              forall j :: 0 <= j < |bs| && bs[j].free ==> bs[j].size < (size + 3) / 4 * 4
    ensures forall i :: 0 <= i < |bs| ==>
              (MallocPointer(bs, size) == Addr(12, 0x10_0000, bs, i) + 12 <==>
                && bs[i].free && bs[i].size >= (size + 3) / 4 * 4
                && forall j :: 0 <= j < |bs| && bs[j].free && bs[j].size >= (size + 3) / 4 * 4 ==>
                     bs[i].size <= bs[j].size && (j < i ==> bs[i].size < bs[j].size))
  {
    AlignedCovers(size);
    BestIsBest(bs, Aligned(size), |bs|);
    var best := BestOf(bs, Aligned(size), |bs|);
    forall i | 0 <= i < |bs| && MallocPointer(bs, size) == Addr(12, 0x10_0000, bs, i) + 12 ensures i == best {
      SameAddress(12, 0x10_0000, bs, i, best);
    }
  }

  /** What `kmalloc` uses up: the block is less than 19 bytes larger than asked for, and apart from its payload at most
  the 12 bytes of one new header are lost to the free bytes. */
  lemma MallocIsTight(bs: seq<Block>, size: nat)
    requires Tiling(HEADER, HEAP_SIZE, bs) && size <= 0xFFFF_FFFC && MallocPointer(bs, size) != 0
    ensures var a := MallocPointer(bs, size) - 12;
            var bs' := AfterMalloc(bs, size);
            var live' := Live(HEADER, HEAP_START, bs');
            && a in live' && size <= live'[a] < size + 19
            && FreeBytes(bs) - 12 <= FreeBytes(bs') + live'[a] <= FreeBytes(bs)
  {
    AlignedCovers(size);
    BestIsBest(bs, Aligned(size), |bs|);
    var best := BestOf(bs, Aligned(size), |bs|);
    TakenBytes(HEADER, LEAST, bs, best, Aligned(size));
    TakenIsSound(HEADER, LEAST, HEAP_START, bs, best, Aligned(size));
  }

  /** Exactly when a block is split: if its rest holds a header of 12 bytes and 4 bytes more. */
  lemma SplitExactly(bs: seq<Block>, size: nat, i: nat)
    requires size <= 0xFFFF_FFFC && i < |bs| && MallocPointer(bs, size) == Addr(12, 0x10_0000, bs, i) + 12
    ensures var n, live' := (size + 3) / 4 * 4, Live(12, 0x10_0000, AfterMalloc(bs, size));
            && MallocPointer(bs, size) - 12 in live'
            && live'[MallocPointer(bs, size) - 12] == if bs[i].size >= n + 16 then n else bs[i].size
  {
    AlignedCovers(size);
    MallocTakesBest(bs, size);
    SameAddress(12, 0x10_0000, bs, i, BestOf(bs, Aligned(size), |bs|));
    TakenIsSound(HEADER, LEAST, HEAP_START, bs, i, Aligned(size));
  }

  /** When a second request succeeds: another free block holds it, or what is left of the block that the first one took,
  behind a header of 12 bytes and with at least 4 bytes. */
  lemma SecondRequest(bs: seq<Block>, size: nat, again: nat, i: nat)
    requires size <= 0xFFFF_FFFC && again <= 0xFFFF_FFFC && i < |bs|
    requires MallocPointer(bs, size) == Addr(12, 0x10_0000, bs, i) + 12
    ensures var n, m := (size + 3) / 4 * 4, (again + 3) / 4 * 4;
            MallocPointer(AfterMalloc(bs, size), again) != 0 <==>
              || bs[i].size >= n + 12 + (if m < 4 then 4 else m)
              || exists j :: 0 <= j < |bs| && j != i && bs[j].free && bs[j].size >= m
  {
    AlignedCovers(size);
    MallocTakesBest(bs, size);
    MallocTakesBest(AfterMalloc(bs, size), again);
    BestIsBest(bs, Aligned(size), |bs|);
    SameAddress(12, 0x10_0000, bs, i, BestOf(bs, Aligned(size), |bs|));
    TakenLeaves(HEADER, LEAST, bs, i, Aligned(size), (again + 3) / 4 * 4);
  }

  /** On the heap as `memory_init` leaves it two requests succeed exactly if both, rounded up, and one more header
  fit. */
  lemma FreshHeapServesTwo(size: nat, again: nat)
    requires size <= 0xFFFF_FFFC && again <= 0xFFFF_FFFC
    ensures var n, m := (size + 3) / 4 * 4, (again + 3) / 4 * 4;
            MallocPointer(INITIAL, size) != 0 && MallocPointer(AfterMalloc(INITIAL, size), again) != 0 <==>
              n + 12 + (if m < 4 then 4 else m) <= 0x10_0000 - 12
  {
    MallocTakesBest(INITIAL, size);
    assert INITIAL[0] == Block(0x10_0000 - 12, true);
    if MallocPointer(INITIAL, size) != 0 { SecondRequest(INITIAL, size, again, 0); }
  }

  /** Putting block `i` to use for `size` bytes; no block is as large as the heap. */
  lemma PutToUse(bs: seq<Block>, i: nat, size: nat)
    requires Tiling(HEADER, HEAP_SIZE, bs) && i < |bs| && Fits(bs[i], size)
    ensures var bs', a := Taken(HEADER, LEAST, bs, i, size), Addr(HEADER, HEAP_START, bs, i);
            var live, live' := Live(HEADER, HEAP_START, bs), Live(HEADER, HEAP_START, bs');
            && Tiling(HEADER, HEAP_SIZE, bs') && a !in live && a in live' && size <= live'[a] < HEAP_SIZE
            && live' == live[a := live'[a]] && LiveBytes(bs') == LiveBytes(bs) + live'[a]
  {
    TakenIsSound(HEADER, LEAST, HEAP_START, bs, i, size);
    TakenIsTight(HEADER, LEAST, bs, i, size);
    SizeBound(HEADER, HEAP_START, Taken(HEADER, LEAST, bs, i, size), i);
  }

  lemma FreeRemovesBlock(bs: seq<Block>, a: nat)
    requires Tiling(HEADER, HEAP_SIZE, bs) && a in Live(HEADER, HEAP_START, bs)
    ensures Tiling(HEADER, HEAP_SIZE, AfterFree(bs, a))
    ensures Live(HEADER, HEAP_START, AfterFree(bs, a)) == Live(HEADER, HEAP_START, bs) - {a}
    ensures LiveBytes(AfterFree(bs, a)) == LiveBytes(bs) - Live(HEADER, HEAP_START, bs)[a]
  {
    var i := IndexOf(HEADER, HEAP_START, bs, a);
    ReleasedIsSound(HEADER, HEAP_START, bs, i);
    ReleasedIsTight(HEADER, bs, i);
    LiveAt(HEADER, HEAP_START, bs, i);
    assert Span(HEADER, []) == 0;
  }

  // ---- Runs

  datatype Op = Malloc(size: nat) | Free(a: nat)

  ghost function Step(bs: seq<Block>, op: Op): seq<Block> {
    match op
    case Malloc(size) => AfterMalloc(bs, size)
    case Free(a) => if a in Live(HEADER, HEAP_START, bs) then AfterFree(bs, a) else bs
  }

  /** Blocks after a run; frees of addresses that are not live are not part of any run. */
  ghost function Run(ops: seq<Op>): seq<Block> {
    if ops == [] then INITIAL else Step(Run(ops[..|ops| - 1]), ops[|ops| - 1])
  }

  lemma StepKeepsTiling(bs: seq<Block>, op: Op)
    requires Tiling(HEADER, HEAP_SIZE, bs)
    ensures Tiling(HEADER, HEAP_SIZE, Step(bs, op))
  {
    match op
    case Malloc(size) => MallocAddsBlock(bs, size);
    case Free(a) => if a in Live(HEADER, HEAP_START, bs) { FreeRemovesBlock(bs, a); }
  }

  lemma {:induction false} RunTiles(ops: seq<Op>)
    ensures Tiling(HEADER, HEAP_SIZE, Run(ops))
    decreases |ops|
  {
    if ops == [] {
      OneBlock(HEADER, HEAP_START, INITIAL[0]);
    } else {
      RunTiles(ops[..|ops| - 1]);
      StepKeepsTiling(Run(ops[..|ops| - 1]), ops[|ops| - 1]);
    }
  }

  /** Over every run the blocks tile the heap, free blocks are merged, and freeing everything restores the heap. */
  lemma RunKeepsTiling(ops: seq<Op>)
    ensures Tiling(HEADER, HEAP_SIZE, Run(ops))
    ensures Live(HEADER, HEAP_START, Run(ops)) == map[] ==> Run(ops) == INITIAL
  {
    RunTiles(ops);
    if Live(HEADER, HEAP_START, Run(ops)) == map[] {
      NothingLive(HEADER, HEAP_START, Run(ops));
      AllFreeIsOneBlock(HEADER, Run(ops));
    }
  }

  /** Splitting the chosen block keeps the headers linked. */
  lemma TakeBest(headers: map<nat, Header>, bs: seq<Block>, size: nat)
    requires Linked(HEADER, HEAP_START, headers, bs)
    ensures var best := BestOf(bs, size, |bs|);
            best != -1 ==>
              && var a := Addr(HEADER, HEAP_START, bs, best);
              && a > 0 && Fits(bs[best], size) && a in headers && headers[a].size == bs[best].size
              && var headers' := TakenHeaders(HEADER, LEAST, headers, a, size);
              && var bs' := Taken(HEADER, LEAST, bs, best, size);
              && Linked(HEADER, HEAP_START, headers', bs') && LiveBytes(bs') == LiveBytes(bs) + headers'[a].size
  {
    var best := BestOf(bs, size, |bs|);
    BestIsBest(bs, size, |bs|);
    if best != -1 {
      NextIs(HEADER, HEAP_START, headers, bs, best, best);
      TakeLinks(HEADER, LEAST, HEAP_START, headers, bs, best, size);
      TakenIsSound(HEADER, LEAST, HEAP_START, bs, best, size);
    }
  }

  class Heap {
    var headers: map<nat, Header>
    var heapStart: nat
    var memoryUsed: nat
    var memoryPeak: nat
    ghost var blocks: seq<Block>

    ghost predicate Valid()
      reads this
    {
      && heapStart == HEAP_START
      && Linked(HEADER, HEAP_START, headers, blocks)
      && Tiling(HEADER, HEAP_SIZE, blocks)
      && memoryUsed == LiveBytes(blocks) <= memoryPeak
    }

    /** `memory_init` */
    constructor MemoryInit()
      ensures Valid() && blocks == INITIAL && memoryUsed == memoryPeak == 0
    {
      heapStart := HEAP_START;
      headers := map[HEAP_START := Header(HEAP_SIZE - HEADER, true, 0)];
      memoryUsed, memoryPeak := 0, 0;
      blocks := INITIAL;
      new;
      OneBlock(HEADER, HEAP_START, INITIAL[0]);
      assert INITIAL[..0] == [] && Addr(HEADER, HEAP_START, INITIAL, 0) == HEAP_START;
      assert LinkedAt(HEADER, HEAP_START, headers, blocks, 0);
    }

    /** The search loop of `kmalloc`. */
    method FindBestFit(size: nat) returns (bestFit: nat)
      requires Valid()
      ensures var best := BestOf(blocks, size, |blocks|);
              bestFit == if best == -1 then 0 else Addr(HEADER, HEAP_START, blocks, best)
    {
      var current := heapStart;
      bestFit := 0;
      var bestSize := 0xFFFF_FFFF;
      ghost var i := 0;
      assert blocks[..0] == [];
      while current != 0
        invariant i <= |blocks| && current == Pointer(HEADER, HEAP_START, blocks, i)
        invariant var best := BestOf(blocks, size, i);
                  && bestFit == (if best == -1 then 0 else Addr(HEADER, HEAP_START, blocks, best))
                  && bestSize == (if best == -1 then 0xFFFF_FFFF else blocks[best].size)
        decreases |blocks| - i
      {
        NextIs(HEADER, HEAP_START, headers, blocks, i, i);
        SizeBound(HEADER, HEAP_START, blocks, i);
        if headers[current].free && headers[current].size >= size {
          if headers[current].size < bestSize {
            bestSize := headers[current].size;
            bestFit := current;
          }
        }
        current := headers[current].next;
        i := i + 1;
      }
      SizeBound(HEADER, HEAP_START, blocks, |blocks| - 1);
    }

    method Kmalloc(size: nat) returns (p: nat)
      requires Valid() && size < SIZE_LIMIT
      modifies this
      ensures Valid() && p == MallocPointer(old(blocks), size) && blocks == AfterMalloc(old(blocks), size)
      ensures memoryPeak == if memoryUsed > old(memoryPeak) then memoryUsed else old(memoryPeak)
      ensures p == 0 ==> memoryUsed == old(memoryUsed)
      ensures p != 0 && size <= 0xFFFF_FFFC ==> old(memoryUsed) + size <= memoryUsed < old(memoryUsed) + size + 19
    {
      var rounded := (size + 3) % SIZE_LIMIT / 4 * 4;
      var bestFit := FindBestFit(rounded);
      TakeBest(headers, blocks, rounded);
      MallocAddsBlock(blocks, size);
      if bestFit == 0 { return 0; }
      if size <= 0xFFFF_FFFC { MallocIsTight(blocks, size); }
      Split(bestFit, rounded);
      blocks := AfterMalloc(blocks, size);
      memoryUsed := memoryUsed + headers[bestFit].size;
      if memoryUsed > memoryPeak { memoryPeak := memoryUsed; }
      p := bestFit + HEADER;
    }

    /** Mark a block used, after splitting off the rest of it if that is large enough. */
    method Split(bestFit: nat, size: nat)
      requires bestFit in headers && size <= headers[bestFit].size
      modifies this`headers
      ensures headers == TakenHeaders(HEADER, LEAST, old(headers), bestFit, size)
    {
      var block := headers[bestFit];
      if block.size >= size + HEADER + LEAST {
        var newBlock := bestFit + HEADER + size;
        headers := headers[newBlock := Header(block.size - size - HEADER, true, block.next)];
        headers := headers[bestFit := Header(size, headers[bestFit].free, newBlock)];
      }
      headers := headers[bestFit := headers[bestFit].(free := false)];
    }

    /** `kfree` of a live pointer. */
    method Kfree(p: nat)
      requires Valid() && (p == 0 || (p >= HEADER && p - HEADER in Live(HEADER, HEAP_START, blocks)))
      modifies this
      ensures Valid() && memoryPeak == old(memoryPeak)
      ensures blocks == if p == 0 then old(blocks) else AfterFree(old(blocks), p - HEADER)
    {
      if p == 0 { return; }
      var block := p - HEADER;
      ghost var bs, i := blocks, IndexOf(HEADER, HEAP_START, blocks, p - HEADER);
      FreeRemovesBlock(bs, block);
      LiveAt(HEADER, HEAP_START, bs, i);
      NextIs(HEADER, HEAP_START, headers, bs, i, i);
      LiveBytesAtLeast(HEADER, bs, i);
      if !headers[block].free && memoryUsed >= headers[block].size {
        memoryUsed := memoryUsed - headers[block].size;
      }
      FreeLinks(HEADER, HEAP_START, headers, bs, i);
      headers := headers[block := headers[block].(free := true)];
      MergeNext(bs[i := Block(bs[i].size, true)], i, block);
      MergePrevious(FreedWithNext(HEADER, bs, i), i, block);
      blocks := AfterFree(bs, block);
    }

    /** Merge a block with a free successor. */
    method MergeNext(ghost bs: seq<Block>, ghost i: nat, block: nat)
      requires Linked(HEADER, HEAP_START, headers, bs) && i < |bs| && block == Addr(HEADER, HEAP_START, bs, i)
      modifies this`headers
      ensures var merged := if i + 1 < |bs| && bs[i + 1].free then Merged(HEADER, bs, i) else bs;
              && Linked(HEADER, HEAP_START, headers, merged)
              && i < |merged| && block == Addr(HEADER, HEAP_START, merged, i)
    {
      NextIs(HEADER, HEAP_START, headers, bs, i, i);
      var next := headers[block].next;
      if next != 0 {
        NextIs(HEADER, HEAP_START, headers, bs, i + 1, i + 1);
        AddrStep(HEADER, HEAP_START, bs, i);
        if headers[next].free {
          MergeLinks(HEADER, HEAP_START, headers, bs, i);
          ghost var before := headers;
          headers := headers[block := headers[block].(size := headers[block].size + HEADER + headers[next].size)];
          headers := headers[block := headers[block].(next := headers[next].next)];
          ghost var size := before[block].size + HEADER + before[next].size;
          assert headers == before[block := Header(size, before[block].free, before[next].next)];
        }
      }
    }

    /** Search for the predecessor from the start of the heap and merge with it if it is free. */
    method MergePrevious(ghost bs: seq<Block>, ghost i: nat, block: nat)
      requires heapStart == HEAP_START && bs != []
      requires Linked(HEADER, HEAP_START, headers, bs) && i < |bs| && block == Addr(HEADER, HEAP_START, bs, i)
      modifies this`headers
      ensures Linked(HEADER, HEAP_START, headers, if i > 0 && bs[i - 1].free then Merged(HEADER, bs, i - 1) else bs)
    {
      var current := heapStart;
      ghost var j := 0;
      assert bs[..0] == [];
      NextIs(HEADER, HEAP_START, headers, bs, 0, i);
      while current != 0 && headers[current].next != block
        invariant headers == old(headers)
        invariant j <= |bs| && current == Pointer(HEADER, HEAP_START, bs, j) && (i == 0 || j < i)
        invariant current != 0 ==> j < |bs| && current in headers
        decreases |bs| - j
      {
        NextIs(HEADER, HEAP_START, headers, bs, j, i);
        current := headers[current].next;
        j := j + 1;
        if j < |bs| { NextIs(HEADER, HEAP_START, headers, bs, j, i); }
      }
      if current != 0 {
        NextIs(HEADER, HEAP_START, headers, bs, j, i);
        NextIs(HEADER, HEAP_START, headers, bs, i, i);
        AddrStep(HEADER, HEAP_START, bs, j);
        if headers[current].free {
          MergeLinks(HEADER, HEAP_START, headers, bs, j);
          var size := headers[current].size + HEADER + headers[block].size;
          headers := headers[current := headers[current].(size := size)];
          headers := headers[current := headers[current].(next := headers[block].next)];
          ghost var h := old(headers);
          assert headers == h[current := Header(size, h[current].free, h[block].next)];
        }
      }
    }
  }

  lemma LiveBytesAtLeast(h: nat, bs: seq<Block>, i: nat)
    requires i < |bs| && !bs[i].free
    ensures LiveBytes(bs) >= bs[i].size
  {
    assert bs == bs[..i] + ([bs[i]] + bs[i + 1..]);
    SpanAppend(h, bs[..i], [bs[i]] + bs[i + 1..]);
    assert ([bs[i]] + bs[i + 1..])[0] == bs[i];
  }
}
