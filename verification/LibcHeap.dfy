/** The C library's heap: first fit, with a `realloc` that copies (lib/libc/libc.c). */
module LibcHeap {
  import opened BlockList
  import opened BlockSizes
  import opened ByteType
  import opened HeapMemory

  const LEAST: nat := 8 // smallest payload worth splitting off

  /** `(size + 7) & ~7` in 64 bits */
  function Aligned(size: nat): nat {
    (size + 7) % WORD / 8 * 8
  }

  predicate Fits(b: Block, size: nat) { b.free && b.size >= size }

  /** First block from `i` on that fits, -1 if none does. */
  function FirstFrom(bs: seq<Block>, size: nat, i: nat): (first: int)
    requires i <= |bs|
    ensures first == -1 || (i <= first < |bs| && Fits(bs[first], size))
    decreases |bs| - i
  {
    if i == |bs| then -1 else if Fits(bs[i], size) then i else FirstFrom(bs, size, i + 1)
  }

  lemma {:induction false} FirstIsFirst(bs: seq<Block>, size: nat, i: nat)
    requires i <= |bs|
    ensures var first := FirstFrom(bs, size, i);
            if first == -1 then forall j :: i <= j < |bs| ==> !Fits(bs[j], size)
            else Fits(bs[first], size) && forall j :: i <= j < first ==> !Fits(bs[j], size)
    decreases |bs| - i
  {
    if i < |bs| { FirstIsFirst(bs, size, i + 1); }
  }

  const INITIAL: seq<Block> := [Block(HEAP_SIZE - HEADER, true)]

  /** The heap is set up by the first `malloc` of a size other than 0. */
  function Started(bs: seq<Block>): seq<Block> {
    if bs == [] then INITIAL else bs
  }

  function AfterMalloc(bs: seq<Block>, size: nat): seq<Block> {
    if size == 0 then bs
    else
      var first := FirstFrom(Started(bs), Aligned(size), 0);
      if first == -1 then Started(bs) else Taken(HEADER, LEAST, Started(bs), first, Aligned(size))
  }

  function MallocPointer(base: nat, bs: seq<Block>, size: nat): nat {
    if size == 0 then 0
    else
      var first := FirstFrom(Started(bs), Aligned(size), 0);
      if first == -1 then 0 else Addr(HEADER, base, Started(bs), first) + HEADER
  }

  /** Blocks after `free`; an address that is not live is not freed. */
  ghost function AfterFree(base: nat, bs: seq<Block>, a: nat): (bs': seq<Block>)
    ensures WellFormed(bs) ==> WellFormed(bs')
  {
    if a in Live(HEADER, base, bs) then
      var i := IndexOf(HEADER, base, bs, a);
      ReleasedTiles(base, bs, i);
      Released(HEADER, bs, i)
    else bs
  }

  lemma ReleasedTiles(base: nat, bs: seq<Block>, i: nat)
    requires i < |bs| && !bs[i].free
    ensures WellFormed(bs) ==> WellFormed(Released(HEADER, bs, i))
  {
    if WellFormed(bs) {
      ReleasedIsSound(HEADER, base, bs, i);
      ReleasedIsTight(HEADER, bs, i);
    }
  }

  lemma StartedIsTiling(base: nat, bs: seq<Block>)
    requires WellFormed(bs)
    ensures Tiling(HEADER, HEAP_SIZE, Started(bs)) && Live(HEADER, base, Started(bs)) == Live(HEADER, base, bs)
  {
    OneBlock(HEADER, base, INITIAL[0]);
  }

  /** `malloc` returns null only for size 0 or if no block fits; otherwise it adds one live block, at an address not in
  use, and leaves every other live block alone. The block is large enough exactly if rounding the size does not wrap. */
  lemma MallocAddsBlock(base: nat, bs: seq<Block>, size: nat)
    requires WellFormed(bs) && size < WORD
    ensures WellFormed(AfterMalloc(bs, size))
    ensures MallocPointer(base, bs, size) == 0 ==>
              && Live(HEADER, base, AfterMalloc(bs, size)) == Live(HEADER, base, bs)
              && (size == 0 || forall i :: 0 <= i < |Started(bs)| ==> !Fits(Started(bs)[i], Aligned(size)))
    ensures MallocPointer(base, bs, size) != 0 ==>
              && size > 0
              && Grown(Live(HEADER, base, bs), Live(HEADER, base, AfterMalloc(bs, size)),
                       MallocPointer(base, bs, size), size)
  {
    if size > 0 {
      var first, s := FirstFrom(Started(bs), Aligned(size), 0), Started(bs);
      StartedIsTiling(base, bs);
      FirstIsFirst(s, Aligned(size), 0);
      if first != -1 {
        TakenIsSound(HEADER, LEAST, base, s, first, Aligned(size));
        TakenIsTight(HEADER, LEAST, s, first, Aligned(size));
        var bs' := AfterMalloc(bs, size);
        SizeBound(HEADER, base, bs', first);
        AlignedCovers(size);
      }
    }
  }

  /** A `malloc` that fails on a heap in use leaves the blocks alone. */
  lemma MallocFails(base: nat, bs: seq<Block>, size: nat)
    requires bs != [] && base > 0 && MallocPointer(base, bs, size) == 0
    ensures AfterMalloc(bs, size) == bs
  {
  }

  lemma AlignedCovers(size: nat)
    requires size < WORD
    ensures Aligned(size) >= size <==> size <= WORD - 8
    ensures size <= WORD - 8 ==> Aligned(size) == (size + 7) / 8 * 8 && size <= Aligned(size) < size + 8
    ensures size > WORD - 8 ==> Aligned(size) == 0
  {
  }

  /** Which block `malloc` takes: the first free one that holds the size rounded up to a multiple of 8. It returns null
  exactly for size 0 or if no free block holds it. */
  lemma MallocTakesFirst(base: nat, bs: seq<Block>, size: nat)
    requires base > 0 && size <= 0xFFFF_FFFF_FFFF_FFF8
    ensures MallocPointer(base, bs, size) == 0 <==>
              size == 0 || forall j :: 0 <= j < |Started(bs)| && Started(bs)[j].free ==>
                             Started(bs)[j].size < (size + 7) / 8 * 8
    ensures forall i :: 0 <= i < |Started(bs)| ==>
              (MallocPointer(base, bs, size) == Addr(24, base, Started(bs), i) + 24 <==>
                && size != 0 && Started(bs)[i].free && Started(bs)[i].size >= (size + 7) / 8 * 8
                && forall j :: 0 <= j < i && Started(bs)[j].free ==> Started(bs)[j].size < (size + 7) / 8 * 8)
  {
    AlignedCovers(size);
    var s := Started(bs);
    FirstIsFirst(s, Aligned(size), 0);
    var first := FirstFrom(s, Aligned(size), 0);
    forall i | 0 <= i < |s| && MallocPointer(base, bs, size) == Addr(24, base, s, i) + 24 ensures i == first {
      SameAddress(24, base, s, i, first);
    }
  }

  /** What `malloc` uses up: the block is less than 39 bytes larger than asked for, and apart from its payload at most
  the 24 bytes of one new header are lost to the free bytes. */
  lemma MallocIsTight(base: nat, bs: seq<Block>, size: nat)
    requires WellFormed(bs) && base > 0 && size <= 0xFFFF_FFFF_FFFF_FFF8 && MallocPointer(base, bs, size) != 0
    ensures var a := MallocPointer(base, bs, size) - 24;
            var live' := Live(HEADER, base, AfterMalloc(bs, size));
            && a in live' && size <= live'[a] < size + 39
            && FreeBytes(Started(bs)) - 24 <= FreeBytes(AfterMalloc(bs, size)) + live'[a] <= FreeBytes(Started(bs))
  {
    AlignedCovers(size);
    var s := Started(bs);
    FirstIsFirst(s, Aligned(size), 0);
    var first := FirstFrom(s, Aligned(size), 0);
    TakenBytes(HEADER, LEAST, s, first, Aligned(size));
    TakenIsSound(HEADER, LEAST, base, s, first, Aligned(size));
  }

  lemma TakenAt(base: nat, bs: seq<Block>, size: nat, i: nat)
    requires base > 0 && size <= 0xFFFF_FFFF_FFFF_FFF8 && i < |Started(bs)|
    requires MallocPointer(base, bs, size) == Addr(24, base, Started(bs), i) + 24
    ensures var s, n := Started(bs), (size + 7) / 8 * 8;
            s[i].free && n <= s[i].size && AfterMalloc(bs, size) == Taken(HEADER, LEAST, s, i, n) != []
  {
    AlignedCovers(size);
    FirstIsFirst(Started(bs), Aligned(size), 0);
    SameAddress(24, base, Started(bs), i, FirstFrom(Started(bs), Aligned(size), 0));
  }

  /** Exactly when a block is split: if its rest holds a header of 24 bytes and 8 bytes more. */
  lemma SplitExactly(base: nat, bs: seq<Block>, size: nat, i: nat)
    requires base > 0 && size <= 0xFFFF_FFFF_FFFF_FFF8 && i < |Started(bs)|
    requires MallocPointer(base, bs, size) == Addr(24, base, Started(bs), i) + 24
    ensures var n, room := (size + 7) / 8 * 8, Started(bs)[i].size;
            var live' := Live(24, base, AfterMalloc(bs, size));
            && MallocPointer(base, bs, size) - 24 in live'
            && live'[MallocPointer(base, bs, size) - 24] == if room >= n + 32 then n else room
  {
    TakenAt(base, bs, size, i);
    TakenIsSound(HEADER, LEAST, base, Started(bs), i, (size + 7) / 8 * 8);
  }

  /** When a second request succeeds: another free block holds it, or what is left of the block that the first one took,
  behind a header of 24 bytes and with at least 8 bytes. */
  lemma SecondRequest(base: nat, bs: seq<Block>, size: nat, again: nat, i: nat)
    requires base > 0 && size <= 0xFFFF_FFFF_FFFF_FFF8 && 0 < again <= 0xFFFF_FFFF_FFFF_FFF8
    requires i < |Started(bs)| && MallocPointer(base, bs, size) == Addr(24, base, Started(bs), i) + 24
    ensures var n, m, s := (size + 7) / 8 * 8, (again + 7) / 8 * 8, Started(bs);
            MallocPointer(base, AfterMalloc(bs, size), again) != 0 <==>
              s[i].size >= n + 24 + m || exists j :: 0 <= j < |s| && j != i && s[j].free && s[j].size >= m
  {
    var s, n := Started(bs), (size + 7) / 8 * 8;
    TakenAt(base, bs, size, i);
    MallocTakesFirst(base, AfterMalloc(bs, size), again);
    TakenLeaves(HEADER, LEAST, s, i, n, (again + 7) / 8 * 8);
  }

  /** Before anything has been allocated, two requests succeed exactly if both, rounded up, and one more header fit. */
  lemma FreshHeapServesTwo(base: nat, size: nat, again: nat)
    requires base > 0 && 0 < size <= 0xFFFF_FFFF_FFFF_FFF8 && 0 < again <= 0xFFFF_FFFF_FFFF_FFF8
    ensures MallocPointer(base, [], size) != 0 && MallocPointer(base, AfterMalloc([], size), again) != 0 <==>
              (size + 7) / 8 * 8 + 24 + (again + 7) / 8 * 8 <= 0x100_0000 - 24
  {
    MallocTakesFirst(base, [], size);
    assert Started([])[0] == Block(0x100_0000 - 24, true);
    if MallocPointer(base, [], size) != 0 { SecondRequest(base, [], size, again, 0); }
  }

  lemma FreeRemovesBlock(base: nat, bs: seq<Block>, a: nat)
    requires WellFormed(bs) && a in Live(HEADER, base, bs)
    ensures WellFormed(AfterFree(base, bs, a))
    ensures Live(HEADER, base, AfterFree(base, bs, a)) == Live(HEADER, base, bs) - {a}
  {
    ReleasedIsSound(HEADER, base, bs, IndexOf(HEADER, base, bs, a));
  }

  /** The old block is still live between the two halves of a move. */
  lemma OldStaysLive(live: map<nat, nat>, live': map<nat, nat>, p: nat, size: nat, a: nat)
    requires Grown(live, live', p, size) && a in live
    ensures a in live' && live'[a] == live[a] && p != a + HEADER
  {
  }

  lemma FreeFacts(base: nat, bs: seq<Block>, a: nat) returns (i: nat, after: seq<Block>, live: map<nat, nat>)
    requires WellFormed(bs) && a in Live(HEADER, base, bs)
    ensures bs != [] && i < |bs| && !bs[i].free && a == Addr(HEADER, base, bs, i)
    ensures after == AfterFree(base, bs, a) == Released(HEADER, bs, i)
    ensures WellFormed(after) && after != []
    ensures live == Live(HEADER, base, after) == Live(HEADER, base, bs) - {a}
  {
    i, after := IndexOf(HEADER, base, bs, a), AfterFree(base, bs, a);
    live := Live(HEADER, base, after);
    FreeRemovesBlock(base, bs, a);
  }

  // ---- Runs

  datatype Op = Malloc(size: nat) | Free(p: nat) | Realloc(p: nat, size: nat)

  /** Pointers handed to `free` and `realloc` must be null or live. */
  ghost predicate LivePointer(base: nat, bs: seq<Block>, p: nat) {
    p == 0 || (p >= HEADER && p - HEADER in Live(HEADER, base, bs))
  }

  /** Blocks after `realloc(p, size)`. */
  ghost function AfterRealloc(base: nat, bs: seq<Block>, p: nat, size: nat): seq<Block>
    requires LivePointer(base, bs, p)
  {
    if p == 0 then AfterMalloc(bs, size)
    else if size == 0 then AfterFree(base, bs, p - HEADER)
    else if Live(HEADER, base, bs)[p - HEADER] >= size || MallocPointer(base, bs, size) == 0 then bs
    else AfterFree(base, AfterMalloc(bs, size), p - HEADER)
  }

  ghost predicate Allowed(base: nat, bs: seq<Block>, op: Op) {
    match op
    case Malloc(size) => size < WORD
    case Free(p) => LivePointer(base, bs, p)
    case Realloc(p, size) => size < WORD && LivePointer(base, bs, p)
  }

  ghost function Step(base: nat, bs: seq<Block>, op: Op): seq<Block>
    requires Allowed(base, bs, op)
  {
    match op
    case Malloc(size) => AfterMalloc(bs, size)
    case Free(p) => if p == 0 then bs else AfterFree(base, bs, p - HEADER)
    case Realloc(p, size) => AfterRealloc(base, bs, p, size)
  }

  /** Why `realloc` is modelled for sizes up to 2^64 - 8: a larger size rounds to 0, so a block of 16 bytes would be
  copied into one of none. */
  lemma WrappedSizeGetsNoRoom(base: nat, size: nat)
    requires base > 0 && WORD - 8 < size < WORD
    ensures var bs := AfterMalloc([], 16);
            var q := MallocPointer(base, bs, size);
            && q >= HEADER && Live(HEADER, base, bs) == map[base := 16]
            && Live(HEADER, base, AfterMalloc(bs, size)) == map[base := 16, q - HEADER := 0]
  {
    var rest := Block(HEAP_SIZE - HEADER - 16 - HEADER, true);
    var bs := [Block(16, false), rest];
    assert AfterMalloc([], 16) == bs;
    TwoBlocks(HEADER, base, bs[0], bs[1]);
    assert FirstFrom(bs, 0, 0) == 1;
    TakenIsSound(HEADER, LEAST, base, bs, 1, 0);
  }

  lemma ReallocKeepsTiling(base: nat, bs: seq<Block>, p: nat, size: nat)
    requires WellFormed(bs) && size < WORD && LivePointer(base, bs, p)
    ensures WellFormed(AfterRealloc(base, bs, p, size))
  {
    MallocAddsBlock(base, bs, size);
  }

  lemma StepKeepsTiling(base: nat, bs: seq<Block>, op: Op)
    requires WellFormed(bs) && Allowed(base, bs, op)
    ensures WellFormed(Step(base, bs, op))
  {
    match op
    case Malloc(size) => MallocAddsBlock(base, bs, size);
    case Free(p) =>
    case Realloc(p, size) => ReallocKeepsTiling(base, bs, p, size);
  }

  /** Blocks after a run that skips the calls that are not allowed. */
  ghost function Run(base: nat, ops: seq<Op>): (bs: seq<Block>)
    ensures WellFormed(bs)
    decreases |ops|
  {
    if ops == [] then []
    else
      var bs, op := Run(base, ops[..|ops| - 1]), ops[|ops| - 1];
      if Allowed(base, bs, op) then StepKeepsTiling(base, bs, op); Step(base, bs, op) else bs
  }

  /** Over every run of the three operations freeing everything restores the single initial block. */
  lemma {:induction false} RunRestores(base: nat, ops: seq<Op>)
    requires Run(base, ops) != [] && Live(HEADER, base, Run(base, ops)) == map[]
    ensures Run(base, ops) == INITIAL
  {
    NothingLive(HEADER, base, Run(base, ops));
    AllFreeIsOneBlock(HEADER, Run(base, ops));
  }

  class Heap {
    const mem: array<Byte>
    const base: nat
    var heapStart: nat
    ghost var blocks: seq<Block>

    ghost predicate Valid()
      reads this, mem
    {
      && Fixed()
      && WellFormed(blocks)
      && heapStart == (if blocks == [] then 0 else base)
      && (blocks != [] ==> InMemory(mem[..], base, blocks))
    }

    /** The region the kernel hands out lies below the top of the address space. */
    ghost predicate Fixed() {
      mem.Length == HEAP_SIZE && 0 < base <= WORD - HEAP_SIZE
    }

    /** Before the first `malloc`: `region` is what the kernel's allocator will hand out, with any contents. */
    constructor (region: array<Byte>, base: nat)
      requires region.Length == HEAP_SIZE && 0 < base <= WORD - HEAP_SIZE
      ensures Valid() && mem == region && this.base == base && blocks == []
    {
      mem, this.base, heapStart, blocks := region, base, 0, [];
    }

    // ---- Fields of a header

    method SetSize(a: nat, size: nat)
      requires HasHeader(mem[..], base, a) && size < WORD
      modifies mem
      ensures HeaderSet(old(mem[..]), mem[..], base, a, HeaderAt(old(mem[..]), base, a).(size := size))
    {
      SizeSet(mem[..], base, a, size);
      Store(a - base, 8, size);
    }

    method SetFree(a: nat, free: bool)
      requires HasHeader(mem[..], base, a)
      modifies mem
      ensures HeaderSet(old(mem[..]), mem[..], base, a, HeaderAt(old(mem[..]), base, a).(free := free))
    {
      FreeSet(mem[..], base, a, free);
      Store(a - base + 8, 4, if free then 1 else 0);
    }

    method SetNext(a: nat, next: nat)
      requires HasHeader(mem[..], base, a) && next < WORD
      modifies mem
      ensures HeaderSet(old(mem[..]), mem[..], base, a, HeaderAt(old(mem[..]), base, a).(next := next))
    {
      NextSet(mem[..], base, a, next);
      Store(a - base + 16, 8, next);
    }

    method Store(i: nat, n: nat, v: nat)
      requires i + n <= mem.Length
      modifies mem
      ensures mem[..] == Stored(old(mem[..]), i, n, v)
    {
      var bytes := Digits(v, n);
      forall k | 0 <= k < n { mem[i + k] := bytes[k]; }
      assert mem[i..i + n] == bytes;
      assert mem[..i] == old(mem[..i]) && mem[i + n..] == old(mem[i + n..]);
      assert mem[..] == mem[..i] + mem[i..i + n] + mem[i + n..];
    }

    // ---- malloc

    /** Set up the heap as one free block. */
    method Initialise()
      requires Fixed()
      modifies `heapStart, mem
      ensures heapStart == base && InMemory(mem[..], base, INITIAL)
    {
      heapStart := base;
      SetSize(base, HEAP_SIZE - HEADER);
      SetFree(base, true);
      SetNext(base, 0);
      InitialInMemory(mem[..], base);
    }

    /** The search loop of `malloc`: address of the first block that fits, null if none does. */
    method FindFirst(ghost bs: seq<Block>, size: nat) returns (current: nat)
      requires Fixed() && heapStart == base && InMemory(mem[..], base, bs)
      ensures var first := FirstFrom(bs, size, 0);
              if first == -1 then current == 0
              else current == Addr(HEADER, base, bs, first) > 0 && HasHeader(mem[..], base, current)
    {
      current := heapStart;
      ghost var i := 0;
      assert bs[..0] == [];
      while current != 0
        invariant i <= |bs| && current == Pointer(HEADER, base, bs, i)
        invariant FirstFrom(bs, size, 0) == FirstFrom(bs, size, i)
        invariant current == 0 ==> i == |bs|
        decreases |bs| - i
      {
        LinkAt(mem[..], base, bs, i, i);
        var block := HeaderAt(mem[..], base, current);
        if block.free && block.size >= size { return; }
        current := block.next;
        i := i + 1;
      }
    }

    /** Split the block if the rest is large enough, and mark it used. */
    method Split(ghost bs: seq<Block>, ghost i: nat, current: nat, size: nat)
      requires Fixed() && InMemory(mem[..], base, bs) && i < |bs| && bs[i].free && size <= bs[i].size
      requires current == Addr(HEADER, base, bs, i)
      modifies mem
      ensures InMemory(mem[..], base, Taken(HEADER, LEAST, bs, i, size))
      ensures SameOutside(old(mem[..]), mem[..], base, current, current + HEADER + bs[i].size)
    {
      LinkAt(mem[..], base, bs, i, i);
      BlockInRegion(mem[..], base, bs, i);
      NextInWord(mem[..], base, bs, i);
      ghost var m := mem[..];
      var block := HeaderAt(mem[..], base, current);
      if block.size >= size + HEADER + LEAST {
        var newBlock := current + HEADER + size;
        WriteFree(newBlock, block.size - size - HEADER, block.next);
        ghost var m1 := mem[..];
        HeaderKept(m, m1, base, current, newBlock, newBlock + HEADER);
        SetNext(current, newBlock);
        SetSize(current, size);
        SetFree(current, false);
        HeaderKept(m1, mem[..], base, newBlock, current, current + HEADER);
      } else {
        SetFree(current, false);
      }
      TakenInMemory(m, mem[..], base, bs, i, size, LEAST);
    }

    /** The header of a block that has been split off. */
    method WriteFree(a: nat, size: nat, next: nat)
      requires HasHeader(mem[..], base, a) && size < WORD && next < WORD
      modifies mem
      ensures HeaderSet(old(mem[..]), mem[..], base, a, Header(size, true, next))
    {
      SetSize(a, size);
      SetFree(a, true);
      SetNext(a, next);
    }

    method Malloc(size: nat) returns (p: nat)
      requires Valid() && size < WORD
      modifies this, mem
      ensures Valid() && p == MallocPointer(base, old(blocks), size) && blocks == AfterMalloc(old(blocks), size)
      ensures Preserved(old(mem[..]), mem[..], base, Live(HEADER, base, old(blocks)))
      ensures p == 0 && old(blocks) != [] ==> mem[..] == old(mem[..])
    {
      if size == 0 { return 0; }
      var rounded := (size + 7) % WORD / 8 * 8;
      if heapStart == 0 {
        Initialise();
      }
      ghost var bs, m := Started(blocks), mem[..];
      StartedIsTiling(base, blocks);
      MallocAddsBlock(base, blocks, size);
      FirstIsFirst(bs, rounded, 0);
      p := FindFirst(bs, rounded);
      if p != 0 {
        ghost var i: nat := FirstFrom(bs, rounded, 0);
        Split(bs, i, p, rounded);
        TakePreserves(m, mem[..], base, bs, i);
        p := p + HEADER;
      }
      blocks := AfterMalloc(blocks, size);
    }

    // ---- free

    /** `free` of a live pointer, or of null. */
    method Free(p: nat)
      requires Valid() && LivePointer(base, blocks, p)
      modifies `blocks, mem
      ensures Valid() && blocks == if p == 0 then old(blocks) else AfterFree(base, old(blocks), p - HEADER)
      ensures p == 0 ==> mem[..] == old(mem[..])
      ensures p != 0 ==> Preserved(old(mem[..]), mem[..], base, Live(HEADER, base, old(blocks)) - {p - HEADER})
    {
      if p == 0 { return; }
      var block := p - HEADER;
      ghost var i, after, live := FreeFacts(base, blocks, block);
      Release(blocks, i, block);
      blocks := after;
    }

    /** Mark a block free and merge it with its free neighbours. */
    method Release(ghost bs: seq<Block>, ghost i: nat, block: nat)
      requires Fixed() && heapStart == base && InMemory(mem[..], base, bs)
      requires i < |bs| && !bs[i].free && block == Addr(HEADER, base, bs, i)
      modifies mem
      ensures InMemory(mem[..], base, Released(HEADER, bs, i))
      ensures Preserved(old(mem[..]), mem[..], base, Live(HEADER, base, bs) - {block})
    {
      ghost var m := mem[..];
      LinkAt(m, base, bs, i, i);
      SetFree(block, true);
      ghost var m1 := mem[..];
      FreedInMemory(m, m1, base, bs, i);
      HeaderWritePreserves(m, m1, base, bs, i);
      MergeNext(bs[i := Block(bs[i].size, true)], i, block);
      ghost var m2 := mem[..];
      MergePrevious(FreedWithNext(HEADER, bs, i), i, block);
      StagesPreserve(m, m1, m2, mem[..], base, bs, i);
    }

    /** `block->size += sizeof(heap_block_t) + next->size; block->next = next->next` */
    method Absorb(ghost bs: seq<Block>, ghost j: nat, block: nat, next: nat)
      requires Fixed() && InMemory(mem[..], base, bs) && j + 1 < |bs|
      requires block == Addr(HEADER, base, bs, j) && next == Addr(HEADER, base, bs, j + 1)
      modifies mem
      ensures InMemory(mem[..], base, Merged(HEADER, bs, j)) && Addr(HEADER, base, Merged(HEADER, bs, j), j) == block
      ensures Preserved(old(mem[..]), mem[..], base, Live(HEADER, base, bs))
    {
      ghost var m := mem[..];
      LinkAt(m, base, bs, j, j);
      LinkAt(m, base, bs, j + 1, j);
      BlockInRegion(m, base, bs, j + 1);
      NextInWord(m, base, bs, j + 1);
      AddrStep(HEADER, base, bs, j);
      SetSize(block, HeaderAt(mem[..], base, block).size + HEADER + HeaderAt(mem[..], base, next).size);
      HeaderKept(m, mem[..], base, next, block, block + HEADER);
      SetNext(block, HeaderAt(mem[..], base, next).next);
      MergedInMemory(m, mem[..], base, bs, j);
      HeaderWritePreserves(m, mem[..], base, bs, j);
    }

    /** Merge a block with a free successor. */
    method MergeNext(ghost bs: seq<Block>, ghost i: nat, block: nat)
      requires Fixed() && InMemory(mem[..], base, bs) && i < |bs| && block == Addr(HEADER, base, bs, i)
      modifies mem
      ensures var merged := if i + 1 < |bs| && bs[i + 1].free then Merged(HEADER, bs, i) else bs;
              InMemory(mem[..], base, merged) && i < |merged| && block == Addr(HEADER, base, merged, i)
      ensures Preserved(old(mem[..]), mem[..], base, Live(HEADER, base, bs))
    {
      LinkAt(mem[..], base, bs, i, i);
      var next := HeaderAt(mem[..], base, block).next;
      if next != 0 {
        LinkAt(mem[..], base, bs, i + 1, i + 1);
        if HeaderAt(mem[..], base, next).free { Absorb(bs, i, block, next); }
      }
    }

    /** Search for the predecessor from the start of the heap and merge with it if it is free. */
    method MergePrevious(ghost bs: seq<Block>, ghost i: nat, block: nat)
      requires Fixed() && heapStart == base && InMemory(mem[..], base, bs)
      requires i < |bs| && block == Addr(HEADER, base, bs, i)
      modifies mem
      ensures InMemory(mem[..], base, if i > 0 && bs[i - 1].free then Merged(HEADER, bs, i - 1) else bs)
      ensures Preserved(old(mem[..]), mem[..], base, Live(HEADER, base, bs))
    {
      var current := FindPrevious(bs, i, block);
      if current != 0 {
        LinkAt(mem[..], base, bs, i - 1, i);
        if HeaderAt(mem[..], base, current).free { Absorb(bs, i - 1, current, block); }
      }
    }

    /** Address of the block before block `i`, null if that is the first. */
    method FindPrevious(ghost bs: seq<Block>, ghost i: nat, block: nat) returns (current: nat)
      requires Fixed() && heapStart == base && InMemory(mem[..], base, bs)
      requires i < |bs| && block == Addr(HEADER, base, bs, i)
      ensures current == if i == 0 then 0 else Addr(HEADER, base, bs, i - 1)
    {
      current := heapStart;
      ghost var j := 0;
      assert bs[..0] == [];
      LinkAt(mem[..], base, bs, 0, i);
      while current != 0 && HeaderAt(mem[..], base, current).next != block
        invariant j <= |bs| && current == Pointer(HEADER, base, bs, j) && (i == 0 || j < i)
        invariant current != 0 ==> j < |bs| && HasHeader(mem[..], base, current)
        decreases |bs| - j
      {
        LinkAt(mem[..], base, bs, j, i);
        current := HeaderAt(mem[..], base, current).next;
        j := j + 1;
        if j < |bs| { LinkAt(mem[..], base, bs, j, i); }
      }
      if current != 0 { LinkAt(mem[..], base, bs, j, i); }
    }

    // ---- realloc

    /** `memcpy` between two disjoint ranges: eight bytes at a time if both are aligned, then byte by byte. */
    method Memcpy(dest: nat, src: nat, n: nat)
      requires base <= dest && dest + n <= base + mem.Length && base <= src && src + n <= base + mem.Length
      requires dest + n <= src || src + n <= dest
      modifies mem
      ensures CopiedTo(old(mem[..]), mem[..], base, src, dest, n)
      ensures SameOutside(old(mem[..]), mem[..], base, dest, dest + n)
    {
      ghost var m := mem[..];
      var done := 0;
      if dest % 8 == 0 && src % 8 == 0 { done := CopyWords(dest - base, src - base, n); }
      var d, s, left := dest - base + done, src - base + done, n - done;
      while left > 0
        invariant 0 <= left <= n && d == dest - base + (n - left) && s == d + (src - dest)
        invariant Moved(m, mem[..], dest - base, d, src - dest)
      {
        mem[d] := mem[s];
        d, s, left := d + 1, s + 1, left - 1;
      }
      MovedIsCopied(m, mem[..], base, src, dest, n);
    }

    /** Its first loop; the number of bytes copied is returned. */
    method CopyWords(dest: nat, src: nat, n: nat) returns (done: nat)
      requires dest + n <= mem.Length && src + n <= mem.Length && (dest + n <= src || src + n <= dest)
      modifies mem
      ensures done <= n && Moved(old(mem[..]), mem[..], dest, dest + done, src - dest)
    {
      var d, s, left := dest, src, n;
      while left >= 8
        invariant 0 <= left <= n && d == dest + (n - left) && s == d + (src - dest)
        invariant Moved(old(mem[..]), mem[..], dest, d, src - dest)
      {
        forall k | 0 <= k < 8 { mem[d + k] := mem[s + k]; }
        d, s, left := d + 8, s + 8, left - 8;
      }
      done := n - left;
    }

    /** `realloc` of a live pointer, or of null. The contents up to the smaller of the two sizes survive, and so does
    every other live block; a failure changes nothing. */
    method Realloc(p: nat, size: nat) returns (q: nat)
      requires Valid() && LivePointer(base, blocks, p) && size <= WORD - 8
      modifies this, mem
      ensures Valid() && blocks == AfterRealloc(base, old(blocks), p, size)
      ensures p == 0 ==> q == MallocPointer(base, old(blocks), size)
      ensures p != 0 ==>
                var room := Live(HEADER, base, old(blocks))[p - HEADER];
                && q == (if size == 0 then 0 else if room >= size then p else MallocPointer(base, old(blocks), size))
                && (size != 0 ==> Resized(old(mem[..]), mem[..], base, Live(HEADER, base, old(blocks)), p, q, size))
      ensures p == 0 ==> Preserved(old(mem[..]), mem[..], base, Live(HEADER, base, old(blocks)))
      ensures p != 0 ==> Preserved(old(mem[..]), mem[..], base, Live(HEADER, base, old(blocks)) - {p - HEADER})
    {
      if p == 0 {
        q := Malloc(size);
      } else if size == 0 {
        Free(p);
        q := 0;
      } else {
        q := Resize(p, size);
      }
    }

    /** `realloc` of a live pointer to a size other than 0. */
    method Resize(p: nat, size: nat) returns (q: nat)
      requires Valid() && p >= HEADER && p - HEADER in Live(HEADER, base, blocks) && 0 < size <= WORD - 8
      modifies this, mem
      ensures Valid() && blocks == AfterRealloc(base, old(blocks), p, size)
      ensures var room := Live(HEADER, base, old(blocks))[p - HEADER];
              q == if room >= size then p else MallocPointer(base, old(blocks), size)
      ensures Resized(old(mem[..]), mem[..], base, Live(HEADER, base, old(blocks)), p, q, size)
    {
      LivePayload(mem[..], base, blocks, p);
      var room := HeaderAt(mem[..], base, p - HEADER).size;
      q := p;
      ResizedInPlace(mem[..], base, Live(HEADER, base, blocks), p, size);
      if room < size {
        ghost var bs, m := blocks, mem[..];
        MallocAddsBlock(base, bs, size);
        q := Malloc(size);
        if q == 0 {
          MallocFails(base, bs, size);
        } else {
          Move(p, q, room, size, Live(HEADER, base, bs), m);
        }
      }
    }

    /** The second half of `realloc`: copy the old block to the new one and free it. */
    method Move(p: nat, q: nat, room: nat, ghost size: nat, ghost live: map<nat, nat>, ghost m: seq<Byte>)
      requires Valid() && room < size <= WORD - 8 && p >= HEADER && p - HEADER in live && live[p - HEADER] == room
      requires Grown(live, Live(HEADER, base, blocks), q, size) && Preserved(m, mem[..], base, live)
      modifies `blocks, mem
      ensures Valid() && blocks == AfterFree(base, old(blocks), p - HEADER)
      ensures Resized(m, mem[..], base, live, p, q, size)
    {
      ghost var live1 := Live(HEADER, base, blocks);
      ghost var m1 := mem[..];
      OldStaysLive(live, live1, q, size, p - HEADER);
      MoveRanges(m1, base, blocks, p, q);
      Memcpy(q, p, room);
      ghost var m2 := mem[..];
      PayloadWritten(m1, m2, base, blocks, q, room);
      Free(p);
      MoveCopies(m, m1, m2, mem[..], base, live, live1, p, q, size);
    }
  }

  /** The bytes from `lo` up to `hi` have been copied from `shift` places further on, and no other byte has changed. */
  ghost predicate Moved(m: seq<Byte>, m': seq<Byte>, lo: int, hi: int, shift: int) {
    && |m'| == |m| && 0 <= lo <= hi <= |m| && 0 <= lo + shift && hi + shift <= |m|
    && (forall y | lo <= y < hi :: m'[y] == m[y + shift])
    && (forall y | 0 <= y < |m| && (y < lo || hi <= y) :: m'[y] == m[y])
  }

  lemma MovedIsCopied(m: seq<Byte>, m': seq<Byte>, base: nat, src: nat, dest: nat, n: nat)
    requires base <= dest && base <= src && Moved(m, m', dest - base, dest - base + n, src - dest)
    ensures CopiedTo(m, m', base, src, dest, n) && SameOutside(m, m', base, dest, dest + n)
  {
  }

  /** A live block is in the region with its header. */
  lemma LivePayload(m: seq<Byte>, base: nat, bs: seq<Block>, p: nat)
    requires base > 0 && InMemory(m, base, bs) && p >= HEADER && p - HEADER in Live(HEADER, base, bs)
    ensures HasHeader(m, base, p - HEADER) && HeaderAt(m, base, p - HEADER).size == Live(HEADER, base, bs)[p - HEADER]
    ensures base <= p && p + Live(HEADER, base, bs)[p - HEADER] <= base + |m|
  {
    var i := IndexOf(HEADER, base, bs, p - HEADER);
    LinkAt(m, base, bs, i, i);
    LiveAt(HEADER, base, bs, i);
    BlockInRegion(m, base, bs, i);
  }

  /** Two live payloads lie in the region and do not overlap. */
  lemma MoveRanges(m: seq<Byte>, base: nat, bs: seq<Block>, p: nat, q: nat)
    requires base > 0 && InMemory(m, base, bs) && p >= HEADER && q >= HEADER && p != q
    requires p - HEADER in Live(HEADER, base, bs) && q - HEADER in Live(HEADER, base, bs)
    ensures var room, room' := Live(HEADER, base, bs)[p - HEADER], Live(HEADER, base, bs)[q - HEADER];
            && base <= p && p + room <= base + |m| && base <= q && q + room' <= base + |m|
            && (p + room <= q || q + room' <= p)
  {
    LivePayload(m, base, bs, p);
    LivePayload(m, base, bs, q);
    if p < q { LiveDisjoint(HEADER, base, bs, p - HEADER, q - HEADER); }
    if q < p { LiveDisjoint(HEADER, base, bs, q - HEADER, p - HEADER); }
  }

  /** Writing to one live payload leaves the list and the other payloads alone. */
  lemma PayloadWritten(m: seq<Byte>, m': seq<Byte>, base: nat, bs: seq<Block>, q: nat, n: nat)
    requires InMemory(m, base, bs) && q >= HEADER && q - HEADER in Live(HEADER, base, bs)
    requires n <= Live(HEADER, base, bs)[q - HEADER] && SameOutside(m, m', base, q, q + n)
    ensures InMemory(m', base, bs) && Preserved(m, m', base, Live(HEADER, base, bs) - {q - HEADER})
  {
    var i := IndexOf(HEADER, base, bs, q - HEADER);
    LiveAt(HEADER, base, bs, i);
    AddrStep(HEADER, base, bs, i);
    PayloadWrite(m, m', base, bs, i);
    OthersPreserved(m, m', base, bs, i, 1, Live(HEADER, base, bs) - {q - HEADER});
  }

  /** The lists between the steps of `free` have the same live blocks. */
  lemma FreeStages(base: nat, bs: seq<Block>, i: nat)
    requires i < |bs| && !bs[i].free
    ensures var live := Live(HEADER, base, bs) - {Addr(HEADER, base, bs, i)};
            && Live(HEADER, base, bs[i := Block(bs[i].size, true)]) == live
            && Live(HEADER, base, FreedWithNext(HEADER, bs, i)) == live
  {
    var b1 := bs[i := Block(bs[i].size, true)];
    FreedIsSound(HEADER, base, bs, i);
    if i + 1 < |b1| && b1[i + 1].free { MergedIsSound(HEADER, base, b1, i); }
  }

  lemma StagesPreserve(m: seq<Byte>, m1: seq<Byte>, m2: seq<Byte>, m3: seq<Byte>, base: nat, bs: seq<Block>, i: nat)
    requires i < |bs| && !bs[i].free && Preserved(m, m1, base, Live(HEADER, base, bs))
    requires Preserved(m1, m2, base, Live(HEADER, base, bs[i := Block(bs[i].size, true)]))
    requires Preserved(m2, m3, base, Live(HEADER, base, FreedWithNext(HEADER, bs, i)))
    ensures Preserved(m, m3, base, Live(HEADER, base, bs) - {Addr(HEADER, base, bs, i)})
  {
    FreeStages(base, bs, i);
    var live := Live(HEADER, base, bs);
    var rest := live - {Addr(HEADER, base, bs, i)};
    PreservedTransitive(m, m1, m2, base, live, rest, rest);
    PreservedTransitive(m, m2, m3, base, rest, rest, rest);
  }

  lemma LinkAt(m: seq<Byte>, base: nat, bs: seq<Block>, j: nat, i: nat)
    requires base > 0 && InMemory(m, base, bs) && j < |bs| && i < |bs|
    ensures var a := Addr(HEADER, base, bs, j);
            && a > 0 && HasHeader(m, base, a)
            && HeaderAt(m, base, a) == Header(bs[j].size, bs[j].free, Pointer(HEADER, base, bs, j + 1))
    ensures Pointer(HEADER, base, bs, j + 1) == Addr(HEADER, base, bs, i) <==> j + 1 == i
    ensures Pointer(HEADER, base, bs, j + 1) == 0 <==> j + 1 == |bs|
  {
    NextIs(HEADER, base, HeadersOf(m, base), bs, j, i);
    BlockInRegion(m, base, bs, j);
  }

  lemma InitialInMemory(m: seq<Byte>, base: nat)
    requires |m| == HEAP_SIZE && HeaderAt(m, base, base) == Header(HEAP_SIZE - HEADER, true, 0)
    ensures InMemory(m, base, INITIAL)
  {
    SingleInMemory(m, base, INITIAL[0]);
  }

  lemma SingleInMemory(m: seq<Byte>, base: nat, b: Block)
    requires |m| == HEADER + b.size && HeaderAt(m, base, base) == Header(b.size, b.free, 0)
    ensures InMemory(m, base, [b])
  {
    OneBlock(HEADER, base, b);
    assert [b][..0] == [];
    assert LinkedAt(HEADER, base, HeadersOf(m, base), [b], 0);
  }

  lemma NextInWord(m: seq<Byte>, base: nat, bs: seq<Block>, i: nat)
    requires InMemory(m, base, bs) && i < |bs| && |m| == HEAP_SIZE && base <= WORD - HEAP_SIZE
    ensures Pointer(HEADER, base, bs, i + 1) < WORD
  {
    if i + 1 < |bs| { BlockInRegion(m, base, bs, i + 1); }
  }

  lemma TakePreserves(m: seq<Byte>, m': seq<Byte>, base: nat, bs: seq<Block>, i: nat)
    requires i < |bs| && bs[i].free
    requires var a := Addr(HEADER, base, bs, i); SameOutside(m, m', base, a, a + HEADER + bs[i].size)
    ensures Preserved(m, m', base, Live(HEADER, base, bs))
  {
    AddrStep(HEADER, base, bs, i);
    LiveAt(HEADER, base, bs, i);
    OthersPreserved(m, m', base, bs, i, 1, Live(HEADER, base, bs));
  }
}
