/** The block list that both heap allocators keep (lib/memory.c, lib/libc/libc.c): blocks lie one after another, each
a header of `h` bytes followed by its payload. An address in this module is that of a header. */
module BlockList {

  datatype Block = Block(size: nat, free: bool)

  /** Bytes that a list covers. */
  function Span(h: nat, bs: seq<Block>): nat {
    if bs == [] then 0 else h + bs[0].size + Span(h, bs[1..])
  }

  /** Address of block `i` of a list that starts at `base`; `i == |bs|` gives the end. */
  function Addr(h: nat, base: nat, bs: seq<Block>, i: nat): nat
    requires i <= |bs|
  {
    base + Span(h, bs[..i])
  }

  /** Sum of the payload sizes of the blocks in use. */
  function LiveBytes(bs: seq<Block>): nat {
    if bs == [] then 0 else (if bs[0].free then 0 else bs[0].size) + LiveBytes(bs[1..])
  }

  /** The blocks in use: their addresses and payload sizes. */
  function Live(h: nat, base: nat, bs: seq<Block>): map<nat, nat>
    decreases |bs|
  {
    if bs == [] then map[]
    else
      var rest := Live(h, base + h + bs[0].size, bs[1..]);
      if bs[0].free then rest else rest[base := bs[0].size]
  }

  ghost predicate NoAdjacentFree(bs: seq<Block>) {
    forall i :: 0 <= i < |bs| - 1 ==> !(bs[i].free && bs[i + 1].free)
  }

  lemma {:induction false} SpanAppend(h: nat, a: seq<Block>, b: seq<Block>)
    ensures Span(h, a + b) == Span(h, a) + Span(h, b)
    ensures LiveBytes(a + b) == LiveBytes(a) + LiveBytes(b)
  {
    if a == [] {
      assert a + b == b;
    } else {
      assert (a + b)[1..] == a[1..] + b;
      SpanAppend(h, a[1..], b);
    }
  }

  lemma {:induction false} LiveInRange(h: nat, base: nat, bs: seq<Block>)
    requires h > 0
    ensures forall a | a in Live(h, base, bs) :: base <= a && a + h + Live(h, base, bs)[a] <= base + Span(h, bs)
    decreases |bs|
  {
    if bs != [] { LiveInRange(h, base + h + bs[0].size, bs[1..]); }
  }

  lemma {:induction false} LiveAppend(h: nat, base: nat, a: seq<Block>, b: seq<Block>)
    requires h > 0
    ensures Live(h, base, a + b) == Live(h, base, a) + Live(h, base + Span(h, a), b)
    decreases |a|
  {
    if a == [] {
      assert a + b == b;
    } else {
      assert (a + b)[1..] == a[1..] + b;
      LiveAppend(h, base + h + a[0].size, a[1..], b);
      LiveInRange(h, base + Span(h, a), b);
    }
  }

  /** Payloads of different blocks in use do not overlap. */
  lemma {:induction false} LiveDisjoint(h: nat, base: nat, bs: seq<Block>, a: nat, b: nat)
    requires h > 0 && a in Live(h, base, bs) && b in Live(h, base, bs) && a < b
    ensures a + h + Live(h, base, bs)[a] <= b
    decreases |bs|
  {
    var next := base + h + bs[0].size;
    LiveInRange(h, next, bs[1..]);
    if a != base { LiveDisjoint(h, next, bs[1..], a, b); }
  }

  lemma AddrStep(h: nat, base: nat, bs: seq<Block>, i: nat)
    requires i < |bs|
    ensures Addr(h, base, bs, i + 1) == Addr(h, base, bs, i) + h + bs[i].size
  {
    assert bs[..i + 1] == bs[..i] + [bs[i]];
    SpanAppend(h, bs[..i], [bs[i]]);
  }

  lemma {:induction false} AddrMonotone(h: nat, base: nat, bs: seq<Block>, i: nat, j: nat)
    requires h > 0 && i < j <= |bs|
    ensures Addr(h, base, bs, i) + h + bs[i].size <= Addr(h, base, bs, j)
    decreases j
  {
    AddrStep(h, base, bs, j - 1);
    if i < j - 1 { AddrMonotone(h, base, bs, i, j - 1); }
  }

  /** Block `i` in use is found among the live blocks under its address. */
  lemma LiveAt(h: nat, base: nat, bs: seq<Block>, i: nat)
    requires h > 0 && i < |bs|
    ensures Addr(h, base, bs, i) in Live(h, base, bs) <==> !bs[i].free
    ensures !bs[i].free ==> Live(h, base, bs)[Addr(h, base, bs, i)] == bs[i].size
  {
    assert bs == bs[..i] + ([bs[i]] + bs[i + 1..]);
    LiveAppend(h, base, bs[..i], [bs[i]] + bs[i + 1..]);
    LiveInRange(h, base, bs[..i]);
    var a := Addr(h, base, bs, i);
    assert ([bs[i]] + bs[i + 1..])[1..] == bs[i + 1..];
    LiveInRange(h, a + h + bs[i].size, bs[i + 1..]);
  }

  lemma OneBlock(h: nat, a: nat, b: Block)
    ensures Span(h, [b]) == h + b.size && LiveBytes([b]) == if b.free then 0 else b.size
    ensures Live(h, a, [b]) == if b.free then map[] else map[a := b.size]
  {
    assert [b][1..] == [];
  }

  lemma TwoBlocks(h: nat, a: nat, b: Block, c: Block)
    requires c.free
    ensures Span(h, [b, c]) == 2 * h + b.size + c.size && LiveBytes([b, c]) == if b.free then 0 else b.size
    ensures Live(h, a, [b, c]) == if b.free then map[] else map[a := b.size]
  {
    assert [b, c][1..] == [c];
    OneBlock(h, a + h + b.size, c);
  }

  /** A list in three parts: its extent, its used bytes and its live blocks are those of the parts. */
  lemma ThreeParts(h: nat, base: nat, pre: seq<Block>, mid: seq<Block>, post: seq<Block>)
    requires h > 0
    ensures Span(h, pre + (mid + post)) == Span(h, pre) + Span(h, mid) + Span(h, post)
    ensures LiveBytes(pre + (mid + post)) == LiveBytes(pre) + LiveBytes(mid) + LiveBytes(post)
    ensures var a := base + Span(h, pre);
            Live(h, base, pre + (mid + post)) == Live(h, base, pre) + Live(h, a, mid) + Live(h, a + Span(h, mid), post)
  {
    SpanAppend(h, pre, mid + post);
    SpanAppend(h, mid, post);
    LiveAppend(h, base, pre, mid + post);
    LiveAppend(h, base + Span(h, pre), mid, post);
  }

  lemma InsertBetween(below: map<nat, nat>, above: map<nat, nat>, a: nat, size: nat)
    requires a !in below && a !in above
    ensures a !in below + map[] + above
    ensures below + map[a := size] + above == (below + map[] + above)[a := size]
    ensures below + map[] + above == (below + map[a := size] + above) - {a}
  {
  }

  /** The address at which a part of the list begins is that of no block before it, nor of one after it. */
  lemma NotAround(h: nat, base: nat, pre: seq<Block>, n: nat, post: seq<Block>)
    requires h > 0 && n > 0
    ensures var a := base + Span(h, pre); a !in Live(h, base, pre) && a !in Live(h, a + n, post)
  {
    LiveInRange(h, base, pre);
    LiveInRange(h, base + Span(h, pre) + n, post);
  }

  /** Replacing a middle part by one of the same extent, when only the new one has a live block. */
  lemma MiddleReplaced(h: nat, base: nat, pre: seq<Block>, mid: seq<Block>, mid': seq<Block>, post: seq<Block>,
                       size: nat)
    requires h > 0 && Span(h, mid) == Span(h, mid') && Span(h, mid) > 0
    requires var a := base + Span(h, pre); Live(h, a, mid) == map[] && Live(h, a, mid') == map[a := size]
    ensures var a := base + Span(h, pre);
            && a !in Live(h, base, pre + (mid + post))
            && Live(h, base, pre + (mid' + post)) == Live(h, base, pre + (mid + post))[a := size]
            && Live(h, base, pre + (mid + post)) == Live(h, base, pre + (mid' + post)) - {a}
  {
    var a := base + Span(h, pre);
    ThreeParts(h, base, pre, mid, post);
    ThreeParts(h, base, pre, mid', post);
    var below, above := Live(h, base, pre), Live(h, a + Span(h, mid), post);
    NotAround(h, base, pre, Span(h, mid), post);
    InsertBetween(below, above, a, size);
  }

  // ---- Allocation

  /** Block `b` put to use for `size` bytes: the rest is split off if it can hold a header and `least` bytes more. */
  function TakenBlocks(h: nat, least: nat, b: Block, size: nat): seq<Block>
    requires size <= b.size
  {
    if b.size >= size + h + least then [Block(size, false), Block(b.size - size - h, true)] else [Block(b.size, false)]
  }

  function Taken(h: nat, least: nat, bs: seq<Block>, i: nat, size: nat): seq<Block>
    requires i < |bs| && size <= bs[i].size
  {
    bs[..i] + (TakenBlocks(h, least, bs[i], size) + bs[i + 1..])
  }

  lemma TakenBlocksAre(h: nat, least: nat, a: nat, b: Block, size: nat)
    requires size <= b.size
    ensures var mid := TakenBlocks(h, least, b, size);
            && Span(h, mid) == h + b.size && size <= mid[0].size && LiveBytes(mid) == mid[0].size
            && Live(h, a, mid) == map[a := mid[0].size]
  {
    if b.size >= size + h + least {
      TwoBlocks(h, a, Block(size, false), Block(b.size - size - h, true));
    } else {
      OneBlock(h, a, Block(b.size, false));
    }
  }

  lemma TakenIsSound(h: nat, least: nat, base: nat, bs: seq<Block>, i: nat, size: nat)
    requires h > 0 && i < |bs| && bs[i].free && size <= bs[i].size
    ensures var bs', a := Taken(h, least, bs, i, size), Addr(h, base, bs, i);
            && Span(h, bs') == Span(h, bs) && i < |bs'| && size <= bs'[i].size
            && LiveBytes(bs') == LiveBytes(bs) + bs'[i].size
            && a !in Live(h, base, bs) && Live(h, base, bs') == Live(h, base, bs)[a := bs'[i].size]
  {
    var pre, mid, post, b := bs[..i], TakenBlocks(h, least, bs[i], size), bs[i + 1..], [bs[i]];
    assert bs == pre + (b + post);
    assert Taken(h, least, bs, i, size)[i] == mid[0];
    TakenBlocksAre(h, least, base + Span(h, pre), bs[i], size);
    FreeBlockReplaced(h, base, pre, bs[i], mid, post);
  }

  /** Replacing a free block by a part of the same extent whose first block alone is in use. */
  lemma FreeBlockReplaced(h: nat, base: nat, pre: seq<Block>, b: Block, mid: seq<Block>, post: seq<Block>)
    requires h > 0 && b.free && mid != [] && Span(h, mid) == h + b.size && LiveBytes(mid) == mid[0].size
    requires Live(h, base + Span(h, pre), mid) == map[base + Span(h, pre) := mid[0].size]
    ensures var bs, bs', a := pre + ([b] + post), pre + (mid + post), base + Span(h, pre);
            && Span(h, bs') == Span(h, bs) && LiveBytes(bs') == LiveBytes(bs) + mid[0].size
            && a !in Live(h, base, bs) && Live(h, base, bs') == Live(h, base, bs)[a := mid[0].size]
  {
    OneBlock(h, base + Span(h, pre), b);
    ThreeParts(h, base, pre, [b], post);
    ThreeParts(h, base, pre, mid, post);
    MiddleReplaced(h, base, pre, [b], mid, post, mid[0].size);
  }

  lemma TakenIsTight(h: nat, least: nat, bs: seq<Block>, i: nat, size: nat)
    requires i < |bs| && bs[i].free && size <= bs[i].size && NoAdjacentFree(bs)
    ensures NoAdjacentFree(Taken(h, least, bs, i, size))
  {
    var bs', d := Taken(h, least, bs, i, size), |TakenBlocks(h, least, bs[i], size)| - 1;
    assert forall j :: 0 <= j < i ==> bs'[j] == bs[j];
    assert forall j :: i + d < j < |bs'| ==> bs'[j] == bs[j - d];
    if i + 1 < |bs| { assert !(bs[i].free && bs[i + 1].free); }
    forall j | 0 <= j < |bs'| - 1 ensures !(bs'[j].free && bs'[j + 1].free) {
      if j > i + d { assert !(bs[j - d].free && bs[j - d + 1].free); }
    }
  }

  // ---- Release

  /** Blocks `i` and `i + 1` as one block. */
  function Merged(h: nat, bs: seq<Block>, i: nat): seq<Block>
    requires i + 1 < |bs|
  {
    bs[..i] + ([Block(bs[i].size + h + bs[i + 1].size, bs[i].free)] + bs[i + 2..])
  }

  /** Block `i` free and merged with a free successor. */
  function FreedWithNext(h: nat, bs: seq<Block>, i: nat): seq<Block>
    requires i < |bs|
  {
    var freed := bs[i := Block(bs[i].size, true)];
    if i + 1 < |freed| && freed[i + 1].free then Merged(h, freed, i) else freed
  }

  /** Free block `i`, then merge it with a free successor and with a free predecessor. */
  function Released(h: nat, bs: seq<Block>, i: nat): seq<Block>
    requires i < |bs|
  {
    var freed := FreedWithNext(h, bs, i);
    if i > 0 && freed[i - 1].free then Merged(h, freed, i - 1) else freed
  }

  lemma FreedIsSound(h: nat, base: nat, bs: seq<Block>, i: nat)
    requires h > 0 && i < |bs| && !bs[i].free
    ensures var b1 := bs[i := Block(bs[i].size, true)];
            && Span(h, b1) == Span(h, bs) && LiveBytes(b1) == LiveBytes(bs) - bs[i].size
            && Live(h, base, b1) == Live(h, base, bs) - {Addr(h, base, bs, i)}
  {
    var pre, post, b := bs[..i], bs[i + 1..], Block(bs[i].size, true);
    var whole, freed, a := [bs[i]], [b], base + Span(h, pre);
    assert bs == pre + (whole + post) && bs[i := b] == pre + (freed + post);
    OneBlock(h, a, bs[i]);
    OneBlock(h, a, b);
    ThreeParts(h, base, pre, whole, post);
    ThreeParts(h, base, pre, freed, post);
    MiddleReplaced(h, base, pre, freed, whole, post, bs[i].size);
  }

  lemma MergedIsSound(h: nat, base: nat, bs: seq<Block>, i: nat)
    requires h > 0 && i + 1 < |bs| && bs[i].free && bs[i + 1].free
    ensures Span(h, Merged(h, bs, i)) == Span(h, bs) && LiveBytes(Merged(h, bs, i)) == LiveBytes(bs)
    ensures Live(h, base, Merged(h, bs, i)) == Live(h, base, bs)
  {
    var pre, post := bs[..i], bs[i + 2..];
    var one, two := [Block(bs[i].size + h + bs[i + 1].size, true)], [bs[i], bs[i + 1]];
    var a := base + Span(h, pre);
    assert bs == pre + (two + post) && Merged(h, bs, i) == pre + (one + post);
    OneBlock(h, a, one[0]);
    TwoBlocks(h, a, bs[i], bs[i + 1]);
    ThreeParts(h, base, pre, two, post);
    ThreeParts(h, base, pre, one, post);
  }

  lemma ReleasedIsSound(h: nat, base: nat, bs: seq<Block>, i: nat)
    requires h > 0 && i < |bs| && !bs[i].free
    ensures Span(h, Released(h, bs, i)) == Span(h, bs)
    ensures LiveBytes(Released(h, bs, i)) == LiveBytes(bs) - bs[i].size
    ensures Live(h, base, Released(h, bs, i)) == Live(h, base, bs) - {Addr(h, base, bs, i)}
  {
    var b1, b2 := bs[i := Block(bs[i].size, true)], FreedWithNext(h, bs, i);
    FreedIsSound(h, base, bs, i);
    if i + 1 < |b1| && b1[i + 1].free { MergedIsSound(h, base, b1, i); }
    if i > 0 && b2[i - 1].free { MergedIsSound(h, base, b2, i - 1); }
  }

  /** After the first merge only the predecessor can be a free neighbour. */
  lemma FreedWithNextIsTight(h: nat, bs: seq<Block>, i: nat)
    requires i < |bs| && NoAdjacentFree(bs)
    ensures var b2 := FreedWithNext(h, bs, i);
            && i < |b2| && b2[i].free && (i + 1 < |b2| ==> !b2[i + 1].free)
            && (forall j :: 0 <= j < i ==> b2[j] == bs[j])
            && (forall j :: i < j < |b2| - 1 ==> !(b2[j].free && b2[j + 1].free))
  {
    var b1, b2 := bs[i := Block(bs[i].size, true)], FreedWithNext(h, bs, i);
    if i + 1 < |b1| && b1[i + 1].free {
      assert forall j :: i + 1 <= j < |b2| ==> b2[j] == bs[j + 1];
      if i + 2 < |bs| { assert !(bs[i + 1].free && bs[i + 1 + 1].free); }
      forall j | i < j < |b2| - 1 ensures !(b2[j].free && b2[j + 1].free) {
        assert !(bs[j + 1].free && bs[j + 1 + 1].free);
      }
    }
  }

  lemma NotBothFree(bs: seq<Block>, j: int)
    ensures NoAdjacentFree(bs) && 0 <= j < |bs| - 1 ==> !(bs[j].free && bs[j + 1].free)
  {
  }

  lemma ReleasedIsTight(h: nat, bs: seq<Block>, i: nat)
    requires i < |bs| && NoAdjacentFree(bs)
    ensures NoAdjacentFree(Released(h, bs, i))
  {
    var b2, b3 := FreedWithNext(h, bs, i), Released(h, bs, i);
    FreedWithNextIsTight(h, bs, i);
    if i > 0 && b2[i - 1].free {
      assert forall j :: 0 <= j < i - 1 ==> b3[j] == bs[j];
      assert forall j :: i <= j < |b3| ==> b3[j] == b2[j + 1];
      NotBothFree(bs, i - 2);
      forall j | 0 <= j < |b3| - 1 ensures !(b3[j].free && b3[j + 1].free) {
        if j >= i { assert !(b2[j + 1].free && b2[j + 1 + 1].free); }
        else if j < i - 2 { assert !(bs[j].free && bs[j + 1].free); }
      }
    } else {
      forall j | 0 <= j < |b3| - 1 ensures !(b3[j].free && b3[j + 1].free) {
        if j < i - 1 { assert !(bs[j].free && bs[j + 1].free); }
      }
    }
  }

  /** When nothing is in use, one block covers the heap. */
  lemma AllFreeIsOneBlock(h: nat, bs: seq<Block>)
    requires bs != [] && NoAdjacentFree(bs) && forall i :: 0 <= i < |bs| ==> bs[i].free
    ensures bs == [Block(Span(h, bs) - h, true)]
  {
    NotBothFree(bs, 0);
    assert bs == [bs[0]] && bs[1..] == [];
  }

  lemma {:induction false} NothingLive(h: nat, base: nat, bs: seq<Block>)
    requires h > 0 && Live(h, base, bs) == map[]
    ensures forall i :: 0 <= i < |bs| ==> bs[i].free
  {
    forall i | 0 <= i < |bs| ensures bs[i].free { LiveAt(h, base, bs, i); }
  }

  // ---- The list as headers linked by addresses

  datatype Header = Header(size: nat, free: bool, next: nat)

  /** Pointer to block `i`, null after the last. */
  function Pointer(h: nat, base: nat, bs: seq<Block>, i: nat): nat
    requires i <= |bs|
  {
    if i == |bs| then 0 else Addr(h, base, bs, i)
  }

  ghost predicate LinkedAt(h: nat, base: nat, headers: map<nat, Header>, bs: seq<Block>, i: nat)
    requires i < |bs|
  {
    var a := Addr(h, base, bs, i);
    a in headers && headers[a] == Header(bs[i].size, bs[i].free, Pointer(h, base, bs, i + 1))
  }

  ghost predicate Linked(h: nat, base: nat, headers: map<nat, Header>, bs: seq<Block>) {
    forall i | 0 <= i < |bs| :: LinkedAt(h, base, headers, bs, i)
  }

  lemma AddrFromEnd(h: nat, base: nat, bs: seq<Block>, i: nat)
    requires i <= |bs|
    ensures Addr(h, base, bs, i) + Span(h, bs[i..]) == base + Span(h, bs)
  {
    assert bs == bs[..i] + bs[i..];
    SpanAppend(h, bs[..i], bs[i..]);
  }

  /** Lists of the same extent that agree from `i` and `j` on have the same addresses there. */
  lemma SameSuffix(h: nat, base: nat, bs: seq<Block>, i: nat, bs': seq<Block>, j: nat)
    requires i <= |bs| && j <= |bs'| && bs[i..] == bs'[j..] && Span(h, bs) == Span(h, bs')
    ensures Addr(h, base, bs, i) == Addr(h, base, bs', j) && Pointer(h, base, bs, i) == Pointer(h, base, bs', j)
  {
    AddrFromEnd(h, base, bs, i);
    AddrFromEnd(h, base, bs', j);
  }

  lemma SamePrefix(h: nat, base: nat, bs: seq<Block>, bs': seq<Block>, i: nat, j: nat)
    requires i <= j <= |bs| && j <= |bs'| && bs[..j] == bs'[..j]
    ensures Addr(h, base, bs, i) == Addr(h, base, bs', i)
  {
    assert bs[..i] == bs[..j][..i] && bs'[..i] == bs'[..j][..i];
  }

  /** Block `j` has the same header in both maps. */
  ghost predicate SameHeader(h: nat, base: nat, headers: map<nat, Header>, headers': map<nat, Header>, bs: seq<Block>,
                             j: nat)
    requires j < |bs|
  {
    var a := Addr(h, base, bs, j);
    a in headers && a in headers' && headers'[a] == headers[a]
  }

  /** Replacing `k` blocks at `i` by `k'` blocks relinks the list if the new headers are right and no other changed. */
  lemma RelinkBlocks(h: nat, base: nat, headers: map<nat, Header>, headers': map<nat, Header>, bs: seq<Block>,
                     bs': seq<Block>, i: nat, k: nat, k': nat)
    requires Linked(h, base, headers, bs) && i + k <= |bs| && i + k' <= |bs'|
    requires bs[..i] == bs'[..i] && bs[i + k..] == bs'[i + k'..] && Span(h, bs) == Span(h, bs')
    requires 0 < k && 0 < k'
    requires forall j | 0 <= j < |bs| && (j < i || i + k <= j) :: SameHeader(h, base, headers, headers', bs, j)
    requires forall j | i <= j < i + k' :: LinkedAt(h, base, headers', bs', j)
    ensures Linked(h, base, headers', bs')
  {
    forall j | 0 <= j < |bs'| ensures LinkedAt(h, base, headers', bs', j) {
      if j < i {
        KeptBefore(h, base, headers, headers', bs, bs', i, j);
      } else if j >= i + k' {
        SameElement(bs, i + k, bs', i + k', j - k' + k, j);
        KeptAfter(h, base, headers, headers', bs, bs', i + k, i + k', j - k' + k, j);
      }
    }
  }

  lemma Relink(h: nat, base: nat, headers: map<nat, Header>, headers': map<nat, Header>, bs: seq<Block>,
               bs': seq<Block>, i: nat, k: nat, k': nat)
    requires h > 0 && Linked(h, base, headers, bs) && 0 < k && 0 < k' && i + k <= |bs| && i + k' <= |bs'|
    requires bs[..i] == bs'[..i] && bs[i + k..] == bs'[i + k'..] && Span(h, bs) == Span(h, bs')
    requires forall a | a in headers && (a < Addr(h, base, bs, i) || a >= Addr(h, base, bs, i + k)) ::
               a in headers' && headers'[a] == headers[a]
    requires forall j | i <= j < i + k' :: LinkedAt(h, base, headers', bs', j)
    ensures Linked(h, base, headers', bs')
  {
    forall j | 0 <= j < |bs| && (j < i || i + k <= j) ensures SameHeader(h, base, headers, headers', bs, j) {
      assert LinkedAt(h, base, headers, bs, j);
      if j < i { AddrMonotone(h, base, bs, j, i); }
      if i + k < j { AddrMonotone(h, base, bs, i + k, j); }
    }
    RelinkBlocks(h, base, headers, headers', bs, bs', i, k, k');
  }

  lemma KeptBefore(h: nat, base: nat, headers: map<nat, Header>, headers': map<nat, Header>, bs: seq<Block>,
                   bs': seq<Block>, i: nat, j: nat)
    requires Linked(h, base, headers, bs) && j < i < |bs| && i < |bs'| && bs[..i] == bs'[..i]
    requires SameHeader(h, base, headers, headers', bs, j)
    ensures LinkedAt(h, base, headers', bs', j)
  {
    SamePrefix(h, base, bs, bs', j, i);
    SamePrefix(h, base, bs, bs', j + 1, i);
    assert bs[j] == bs[..i][j] && bs'[j] == bs'[..i][j];
    KeptSame(h, base, headers, headers', bs, bs', j, j);
  }

  lemma LaterSuffix(bs: seq<Block>, i: nat, bs': seq<Block>, i': nat, d: nat)
    requires i + d <= |bs| && i' + d <= |bs'| && bs[i..] == bs'[i'..]
    ensures bs[i + d..] == bs'[i' + d..]
  {
    var a, b := bs[i..], bs'[i'..];
    assert bs[i + d..] == a[d..];
    assert bs'[i' + d..] == b[d..];
  }

  lemma SuffixAddress(h: nat, base: nat, bs: seq<Block>, i: nat, bs': seq<Block>, i': nat, j: nat, j': nat)
    requires i <= j <= |bs| && i' <= j' <= |bs'| && j - i == j' - i'
    requires bs[i..] == bs'[i'..] && Span(h, bs) == Span(h, bs')
    ensures Addr(h, base, bs, j) == Addr(h, base, bs', j')
    ensures Pointer(h, base, bs, j) == Pointer(h, base, bs', j')
  {
    LaterSuffix(bs, i, bs', i', j - i);
    SameSuffix(h, base, bs, j, bs', j');
  }

  lemma SameElement(bs: seq<Block>, i: nat, bs': seq<Block>, i': nat, j: nat, j': nat)
    requires i <= j && i <= |bs| && i' <= j' < |bs'| && j - i == j' - i' && bs[i..] == bs'[i'..]
    ensures j < |bs| && bs[j] == bs'[j']
  {
    assert |bs[i..]| == |bs'[i'..]|;
    assert bs[i..][j - i] == bs'[i'..][j - i];
  }

  lemma KeptSame(h: nat, base: nat, headers: map<nat, Header>, headers': map<nat, Header>, bs: seq<Block>,
                 bs': seq<Block>, j: nat, j': nat)
    requires Linked(h, base, headers, bs) && j < |bs| && j' < |bs'| && bs[j] == bs'[j']
    requires SameHeader(h, base, headers, headers', bs, j) && Addr(h, base, bs, j) == Addr(h, base, bs', j')
    requires Pointer(h, base, bs, j + 1) == Pointer(h, base, bs', j' + 1)
    ensures LinkedAt(h, base, headers', bs', j')
  {
    assert LinkedAt(h, base, headers, bs, j);
  }

  lemma KeptAfter(h: nat, base: nat, headers: map<nat, Header>, headers': map<nat, Header>, bs: seq<Block>,
                  bs': seq<Block>, i: nat, i': nat, j: nat, j': nat)
    requires Linked(h, base, headers, bs) && i <= j < |bs| && i' <= j' < |bs'| && j - i == j' - i'
    requires bs[i..] == bs'[i'..] && Span(h, bs) == Span(h, bs')
    requires SameHeader(h, base, headers, headers', bs, j)
    ensures LinkedAt(h, base, headers', bs', j')
  {
    SameElement(bs, i, bs', i', j, j');
    SuffixAddress(h, base, bs, i, bs', i', j, j');
    SuffixAddress(h, base, bs, i, bs', i', j + 1, j' + 1);
    KeptSame(h, base, headers, headers', bs, bs', j, j');
  }

  /** Headers after putting block `i` to use. */
  function TakenHeaders(h: nat, least: nat, headers: map<nat, Header>, a: nat, size: nat): map<nat, Header>
    requires a in headers && size <= headers[a].size
  {
    var block := headers[a];
    if block.size >= size + h + least
    then headers[a + h + size := Header(block.size - size - h, true, block.next)]
                [a := Header(size, false, a + h + size)]
    else headers[a := block.(free := false)]
  }

  lemma TakeLinks(h: nat, least: nat, base: nat, headers: map<nat, Header>, bs: seq<Block>, i: nat, size: nat)
    requires h > 0 && Linked(h, base, headers, bs) && i < |bs| && bs[i].free && size <= bs[i].size
    requires Addr(h, base, bs, i) in headers && headers[Addr(h, base, bs, i)].size == bs[i].size
    ensures Linked(h, base, TakenHeaders(h, least, headers, Addr(h, base, bs, i), size), Taken(h, least, bs, i, size))
  {
    var a, bs', k := Addr(h, base, bs, i), Taken(h, least, bs, i, size), |TakenBlocks(h, least, bs[i], size)|;
    var headers' := TakenHeaders(h, least, headers, a, size);
    TakenIsSound(h, least, base, bs, i, size);
    assert LinkedAt(h, base, headers, bs, i);
    AddrStep(h, base, bs, i);
    assert bs[i + 1..] == bs'[i + k..];
    SameSuffix(h, base, bs, i + 1, bs', i + k);
    assert bs[..i] == bs'[..i];
    SamePrefix(h, base, bs, bs', i, i);
    AddrStep(h, base, bs', i);
    assert LinkedAt(h, base, headers', bs', i);
    if k == 2 { assert LinkedAt(h, base, headers', bs', i + 1); }
    Relink(h, base, headers, headers', bs, bs', i, 1, k);
  }

  lemma FreeLinks(h: nat, base: nat, headers: map<nat, Header>, bs: seq<Block>, i: nat)
    requires h > 0 && Linked(h, base, headers, bs) && i < |bs|
    requires Addr(h, base, bs, i) in headers
    ensures var a := Addr(h, base, bs, i);
            Linked(h, base, headers[a := headers[a].(free := true)], bs[i := Block(bs[i].size, true)])
    ensures forall j | 0 <= j <= |bs| :: Addr(h, base, bs[i := Block(bs[i].size, true)], j) == Addr(h, base, bs, j)
  {
    var a, bs' := Addr(h, base, bs, i), bs[i := Block(bs[i].size, true)];
    forall j | 0 <= j <= |bs| ensures Addr(h, base, bs', j) == Addr(h, base, bs, j) { SameSizes(h, bs[..j], bs'[..j]); }
    var headers' := headers[a := headers[a].(free := true)];
    forall j | 0 <= j < |bs'| ensures LinkedAt(h, base, headers', bs', j) {
      assert LinkedAt(h, base, headers, bs, j);
      if j < i { AddrMonotone(h, base, bs, j, i); } else if i < j { AddrMonotone(h, base, bs, i, j); }
    }
  }

  lemma {:induction false} SameSizes(h: nat, a: seq<Block>, b: seq<Block>)
    requires |a| == |b| && forall i :: 0 <= i < |a| ==> a[i].size == b[i].size
    ensures Span(h, a) == Span(h, b)
  {
    if a != [] { SameSizes(h, a[1..], b[1..]); }
  }

  /** `block->size += h + next->size; block->next = next->next` */
  lemma MergeLinks(h: nat, base: nat, headers: map<nat, Header>, bs: seq<Block>, i: nat)
    requires h > 0 && Linked(h, base, headers, bs) && i + 1 < |bs|
    requires Addr(h, base, bs, i) in headers && Addr(h, base, bs, i + 1) in headers
    ensures var a, b := Addr(h, base, bs, i), Addr(h, base, bs, i + 1);
            var merged := Header(headers[a].size + h + headers[b].size, headers[a].free, headers[b].next);
            Linked(h, base, headers[a := merged], Merged(h, bs, i))
    ensures forall j | 0 <= j <= i :: Addr(h, base, Merged(h, bs, i), j) == Addr(h, base, bs, j)
  {
    var a, b, bs' := Addr(h, base, bs, i), Addr(h, base, bs, i + 1), Merged(h, bs, i);
    var merged := Header(headers[a].size + h + headers[b].size, headers[a].free, headers[b].next);
    MergedSpan(h, bs, i);
    assert LinkedAt(h, base, headers, bs, i) && LinkedAt(h, base, headers, bs, i + 1);
    AddrStep(h, base, bs, i);
    AddrStep(h, base, bs, i + 1);
    assert bs[i + 2..] == bs'[i + 1..] && bs[..i] == bs'[..i];
    SameSuffix(h, base, bs, i + 2, bs', i + 1);
    forall j | 0 <= j <= i ensures Addr(h, base, bs', j) == Addr(h, base, bs, j) { SamePrefix(h, base, bs, bs', j, i); }
    assert LinkedAt(h, base, headers[a := merged], bs', i);
    Relink(h, base, headers, headers[a := merged], bs, bs', i, 2, 1);
  }

  lemma MergedSpan(h: nat, bs: seq<Block>, i: nat)
    requires i + 1 < |bs|
    ensures Span(h, Merged(h, bs, i)) == Span(h, bs)
  {
    var pre, post := bs[..i], bs[i + 2..];
    var one, two := [Block(bs[i].size + h + bs[i + 1].size, bs[i].free)], [bs[i], bs[i + 1]];
    assert bs == pre + (two + post) && two[1..] == [bs[i + 1]] && one[1..] == [];
    SpanAppend(h, pre, two + post);
    SpanAppend(h, two, post);
    SpanAppend(h, pre, one + post);
    SpanAppend(h, one, post);
    OneBlock(h, 0, bs[i + 1]);
  }

  /** A live address is the address of a block in use. */
  lemma {:induction false} LiveHasIndex(h: nat, base: nat, bs: seq<Block>, a: nat)
    requires h > 0 && a in Live(h, base, bs)
    ensures exists i :: 0 <= i < |bs| && !bs[i].free && Addr(h, base, bs, i) == a
    decreases |bs|
  {
    var next := base + h + bs[0].size;
    if !bs[0].free && a == base {
      assert bs[..0] == [];
      assert Addr(h, base, bs, 0) == a;
    } else {
      LiveHasIndex(h, next, bs[1..], a);
      var i :| 0 <= i < |bs[1..]| && !bs[1..][i].free && Addr(h, next, bs[1..], i) == a;
      assert bs[..i + 1] == [bs[0]] + bs[1..][..i];
      assert Addr(h, base, bs, i + 1) == a;
    }
  }

  /** Index of the block at a live address. */
  ghost function IndexOf(h: nat, base: nat, bs: seq<Block>, a: nat): (i: nat)
    requires h > 0 && a in Live(h, base, bs)
    ensures i < |bs| && !bs[i].free && Addr(h, base, bs, i) == a
  {
    LiveHasIndex(h, base, bs, a);
    var i :| 0 <= i < |bs| && !bs[i].free && Addr(h, base, bs, i) == a;
    i
  }

  /** What both heaps keep: the blocks tile the heap exactly, and no two free blocks are adjacent. */
  ghost predicate Tiling(h: nat, extent: nat, bs: seq<Block>) {
    bs != [] && Span(h, bs) == extent && NoAdjacentFree(bs)
  }

  lemma SizeBound(h: nat, base: nat, bs: seq<Block>, i: nat)
    requires h > 0 && i < |bs|
    ensures bs[i].size < Span(h, bs) && base <= Addr(h, base, bs, i) < base + Span(h, bs)
  {
    AddrMonotone(h, base, bs, i, |bs|);
    assert bs[..|bs|] == bs;
  }

  /** Following `next` from block `i`: it reaches block `k` next exactly if `k` is the successor. */
  lemma NextIs(h: nat, base: nat, headers: map<nat, Header>, bs: seq<Block>, i: nat, k: nat)
    requires h > 0 && base > 0 && Linked(h, base, headers, bs) && i < |bs| && k < |bs|
    ensures Addr(h, base, bs, i) in headers && Addr(h, base, bs, i) > 0
    ensures headers[Addr(h, base, bs, i)] == Header(bs[i].size, bs[i].free, Pointer(h, base, bs, i + 1))
    ensures Pointer(h, base, bs, i + 1) == Addr(h, base, bs, k) <==> i + 1 == k
    ensures Pointer(h, base, bs, i + 1) == 0 <==> i + 1 == |bs|
  {
    assert LinkedAt(h, base, headers, bs, i);
    if i + 1 < k { AddrMonotone(h, base, bs, i + 1, k); }
    if k < i + 1 { AddrMonotone(h, base, bs, k, i + 1); }
  }
}
