/** How much of a heap an allocation uses up: the bytes of a block list, and what is left after a block has been
taken. */
module BlockSizes {
  import opened BlockList

  /** Sum of the payload sizes of the free blocks. */
  function FreeBytes(bs: seq<Block>): nat {
    if bs == [] then 0 else (if bs[0].free then bs[0].size else 0) + FreeBytes(bs[1..])
  }

  lemma {:induction false} FreeAppend(a: seq<Block>, b: seq<Block>)
    ensures FreeBytes(a + b) == FreeBytes(a) + FreeBytes(b)
  {
    if a == [] {
      assert a + b == b;
    } else {
      assert (a + b)[1..] == a[1..] + b;
      FreeAppend(a[1..], b);
    }
  }

  /** Every byte of the heap is in a header, in use or free. */
  lemma {:induction false} BytesAddUp(h: nat, bs: seq<Block>)
    ensures Span(h, bs) == h * |bs| + LiveBytes(bs) + FreeBytes(bs)
  {
    if bs != [] {
      BytesAddUp(h, bs[1..]);
      assert h * |bs| == h * |bs[1..]| + h;
    }
  }

  /** Block `i` with the free bytes before and after it. */
  lemma FreeAround(pre: seq<Block>, mid: seq<Block>, post: seq<Block>)
    ensures FreeBytes(pre + (mid + post)) == FreeBytes(pre) + FreeBytes(mid) + FreeBytes(post)
  {
    FreeAppend(pre, mid + post);
    FreeAppend(mid, post);
  }

  /** A block that is taken is at most one header and `least` bytes larger than asked for, and a header at most is lost
  to the free bytes beside it. */
  lemma TakenBytes(h: nat, least: nat, bs: seq<Block>, i: nat, size: nat)
    requires i < |bs| && bs[i].free && size <= bs[i].size
    ensures var bs' := Taken(h, least, bs, i, size);
            && i < |bs'| && (bs'[i].size == size || size <= bs'[i].size < size + h + least)
            && FreeBytes(bs) - h <= FreeBytes(bs') + bs'[i].size <= FreeBytes(bs)
  {
    var pre, mid, post, one := bs[..i], TakenBlocks(h, least, bs[i], size), bs[i + 1..], [bs[i]];
    assert bs == pre + (one + post) && one[1..] == [];
    assert Taken(h, least, bs, i, size)[i] == mid[0];
    assert FreeBytes(mid[1..]) == if |mid| == 2 then mid[1].size else 0 by {
      if |mid| == 2 { assert mid[1..] == [mid[1]] && mid[1..][1..] == []; }
    }
    FreeAround(pre, one, post);
    FreeAround(pre, mid, post);
  }

  /** After block `i` has been taken, a free block of `n` bytes is one that was there before, or the rest of block
  `i`. */
  lemma TakenLeaves(h: nat, least: nat, bs: seq<Block>, i: nat, size: nat, n: nat)
    requires i < |bs| && bs[i].free && size <= bs[i].size
    ensures var bs' := Taken(h, least, bs, i, size);
            (exists k :: 0 <= k < |bs'| && bs'[k].free && bs'[k].size >= n) <==>
              || bs[i].size >= size + h + (if least > n then least else n)
              || exists j :: 0 <= j < |bs| && j != i && bs[j].free && bs[j].size >= n
  {
    var mid, bs' := TakenBlocks(h, least, bs[i], size), Taken(h, least, bs, i, size);
    var d := |mid| - 1;
    assert forall k :: 0 <= k < i ==> bs'[k] == bs[k];
    assert forall k :: i <= k <= i + d ==> bs'[k] == mid[k - i];
    assert forall k :: i + d < k < |bs'| ==> bs'[k] == bs[k - d];
    if k :| 0 <= k < |bs'| && bs'[k].free && bs'[k].size >= n {
      if k < i { assert bs[k].free; } else if k > i + d { assert bs[k - d].free; }
    }
    if bs[i].size >= size + h + (if least > n then least else n) { assert bs'[i + 1].free; }
    if j :| 0 <= j < |bs| && j != i && bs[j].free && bs[j].size >= n {
      if j < i { assert bs'[j].free; } else { assert bs'[j + d] == bs[j]; }
    }
  }

  /** Different blocks have different addresses. */
  lemma SameAddress(h: nat, base: nat, bs: seq<Block>, i: nat, j: nat)
    requires h > 0 && i < |bs| && j < |bs| && Addr(h, base, bs, i) == Addr(h, base, bs, j)
    ensures i == j
  {
    if i < j { AddrMonotone(h, base, bs, i, j); }
    if j < i { AddrMonotone(h, base, bs, j, i); }
  }
}
