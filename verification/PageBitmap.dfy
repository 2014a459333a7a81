/** The bitmap of physical pages (kernel/mm/mm.c:42-73). */
module PageBitmap {
  import opened Arithmetic
  import opened Bits
  import opened PageTree

  const ALL_ONES: Word := 0xFFFF_FFFF_FFFF_FFFF
  /** The bitmap lies at 64 KB and must end below 1 MB, the part of memory that `MmInit` reserves. */
  const MAX_PAGES: nat := 0xF0000 * 8

  /** Bit `n` of the bitmap. */
  predicate Used(bitmap: seq<Word>, n: nat) {
    n / 64 < |bitmap| && Bit(bitmap[n / 64], n % 64)
  }

  function UsedPages(bitmap: seq<Word>, total: nat): set<nat> {
    set n: nat | n < total && Used(bitmap, n)
  }

  /** Exactly the first `n` pages. */
  ghost predicate FirstPages(used: set<nat>, n: nat) {
    forall m: nat :: m in used <==> m < n
  }

  lemma CountFirstPages(used: set<nat>, n: nat)
    requires FirstPages(used, n)
    ensures |used| == n
  {
    assert used == Below(n);
  }

  predicate IsBit(n: nat, i: nat, j: nat) { n / 64 == i && n % 64 == j }

  /** `bitmap[i] |= 1 << j` sets exactly bit `64 * i + j`. */
  lemma SetBit(bitmap: seq<Word>, i: nat, j: nat)
    requires i < |bitmap| && j < 64
    ensures Or(bitmap[i], Pow2(j)) <= ALL_ONES
    ensures forall n: nat :: Used(bitmap[i := Or(bitmap[i], Pow2(j))], n) == (Used(bitmap, n) || IsBit(n, i, j))
  {
    PowersUsed();
    Pow2Monotone(j, 63);
    OrBound(bitmap[i], Pow2(j), 64);
    forall n: nat
      ensures Used(bitmap[i := Or(bitmap[i], Pow2(j))], n) == (Used(bitmap, n) || IsBit(n, i, j))
    {
      BitOfOr(bitmap[i], Pow2(j), n % 64);
      BitOfPow2(j, n % 64);
    }
  }

  /** `bitmap[i] &= ~(1 << j)` clears exactly bit `64 * i + j`. */
  lemma UnsetBit(bitmap: seq<Word>, i: nat, j: nat)
    requires i < |bitmap| && j < 64
    ensures ClearBit(bitmap[i], j) <= ALL_ONES
    ensures forall n: nat :: Used(bitmap[i := ClearBit(bitmap[i], j)], n) == (Used(bitmap, n) && !IsBit(n, i, j))
  {
    BitOfClearBit(bitmap[i], j, 0);
    forall n: nat
      ensures Used(bitmap[i := ClearBit(bitmap[i], j)], n) == (Used(bitmap, n) && !IsBit(n, i, j))
    {
      BitOfClearBit(bitmap[i], j, n % 64);
    }
  }

  lemma MarkPage(bitmap: seq<Word>, n: nat, total: nat)
    requires n / 64 < |bitmap| && n < total
    ensures Or(bitmap[n / 64], Pow2(n % 64)) <= ALL_ONES
    ensures UsedPages(bitmap[n / 64 := Or(bitmap[n / 64], Pow2(n % 64))], total) == UsedPages(bitmap, total) + {n}
    ensures n !in UsedPages(bitmap, total) ==> |UsedPages(bitmap, total) + {n}| == |UsedPages(bitmap, total)| + 1
  {
    SetBit(bitmap, n / 64, n % 64);
    SameBit(n);
  }

  lemma UnmarkPage(bitmap: seq<Word>, n: nat, total: nat)
    requires n / 64 < |bitmap|
    ensures ClearBit(bitmap[n / 64], n % 64) <= ALL_ONES
    ensures UsedPages(bitmap[n / 64 := ClearBit(bitmap[n / 64], n % 64)], total) == UsedPages(bitmap, total) - {n}
  {
    UnsetBit(bitmap, n / 64, n % 64);
    SameBit(n);
    var bitmap' := bitmap[n / 64 := ClearBit(bitmap[n / 64], n % 64)];
    forall m: nat ensures Used(bitmap', m) == (Used(bitmap, m) && m != n) {
      assert IsBit(m, n / 64, n % 64) == (m == n);
    }
  }

  lemma SameBit(n: nat)
    ensures forall m: nat :: IsBit(m, n / 64, n % 64) <==> m == n
  {
  }

  lemma Pow2Monotone(j: nat, k: nat)
    requires j <= k
    ensures Pow2(j) <= Pow2(k)
    decreases k
  {
    if j < k { Pow2Monotone(j, k - 1); }
  }

  /** What a search that has passed all words below `i` and all bits below `j` of word `i` knows. */
  ghost predicate Passed(bitmap: seq<Word>, i: nat, j: nat) {
    forall n: nat :: n < 64 * i + j ==> Used(bitmap, n)
  }

  /** A search through the whole bitmap that finds nothing has passed every page. */
  lemma NothingFound(bitmap: seq<Word>, total: nat)
    ensures Passed(bitmap, |bitmap|, 0) && |bitmap| == (total + 63) / 64 ==> |UsedPages(bitmap, total)| == total
  {
    if Passed(bitmap, |bitmap|, 0) && |bitmap| == (total + 63) / 64 { assert UsedPages(bitmap, total) == Below(total); }
  }

  lemma FullWord(bitmap: seq<Word>, i: nat)
    requires i < |bitmap| && bitmap[i] == ALL_ONES && Passed(bitmap, i, 0)
    ensures Passed(bitmap, i + 1, 0)
  {
    PowersUsed();
    AllOnes(bitmap[i], 64);
  }

  /** A word that is not all ones has a clear bit, so the inner search cannot run off its end. */
  lemma NotFullWord(bitmap: seq<Word>, i: nat)
    requires i < |bitmap| && bitmap[i] != ALL_ONES
    ensures !Passed(bitmap, i, 64)
  {
    PowersUsed();
    AllOnes(bitmap[i], 64);
    var k :| 0 <= k < 64 && !Bit(bitmap[i], k);
    assert (64 * i + k) / 64 == i && (64 * i + k) % 64 == k;
    assert !Used(bitmap, 64 * i + k);
  }

  lemma OrOfFrame(n: nat, flags: nat)
    requires flags < 4096
    ensures Or(4096 * n, flags) == 4096 * n + flags
  {
    PowersUsed();
    OrOfAligned(n, flags, 12);
  }

  /** Lowest page from `k` on that is not in use; `total` if there is none. */
  function FirstFree(used: set<nat>, k: nat, total: nat): (n: nat)
    requires k <= total
    ensures k <= n <= total && (n < total ==> n !in used) && forall m: nat :: k <= m < n ==> m in used
    decreases total - k
  {
    if k == total || k !in used then k else FirstFree(used, k + 1, total)
  }

  /** If fewer pages are used than exist, there is a free one. */
  lemma SomeFree(used: set<nat>, total: nat)
    requires |used| < total
    ensures FirstFree(used, 0, total) < total
  {
    NoneFree(used, total);
  }

  lemma NoneFree(used: set<nat>, total: nat)
    ensures FirstFree(used, 0, total) == total ==> |used| >= total
  {
    if FirstFree(used, 0, total) == total {
      assert Below(total) <= used;
      assert used == Below(total) + (used - Below(total));
    }
  }

  /** The lowest clear bit is the first free page, never a bit in the padding of the last word. */
  lemma LowestClearIsPage(bitmap: seq<Word>, total: nat, n: nat)
    requires |UsedPages(bitmap, total)| < total
    requires !Used(bitmap, n) && Passed(bitmap, 0, n)
    ensures n == FirstFree(UsedPages(bitmap, total), 0, total) < total
  {
    SomeFree(UsedPages(bitmap, total), total);
    var first := FirstFree(UsedPages(bitmap, total), 0, total);
    assert !Used(bitmap, first);
    assert n < first ==> n in UsedPages(bitmap, total);
  }

  lemma EmptyBitmap(bitmap: seq<Word>, total: nat)
    requires forall k :: 0 <= k < |bitmap| ==> bitmap[k] == 0
    ensures UsedPages(bitmap, total) == {}
  {
    forall n: nat ensures !Used(bitmap, n) { ZeroHasNoBits(n % 64); }
  }
}
