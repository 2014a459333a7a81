/** The C library's heap region as bytes (lib/libc/libc.c:7-16): each block's header is stored in the bytes before its
payload, so a stray write could damage it. Addresses are absolute; byte `i` of the region has address `base + i`. */
module HeapMemory {
  import opened BlockList
  import opened ByteType

  const HEADER: nat := 24 // sizeof(heap_block_t): 64-bit size, 32-bit flag, padding, 64-bit pointer
  const WORD: nat := 0x1_0000_0000_0000_0000
  const HEAP_SIZE: nat := 16 * 1024 * 1024

  // ---- Little-endian words

  function Value(bytes: seq<Byte>): nat {
    if bytes == [] then 0 else bytes[0] + 256 * Value(bytes[1..])
  }

  function Digits(v: nat, n: nat): (bytes: seq<Byte>)
    ensures |bytes| == n
  {
    if n == 0 then [] else [v % 256] + Digits(v / 256, n - 1)
  }

  function Range(n: nat): nat {
    if n == 0 then 1 else 256 * Range(n - 1)
  }

  lemma {:induction false} DigitsValue(v: nat, n: nat)
    requires v < Range(n)
    ensures Value(Digits(v, n)) == v
  {
    if n > 0 {
      DigitsValue(v / 256, n - 1);
      assert Digits(v, n)[1..] == Digits(v / 256, n - 1);
    }
  }

  lemma Ranges()
    ensures Range(4) == 0x1_0000_0000 && Range(8) == WORD
  {
    assert Range(2) == 0x1_0000 && Range(4) == 0x1_0000_0000;
    assert Range(6) == 0x1_0000_0000_0000;
  }

  function Word(m: seq<Byte>, i: nat, n: nat): nat
    requires i + n <= |m|
  {
    Value(m[i..i + n])
  }

  /** The region after storing `v` in the `n` bytes at `i`. */
  function Stored(m: seq<Byte>, i: nat, n: nat, v: nat): (m': seq<Byte>)
    requires i + n <= |m|
    ensures |m'| == |m|
  {
    m[..i] + Digits(v, n) + m[i + n..]
  }

  lemma StoredWord(m: seq<Byte>, i: nat, n: nat, v: nat)
    requires i + n <= |m| && v < Range(n)
    ensures Word(Stored(m, i, n, v), i, n) == v
  {
    assert Stored(m, i, n, v)[i..i + n] == Digits(v, n);
    DigitsValue(v, n);
  }

  lemma StoredElsewhere(m: seq<Byte>, i: nat, n: nat, v: nat, j: nat, k: nat)
    requires i + n <= |m| && j + k <= |m| && (j + k <= i || i + n <= j)
    ensures Word(Stored(m, i, n, v), j, k) == Word(m, j, k)
  {
    assert Stored(m, i, n, v)[j..j + k] == m[j..j + k];
  }

  // ---- Headers in memory

  predicate HasHeader(m: seq<Byte>, base: nat, a: nat) {
    base <= a && a + HEADER <= base + |m|
  }

  function HeaderAt(m: seq<Byte>, base: nat, a: nat): Header
    requires HasHeader(m, base, a)
  {
    Header(Word(m, a - base, 8), Word(m, a - base + 8, 4) != 0, Word(m, a - base + 16, 8))
  }

  /** What each address would read as if it were a header. */
  ghost function HeadersOf(m: seq<Byte>, base: nat): map<nat, Header> {
    map a: nat | base <= a < base + |m| && HasHeader(m, base, a) :: HeaderAt(m, base, a)
  }

  lemma SizeStored(m: seq<Byte>, base: nat, a: nat, v: nat)
    requires HasHeader(m, base, a) && v < WORD
    ensures HeaderAt(Stored(m, a - base, 8, v), base, a) == HeaderAt(m, base, a).(size := v)
  {
    Ranges();
    StoredWord(m, a - base, 8, v);
    StoredElsewhere(m, a - base, 8, v, a - base + 8, 4);
    StoredElsewhere(m, a - base, 8, v, a - base + 16, 8);
  }

  lemma FreeStored(m: seq<Byte>, base: nat, a: nat, free: bool)
    requires HasHeader(m, base, a)
    ensures HeaderAt(Stored(m, a - base + 8, 4, if free then 1 else 0), base, a) == HeaderAt(m, base, a).(free := free)
  {
    var v := if free then 1 else 0;
    Ranges();
    StoredWord(m, a - base + 8, 4, v);
    StoredElsewhere(m, a - base + 8, 4, v, a - base, 8);
    StoredElsewhere(m, a - base + 8, 4, v, a - base + 16, 8);
  }

  lemma NextStored(m: seq<Byte>, base: nat, a: nat, next: nat)
    requires HasHeader(m, base, a) && next < WORD
    ensures HeaderAt(Stored(m, a - base + 16, 8, next), base, a) == HeaderAt(m, base, a).(next := next)
  {
    Ranges();
    StoredWord(m, a - base + 16, 8, next);
    StoredElsewhere(m, a - base + 16, 8, next, a - base, 8);
    StoredElsewhere(m, a - base + 16, 8, next, a - base + 8, 4);
  }

  // ---- Frames

  function At(m: seq<Byte>, base: nat, x: nat): Byte {
    if base <= x < base + |m| then m[x - base] else 0
  }

  /** Only bytes at addresses `lo` up to `hi` may differ. */
  ghost predicate SameOutside(m: seq<Byte>, m': seq<Byte>, base: nat, lo: nat, hi: nat) {
    |m'| == |m| && forall x: nat | x < lo || hi <= x :: At(m', base, x) == At(m, base, x)
  }

  lemma StoredFrame(m: seq<Byte>, base: nat, i: nat, n: nat, v: nat, lo: nat, hi: nat)
    requires i + n <= |m| && lo <= base + i && base + i + n <= hi
    ensures SameOutside(m, Stored(m, i, n, v), base, lo, hi)
  {
    var m' := Stored(m, i, n, v);
    forall x: nat | x < lo || hi <= x ensures At(m', base, x) == At(m, base, x) {
      if base <= x < base + |m| {
        if x < lo { assert m'[x - base] == m[x - base]; } else { assert m'[x - base] == m[i + n..][x - base - i - n]; }
      }
    }
  }

  /** From `m` to `m'` the header at `a` becomes `header`, and nothing else changes. */
  ghost predicate HeaderSet(m: seq<Byte>, m': seq<Byte>, base: nat, a: nat, header: Header) {
    HasHeader(m', base, a) && HeaderAt(m', base, a) == header && SameOutside(m, m', base, a, a + HEADER)
  }

  lemma SizeSet(m: seq<Byte>, base: nat, a: nat, size: nat)
    requires HasHeader(m, base, a) && size < WORD
    ensures HeaderSet(m, Stored(m, a - base, 8, size), base, a, HeaderAt(m, base, a).(size := size))
  {
    SizeStored(m, base, a, size);
    StoredFrame(m, base, a - base, 8, size, a, a + HEADER);
  }

  lemma FreeSet(m: seq<Byte>, base: nat, a: nat, free: bool)
    requires HasHeader(m, base, a)
    ensures var m' := Stored(m, a - base + 8, 4, if free then 1 else 0);
            HeaderSet(m, m', base, a, HeaderAt(m, base, a).(free := free))
  {
    FreeStored(m, base, a, free);
    StoredFrame(m, base, a - base + 8, 4, if free then 1 else 0, a, a + HEADER);
  }

  lemma NextSet(m: seq<Byte>, base: nat, a: nat, next: nat)
    requires HasHeader(m, base, a) && next < WORD
    ensures HeaderSet(m, Stored(m, a - base + 16, 8, next), base, a, HeaderAt(m, base, a).(next := next))
  {
    NextStored(m, base, a, next);
    StoredFrame(m, base, a - base + 16, 8, next, a, a + HEADER);
  }

  lemma HeaderKept(m: seq<Byte>, m': seq<Byte>, base: nat, a: nat, lo: nat, hi: nat)
    requires HasHeader(m, base, a) && SameOutside(m, m', base, lo, hi) && (a + HEADER <= lo || hi <= a)
    ensures HasHeader(m', base, a) && HeaderAt(m', base, a) == HeaderAt(m, base, a)
  {
    var i := a - base;
    forall y | i <= y < i + HEADER ensures m'[y] == m[y] { assert At(m', base, base + y) == At(m, base, base + y); }
    assert m'[i..i + 8] == m[i..i + 8];
    assert m'[i + 8..i + 8 + 4] == m[i + 8..i + 8 + 4];
    assert m'[i + 16..i + 16 + 8] == m[i + 16..i + 16 + 8];
  }

  /** The `n` bytes at `dest` are those that were at `src`. */
  ghost predicate CopiedTo(m: seq<Byte>, m': seq<Byte>, base: nat, src: nat, dest: nat, n: nat) {
    forall x: nat | dest <= x < dest + n :: At(m', base, x) == At(m, base, x - dest + src)
  }

  lemma CopiedToSelf(m: seq<Byte>, base: nat, a: nat, n: nat)
    ensures CopiedTo(m, m, base, a, a, n)
  {
    forall x: nat | a <= x < a + n ensures At(m, base, x) == At(m, base, x - a + a) { assert x - a + a == x; }
  }

  // ---- Lists in memory

  /** No heap yet, or a list that tiles it. */
  ghost predicate WellFormed(bs: seq<Block>) {
    bs == [] || Tiling(HEADER, HEAP_SIZE, bs)
  }

  /** The blocks tile the region, and the bytes hold their headers. */
  ghost predicate InMemory(m: seq<Byte>, base: nat, bs: seq<Block>) {
    bs != [] && Span(HEADER, bs) == |m| && Linked(HEADER, base, HeadersOf(m, base), bs)
  }

  lemma BlockInRegion(m: seq<Byte>, base: nat, bs: seq<Block>, i: nat)
    requires Span(HEADER, bs) == |m| && i < |bs|
    ensures var a := Addr(HEADER, base, bs, i);
            base <= a && HasHeader(m, base, a) && a + HEADER + bs[i].size <= base + |m|
  {
    AddrMonotone(HEADER, base, bs, i, |bs|);
    assert bs[..|bs|] == bs;
  }

  /** If only bytes of blocks `i` to `i + k` change, and those then hold the headers of `k'` blocks that replace them,
  the list is in memory again. */
  lemma RelinkMemory(m: seq<Byte>, m': seq<Byte>, base: nat, bs: seq<Block>, bs': seq<Block>, i: nat, k: nat, k': nat)
    requires InMemory(m, base, bs) && 0 < k && 0 < k' && i + k <= |bs| && i + k' <= |bs'|
    requires bs[..i] == bs'[..i] && bs[i + k..] == bs'[i + k'..] && Span(HEADER, bs) == Span(HEADER, bs')
    requires SameOutside(m, m', base, Addr(HEADER, base, bs, i), Addr(HEADER, base, bs, i + k))
    requires forall j | i <= j < i + k' :: LinkedAt(HEADER, base, HeadersOf(m', base), bs', j)
    ensures InMemory(m', base, bs')
  {
    var headers, headers' := HeadersOf(m, base), HeadersOf(m', base);
    forall j | 0 <= j < |bs| && (j < i || i + k <= j) ensures SameHeader(HEADER, base, headers, headers', bs, j) {
      BlockInRegion(m, base, bs, j);
      if j < i { AddrMonotone(HEADER, base, bs, j, i); }
      if i + k < j { AddrMonotone(HEADER, base, bs, i + k, j); }
      HeaderKept(m, m', base, Addr(HEADER, base, bs, j), Addr(HEADER, base, bs, i), Addr(HEADER, base, bs, i + k));
    }
    RelinkBlocks(HEADER, base, headers, headers', bs, bs', i, k, k');
  }

  /** The payload bytes of these blocks are the same. */
  ghost predicate Preserved(m: seq<Byte>, m': seq<Byte>, base: nat, live: map<nat, nat>) {
    forall a, x | a in live && a + HEADER <= x < a + HEADER + live[a] :: At(m', base, x) == At(m, base, x)
  }

  /** A change within blocks `i` to `i + k` preserves the payloads of all other live blocks. */
  lemma OthersPreserved(m: seq<Byte>, m': seq<Byte>, base: nat, bs: seq<Block>, i: nat, k: nat, live: map<nat, nat>)
    requires i + k <= |bs|
    requires SameOutside(m, m', base, Addr(HEADER, base, bs, i), Addr(HEADER, base, bs, i + k))
    requires forall a | a in live :: a in Live(HEADER, base, bs) && live[a] == Live(HEADER, base, bs)[a]
    requires forall j | i <= j < i + k :: Addr(HEADER, base, bs, j) !in live
    ensures Preserved(m, m', base, live)
  {
    forall a, x | a in live && a + HEADER <= x < a + HEADER + live[a] ensures At(m', base, x) == At(m, base, x) {
      var j := IndexOf(HEADER, base, bs, a);
      LiveAt(HEADER, base, bs, j);
      AddrStep(HEADER, base, bs, j);
      if j < i {
        if j + 1 < i { AddrMonotone(HEADER, base, bs, j + 1, i); }
      } else if i + k < j {
        AddrMonotone(HEADER, base, bs, i + k, j);
      }
    }
  }

  /** Writing a block's header changes no payload. */
  lemma HeaderWritePreserves(m: seq<Byte>, m': seq<Byte>, base: nat, bs: seq<Block>, i: nat)
    requires i < |bs|
    requires var a := Addr(HEADER, base, bs, i); SameOutside(m, m', base, a, a + HEADER)
    ensures Preserved(m, m', base, Live(HEADER, base, bs))
  {
    var live := Live(HEADER, base, bs);
    forall a, x | a in live && a + HEADER <= x < a + HEADER + live[a] ensures At(m', base, x) == At(m, base, x) {
      var j := IndexOf(HEADER, base, bs, a);
      LiveAt(HEADER, base, bs, j);
      if j < i { AddrMonotone(HEADER, base, bs, j, i); } else if i < j { AddrMonotone(HEADER, base, bs, i, j); }
    }
  }

  /** One live block more, at pointer `p`; it holds `size` bytes exactly if rounding the size up does not wrap. */
  ghost predicate Grown(live: map<nat, nat>, live': map<nat, nat>, p: nat, size: nat) {
    && p >= HEADER && p - HEADER !in live && p - HEADER in live'
    && live' == live[p - HEADER := live'[p - HEADER]]
    && (live'[p - HEADER] >= size <==> size <= WORD - 8)
  }

  /** What a move leaves behind: `m` before, `m1` after `malloc`, `m2` after the copy, `m3` after `free`. */
  lemma MoveCopies(m: seq<Byte>, m1: seq<Byte>, m2: seq<Byte>, m3: seq<Byte>, base: nat, live: map<nat, nat>,
                   live1: map<nat, nat>, p: nat, q: nat, size: nat)
    requires p >= HEADER && p - HEADER in live && live[p - HEADER] < size <= WORD - 8 && Grown(live, live1, q, size)
    requires Preserved(m, m1, base, live) && CopiedTo(m1, m2, base, p, q, live[p - HEADER])
    requires Preserved(m1, m2, base, live1 - {q - HEADER}) && Preserved(m2, m3, base, live1 - {p - HEADER})
    ensures CopiedTo(m, m3, base, p, q, live[p - HEADER])
    ensures Preserved(m, m3, base, live - {p - HEADER})
  {
    PreservedTransitive(m, m1, m2, base, live, live1 - {q - HEADER}, live);
    PreservedTransitive(m, m2, m3, base, live, live1 - {p - HEADER}, live - {p - HEADER});
    forall x: nat | q <= x < q + live[p - HEADER] ensures At(m3, base, x) == At(m, base, x - q + p) {
      assert q - HEADER in live1 - {p - HEADER};
      assert At(m3, base, x) == At(m2, base, x);
      assert At(m1, base, x - q + p) == At(m, base, x - q + p);
    }
  }

  /** What `realloc(p, size)` returning `q` leaves behind: the old contents as far as both sizes go, every other live
  block, and everything if the block stays or the call fails. */
  ghost predicate Resized(m: seq<Byte>, m': seq<Byte>, base: nat, live: map<nat, nat>, p: nat, q: nat, size: nat)
    requires p >= HEADER && p - HEADER in live
  {
    && (q != 0 ==> CopiedTo(m, m', base, p, q, if live[p - HEADER] < size then live[p - HEADER] else size))
    && (q == p || q == 0 ==> m' == m)
    && Preserved(m, m', base, live - {p - HEADER})
  }

  lemma ResizedInPlace(m: seq<Byte>, base: nat, live: map<nat, nat>, p: nat, size: nat)
    requires p >= HEADER && p - HEADER in live
    ensures Resized(m, m, base, live, p, p, size) && Resized(m, m, base, live, p, 0, size)
  {
    CopiedToSelf(m, base, p, if live[p - HEADER] < size then live[p - HEADER] else size);
  }

  lemma PreservedTransitive(m: seq<Byte>, m1: seq<Byte>, m2: seq<Byte>, base: nat, live: map<nat, nat>,
                            live': map<nat, nat>, common: map<nat, nat>)
    requires Preserved(m, m1, base, live) && Preserved(m1, m2, base, live')
    requires forall a | a in common :: a in live && live[a] == common[a] && a in live' && live'[a] == common[a]
    ensures Preserved(m, m2, base, common)
  {
    forall a, x | a in common && a + HEADER <= x < a + HEADER + common[a] ensures At(m2, base, x) == At(m, base, x) {
      assert a in live && a in live';
    }
  }

  /** Block `i` has been put to use: its header says so, and a second one follows if it has been split. */
  ghost predicate HoldsTaken(m': seq<Byte>, base: nat, bs: seq<Block>, i: nat, size: nat, least: nat)
    requires i < |bs| && size <= bs[i].size
  {
    var a := Addr(HEADER, base, bs, i);
    && HasHeader(m', base, a)
    && if bs[i].size >= size + HEADER + least
       then var next := a + HEADER + size;
         && HasHeader(m', base, next)
         && HeaderAt(m', base, a) == Header(size, false, next)
         && HeaderAt(m', base, next) == Header(bs[i].size - size - HEADER, true, Pointer(HEADER, base, bs, i + 1))
       else HeaderAt(m', base, a) == Header(bs[i].size, false, Pointer(HEADER, base, bs, i + 1))
  }

  /** Where the blocks are after putting block `i` to use. */
  lemma TakenPlaces(base: nat, bs: seq<Block>, i: nat, size: nat, least: nat)
    requires i < |bs| && bs[i].free && size <= bs[i].size
    ensures var bs', k := Taken(HEADER, least, bs, i, size), |TakenBlocks(HEADER, least, bs[i], size)|;
            && Span(HEADER, bs') == Span(HEADER, bs) && i + k <= |bs'|
            && bs[..i] == bs'[..i] && bs[i + 1..] == bs'[i + k..]
            && Addr(HEADER, base, bs', i) == Addr(HEADER, base, bs, i)
            && Addr(HEADER, base, bs', i + 1) == Addr(HEADER, base, bs, i) + HEADER + bs'[i].size
            && Pointer(HEADER, base, bs', i + k) == Pointer(HEADER, base, bs, i + 1)
  {
    var bs', k := Taken(HEADER, least, bs, i, size), |TakenBlocks(HEADER, least, bs[i], size)|;
    TakenIsSound(HEADER, least, base, bs, i, size);
    assert bs[i + 1..] == bs'[i + k..] && bs[..i] == bs'[..i];
    SameSuffix(HEADER, base, bs, i + 1, bs', i + k);
    SamePrefix(HEADER, base, bs, bs', i, i);
    AddrStep(HEADER, base, bs', i);
  }

  /** So the list is in memory again. */
  lemma TakenInMemory(m: seq<Byte>, m': seq<Byte>, base: nat, bs: seq<Block>, i: nat, size: nat, least: nat)
    requires InMemory(m, base, bs) && i < |bs| && bs[i].free && size <= bs[i].size
    requires var a := Addr(HEADER, base, bs, i); SameOutside(m, m', base, a, a + HEADER + bs[i].size)
    requires HoldsTaken(m', base, bs, i, size, least)
    ensures InMemory(m', base, Taken(HEADER, least, bs, i, size))
  {
    var bs', k := Taken(HEADER, least, bs, i, size), |TakenBlocks(HEADER, least, bs[i], size)|;
    AddrStep(HEADER, base, bs, i);
    TakenPlaces(base, bs, i, size, least);
    TakenLinked(m', base, bs, i, size, least);
    RelinkMemory(m, m', base, bs, bs', i, 1, k);
  }

  lemma TakenLinked(m': seq<Byte>, base: nat, bs: seq<Block>, i: nat, size: nat, least: nat)
    requires i < |bs| && bs[i].free && size <= bs[i].size && HoldsTaken(m', base, bs, i, size, least)
    ensures var bs', k := Taken(HEADER, least, bs, i, size), |TakenBlocks(HEADER, least, bs[i], size)|;
            forall j | i <= j < i + k :: LinkedAt(HEADER, base, HeadersOf(m', base), bs', j)
  {
    TakenPlaces(base, bs, i, size, least);
  }

  lemma FreedInMemory(m: seq<Byte>, m': seq<Byte>, base: nat, bs: seq<Block>, i: nat)
    requires InMemory(m, base, bs) && i < |bs|
    requires var a := Addr(HEADER, base, bs, i);
             && SameOutside(m, m', base, a, a + HEADER) && HasHeader(m', base, a)
             && HeaderAt(m', base, a) == Header(bs[i].size, true, Pointer(HEADER, base, bs, i + 1))
    ensures var bs' := bs[i := Block(bs[i].size, true)];
            InMemory(m', base, bs') && Addr(HEADER, base, bs', i) == Addr(HEADER, base, bs, i)
  {
    var bs' := bs[i := Block(bs[i].size, true)];
    SameSizes(HEADER, bs, bs');
    assert bs[i + 1..] == bs'[i + 1..] && bs[..i] == bs'[..i];
    AddrStep(HEADER, base, bs, i);
    SameSuffix(HEADER, base, bs, i + 1, bs', i + 1);
    assert LinkedAt(HEADER, base, HeadersOf(m', base), bs', i);
    RelinkMemory(m, m', base, bs, bs', i, 1, 1);
  }

  lemma MergedInMemory(m: seq<Byte>, m': seq<Byte>, base: nat, bs: seq<Block>, i: nat)
    requires InMemory(m, base, bs) && i + 1 < |bs|
    requires var a := Addr(HEADER, base, bs, i);
             && SameOutside(m, m', base, a, a + HEADER) && HasHeader(m', base, a)
             && HeaderAt(m', base, a) ==
                Header(bs[i].size + HEADER + bs[i + 1].size, bs[i].free, Pointer(HEADER, base, bs, i + 2))
    ensures InMemory(m', base, Merged(HEADER, bs, i))
    ensures Addr(HEADER, base, Merged(HEADER, bs, i), i) == Addr(HEADER, base, bs, i)
  {
    var bs' := Merged(HEADER, bs, i);
    MergedSpan(HEADER, bs, i);
    AddrStep(HEADER, base, bs, i);
    AddrStep(HEADER, base, bs, i + 1);
    assert bs[i + 2..] == bs'[i + 1..] && bs[..i] == bs'[..i];
    SameSuffix(HEADER, base, bs, i + 2, bs', i + 1);
    SamePrefix(HEADER, base, bs, bs', i, i);
    assert LinkedAt(HEADER, base, HeadersOf(m', base), bs', i);
    RelinkMemory(m, m', base, bs, bs', i, 2, 1);
  }

  /** Writing to a block's payload leaves the list alone. */
  lemma PayloadWrite(m: seq<Byte>, m': seq<Byte>, base: nat, bs: seq<Block>, i: nat)
    requires InMemory(m, base, bs) && i < |bs|
    requires var a := Addr(HEADER, base, bs, i) + HEADER; SameOutside(m, m', base, a, a + bs[i].size)
    ensures InMemory(m', base, bs)
  {
    AddrStep(HEADER, base, bs, i);
    var a := Addr(HEADER, base, bs, i);
    assert LinkedAt(HEADER, base, HeadersOf(m, base), bs, i);
    BlockInRegion(m, base, bs, i);
    HeaderKept(m, m', base, a, a + HEADER, a + HEADER + bs[i].size);
    assert LinkedAt(HEADER, base, HeadersOf(m', base), bs, i);
    RelinkMemory(m, m', base, bs, bs, i, 1, 1);
  }
}
