/** Reading a file of known size from a stream of bytes that may end early (kernel/fs/fat32.c, kernel/fs/vfs.c). */
module ByteStream {
  import opened ByteType

  const WORD: nat := 0x1_0000_0000_0000_0000

  /** The positions that hold a byte, and the bytes */
  datatype Stream = Stream(covered: nat -> bool, byteAt: nat -> Byte)

  ghost predicate PrefixClosed(s: Stream) {
    forall a: nat, b: nat | a <= b && s.covered(b) :: s.covered(a)
  }

  /** Up to `n` bytes from position `pos` */
  function Bytes(s: Stream, pos: nat, n: nat): (bytes: seq<Byte>)
    ensures |bytes| <= n
    decreases n
  {
    if n == 0 || !s.covered(pos) then [] else [s.byteAt(pos)] + Bytes(s, pos + 1, n - 1)
  }

  /** Byte `k` of a piece that starts at `pos` */
  ghost predicate Holds(s: Stream, pos: nat, bytes: seq<Byte>, k: nat) {
    s.covered(pos + k) && k < |bytes| && bytes[k] == s.byteAt(pos + k)
  }

  /** The bytes are those of the positions, and there are fewer than asked for only if the stream ends there. */
  lemma {:induction false} BytesAre(s: Stream, pos: nat, n: nat)
    ensures |Bytes(s, pos, n)| < n ==> !s.covered(pos + |Bytes(s, pos, n)|)
    ensures forall k: nat | k < |Bytes(s, pos, n)| :: Holds(s, pos, Bytes(s, pos, n), k)
    decreases n
  {
    if n > 0 && s.covered(pos) {
      BytesAre(s, pos + 1, n - 1);
      var bytes, rest := Bytes(s, pos, n), Bytes(s, pos + 1, n - 1);
      assert pos + 1 + |rest| == pos + |bytes|;
      forall k: nat | k < |bytes| ensures Holds(s, pos, bytes, k) {
        if k > 0 {
          assert Holds(s, pos + 1, rest, k - 1);
          assert pos + 1 + (k - 1) == pos + k;
        }
      }
    }
  }

  lemma BytesAreThese(s: Stream, pos: nat, bytes: seq<Byte>)
    requires forall k: nat | k < |bytes| :: Holds(s, pos, bytes, k)
    ensures Bytes(s, pos, |bytes|) == bytes
  {
    var b := Bytes(s, pos, |bytes|);
    BytesAre(s, pos, |bytes|);
    assert |b| < |bytes| ==> Holds(s, pos, bytes, |b|);
    forall k: nat | k < |b| ensures b[k] == bytes[k] { assert Holds(s, pos, b, k) && Holds(s, pos, bytes, k); }
  }

  /** Bytes read in two pieces */
  lemma {:induction false} BytesSplit(s: Stream, pos: nat, m: nat, n: nat)
    ensures var bytes := Bytes(s, pos, m);
            Bytes(s, pos, m + n) == if |bytes| == m then bytes + Bytes(s, pos + m, n) else bytes
    decreases m
  {
    if m > 0 && s.covered(pos) {
      BytesSplit(s, pos + 1, m - 1, n);
      assert m - 1 + n == m + n - 1;
    }
  }

  // ---- Reading

  /** How many bytes `fat32_read` goes for: the clip at the end of the file is skipped when `offset + count` wraps. */
  function Wanted(size: nat, offset: nat, count: nat): nat {
    if offset >= size then 0
    else if (offset + count) % WORD > size then size - offset
    else count
  }

  /** The bytes that a read of a file of `size` bytes returns. */
  function ReadBytes(s: Stream, size: nat, offset: nat, count: nat): seq<Byte> {
    Bytes(s, offset, Wanted(size, offset, count))
  }

  lemma WantedIs(size: nat, offset: nat, count: nat)
    requires size < WORD && count < WORD
    ensures offset < size && offset + count < WORD ==>
              Wanted(size, offset, count) == if offset + count > size then size - offset else count
    ensures offset < size && offset + count >= WORD ==> Wanted(size, offset, count) == count > size - offset
  {
  }

  /** If the stream covers the file, a read returns the slice of the file clipped at its end, exactly if the sum
  `offset + count` does not wrap or nothing follows the file: after a wrap the read runs on past the end. */
  lemma ReadIsSlice(s: Stream, size: nat, offset: nat, count: nat)
    requires PrefixClosed(s) && offset < size && s.covered(size - 1)
    requires size < 0x1_0000_0000_0000_0000 && count < 0x1_0000_0000_0000_0000
    ensures var file := Bytes(s, 0, size);
            && |file| == size
            && (ReadBytes(s, size, offset, count)
                == file[offset..if offset + count > size then size else offset + count]
                <==> offset + count < 0x1_0000_0000_0000_0000 || !s.covered(size))
  {
    var want, end := Wanted(size, offset, count), if offset + count > size then size else offset + count;
    var file, read := Bytes(s, 0, size), Bytes(s, offset, want);
    BytesAre(s, 0, size);
    BytesAre(s, offset, want);
    WantedIs(size, offset, count);
    assert 0 + |file| == |file|;
    assert |read| < end - offset ==> offset + |read| <= size - 1;
    forall k: nat | k < end - offset ensures read[k] == file[offset + k] {
      assert Holds(s, offset, read, k) && Holds(s, 0, file, offset + k) && 0 + (offset + k) == offset + k;
    }
    assert read[..end - offset] == file[offset..end];
    if |read| > end - offset { assert Holds(s, offset, read, end - offset) && offset + (end - offset) == end; }
  }

  /** Two reads with an advancing offset return what one larger read returns. */
  lemma ReadsConcatenate(s: Stream, size: nat, offset: nat, m: nat, n: nat)
    requires size < 0x1_0000_0000_0000_0000 && offset + m + n < 0x1_0000_0000_0000_0000
    ensures var first := ReadBytes(s, size, offset, m);
            ReadBytes(s, size, offset, m + n) == first + ReadBytes(s, size, offset + |first|, n)
  {
    if offset < size {
      WantedIs(size, offset, m);
      WantedIs(size, offset, m + n);
      var w, total := Wanted(size, offset, m), Wanted(size, offset, m + n);
      var first := Bytes(s, offset, w);
      BytesSplit(s, offset, w, total - w);
      BytesAre(s, offset, w);
      if offset + w < size { WantedIs(size, offset + w, n); }
    }
  }
}
