/** Reading files from a FAT32 volume (kernel/fs/fat32.c:213-257, kernel/fs/vfs.c:147-160). */
module Fat32 {
  import opened ByteStream
  import opened ByteType
  import opened ClusterChain

  /** What a read relies on, unless it starts at or after the end of the file: a first cluster and a chain in the
  volume. */
  ghost predicate Readable(v: Volume, ino: nat, size: nat) {
    size < 0x1_0000_0000 && (size > 0 ==> ino < END_OF_CHAIN && ValidChain(v, ino))
  }

  /** Read the sectors of a cluster one by one. */
  method ReadCluster(v: Volume, cluster: nat) returns (data: seq<Byte>)
    requires InVolume(v, cluster)
    ensures data == ClusterBytes(v, cluster)
  {
    var sector := v.dataStart + (cluster - 2) * v.sectorsPerCluster;
    data := [];
    var i := 0;
    while i < v.sectorsPerCluster
      invariant i <= v.sectorsPerCluster && data == Sectors(v.disk, FirstSector(v, cluster), i)
    {
      data := data + v.disk[sector + i];
      i := i + 1;
    }
  }

  /** Follow the chain to cluster number `index`, or to its end. */
  method SkipTo(v: Volume, ino: nat, index: nat) returns (cluster: nat)
    requires ino < END_OF_CHAIN && ValidChain(v, ino)
    ensures cluster == ClusterAt(v, ino, index)
  {
    cluster := ino;
    var i := 0;
    while i < index
      invariant i <= index && cluster == ClusterAt(v, ino, i) < END_OF_CHAIN
    {
      assert InVolume(v, ClusterAt(v, ino, i));
      cluster := v.fat[cluster];
      i := i + 1;
      if cluster >= END_OF_CHAIN {
        EndIsFinal(v, ino, i, index);
        return;
      }
    }
  }

  /** `fat32_read` fills the buffer with the bytes of the file from `offset` on, and leaves the rest of it alone. */
  method Read(v: Volume, ino: nat, size: nat, buf: array<Byte>, count: nat, offset: nat) returns (n: nat)
    requires Readable(v, ino, size) && offset < WORD && count < WORD && count <= buf.Length
    modifies buf
    ensures n <= count && buf[n..] == old(buf[n..])
    ensures offset >= size ==> n == 0
    ensures offset < size ==> buf[..n] == ReadBytes(Contents(v, ino), size, offset, count)
  {
    if offset >= size { return 0; }
    var want := count;
    if (offset + count) % WORD > size { want := size - offset; }
    var clusterSize := v.sectorsPerCluster * v.bytesPerSector;
    WantedIs(size, offset, count);
    DividedIsAt(v, offset);
    var cluster := SkipTo(v, ino, offset / clusterSize);
    if cluster >= END_OF_CHAIN {
      ChainStep(v, ino, offset, offset / clusterSize, offset % clusterSize, 0);
      assert !Contents(v, ino).covered(offset);
      assert buf[..0] == [];
      return 0;
    }
    n := ReadClusters(v, ino, buf, want, offset, cluster, offset / clusterSize, offset % clusterSize);
  }

  /** The read loop, from the cluster that holds the first byte. */
  method ReadClusters(v: Volume, ino: nat, buf: array<Byte>, count: nat, ghost offset: nat, first: nat,
                      ghost index: nat, skip: nat) returns (bytesRead: nat)
    requires ValidChain(v, ino) && count <= buf.Length && first == ClusterAt(v, ino, index)
    requires IsAt(v, offset, index, skip)
    modifies buf
    ensures bytesRead <= count && buf[..bytesRead] == Bytes(Contents(v, ino), offset, count)
    ensures buf[bytesRead..] == old(buf[bytesRead..])
  {
    ghost var s, i, before := Contents(v, ino), index, buf[..];
    var cluster, startOffset := first, skip;
    bytesRead := 0;
    while bytesRead < count && cluster < END_OF_CHAIN
      invariant bytesRead <= count && cluster == ClusterAt(v, ino, i)
      invariant bytesRead < count ==> IsAt(v, offset + bytesRead, i, startOffset)
      invariant buf[..bytesRead] == Bytes(s, offset, bytesRead) && buf[bytesRead..] == before[bytesRead..]
      decreases count - bytesRead
    {
      bytesRead := ReadPiece(v, ino, buf, bytesRead, count, offset, cluster, i, startOffset);
      startOffset := 0;
      cluster := v.fat[cluster];
      i := i + 1;
    }
    if bytesRead < count {
      EndOfBytes(v, ino, offset, bytesRead, count, i, startOffset);
    }
  }

  lemma EndOfBytes(v: Volume, ino: nat, offset: nat, n: nat, count: nat, i: nat, startOffset: nat)
    requires ValidChain(v, ino) && n < count && IsAt(v, offset + n, i, startOffset)
    requires ClusterAt(v, ino, i) >= END_OF_CHAIN && |Bytes(Contents(v, ino), offset, n)| == n
    ensures Bytes(Contents(v, ino), offset, count) == Bytes(Contents(v, ino), offset, n)
  {
    PositionInCluster(v, ino, i, startOffset);
    assert !Contents(v, ino).covered(offset + n);
    BytesSplit(Contents(v, ino), offset, n, count - n);
  }

  /** The next `m` bytes of the file, which lie in one cluster */
  lemma NextPiece(v: Volume, ino: nat, offset: nat, n: nat, i: nat, startOffset: nat, m: nat)
    requires ValidChain(v, ino) && IsAt(v, offset + n, i, startOffset) && startOffset + m <= ClusterSize(v)
    requires ClusterAt(v, ino, i) < END_OF_CHAIN && |Bytes(Contents(v, ino), offset, n)| == n
    ensures var cluster := ClusterAt(v, ino, i);
            && InVolume(v, cluster) && v.fat[cluster] == ClusterAt(v, ino, i + 1)
            && Bytes(Contents(v, ino), offset, n + m)
               == Bytes(Contents(v, ino), offset, n) + ClusterBytes(v, cluster)[startOffset..startOffset + m]
  {
    ChainStep(v, ino, offset + n, i, startOffset, m);
    BytesSplit(Contents(v, ino), offset, n, m);
  }

  /** One turn of the loop: copy the part of a cluster that is wanted. */
  method ReadPiece(v: Volume, ino: nat, buf: array<Byte>, bytesRead: nat, count: nat, ghost offset: nat, cluster: nat,
                   ghost i: nat, startOffset: nat) returns (done: nat)
    requires ValidChain(v, ino) && bytesRead < count <= buf.Length && cluster == ClusterAt(v, ino, i) < END_OF_CHAIN
    requires IsAt(v, offset + bytesRead, i, startOffset)
    requires buf[..bytesRead] == Bytes(Contents(v, ino), offset, bytesRead)
    modifies buf
    ensures bytesRead < done <= count && (done < count ==> IsAt(v, offset + done, i + 1, 0))
    ensures buf[..done] == Bytes(Contents(v, ino), offset, done) && buf[done..] == old(buf[done..])
    ensures cluster < |v.fat| && v.fat[cluster] == ClusterAt(v, ino, i + 1)
  {
    var toRead := v.sectorsPerCluster * v.bytesPerSector - startOffset;
    NextClusterIsAt(v, offset + bytesRead, i, startOffset);
    if toRead > count - bytesRead { toRead := count - bytesRead; }
    NextPiece(v, ino, offset, bytesRead, i, startOffset, toRead);
    var clusterData := ReadCluster(v, cluster);
    CopyBytes(buf, bytesRead, clusterData[startOffset..startOffset + toRead]);
    done := bytesRead + toRead;
    assert offset + bytesRead + toRead == offset + done;
  }

  /** The copy loop. */
  method CopyBytes(buf: array<Byte>, at: nat, bytes: seq<Byte>)
    requires at + |bytes| <= buf.Length
    modifies buf
    ensures buf[..at] == old(buf[..at]) && buf[at..at + |bytes|] == bytes
    ensures buf[..at + |bytes|] == old(buf[..at]) + bytes
    ensures buf[at + |bytes|..] == old(buf[at + |bytes|..])
  {
    var i := 0;
    while i < |bytes|
      invariant i <= |bytes| && buf[..at] == old(buf[..at]) && buf[at..at + i] == bytes[..i]
      invariant buf[at + i..] == old(buf[at + i..])
    {
      assert old(buf[at + i..])[1..] == old(buf[at + i + 1..]);
      buf[at + i] := bytes[i];
      i := i + 1;
    }
    assert buf[..at + |bytes|] == buf[..at] + buf[at..at + |bytes|];
  }

  /** An open file: reads advance its offset. */
  class File {
    const v: Volume
    const ino: nat
    const size: nat
    var offset: nat

    ghost predicate Valid()
      reads this
    {
      Readable(v, ino, size) && offset < WORD
    }

    constructor (v: Volume, ino: nat, size: nat)
      requires Readable(v, ino, size)
      ensures Valid() && offset == 0 && this.v == v && this.ino == ino && this.size == size
    {
      this.v, this.ino, this.size, offset := v, ino, size, 0;
    }

    /** `vfs_read` */
    method ReadNext(buf: array<Byte>, count: nat) returns (n: nat)
      requires Valid() && count <= buf.Length && count < WORD
      modifies `offset, buf
      ensures Valid() && n <= count && offset == (old(offset) + n) % WORD && buf[n..] == old(buf[n..])
      ensures if old(offset) >= size then n == 0 else buf[..n] == ReadBytes(Contents(v, ino), size, old(offset), count)
    {
      n := Read(v, ino, size, buf, count, offset);
      if n > 0 { offset := (offset + n) % WORD; }
    }
  }
}
