/** Files on a FAT32 volume as the driver sees them (kernel/fs/fat32.c): bytes found by following a cluster chain. */
module ClusterChain {
  import opened Arithmetic
  import opened ByteStream
  import opened ByteType

  const END_OF_CHAIN: nat := 0x0FFF_FFF8

  datatype Volume = Volume(fat: seq<nat>, disk: seq<seq<Byte>>, dataStart: nat, sectorsPerCluster: nat,
                           bytesPerSector: nat)

  function ClusterSize(v: Volume): nat {
    v.sectorsPerCluster * v.bytesPerSector
  }

  function FirstSector(v: Volume, cluster: nat): nat
    requires cluster >= 2
  {
    v.dataStart + (cluster - 2) * v.sectorsPerCluster
  }

  /** The cluster is in the table and its sectors are on the disk. */
  ghost predicate InVolume(v: Volume, cluster: nat) {
    && 2 <= cluster < |v.fat|
    && FirstSector(v, cluster) + v.sectorsPerCluster <= |v.disk| <= 0x1_0000_0000
    && forall s | 0 <= s < |v.disk| :: |v.disk[s]| == v.bytesPerSector
  }

  /** Cluster number `n` of the chain, or a value from `END_OF_CHAIN` up once the chain has ended */
  function ClusterAt(v: Volume, start: nat, n: nat): nat {
    if n == 0 then start
    else
      var cluster := ClusterAt(v, start, n - 1);
      if cluster < END_OF_CHAIN && cluster < |v.fat| then v.fat[cluster] else cluster
  }

  /** What the driver relies on: clusters are not empty, and the chain stays in the volume. It may be cyclic. */
  ghost predicate ValidChain(v: Volume, start: nat) {
    ClusterSize(v) > 0 && forall n: nat :: ClusterAt(v, start, n) < END_OF_CHAIN ==> InVolume(v, ClusterAt(v, start, n))
  }

  /** `n` sectors one after another */
  function Sectors(disk: seq<seq<Byte>>, first: nat, n: nat): seq<Byte>
    requires first + n <= |disk|
  {
    if n == 0 then [] else Sectors(disk, first, n - 1) + disk[first + n - 1]
  }

  lemma {:induction false} SectorsLength(v: Volume, first: nat, n: nat)
    requires first + n <= |v.disk| && forall s | 0 <= s < |v.disk| :: |v.disk[s]| == v.bytesPerSector
    ensures |Sectors(v.disk, first, n)| == n * v.bytesPerSector
  {
    if n > 0 { SectorsLength(v, first, n - 1); }
  }

  ghost function ClusterBytes(v: Volume, cluster: nat): (bytes: seq<Byte>)
    requires InVolume(v, cluster)
    ensures |bytes| == ClusterSize(v)
  {
    SectorsLength(v, FirstSector(v, cluster), v.sectorsPerCluster);
    Sectors(v.disk, FirstSector(v, cluster), v.sectorsPerCluster)
  }

  /** The chain has a byte at this position. */
  predicate Covered(v: Volume, start: nat, pos: nat)
    requires ClusterSize(v) > 0
  {
    ClusterAt(v, start, pos / ClusterSize(v)) < END_OF_CHAIN
  }

  ghost function ByteAt(v: Volume, start: nat, pos: nat): Byte
    requires ValidChain(v, start) && Covered(v, start, pos)
  {
    ClusterBytes(v, ClusterAt(v, start, pos / ClusterSize(v)))[pos % ClusterSize(v)]
  }

  /** The concatenated clusters */
  ghost function Contents(v: Volume, start: nat): Stream
    requires ValidChain(v, start)
  {
    Stream((pos: nat) => Covered(v, start, pos),
           (pos: nat) => if Covered(v, start, pos) then ByteAt(v, start, pos) else 0)
  }

  // ---- Facts about chains

  lemma {:induction false} EndIsFinal(v: Volume, start: nat, m: nat, n: nat)
    requires m <= n && ClusterAt(v, start, m) >= END_OF_CHAIN
    ensures ClusterAt(v, start, n) == ClusterAt(v, start, m)
    decreases n
  {
    if m < n { EndIsFinal(v, start, m, n - 1); }
  }

  lemma DivideMonotone(a: nat, b: nat, d: nat)
    requires a <= b && d > 0
    ensures a / d <= b / d
  {
    var k := a / d - b / d;
    assert a == d * (a / d) + a % d && b == d * (b / d) + b % d;
    assert d * (a / d) - d * (b / d) == d * k;
    assert k >= 1 ==> d * k >= d;
  }

  lemma CoveredBelow(v: Volume, start: nat, a: nat, b: nat)
    requires ClusterSize(v) > 0 && a <= b && Covered(v, start, b)
    ensures Covered(v, start, a)
  {
    DivideMonotone(a, b, ClusterSize(v));
    if !Covered(v, start, a) { EndIsFinal(v, start, a / ClusterSize(v), b / ClusterSize(v)); }
  }

  lemma ContentsPrefixClosed(v: Volume, start: nat)
    requires ValidChain(v, start)
    ensures PrefixClosed(Contents(v, start))
  {
    forall a: nat, b: nat | a <= b && Contents(v, start).covered(b) ensures Contents(v, start).covered(a) {
      CoveredBelow(v, start, a, b);
    }
  }

  lemma PositionInCluster(v: Volume, start: nat, index: nat, offset: nat)
    requires ValidChain(v, start) && offset < ClusterSize(v)
    ensures var cluster, pos := ClusterAt(v, start, index), index * ClusterSize(v) + offset;
            && (Covered(v, start, pos) <==> cluster < END_OF_CHAIN)
            && (cluster < END_OF_CHAIN ==> ByteAt(v, start, pos) == ClusterBytes(v, cluster)[offset])
  {
    DivModUnique(index * ClusterSize(v) + offset, ClusterSize(v), index, offset);
  }

  /** Position `pos` is byte `offset` of cluster number `index`. */
  ghost predicate IsAt(v: Volume, pos: nat, index: nat, offset: nat) {
    pos == index * ClusterSize(v) + offset && offset < ClusterSize(v)
  }

  lemma DividedIsAt(v: Volume, pos: nat)
    requires ClusterSize(v) > 0
    ensures IsAt(v, pos, pos / ClusterSize(v), pos % ClusterSize(v))
  {
    var d := ClusterSize(v);
    assert pos == d * (pos / d) + pos % d;
  }

  lemma NextClusterIsAt(v: Volume, pos: nat, index: nat, offset: nat)
    requires IsAt(v, pos, index, offset)
    ensures IsAt(v, pos + (ClusterSize(v) - offset), index + 1, 0)
  {
    assert (index + 1) * ClusterSize(v) == index * ClusterSize(v) + ClusterSize(v);
  }

  /** What the loop over clusters uses of the chain */
  lemma ChainStep(v: Volume, start: nat, pos: nat, index: nat, offset: nat, n: nat)
    requires ValidChain(v, start) && IsAt(v, pos, index, offset) && offset + n <= ClusterSize(v)
    ensures var cluster := ClusterAt(v, start, index);
            if cluster < END_OF_CHAIN
            then && InVolume(v, cluster) && v.fat[cluster] == ClusterAt(v, start, index + 1)
                 && Bytes(Contents(v, start), pos, n) == ClusterBytes(v, cluster)[offset..offset + n]
            else Bytes(Contents(v, start), pos, n) == []
  {
    if ClusterAt(v, start, index) < END_OF_CHAIN {
      BytesInCluster(v, start, index, offset, n);
    } else {
      PositionInCluster(v, start, index, offset);
    }
  }

  /** A piece that lies in one cluster */
  lemma BytesInCluster(v: Volume, start: nat, index: nat, offset: nat, n: nat)
    requires ValidChain(v, start) && ClusterAt(v, start, index) < END_OF_CHAIN && offset + n <= ClusterSize(v)
    ensures Bytes(Contents(v, start), index * ClusterSize(v) + offset, n) ==
            ClusterBytes(v, ClusterAt(v, start, index))[offset..offset + n]
  {
    var s, pos := Contents(v, start), index * ClusterSize(v) + offset;
    var bytes := ClusterBytes(v, ClusterAt(v, start, index));
    var piece := bytes[offset..offset + n];
    forall k: nat | k < n ensures Holds(s, pos, piece, k) {
      PositionInCluster(v, start, index, offset + k);
      assert index * ClusterSize(v) + (offset + k) == pos + k;
    }
    BytesAreThese(s, pos, piece);
  }

  // ---- Where the bytes are on the disk

  /** The file's first clusters: each is named by the table entry of the one before. */
  ghost predicate FirstClusters(v: Volume, start: nat, clusters: seq<nat>) {
    && clusters != [] && clusters[0] == start
    && forall k | 0 <= k < |clusters| ::
         && clusters[k] < 0x0FFF_FFF8 && clusters[k] < |v.fat|
         && (k + 1 < |clusters| ==> clusters[k + 1] == v.fat[clusters[k]])
  }

  lemma {:induction false} FirstClustersAre(v: Volume, start: nat, clusters: seq<nat>, k: nat)
    requires FirstClusters(v, start, clusters) && k < |clusters|
    ensures ClusterAt(v, start, k) == clusters[k]
  {
    if k > 0 { FirstClustersAre(v, start, clusters, k - 1); }
  }

  lemma {:induction false} SectorOf(v: Volume, first: nat, n: nat, s: nat, o: nat)
    requires first + n <= |v.disk| && forall s | 0 <= s < |v.disk| :: |v.disk[s]| == v.bytesPerSector
    requires s < n && o < v.bytesPerSector
    ensures s * v.bytesPerSector + o < |Sectors(v.disk, first, n)|
    ensures Sectors(v.disk, first, n)[s * v.bytesPerSector + o] == v.disk[first + s][o]
    decreases n
  {
    SectorsLength(v, first, n - 1);
    if s < n - 1 { SectorOf(v, first, n - 1, s, o); }
  }

  /** Byte `o` of sector `s` of the file's cluster `index` is at the position that counts the sectors before it, and it
  is read from the sector that counts the clusters from number 2 on from the start of the data. */
  lemma ByteOnDisk(v: Volume, start: nat, clusters: seq<nat>, index: nat, s: nat, o: nat)
    requires ValidChain(v, start) && FirstClusters(v, start, clusters) && index < |clusters|
    requires s < v.sectorsPerCluster && o < v.bytesPerSector
    ensures var pos := (index * v.sectorsPerCluster + s) * v.bytesPerSector + o;
            var sector := v.dataStart + (clusters[index] - 2) * v.sectorsPerCluster + s;
            && Contents(v, start).covered(pos) && 0 <= sector < |v.disk| && o < |v.disk[sector]|
            && Contents(v, start).byteAt(pos) == v.disk[sector][o]
  {
    FirstClustersAre(v, start, clusters, index);
    assert InVolume(v, ClusterAt(v, start, index));
    SectorOf(v, FirstSector(v, clusters[index]), v.sectorsPerCluster, s, o);
    BelowProduct(v.bytesPerSector, v.sectorsPerCluster, s);
    PositionInCluster(v, start, index, s * v.bytesPerSector + o);
    Flattened(index, v.sectorsPerCluster, s, v.bytesPerSector);
  }

  lemma Flattened(index: nat, sectors: nat, s: nat, bytes: nat)
    ensures (index * sectors + s) * bytes == index * (sectors * bytes) + s * bytes
  {
    Associates(index, sectors, bytes);
    Distributes(bytes, index * sectors, s);
  }

  /** Behind the last cluster, whose entry marks the end, there is nothing. */
  lemma NothingBehind(v: Volume, start: nat, clusters: seq<nat>, pos: nat)
    requires ValidChain(v, start) && FirstClusters(v, start, clusters)
    requires v.fat[clusters[|clusters| - 1]] >= 0x0FFF_FFF8
    requires pos >= |clusters| * (v.sectorsPerCluster * v.bytesPerSector)
    ensures !Contents(v, start).covered(pos)
  {
    FirstClustersAre(v, start, clusters, |clusters| - 1);
    PositionInCluster(v, start, |clusters|, 0);
    if Covered(v, start, pos) { CoveredBelow(v, start, |clusters| * ClusterSize(v), pos); }
  }
}
