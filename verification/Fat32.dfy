/** The disk as the driver sees it: a correct read of 512-byte sectors. */
module Disks {
  import opened Words

  const SECTOR_SIZE: nat := 512

  type Sector = s: seq<Byte> | |s| == SECTOR_SIZE witness seq(SECTOR_SIZE, _ => 0)

  type Disk = nat -> Sector

  /** `AHCI_READ_DMA_EXT`: `n` consecutive sectors from `lba`. */
  function ReadSectors(disk: Disk, lba: nat, n: nat): (s: seq<Byte>)
    ensures |s| == n * SECTOR_SIZE
  {
    if n == 0 then [] else ReadSectors(disk, lba, n - 1) + disk(lba + n - 1)
  }

  /** A slice that lies within one sector of a longer read can be taken from that sector alone. */
  lemma {:induction false} SliceOfSector(disk: Disk, lba: nat, n: nat, k: nat, from: nat, len: nat)
    requires k < n && from + len <= SECTOR_SIZE
    ensures (k + 1) * SECTOR_SIZE <= n * SECTOR_SIZE
    ensures ReadSectors(disk, lba, n)[k * SECTOR_SIZE + from..k * SECTOR_SIZE + from + len]
         == ReadSectors(disk, lba + k, 1)[from..from + len]
  {
    var front := ReadSectors(disk, lba, n - 1);
    if k < n - 1 {
      SliceOfSector(disk, lba, n - 1, k, from, len);
      assert (front + disk(lba + n - 1))[k * SECTOR_SIZE + from..k * SECTOR_SIZE + from + len]
          == front[k * SECTOR_SIZE + from..k * SECTOR_SIZE + from + len];
    } else {
      OneSector(disk, lba + k);
      assert (front + disk(lba + k))[k * SECTOR_SIZE + from..k * SECTOR_SIZE + from + len]
          == disk(lba + k)[from..from + len];
    }
  }

  lemma OneSector(disk: Disk, lba: nat)
    ensures ReadSectors(disk, lba, 1) == disk(lba)
  {
    assert ReadSectors(disk, lba, 0) == [];
  }
}

/** The boot sector and the sector arithmetic derived from it. */
module FatLayout {
  import opened Words
  import opened Disks

  const TWO_32: nat := 0x1_0000_0000
  const TWO_28: nat := 0x1000_0000
  const EOC_START: nat := 0x0FFF_FFF8

  /** The driver's `FAT32_Context`. */
  datatype Context = Context(
    fatStartLba: nat,
    dataRegionStartLba: nat,
    rootCluster: nat,
    sectorsPerCluster: nat,
    bytesPerSector: nat,
    clusterSizeInBytes: nat)

  /** The boot-sector fields that the driver uses. */
  datatype BootSector = BootSector(
    bytesPerSector: nat,
    sectorsPerCluster: nat,
    reservedSectors: nat,
    fatCopies: nat,
    sectorsPerFat: nat,
    rootCluster: nat)

  function ParseBootSector(s: Sector): BootSector {
    BootSector(FromLE(s[11..13]), s[13], FromLE(s[14..16]), s[16], FromLE(s[36..40]), FromLE(s[44..48]))
  }

  /** The sector holds the fields of `b` in little-endian order, at the offsets of the boot sector of a FAT32 volume. */
  ghost predicate HoldsBootSector(s: Sector, b: BootSector) {
    && b.bytesPerSector < 0x1_0000 && b.sectorsPerCluster < 256 && b.reservedSectors < 0x1_0000 && b.fatCopies < 256
    && b.sectorsPerFat < TWO_32 && b.rootCluster < TWO_32
    && s[11..13] == ToLE(b.bytesPerSector, 2) && s[13..14] == ToLE(b.sectorsPerCluster, 1)
    && s[14..16] == ToLE(b.reservedSectors, 2) && s[16..17] == ToLE(b.fatCopies, 1)
    && s[36..40] == ToLE(b.sectorsPerFat, 4) && s[44..48] == ToLE(b.rootCluster, 4)
  }

  /** Reading the boot sector gives back the fields that were written there. */
  lemma BootSectorReadBack(s: Sector, b: BootSector)
    requires HoldsBootSector(s, b)
    ensures ParseBootSector(s) == b
  {
    Widths();
    ReadBack(b.bytesPerSector, 2);
    ReadBack(b.reservedSectors, 2);
    ReadBack(b.sectorsPerFat, 4);
    ReadBack(b.rootCluster, 4);
    OneByte(s, 13, b.sectorsPerCluster);
    OneByte(s, 16, b.fatCopies);
  }

  lemma OneByte(s: Sector, i: nat, v: nat)
    requires i < SECTOR_SIZE && v < 256 && s[i..i + 1] == ToLE(v, 1)
    ensures s[i] == v
  {
    assert s[i..i + 1][0] == ToLE(v, 1)[0];
  }

  lemma Widths()
    ensures Pow256(2) == 0x1_0000 && Pow256(4) == TWO_32
  {
    assert Pow256(4) == 256 * (256 * Pow256(2));
  }

  /** Arithmetic on `uint32_t`. */
  function Wrap32(x: nat): nat {
    x % TWO_32
  }

  lemma NoWrap(x: nat)
    requires x < TWO_32
    ensures Wrap32(x) == x
  {
  }

  /** `init_fat32`: the sum and the product are 32 bits wide before they are widened. */
  function InitFat32(startLba: nat, b: BootSector): Context {
    var fatStart := Wrap32(startLba + b.reservedSectors);
    Context(
      fatStart,
      fatStart + Wrap32(b.fatCopies * b.sectorsPerFat),
      b.rootCluster,
      b.sectorsPerCluster,
      b.bytesPerSector,
      b.sectorsPerCluster * b.bytesPerSector)
  }

  /** `get_fat_sector_to_read`. */
  function FatSectorToRead(ctx: Context, cluster: nat): nat
    requires ctx.bytesPerSector > 0
  {
    Wrap32(cluster * 4) / ctx.bytesPerSector + ctx.fatStartLba
  }

  /** `cluster_to_lba`. */
  function ClusterToLba(ctx: Context, cluster: nat): nat {
    ctx.dataRegionStartLba + Wrap32((cluster - 2) % TWO_32 * ctx.sectorsPerCluster)
  }

  predicate IsDataCluster(cluster: nat) {
    2 <= cluster < EOC_START
  }

  function FatStart(startLba: nat, b: BootSector): nat {
    startLba + b.reservedSectors
  }

  function DataStart(startLba: nat, b: BootSector): nat {
    FatStart(startLba, b) + Times(b.fatCopies, b.sectorsPerFat)
  }

  function Times(x: nat, y: nat): nat {
    x * y
  }

  lemma Scaled(x: nat, y: nat, m: nat)
    requires x <= y
    ensures Times(x, m) <= Times(y, m)
  {
  }

  lemma OneMore(x: nat, m: nat)
    ensures Times(x + 1, m) == Times(x, m) + m
  {
  }

  /** A volume of `clusters` data clusters that ends within 2^32 sectors and whose FAT has an entry for each of them. */
  ghost predicate ValidVolume(startLba: nat, b: BootSector, clusters: nat) {
    && b.bytesPerSector == SECTOR_SIZE
    && 0 < b.sectorsPerCluster < 256
    && b.fatCopies > 0
    && clusters > 0
    && DataStart(startLba, b) + Times(clusters, b.sectorsPerCluster) <= TWO_32
    && (clusters + 2) * 4 <= b.sectorsPerFat * SECTOR_SIZE
    && clusters + 2 <= EOC_START
  }

  /** What `init_fat32` leaves in the driver context of a volume with 512-byte sectors. */
  predicate Usable(ctx: Context) {
    && ctx.bytesPerSector == SECTOR_SIZE
    && 0 < ctx.sectorsPerCluster < 256
    && ctx.clusterSizeInBytes == ctx.sectorsPerCluster * SECTOR_SIZE
  }

  /** On a valid volume `init_fat32` computes the exact positions of the FAT and of the data region. */
  lemma InitIsExact(startLba: nat, b: BootSector, clusters: nat)
    requires ValidVolume(startLba, b, clusters)
    ensures var ctx := InitFat32(startLba, b);
            && ctx.fatStartLba == FatStart(startLba, b)
            && ctx.dataRegionStartLba == DataStart(startLba, b)
            && ctx.sectorsPerCluster == b.sectorsPerCluster
            && Usable(ctx)
  {
    hide Wrap32;
    ClustersTakeSpace(clusters, b.sectorsPerCluster);
    NoWrap(startLba + b.reservedSectors);
    NoWrap(b.fatCopies * b.sectorsPerFat);
  }

  /** `init_fat32`: the context of the volume whose boot sector is at `startLba`. */
  function Mount(disk: Disk, startLba: nat): Context {
    InitFat32(startLba, ParseBootSector(disk(startLba)))
  }

  /** Mounting a valid volume finds its FAT and its data region where the boot sector's fields put them. */
  lemma MountIsExact(disk: Disk, startLba: nat, b: BootSector, clusters: nat)
    requires HoldsBootSector(disk(startLba), b) && ValidVolume(startLba, b, clusters)
    ensures var ctx := Mount(disk, startLba);
            && ctx.fatStartLba == startLba + b.reservedSectors
            && ctx.dataRegionStartLba == startLba + b.reservedSectors + b.fatCopies * b.sectorsPerFat
            && ctx.rootCluster == b.rootCluster
            && Usable(ctx)
  {
    BootSectorReadBack(disk(startLba), b);
    InitIsExact(startLba, b, clusters);
    hide ParseBootSector, Wrap32;
  }

  lemma ClustersTakeSpace(clusters: nat, spc: nat)
    requires clusters > 0 && spc > 0
    ensures Times(clusters, spc) > 0
  {
  }

  /** On a valid volume `cluster_to_lba` is exact for every cluster, and the cluster lies within the data region. */
  lemma ClusterArithmetic(startLba: nat, b: BootSector, clusters: nat, c: nat)
    requires ValidVolume(startLba, b, clusters) && 2 <= c < clusters + 2
    ensures var lba := ClusterToLba(InitFat32(startLba, b), c);
            && lba == DataStart(startLba, b) + Times(c - 2, b.sectorsPerCluster)
            && lba + b.sectorsPerCluster <= DataStart(startLba, b) + Times(clusters, b.sectorsPerCluster) <= TWO_32
  {
    InitIsExact(startLba, b, clusters);
    hide Wrap32, Times, InitFat32, DataStart;
    var spc := b.sectorsPerCluster;
    Scaled(c - 1, clusters, spc);
    OneMore(c - 2, spc);
    SmallProduct(c - 2, spc);
  }

  lemma SmallProduct(x: nat, m: nat)
    requires x < TWO_32 && Times(x, m) < TWO_32
    ensures Wrap32(x % TWO_32 * m) == Times(x, m)
  {
    assert x % TWO_32 == x;
    NoWrap(x * m);
  }

  /** Distinct clusters occupy disjoint sectors, and no cluster meets any copy of the FAT. */
  lemma ClustersDisjoint(startLba: nat, b: BootSector, clusters: nat, c: nat, d: nat, i: nat, j: nat, copy: nat, k: nat)
    requires ValidVolume(startLba, b, clusters)
    requires 2 <= c < clusters + 2 && 2 <= d < clusters + 2
    requires i < b.sectorsPerCluster && j < b.sectorsPerCluster
    requires copy < b.fatCopies && k < b.sectorsPerFat
    ensures var ctx := InitFat32(startLba, b);
            && (ClusterToLba(ctx, c) + i == ClusterToLba(ctx, d) + j ==> c == d && i == j)
            && ClusterToLba(ctx, c) + i != ctx.fatStartLba + Times(copy, b.sectorsPerFat) + k
  {
    InitIsExact(startLba, b, clusters);
    ClusterArithmetic(startLba, b, clusters, c);
    ClusterArithmetic(startLba, b, clusters, d);
    hide Wrap32, Times, InitFat32, ClusterToLba;
    var spc := b.sectorsPerCluster;
    if c < d {
      Scaled(c - 1, d - 2, spc);
      OneMore(c - 2, spc);
    } else if d < c {
      Scaled(d - 1, c - 2, spc);
      OneMore(d - 2, spc);
    }
    Scaled(copy + 1, b.fatCopies, b.sectorsPerFat);
    OneMore(copy, b.sectorsPerFat);
  }

  /** The FAT entry of a cluster lies in the first copy of the FAT, whole in one sector. */
  lemma FatArithmetic(startLba: nat, b: BootSector, clusters: nat, c: nat)
    requires ValidVolume(startLba, b, clusters) && c < clusters + 2
    ensures FatSectorToRead(InitFat32(startLba, b), c) == FatStart(startLba, b) + 4 * c / SECTOR_SIZE
    ensures 4 * c / SECTOR_SIZE < b.sectorsPerFat && 4 * c % SECTOR_SIZE + 4 <= SECTOR_SIZE
    ensures Wrap32(c * 4) == 4 * c
  {
    InitIsExact(startLba, b, clusters);
    hide Wrap32, InitFat32;
    NoWrap(c * 4);
    SectorOfByte(4 * c, b.sectorsPerFat);
    WordWithinSector(c);
  }

  lemma SectorOfByte(x: nat, sectors: nat)
    requires x < sectors * SECTOR_SIZE
    ensures x / SECTOR_SIZE < sectors
  {
  }

  lemma WordWithinSector(c: nat)
    ensures 4 * c % SECTOR_SIZE + 4 <= SECTOR_SIZE
  {
  }
}

/** The FAT as a linked list of clusters, and the reading of a chain. */
module FatChains {
  import opened Arith
  import opened Words
  import opened Disks
  import opened FatLayout
  import opened MemoryLoops

  /** The FAT entry that `get_next_cluster` reads; a driver context with 512-byte sectors. */
  function NextCluster(disk: Disk, ctx: Context, cluster: nat): (next: nat)
    requires ctx.bytesPerSector == SECTOR_SIZE
    ensures next < TWO_28
  {
    var offset := Wrap32(cluster * 4) % SECTOR_SIZE;
    FromLE(ReadSectors(disk, FatSectorToRead(ctx, cluster), 1)[offset / 4 * 4..offset / 4 * 4 + 4]) % TWO_28
  }

  method GetNextCluster(disk: Disk, ctx: Context, cluster: nat) returns (next: nat)
    requires ctx.bytesPerSector == SECTOR_SIZE
    ensures next == NextCluster(disk, ctx, cluster)
  {
    var fatSector := FatSectorToRead(ctx, cluster);
    var offsetInSector := Wrap32(cluster * 4) % ctx.bytesPerSector;
    var buffer := ReadSectors(disk, fatSector, 1);
    var index := offsetInSector / 4;
    next := FromLE(buffer[index * 4..index * 4 + 4]) % TWO_28;
  }

  /** The first copy of the FAT as one array of 28-bit entries. */
  function FatEntry(disk: Disk, startLba: nat, b: BootSector, cluster: nat): nat
    requires 4 * cluster + 4 <= b.sectorsPerFat * SECTOR_SIZE
  {
    FromLE(ReadSectors(disk, FatStart(startLba, b), b.sectorsPerFat)[4 * cluster..4 * cluster + 4]) % TWO_28
  }

  /** The sector-wise lookup is a lookup in the flat array. */
  lemma NextIsFatEntry(disk: Disk, startLba: nat, b: BootSector, clusters: nat, c: nat)
    requires ValidVolume(startLba, b, clusters) && c < clusters + 2
    ensures InitFat32(startLba, b).bytesPerSector == SECTOR_SIZE
    ensures NextCluster(disk, InitFat32(startLba, b), c) == FatEntry(disk, startLba, b, c)
  {
    FatArithmetic(startLba, b, clusters, c);
    InitIsExact(startLba, b, clusters);
    hide Wrap32, InitFat32, ReadSectors, FatSectorToRead, FromLE;
    var sector, offset := 4 * c / SECTOR_SIZE, 4 * c % SECTOR_SIZE;
    SliceOfSector(disk, FatStart(startLba, b), b.sectorsPerFat, sector, offset, 4);
    WordIndex(c);
  }

  /** An entry is the 32-bit little-endian word at that place without its four top bits. */
  lemma FatEntryMasks(disk: Disk, startLba: nat, b: BootSector, cluster: nat)
    requires 4 * cluster + 4 <= b.sectorsPerFat * SECTOR_SIZE
    ensures var word := FromLE(ReadSectors(disk, FatStart(startLba, b), b.sectorsPerFat)[4 * cluster..4 * cluster + 4]);
            FatEntry(disk, startLba, b, cluster) < TWO_28 && (word - FatEntry(disk, startLba, b, cluster)) % TWO_28 == 0
  {
    hide FromLE, ReadSectors;
  }

  lemma WordIndex(c: nat)
    ensures 4 * c % SECTOR_SIZE / 4 * 4 == 4 * c % SECTOR_SIZE
    ensures 4 * c / SECTOR_SIZE * SECTOR_SIZE + 4 * c % SECTOR_SIZE == 4 * c
  {
  }

  /** `chain` is the list of the clusters met from `start` until an end mark or an invalid number. */
  ghost predicate IsChain(disk: Disk, ctx: Context, start: nat, chain: seq<nat>)
    requires ctx.bytesPerSector == SECTOR_SIZE
    decreases |chain|
  {
    if chain == [] then !IsDataCluster(start)
    else IsDataCluster(start) && chain[0] == start && IsChain(disk, ctx, NextCluster(disk, ctx, start), chain[1..])
  }

  /** A cluster starts at most one chain. */
  lemma {:induction false} ChainUnique(disk: Disk, ctx: Context, start: nat, c1: seq<nat>, c2: seq<nat>)
    requires ctx.bytesPerSector == SECTOR_SIZE
    requires IsChain(disk, ctx, start, c1) && IsChain(disk, ctx, start, c2)
    ensures c1 == c2
    decreases |c1|
  {
    if c1 != [] {
      ChainUnique(disk, ctx, NextCluster(disk, ctx, start), c1[1..], c2[1..]);
      assert c1 == [start] + c1[1..] && c2 == [start] + c2[1..];
    }
  }

  /** Every later part of a chain is the chain of its first cluster. */
  lemma {:induction false} ChainSuffix(disk: Disk, ctx: Context, start: nat, chain: seq<nat>, i: nat)
    requires ctx.bytesPerSector == SECTOR_SIZE && IsChain(disk, ctx, start, chain) && i < |chain|
    ensures IsDataCluster(chain[i]) && IsChain(disk, ctx, chain[i], chain[i..])
    decreases |chain|
  {
    if i > 0 {
      ChainSuffix(disk, ctx, NextCluster(disk, ctx, start), chain[1..], i - 1);
      assert chain[1..][i - 1..] == chain[i..];
    } else {
      assert chain[0..] == chain;
    }
  }

  /** A chain that ends never visits a cluster twice. */
  lemma ChainIsAcyclic(disk: Disk, ctx: Context, start: nat, chain: seq<nat>, i: nat, j: nat)
    requires ctx.bytesPerSector == SECTOR_SIZE && IsChain(disk, ctx, start, chain)
    requires i < |chain| && j < |chain| && chain[i] == chain[j]
    ensures i == j
  {
    hide IsChain;
    ChainSuffix(disk, ctx, start, chain, i);
    ChainSuffix(disk, ctx, start, chain, j);
    ChainUnique(disk, ctx, chain[i], chain[i..], chain[j..]);
  }

  /** The variables of the reading loop: `currCluster` and `bufferWriteOffset`. */
  datatype Reading = Reading(cluster: nat, offset: nat)

  /** After `k` rounds of the reading loop, whether or not it should have stopped before. */
  function LoopAfter(disk: Disk, ctx: Context, start: nat, k: nat): Reading
    requires ctx.bytesPerSector == SECTOR_SIZE
  {
    if k == 0 then Reading(start, 0)
    else
      var r := LoopAfter(disk, ctx, start, k - 1);
      Reading(NextCluster(disk, ctx, r.cluster), r.offset + ctx.clusterSizeInBytes)
  }

  /** The loop, once entered at `start`, executes its round `k`. */
  ghost predicate Executes(disk: Disk, ctx: Context, start: nat, k: nat)
    requires ctx.bytesPerSector == SECTOR_SIZE
  {
    forall i: nat :: i <= k ==> IsDataCluster(LoopAfter(disk, ctx, start, i).cluster)
  }

  lemma {:induction false} AfterFirstRound(disk: Disk, ctx: Context, start: nat, k: nat)
    requires ctx.bytesPerSector == SECTOR_SIZE
    ensures LoopAfter(disk, ctx, start, k + 1).cluster
         == LoopAfter(disk, ctx, NextCluster(disk, ctx, start), k).cluster
  {
    hide NextCluster;
    if k == 0 {
      assert LoopAfter(disk, ctx, start, 0) == Reading(start, 0);
    } else {
      AfterFirstRound(disk, ctx, start, k - 1);
    }
  }

  lemma {:induction false} OffsetAfter(disk: Disk, ctx: Context, start: nat, k: nat)
    requires ctx.bytesPerSector == SECTOR_SIZE
    ensures LoopAfter(disk, ctx, start, k).offset == Times(k, ctx.clusterSizeInBytes)
  {
    hide NextCluster;
    if k > 0 {
      OffsetAfter(disk, ctx, start, k - 1);
      OneMore(k - 1, ctx.clusterSizeInBytes);
    }
  }

  lemma {:induction false} ChainUpTo(disk: Disk, ctx: Context, start: nat, k: nat) returns (chain: seq<nat>)
    requires ctx.bytesPerSector == SECTOR_SIZE && !IsDataCluster(LoopAfter(disk, ctx, start, k).cluster)
    ensures IsChain(disk, ctx, start, chain) && |chain| <= k
    decreases k
  {
    hide NextCluster;
    if IsDataCluster(start) {
      AfterFirstRound(disk, ctx, start, k - 1);
      var rest := ChainUpTo(disk, ctx, NextCluster(disk, ctx, start), k - 1);
      chain := [start] + rest;
      assert chain[1..] == rest;
    } else {
      chain := [];
    }
  }

  lemma {:induction false} ChainEnd(disk: Disk, ctx: Context, start: nat, chain: seq<nat>)
    requires ctx.bytesPerSector == SECTOR_SIZE && IsChain(disk, ctx, start, chain)
    ensures !IsDataCluster(LoopAfter(disk, ctx, start, |chain|).cluster)
    decreases |chain|
  {
    hide NextCluster;
    if chain != [] {
      ChainEnd(disk, ctx, NextCluster(disk, ctx, start), chain[1..]);
      AfterFirstRound(disk, ctx, start, |chain| - 1);
    }
  }

  /** A chain is never longer than the number of cluster numbers. */
  lemma ChainIsBounded(disk: Disk, ctx: Context, start: nat, chain: seq<nat>)
    requires ctx.bytesPerSector == SECTOR_SIZE && IsChain(disk, ctx, start, chain)
    ensures |chain| <= EOC_START - 2
  {
    hide IsChain, PageRange;
    forall i | 0 <= i < |chain| ensures IsDataCluster(chain[i]) {
      ChainSuffix(disk, ctx, start, chain, i);
    }
    forall i, j | 0 <= i < |chain| && 0 <= j < |chain| && chain[i] == chain[j] ensures i == j {
      ChainIsAcyclic(disk, ctx, start, chain, i, j);
    }
    DistinctCount(chain);
    var numbers := PageRange(2, EOC_START - 2);
    PageRangeSize(2, EOC_START - 2);
    InRange(chain);
    SubsetSize(Members(chain), numbers);
  }

  function Members(s: seq<nat>): set<nat> {
    set x | x in s
  }

  lemma InRange(chain: seq<nat>)
    requires forall i :: 0 <= i < |chain| ==> IsDataCluster(chain[i])
    ensures Members(chain) <= PageRange(2, EOC_START - 2)
  {
  }

  lemma {:induction false} DistinctCount(s: seq<nat>)
    requires forall i, j :: 0 <= i < |s| && 0 <= j < |s| && s[i] == s[j] ==> i == j
    ensures |Members(s)| == |s|
  {
    if s == [] {
      assert Members(s) == {};
    } else {
      var n := |s| - 1;
      DistinctCount(s[..n]);
      assert s == s[..n] + [s[n]];
      assert Members(s) == Members(s[..n]) + {s[n]};
      assert s[n] !in Members(s[..n]);
    }
  }

  /** The reading loop ends exactly when it meets an end mark within as many rounds as there are cluster numbers. */
  lemma LoopEndsIff(disk: Disk, ctx: Context, start: nat)
    requires ctx.bytesPerSector == SECTOR_SIZE
    ensures (exists chain :: IsChain(disk, ctx, start, chain))
       <==> (exists k: nat :: k <= EOC_START - 2 && !Executes(disk, ctx, start, k))
    ensures (exists k: nat :: !Executes(disk, ctx, start, k))
       <==> (exists k: nat :: k <= EOC_START - 2 && !Executes(disk, ctx, start, k))
  {
    hide IsChain, LoopAfter, IsDataCluster;
    if k: nat :| !Executes(disk, ctx, start, k) {
      var i: nat :| i <= k && !IsDataCluster(LoopAfter(disk, ctx, start, i).cluster);
      var chain := ChainUpTo(disk, ctx, start, i);
    }
    if chain :| IsChain(disk, ctx, start, chain) {
      ChainEnd(disk, ctx, start, chain);
      ChainIsBounded(disk, ctx, start, chain);
      assert !Executes(disk, ctx, start, |chain|);
    }
  }

  function ReadCluster(disk: Disk, ctx: Context, cluster: nat): (s: seq<Byte>)
    ensures |s| == ctx.sectorsPerCluster * SECTOR_SIZE
  {
    ReadSectors(disk, ClusterToLba(ctx, cluster), ctx.sectorsPerCluster)
  }

  /** The contents of the clusters of a chain, in chain order. */
  function Contents(disk: Disk, ctx: Context, chain: seq<nat>): (s: seq<Byte>)
    ensures |s| == |chain| * (ctx.sectorsPerCluster * SECTOR_SIZE)
  {
    if chain == [] then []
    else
      ContentsLength(|chain|, ctx.sectorsPerCluster * SECTOR_SIZE);
      Contents(disk, ctx, chain[..|chain| - 1]) + ReadCluster(disk, ctx, chain[|chain| - 1])
  }

  lemma ContentsLength(n: nat, size: nat)
    requires n > 0
    ensures n * size == (n - 1) * size + size
  {
  }

  /** Cluster `k` of the chain stands behind the `k` clusters before it. */
  lemma {:induction false} ContentsAt(disk: Disk, ctx: Context, chain: seq<nat>, k: nat)
    requires k < |chain|
    ensures var cs := ctx.sectorsPerCluster * SECTOR_SIZE;
            && 0 <= Times(k, cs) && Times(k, cs) + cs <= |Contents(disk, ctx, chain)|
            && Contents(disk, ctx, chain)[Times(k, cs)..Times(k, cs) + cs] == ReadCluster(disk, ctx, chain[k])
    decreases |chain|
  {
    hide ReadCluster;
    var cs, n := ctx.sectorsPerCluster * SECTOR_SIZE, |chain| - 1;
    var front := Contents(disk, ctx, chain[..n]);
    assert |front| == Times(n, cs);
    hide Times;
    if k < n {
      ContentsAt(disk, ctx, chain[..n], k);
      var last := ReadCluster(disk, ctx, chain[n]);
      assert (front + last)[Times(k, cs)..Times(k, cs) + cs] == front[Times(k, cs)..Times(k, cs) + cs];
    }
  }

  /** The bytes that `read_cluster_chain` allocates for a file of `size` bytes. */
  function BufferSize(ctx: Context, size: nat): nat {
    DivideRoundUp(size, ctx.clusterSizeInBytes) * ctx.clusterSizeInBytes + 1
  }

  /** No round that the reading loop executes writes behind the buffer. */
  ghost predicate StaysInside(disk: Disk, ctx: Context, start: nat, size: nat)
    requires ctx.bytesPerSector == SECTOR_SIZE
  {
    forall k: nat :: Executes(disk, ctx, start, k) ==>
      LoopAfter(disk, ctx, start, k).offset + ctx.clusterSizeInBytes <= BufferSize(ctx, size)
  }

  /**
   * The reading loop stays inside its buffer exactly when the chain ends and its last cluster begins before the
   * end of the file.
   */
  lemma BufferFitsIff(disk: Disk, ctx: Context, start: nat, size: nat)
    requires Usable(ctx) && size < TWO_32
    ensures StaysInside(disk, ctx, start, size)
       <==> exists chain :: IsChain(disk, ctx, start, chain)
                            && (chain == [] || (|chain| - 1) * ctx.clusterSizeInBytes < size)
  {
    hide IsChain, LoopAfter, IsDataCluster, Executes, DivideRoundUp, BufferSize;
    var rounds := DivideRoundUp(size, ctx.clusterSizeInBytes);
    RoundThatFits(ctx, size, rounds);
    OffsetAfter(disk, ctx, start, rounds);
    if StaysInside(disk, ctx, start, size) {
      var chain := ShortChain(disk, ctx, start, rounds);
      RoundThatFits(ctx, size, |chain|);
    }
    if chain :| IsChain(disk, ctx, start, chain) && (chain == [] || (|chain| - 1) * ctx.clusterSizeInBytes < size) {
      RoundThatFits(ctx, size, |chain|);
      forall k: nat | Executes(disk, ctx, start, k)
        ensures LoopAfter(disk, ctx, start, k).offset + ctx.clusterSizeInBytes <= BufferSize(ctx, size)
      {
        RoundOfChain(disk, ctx, start, chain, k);
        OffsetAfter(disk, ctx, start, k);
        RoundThatFits(ctx, size, k);
      }
    }
  }

  /** A loop that does not execute round `k` follows a chain of at most `k` clusters. */
  lemma ShortChain(disk: Disk, ctx: Context, start: nat, k: nat) returns (chain: seq<nat>)
    requires ctx.bytesPerSector == SECTOR_SIZE && !Executes(disk, ctx, start, k)
    ensures IsChain(disk, ctx, start, chain) && |chain| <= k
  {
    hide IsChain, LoopAfter, IsDataCluster;
    var i: nat :| i <= k && !IsDataCluster(LoopAfter(disk, ctx, start, i).cluster);
    chain := ChainUpTo(disk, ctx, start, i);
  }

  lemma RoundOfChain(disk: Disk, ctx: Context, start: nat, chain: seq<nat>, k: nat)
    requires ctx.bytesPerSector == SECTOR_SIZE && IsChain(disk, ctx, start, chain) && Executes(disk, ctx, start, k)
    ensures k < |chain|
  {
    hide IsChain, LoopAfter, IsDataCluster;
    ChainEnd(disk, ctx, start, chain);
  }

  /**
   * Round `k` stays inside the buffer exactly when the file has more than `k` clusters; so does a cluster behind `k`
   * others.
   */
  lemma RoundThatFits(ctx: Context, size: nat, k: nat)
    requires Usable(ctx) && size < TWO_32
    ensures Times(k, ctx.clusterSizeInBytes) + ctx.clusterSizeInBytes <= BufferSize(ctx, size)
       <==> k < DivideRoundUp(size, ctx.clusterSizeInBytes)
    ensures k <= DivideRoundUp(size, ctx.clusterSizeInBytes)
       <==> k == 0 || (k - 1) * ctx.clusterSizeInBytes < size
  {
    var cs := ctx.clusterSizeInBytes;
    var n := DivideRoundUp(size, cs);
    DivideRoundUpIsCeiling(size, cs);
    hide DivideRoundUp;
    OneMore(k, cs);
    if k < n {
      Scaled(k + 1, n, cs);
    } else {
      Scaled(n + 1, k + 1, cs);
      OneMore(n, cs);
    }
    if 0 < k <= n {
      Scaled(k - 1, n - 1, cs);
    } else if n < k {
      Scaled(n, k - 1, cs);
    }
  }

  lemma {:induction false} ContentsSnoc(disk: Disk, ctx: Context, chain: seq<nat>, k: nat)
    requires k < |chain|
    ensures Contents(disk, ctx, chain[..k + 1]) == Contents(disk, ctx, chain[..k]) + ReadCluster(disk, ctx, chain[k])
  {
    assert chain[..k + 1][..k] == chain[..k];
  }

  /** The DMA read into a buffer. */
  method ReadDma(disk: Disk, lba: nat, n: nat, buffer: array<Byte>)
    requires buffer.Length == n * SECTOR_SIZE
    modifies buffer
    ensures buffer[..] == ReadSectors(disk, lba, n)
  {
    var data := ReadSectors(disk, lba, n);
    forall i | 0 <= i < buffer.Length {
      buffer[i] := data[i];
    }
  }

  /** One round of the reading loop: the next cluster goes behind what is already there. */
  method AppendCluster(disk: Disk, ctx: Context, cluster: nat, outBuffer: array<Byte>, offset: nat)
    requires Usable(ctx) && offset + ctx.clusterSizeInBytes <= outBuffer.Length
    modifies outBuffer
    ensures outBuffer[..offset + ctx.clusterSizeInBytes] == old(outBuffer[..offset]) + ReadCluster(disk, ctx, cluster)
  {
    var tempBuffer := new Byte[ctx.clusterSizeInBytes];
    ReadDma(disk, ClusterToLba(ctx, cluster), ctx.sectorsPerCluster, tempBuffer);
    ghost var before := outBuffer[..];
    MemoryCopy(outBuffer, offset, tempBuffer, 0, ctx.clusterSizeInBytes);
    StorePrefix(before, offset, tempBuffer[0..ctx.clusterSizeInBytes], outBuffer[..]);
    assert outBuffer[..][..offset + ctx.clusterSizeInBytes] == outBuffer[..offset + ctx.clusterSizeInBytes];
  }

  lemma StorePrefix(before: seq<Byte>, p: nat, w: seq<Byte>, after: seq<Byte>)
    requires p + |w| <= |before| && after == Store(before, p, w)
    ensures after[..p + |w|] == before[..p] + w
  {
  }

  /**
   * `read_cluster_chain`: for a chain that ends and fits the buffer, the loop terminates, never writes past the
   * buffer, and the buffer begins with the contents of the clusters in chain order.
   */
  method ReadClusterChain(disk: Disk, ctx: Context, startCluster: nat, size: nat, ghost chain: seq<nat>)
    returns (outBuffer: array?<Byte>)
    requires Usable(ctx) && IsChain(disk, ctx, startCluster, chain)
    requires |chain| <= DivideRoundUp(size, ctx.clusterSizeInBytes)
    ensures outBuffer == null <==> !IsDataCluster(startCluster)
    ensures outBuffer != null ==>
      && fresh(outBuffer)
      && outBuffer.Length == BufferSize(ctx, size)
      && |chain| * ctx.clusterSizeInBytes <= outBuffer.Length
      && outBuffer[..|chain| * ctx.clusterSizeInBytes] == Contents(disk, ctx, chain)
  {
    hide IsChain, Contents, ReadCluster, NextCluster, DivideRoundUp;
    if startCluster < 2 || startCluster >= EOC_START {
      return null;
    }
    var currCluster: nat := startCluster;
    var bufferWriteOffset: nat := 0;
    var numClusters := DivideRoundUp(size, ctx.clusterSizeInBytes);
    outBuffer := new Byte[numClusters * ctx.clusterSizeInBytes + 1];
    ghost var k := 0;
    assert chain[0..] == chain && chain[..0] == [];
    NothingRead(disk, ctx);
    while currCluster >= 2 && currCluster < EOC_START
      invariant k <= |chain| && IsChain(disk, ctx, currCluster, chain[k..])
      invariant LoopAfter(disk, ctx, startCluster, k) == Reading(currCluster, bufferWriteOffset)
      invariant bufferWriteOffset == Times(k, ctx.clusterSizeInBytes) <= outBuffer.Length
      invariant outBuffer[..bufferWriteOffset] == Contents(disk, ctx, chain[..k])
      decreases |chain| - k
    {
      ChainStep(disk, ctx, currCluster, chain, k);
      OneMore(k, ctx.clusterSizeInBytes);
      Scaled(k + 1, numClusters, ctx.clusterSizeInBytes);
      AppendCluster(disk, ctx, currCluster, outBuffer, bufferWriteOffset);
      ContentsSnoc(disk, ctx, chain, k);
      bufferWriteOffset := bufferWriteOffset + ctx.clusterSizeInBytes;
      currCluster := GetNextCluster(disk, ctx, currCluster);
      k := k + 1;
    }
    ChainDone(disk, ctx, currCluster, chain[k..]);
    assert chain[..k] == chain;
  }

  lemma NothingRead(disk: Disk, ctx: Context)
    ensures Contents(disk, ctx, []) == []
  {
  }

  lemma ChainStep(disk: Disk, ctx: Context, cluster: nat, chain: seq<nat>, k: nat)
    requires ctx.bytesPerSector == SECTOR_SIZE && k <= |chain|
    requires IsDataCluster(cluster) && IsChain(disk, ctx, cluster, chain[k..])
    ensures k < |chain| && chain[k] == cluster && IsChain(disk, ctx, NextCluster(disk, ctx, cluster), chain[k + 1..])
  {
    assert chain[k..] != [];
    assert chain[k..][1..] == chain[k + 1..];
  }

  lemma ChainDone(disk: Disk, ctx: Context, cluster: nat, chain: seq<nat>)
    requires ctx.bytesPerSector == SECTOR_SIZE && !IsDataCluster(cluster) && IsChain(disk, ctx, cluster, chain)
    ensures chain == []
  {
  }

  /** The bytes of a file that its chain holds. */
  function BytesHeld(ctx: Context, size: nat, length: nat): nat {
    if size <= length * ctx.clusterSizeInBytes then size else length * ctx.clusterSizeInBytes
  }

  /**
   * `fat32_read`: the file's bytes, as far as its chain goes, and a zero behind the last byte of the file. A chain of
   * as many clusters as the size takes holds the whole file. `fat32_read` writes through the result of
   * `read_cluster_chain`, so the first cluster must be a data cluster.
   */
  method Fat32Read(disk: Disk, ctx: Context, firstCluster: nat, size: nat, ghost chain: seq<nat>)
    returns (fileData: array<Byte>)
    requires Usable(ctx) && IsDataCluster(firstCluster) && IsChain(disk, ctx, firstCluster, chain)
    requires size < TWO_32 && |chain| <= DivideRoundUp(size, ctx.clusterSizeInBytes)
    ensures var held := BytesHeld(ctx, size, |chain|);
            && held <= size < fileData.Length && held <= |Contents(disk, ctx, chain)|
            && fileData[..held] == Contents(disk, ctx, chain)[..held] && fileData[size] == 0
            && (|chain| == DivideRoundUp(size, ctx.clusterSizeInBytes) ==> held == size)
  {
    hide IsChain, Contents, ReadCluster, NextCluster;
    DivideRoundUpIsCeiling(size, ctx.clusterSizeInBytes);
    hide DivideRoundUp;
    var buffer := ReadClusterChain(disk, ctx, firstCluster, size, chain);
    fileData := buffer;
    ghost var all := |chain| * ctx.clusterSizeInBytes;
    ghost var held := BytesHeld(ctx, size, |chain|);
    assert fileData[..held] == fileData[..all][..held];
    fileData[size] := 0;
  }

  // ----- disks on which the loop goes wrong -----

  /** One sector of FAT behind the boot sector, and two clusters of one sector each. */
  const SMALL_VOLUME := BootSector(SECTOR_SIZE, 1, 1, 1, 1, 2)

  /** A FAT that links cluster 2 to `a` and cluster 3 to `b`; every sector of this disk reads as that FAT. */
  function LinkedDisk(a: nat, b: nat): Disk {
    var sector: Sector := Store(Store(seq(SECTOR_SIZE, _ => 0), 8, ToLE(a, 4)), 12, ToLE(b, 4));
    _ => sector
  }

  lemma LinkedBytes(a: nat, b: nat, lba: nat)
    ensures LinkedDisk(a, b)(lba)[8..12] == ToLE(a, 4) && LinkedDisk(a, b)(lba)[12..16] == ToLE(b, 4)
  {
    hide ToLE;
  }

  lemma SmallVolume()
    ensures ValidVolume(0, SMALL_VOLUME, 2)
    ensures InitFat32(0, SMALL_VOLUME) == Context(1, 2, 2, 1, SECTOR_SIZE, SECTOR_SIZE)
  {
  }

  /** The entry of cluster `c` in the first sector of the FAT. */
  lemma EntryInFirstSector(disk: Disk, ctx: Context, c: nat, v: nat)
    requires ctx.bytesPerSector == SECTOR_SIZE && ctx.fatStartLba == 1 && 4 * c + 4 <= SECTOR_SIZE
    requires v < TWO_28 && disk(1)[4 * c..4 * c + 4] == ToLE(v, 4)
    ensures NextCluster(disk, ctx, c) == v
  {
    Widths();
    ReadBack(v, 4);
    OneSector(disk, 1);
    hide ToLE, FromLE, ReadSectors;
    EntryOffset(c);
  }

  lemma EntryOffset(c: nat)
    requires 4 * c + 4 <= SECTOR_SIZE
    ensures Wrap32(c * 4) == 4 * c && 4 * c / SECTOR_SIZE == 0 && 4 * c % SECTOR_SIZE / 4 * 4 == 4 * c
  {
  }

  lemma LinkedNext(a: nat, b: nat)
    requires a < TWO_28 && b < TWO_28
    ensures var ctx := InitFat32(0, SMALL_VOLUME);
            && ValidVolume(0, SMALL_VOLUME, 2) && Usable(ctx) && ctx.clusterSizeInBytes == SECTOR_SIZE
            && NextCluster(LinkedDisk(a, b), ctx, 2) == a && NextCluster(LinkedDisk(a, b), ctx, 3) == b
  {
    SmallVolume();
    LinkedBytes(a, b, 1);
    hide LinkedDisk, ToLE, NextCluster, InitFat32, ValidVolume;
    EntryInFirstSector(LinkedDisk(a, b), InitFat32(0, SMALL_VOLUME), 2, a);
    EntryInFirstSector(LinkedDisk(a, b), InitFat32(0, SMALL_VOLUME), 3, b);
  }

  /** A cluster that is linked to itself: the loop never ends, and whatever the size it writes behind the buffer. */
  lemma EndlessExample(size: nat)
    requires size < TWO_32
    ensures var disk, ctx := LinkedDisk(2, EOC_START), InitFat32(0, SMALL_VOLUME);
            && Usable(ctx)
            && (forall k: nat :: Executes(disk, ctx, 2, k))
            && !StaysInside(disk, ctx, 2, size)
  {
    LinkedNext(2, EOC_START);
    var disk, ctx := LinkedDisk(2, EOC_START), InitFat32(0, SMALL_VOLUME);
    hide LinkedDisk, NextCluster, InitFat32, IsChain, StaysInside;
    forall i: nat
      ensures LoopAfter(disk, ctx, 2, i).cluster == 2
    {
      SelfLinked(disk, ctx, 2, i);
    }
    hide LoopAfter;
    BufferFitsIff(disk, ctx, 2, size);
    LoopEndsIff(disk, ctx, 2);
  }

  lemma {:induction false} SelfLinked(disk: Disk, ctx: Context, c: nat, k: nat)
    requires ctx.bytesPerSector == SECTOR_SIZE && NextCluster(disk, ctx, c) == c
    ensures LoopAfter(disk, ctx, c, k).cluster == c
  {
    hide NextCluster;
    if k > 0 {
      SelfLinked(disk, ctx, c, k - 1);
    }
  }

  /** A chain of two clusters for a file of one byte: the loop ends, but its second round writes behind the buffer. */
  lemma OverflowExample()
    ensures var disk, ctx := LinkedDisk(3, EOC_START), InitFat32(0, SMALL_VOLUME);
            && Usable(ctx) && IsChain(disk, ctx, 2, [2, 3])
            && Executes(disk, ctx, 2, 1) && BufferSize(ctx, 1) == 513
            && LoopAfter(disk, ctx, 2, 1) == Reading(3, 512)
            && !StaysInside(disk, ctx, 2, 1)
  {
    LinkedNext(3, EOC_START);
    var disk, ctx := LinkedDisk(3, EOC_START), InitFat32(0, SMALL_VOLUME);
    hide LinkedDisk, NextCluster, InitFat32;
    hide IsChain, LoopAfter, BufferSize, Executes, StaysInside, IsDataCluster;
    SecondRoundOutside(disk, ctx);
  }

  lemma SecondRoundOutside(disk: Disk, ctx: Context)
    requires ctx.bytesPerSector == SECTOR_SIZE == ctx.clusterSizeInBytes
    requires NextCluster(disk, ctx, 2) == 3 && NextCluster(disk, ctx, 3) == EOC_START
    ensures IsChain(disk, ctx, 2, [2, 3]) && Executes(disk, ctx, 2, 1) && BufferSize(ctx, 1) == 513
    ensures LoopAfter(disk, ctx, 2, 1) == Reading(3, 512) && !StaysInside(disk, ctx, 2, 1)
  {
    TwoLinked(disk, ctx);
    OneByteFile(ctx);
    hide IsChain, LoopAfter, BufferSize, NextCluster;
  }

  lemma TwoLinked(disk: Disk, ctx: Context)
    requires ctx.bytesPerSector == SECTOR_SIZE == ctx.clusterSizeInBytes
    requires NextCluster(disk, ctx, 2) == 3 && NextCluster(disk, ctx, 3) == EOC_START
    ensures IsChain(disk, ctx, 2, [2, 3]) && LoopAfter(disk, ctx, 2, 0) == Reading(2, 0)
    ensures LoopAfter(disk, ctx, 2, 1) == Reading(3, 512)
  {
    hide NextCluster;
    assert [2, 3][1..] == [3] && [3][1..] == [];
    assert IsChain(disk, ctx, EOC_START, []);
    assert IsChain(disk, ctx, 3, [3]);
    assert LoopAfter(disk, ctx, 2, 0) == Reading(2, 0);
  }

  lemma OneByteFile(ctx: Context)
    requires ctx.clusterSizeInBytes == SECTOR_SIZE
    ensures BufferSize(ctx, 1) == 513
  {
    DivideRoundUpIsCeiling(1, SECTOR_SIZE);
  }
}
