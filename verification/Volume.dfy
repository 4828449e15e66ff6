/** The layout arithmetic of `read_super` (`fs/super.c`), in 32-bit unsigned arithmetic. */
module Volume {
  import opened FatTable
  import F = FatFile

  const U32: nat := 0x1_0000_0000

  /** The fields of the boot sector the layout depends on; `base` is the partition's first sector. */
  datatype Boot = Boot(base: nat, reserved: nat, fatNumber: nat, fatsz16: nat, fatsz32: nat, rootEntries: nat,
                       totsec16: nat, totsec32: nat, clusterSize: nat, rootCluster: nat)

  /** The widths of the fields. */
  predicate Fields(b: Boot) {
    && b.base < U32 && b.reserved < 0x1_0000 && b.fatNumber < 0x100 && b.fatsz16 < 0x1_0000 && b.fatsz32 < U32
    && b.rootEntries < 0x1_0000 && b.totsec16 < 0x1_0000 && b.totsec32 < U32 && b.clusterSize < 0x100
    && b.rootCluster < U32
  }

  function FatSize(b: Boot): nat {
    if b.fatsz16 != 0 then b.fatsz16 else b.fatsz32
  }

  function TotalSectors(b: Boot): nat {
    if b.totsec16 != 0 then b.totsec16 else b.totsec32
  }

  function RootSectors(b: Boot): nat {
    (b.rootEntries * 32 + (SECTOR - 1)) / SECTOR
  }

  /** Sectors before the data region. */
  function Meta(b: Boot): nat {
    b.reserved + b.fatNumber * FatSize(b) + RootSectors(b)
  }

  /** `countofclusters`, with the subtraction wrapping as in the source. */
  function Clusters(b: Boot): nat
    requires b.clusterSize > 0
  {
    (TotalSectors(b) - Meta(b)) % U32 / b.clusterSize
  }

  function KindOf(b: Boot): Type
    requires b.clusterSize > 0
  {
    if Clusters(b) < 4085 then Fat12 else if Clusters(b) < 65525 then Fat16 else Fat32
  }

  /** The super block that `read_super` fills in. */
  function ReadSuper(b: Boot): Super
    requires b.clusterSize > 0
  {
    Super(b.base, b.reserved, b.clusterSize, (b.base + Meta(b)) % U32, KindOf(b))
  }

  /** `dir_first_sec`. */
  function RootDirSector(b: Boot): nat
    requires b.clusterSize > 0
  {
    if KindOf(b).Fat32? then F.FirstSector(ReadSuper(b), b.rootCluster)
    else (b.base + b.reserved + b.fatNumber * FatSize(b)) % U32
  }

  /** The volume is large enough for its own metadata and lies within the address space. */
  predicate Sound(b: Boot) {
    Fields(b) && b.clusterSize > 0 && Meta(b) <= TotalSectors(b) && b.base + TotalSectors(b) < U32
  }

  /** What the boot sector says, field by field. */
  function DataSectors(b: Boot): int {
    (if b.totsec16 == 0 then b.totsec32 else b.totsec16)
    - b.reserved - b.fatNumber * (if b.fatsz16 == 0 then b.fatsz32 else b.fatsz16) - (b.rootEntries * 32 + 511) / 512
  }

  /**
   The type is the one the FAT specification assigns ("FAT Type Determination"): fewer than 4085 clusters are
   FAT12, fewer than 65525 FAT16, more FAT32. A 16-bit field counts unless it is 0.
   */
  lemma KindIs(b: Boot)
    requires Sound(b)
    ensures var data, c := DataSectors(b), b.clusterSize;
            && (KindOf(b).Fat12? <==> data < 4085 * c)
            && (KindOf(b).Fat16? <==> 4085 * c <= data < 65525 * c)
            && (KindOf(b).Fat32? <==> 65525 * c <= data)
            && ReadSuper(b).kind == KindOf(b)
  {
    NoWrap(b);
    assert TotalSectors(b) - Meta(b) == DataSectors(b);
    QuotientBelow(DataSectors(b), b.clusterSize, 4085);
    QuotientBelow(DataSectors(b), b.clusterSize, 65525);
  }

  lemma QuotientBelow(x: nat, c: nat, k: nat)
    requires c > 0
    ensures x / c < k <==> x < k * c
  {
    assert x == x / c * c + x % c;
    if x / c < k {
      F.MulMono(x / c + 1, k, c);
    } else {
      F.MulMono(k, x / c, c);
    }
  }

  /** A 1.44 MB floppy is FAT12. */
  lemma FloppyExample()
    ensures var b := Boot(0, 1, 2, 9, 0, 224, 2880, 0, 1, 0);
            Sound(b) && Clusters(b) == 2847 && ReadSuper(b) == Super(0, 1, 1, 33, Fat12) && RootDirSector(b) == 19
  {
  }

  /** The clusters that exist: numbers 2 up to the count plus one. */
  predicate Exists(b: Boot, n: nat)
    requires b.clusterSize > 0
  {
    2 <= n < Clusters(b) + 2
  }

  lemma ModSmall(x: int)
    requires 0 <= x < U32
    ensures x % U32 == x
  {
  }

  lemma NoWrap(b: Boot)
    requires Sound(b)
    ensures Clusters(b) == (TotalSectors(b) - Meta(b)) / b.clusterSize
    ensures ReadSuper(b).dataFirstSec == b.base + Meta(b)
  {
    ModSmall(TotalSectors(b) - Meta(b));
    ModSmall(b.base + Meta(b));
  }

  /** The last of `count` units of `c` ends within `data`. */
  lemma UnitInside(data: nat, c: nat, i: nat)
    requires c > 0 && i < data / c
    ensures i * c + c <= data
  {
    assert data == data / c * c + data % c;
    F.MulMono(i + 1, data / c, c);
  }

  /** The sectors of an existing cluster lie in the data region. */
  lemma ClusterInside(b: Boot, n: nat)
    requires Sound(b) && Exists(b, n)
    ensures F.FirstSector(ReadSuper(b), n) == b.base + Meta(b) + (n - 2) * b.clusterSize
    ensures F.FirstSector(ReadSuper(b), n) + b.clusterSize <= b.base + TotalSectors(b)
  {
    NoWrap(b);
    UnitInside(TotalSectors(b) - Meta(b), b.clusterSize, n - 2);
    ModSmall((n - 2) * b.clusterSize + (b.base + Meta(b)));
  }

  /** Different clusters share no sector. */
  lemma ClustersDisjoint(b: Boot, m: nat, n: nat)
    requires Sound(b) && Exists(b, m) && Exists(b, n) && m < n
    ensures F.FirstSector(ReadSuper(b), m) + b.clusterSize <= F.FirstSector(ReadSuper(b), n)
  {
    ClusterInside(b, m);
    ClusterInside(b, n);
    F.MulMono(m - 1, n - 2, b.clusterSize);
    assert (m - 1) * b.clusterSize == (m - 2) * b.clusterSize + b.clusterSize;
  }

  /** Sectors a FAT with an entry for every cluster number needs. */
  predicate FatHoldsAll(b: Boot)
    requires b.clusterSize > 0
  {
    (Clusters(b) + 2) * EntryBits(KindOf(b)) <= FatSize(b) * SECTOR * 8
  }

  /**
   The bytes of an existing cluster's entry lie in the first FAT: `FATEntryVal` fetches a sector of it, and
   the last byte is in one, too.
   */
  lemma EntryInsideFat(b: Boot, n: nat)
    requires Sound(b) && FatHoldsAll(b) && b.fatNumber > 0 && Exists(b, n)
    ensures var k, sb := KindOf(b), ReadSuper(b); var last := FatOffset(k, n) + (if k.Fat32? then 3 else 1);
            && sb.resvdseccnt + sb.base == b.base + b.reserved
            && last < FatSize(b) * SECTOR
            && sb.resvdseccnt + FatOffset(k, n) / SECTOR + sb.base <= sb.resvdseccnt + last / SECTOR + sb.base
               < b.base + b.reserved + FatSize(b) <= b.base + Meta(b)
  {
    var k := KindOf(b);
    var last := FatOffset(k, n) + (if k.Fat32? then 3 else 1);
    EntryEnd(k, n);
    F.MulMono(n + 1, Clusters(b) + 2, EntryBits(k));
    F.MulMono(1, b.fatNumber, FatSize(b));
    assert last < FatSize(b) * SECTOR;
  }

  lemma EntryEnd(k: Type, n: nat)
    ensures (FatOffset(k, n) + (if k.Fat32? then 3 else 1)) * 8 < (n + 1) * EntryBits(k) + (if k.Fat12? then 4 else 0)
  {
  }

  /** For FAT12 and FAT16: reserved sectors, FATs, root directory and data follow one another. */
  lemma RegionsFollow(b: Boot)
    requires Sound(b) && !KindOf(b).Fat32?
    ensures RootDirSector(b) == b.base + b.reserved + b.fatNumber * FatSize(b)
    ensures RootDirSector(b) + RootSectors(b) == ReadSuper(b).dataFirstSec
  {
    FatsEnd(b);
  }

  lemma FatsEnd(b: Boot)
    requires Sound(b)
    ensures (b.base + b.reserved + b.fatNumber * FatSize(b)) % U32 == b.base + b.reserved + b.fatNumber * FatSize(b)
    ensures (b.base + Meta(b)) % U32 == b.base + b.reserved + b.fatNumber * FatSize(b) + RootSectors(b)
  {
    SumsSmall(b.base, b.reserved, b.fatNumber * FatSize(b), RootSectors(b), TotalSectors(b));
  }

  lemma SumsSmall(base: nat, reserved: nat, fats: nat, root: nat, total: nat)
    requires reserved + fats + root <= total && base + total < U32
    ensures (base + reserved + fats) % U32 == base + reserved + fats
    ensures (base + (reserved + fats + root)) % U32 == base + reserved + fats + root
  {
  }

  /** The root directory gets just enough sectors for its entries. */
  lemma RootSectorsFit(b: Boot)
    ensures RootSectors(b) * SECTOR >= b.rootEntries * 32
    ensures b.rootEntries > 0 ==> (RootSectors(b) - 1) * SECTOR < b.rootEntries * 32
  {
  }

  /**
   For FAT12 and FAT16: each 32-byte entry of the root directory lies between the FATs and the data, the
   last one in the last sector.
   */
  lemma RootEntriesInside(b: Boot, i: nat)
    requires Sound(b) && !KindOf(b).Fat32? && i < b.rootEntries
    ensures var first, last := RootDirSector(b) * SECTOR + i * 32, RootDirSector(b) * SECTOR + i * 32 + 31;
            && (b.base + b.reserved + b.fatNumber * FatSize(b)) * SECTOR <= first
            && last < ReadSuper(b).dataFirstSec * SECTOR
            && (i + 1 == b.rootEntries ==> last / SECTOR + 1 == ReadSuper(b).dataFirstSec)
  {
    RegionsFollow(b);
    RootSectorsFit(b);
    var root, n := RootDirSector(b), RootSectors(b);
    assert (root + n) * SECTOR == root * SECTOR + n * SECTOR;
    if i + 1 == b.rootEntries {
      assert root * SECTOR + i * 32 + 31 == root * SECTOR + (b.rootEntries * 32 - 1);
      assert (root + n - 1) * SECTOR <= root * SECTOR + (b.rootEntries * 32 - 1) < (root + n) * SECTOR;
    }
  }

  /** For FAT32 the root directory starts in the data region, with its first cluster. */
  lemma RootInData(b: Boot)
    requires Sound(b) && KindOf(b).Fat32? && Exists(b, b.rootCluster)
    ensures ReadSuper(b).dataFirstSec <= RootDirSector(b) < b.base + TotalSectors(b)
    ensures RootDirSector(b) == b.base + Meta(b) + (b.rootCluster - 2) * b.clusterSize
  {
    NoWrap(b);
    ClusterInside(b, b.rootCluster);
    F.MulMono(0, b.rootCluster - 2, b.clusterSize);
  }

  /** With the type that the cluster count selects, an existing cluster is taken for an end mark only beyond 2^28 - 9. */
  lemma NumbersAreNotMarksIff(b: Boot, n: nat)
    requires Sound(b) && Exists(b, n)
    ensures EndOfChain(KindOf(b), n) <==> KindOf(b).Fat32? && n >= 0xFFF_FFF8
    ensures !KindOf(b).Fat32? ==> n < (if KindOf(b).Fat12? then 0xFF7 else 0xFFF7)
  {
  }
}
