/** Where a FAT32 volume keeps its parts: cluster and sector arithmetic of
    kernel/fs/fat/utils.c (Microsoft FAT32 File System Specification v1.03, "FAT
    Data Structure"). */
module FatLayout {
  import opened Bits
  import opened BlockCache
  import opened FatTable

  /** The exponent of two that fs_wa finds. */
  function Log2(num: nat): nat {
    if num <= 1 then 0 else 1 + Log2(num / 2)
  }

  lemma {:induction false} Log2Pow2(k: nat)
    ensures Log2(Pow2(k)) == k
  {
    if k > 0 { Log2Pow2(k - 1); }
  }

  lemma {:induction false} Log2Floor(num: nat)
    requires num > 0
    ensures Pow2(Log2(num)) <= num < 2 * Pow2(Log2(num))
  {
    if num > 1 { Log2Floor(num / 2); }
  }

  /** fs_wa. */
  method FsWa(num: nat) returns (i: nat)
    ensures i == Log2(num)
  {
    i := 0;
    var n := num;
    while n > 1
      invariant i + Log2(n) == Log2(num)
    {
      n := n / 2;
      i := i + 1;
    }
  }

  lemma ScaleIsTimes(k: nat, u: nat)
    requires IsUnit(u)
    ensures Scale(k, u) == k * u
  {
  }

  lemma DivisionLemma(x: nat, u: nat)
    requires IsUnit(u)
    ensures x == 512 * Scale(x / (512 * u), u) + x % (512 * u)
  {
    if u == 1 {} else if u == 2 {} else if u == 4 {} else {}
  }

  /** base_addr, reserved_sectors, num_of_sectors_per_fat, sectors_per_cluster and
      total_data_clusters. */
  datatype Layout = Layout(base: nat, reserved: nat, sectorsPerFat: nat, sectorsPerCluster: nat, clusters: nat)
  {
    /** The first sector of the FAT on the disk. */
    function FatStart(): nat {
      base + reserved
    }

    function FirstDataSector(): nat {
      reserved + 2 * sectorsPerFat
    }

    function ClusterBytes(): nat {
      512 * sectorsPerCluster
    }

    /** The bytes of n clusters. */
    function Bytes(n: nat): nat {
      512 * Scale(n, sectorsPerCluster)
    }

    /** loc >> fs_wa(cluster bytes), and loc & (cluster bytes - 1). */
    function ClusterIndex(loc: nat): nat {
      loc / Pow2(Log2(ClusterBytes()))
    }

    function ByteInCluster(loc: nat): nat
      requires sectorsPerCluster > 0
    {
      And(loc, ClusterBytes() - 1)
    }

    /** Number of table entries in use: total_data_clusters + 2. */
    function Entries(): nat {
      clusters + 2
    }

    /** fs_dataclus2sec. */
    function DataClusterToSector(clus: nat): nat
      requires clus >= 2
    {
      (clus - 2) * Pow2(Log2(sectorsPerCluster)) + FirstDataSector()
    }

    /** fs_sec2dataclus. */
    function SectorToDataCluster(sec: nat): nat
      requires sec >= FirstDataSector()
    {
      (sec - FirstDataSector()) / Pow2(Log2(sectorsPerCluster)) + 2
    }

    function FatGeometry(): Geometry {
      Geometry(1, sectorsPerFat, FatStart(), FatStart() + sectorsPerFat)
    }

    function DataGeometry(): Geometry {
      Geometry(sectorsPerCluster, 0, base + FirstDataSector(), base + FirstDataSector() + Scale(clusters, sectorsPerCluster))
    }

    function DirGeometry(): Geometry {
      Geometry(1, 0, base + FirstDataSector(), base + FirstDataSector() + Scale(clusters, sectorsPerCluster))
    }

    /** What the driver expects of a volume: a cluster is 1 to 8 sectors, a power of
        two; the FAT has an entry for every cluster; FSInfo and its backup lie among
        the reserved sectors; sector numbers fit in 32 bits. */
    ghost predicate WellFormed() {
      && IsUnit(sectorsPerCluster)
      && reserved > 7
      && sectorsPerFat > 0
      && Entries() <= 128 * sectorsPerFat
      && Entries() < 0x0FFF_FFFF
      && base + FirstDataSector() + Scale(clusters, sectorsPerCluster) < NO_BLOCK
    }

    lemma PowerOfCluster()
      requires WellFormed()
      ensures Pow2(Log2(sectorsPerCluster)) == sectorsPerCluster
      ensures Pow2(Log2(ClusterBytes())) == ClusterBytes()
    {
      assert Pow2(0) == 1 && Pow2(1) == 2 && Pow2(2) == 4 && Pow2(3) == 8;
      Pow2Values();
      assert Pow2(10) == 1024 && Pow2(11) == 2048;
      if sectorsPerCluster == 1 { Log2Pow2(0); Log2Pow2(9); }
      else if sectorsPerCluster == 2 { Log2Pow2(1); Log2Pow2(10); }
      else if sectorsPerCluster == 4 { Log2Pow2(2); Log2Pow2(11); }
      else { Log2Pow2(3); Log2Pow2(12); }
    }

    /** A file position is a cluster index and an offset in that cluster. */
    lemma PositionSplit(loc: nat)
      requires WellFormed()
      ensures loc == Bytes(ClusterIndex(loc)) + ByteInCluster(loc)
      ensures ByteInCluster(loc) < ClusterBytes()
    {
      PowerOfCluster();
      AndLowMask(loc, Log2(ClusterBytes()));
      DivisionLemma(loc, sectorsPerCluster);
    }

    lemma BytesStep(n: nat)
      requires WellFormed()
      ensures Bytes(n + 1) == Bytes(n) + ClusterBytes() && Bytes(0) == 0
    {
    }

    lemma BytesMonotone(m: nat, n: nat)
      requires WellFormed() && m < n
      ensures Bytes(m) + ClusterBytes() <= Bytes(n)
    {
    }

    lemma BytesLeast(m: nat, n: nat)
      requires WellFormed() && Bytes(m) < n
      ensures Bytes(0) < n
    {
    }

    lemma BytesOrder(m: nat, n: nat)
      requires WellFormed() && m <= n
      ensures Bytes(m) <= Bytes(n)
    {
    }

    lemma IndexBelow(m: nat, i: nat, n: nat)
      requires WellFormed() && Bytes(m) + i < Bytes(n)
      ensures m < n
    {
    }

    /** Positions are ordered as their clusters are. */
    lemma IndexOrder(m: nat, i: nat, n: nat, j: nat)
      requires WellFormed() && i < ClusterBytes() && j < ClusterBytes()
      requires Bytes(m) + i <= Bytes(n) + j
      ensures m <= n && (m == n ==> i <= j)
    {
    }

    /** How many clusters more than n it takes to hold `need` bytes. */
    function Lacking(n: nat, need: nat): (k: nat)
      requires WellFormed()
      ensures need <= Bytes(n + k) && (k > 0 ==> Bytes(n + k - 1) < need)
      decreases if Bytes(n) < need then need - Bytes(n) else 0
    {
      BytesStep(n);
      if need <= Bytes(n) then 0 else 1 + Lacking(n + 1, need)
    }

    lemma LackingStep(n: nat, need: nat)
      requires WellFormed()
      ensures Lacking(n, need) == if need <= Bytes(n) then 0 else 1 + Lacking(n + 1, need)
    {
    }

    /** Up to m clusters do not suffice short of that number, and do with it. */
    lemma LackingUntil(n: nat, need: nat, m: nat)
      requires WellFormed() && n <= m <= n + Lacking(n, need)
      ensures if m < n + Lacking(n, need) then Bytes(m) < need else need <= Bytes(m)
    {
      if m < n + Lacking(n, need) { BytesOrder(m, n + Lacking(n, need) - 1); }
    }

    /** The first sector of a cluster on the disk. */
    function Tag(clus: nat): (a: nat)
      requires clus >= 2
    {
      base + FirstDataSector() + Scale(clus - 2, sectorsPerCluster)
    }

    lemma TagIsSector(clus: nat)
      requires WellFormed() && 2 <= clus < Entries()
      ensures DataClusterToSector(clus) + base == Tag(clus)
      ensures IsTag(DataGeometry(), Tag(clus))
    {
      PowerOfCluster();
      ScaleIsTimes(clus - 2, sectorsPerCluster);
    }

    /** Distinct clusters occupy disjoint sector ranges. */
    lemma ClustersApart(c: nat, d: nat)
      requires WellFormed() && 2 <= c && 2 <= d && c != d
      ensures Tag(c) + sectorsPerCluster <= Tag(d) || Tag(d) + sectorsPerCluster <= Tag(c)
    {
    }

    /** fs_sec2dataclus finds the cluster of every one of its sectors. */
    lemma SectorRoundTrip(clus: nat, k: nat)
      requires WellFormed() && 2 <= clus && k < sectorsPerCluster
      ensures DataClusterToSector(clus) >= FirstDataSector()
      ensures SectorToDataCluster(DataClusterToSector(clus) + k) == clus
    {
      hide Pow2;
      hide Log2;
      PowerOfCluster();
      ScaleIsTimes(clus - 2, sectorsPerCluster);
      hide Scale;
      DivModUnique(Scale(clus - 2, sectorsPerCluster) + k, sectorsPerCluster, clus - 2, k);
    }

    /** The FAT sectors of in-range clusters lie inside the FAT, and neither copy
        meets a data cluster. */
    lemma FatBelowData(c: nat, d: nat)
      requires WellFormed() && c < Entries() && 2 <= d
      ensures IsTag(FatGeometry(), FatSector(c, reserved, base))
      ensures FatSector(c, reserved, base) == SectorOf(FatStart(), c) && FatOffset(c) == OffsetOf(c)
      ensures FatSector(c, reserved, base) + sectorsPerFat < Tag(d)
    {
      EntryPlace(c, reserved, base);
    }

    /** fs_alloc erases, and fs_clr_* tags, partition-relative sectors: they are the
        cluster's own sectors exactly when the partition starts at sector 0. */
    lemma EraseHitsIff(c: nat)
      requires WellFormed() && 2 <= c < Entries()
      ensures DataClusterToSector(c) == Tag(c) <==> base == 0
    {
      TagIsSector(c);
    }
  }
}
