/** Where the bytes are: what a saved volume shows, by address on the card (kernel/fs/fat/
    fat.c, utils.c; Microsoft FAT32 File System Specification v1.03, "FAT Data Structure",
    "FAT32 FSInfo Sector Structure and Backup Boot Sector" and "FAT Directory Structure"). */
module FatDisk {
  import opened BlockCache
  import opened FsCache
  import opened FatTable
  import opened FatLayout
  import opened FatVolume
  import opened FatChains
  import opened FatData
  import opened FatFile
  import opened FatClose
  import opened FatRemount
  import opened FatRemove

  // ------------------------------------------------------------------- clusters

  /** The two copies of the FAT follow the reserved sectors, and the clusters follow them,
      the first one being number 2. */
  lemma ClusterAddress(lay: Layout, c: nat)
    requires lay.WellFormed() && 2 <= c < lay.Entries()
    ensures lay.DataClusterToSector(c) == lay.reserved + 2 * lay.sectorsPerFat + (c - 2) * lay.sectorsPerCluster
    ensures lay.Tag(c) == lay.base + lay.reserved + 2 * lay.sectorsPerFat + (c - 2) * lay.sectorsPerCluster
  {
    lay.TagIsSector(c);
    ScaleIsTimes(c - 2, lay.sectorsPerCluster);
  }

  /** Cluster 2 begins where the second copy of the FAT ends. */
  lemma FirstCluster(lay: Layout)
    requires lay.WellFormed() && lay.clusters > 0
    ensures lay.DataClusterToSector(2) + lay.base == lay.base + lay.reserved + lay.sectorsPerFat + lay.sectorsPerFat
  {
    ClusterAddress(lay, 2);
  }

  lemma InBytes(lay: Layout, c: nat)
    requires lay.WellFormed() && 2 <= c < lay.Entries()
    ensures 512 * lay.Tag(c) ==
      512 * (lay.base + lay.reserved + 2 * lay.sectorsPerFat) + (c - 2) * (512 * lay.sectorsPerCluster)
  {
    ClusterAddress(lay, c);
    var u, n := lay.sectorsPerCluster, c - 2;
    assert 512 * (n * u) == n * (512 * u) by {
      if u == 1 {} else if u == 2 {} else if u == 4 {} else {}
    }
  }

  /** Byte a of the disk is x. */
  predicate Holds(d: seq<Byte>, a: nat, x: Byte) {
    a < |d| && d[a] == x
  }

  /** The bytes x lie on the disk from byte `start` on in clusters of n bytes numbered
      from 2: byte i * n + j of x is byte j of cluster ch[i]. */
  ghost predicate InClusters(d: seq<Byte>, start: nat, n: nat, ch: seq<nat>, x: seq<Byte>) {
    forall i: nat, j: nat :: i < |ch| && j < n ==> AtItsPlace(d, start, n, ch, x, i, j)
  }

  ghost predicate AtItsPlace(d: seq<Byte>, start: nat, n: nat, ch: seq<nat>, x: seq<Byte>, i: nat, j: nat)
    requires i < |ch|
  {
    i * n + j < |x| ==> ch[i] >= 2 && Holds(d, start + (ch[i] - 2) * n + j, x[i * n + j])
  }

  /** What is stored for a chain on the disk b. */
  lemma StoredByte(lay: Layout, b: seq<Byte>, ch: seq<nat>, i: nat, j: nat)
    requires lay.WellFormed() && 512 * lay.DataGeometry().hi <= |b| && i < |ch| && j < lay.ClusterBytes()
    requires HoldsClusters(lay, Image(lay.DataGeometry(), b, []), ch) && 2 <= ch[i] < lay.Entries()
    ensures lay.Bytes(i) + j < |Stored(lay, Image(lay.DataGeometry(), b, []), ch)|
    ensures Holds(b, 512 * lay.Tag(ch[i]) + j, Stored(lay, Image(lay.DataGeometry(), b, []), ch)[lay.Bytes(i) + j])
  {
    hide Stored;
    hide Layout.Bytes;
    hide Scale;
    hide OnGrid;
    var img, n, m := Image(lay.DataGeometry(), b, []), lay.ClusterBytes(), lay.Bytes(i);
    lay.TagIsSector(ch[i]);
    StoredSlice(lay, img, ch, i);
    hide Layout.Tag;
    var d, t := Stored(lay, img, ch), lay.Tag(ch[i]);
    assert img[t] == Block(b, t, lay.sectorsPerCluster);
    assert d[m..m + n][j] == d[m + j];
  }

  lemma StoredInClusters(lay: Layout, b: seq<Byte>, ch: seq<nat>, x: seq<Byte>)
    requires lay.WellFormed() && 512 * lay.DataGeometry().hi <= |b|
    requires HoldsClusters(lay, Image(lay.DataGeometry(), b, []), ch) && forall c :: c in ch ==> 2 <= c < lay.Entries()
    requires x <= Stored(lay, Image(lay.DataGeometry(), b, []), ch)
    ensures InClusters(b, 512 * (lay.base + lay.reserved + 2 * lay.sectorsPerFat), 512 * lay.sectorsPerCluster, ch, x)
  {
    hide Layout.WellFormed;
    hide Layout.Tag;
    hide Layout.Bytes;
    hide Stored;
    hide HoldsClusters;
    hide Holds;
    var start, n := 512 * (lay.base + lay.reserved + 2 * lay.sectorsPerFat), 512 * lay.sectorsPerCluster;
    forall i: nat, j: nat | i < |ch| && j < n ensures AtItsPlace(b, start, n, ch, x, i, j) {
      assert ch[i] in ch;
      InBytes(lay, ch[i]);
      BytesIs(lay, i);
      StoredByte(lay, b, ch, i, j);
    }
  }

  /** The bytes of a file whose cache the disk agrees with: a closed file. */
  lemma ContentOnDisk(f: FatFile)
    requires f.Valid() && Durable(f.data)
    ensures var lay := f.vol.lay;
      InClusters(f.vol.disk.bytes, 512 * (lay.base + lay.reserved + 2 * lay.sectorsPerFat),
                 512 * lay.sectorsPerCluster, f.chain, f.Content())
  {
    hide FatFile.Valid;
    hide Volume.Valid;
    hide Durable;
    hide InClusters;
    hide HoldsClusters;
    hide Layout.WellFormed;
    f.ChainFacts();
    OnDiskAlone(f);
    StoredInClusters(f.vol.lay, f.vol.disk.bytes, f.chain, f.Content());
  }

  lemma BytesIs(lay: Layout, i: nat)
    requires lay.WellFormed()
    ensures lay.Bytes(i) == i * (512 * lay.sectorsPerCluster)
  {
    var u := lay.sectorsPerCluster;
    if u == 1 {} else if u == 2 {} else if u == 4 {} else {}
  }

  lemma OnDiskAlone(f: FatFile)
    requires f.Valid() && Durable(f.data)
    ensures f.vol.lay.WellFormed() && 512 * f.vol.lay.DataGeometry().hi <= |f.vol.disk.bytes|
    ensures var img := Image(f.vol.lay.DataGeometry(), f.vol.disk.bytes, []);
      && HoldsClusters(f.vol.lay, img, f.chain) && f.Content() <= Stored(f.vol.lay, img, f.chain)
  {
    hide Volume.Valid;
    hide ClockCache.View;
    hide IsFileChain;
    hide CachedIn;
    hide HoldsClusters;
    hide Layout.WellFormed;
    hide Stored;
    f.PositionInside();
  }

  /** A file just opened has an empty cache, which shows the disk. */
  lemma OpenedOnDisk(f: FatFile)
    requires f.Valid() && f.data.IsEmpty()
    ensures var lay := f.vol.lay;
      InClusters(f.vol.disk.bytes, 512 * (lay.base + lay.reserved + 2 * lay.sectorsPerFat),
                 512 * lay.sectorsPerCluster, f.chain, f.Content())
  {
    hide InClusters;
    DataValid(f);
    EmptyShowsDisk(f.data);
    ContentOnDisk(f);
  }

  lemma DataValid(f: FatFile)
    requires f.Valid()
    ensures f.data.Valid() && f.data.disk == f.vol.disk
  {
  }

  // ------------------------------------------------------------------ the entries

  /** The word of four bytes at a, the lowest first. */
  function Word(d: seq<Byte>, a: nat): nat
    requires a + 4 <= |d|
  {
    d[a] as nat + 0x100 * d[a + 1] as nat + 0x1_0000 * d[a + 2] as nat + 0x100_0000 * d[a + 3] as nat
  }

  predicate WordAt(d: seq<Byte>, a: nat, w: nat) {
    a + 4 <= |d| && w == Word(d, a)
  }

  /** The entry of cluster c: 28 bits of the same word in both copies of a FAT that starts
      at byte `start`, the second one `copy` bytes behind the first. */
  predicate EntryAt(d: seq<Byte>, start: nat, copy: nat, c: nat, value: nat) {
    && start + copy + 4 * c + 4 <= |d|
    && Word(d, start + copy + 4 * c) == Word(d, start + 4 * c)
    && value == Word(d, start + 4 * c) % 0x1000_0000
  }

  /** The FAT the disk agrees with, by address. */
  lemma FatOnDisk(vol: Volume, c: nat)
    requires vol.Valid() && Durable(vol.fat) && c < vol.lay.Entries()
    ensures EntryAt(vol.disk.bytes, 512 * (vol.lay.base + vol.lay.reserved), 512 * vol.lay.sectorsPerFat, c, vol.Fat()[c])
  {
    hide Volume.Valid;
    hide Volume.Fat;
    hide IsTag;
    hide Block;
    var lay, d := vol.lay, vol.disk.bytes;
    var s, o := lay.base + lay.reserved + c / 128, c % 128 * 4;
    EntryShown(vol, c);
    CopiesEqual(vol);
    BlockWord(d, s, o);
    BlockWord(d, s + lay.sectorsPerFat, o);
    var w := Get32(Block(d, s, 1), o);
    assert 512 * s + o == 512 * (lay.base + lay.reserved) + 4 * c;
    assert WordAt(d, 512 * (lay.base + lay.reserved) + 4 * c, w);
    assert WordAt(d, 512 * (lay.base + lay.reserved) + 512 * lay.sectorsPerFat + 4 * c, w);
  }

  lemma BlockWord(d: seq<Byte>, s: nat, o: nat)
    requires 512 * (s + 1) <= |d| && o + 4 <= 512
    ensures WordAt(d, 512 * s + o, Get32(Block(d, s, 1), o))
  {
  }

  lemma EntryShown(vol: Volume, c: nat)
    requires vol.Valid() && Durable(vol.fat) && c < vol.lay.Entries()
    ensures var s := SectorOf(vol.lay.FatStart(), c);
      && IsTag(vol.lay.FatGeometry(), s) && 512 * (s + 1) <= |vol.disk.bytes|
      && vol.Fat()[c] == Low28(Get32(Block(vol.disk.bytes, s, 1), OffsetOf(c)))
  {
    hide ClockCache.Valid;
    hide ClockCache.View;
    hide Layout.WellFormed;
    hide IsTag;
    hide RawOf;
    hide FatOf;
    hide Block;
    hide Durable;
    hide FatSector;
    hide FatOffset;
    hide SectorOf;
    hide OffsetOf;
    hide Low28;
    hide Get32;
    var s := SectorOf(vol.lay.FatStart(), c);
    vol.lay.FatBelowData(c, 2);
    BlockShown(vol.fat, s);
    assert vol.table[c] == EntryOf(vol.fat.View(), vol.lay.FatStart(), vol.lay.Entries(), c);
  }

  /** A block of a cache the disk agrees with. */
  lemma BlockShown(cache: ClockCache, s: nat)
    requires cache.Valid() && Durable(cache) && IsTag(cache.geo, s)
    ensures s in cache.View() && 512 * (s + cache.geo.unit) <= |cache.disk.bytes|
    ensures cache.View()[s] == Block(cache.disk.bytes, s, cache.geo.unit)
  {
  }

  /** The start cluster and the size in a directory entry. */
  lemma EntryFields(e: seq<Byte>)
    requires |e| == 32
    ensures StartCluster(e) ==
      e[26] as nat + 0x100 * e[27] as nat + 0x1_0000 * e[20] as nat + 0x100_0000 * e[21] as nat
    ensures FileSize(e) == Word(e, 28)
  {
  }

  /** The hint is one more than the word at byte 492 of FSInfo, and its limit one more than
      the word at byte 488, on 32 bits. */
  lemma HintFields(info: seq<Byte>)
    requires |info| == 512
    ensures Hint(info) == (Word(info, 492) + 1) % 0x1_0000_0000
    ensures HintLimit(info) == (Word(info, 488) + 1) % 0x1_0000_0000
  {
  }

  /** Storing a hint changes the four bytes at 492 and no other. */
  lemma HintBytes(info: seq<Byte>, next: nat)
    requires |info| == 512 && 0 < next < 0x1_0000_0000
    ensures var r := WithHint(info, next);
      && |r| == 512 && Word(r, 492) == next - 1
      && forall k :: 0 <= k < 512 && !(492 <= k < 496) ==> r[k] == info[k]
  {
    Get32Set32(info, 492, next - 1);
  }

  /** A directory the disk agrees with: the bytes of an entry. */
  lemma EntryOnDisk(vol: Volume, sec: nat, pos: nat, e: seq<Byte>)
    requires vol.Valid() && Durable(vol.dir) && IsTag(vol.dir.geo, sec) && vol.dir.Valid()
    requires HasEntry(vol.dir.View(), sec, pos, e) && |e| == 32
    ensures 512 * sec + pos + 32 <= |vol.disk.bytes| && vol.disk.bytes[512 * sec + pos..512 * sec + pos + 32] == e
  {
    hide Volume.Valid;
    hide ClockCache.Valid;
    hide ClockCache.View;
    hide Durable;
    hide IsTag;
    vol.DirFacts();
    BlockShown(vol.dir, sec);
    SliceOfSlice(vol.disk.bytes, 512 * sec, 512, pos, 32);
  }

  // --------------------------------------------------------------------- closing

  /** fs_close, by address: the entry lies at its place in its sector, every byte of the
      file in its cluster, and every FAT entry at its place in both copies. */
  method CloseToDisk(f: FatFile, ghost secs: set<nat>)
    requires f.Valid() && Intact(f, f.Bytes(), secs)
    modifies f.vol.disk, f.vol.fat.slots, f.vol.dir.slots, f.vol.dir`clockHead, f.data.slots
    ensures f.Valid() && f.Content() == old(f.Content()) && f.vol.lay.sectorsPerCluster > 0
    ensures var a := 512 * (f.dirEntrySector + f.vol.lay.base) + f.dirEntryPos;
      a + 32 <= |f.vol.disk.bytes| && f.vol.disk.bytes[a..a + 32] == f.entry
    ensures InClusters(f.vol.disk.bytes, 512 * (f.vol.lay.base + f.vol.lay.reserved + 2 * f.vol.lay.sectorsPerFat),
                       512 * f.vol.lay.sectorsPerCluster, f.chain, f.Content())
    ensures forall c: nat :: c < f.vol.lay.Entries() ==>
      EntryAt(f.vol.disk.bytes, 512 * (f.vol.lay.base + f.vol.lay.reserved), 512 * f.vol.lay.sectorsPerFat, c, f.vol.Fat()[c])
  {
    hide FatFile.Valid;
    hide FatFile.Bytes;
    hide FatFile.Content;
    hide ClockCache.Valid;
    hide ClockCache.View;
    hide Volume.Valid;
    hide HasEntry;
    hide EntryStored;
    hide IsTag;
    hide SameOn;
    hide OnlySystemChanged;
    hide OnlyOwnChanged;
    hide CachesOnly;
    hide Away;
    hide Durable;
    hide InClusters;
    hide EntryAt;
    hide Volume.Fat;
    f.PositionInside();
    f.ChainFacts();
    f.vol.DirFacts();
    f.vol.dir.ViewSizes();
    ghost var v0 := f.vol.dir.View();
    ghost var mid := Close(f, secs);
    EntryFound(v0, f.vol.dir.View(), secs, EntrySector(f), f.dirEntryPos, f.entry);
    f.PositionInside();
    f.ChainFacts();
    EntryOnDisk(f.vol, EntrySector(f), f.dirEntryPos, f.entry);
    ContentOnDisk(f);
    forall c: nat | c < f.vol.lay.Entries()
      ensures EntryAt(f.vol.disk.bytes, 512 * (f.vol.lay.base + f.vol.lay.reserved), 512 * f.vol.lay.sectorsPerFat, c, f.vol.Fat()[c])
    {
      FatOnDisk(f.vol, c);
    }
  }

  /** fs_rm, by address: the first byte of the entry is 0xE5 on the disk, the other 31
      bytes stay, and every FAT entry lies at its place in both copies. */
  method RemoveOnDisk(vol: Volume, sec: nat, pos: nat, ghost secs: set<nat>, ghost e: seq<Byte>)
    requires vol.Valid() && DirReady(vol, secs) && FatClose.Placed(vol, sec, pos, secs)
    requires |e| == 32 && HasEntry(vol.dir.View(), sec, pos, e)
    modifies vol.disk, vol.fat.slots, vol.fat`clockHead, vol`table, vol.dir.slots, vol.dir`clockHead
    ensures vol.Valid() && 512 * sec + pos + 32 <= |vol.disk.bytes|
    ensures vol.disk.bytes[512 * sec + pos] == 0xE5
    ensures vol.disk.bytes[512 * sec + pos + 1..512 * sec + pos + 32] == e[1..]
    ensures forall c: nat :: c < vol.lay.Entries() ==>
      EntryAt(vol.disk.bytes, 512 * (vol.lay.base + vol.lay.reserved), 512 * vol.lay.sectorsPerFat, c, vol.Fat()[c])
  {
    hide Volume.Valid;
    hide Volume.Fat;
    hide ClockCache.Valid;
    hide ClockCache.View;
    hide OnlySystemChanged;
    hide Released;
    hide Clean;
    hide Durable;
    hide InfoOnDisk;
    hide HasEntry;
    hide IsTag;
    hide EntryAt;
    hide CachesOnly;
    vol.DirFacts();
    vol.dir.ViewSizes();
    ghost var v0, e' := vol.dir.View(), e[0 := FREE_ENTRY];
    Remove(vol, sec, pos, secs, e);
    StoredIsShown(v0, sec, pos, e');
    vol.DirFacts();
    CleanIsDurable(vol.fat);
    CleanIsDurable(vol.dir);
    EntryOnDisk(vol, sec, pos, e');
    forall c: nat | c < vol.lay.Entries()
      ensures EntryAt(vol.disk.bytes, 512 * (vol.lay.base + vol.lay.reserved), 512 * vol.lay.sectorsPerFat, c, vol.Fat()[c])
    {
      FatOnDisk(vol, c);
    }
  }

  lemma StoredIsShown(v: map<nat, seq<Byte>>, sec: nat, pos: nat, e: seq<Byte>)
    requires sec in v && |v[sec]| == 512 && |e| == 32 && pos + 32 <= 512
    ensures HasEntry(EntryStored(v, sec, pos, e), sec, pos, e)
  {
    EntryFound(v, EntryStored(v, sec, pos, e), {sec}, sec, pos, e);
  }
}
