/** A closed file read back after a new mount: init_fs and fs_open see on the disk
    what the old caches showed (kernel/fs/fat/fat.c). */
module FatRemount {
  import opened BlockCache
  import opened FsCache
  import opened FatVolume
  import opened FatData
  import opened FatChains
  import opened FatFile
  import opened FatClose

  /** An empty cache shows the disk. */
  lemma EmptyShowsDisk(cache: ClockCache)
    requires cache.Valid() && cache.IsEmpty()
    ensures cache.View() == Image(cache.geo, cache.disk.bytes, [])
  {
    DiscardClean(cache.geo, cache.disk.bytes, cache.slots[..], []);
  }

  /** The two FAT copies on the disk are equal, whatever the cache holds. */
  lemma CopiesEqual(vol: Volume)
    requires vol.Valid()
    ensures forall a: nat :: IsTag(vol.lay.FatGeometry(), a) ==>
      512 * (a + vol.lay.sectorsPerFat + 1) <= |vol.disk.bytes|
      && Block(vol.disk.bytes, a, 1) == Block(vol.disk.bytes, a + vol.lay.sectorsPerFat, 1)
  {
    vol.fat.IsCoherent();
  }

  /** init_fs on the disk of a volume whose caches were saved. */
  method Remount(vol: Volume) returns (v: Volume)
    requires vol.Valid() && vol.dir.Valid() && InfoOnDisk(vol) && Durable(vol.fat) && Durable(vol.dir)
    ensures v.Valid() && v.disk == vol.disk && v.lay == vol.lay && v.fsInfo == vol.fsInfo
    ensures v.table == vol.table
    ensures v.dir.Valid() && v.dir.View() == vol.dir.View() && v.dir.IsEmpty()
    ensures fresh(v) && fresh(v.fat) && fresh(v.fat.slots) && fresh(v.dir) && fresh(v.dir.slots)
  {
    hide ClockCache.View;
    CopiesEqual(vol);
    v := new Volume(vol.disk, vol.lay);
    EmptyShowsDisk(v.fat);
    EmptyShowsDisk(v.dir);
  }

  lemma NothingWrittenBack(g: Geometry, b: seq<Byte>, b': seq<Byte>, slots: seq<Slot>)
    requires OnlyCachedChanged(g, b, b', slots) && forall i :: 0 <= i < |slots| ==> slots[i].cur == NO_BLOCK
    ensures b' == b
  {
  }

  /** The directory sector read through an empty cache: the disk is not touched. */
  method ReadSector(cache: ClockCache, sec: nat) returns (buf: seq<Byte>)
    requires cache.Valid() && cache.IsEmpty() && IsTag(cache.geo, sec)
    modifies cache.slots, cache.disk, cache`clockHead
    ensures cache.Valid() && cache.disk.bytes == old(cache.disk.bytes) && cache.View() == old(cache.View())
    ensures sec in cache.View() && buf == cache.View()[sec]
  {
    hide ClockCache.Valid;
    hide ClockCache.View;
    var index := cache.Fetch(sec);
    NothingWrittenBack(cache.geo, old(cache.disk.bytes), cache.disk.bytes, old(cache.slots[..]));
    cache.IsCoherent();
    cache.SlotIsView(index);
    buf := cache.slots[index].buf;
  }

  /** fs_open of the file a directory entry describes. */
  method OpenEntry(v: Volume, pos: nat, sector: nat, ghost e: seq<Byte>, ghost ch: seq<nat>) returns (g: FatFile)
    requires v.Valid() && v.dir.Valid() && v.dir.IsEmpty()
    requires IsTag(v.dir.geo, sector + v.lay.base) && HasEntry(v.dir.View(), sector + v.lay.base, pos, e) && |e| == 32
    requires IsFileChain(v.Fat(), StartCluster(e), ch) && FileSize(e) <= v.lay.Bytes(|ch|)
    modifies v.dir.slots, v.disk, v.dir`clockHead
    ensures g.Valid() && g.vol == v && g.loc == 0 && g.chain == ch && g.entry == e && fresh(g)
    ensures v.disk.bytes == old(v.disk.bytes)
    ensures 512 * v.lay.DataGeometry().hi <= |v.disk.bytes|
    ensures g.data.View() == Image(v.lay.DataGeometry(), v.disk.bytes, [])
  {
    hide ClockCache.Valid;
    hide ClockCache.View;
    hide IsFileChain;
    hide IsTag;
    v.DirFacts();
    var buf := ReadSector(v.dir, sector + v.lay.base);
    v.Framed();
    g := new FatFile(v, buf[pos..pos + 32], pos, sector, ch);
    EmptyShowsDisk(g.data);
  }

  /** A volume from which a file with this entry and chain can be opened. */
  ghost predicate Offers(v: Volume, pos: nat, sector: nat, e: seq<Byte>, ch: seq<nat>)
    reads v`fsInfo, v`table, v.disk, v.fat, v.fat.slots, v.dir, v.dir.slots, v.dir.disk
  {
    && v.Valid() && v.dir.Valid() && v.dir.IsEmpty()
    && IsTag(v.dir.geo, sector + v.lay.base) && HasEntry(v.dir.View(), sector + v.lay.base, pos, e) && |e| == 32
    && IsFileChain(v.Fat(), StartCluster(e), ch) && FileSize(e) <= v.lay.Bytes(|ch|)
  }

  method MountFor(f: FatFile) returns (v: Volume)
    requires f.Valid() && f.vol.dir.Valid() && Saved(f)
    requires IsTag(f.vol.dir.geo, EntrySector(f)) && HasEntry(f.vol.dir.View(), EntrySector(f), f.dirEntryPos, f.entry)
    ensures Offers(v, f.dirEntryPos, f.dirEntrySector, f.entry, f.chain) && v.lay == f.vol.lay && v.Fat() == f.vol.Fat()
    ensures v.dir.disk == v.disk == f.vol.disk && fresh(v) && fresh(v.dir) && fresh(v.dir.slots)
  {
    hide ClockCache.Valid;
    hide ClockCache.View;
    hide FatFile.Valid;
    hide IsFileChain;
    hide HasEntry;
    hide IsTag;
    f.ChainFacts();
    f.PositionInside();
    f.vol.DirFacts();
    v := Remount(f.vol);
    v.DirFacts();
    assert v.Fat() == f.vol.Fat();
  }

  /** A new mount and a new handle for a closed file. */
  method Reopen(f: FatFile) returns (g: FatFile)
    requires f.Valid() && f.vol.dir.Valid() && Saved(f)
    requires IsTag(f.vol.dir.geo, EntrySector(f)) && HasEntry(f.vol.dir.View(), EntrySector(f), f.dirEntryPos, f.entry)
    modifies f.vol.disk
    ensures g.Valid() && fresh(g) && fresh(g.vol) && g.loc == 0
    ensures g.entry == f.entry && g.Bytes() == old(f.Bytes()) && g.Content() == old(f.Content())
    ensures g.vol.Fat() == f.vol.Fat()
  {
    hide ClockCache.Valid;
    hide ClockCache.View;
    hide FatFile.Valid;
    hide Stored;
    hide HasEntry;
    hide IsTag;
    hide HoldsClusters;
    hide IsFileChain;
    hide BlockCache.Image;
    hide Volume.Valid;
    hide Saved;
    f.PositionInside();
    SavedBytes(f);
    var v := MountFor(f);
    g := OpenEntry(v, f.dirEntryPos, f.dirEntrySector, f.entry, f.chain);
    g.PositionInside();
  }

  /** The bytes of a saved file can be read off the disk. */
  lemma SavedBytes(f: FatFile)
    requires f.Valid() && f.vol.dir.Valid() && Saved(f)
    ensures 512 * f.vol.lay.DataGeometry().hi <= |f.vol.disk.bytes|
    ensures var img := Image(f.vol.lay.DataGeometry(), f.vol.disk.bytes, []);
      HoldsClusters(f.vol.lay, img, f.chain) && f.Bytes() == Stored(f.vol.lay, img, f.chain)
  {
  }

  /** Closing a file, mounting anew and opening it again gives the same file. */
  method CloseAndReopen(f: FatFile, ghost secs: set<nat>) returns (g: FatFile)
    requires f.Valid() && Intact(f, f.Bytes(), secs)
    modifies f.vol.disk, f.vol.fat.slots, f.vol.dir.slots, f.vol.dir`clockHead, f.data.slots
    ensures g.Valid() && fresh(g) && fresh(g.vol) && g.loc == 0
    ensures g.entry == f.entry && g.Content() == old(f.Content())
    ensures g.vol.Fat() == f.vol.Fat()
  {
    hide FatFile.Valid;
    hide FatFile.Bytes;
    hide ClockCache.Valid;
    hide ClockCache.View;
    hide Volume.Valid;
    hide IsFileChain;
    hide HasEntry;
    hide IsTag;
    hide Saved;
    hide SameOn;
    hide EntryStored;
    hide OnlySystemChanged;
    hide OnlyOwnChanged;
    hide CachesOnly;
    hide Away;
    f.PositionInside();
    f.ChainFacts();
    f.vol.DirFacts();
    f.vol.dir.ViewSizes();
    ghost var v0 := f.vol.dir.View();
    ghost var mid := Close(f, secs);
    EntryFound(v0, f.vol.dir.View(), secs, EntrySector(f), f.dirEntryPos, f.entry);
    f.PositionInside();
    g := Reopen(f);
  }
}
