/** fs_rm: the entry is marked free, its clusters are released, and all of it is saved
    (kernel/fs/fat/usr.c). */
module FatRemove {
  import opened BlockCache
  import opened FsCache
  import opened FatVolume
  import opened FatData
  import opened FatChains
  import opened FatFile
  import opened FatClose

  /** The first byte of a free entry (Microsoft FAT32 File System Specification v1.03,
      "FAT Directory Structure"). */
  const FREE_ENTRY: Byte := 0xE5

  /** The entry in its sector, as fs_open copies it. */
  method ReadEntry(vol: Volume, sec: nat, pos: nat, ghost secs: set<nat>, ghost e: seq<Byte>) returns (entry: seq<Byte>)
    requires vol.Valid() && DirReady(vol, secs) && Placed(vol, sec, pos, secs)
    requires |e| == 32 && HasEntry(vol.dir.View(), sec, pos, e)
    modifies vol.disk, vol.dir.slots, vol.dir`clockHead
    ensures vol.Valid() && DirReady(vol, secs) && vol.dir.View() == old(vol.dir.View()) && entry == e
    ensures OnlySystemChanged(vol.lay, old(vol.disk.bytes), vol.disk.bytes, secs)
  {
    hide Volume.Valid;
    hide ClockCache.Valid;
    hide ClockCache.View;
    hide OnlySystemChanged;
    hide CachesOnly;
    hide IsTag;
    var index := FetchEntry(vol, sec, secs);
    vol.dir.SlotIsView(index);
    entry := vol.dir.slots[index].buf[pos..pos + 32];
  }

  /** The loop of fs_rm leaves the directory alone. */
  method ReleaseClusters(vol: Volume, start: nat, ghost secs: set<nat>)
    requires vol.Valid() && DirReady(vol, secs)
    modifies vol.disk, vol.fat.slots, vol.fat`clockHead, vol`table
    ensures vol.Valid() && DirReady(vol, secs) && vol.dir.View() == old(vol.dir.View())
    ensures vol.Fat() == Released(old(vol.Fat()), start)
    ensures OnlySystemChanged(vol.lay, old(vol.disk.bytes), vol.disk.bytes, secs)
  {
    hide Volume.Valid;
    hide ClockCache.Valid;
    hide ClockCache.View;
    hide CachesOnly;
    hide Released;
    hide OnlySystemChanged;
    vol.DirFacts();
    vol.ReleaseChain(start);
    FatIsSystem(vol.lay, old(vol.disk.bytes), vol.disk.bytes, secs);
    vol.dir.Framed();
  }

  /** fs_rm of the file with the entry e at this place.  Its clusters are released, the
      entry keeps all bytes but the first, which marks it free, FSInfo, FAT and directory
      are saved, and only system and directory sectors change on the disk. */
  method Remove(vol: Volume, sec: nat, pos: nat, ghost secs: set<nat>, ghost e: seq<Byte>)
    requires vol.Valid() && DirReady(vol, secs) && Placed(vol, sec, pos, secs)
    requires |e| == 32 && HasEntry(vol.dir.View(), sec, pos, e)
    modifies vol.disk, vol.fat.slots, vol.fat`clockHead, vol`table, vol.dir.slots, vol.dir`clockHead
    ensures vol.Valid() && DirReady(vol, secs)
    ensures vol.Fat() == Released(old(vol.Fat()), StartCluster(e))
    ensures vol.dir.View() == EntryStored(old(vol.dir.View()), sec, pos, e[0 := FREE_ENTRY])
    ensures Clean(vol.fat) && Clean(vol.dir) && InfoOnDisk(vol)
    ensures OnlySystemChanged(vol.lay, old(vol.disk.bytes), vol.disk.bytes, secs)
  {
    hide Volume.Valid;
    hide ClockCache.Valid;
    hide ClockCache.View;
    hide OnlySystemChanged;
    hide Released;
    hide Clean;
    hide InfoOnDisk;
    hide EntryStored;
    hide HasEntry;
    hide Placed;
    ghost var b0 := vol.disk.bytes;
    var entry := ReadEntry(vol, sec, pos, secs, e);
    ghost var b1 := vol.disk.bytes;
    var marked := entry[0 := FREE_ENTRY];
    ReleaseClusters(vol, StartCluster(entry), secs);
    SystemTrans(vol.lay, b0, b1, vol.disk.bytes, secs);
    ghost var b2 := vol.disk.bytes;
    PutEntryAt(vol, sec, pos, marked, secs);
    SystemTrans(vol.lay, b0, b2, vol.disk.bytes, secs);
    ghost var b3 := vol.disk.bytes;
    Fflush(vol, secs);
    SystemTrans(vol.lay, b0, b3, vol.disk.bytes, secs);
  }
}
