/** fs_fflush and fs_close: after them the disk alone shows what the caches showed
    (kernel/fs/fat/fat.c). */
module FatClose {
  import opened BlockCache
  import opened FsCache
  import opened FatLayout
  import opened FatVolume
  import opened FatData
  import opened FatChains
  import opened FatFile

  /** The sectors of the reserved area, of both FAT copies and of the directory
      sectors `secs` may differ, nothing else. */
  ghost predicate OnlySystemChanged(lay: Layout, b: seq<Byte>, b': seq<Byte>, secs: set<nat>) {
    && |b'| == |b|
    && forall x: nat :: x < |b| && b'[x] != b[x] ==>
         x < 512 * (lay.base + lay.FirstDataSector()) || exists s :: s in secs && InSector(s, x)
  }

  ghost predicate InSector(s: nat, x: nat) {
    512 * s <= x < 512 * (s + 1)
  }

  /** The disk shows what the cache shows. */
  ghost predicate Durable(cache: ClockCache)
    reads cache, cache.disk, cache.slots
  {
    cache.Valid() && cache.View() == Image(cache.geo, cache.disk.bytes, [])
  }

  ghost predicate Clean(cache: ClockCache)
    reads cache.slots
  {
    forall i :: 0 <= i < cache.slots.Length ==> Evictable(cache.slots[i])
  }

  lemma CleanIsDurable(cache: ClockCache)
    requires cache.Valid() && Clean(cache)
    ensures Durable(cache)
  {
    DiscardClean(cache.geo, cache.disk.bytes, cache.slots[..], []);
  }

  lemma SystemTrans(lay: Layout, b0: seq<Byte>, b1: seq<Byte>, b2: seq<Byte>, secs: set<nat>)
    requires OnlySystemChanged(lay, b0, b1, secs) && OnlySystemChanged(lay, b1, b2, secs)
    ensures OnlySystemChanged(lay, b0, b2, secs)
  {
  }

  lemma SystemSparesFile(lay: Layout, b: seq<Byte>, b': seq<Byte>, secs: set<nat>, ch: seq<nat>)
    requires OnlySystemChanged(lay, b, b', secs) && Away(lay, secs, ch)
    ensures BlocksKept(lay, b, b', ch)
  {
    forall c | c in ch ensures ClusterKept(lay, b, b', c) {
      forall x: nat | x < |b| && InCluster(lay, c, x) ensures b'[x] == b[x] {
        forall s | s in secs ensures !InSector(s, x) { }
      }
    }
  }

  lemma FatIsSystem(lay: Layout, b: seq<Byte>, b': seq<Byte>, secs: set<nat>)
    requires |b'| == |b|
    requires forall x: nat :: x < |b| && b'[x] != b[x] ==> x < 512 * (lay.base + lay.FirstDataSector())
    ensures OnlySystemChanged(lay, b, b', secs)
    ensures SameSectors(b, b', lay.DirGeometry().lo, lay.DirGeometry().hi)
  {
  }

  lemma DirIsSystem(lay: Layout, b: seq<Byte>, b': seq<Byte>, slots: seq<Slot>, secs: set<nat>)
    requires Coherent(lay.DirGeometry(), b, slots) && OnlyCachedChanged(lay.DirGeometry(), b, b', slots)
    requires CachesOnly(slots, secs)
    ensures OnlySystemChanged(lay, b, b', secs)
    ensures SameSectors(b, b', 0, lay.base + lay.FirstDataSector())
  {
    forall x: nat | x < |b| && b'[x] != b[x] ensures exists s :: s in secs && InSector(s, x) {
      var i :| 0 <= i < |slots| && slots[i].cur != NO_BLOCK && InBlock(lay.DirGeometry(), slots[i].cur, x);
      assert InSector(slots[i].cur, x);
    }
  }

  /** FSInfo, in sector 1 and its backup in sector 7 of the partition. */
  method WriteInfo(vol: Volume, ghost secs: set<nat>)
    requires vol.Valid() && vol.dir.Valid()
    modifies vol.disk
    ensures vol.Valid() && vol.dir.Valid() && vol.dir.View() == old(vol.dir.View())
    ensures InfoOnDisk(vol) && OnlySystemChanged(vol.lay, old(vol.disk.bytes), vol.disk.bytes, secs)
  {
    var lay := vol.lay;
    ghost var b := vol.disk.bytes;
    InfoPlaces(lay, b, vol.fsInfo, secs);
    vol.disk.WriteBlock(vol.fsInfo, 1 + lay.base);
    vol.disk.WriteBlock(vol.fsInfo, 7 + lay.base);
    vol.Framed();
    vol.dir.Framed();
  }

  ghost predicate InfoOnDisk(vol: Volume)
    reads vol`fsInfo, vol.disk
  {
    && 512 * (8 + vol.lay.base) <= |vol.disk.bytes|
    && Block(vol.disk.bytes, 1 + vol.lay.base, 1) == vol.fsInfo == Block(vol.disk.bytes, 7 + vol.lay.base, 1)
  }

  lemma TwoWrites(b: seq<Byte>, i: nat, j: nat, info: seq<Byte>, lo: nat)
    requires |info| == 512 && i < j < lo && 512 * lo <= |b|
    ensures var b' := WriteAt(WriteAt(b, i, info), j, info);
      Block(b', i, 1) == info == Block(b', j, 1) && forall x: nat :: 512 * lo <= x < |b| ==> b'[x] == b[x]
  {
    var b1 := WriteAt(b, i, info);
    BlockAfterWrite(b, i, info, i, 1);
    BlockAfterWrite(b1, j, info, i, 1);
    BlockAfterWrite(b1, j, info, j, 1);
    forall x: nat | 512 * lo <= x < |b| ensures WriteAt(b1, j, info)[x] == b[x] {
      WriteAtByte(b, i, info, x);
      WriteAtByte(b1, j, info, x);
    }
  }

  lemma InfoPlaces(lay: Layout, b: seq<Byte>, info: seq<Byte>, secs: set<nat>)
    requires lay.WellFormed() && |info| == 512 && 512 * lay.DirGeometry().hi <= |b|
    ensures 512 * (8 + lay.base) <= |b|
    ensures var b' := WriteAt(WriteAt(b, 1 + lay.base, info), 7 + lay.base, info);
      && Block(b', 1 + lay.base, 1) == info == Block(b', 7 + lay.base, 1)
      && SameSectors(b, b', lay.DirGeometry().lo, lay.DirGeometry().hi)
      && SameSectors(b, b', lay.FatStart(), lay.base + lay.FirstDataSector())
      && OnlySystemChanged(lay, b, b', secs)
  {
    TwoWrites(b, 1 + lay.base, 7 + lay.base, info, lay.FatStart());
  }

  /** write_fat_sector for every FAT slot. */
  method FlushFat(vol: Volume, ghost secs: set<nat>)
    requires vol.Valid() && vol.dir.Valid() && InfoOnDisk(vol)
    modifies vol.disk, vol.fat.slots
    ensures vol.Valid() && vol.dir.Valid() && vol.dir.View() == old(vol.dir.View()) && Clean(vol.fat)
    ensures InfoOnDisk(vol) && OnlySystemChanged(vol.lay, old(vol.disk.bytes), vol.disk.bytes, secs)
  {
    var lay := vol.lay;
    ghost var b, s := vol.disk.bytes, vol.fat.slots[..];
    vol.fat.FlushAll();
    vol.FatWrites(b, vol.disk.bytes, s);
    FatIsSystem(lay, b, vol.disk.bytes, secs);
    SameBlock(b, vol.disk.bytes, 0, lay.FatStart(), 1 + lay.base, 1);
    SameBlock(b, vol.disk.bytes, 0, lay.FatStart(), 7 + lay.base, 1);
    vol.dir.Framed();
  }

  /** fs_write_512 for every directory slot. */
  method FlushDir(vol: Volume, ghost secs: set<nat>)
    requires vol.Valid() && vol.dir.Valid() && CachesOnly(vol.dir.slots[..], secs) && InfoOnDisk(vol)
    modifies vol.disk, vol.dir.slots
    ensures vol.Valid() && vol.dir.Valid() && vol.dir.View() == old(vol.dir.View()) && Clean(vol.dir)
    ensures CachesOnly(vol.dir.slots[..], secs)
    ensures InfoOnDisk(vol) && OnlySystemChanged(vol.lay, old(vol.disk.bytes), vol.disk.bytes, secs)
  {
    var lay := vol.lay;
    ghost var b, s := vol.disk.bytes, vol.dir.slots[..];
    vol.dir.IsCoherent();
    vol.dir.FlushAll();
    DirIsSystem(lay, b, vol.disk.bytes, s, secs);
    SameBlock(b, vol.disk.bytes, 0, lay.base + lay.FirstDataSector(), 1 + lay.base, 1);
    SameBlock(b, vol.disk.bytes, 0, lay.base + lay.FirstDataSector(), 7 + lay.base, 1);
    vol.Framed();
  }

  /** fs_fflush. */
  method Fflush(vol: Volume, ghost secs: set<nat>)
    requires vol.Valid() && vol.dir.Valid() && CachesOnly(vol.dir.slots[..], secs)
    modifies vol.disk, vol.fat.slots, vol.dir.slots
    ensures vol.Valid() && vol.dir.Valid() && vol.dir.View() == old(vol.dir.View())
    ensures Clean(vol.fat) && Clean(vol.dir) && InfoOnDisk(vol) && CachesOnly(vol.dir.slots[..], secs)
    ensures OnlySystemChanged(vol.lay, old(vol.disk.bytes), vol.disk.bytes, secs)
  {
    hide Volume.Valid;
    hide ClockCache.Valid;
    hide ClockCache.View;
    hide InfoOnDisk;
    hide CachesOnly;
    hide OnlySystemChanged;
    vol.DirFacts();
    ghost var b0 := vol.disk.bytes;
    WriteInfo(vol, secs);
    ghost var b1 := vol.disk.bytes;
    FlushFat(vol, secs);
    ghost var b2 := vol.disk.bytes;
    SystemTrans(vol.lay, b0, b1, b2, secs);
    FlushDir(vol, secs);
    SystemTrans(vol.lay, b0, b2, vol.disk.bytes, secs);
  }

  /** The copy of a directory entry into its sector. */
  method FillEntry(cache: ClockCache, index: nat, pos: nat, entry: seq<Byte>)
    requires cache.Valid() && index < cache.slots.Length && cache.slots[index].cur != NO_BLOCK
    requires |entry| == 32 && pos + 32 <= |cache.slots[index].buf|
    modifies cache.slots
    ensures cache.Valid() && SameTags(old(cache.slots[..]), cache.slots[..])
    ensures var s := old(cache.slots[index]); cache.View() == old(cache.View())[s.cur := Splice(s.buf, pos, entry)]
  {
    hide ClockCache.Valid;
    hide ClockCache.View;
    hide Splice;
    cache.MarkDirty(index);
    ghost var all, s, v := cache.slots[..], cache.slots[index], cache.View();
    cache.SlotIsView(index);
    SpliceNothing(s.buf, pos);
    UpdateSame(v, s.cur, s.buf);
    var i: nat := 0;
    while i < 32
      invariant i <= 32 && cache.Valid() && EntryCopied(cache.slots[..], cache.View(), all, v, index, pos, entry, i)
    {
      assert cache.slots[index] == cache.slots[..][index];
      CopyEntryByte(all, v, index, pos, entry, i);
      cache.Poke(index, pos + i, entry[i]);
      i := i + 1;
    }
    assert entry[..32] == entry;
  }

  ghost predicate EntryCopied(now: seq<Slot>, nowView: map<nat, seq<Byte>>, all: seq<Slot>, v: map<nat, seq<Byte>>,
                              index: nat, pos: nat, entry: seq<Byte>, i: nat)
    requires index < |all| && i <= |entry| && pos + |entry| <= |all[index].buf|
  {
    var b := Splice(all[index].buf, pos, entry[..i]);
    && now == all[index := all[index].(buf := b)]
    && nowView == v[all[index].cur := b]
  }

  lemma UpdateSame(m: map<nat, seq<Byte>>, k: nat, a: seq<Byte>)
    requires k in m && m[k] == a
    ensures m[k := a] == m
  {
  }

  lemma CopyEntryByte(all: seq<Slot>, v: map<nat, seq<Byte>>, index: nat, pos: nat, entry: seq<Byte>, i: nat)
    requires index < |all| && i < |entry| && pos + |entry| <= |all[index].buf|
    ensures var s, b, b' := all[index], Splice(all[index].buf, pos, entry[..i]), Splice(all[index].buf, pos, entry[..i + 1]);
      b[pos + i := entry[i]] == b' && v[s.cur := b][s.cur := b'] == v[s.cur := b']
  {
    assert entry[..i] == entry[0..i] && entry[..i + 1] == entry[0..i + 1];
    SpliceOne(all[index].buf, pos, entry, 0, i);
    UpdateTwice(v, all[index].cur, Splice(all[index].buf, pos, entry[..i]), Splice(all[index].buf, pos, entry[..i + 1]));
  }

  method StoreEntry(cache: ClockCache, index: nat, pos: nat, entry: seq<Byte>, ghost secs: set<nat>)
    requires cache.Valid() && index < cache.slots.Length && cache.slots[index].cur != NO_BLOCK
    requires |entry| == 32 && pos + 32 <= |cache.slots[index].buf| && CachesOnly(cache.slots[..], secs)
    modifies cache.slots
    ensures cache.Valid() && CachesOnly(cache.slots[..], secs)
    ensures cache.View() == EntryStored(old(cache.View()), old(cache.slots[index].cur), pos, entry)
  {
    hide ClockCache.Valid;
    hide ClockCache.View;
    hide Splice;
    cache.SlotIsView(index);
    ghost var s := cache.slots[..];
    FillEntry(cache, index, pos, entry);
    assert forall i :: 0 <= i < |s| ==> s[i].cur == cache.slots[..][i].cur;
  }

  /** The directory cache holds directory sectors only. */
  ghost predicate DirReady(vol: Volume, secs: set<nat>)
    reads vol.dir, vol.dir.slots, vol.dir.disk
    ensures DirReady(vol, secs) ==> vol.dir.Valid()
  {
    vol.dir.Valid() && CachesOnly(vol.dir.slots[..], secs)
  }

  /** A directory entry lies at `pos` of this sector. */
  ghost predicate Placed(vol: Volume, sec: nat, pos: nat, secs: set<nat>) {
    sec in secs && IsTag(vol.dir.geo, sec) && pos + 32 <= 512
  }

  /** An open file with contents d, and a directory cache that holds directory
      sectors only, none of them the file's. */
  ghost predicate Intact(f: FatFile, d: seq<Byte>, secs: set<nat>)
    reads f, f.vol`fsInfo, f.vol`table, f.vol.disk, f.vol.fat, f.vol.fat.slots, f.data, f.data.slots
    reads f.vol.dir, f.vol.dir.slots, f.vol.dir.disk
    ensures Intact(f, d, secs) ==> f.Valid() && f.vol.dir.Valid()
  {
    && f.Valid() && f.Bytes() == d
    && DirReady(f.vol, secs) && Away(f.vol.lay, secs, f.chain)
    && Placed(f.vol, EntrySector(f), f.dirEntryPos, secs)
  }

  /** fs_read_512 of the sector with a directory entry. */
  method FetchEntry(vol: Volume, sec: nat, ghost secs: set<nat>) returns (index: nat)
    requires vol.Valid() && DirReady(vol, secs) && sec in secs && IsTag(vol.dir.geo, sec)
    modifies vol.disk, vol.dir.slots, vol.dir`clockHead
    ensures vol.Valid() && DirReady(vol, secs) && vol.dir.View() == old(vol.dir.View())
    ensures index < vol.dir.slots.Length && vol.dir.slots[index].cur == sec != NO_BLOCK
    ensures |vol.dir.slots[index].buf| == 512
    ensures OnlySystemChanged(vol.lay, old(vol.disk.bytes), vol.disk.bytes, secs)
  {
    hide Volume.Valid;
    hide ClockCache.Valid;
    hide ClockCache.View;
    hide OnlySystemChanged;
    vol.DirFacts();
    ghost var b, s := vol.disk.bytes, vol.dir.slots[..];
    vol.dir.IsCoherent();
    index := vol.dir.Fetch(sec);
    vol.dir.IsCoherent();
    DirIsSystem(vol.lay, b, vol.disk.bytes, s, secs);
    vol.Framed();
  }

  /** An entry goes into its cached sector. */
  method PutEntryAt(vol: Volume, sec: nat, pos: nat, entry: seq<Byte>, ghost secs: set<nat>)
    requires vol.Valid() && DirReady(vol, secs) && Placed(vol, sec, pos, secs) && |entry| == 32
    modifies vol.disk, vol.dir.slots, vol.dir`clockHead
    ensures vol.Valid() && DirReady(vol, secs)
    ensures vol.dir.View() == EntryStored(old(vol.dir.View()), sec, pos, entry)
    ensures OnlySystemChanged(vol.lay, old(vol.disk.bytes), vol.disk.bytes, secs)
  {
    hide Volume.Valid;
    hide ClockCache.Valid;
    hide ClockCache.View;
    hide OnlySystemChanged;
    hide CachesOnly;
    hide EntryStored;
    hide IsTag;
    vol.DirFacts();
    var index := FetchEntry(vol, sec, secs);
    StoreEntry(vol.dir, index, pos, entry, secs);
  }

  /** The first step of fs_close: the directory entry goes into its cached sector. */
  method PutEntry(f: FatFile, ghost d: seq<Byte>, ghost secs: set<nat>)
    requires Intact(f, d, secs)
    modifies f.vol.disk, f.vol.dir.slots, f.vol.dir`clockHead
    ensures Intact(f, d, secs)
    ensures f.vol.dir.View() == EntryStored(old(f.vol.dir.View()), EntrySector(f), f.dirEntryPos, f.entry)
    ensures OnlySystemChanged(f.vol.lay, old(f.vol.disk.bytes), f.vol.disk.bytes, secs)
  {
    hide FatFile.Valid;
    hide FatFile.Bytes;
    hide ClockCache.Valid;
    hide ClockCache.View;
    hide IsFileChain;
    hide Volume.Fat;
    hide Volume.Valid;
    hide OnlySystemChanged;
    hide DirReady;
    hide Away;
    hide Placed;
    hide EntryStored;
    f.ChainFacts();
    f.vol.DirFacts();
    PutEntryAt(f.vol, f.dirEntrySector + f.vol.lay.base, f.dirEntryPos, f.entry, secs);
    SystemSparesFile(f.vol.lay, old(f.vol.disk.bytes), f.vol.disk.bytes, secs, f.chain);
    f.Unharmed();
  }

  /** The absolute sector of the file's directory entry. */
  function EntrySector(f: FatFile): nat {
    f.dirEntrySector + f.vol.lay.base
  }

  /** The directory after an entry was stored. */
  ghost function EntryStored(v: map<nat, seq<Byte>>, sec: nat, pos: nat, entry: seq<Byte>): map<nat, seq<Byte>> {
    if sec in v && pos + |entry| <= |v[sec]| then v[sec := Splice(v[sec], pos, entry)] else v
  }

  /** The 32 bytes at `pos` of a directory sector are the entry e. */
  ghost predicate HasEntry(dir: map<nat, seq<Byte>>, sec: nat, pos: nat, e: seq<Byte>) {
    sec in dir && pos + 32 <= |dir[sec]| && dir[sec][pos..pos + 32] == e
  }

  lemma EntryFound(v0: map<nat, seq<Byte>>, v1: map<nat, seq<Byte>>, secs: set<nat>, sec: nat, pos: nat, e: seq<Byte>)
    requires sec in secs && sec in v0 && |v0[sec]| == 512 && |e| == 32 && pos + 32 <= 512
    requires SameOn(secs, EntryStored(v0, sec, pos, e), v1)
    ensures HasEntry(v1, sec, pos, e)
  {
    assert Splice(v0[sec], pos, e)[pos..pos + 32] == e;
  }

  lemma InfoKept(lay: Layout, b: seq<Byte>, b': seq<Byte>)
    requires lay.WellFormed() && SameSectors(b, b', 0, lay.base + lay.FirstDataSector())
    requires 512 * (lay.base + lay.FirstDataSector()) <= |b|
    ensures Block(b', 1 + lay.base, 1) == Block(b, 1 + lay.base, 1)
    ensures Block(b', 7 + lay.base, 1) == Block(b, 7 + lay.base, 1)
  {
    SameBlock(b, b', 0, lay.base + lay.FirstDataSector(), 1 + lay.base, 1);
    SameBlock(b, b', 0, lay.base + lay.FirstDataSector(), 7 + lay.base, 1);
  }

  /** The last step of fs_close: the file's own cache. */
  method FlushData(f: FatFile, ghost d: seq<Byte>, ghost secs: set<nat>)
    requires Intact(f, d, secs) && InfoOnDisk(f.vol) && Clean(f.vol.fat) && Clean(f.vol.dir)
    modifies f.vol.disk, f.data.slots
    ensures Intact(f, d, secs) && InfoOnDisk(f.vol) && Clean(f.data) && Clean(f.vol.fat) && Clean(f.vol.dir)
    ensures SameOn(secs, old(f.vol.dir.View()), f.vol.dir.View())
    ensures OnlyOwnChanged(f.vol.lay, old(f.vol.disk.bytes), f.vol.disk.bytes, f.chain)
  {
    hide FatFile.Valid;
    hide FatFile.Bytes;
    hide IsFileChain;
    hide Volume.Valid;
    hide ClockCache.Valid;
    hide ClockCache.View;
    hide OnlyOwnChanged;
    hide SameOn;
    hide CachesOnly;
    f.ChainFacts();
    f.vol.DirFacts();
    ghost var b := f.vol.disk.bytes;
    f.FlushOwn();
    f.DirStays(secs);
    InfoKept(f.vol.lay, b, f.vol.disk.bytes);
  }

  /** fs_fflush, as the file sees it. */
  method FlushSystem(f: FatFile, ghost d: seq<Byte>, ghost secs: set<nat>)
    requires Intact(f, d, secs)
    modifies f.vol.disk, f.vol.fat.slots, f.vol.dir.slots
    ensures Intact(f, d, secs) && InfoOnDisk(f.vol) && Clean(f.vol.fat) && Clean(f.vol.dir)
    ensures f.vol.dir.View() == old(f.vol.dir.View())
    ensures OnlySystemChanged(f.vol.lay, old(f.vol.disk.bytes), f.vol.disk.bytes, secs)
  {
    hide FatFile.Valid;
    hide FatFile.Bytes;
    hide ClockCache.Valid;
    hide ClockCache.View;
    hide IsFileChain;
    hide InfoOnDisk;
    hide Clean;
    hide Volume.Valid;
    f.ChainFacts();
    f.vol.DirFacts();
    Fflush(f.vol, secs);
    SystemSparesFile(f.vol.lay, old(f.vol.disk.bytes), f.vol.disk.bytes, secs, f.chain);
    f.Unharmed();
  }

  /** fs_close up to the flushing of the file's own cache. */
  method SaveSystem(f: FatFile, ghost d: seq<Byte>, ghost secs: set<nat>)
    requires Intact(f, d, secs)
    modifies f.vol.disk, f.vol.fat.slots, f.vol.dir.slots, f.vol.dir`clockHead
    ensures Intact(f, d, secs) && InfoOnDisk(f.vol) && Clean(f.vol.fat) && Clean(f.vol.dir)
    ensures f.vol.dir.View() == EntryStored(old(f.vol.dir.View()), EntrySector(f), f.dirEntryPos, f.entry)
    ensures OnlySystemChanged(f.vol.lay, old(f.vol.disk.bytes), f.vol.disk.bytes, secs)
  {
    hide FatFile.Valid;
    hide ClockCache.Valid;
    hide ClockCache.View;
    hide Volume.Valid;
    hide InfoOnDisk;
    hide Clean;
    hide OnlySystemChanged;
    hide EntryStored;
    hide Intact;
    f.ChainFacts();
    f.vol.DirFacts();
    ghost var b0 := f.vol.disk.bytes;
    PutEntry(f, d, secs);
    ghost var b1 := f.vol.disk.bytes;
    FlushSystem(f, d, secs);
    SystemTrans(f.vol.lay, b0, b1, f.vol.disk.bytes, secs);
  }

  /** Every cache is clean, and the disk alone shows what they show. */
  ghost predicate Saved(f: FatFile)
    reads f.vol`fsInfo, f.vol.disk, f.vol.fat, f.vol.fat.slots, f.data, f.data.slots, f.vol.dir, f.vol.dir.slots
    reads f.vol.fat.disk, f.vol.dir.disk, f.data.disk
  {
    && InfoOnDisk(f.vol)
    && Clean(f.vol.fat) && Clean(f.vol.dir) && Clean(f.data)
    && Durable(f.vol.fat) && Durable(f.vol.dir) && Durable(f.data)
  }

  /** fs_close.  The file is unchanged, its entry is in its directory sector, every
      cache is clean, the disk alone shows all of it, and the disk changed in system
      and directory sectors first (up to `mid`), then in the file's clusters. */
  method Close(f: FatFile, ghost secs: set<nat>) returns (ghost mid: seq<Byte>)
    requires f.Valid() && Intact(f, f.Bytes(), secs)
    modifies f.vol.disk, f.vol.fat.slots, f.vol.dir.slots, f.vol.dir`clockHead, f.data.slots
    ensures Intact(f, old(f.Bytes()), secs) && Saved(f)
    ensures SameOn(secs, EntryStored(old(f.vol.dir.View()), EntrySector(f), f.dirEntryPos, f.entry), f.vol.dir.View())
    ensures OnlySystemChanged(f.vol.lay, old(f.vol.disk.bytes), mid, secs)
    ensures OnlyOwnChanged(f.vol.lay, mid, f.vol.disk.bytes, f.chain)
  {
    hide FatFile.Valid;
    hide FatFile.Bytes;
    hide ClockCache.Valid;
    hide ClockCache.View;
    hide Intact;
    hide InfoOnDisk;
    hide Clean;
    hide Durable;
    hide OnlySystemChanged;
    hide OnlyOwnChanged;
    hide EntryStored;
    hide SameOn;
    ghost var d := f.Bytes();
    SaveSystem(f, d, secs);
    mid := f.vol.disk.bytes;
    FlushData(f, d, secs);
    AllDurable(f);
  }

  lemma AllDurable(f: FatFile)
    requires f.Valid() && f.vol.dir.Valid()
    requires Clean(f.vol.fat) && Clean(f.vol.dir) && Clean(f.data)
    ensures Durable(f.vol.fat) && Durable(f.vol.dir) && Durable(f.data)
  {
    f.vol.DirFacts();
    CleanIsDurable(f.vol.fat);
    CleanIsDurable(f.vol.dir);
    CleanIsDurable(f.data);
  }
}
