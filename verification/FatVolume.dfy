/** The mounted FAT volume: reading and modifying the FAT through its two-slot
    cache, allocation and release of clusters (kernel/fs/fat/utils.c, fat.c, usr.c). */
module FatVolume {
  import opened Bits
  import opened BlockCache
  import opened FsCache
  import opened FatTable
  import opened FatChains
  import opened FatLayout

  datatype Result<+T> = Ok(value: T) | Err

  /** Offsets of FSI_Free_Count and FSI_Nxt_Free in the FSInfo sector. */
  const FREE_COUNT: nat := 488
  const NEXT_FREE: nat := 492

  const FAT_BUF_NUM: nat := 2
  const DIR_DATA_BUF_NUM: nat := 4

  /** The cluster after FSI_Nxt_Free. */
  function Hint(info: seq<Byte>): nat
    requires |info| == 512
  {
    (Get32(info, NEXT_FREE) + 1) % 0x1_0000_0000
  }

  /** The largest hint fs_alloc trusts: FSI_Free_Count + 1. */
  function HintLimit(info: seq<Byte>): nat
    requires |info| == 512
  {
    (Get32(info, FREE_COUNT) + 1) % 0x1_0000_0000
  }

  /** The cluster fs_alloc takes: the hint, or the first free one when the hint
      exceeds its limit. */
  function AllocChoice(fat: seq<nat>, info: seq<Byte>): nat
    requires |info| == 512
  {
    if Hint(info) > HintLimit(info) then FirstFree(fat, 2) else Hint(info)
  }

  /** The cluster fs_alloc would take exists: its number is that of a data cluster. */
  ghost predicate ChoiceInRange(fat: seq<nat>, info: seq<Byte>) {
    |info| == 512 && 2 <= AllocChoice(fat, info) < |fat|
  }

  /** The cluster fs_alloc would take is free and in range. */
  ghost predicate CanAlloc(fat: seq<nat>, info: seq<Byte>) {
    ChoiceInRange(fat, info) && fat[AllocChoice(fat, info)] == 0
  }

  /** The guard of a correct allocation: fs_alloc has a free cluster exactly when the
      hint names one, or is above its limit while some cluster is free. */
  lemma CanAllocIff(fat: seq<nat>, info: seq<Byte>)
    requires |info| == 512 && |fat| <= NO_CLUSTER
    ensures CanAlloc(fat, info) <==>
      if Hint(info) > HintLimit(info) then exists d :: 2 <= d < |fat| && fat[d] == 0
      else 2 <= Hint(info) < |fat| && fat[Hint(info)] == 0
  {
  }

  /** A hint that names a free cluster is good whatever its limit. */
  lemma GoodHint(fat: seq<nat>, info: seq<Byte>)
    requires |info| == 512 && |fat| <= NO_CLUSTER && 2 <= Hint(info) < |fat| && fat[Hint(info)] == 0
    ensures CanAlloc(fat, info)
  {
  }

  /** What a failed allocation of c leaves of the hint: distrusted, or naming c. */
  ghost predicate HintSpent(info: seq<Byte>, c: nat) {
    |info| == 512 && (Hint(info) > HintLimit(info) || Hint(info) == c)
  }

  /** FSInfo with a new hint. */
  function WithHint(info: seq<Byte>, next: nat): (r: seq<Byte>)
    requires |info| == 512 && next > 0
    ensures |r| == 512
  {
    Set32(info, NEXT_FREE, (next - 1) % 0x1_0000_0000)
  }

  lemma HintStored(info: seq<Byte>, next: nat)
    requires |info| == 512 && 0 < next < 0x1_0000_0000
    ensures Hint(WithHint(info, next)) == next && HintLimit(WithHint(info, next)) == HintLimit(info)
  {
    hide Set32;
    hide Get32;
    Get32Set32(info, NEXT_FREE, next - 1);
    Get32Same(info, WithHint(info, next), FREE_COUNT);
  }

  /** An FSInfo sector with these two fields. */
  function InfoWith(freeCount: nat, nextFree: nat): (info: seq<Byte>)
    requires freeCount < 0x1_0000_0000 && nextFree < 0x1_0000_0000
    ensures |info| == 512
  {
    Set32(Set32(Zeros(512), FREE_COUNT, freeCount), NEXT_FREE, nextFree)
  }

  lemma InfoFields(freeCount: nat, nextFree: nat)
    requires freeCount < 0x1_0000_0000 && nextFree < 0x1_0000_0000
    ensures var info := InfoWith(freeCount, nextFree);
      Hint(info) == (nextFree + 1) % 0x1_0000_0000 && HintLimit(info) == (freeCount + 1) % 0x1_0000_0000
  {
    var b := Set32(Zeros(512), FREE_COUNT, freeCount);
    Get32Set32(Zeros(512), FREE_COUNT, freeCount);
    Get32Set32(b, NEXT_FREE, nextFree);
    var info := Set32(b, NEXT_FREE, nextFree);
    assert forall k :: FREE_COUNT <= k < FREE_COUNT + 4 ==> info[k] == b[k];
  }

  /** A trusted hint that names a cluster in use: FSI_Nxt_Free is 2, FSI_Free_Count is
      1000, and cluster 3 is taken although it ends another file's chain. */
  lemma InUseHintTaken()
    ensures var fat, info := [0, 0, 0, END_OF_CHAIN, 0], InfoWith(1000, 2);
      IsChain(fat, [3]) && AllocChoice(fat, info) == 3 && ChoiceInRange(fat, info) && !CanAlloc(fat, info)
  {
    InfoFields(1000, 2);
    assert LinkOk([0, 0, 0, END_OF_CHAIN, 0], [3], 0);
  }

  /** A distrusted hint on a full table: the choice is 0xFFFFFFFF, and fs_modify_fat
      addresses a sector 0x7FFFFF behind the start of the FAT, beyond its end. */
  lemma FullTableChoice(sectorsPerFat: nat, reserved: nat, base: nat)
    requires sectorsPerFat <= 0x7F_FFFF
    ensures var fat, info := [END_OF_CHAIN, END_OF_CHAIN, END_OF_CHAIN, END_OF_CHAIN], InfoWith(0, 2);
      && AllocChoice(fat, info) == NO_CLUSTER && !ChoiceInRange(fat, info)
      && FatSector(NO_CLUSTER, reserved, base) == base + reserved + 0x7F_FFFF >= base + reserved + sectorsPerFat
  {
    InfoFields(0, 2);
    Pow2Values();
    var fat: seq<nat> := [END_OF_CHAIN, END_OF_CHAIN, END_OF_CHAIN, END_OF_CHAIN];
    assert forall d :: 2 <= d < |fat| ==> fat[d] != 0;
  }

  /** FSI_Nxt_Free 0xFFFFFFFF, the specification's "unknown": the hint wraps to cluster 0,
      which is no data cluster. */
  lemma UnknownHint(fat: seq<nat>, freeCount: nat)
    requires freeCount < 0x1_0000_0000
    ensures AllocChoice(fat, InfoWith(freeCount, 0xFFFF_FFFF)) == 0
    ensures !ChoiceInRange(fat, InfoWith(freeCount, 0xFFFF_FFFF))
  {
    InfoFields(freeCount, 0xFFFF_FFFF);
  }

  lemma EndOfChainStored()
    ensures Low28(NO_CLUSTER) == END_OF_CHAIN
  {
  }

  /** The four bits above the 28 that count are kept. */
  ghost predicate SameTopBits(t: seq<nat>, t': seq<nat>) {
    |t'| == |t| && forall c :: 0 <= c < |t| ==> t'[c] / 0x1000_0000 == t[c] / 0x1000_0000
  }

  class Volume {
    const lay: Layout
    const disk: Disk
    const fat: ClockCache
    const dir: ClockCache
    var fsInfo: seq<Byte>
    /** The 32-bit entries. */
    ghost var table: seq<nat>

    /** init_fs on a volume whose two FAT copies agree: empty caches, FSInfo from
        sector 1 of the partition. */
    constructor (disk: Disk, lay: Layout)
      requires lay.WellFormed() && 512 * lay.DirGeometry().hi <= |disk.bytes|
      requires forall a: nat :: IsTag(lay.FatGeometry(), a) ==>
        Block(disk.bytes, a, 1) == Block(disk.bytes, a + lay.sectorsPerFat, 1)
      ensures Valid() && this.disk == disk && this.lay == lay && fresh(fat) && fresh(fat.slots) && fresh(dir) && fresh(dir.slots)
      ensures fat.IsEmpty() && dir.Valid() && dir.IsEmpty()
      ensures fsInfo == Block(disk.bytes, 1 + lay.base, 1)
    {
      this.disk := disk;
      this.lay := lay;
      fat := new ClockCache(disk, lay.FatGeometry(), FAT_BUF_NUM);
      dir := new ClockCache(disk, lay.DirGeometry(), DIR_DATA_BUF_NUM);
      var info := disk.ReadBlock(1 + lay.base, 1);
      fsInfo := info;
      new;
      fat.ViewSizes();
      table := RawOf(fat.View(), lay.FatStart(), lay.Entries());
    }

    /** Everything but the table. */
    ghost predicate Mounted()
      reads `fsInfo, disk, fat, fat.slots
    {
      && lay.WellFormed()
      && fat.disk == disk && dir.disk == disk && fat != dir && fat.slots != dir.slots
      && fat.geo == lay.FatGeometry() && dir.geo == lay.DirGeometry()
      && fat.Valid()
      && |fsInfo| == 512
      && 512 * lay.DirGeometry().hi <= |disk.bytes|
    }

    /** `table` is what the FAT shows through its cache. */
    ghost predicate Valid()
      reads `fsInfo, `table, disk, fat, fat.slots
      ensures Valid() ==> lay.WellFormed() && |table| == lay.Entries() && |fsInfo| == 512
    {
      && Mounted()
      && HoldsTable(fat.View(), lay.FatStart(), lay.Entries())
      && table == RawOf(fat.View(), lay.FatStart(), lay.Entries())
    }

    /** The 28 bits that count. */
    ghost function Fat(): (t: seq<nat>)
      reads `table
      ensures |t| == |table|
    {
      FatOf(table)
    }

    /** Only sectors of the two FAT copies differ. */
    ghost predicate OnlyFatChanged(b: seq<Byte>, b': seq<Byte>) {
      && |b'| == |b|
      && forall x: nat :: x < |b| && b'[x] != b[x] ==>
           512 * lay.FatStart() <= x < 512 * (lay.base + lay.FirstDataSector())
    }

    lemma FatWrites(b: seq<Byte>, b': seq<Byte>, slots: seq<Slot>)
      requires lay.WellFormed() && Coherent(lay.FatGeometry(), b, slots)
      requires OnlyCachedChanged(lay.FatGeometry(), b, b', slots)
      ensures OnlyFatChanged(b, b')
    {
    }

    lemma DirFacts()
      requires Valid()
      ensures fat.disk == disk && dir.disk == disk && fat != dir && fat.slots != dir.slots
      ensures fat.geo == lay.FatGeometry() && dir.geo == lay.DirGeometry() && fat.Valid()
      ensures 512 * lay.DirGeometry().hi <= |disk.bytes|
    {
    }

    /** Writes outside the two FAT copies leave the volume valid. */
    twostate lemma Framed()
      requires old(Valid()) && fsInfo == old(fsInfo) && table == old(table)
      requires fat.slots[..] == old(fat.slots[..]) && fat.clockHead == old(fat.clockHead)
      requires SameSectors(old(disk.bytes), disk.bytes, lay.FatStart(), lay.base + lay.FirstDataSector())
      ensures Valid()
    {
      hide ClockCache.Valid;
      hide BlockCache.Image;
      fat.Framed();
    }

    /** Read the FAT sector that holds a cluster's entry. */
    method FetchEntry(clus: nat) returns (index: nat)
      requires Mounted() && clus < lay.Entries()
      modifies fat.slots, disk, fat`clockHead
      ensures Mounted() && fat.View() == old(fat.View())
      ensures index < fat.slots.Length && fat.slots[index].cur == SectorOf(lay.FatStart(), clus)
      ensures FatOffset(clus) == OffsetOf(clus)
      ensures OnlyFatChanged(old(disk.bytes), disk.bytes)
    {
      lay.FatBelowData(clus, 2);
      ghost var b, s := disk.bytes, fat.slots[..];
      index := fat.Fetch(FatSector(clus, lay.reserved, lay.base));
      FatWrites(b, disk.bytes, s);
    }

    /** The word at a cluster's place in the view. */
    method ReadWord(clus: nat) returns (x: nat)
      requires Valid() && clus < lay.Entries()
      modifies fat.slots, disk, fat`clockHead
      ensures Mounted() && fat.View() == old(fat.View())
      ensures x == table[clus]
      ensures OnlyFatChanged(old(disk.bytes), disk.bytes)
    {
      var index := FetchEntry(clus);
      fat.SlotIsView(index);
      x := Get32(fat.slots[index].buf, FatOffset(clus));
    }

    /** get_fat_entry_value. */
    method GetFatEntryValue(clus: nat) returns (v: nat)
      requires Valid() && clus < lay.Entries()
      modifies fat.slots, disk, fat`clockHead
      ensures Valid() && v == Fat()[clus]
      ensures OnlyFatChanged(old(disk.bytes), disk.bytes)
    {
      hide ClockCache.Valid;
      hide ClockCache.View;
      hide And;
      hide Pow2;
      var x := ReadWord(clus);
      Pow2Values();
      AndLowMask(x, 28);
      v := And(x, Pow2(28) - 1);
    }

    /** fs_modify_fat, seen on the FAT sectors. */
    method RewriteEntry(clus: nat, value: nat)
      requires Mounted() && clus < lay.Entries()
      requires var a := SectorOf(lay.FatStart(), clus); a in fat.View() && |fat.View()[a]| == 512
      modifies fat.slots, disk, fat`clockHead
      ensures Mounted()
      ensures fat.View() == Rewritten(old(fat.View()), lay.FatStart(), clus, value)
      ensures OnlyFatChanged(old(disk.bytes), disk.bytes)
    {
      var index := FetchEntry(clus);
      fat.SlotIsView(index);
      fat.MergeUint32(index, FatOffset(clus), value);
    }

    lemma SectorHeld(clus: nat)
      requires Mounted() && clus < lay.Entries()
      ensures var a := SectorOf(lay.FatStart(), clus); a in fat.View() && |fat.View()[a]| == 512
    {
      lay.FatBelowData(clus, 2);
      fat.ViewSizes();
    }

    /** fs_modify_fat: the 28 low bits of one entry change, nothing else. */
    method ModifyFat(clus: nat, value: nat)
      requires Valid() && clus < lay.Entries()
      modifies fat.slots, disk, fat`clockHead, `table
      ensures Valid()
      ensures table == Modified(old(table), clus, value)
      ensures Fat() == old(Fat())[clus := Low28(value)]
      ensures OnlyFatChanged(old(disk.bytes), disk.bytes)
    {
      SectorHeld(clus);
      MergeEntry(fat.View(), lay.FatStart(), lay.Entries(), clus, value);
      ModifiedEntries(table, clus, value);
      RewriteEntry(clus, value);
      table := Modified(table, clus, value);
    }

    /** fs_next_free: the first free cluster from `start` on, or NO_CLUSTER. */
    method NextFree(start: nat) returns (next: nat)
      requires Valid()
      modifies fat.slots, disk, fat`clockHead
      ensures Valid() && next == FirstFree(Fat(), start)
      ensures OnlyFatChanged(old(disk.bytes), disk.bytes)
    {
      hide Volume.Valid;
      next := NO_CLUSTER;
      var clus := start;
      while clus <= lay.clusters + 1
        invariant Valid() && OnlyFatChanged(old(disk.bytes), disk.bytes)
        invariant FirstFree(Fat(), start) == FirstFree(Fat(), clus)
        invariant next == NO_CLUSTER
      {
        var v := GetFatEntryValue(clus);
        if v == 0 {
          next := clus;
          break;
        }
        clus := clus + 1;
      }
    }

    /** The sectors fs_alloc erases. */
    ghost predicate Erased(b: seq<Byte>, c: nat)
      requires 2 <= c
    {
      512 * (lay.Tag(c) + lay.sectorsPerCluster) <= |b|
      && Block(b, lay.Tag(c), lay.sectorsPerCluster) == Zeros(lay.ClusterBytes())
    }

    /** Only the FAT copies and cluster c differ. */
    ghost predicate OnlyFatAndClusterChanged(b: seq<Byte>, b': seq<Byte>, c: nat)
      requires 2 <= c
    {
      && |b'| == |b|
      && forall x: nat :: x < |b| && b'[x] != b[x] ==>
           || 512 * lay.FatStart() <= x < 512 * (lay.base + lay.FirstDataSector())
           || 512 * lay.Tag(c) <= x < 512 * (lay.Tag(c) + lay.sectorsPerCluster)
    }

    method MarkEnd(clus: nat)
      requires Valid() && clus < lay.Entries()
      modifies fat.slots, disk, fat`clockHead, `table
      ensures Valid() && Fat() == old(Fat())[clus := END_OF_CHAIN]
      ensures OnlyFatChanged(old(disk.bytes), disk.bytes)
    {
      hide Volume.Valid;
      EndOfChainStored();
      ModifyFat(clus, NO_CLUSTER);
    }

    /** The hinted cluster, or after a scan from 2 the first free one, which is then
        marked a first time. */
    method ChooseCluster() returns (clus: nat)
      requires Valid() && ChoiceInRange(Fat(), fsInfo)
      modifies fat.slots, disk, fat`clockHead, `table
      ensures Valid() && clus == AllocChoice(old(Fat()), fsInfo)
      ensures Fat()[clus := END_OF_CHAIN] == old(Fat())[clus := END_OF_CHAIN]
      ensures OnlyFatChanged(old(disk.bytes), disk.bytes)
    {
      hide Volume.Valid;
      clus := Hint(fsInfo);
      if clus > HintLimit(fsInfo) {
        clus := NextFree(2);
        MarkEnd(clus);
      }
    }

    /** Marks the chosen cluster as the end of a chain and finds the next free one. */
    method TakeCluster() returns (clus: nat, nextFree: nat)
      requires Valid() && ChoiceInRange(Fat(), fsInfo)
      modifies fat.slots, disk, fat`clockHead, `table
      ensures Valid() && clus == AllocChoice(old(Fat()), fsInfo)
      ensures Fat() == old(Fat())[clus := END_OF_CHAIN]
      ensures nextFree == FirstFree(Fat(), clus)
      ensures nextFree == NO_CLUSTER || clus <= nextFree <= lay.clusters + 1
      ensures OnlyFatChanged(old(disk.bytes), disk.bytes)
    {
      hide Volume.Valid;
      clus := ChooseCluster();
      MarkEnd(clus);
      nextFree := NextFree(clus);
    }

    /** fs_alloc, for every choice that names a data cluster, free or not: that cluster
        becomes the end of a chain and no other entry changes.  It fails exactly when no
        free cluster lies beyond the choice, and then the choice stays marked.  On success
        the cluster is erased and the new hint names a free cluster.  The cluster was
        free if and only if the hint was, or was above its limit. */
    method Alloc() returns (r: Result<nat>)
      requires Valid() && ChoiceInRange(Fat(), fsInfo) && lay.base == 0
      modifies fat.slots, disk, fat`clockHead, `table, `fsInfo
      ensures Valid()
      ensures var c := AllocChoice(old(Fat()), old(fsInfo));
        && Fat() == old(Fat())[c := END_OF_CHAIN]
        && (r.Ok? <==> FirstFree(Fat(), c) != NO_CLUSTER)
        && (r.Ok? ==> r.value == c && CanAlloc(Fat(), fsInfo) && fsInfo == WithHint(old(fsInfo), FirstFree(Fat(), c)))
        && (r.Ok? ==> Erased(disk.bytes, c) && OnlyFatAndClusterChanged(old(disk.bytes), disk.bytes, c))
        && (r.Err? ==> fsInfo == old(fsInfo) && OnlyFatChanged(old(disk.bytes), disk.bytes))
        && (old(Fat())[c] == 0 <==> Hint(old(fsInfo)) > HintLimit(old(fsInfo)) || old(Fat())[Hint(old(fsInfo))] == 0)
    {
      hide Volume.Valid;
      ChoiceGuard(Fat(), fsInfo);
      var clus, nextFree := TakeCluster();
      if nextFree > lay.clusters + 1 {
        return Err;
      }
      CompleteAlloc(clus, nextFree);
      GoodHint(Fat(), fsInfo);
      return Ok(clus);
    }

    lemma ChoiceGuard(t: seq<nat>, info: seq<Byte>)
      requires ChoiceInRange(t, info) && |t| <= NO_CLUSTER
      ensures Hint(info) > HintLimit(info) || Hint(info) < |t|
      ensures t[AllocChoice(t, info)] == 0 <==> Hint(info) > HintLimit(info) || t[Hint(info)] == 0
    {
    }

    /** Store the new hint and erase the cluster. */
    method CompleteAlloc(clus: nat, nextFree: nat)
      requires Valid() && 2 <= clus < lay.Entries() && lay.base == 0 && 2 <= nextFree < lay.Entries()
      modifies disk, `fsInfo
      ensures Valid() && fsInfo == WithHint(old(fsInfo), nextFree) && Hint(fsInfo) == nextFree
      ensures Erased(disk.bytes, clus) && OnlyFatAndClusterChanged(old(disk.bytes), disk.bytes, clus)
    {
      SetHint(nextFree);
      EraseCluster(clus);
      EraseEffect(old(disk.bytes), clus);
    }

    lemma EraseEffect(b: seq<Byte>, c: nat)
      requires lay.WellFormed() && 2 <= c < lay.Entries() && 512 * lay.DirGeometry().hi <= |b|
      ensures 512 * lay.Tag(c) + lay.ClusterBytes() <= |b|
      ensures OnlyFatAndClusterChanged(b, WriteAt(b, lay.Tag(c), Zeros(lay.ClusterBytes())), c)
    {
      lay.TagIsSector(c);
      var r := WriteAt(b, lay.Tag(c), Zeros(lay.ClusterBytes()));
      forall x: nat | x < |b| && r[x] != b[x]
        ensures 512 * lay.Tag(c) <= x < 512 * (lay.Tag(c) + lay.sectorsPerCluster)
      {
        WriteAtByte(b, lay.Tag(c), Zeros(lay.ClusterBytes()), x);
      }
    }

    method SetHint(next: nat)
      requires |fsInfo| == 512 && 2 <= next < 0x1_0000_0000
      modifies `fsInfo
      ensures fsInfo == WithHint(old(fsInfo), next) && Hint(fsInfo) == next
    {
      hide Set32;
      hide Get32;
      HintStored(fsInfo, next);
      fsInfo := Set32(fsInfo, NEXT_FREE, next - 1);
    }

    /** write_block(new_alloc_empty, ...): the sector is counted from the start of the
        card, so the cluster is erased where the partition starts there; elsewhere
        sectors base_addr below the cluster are. */
    method EraseCluster(clus: nat)
      requires Valid() && 2 <= clus < lay.Entries()
      modifies disk
      ensures 512 * lay.DataClusterToSector(clus) + lay.ClusterBytes() <= |old(disk.bytes)|
      ensures disk.bytes == WriteAt(old(disk.bytes), lay.DataClusterToSector(clus), Zeros(lay.ClusterBytes()))
      ensures lay.base == 0 ==> lay.DataClusterToSector(clus) == lay.Tag(clus)
      ensures lay.base == 0 ==> Valid() && fat.View() == old(fat.View()) && Erased(disk.bytes, clus)
    {
      lay.TagIsSector(clus);
      var sec := lay.DataClusterToSector(clus);
      var zero := Zeros(lay.ClusterBytes());
      ghost var b := disk.bytes;
      disk.WriteBlock(zero, sec);
      if lay.base == 0 {
        WriteElsewhere(b, sec, zero, lay.FatStart(), lay.FatStart() + lay.sectorsPerFat);
        WriteElsewhere(b, sec, zero, lay.FatStart() + lay.sectorsPerFat, lay.FatStart() + lay.sectorsPerFat + lay.sectorsPerFat);
        WriteThenBlock(b, sec, zero, lay.sectorsPerCluster);
        fat.Framed();
      }
    }

    /** One turn of the loop of fs_rm. */
    method ReleaseCluster(clus: nat) returns (next: nat)
      requires Valid() && clus < lay.Entries()
      modifies fat.slots, disk, fat`clockHead, `table
      ensures Valid() && next == old(Fat())[clus] && Fat() == old(Fat())[clus := 0]
      ensures SameTopBits(old(table), table)
      ensures OnlyFatChanged(old(disk.bytes), disk.bytes)
    {
      hide Volume.Valid;
      ModifiedEntries(table, clus, 0);
      next := GetFatEntryValue(clus);
      ModifyFat(clus, 0);
    }

    /** The loop of fs_rm, on any FAT whatever: it ends, zeroes exactly the entries
        reachable from the start cluster, and keeps every top nibble. */
    method ReleaseChain(start: nat)
      requires Valid()
      modifies fat.slots, disk, fat`clockHead, `table
      ensures Valid()
      ensures Fat() == Released(old(Fat()), start)
      ensures forall c: nat :: c < |Fat()| ==> Fat()[c] == if Reachable(old(Fat()), start, c) then 0 else old(Fat())[c]
      ensures SameTopBits(old(table), table)
      ensures OnlyFatChanged(old(disk.bytes), disk.bytes)
    {
      hide Volume.Valid;
      var clus: nat := start;
      ghost var fat0 := Fat();
      while clus != 0 && clus <= lay.clusters + 1
        invariant Valid() && OnlyFatChanged(old(disk.bytes), disk.bytes)
        invariant Released(Fat(), clus) == Released(fat0, start)
        invariant SameTopBits(old(table), table)
        decreases NonZero(Fat()), if Live(Fat(), clus) then 1 else 0
      {
        ZeroingShrinks(Fat(), clus);
        clus := ReleaseCluster(clus);
      }
      forall c: nat | c < |fat0| ensures Fat()[c] == if Reachable(fat0, start, c) then 0 else fat0[c] {
        ReleaseIsReachable(fat0, start, c);
      }
    }
  }
}
