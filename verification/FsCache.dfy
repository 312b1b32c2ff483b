/** The write-back caches of kernel/fs/fscache/fscache.c and the FAT cache of
    kernel/fs/fat/fat.c: slots updated in place over a disk of sectors. */
module FsCache {
  import opened BlockCache
  import opened Clock
  import opened Bits
  import opened FatTable

  /** The card: reads and writes of whole sectors succeed. */
  class Disk {
    var bytes: seq<Byte>

    constructor (b: seq<Byte>)
      ensures bytes == b
    {
      bytes := b;
    }

    method ReadBlock(addr: nat, count: nat) returns (buf: seq<Byte>)
      requires 512 * (addr + count) <= |bytes|
      ensures buf == Block(bytes, addr, count)
    {
      buf := bytes[512 * addr..512 * (addr + count)];
    }

    method WriteBlock(buf: seq<Byte>, addr: nat)
      requires 512 * addr + |buf| <= |bytes|
      modifies this
      ensures bytes == WriteAt(old(bytes), addr, buf)
    {
      bytes := bytes[..512 * addr] + buf + bytes[512 * addr + |buf|..];
    }
  }

  class ClockCache {
    const disk: Disk
    const slots: array<Slot>
    const geo: Geometry
    var clockHead: nat

    ghost predicate Valid()
      reads this, disk, slots
      ensures Valid() ==> 512 * geo.hi <= |disk.bytes| && clockHead < slots.Length
    {
      clockHead < slots.Length && Coherent(geo, disk.bytes, slots[..])
    }

    ghost function View(): map<nat, seq<Byte>>
      requires 512 * geo.hi <= |disk.bytes|
      reads this, disk, slots
    {
      Image(geo, disk.bytes, slots[..])
    }

    constructor (disk: Disk, geo: Geometry, size: nat)
      requires size > 0
      ensures this.disk == disk && this.geo == geo && slots.Length == size && fresh(slots)
      ensures clockHead == 0 && IsEmpty()
    {
      this.disk := disk;
      this.geo := geo;
      slots := new Slot[size](_ => Slot(Zeros(512 * geo.unit), NO_BLOCK, false, false));
      clockHead := 0;
    }

    ghost predicate IsEmpty()
      reads slots
    {
      forall i :: 0 <= i < slots.Length ==> slots[i].cur == NO_BLOCK && |slots[i].buf| == 512 * geo.unit
    }

    /** init_fat_buf, init_dir_buf and the loop of fs_open. */
    method Reset()
      requires forall i :: 0 <= i < slots.Length ==> |slots[i].buf| == 512 * geo.unit
      modifies slots
      ensures IsEmpty()
    {
      var i := 0;
      while i < slots.Length
        invariant i <= slots.Length
        invariant forall j :: 0 <= j < slots.Length ==> |slots[j].buf| == 512 * geo.unit
        invariant forall j :: 0 <= j < i ==> slots[j].cur == NO_BLOCK
      {
        slots[i] := slots[i].(cur := NO_BLOCK, referenced := false, dirty := false);
        i := i + 1;
      }
    }

    /** Sweep 1: stop at an unreferenced clean slot, clearing reference bits on the way. */
    method SweepUnused() returns (found: bool)
      requires clockHead < slots.Length
      modifies slots, `clockHead
      ensures var s, h, n := old(slots[..]), old(clockHead), slots.Length;
        var k := FirstTaken(s, h, 0, false);
        && (found <==> k < n)
        && clockHead == (if found then At(h, k, n) else h)
        && slots[..] == Swept(s, h, k)
    {
      hide Swept;
      hide StepsTo;
      ghost var s, h, n := slots[..], clockHead, slots.Length;
      SweptNone(s, h);
      var i := 0;
      while i < slots.Length
        invariant i <= n && FirstTaken(s, h, i, false) == FirstTaken(s, h, 0, false)
        invariant clockHead == if i < n then At(h, i, n) else h
        invariant slots[..] == Swept(s, h, i)
      {
        SweepStep(s, h, i);
        assert slots[clockHead] == slots[..][clockHead] == s[clockHead];
        if !slots[clockHead].referenced {
          if !slots[clockHead].dirty {
            return true;
          }
        } else {
          slots[clockHead] := slots[clockHead].(referenced := false);
        }
        assert slots[..] == Swept(s, h, i)[clockHead := s[clockHead].(referenced := false)];
        clockHead := Next(clockHead, slots.Length);
        i := i + 1;
      }
      return false;
    }

    /** Sweep 2: stop at a clean slot. */
    method SweepClean() returns (found: bool)
      requires clockHead < slots.Length
      modifies `clockHead
      ensures var s, h, n := slots[..], old(clockHead), slots.Length;
        var m := FirstTaken(s, h, 0, true);
        && (found <==> m < n)
        && clockHead == if found then At(h, m, n) else h
    {
      ghost var s, h, n := slots[..], clockHead, slots.Length;
      var i := 0;
      while i < slots.Length
        invariant i <= n && FirstTaken(s, h, i, true) == FirstTaken(s, h, 0, true)
        invariant clockHead == if i < n then At(h, i, n) else h
      {
        assert slots[clockHead] == s[clockHead];
        if !slots[clockHead].dirty {
          return true;
        }
        clockHead := Next(clockHead, slots.Length);
        i := i + 1;
      }
      return false;
    }

    /** fs_victim_512 / fs_victim_4k. */
    method Victim() returns (index: nat)
      requires clockHead < slots.Length
      modifies slots, `clockHead
      ensures index == VictimOf(old(slots[..]), old(clockHead))
      ensures slots[..] == Swept(old(slots[..]), old(clockHead), FirstTaken(old(slots[..]), old(clockHead), 0, false))
      ensures clockHead == Next(index, slots.Length)
    {
      ghost var s, h := slots[..], clockHead;
      var found := SweepUnused();
      if !found {
        SecondSweepSame(s, slots[..], h, 0);
        found := SweepClean();
      }
      index := clockHead;
      clockHead := Next(clockHead, slots.Length);
    }

    /** fs_write_512, fs_write_4k and, with a mirror, write_fat_sector. */
    method WriteBack(index: nat)
      requires Valid() && index < slots.Length
      modifies slots, disk
      ensures disk.bytes == FlushedDisk(geo, old(disk.bytes), old(slots[..]), index)
      ensures slots[..] == FlushedSlots(old(slots[..]), index)
    {
      var s := slots[index];
      if s.cur != NO_BLOCK && s.dirty {
        disk.WriteBlock(s.buf, s.cur);
        if geo.mirror != 0 {
          disk.WriteBlock(s.buf, s.cur + geo.mirror);
        }
        slots[index] := s.(dirty := false);
      }
    }

    /** Choose a victim and write it back. */
    method Evict() returns (index: nat)
      requires Valid()
      modifies slots, disk, `clockHead
      ensures Valid() && View() == old(View())
      ensures index == VictimOf(old(slots[..]), old(clockHead)) && Evictable(slots[index])
      ensures clockHead == Next(index, slots.Length)
      ensures OnlyCachedChanged(geo, old(disk.bytes), disk.bytes, old(slots[..]))
      ensures SameTags(old(slots[..]), slots[..])
    {
      hide Coherent;
      hide BlockCache.Image;
      hide OnlyCachedChanged;
      hide VictimOf;
      hide Swept;
      ghost var s, h, b := slots[..], clockHead, disk.bytes;
      index := Victim();
      SweepKeepsContents(s, h, FirstTaken(s, h, 0, false));
      ReferenceTransparent(geo, b, s, slots[..]);
      FlushTransparent(geo, b, slots[..], index);
      OnlyCachedTrans(geo, b, b, FlushedDisk(geo, b, slots[..], index), s, slots[..]);
      WriteBack(index);
    }

    /** The search of fs_read_*. */
    method FindSlot(a: nat) returns (index: nat)
      ensures index == Find(slots[..], a)
    {
      index := 0;
      while index < slots.Length && slots[index].cur != a
        invariant index <= slots.Length
        invariant forall j :: 0 <= j < index ==> slots[j].cur != a
      {
        index := index + 1;
      }
      FindIs(slots[..], a, index);
    }

    /** Fill an evicted slot from the disk. */
    method Load(index: nat, a: nat)
      requires Valid() && IsTag(geo, a) && index < slots.Length && Evictable(slots[index])
      requires Find(slots[..], a) == slots.Length
      modifies slots
      ensures Valid() && View() == old(View())
      ensures slots[index].cur == a && slots[index].referenced && !slots[index].dirty
      ensures TagsGrowBy(old(slots[..]), slots[..], a)
    {
      LoadTransparent(geo, disk.bytes, slots[..], index, a, true);
      var buf := disk.ReadBlock(a, geo.unit);
      slots[index] := Slot(buf, a, true, false);
    }

    method Touch(index: nat)
      requires Valid() && index < slots.Length
      modifies slots
      ensures Valid() && View() == old(View())
      ensures slots[..] == old(slots[..])[index := old(slots[index]).(referenced := true)]
      ensures SameTags(old(slots[..]), slots[..])
    {
      ghost var s := slots[..];
      ReferenceTransparent(geo, disk.bytes, s, s[index := s[index].(referenced := true)]);
      slots[index] := slots[index].(referenced := true);
    }

    /** fs_read_512, fs_read_4k and read_fat_sector, given the absolute sector: the slot
        that holds it, or the victim, marked as referenced either way. */
    method Fetch(a: nat) returns (index: nat)
      requires Valid() && IsTag(geo, a)
      modifies slots, disk, `clockHead
      ensures Valid() && View() == old(View())
      ensures index < slots.Length && slots[index].cur == a && slots[index].referenced
      ensures index == (if Find(old(slots[..]), a) < slots.Length then Find(old(slots[..]), a)
                        else VictimOf(old(slots[..]), old(clockHead)))
      ensures OnlyCachedChanged(geo, old(disk.bytes), disk.bytes, old(slots[..]))
      ensures TagsGrowBy(old(slots[..]), slots[..], a)
    {
      hide ClockCache.Valid;
      ghost var s := slots[..];
      index := FindSlot(a);
      if index == slots.Length {
        index := Evict();
        SameFind(s, slots[..], a);
        Load(index, a);
      } else {
        Touch(index);
      }
    }

    /** A slot's data is what the view shows of its block. */
    lemma SlotIsView(i: nat)
      requires Valid() && i < slots.Length && slots[i].cur != NO_BLOCK
      ensures IsTag(geo, slots[i].cur) && slots[i].cur in View() && View()[slots[i].cur] == slots[i].buf
    {
      FoundAt(geo, disk.bytes, slots[..], i);
    }

    /** fs_clr_512 and fs_clr_4k, for any block: the victim becomes a zeroed clean slot.
        The cache stays coherent, and then every block still reads the same, if and only
        if the block read as zeros and no slot but the victim held it. */
    method Clear(a: nat)
      requires Valid() && IsTag(geo, a)
      modifies slots, disk, `clockHead
      ensures var i := VictimOf(old(slots[..]), old(clockHead));
        && slots[i] == Slot(Zeros(512 * geo.unit), a, false, false)
        && (Valid() <==> old(View())[a] == Zeros(512 * geo.unit) && HeldOnlyBy(old(slots[..]), a, i))
      ensures Valid() ==> View() == old(View())
      ensures OnlyCachedChanged(geo, old(disk.bytes), disk.bytes, old(slots[..]))
      ensures TagsGrowBy(old(slots[..]), slots[..], a)
    {
      hide Coherent;
      hide BlockCache.Image;
      hide VictimOf;
      hide OnlyCachedChanged;
      hide HeldOnlyBy;
      ghost var s := slots[..];
      var index := Evict();
      SlotSize(index);
      SameHolders(s, slots[..], a, index);
      ClearCoherentIff(geo, disk.bytes, slots[..], index, a);
      var zero := slots[index].buf;
      var i := 0;
      while i < 512 * geo.unit
        invariant i <= 512 * geo.unit == |zero|
        invariant forall j :: 0 <= j < i ==> zero[j] == 0
      {
        zero := zero[i := 0];
        i := i + 1;
      }
      assert zero == Zeros(512 * geo.unit);
      slots[index] := Slot(zero, a, false, false);
    }

    lemma SlotSize(i: nat)
      requires Valid() && i < slots.Length
      ensures |slots[i].buf| == 512 * geo.unit
    {
      assert slots[..][i] == slots[i];
    }

    /** A block that is not cached reads as on the disk. */
    lemma UncachedView(a: nat)
      requires Valid() && IsTag(geo, a) && Find(slots[..], a) == slots.Length
      ensures a in View() && View()[a] == Block(disk.bytes, a, geo.unit)
      ensures forall i :: HeldOnlyBy(slots[..], a, i)
    {
    }

    /** state = 3. */
    method MarkDirty(index: nat)
      requires Valid() && index < slots.Length && slots[index].cur != NO_BLOCK
      modifies slots
      ensures Valid() && View() == old(View())
      ensures slots[..] == old(slots[..])[index := old(slots[index]).(referenced := true, dirty := true)]
    {
      StoreImage(geo, disk.bytes, slots[..], index, slots[index].buf);
      FoundAt(geo, disk.bytes, slots[..], index);
      slots[index] := slots[index].(referenced := true, dirty := true);
    }

    /** buf[offset] = value in a slot marked dirty. */
    method Poke(index: nat, offset: nat, value: Byte)
      requires Valid() && index < slots.Length && slots[index].cur != NO_BLOCK
      requires slots[index].dirty && slots[index].referenced && offset < |slots[index].buf|
      modifies slots
      ensures Valid()
      ensures slots[..] == old(slots[..])[index := old(slots[index]).(buf := old(slots[index]).buf[offset := value])]
      ensures View() == old(View())[old(slots[index]).cur := old(slots[index]).buf[offset := value]]
    {
      StoreImage(geo, disk.bytes, slots[..], index, slots[index].buf[offset := value]);
      slots[index] := slots[index].(buf := slots[index].buf[offset := value]);
    }

    /** set_uint32_t into a slot marked dirty. */
    method SetUint32(index: nat, offset: nat, num: nat)
      requires Valid() && index < slots.Length && slots[index].cur != NO_BLOCK
      requires slots[index].dirty && slots[index].referenced
      requires offset + 4 <= |slots[index].buf| && num < 0x1_0000_0000
      modifies slots
      ensures Valid()
      ensures var s := old(slots[index]); View() == old(View())[s.cur := Set32(s.buf, offset, num)]
    {
      ghost var s, t := slots[..], slots[index];
      StoreImage(geo, disk.bytes, s, index, Set32(t.buf, offset, num));
      slots[index] := slots[index].(buf := slots[index].buf[offset := num % 0x100]);
      slots[index] := slots[index].(buf := slots[index].buf[offset + 1 := num / 0x100 % 0x100]);
      slots[index] := slots[index].(buf := slots[index].buf[offset + 2 := num / 0x100 / 0x100 % 0x100]);
      slots[index] := slots[index].(buf := slots[index].buf[offset + 3 := num / 0x100 / 0x100 / 0x100]);
      assert slots[..] == s[index := t.(buf := Set32(t.buf, offset, num))];
    }

    /** The read-modify-write of fs_modify_fat: state = 3, then the 28 low bits of the
        word at an offset are replaced. */
    method MergeUint32(index: nat, offset: nat, value: nat)
      requires Valid() && index < slots.Length && slots[index].cur != NO_BLOCK
      requires offset + 4 <= |slots[index].buf|
      modifies slots
      ensures Valid()
      ensures var s := old(slots[index]);
        View() == old(View())[s.cur := Set32(s.buf, offset, Merge(Get32(s.buf, offset), value))]
    {
      hide ClockCache.Valid;
      ghost var s := slots[index];
      MarkDirty(index);
      assert slots[index].buf == s.buf && slots[index].cur == s.cur;
      var x := Get32(slots[index].buf, offset);
      MergeIsBitwise(x, value);
      var fat32Val := Or(ClearLow(x, 28), And(value, Pow2(28) - 1));
      assert fat32Val == Merge(Get32(s.buf, offset), value);
      SetUint32(index, offset, fat32Val);
    }

    method FlushOne(i: nat, ghost b0: seq<Byte>, ghost s0: seq<Slot>)
      requires Valid() && i < slots.Length
      requires OnlyCachedChanged(geo, b0, disk.bytes, s0) && SameTags(s0, slots[..])
      requires forall j :: 0 <= j < i ==> Evictable(slots[j])
      modifies slots, disk
      ensures Valid() && View() == old(View())
      ensures OnlyCachedChanged(geo, b0, disk.bytes, s0) && SameTags(s0, slots[..])
      ensures forall j :: 0 <= j <= i ==> Evictable(slots[j])
    {
      hide Coherent;
      hide BlockCache.Image;
      hide OnlyCachedChanged;
      ghost var b, s := disk.bytes, slots[..];
      FlushTransparent(geo, b, s, i);
      OnlyCachedTrans(geo, b0, b, FlushedDisk(geo, b, s, i), s0, s);
      WriteBack(i);
    }

    /** The flushing loops of fs_fflush and fs_close. */
    method FlushAll()
      requires Valid()
      modifies slots, disk
      ensures Valid() && View() == old(View())
      ensures forall i :: 0 <= i < slots.Length ==> Evictable(slots[i])
      ensures OnlyCachedChanged(geo, old(disk.bytes), disk.bytes, old(slots[..]))
      ensures SameTags(old(slots[..]), slots[..])
    {
      hide ClockCache.Valid;
      ghost var b0, s0, v := disk.bytes, slots[..], View();
      var i := 0;
      while i < slots.Length
        invariant i <= slots.Length && Valid() && View() == v
        invariant OnlyCachedChanged(geo, b0, disk.bytes, s0) && SameTags(s0, slots[..])
        invariant forall j :: 0 <= j < i ==> Evictable(slots[j])
      {
        FlushOne(i, b0, s0);
        i := i + 1;
      }
    }

    /** Discarding the caches after a flush loses nothing. */
    method Discard()
      requires Valid() && forall i :: 0 <= i < slots.Length ==> Evictable(slots[i])
      modifies slots
      ensures Valid() && View() == old(View()) && IsEmpty()
    {
      ghost var s := slots[..];
      Reset();
      DiscardClean(geo, disk.bytes, s, slots[..]);
    }

    /** Validity and view are about the disk and the slots alone. */
    lemma IsCoherent()
      ensures Valid() <==> clockHead < slots.Length && Coherent(geo, disk.bytes, slots[..])
      ensures Valid() ==> View() == Image(geo, disk.bytes, slots[..])
    {
    }

    /** Every block in view has its full length. */
    lemma ViewSizes()
      requires Valid()
      ensures forall a: nat :: IsTag(geo, a) ==> a in View() && |View()[a]| == 512 * geo.unit
    {
    }

    /** Writes outside the cache's own range leave it valid, with the same view. */
    twostate lemma Framed()
      requires old(Valid()) && slots[..] == old(slots[..]) && clockHead == old(clockHead)
      requires SameSectors(old(disk.bytes), disk.bytes, geo.lo, geo.hi)
      requires geo.mirror != 0 ==> SameSectors(old(disk.bytes), disk.bytes, geo.lo + geo.mirror, geo.hi + geo.mirror)
      ensures Valid() && View() == old(View())
    {
      ImageFrame(geo, old(disk.bytes), disk.bytes, slots[..]);
    }
  }
}
