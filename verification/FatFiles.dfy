/** What a user of the file system sees: reading back what was written, files that
    do not disturb each other, and closing (kernel/fs/fat/fat.c). */
module FatFiles {
  import opened Sequences
  import opened BlockCache
  import opened FatVolume
  import opened FatData
  import opened FatChains
  import opened FatGrowth
  import opened FatFile

  lemma OverlayHolds(c: seq<Byte>, o: nat, b: seq<Byte>)
    requires o <= |c|
    ensures Overlay(c, o, b)[..o] == c[..o]
    ensures Overlay(c, o, b)[o..o + |b|] == b
    ensures o + |b| <= |c| ==> Overlay(c, o, b)[o + |b|..] == c[o + |b|..]
  {
  }

  /** fs_write, fs_lseek back, fs_read: the bytes written come back. */
  method WriteThenRead(f: FatFile, buf: seq<Byte>, out: array<Byte>) returns (r: Result<nat>)
    requires f.Valid() && f.loc + |buf| < 0x1_0000_0000 && |buf| <= out.Length
    requires (f.vol.lay.base == 0 && Usable(f.vol.Fat(), f.vol.fsInfo, f.chain)) || f.loc + |buf| <= f.vol.lay.Bytes(|f.chain|)
    modifies f`loc, f`entry, f`chain, f.vol.disk, f.vol.fat.slots, f.vol.fat`clockHead, f.vol`table, f.vol`fsInfo
    modifies f.data.slots, f.data`clockHead, out
    ensures f.Valid() && (r.Ok? <==> old(f.GrowthTo(f.loc + |buf|)).lost == 0)
    ensures r.Ok? ==> r.value == |buf| && out[..|buf|] == buf && out[|buf|..] == old(out[|buf|..])
    ensures r.Ok? ==> f.Content() == Overlay(old(f.Content()), old(f.loc), buf) && f.loc == old(f.loc) + |buf|
  {
    hide FatFile.Valid;
    hide FatFile.Bytes;
    hide FatFile.GrowthTo;
    hide Usable;
    hide GrowsWell;
    hide Written;
    hide OnlyOwnChanged;
    var start := f.loc;
    f.PositionInside();
    ghost var c := f.Content();
    ghost var done, leak;
    r, done, leak := f.Write(buf);
    if r.Ok? {
      OverlayHolds(c, start, buf);
      hide Overlay;
      f.PositionInside();
      f.Lseek(start);
      f.PositionInside();
      var cc := f.Read(out, |buf|);
      f.PositionInside();
      assert cc == |buf|;
    }
  }

  /** Writing to one file keeps every other open file: its chain, its bytes, its
      position, even when the write fails half-way. */
  method WriteBeside(f: FatFile, g: FatFile, buf: seq<Byte>) returns (r: Result<nat>)
    requires f.Valid() && g.Valid() && f != g && f.vol == g.vol
    requires f.data != g.data && f.data.slots != g.data.slots && Apart(g.chain, f.chain)
    requires f.loc + |buf| < 0x1_0000_0000 && AllocChoice(f.vol.Fat(), f.vol.fsInfo) !in g.chain
    requires (f.vol.lay.base == 0 && Usable(f.vol.Fat(), f.vol.fsInfo, f.chain)) || f.loc + |buf| <= f.vol.lay.Bytes(|f.chain|)
    modifies f`loc, f`entry, f`chain, f.vol.disk, f.vol.fat.slots, f.vol.fat`clockHead, f.vol`table, f.vol`fsInfo
    modifies f.data.slots, f.data`clockHead
    ensures f.Valid() && g.Valid() && Apart(g.chain, f.chain)
    ensures g.Content() == old(g.Content()) && g.loc == old(g.loc) && g.entry == old(g.entry) && g.chain == old(g.chain)
    ensures r.Ok? <==> old(f.GrowthTo(f.loc + |buf|)).lost == 0
    ensures r.Ok? ==> f.Content() == Overlay(old(f.Content()), old(f.loc), buf)
  {
    hide FatFile.Valid;
    hide FatFile.Bytes;
    hide FatFile.Content;
    hide Overlay;
    hide CanAlloc;
    hide GrownBut;
    hide Written;
    hide OnlyOwnChanged;
    hide IsFileChain;
    hide AllocChoice;
    hide Usable;
    hide HintFollows;
    hide FatFile.GrowthTo;
    g.ChainFacts();
    ghost var done, leak;
    r, done, leak := f.Write(buf);
    f.ChainFacts();
    BesideWrite(f.vol.lay, old(f.vol.Fat()), old(f.chain), f.vol.Fat(), f.chain, leak,
                AllocChoice(old(f.vol.Fat()), old(f.vol.fsInfo)),
                old(f.vol.disk.bytes), f.vol.disk.bytes, StartCluster(g.entry), g.chain);
    g.Unharmed();
  }
}
