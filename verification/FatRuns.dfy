/** Runs of operations on any number of open files of one volume: the objects follow the
    state machine of FatModel, step by step (kernel/fs/fat/fat.c, usr.c). */
module FatRuns {
  import opened Sequences
  import opened BlockCache
  import opened FsCache
  import opened FatLayout
  import opened FatVolume
  import opened FatData
  import opened FatChains
  import opened FatGrowth
  import opened FatFile
  import opened FatClose
  import opened FatRemove
  import opened FatModel

  /** A volume with its open files; `others` are the chains of directories and of files
      that are not open, and `secs` the directory sectors. */
  datatype Mount = Mount(vol: Volume, files: seq<FatFile>, others: map<nat, seq<nat>>, secs: set<nat>)

  /** The handles belong to the volume and share nothing else; their entries lie in
      directory sectors, and these in clusters of the other chains. */
  ghost predicate Arranged(c: Mount) {
    && (forall i :: 0 <= i < |c.files| ==> c.files[i].vol == c.vol)
    && (forall i, j :: 0 <= i < j < |c.files| ==>
          c.files[i] != c.files[j] && c.files[i].data != c.files[j].data && c.files[i].data.slots != c.files[j].data.slots)
    && (forall i :: 0 <= i < |c.files| ==> Placed(c.vol, EntrySector(c.files[i]), c.files[i].dirEntryPos, c.secs))
    && (forall k :: k in c.others ==> k >= |c.files|)
    && (forall s :: s in c.secs ==> exists k :: k in c.others && InSectors(c.vol.lay, c.others[k], s))
  }

  ghost predicate InSectors(lay: Layout, ch: seq<nat>, s: nat) {
    exists d :: d in ch && d >= 2 && lay.Tag(d) <= s < lay.Tag(d) + lay.sectorsPerCluster
  }

  ghost predicate AllValid(c: Mount, live: set<nat>)
    reads c.files, c.vol`fsInfo, c.vol`table, c.vol.disk, c.vol.fat, c.vol.fat.slots
    reads c.vol.dir, c.vol.dir.slots, c.vol.dir.disk
    reads set f | f in c.files :: f.data, set f | f in c.files :: f.data.slots
  {
    && c.vol.Valid() && c.vol.lay.base == 0 && DirReady(c.vol, c.secs) && Arranged(c)
    && forall i :: i in live ==> i < |c.files| && c.files[i].Valid()
  }

  ghost function Chains(c: Mount, live: set<nat>): map<nat, seq<nat>>
    requires live !! c.others.Keys && forall i :: i in live ==> i < |c.files|
    reads c.files
  {
    map i: nat | i in live + c.others.Keys :: if i in live then c.files[i].chain else c.others[i]
  }

  ghost function Docs(c: Mount, live: set<nat>): map<nat, Doc>
    requires AllValid(c, live)
    reads c.files, c.vol`fsInfo, c.vol`table, c.vol.disk, c.vol.fat, c.vol.fat.slots
    reads c.vol.dir, c.vol.dir.slots, c.vol.dir.disk
    reads set f | f in c.files :: f.data, set f | f in c.files :: f.data.slots
  {
    map i: nat | i in live :: c.files[i].Shown()
  }

  ghost function ModelOf(c: Mount, live: set<nat>): Model
    requires AllValid(c, live)
    reads c.files, c.vol`fsInfo, c.vol`table, c.vol.disk, c.vol.fat, c.vol.fat.slots
    reads c.vol.dir, c.vol.dir.slots, c.vol.dir.disk
    reads set f | f in c.files :: f.data, set f | f in c.files :: f.data.slots
  {
    Model(c.vol.lay, c.vol.Fat(), c.vol.fsInfo, Docs(c, live), Chains(c, live))
  }

  /** The state every run keeps. */
  ghost predicate Ready(c: Mount, live: set<nat>)
    reads c.files, c.vol`fsInfo, c.vol`table, c.vol.disk, c.vol.fat, c.vol.fat.slots
    reads c.vol.dir, c.vol.dir.slots, c.vol.dir.disk
    reads set f | f in c.files :: f.data, set f | f in c.files :: f.data.slots
    ensures Ready(c, live) ==> AllValid(c, live) && Sound(ModelOf(c, live))
  {
    AllValid(c, live) && Sound(ModelOf(c, live))
  }

  // ---------------------------------------------------------- handles and models

  /** A handle shows this document and has this chain. */
  ghost predicate Shows(f: FatFile, d: Doc, ch: seq<nat>)
    reads f, f.vol`fsInfo, f.vol`table, f.vol.disk, f.vol.fat, f.vol.fat.slots, f.data, f.data.slots
  {
    f.Valid() && f.Content() == d.content && f.loc == d.loc && f.chain == ch
  }

  /** What a step on one file must know of another. */
  ghost predicate Beside(c: Mount, g: FatFile, s: Model, j: nat)
    reads g, c.vol`table
  {
    && g.vol == c.vol && g.Wired() && |g.entry| == 32
    && IsFileChain(c.vol.Fat(), StartCluster(g.entry), g.chain)
    && j in s.chains && g.chain == s.chains[j]
  }

  /** The parts of a model and what they mean for the objects. */
  ghost predicate Grounded(c: Mount, live: set<nat>, s: Model)
    reads c.files, c.vol`fsInfo, c.vol`table, c.vol.disk, c.vol.fat, c.vol.fat.slots
    reads set f | f in c.files :: f.data, set f | f in c.files :: f.data.slots
    reads set f | f in c.files :: f.vol, set f | f in c.files :: f.vol.fat
    reads set f | f in c.files :: f.vol.fat.slots, set f | f in c.files :: f.vol.disk
  {
    && s.lay == c.vol.lay && s.fat == c.vol.Fat() && s.info == c.vol.fsInfo
    && s.files.Keys == live && s.chains.Keys == live + c.others.Keys && live !! c.others.Keys
    && (forall k :: k in c.others ==> s.chains[k] == c.others[k])
    && forall j: nat :: j in live ==>
         j < |c.files| && Shows(c.files[j], s.files[j], s.chains[j]) && Beside(c, c.files[j], s, j)
  }

  lemma Parts(c: Mount, live: set<nat>)
    requires AllValid(c, live)
    ensures Arranged(c) && Grounded(c, live, ModelOf(c, live))
    ensures c.vol.Valid() && DirReady(c.vol, c.secs) && c.vol.lay.base == 0
  {
    hide FatFile.Valid;
    hide FatFile.Content;
    hide Volume.Valid;
    hide ClockCache.Valid;
    hide IsFileChain;
    forall j: nat | j in live ensures Beside(c, c.files[j], ModelOf(c, live), j) { c.files[j].ChainFacts(); }
  }

  /** Handles that show these documents make this model. */
  lemma Assembled(c: Mount, live: set<nat>, docs: map<nat, Doc>, chains: map<nat, seq<nat>>)
    requires c.vol.Valid() && c.vol.lay.base == 0 && DirReady(c.vol, c.secs) && Arranged(c)
    requires docs.Keys == live && chains.Keys == live + c.others.Keys && live !! c.others.Keys
    requires forall k :: k in c.others ==> chains[k] == c.others[k]
    requires forall j: nat :: j in live ==> j < |c.files| && Shows(c.files[j], docs[j], chains[j])
    ensures AllValid(c, live)
    ensures ModelOf(c, live) == Model(c.vol.lay, c.vol.Fat(), c.vol.fsInfo, docs, chains)
  {
    hide FatFile.Valid;
    hide FatFile.Content;
    hide Volume.Valid;
    hide DirReady;
    assert Docs(c, live) == docs;
    assert Chains(c, live) == chains;
  }

  /** No directory sector lies in a cluster of an open file. */
  lemma FileAway(c: Mount, s: Model, i: nat)
    requires Arranged(c) && Sound(s) && s.lay == c.vol.lay && i in s.chains && i !in c.others
    requires forall k :: k in c.others ==> k in s.chains && s.chains[k] == c.others[k]
    ensures Away(s.lay, c.secs, s.chains[i])
  {
    var lay, ch := s.lay, s.chains[i];
    forall q, x | q in c.secs && x in ch
      ensures x >= 2 && (q < lay.Tag(x) || lay.Tag(x) + lay.sectorsPerCluster <= q)
    {
      MembersNotFree(s.fat, ch, x);
      var k :| k in c.others && InSectors(lay, c.others[k], q);
      var d :| d in c.others[k] && d >= 2 && lay.Tag(d) <= q < lay.Tag(d) + lay.sectorsPerCluster;
      assert Apart(s.chains[k], ch);
      MembersNotFree(s.fat, s.chains[k], d);
      lay.ClustersApart(d, x);
    }
  }

  /** What a step on file i may rely on. */
  lemma Before(c: Mount, live: set<nat>, i: nat, f: FatFile)
    requires Ready(c, live) && i in live && i < |c.files| && f == c.files[i]
    ensures Arranged(c) && Grounded(c, live, ModelOf(c, live)) && Sound(ModelOf(c, live))
    ensures c.vol.Valid() && DirReady(c.vol, c.secs) && c.vol.lay.base == 0
    ensures Mine(c, ModelOf(c, live), i, f)
  {
    hide AllValid;
    hide Spare;
    hide ModelOf;
    Parts(c, live);
    MineIs(c, live, ModelOf(c, live), i, f);
    hide Shows;
    hide Mine;
    hide Beside;
  }

  /** The file a step is about. */
  ghost predicate Mine(c: Mount, s: Model, i: nat, f: FatFile)
    reads f, f.vol`fsInfo, f.vol`table, f.vol.disk, f.vol.fat, f.vol.fat.slots, f.data, f.data.slots
  {
    && f.vol == c.vol && f.Valid() && f.Wired() && c.vol.lay.WellFormed()
    && |f.entry| == 32 && f.loc <= |f.Content()| == FileSize(f.entry)
    && i in s.files && i in s.chains && s.files[i] == f.Shown() && s.chains[i] == f.chain
    && Away(c.vol.lay, c.secs, f.chain)
  }

  lemma MineIs(c: Mount, live: set<nat>, s: Model, i: nat, f: FatFile)
    requires Arranged(c) && Grounded(c, live, s) && Sound(s) && i in live && i < |c.files| && f == c.files[i]
    ensures Mine(c, s, i, f)
  {
    hide FatFile.Valid;
    hide FatFile.Content;
    hide Sound;
    f.PositionInside();
    FileAway(c, s, i);
    assert Shows(f, s.files[i], s.chains[i]) && Beside(c, f, s, i);
  }

  /** The directory cache after a step that changed the FAT and the clusters of ch. */
  lemma DirStaysReady(vol: Volume, b: seq<Byte>, slots: seq<Slot>, secs: set<nat>, ch: seq<nat>)
    requires vol.lay.WellFormed() && DirWas(vol, b, slots, secs) && Away(vol.lay, secs, ch)
    requires OnlyOwnChanged(vol.lay, b, vol.disk.bytes, ch)
    ensures DirReady(vol, secs)
  {
    hide Coherent;
    hide Image;
    DirSurvives(vol.lay, b, vol.disk.bytes, slots, secs, ch);
  }

  lemma DirIs(vol: Volume, secs: set<nat>)
    requires vol.Valid() && DirReady(vol, secs)
    ensures vol.dir != vol.fat && vol.dir.slots != vol.fat.slots
    ensures DirWas(vol, vol.disk.bytes, vol.dir.slots[..], secs)
  {
  }

  // ----------------------------------------------------------------------- steps

  /** n more bytes stay below 4 GB, and fit or can be given a cluster that exists. */
  ghost predicate Writable(s: Model, i: nat, n: nat)
    requires i in s.files
  {
    && s.files[i].loc + n < 0x1_0000_0000
    && (s.files[i].loc + n <= |s.files[i].content| || ChoiceInRange(s.fat, s.info))
  }

  /** fs_write, as the model of its file foresees it. */
  method WriteOne(c: Mount, i: nat, f: FatFile, buf: seq<Byte>, ghost s: Model)
    returns (ok: bool, ghost done: nat, ghost g: Growth)
    requires Sound(s) && Mine(c, s, i, f) && s.lay == c.vol.lay && s.fat == c.vol.Fat() && s.info == c.vol.fsInfo
    requires c.vol.lay.base == 0 && Writable(s, i, |buf|)
    modifies f`loc, f`entry, f`chain, f.data.slots, f.data`clockHead
    modifies c.vol.disk, c.vol.fat.slots, c.vol.fat`clockHead, c.vol`table, c.vol`fsInfo
    ensures f.Valid() && g == GrowthOf(s, i, s.files[i].loc + |buf|) && (ok <==> g.lost == 0)
    ensures c.vol.Valid() && c.vol.Fat() == g.fat && c.vol.fsInfo == g.info && f.chain == g.chain
    ensures Wrote(s.files[i], buf, g.lost == 0, done, f.Shown())
    ensures g.lost != 0 ==> done == Behind(s.files[i].loc, s.lay.Bytes(|g.chain|))
    ensures OnlyOwnChanged(c.vol.lay, old(c.vol.disk.bytes), c.vol.disk.bytes, f.chain)
    ensures GrownBut(s.fat, s.chains[i], g.fat, g.chain, g.lost, AllocChoice(s.fat, s.info))
  {
    hide FatFile.Valid;
    hide FatFile.Bytes;
    hide FatFile.Content;
    hide FatFile.GrowthTo;
    hide Volume.Valid;
    hide AllocChoice;
    hide ChoiceInRange;
    hide Usable;
    hide GrownBut;
    hide HintFollows;
    hide OnlyOwnChanged;
    hide Written;
    hide Wrote;
    hide Grow;
    hide Away;
    hide GrowthOf;
    hide Sound;
    ghost var need := f.loc + |buf|;
    WriteAllowed(s, i, need);
    f.GrowthFacts(need);
    g := f.GrowthTo(need);
    GrowthOfIs(s, i, need);
    var r;
    ghost var leak;
    r, done, leak := f.Write(buf);
    ok := r.Ok?;
    f.ChainFacts();
  }

  /** ... and the others stay what they were. */
  method WriteAmong(c: Mount, live: set<nat>, i: nat, f: FatFile, buf: seq<Byte>, ghost s: Model)
    returns (ok: bool, ghost done: nat, ghost g: Growth)
    requires Arranged(c) && Grounded(c, live, s) && Sound(s) && Mine(c, s, i, f) && c.vol.Valid() && c.vol.lay.base == 0
    requires i in live && i < |c.files| && f == c.files[i]
    requires Writable(s, i, |buf|)
    modifies f`loc, f`entry, f`chain, f.data.slots, f.data`clockHead
    modifies c.vol.disk, c.vol.fat.slots, c.vol.fat`clockHead, c.vol`table, c.vol`fsInfo
    ensures f.Valid() && g == GrowthOf(s, i, s.files[i].loc + |buf|) && (ok <==> g.lost == 0)
    ensures c.vol.Valid() && c.vol.Fat() == g.fat && c.vol.fsInfo == g.info && f.chain == g.chain
    ensures Wrote(s.files[i], buf, g.lost == 0, done, f.Shown())
    ensures g.lost != 0 ==> done == Behind(s.files[i].loc, s.lay.Bytes(|g.chain|))
    ensures OnlyOwnChanged(c.vol.lay, old(c.vol.disk.bytes), c.vol.disk.bytes, f.chain)
    ensures forall j: nat :: j in live && j != i ==> Shows(c.files[j], s.files[j], s.chains[j])
  {
    hide FatFile.Valid;
    hide FatFile.Bytes;
    hide FatFile.Content;
    hide Volume.Valid;
    hide IsFileChain;
    hide AllocChoice;
    hide ChoiceInRange;
    hide GrownBut;
    hide OnlyOwnChanged;
    hide Wrote;
    hide GrowthOf;
    hide Away;
    hide Sound;
    hide Mine;
    hide Grounded;
    hide Beside;
    hide BlocksKept;
    hide Starts;
    ghost var starts := Starts(c, live);
    StartsAre(c, live, s);
    ok, done, g := WriteOne(c, i, f, buf, s);
    WriteSparesAll(s, i, live, starts, g, old(c.vol.disk.bytes), c.vol.disk.bytes, |buf|);
    forall j: nat | j in live && j != i ensures Shows(c.files[j], s.files[j], s.chains[j]) {
      assert old(Shows(c.files[j], s.files[j], s.chains[j]));
      c.files[j].Unharmed();
    }
  }

  /** The start clusters in the entries. */
  ghost function Starts(c: Mount, live: set<nat>): map<nat, nat>
    reads c.files
  {
    map j: nat | j in live && j < |c.files| :: if |c.files[j].entry| == 32 then StartCluster(c.files[j].entry) else 0
  }

  ghost predicate Started(f: FatFile, fat: seq<nat>, start: nat, ch: seq<nat>)
    reads f
  {
    |f.entry| == 32 && f.Wired() && f.chain == ch && StartCluster(f.entry) == start && IsFileChain(fat, start, ch)
  }

  lemma StartsAre(c: Mount, live: set<nat>, s: Model)
    requires Grounded(c, live, s)
    ensures Starts(c, live).Keys == live && live <= s.chains.Keys && live <= s.files.Keys
    ensures s.lay == c.vol.lay && s.fat == c.vol.Fat() && s.info == c.vol.fsInfo
    ensures forall j: nat :: j in live ==> j < |c.files| && Shows(c.files[j], s.files[j], s.chains[j])
    ensures forall j: nat :: j in live ==> Started(c.files[j], s.fat, Starts(c, live)[j], s.chains[j])
  {
    hide Shows;
    hide IsFileChain;
    assert forall j: nat :: j in live ==> Beside(c, c.files[j], s, j);
  }

  lemma WriteSparesAll(s: Model, i: nat, live: set<nat>, starts: map<nat, nat>, g: Growth, b: seq<Byte>, b': seq<Byte>, n: nat)
    requires Sound(s) && i in s.files && Writable(s, i, n) && live <= s.chains.Keys && live <= starts.Keys
    requires forall j :: j in live ==> IsFileChain(s.fat, starts[j], s.chains[j])
    requires GrownBut(s.fat, s.chains[i], g.fat, g.chain, g.lost, AllocChoice(s.fat, s.info))
    requires OnlyOwnChanged(s.lay, b, b', g.chain)
    ensures |b'| == |b| && forall j :: j in live && j != i ==>
      IsFileChain(g.fat, starts[j], s.chains[j]) && BlocksKept(s.lay, b, b', s.chains[j])
  {
    hide GrownBut;
    hide IsFileChain;
    hide AllocChoice;
    hide BlocksKept;
    WriteAllowed(s, i, s.files[i].loc + n);
    forall j | j in live && j != i
      ensures IsFileChain(g.fat, starts[j], s.chains[j]) && BlocksKept(s.lay, b, b', s.chains[j])
    {
      BesideWrite(s.lay, s.fat, s.chains[i], g.fat, g.chain, g.lost, AllocChoice(s.fat, s.info), b, b', starts[j], s.chains[j]);
    }
  }

  /** The model after a step that changed file i alone. */
  lemma OneChanged(c: Mount, live: set<nat>, i: nat, f: FatFile, s: Model, s': Model, b: seq<Byte>, slots: seq<Slot>)
    requires Arranged(c) && c.vol.Valid() && c.vol.lay.base == 0 && Sound(s')
    requires s.files.Keys == live && s.chains.Keys == live + c.others.Keys && live !! c.others.Keys
    requires forall k :: k in c.others ==> s.chains[k] == c.others[k]
    requires i in live && i < |c.files| && f == c.files[i] && f.Valid() && f.vol == c.vol
    requires s' == Model(c.vol.lay, c.vol.Fat(), c.vol.fsInfo, s.files[i := f.Shown()], s.chains[i := f.chain])
    requires forall j: nat :: j in live && j != i ==> j < |c.files| && Shows(c.files[j], s.files[j], s.chains[j])
    requires DirWas(c.vol, b, slots, c.secs) && OnlyOwnChanged(c.vol.lay, b, c.vol.disk.bytes, f.chain)
    ensures Ready(c, live) && ModelOf(c, live) == s'
  {
    hide FatFile.Valid;
    hide FatFile.Content;
    hide Volume.Valid;
    hide ClockCache.Valid;
    hide OnlyOwnChanged;
    hide DirReady;
    hide Sound;
    hide ModelOf;
    hide AllValid;
    hide Arranged;
    FileAway(c, s', i);
    DirStaysReady(c.vol, b, slots, c.secs, f.chain);
    assert Shows(f, s'.files[i], s'.chains[i]);
    hide Shows;
    Assembled(c, live, s'.files, s'.chains);
  }

  /** The directory cache, with these slots, over the disk b. */
  ghost predicate DirWas(vol: Volume, b: seq<Byte>, slots: seq<Slot>, secs: set<nat>)
    reads vol.dir, vol.dir.slots
  {
    && vol.dir.geo == vol.lay.DirGeometry() && vol.dir.disk == vol.disk
    && Coherent(vol.lay.DirGeometry(), b, slots) && CachesOnly(slots, secs)
    && vol.dir.slots[..] == slots && vol.dir.clockHead < |slots|
  }

  /** fs_write. */
  method WriteStep(c: Mount, live: set<nat>, i: nat, f: FatFile, buf: seq<Byte>) returns (ok: bool)
    requires Ready(c, live) && i in live && i < |c.files| && f == c.files[i]
    requires Writable(ModelOf(c, live), i, |buf|)
    modifies f`loc, f`entry, f`chain, f.data.slots, f.data`clockHead
    modifies c.vol.disk, c.vol.fat.slots, c.vol.fat`clockHead, c.vol`table, c.vol`fsInfo
    ensures Ready(c, live) && ModelOf(c, live) == After(old(ModelOf(c, live)), WriteOp(i, buf))
    ensures ReplyOf(OutcomeOf(old(ModelOf(c, live)), WriteOp(i, buf))) == Reply(ok, [])
  {
    hide FatFile.Valid;
    hide FatFile.Content;
    hide Volume.Valid;
    hide ClockCache.Valid;
    hide ChoiceInRange;
    hide OnlyOwnChanged;
    hide GrowthOf;
    hide Wrote;
    hide Away;
    hide DirReady;
    hide DirWas;
    hide Sound;
    hide After;
    hide OutcomeOf;
    hide ModelOf;
    hide AllValid;
    hide Shows;
    hide Beside;
    ghost var s, op := ModelOf(c, live), WriteOp(i, buf);
    Before(c, live, i, f);
    DirIs(c.vol, c.secs);
    ghost var b, slots := c.vol.disk.bytes, c.vol.dir.slots[..];
    ghost var done, g;
    ok, done, g := WriteAmong(c, live, i, f, buf, s);
    WriteIsAfter(s, i, buf, g, done, f.Shown());
    StepKeepsSound(s, op);
    OneChanged(c, live, i, f, s, After(s, op), b, slots);
  }

  /** The bytes of other files after a step on the clusters of file i. */
  lemma SparesAll(s: Model, i: nat, live: set<nat>, b: seq<Byte>, b': seq<Byte>)
    requires Sound(s) && i in s.chains && live <= s.chains.Keys && OnlyOwnChanged(s.lay, b, b', s.chains[i])
    ensures |b'| == |b|
    ensures forall j :: j in live && j != i ==> BlocksKept(s.lay, b, b', s.chains[j])
  {
    hide BlocksKept;
    forall j | j in live && j != i ensures BlocksKept(s.lay, b, b', s.chains[j]) {
      InTable(s, j);
      OthersKept(s.lay, b, b', s.chains[i], s.chains[j]);
    }
  }

  lemma InTable(s: Model, j: nat)
    requires Sound(s) && j in s.chains
    ensures forall x :: x in s.chains[j] ==> 2 <= x < s.lay.Entries()
  {
    forall x | x in s.chains[j] ensures 2 <= x < s.lay.Entries() { MembersNotFree(s.fat, s.chains[j], x); }
  }

  /** fs_read, as the user of one file sees it. */
  method ReadOne(f: FatFile, count: nat) returns (data: seq<Byte>)
    requires f.Valid() && f.loc + count < 0x1_0000_0000
    modifies f`loc, f.data.slots, f.data`clockHead, f.vol.disk, f.vol.fat.slots, f.vol.fat`clockHead
    ensures f.Valid() && IsRead(old(f.Shown()), count, data)
    ensures f.Shown() == old(f.Shown()).(loc := old(f.Shown().loc) + |data|)
    ensures OnlyOwnChanged(f.vol.lay, old(f.vol.disk.bytes), f.vol.disk.bytes, f.chain)
  {
    hide FatFile.Valid;
    hide FatFile.Bytes;
    hide FatFile.Content;
    hide Volume.Valid;
    hide OnlyOwnChanged;
    f.PositionInside();
    var buf := new Byte[count];
    var cc := f.Read(buf, count);
    f.PositionInside();
    data := buf[..cc];
  }

  /** fs_read of one of the files; the others stay what they were. */
  method ReadAmong(c: Mount, live: set<nat>, i: nat, f: FatFile, count: nat, ghost s: Model) returns (data: seq<Byte>)
    requires Arranged(c) && Grounded(c, live, s) && Sound(s) && Mine(c, s, i, f) && c.vol.Valid()
    requires i in live && i < |c.files| && f == c.files[i] && f.loc + count < 0x1_0000_0000
    modifies f`loc, f.data.slots, f.data`clockHead, c.vol.disk, c.vol.fat.slots, c.vol.fat`clockHead
    ensures f.Valid() && c.vol.Valid() && IsRead(s.files[i], count, data)
    ensures f.Shown() == s.files[i].(loc := s.files[i].loc + |data|)
    ensures OnlyOwnChanged(c.vol.lay, old(c.vol.disk.bytes), c.vol.disk.bytes, f.chain)
    ensures forall j: nat :: j in live && j != i ==> Shows(c.files[j], s.files[j], s.chains[j])
  {
    hide FatFile.Valid;
    hide FatFile.Content;
    hide Volume.Valid;
    hide IsFileChain;
    hide OnlyOwnChanged;
    hide IsRead;
    hide BlocksKept;
    hide Away;
    hide Sound;
    hide Grounded;
    hide Beside;
    hide Starts;
    ghost var starts, b := Starts(c, live), c.vol.disk.bytes;
    StartsAre(c, live, s);
    data := ReadOne(f, count);
    f.ChainFacts();
    SparesAll(s, i, live, b, c.vol.disk.bytes);
    forall j: nat | j in live && j != i ensures Shows(c.files[j], s.files[j], s.chains[j]) {
      assert old(Shows(c.files[j], s.files[j], s.chains[j]));
      assert Started(c.files[j], s.fat, starts[j], s.chains[j]);
      c.files[j].Unharmed();
    }
  }

  /** fs_read. */
  method ReadStep(c: Mount, live: set<nat>, i: nat, f: FatFile, count: nat) returns (data: seq<Byte>)
    requires Ready(c, live) && i in live && i < |c.files| && f == c.files[i] && f.loc + count < 0x1_0000_0000
    modifies f`loc, f.data.slots, f.data`clockHead, c.vol.disk, c.vol.fat.slots, c.vol.fat`clockHead
    ensures Ready(c, live) && ModelOf(c, live) == After(old(ModelOf(c, live)), ReadOp(i, count))
    ensures OutcomeOf(old(ModelOf(c, live)), ReadOp(i, count)) == Got(data)
  {
    hide FatFile.Valid;
    hide FatFile.Content;
    hide Volume.Valid;
    hide ClockCache.Valid;
    hide OnlyOwnChanged;
    hide IsRead;
    hide Away;
    hide DirReady;
    hide DirWas;
    hide Sound;
    hide After;
    hide OutcomeOf;
    hide ModelOf;
    hide AllValid;
    hide Shows;
    hide Beside;
    ghost var s, op := ModelOf(c, live), ReadOp(i, count);
    Before(c, live, i, f);
    DirIs(c.vol, c.secs);
    ghost var b, slots := c.vol.disk.bytes, c.vol.dir.slots[..];
    data := ReadAmong(c, live, i, f, count, s);
    ReadIsAfter(s, i, count, data, f.Shown());
    StepKeepsSound(s, op);
    OneChanged(c, live, i, f, s, After(s, op), b, slots);
  }

  method SeekOne(f: FatFile, pos: nat)
    requires f.Valid()
    modifies f`loc
    ensures f.Valid() && Sought(old(f.Shown()), pos, f.Shown())
  {
    hide FatFile.Valid;
    hide FatFile.Bytes;
    hide FatFile.Content;
    f.PositionInside();
    f.Lseek(pos);
  }

  /** fs_lseek. */
  method SeekStep(c: Mount, live: set<nat>, i: nat, f: FatFile, pos: nat)
    requires Ready(c, live) && i in live && i < |c.files| && f == c.files[i]
    modifies f`loc
    ensures Ready(c, live) && ModelOf(c, live) == After(old(ModelOf(c, live)), SeekOp(i, pos))
    ensures OutcomeOf(old(ModelOf(c, live)), SeekOp(i, pos)) == Done
  {
    hide FatFile.Valid;
    hide FatFile.Content;
    hide Volume.Valid;
    hide ClockCache.Valid;
    hide OnlyOwnChanged;
    hide Away;
    hide DirReady;
    hide DirWas;
    hide Sound;
    hide After;
    hide OutcomeOf;
    hide ModelOf;
    hide AllValid;
    hide Shows;
    hide Beside;
    hide Sought;
    ghost var s, op := ModelOf(c, live), SeekOp(i, pos);
    Before(c, live, i, f);
    DirIs(c.vol, c.secs);
    ghost var b, slots := c.vol.disk.bytes, c.vol.dir.slots[..];
    SeekOne(f, pos);
    f.ChainFacts();
    NoneOwn(c.vol.lay, b, f.chain);
    SeekIsAfter(s, i, pos, f.Shown());
    StepKeepsSound(s, op);
    OneChanged(c, live, i, f, s, After(s, op), b, slots);
  }

  lemma NoneOwn(lay: Layout, b: seq<Byte>, ch: seq<nat>)
    ensures OnlyOwnChanged(lay, b, b, ch)
  {
  }

  lemma FatIsOwn(vol: Volume, b: seq<Byte>, ch: seq<nat>)
    requires vol.OnlyFatChanged(b, vol.disk.bytes)
    ensures OnlyOwnChanged(vol.lay, b, vol.disk.bytes, ch)
  {
    OwnOfFat(vol.lay, b, vol.disk.bytes, ch);
  }

  /** Whether fs_alloc would name an existing data cluster. */
  method FindChoice(vol: Volume) returns (found: bool)
    requires vol.Valid()
    modifies vol.disk, vol.fat.slots, vol.fat`clockHead
    ensures vol.Valid() && |vol.fsInfo| == 512 && found == ChoiceInRange(vol.Fat(), vol.fsInfo)
    ensures vol.OnlyFatChanged(old(vol.disk.bytes), vol.disk.bytes)
  {
    hide Volume.Valid;
    var choice := Hint(vol.fsInfo);
    if choice > HintLimit(vol.fsInfo) {
      choice := vol.NextFree(2);
    }
    found := 2 <= choice <= vol.lay.clusters + 1;
  }

  /** A look at the FAT changes no file. */
  method FindAmong(c: Mount, live: set<nat>, i: nat, f: FatFile, ghost s: Model) returns (found: bool)
    requires Arranged(c) && Grounded(c, live, s) && Sound(s) && Mine(c, s, i, f) && c.vol.Valid()
    requires i in live && i < |c.files| && f == c.files[i]
    modifies c.vol.disk, c.vol.fat.slots, c.vol.fat`clockHead
    ensures c.vol.Valid() && |s.info| == 512 && found == ChoiceInRange(s.fat, s.info)
    ensures OnlyOwnChanged(c.vol.lay, old(c.vol.disk.bytes), c.vol.disk.bytes, f.chain)
    ensures forall j: nat :: j in live ==> Shows(c.files[j], s.files[j], s.chains[j])
  {
    hide FatFile.Valid;
    hide FatFile.Content;
    hide Volume.Valid;
    hide Volume.OnlyFatChanged;
    hide IsFileChain;
    hide OnlyOwnChanged;
    hide BlocksKept;
    hide Away;
    hide Sound;
    hide Grounded;
    hide Beside;
    hide Starts;
    hide ChoiceInRange;
    ghost var starts, b := Starts(c, live), c.vol.disk.bytes;
    StartsAre(c, live, s);
    found := FindChoice(c.vol);
    FatIsOwn(c.vol, b, f.chain);
    FatIsOwn(c.vol, b, []);
    NoneSpared(s, live, b, c.vol.disk.bytes);
    forall j: nat | j in live ensures Shows(c.files[j], s.files[j], s.chains[j]) {
      assert old(Shows(c.files[j], s.files[j], s.chains[j]));
      assert Started(c.files[j], s.fat, starts[j], s.chains[j]);
      c.files[j].Unharmed();
    }
  }

  lemma NoneSpared(s: Model, live: set<nat>, b: seq<Byte>, b': seq<Byte>)
    requires Sound(s) && live <= s.chains.Keys && OnlyOwnChanged(s.lay, b, b', [])
    ensures |b'| == |b| && forall j :: j in live ==> BlocksKept(s.lay, b, b', s.chains[j])
  {
    hide BlocksKept;
    forall j | j in live ensures BlocksKept(s.lay, b, b', s.chains[j]) {
      InTable(s, j);
      OthersKept(s.lay, b, b', [], s.chains[j]);
    }
  }

  method FindStep(c: Mount, live: set<nat>, i: nat, f: FatFile) returns (found: bool)
    requires Ready(c, live) && i in live && i < |c.files| && f == c.files[i]
    modifies c.vol.disk, c.vol.fat.slots, c.vol.fat`clockHead
    ensures Ready(c, live) && ModelOf(c, live) == old(ModelOf(c, live))
    ensures found == ChoiceInRange(c.vol.Fat(), c.vol.fsInfo)
  {
    hide FatFile.Valid;
    hide FatFile.Content;
    hide Volume.Valid;
    hide ClockCache.Valid;
    hide OnlyOwnChanged;
    hide Away;
    hide DirReady;
    hide DirWas;
    hide Sound;
    hide After;
    hide OutcomeOf;
    hide ModelOf;
    hide AllValid;
    hide Shows;
    hide Beside;
    hide ChoiceInRange;
    ghost var s := ModelOf(c, live);
    Before(c, live, i, f);
    DirIs(c.vol, c.secs);
    ghost var b, slots := c.vol.disk.bytes, c.vol.dir.slots[..];
    found := FindAmong(c, live, i, f, s);
    SameShown(f, s, i);
    OneChanged(c, live, i, f, s, s, b, slots);
  }

  lemma SameShown(f: FatFile, s: Model, i: nat)
    requires i in s.files && i in s.chains && Shows(f, s.files[i], s.chains[i])
    ensures f.Valid() && s.files[i := f.Shown()] == s.files && s.chains[i := f.chain] == s.chains
  {
    hide FatFile.Valid;
    hide FatFile.Content;
    assert f.Shown() == s.files[i];
  }

  // ------------------------------------------------------------ closing, removing

  /** No directory sector lies in a cluster of any open file. */
  lemma AllAway(c: Mount, live: set<nat>, s: Model)
    requires Arranged(c) && Sound(s) && Grounded(c, live, s)
    ensures forall j :: j in live ==> j in s.chains && Away(s.lay, c.secs, s.chains[j])
  {
    hide Sound;
    hide Shows;
    hide Beside;
    hide Away;
    hide Arranged;
    forall j | j in live ensures j in s.chains && Away(s.lay, c.secs, s.chains[j]) { FileAway(c, s, j); }
  }

  /** The bytes of other files after system and directory sectors changed, and then the
      clusters of file i. */
  lemma CloseSparesAll(s: Model, i: nat, live: set<nat>, secs: set<nat>, b: seq<Byte>, mid: seq<Byte>, b': seq<Byte>)
    requires Sound(s) && i in s.chains && live <= s.chains.Keys
    requires forall j :: j in live ==> Away(s.lay, secs, s.chains[j])
    requires OnlySystemChanged(s.lay, b, mid, secs) && OnlyOwnChanged(s.lay, mid, b', s.chains[i])
    ensures |b'| == |b|
    ensures forall j :: j in live && j != i ==> BlocksKept(s.lay, b, b', s.chains[j])
  {
    hide Away;
    hide Sound;
    hide BlocksKept;
    SparesAll(s, i, live, mid, b');
    forall j | j in live && j != i ensures BlocksKept(s.lay, b, b', s.chains[j]) {
      SystemSparesFile(s.lay, b, mid, secs, s.chains[j]);
      KeptTwice(s.lay, b, mid, b', s.chains[j]);
    }
  }

  lemma KeptTwice(lay: Layout, b0: seq<Byte>, b1: seq<Byte>, b2: seq<Byte>, ch: seq<nat>)
    requires BlocksKept(lay, b0, b1, ch) && BlocksKept(lay, b1, b2, ch)
    ensures BlocksKept(lay, b0, b2, ch)
  {
    forall x | x in ch ensures ClusterKept(lay, b0, b2, x) { assert ClusterKept(lay, b0, b1, x) && ClusterKept(lay, b1, b2, x); }
  }

  /** fs_close, as its own file sees it: nothing changes, the entry is in its sector, and
      everything is saved. */
  method CloseOne(f: FatFile, ghost secs: set<nat>) returns (ghost mid: seq<Byte>)
    requires f.Valid() && f.vol.Valid() && DirReady(f.vol, secs) && Away(f.vol.lay, secs, f.chain)
    requires Placed(f.vol, EntrySector(f), f.dirEntryPos, secs)
    modifies f.vol.disk, f.vol.fat.slots, f.vol.dir.slots, f.vol.dir`clockHead, f.data.slots
    ensures f.Valid() && f.vol.Valid() && DirReady(f.vol, secs) && f.Shown() == old(f.Shown()) && Saved(f)
    ensures |f.entry| == 32 && HasEntry(f.vol.dir.View(), EntrySector(f), f.dirEntryPos, f.entry)
    ensures OnlySystemChanged(f.vol.lay, old(f.vol.disk.bytes), mid, secs)
    ensures OnlyOwnChanged(f.vol.lay, mid, f.vol.disk.bytes, f.chain)
  {
    hide FatFile.Valid;
    hide FatFile.Bytes;
    hide FatFile.Content;
    hide ClockCache.Valid;
    hide ClockCache.View;
    hide Volume.Valid;
    hide IsFileChain;
    hide HasEntry;
    hide EntryStored;
    hide IsTag;
    hide Saved;
    hide SameOn;
    hide OnlySystemChanged;
    hide OnlyOwnChanged;
    hide CachesOnly;
    hide Away;
    f.PositionInside();
    f.ChainFacts();
    f.vol.DirFacts();
    f.vol.dir.ViewSizes();
    ghost var v0 := f.vol.dir.View();
    mid := Close(f, secs);
    EntryFound(v0, f.vol.dir.View(), secs, EntrySector(f), f.dirEntryPos, f.entry);
    f.PositionInside();
    f.ChainFacts();
  }

  /** ... and the others stay what they were. */
  method CloseAmong(c: Mount, live: set<nat>, i: nat, f: FatFile, ghost s: Model)
    requires Arranged(c) && Grounded(c, live, s) && Sound(s) && Mine(c, s, i, f) && c.vol.Valid() && DirReady(c.vol, c.secs)
    requires i in live && i < |c.files| && f == c.files[i]
    modifies c.vol.disk, c.vol.fat.slots, c.vol.dir.slots, c.vol.dir`clockHead, f.data.slots
    ensures f.Valid() && c.vol.Valid() && DirReady(c.vol, c.secs) && f.Shown() == s.files[i] && Saved(f)
    ensures |f.entry| == 32 && HasEntry(c.vol.dir.View(), EntrySector(f), f.dirEntryPos, f.entry)
    ensures forall j: nat :: j in live && j != i ==> Shows(c.files[j], s.files[j], s.chains[j])
  {
    hide FatFile.Valid;
    hide FatFile.Content;
    hide Volume.Valid;
    hide ClockCache.Valid;
    hide ClockCache.View;
    hide OnlyOwnChanged;
    hide OnlySystemChanged;
    hide IsFileChain;
    hide BlocksKept;
    hide Away;
    hide DirReady;
    hide Placed;
    hide Saved;
    hide HasEntry;
    hide EntryStored;
    hide Sound;
    hide Grounded;
    hide Beside;
    hide Starts;
    ghost var starts, b := Starts(c, live), c.vol.disk.bytes;
    StartsAre(c, live, s);
    AllAway(c, live, s);
    ghost var mid := CloseOne(f, c.secs);
    CloseSparesAll(s, i, live, c.secs, b, mid, c.vol.disk.bytes);
    forall j: nat | j in live && j != i ensures Shows(c.files[j], s.files[j], s.chains[j]) {
      assert old(Shows(c.files[j], s.files[j], s.chains[j]));
      assert Started(c.files[j], s.fat, starts[j], s.chains[j]);
      c.files[j].Unharmed();
    }
  }

  /** fs_close: no file changes, and this one is saved. */
  method CloseStep(c: Mount, live: set<nat>, i: nat, f: FatFile)
    requires Ready(c, live) && i in live && i < |c.files| && f == c.files[i]
    modifies c.vol.disk, c.vol.fat.slots, c.vol.dir.slots, c.vol.dir`clockHead, f.data.slots
    ensures Ready(c, live) && ModelOf(c, live) == old(ModelOf(c, live)) && Saved(f)
    ensures After(old(ModelOf(c, live)), CloseOp(i)) == old(ModelOf(c, live))
    ensures OutcomeOf(old(ModelOf(c, live)), CloseOp(i)) == Done
    ensures |f.entry| == 32 && HasEntry(c.vol.dir.View(), EntrySector(f), f.dirEntryPos, f.entry)
  {
    hide FatFile.Valid;
    hide FatFile.Content;
    hide Volume.Valid;
    hide ClockCache.Valid;
    hide OnlyOwnChanged;
    hide OnlySystemChanged;
    hide Away;
    hide DirReady;
    hide Placed;
    hide Sound;
    hide After;
    hide OutcomeOf;
    hide ModelOf;
    hide AllValid;
    hide Shows;
    hide Beside;
    hide Saved;
    hide HasEntry;
    hide IsFileChain;
    ghost var s := ModelOf(c, live);
    Before(c, live, i, f);
    CloseIsAfter(s, i);
    CloseAmong(c, live, i, f, s);
    ShowsAgain(f, s.files[i], s.chains[i]);
    Assembled(c, live, s.files, s.chains);
  }

  lemma ShowsAgain(f: FatFile, d: Doc, ch: seq<nat>)
    requires f.Valid() && f.Shown() == d && f.chain == ch
    ensures Shows(f, d, ch)
  {
  }

  // --------------------------------------------------------------------- removal

  /** The bytes and chains of other files after one was removed. */
  lemma RemovalSparesAll(s: Model, i: nat, live: set<nat>, starts: map<nat, nat>, secs: set<nat>, b: seq<Byte>, b': seq<Byte>)
    requires Sound(s) && i in s.chains && i in live && live <= s.chains.Keys && live <= starts.Keys
    requires forall j :: j in live ==> IsFileChain(s.fat, starts[j], s.chains[j])
    requires forall j :: j in live ==> Away(s.lay, secs, s.chains[j])
    requires OnlySystemChanged(s.lay, b, b', secs)
    ensures |b'| == |b|
    ensures forall j :: j in live && j != i ==>
      IsFileChain(Released(s.fat, starts[i]), starts[j], s.chains[j]) && BlocksKept(s.lay, b, b', s.chains[j])
  {
    hide Away;
    hide BlocksKept;
    hide IsFileChain;
    hide Released;
    forall j | j in live && j != i
      ensures IsFileChain(Released(s.fat, starts[i]), starts[j], s.chains[j]) && BlocksKept(s.lay, b, b', s.chains[j])
    {
      SystemSparesFile(s.lay, b, b', secs, s.chains[j]);
      ReleaseBeside(s.fat, starts[i], s.chains[i], starts[j], s.chains[j]);
    }
  }

  lemma ReleaseBeside(fat: seq<nat>, start: nat, ch: seq<nat>, start': nat, other: seq<nat>)
    requires IsFileChain(fat, start, ch) && IsFileChain(fat, start', other) && Apart(other, ch)
    ensures IsFileChain(Released(fat, start), start', other)
  {
    if start != 0 && start' != 0 { ReleaseSparesOther(fat, ch, other); }
  }

  /** fs_rm, as the other files see it. */
  method RemoveAmong(c: Mount, live: set<nat>, i: nat, f: FatFile, ghost s: Model)
    requires Arranged(c) && Grounded(c, live, s) && Sound(s) && c.vol.Valid() && DirReady(c.vol, c.secs)
    requires i in live && i < |c.files| && f == c.files[i] && Placed(c.vol, EntrySector(f), f.dirEntryPos, c.secs)
    requires |f.entry| == 32 && HasEntry(c.vol.dir.View(), EntrySector(f), f.dirEntryPos, f.entry)
    modifies c.vol.disk, c.vol.fat.slots, c.vol.fat`clockHead, c.vol`table, c.vol.dir.slots, c.vol.dir`clockHead
    ensures c.vol.Valid() && DirReady(c.vol, c.secs) && IsFileChain(s.fat, StartCluster(f.entry), s.chains[i])
    ensures c.vol.Fat() == Released(s.fat, StartCluster(f.entry))
    ensures c.vol.dir.View() ==
      EntryStored(old(c.vol.dir.View()), EntrySector(f), f.dirEntryPos, f.entry[0 := FREE_ENTRY])
    ensures forall j: nat :: j in live && j != i ==> Shows(c.files[j], s.files[j], s.chains[j])
  {
    hide FatFile.Valid;
    hide FatFile.Content;
    hide Volume.Valid;
    hide ClockCache.Valid;
    hide ClockCache.View;
    hide OnlyOwnChanged;
    hide OnlySystemChanged;
    hide IsFileChain;
    hide BlocksKept;
    hide Away;
    hide DirReady;
    hide Placed;
    hide Saved;
    hide HasEntry;
    hide EntryStored;
    hide Sound;
    hide Grounded;
    hide Beside;
    hide Starts;
    hide Released;
    hide Volume.Fat;
    hide StartCluster;
    hide Arranged;
    Neighbours(c, live, i);
    ghost var starts, b := Starts(c, live), c.vol.disk.bytes;
    StartsAre(c, live, s);
    AllAway(c, live, s);
    Remove(c.vol, f.dirEntrySector + c.vol.lay.base, f.dirEntryPos, c.secs, f.entry);
    RemovalSparesAll(s, i, live, starts, c.secs, b, c.vol.disk.bytes);
    forall j: nat | j in live && j != i ensures Shows(c.files[j], s.files[j], s.chains[j]) {
      assert old(Shows(c.files[j], s.files[j], s.chains[j]));
      assert Started(c.files[j], s.fat, starts[j], s.chains[j]);
      c.files[j].Unharmed();
    }
  }

  lemma Neighbours(c: Mount, live: set<nat>, i: nat)
    requires Arranged(c) && i < |c.files|
    ensures forall j: nat :: j < |c.files| ==> c.files[j].vol == c.vol
    ensures forall j: nat :: j < |c.files| && j != i ==>
      c.files[j] != c.files[i] && c.files[j].data != c.files[i].data && c.files[j].data.slots != c.files[i].data.slots
  {
  }

  /** fs_close and fs_rm: the file is gone, its clusters are free, and its entry is
      marked so. */
  method RemoveStep(c: Mount, live: set<nat>, i: nat, f: FatFile)
    requires Ready(c, live) && i in live && i < |c.files| && f == c.files[i]
    modifies c.vol.disk, c.vol.fat.slots, c.vol.fat`clockHead, c.vol`table, c.vol.dir.slots, c.vol.dir`clockHead, f.data.slots
    ensures Ready(c, live - {i}) && ModelOf(c, live - {i}) == After(old(ModelOf(c, live)), RemoveOp(i))
    ensures OutcomeOf(old(ModelOf(c, live)), RemoveOp(i)) == Done
  {
    hide FatFile.Valid;
    hide FatFile.Content;
    hide Volume.Valid;
    hide Volume.Fat;
    hide ClockCache.Valid;
    hide ClockCache.View;
    hide Away;
    hide DirReady;
    hide Placed;
    hide Sound;
    hide After;
    hide OutcomeOf;
    hide Released;
    hide ModelOf;
    hide AllValid;
    hide Shows;
    hide Beside;
    hide Saved;
    hide HasEntry;
    hide EntryStored;
    hide IsFileChain;
    ghost var s := ModelOf(c, live);
    CloseStep(c, live, i, f);
    Before(c, live, i, f);
    RemoveAmong(c, live, i, f, s);
    RemoveIsAfter(s, i, StartCluster(f.entry));
    StepKeepsSound(s, RemoveOp(i));
    Assembled(c, live - {i}, s.files - {i}, s.chains - {i});
  }

  // ------------------------------------------------------------------------ runs

  /** fs_write, refused beyond 4 GB and where it may need a cluster that fs_alloc cannot
      name. */
  method WriteAny(c: Mount, live: set<nat>, i: nat, f: FatFile, buf: seq<Byte>) returns (ok: bool)
    requires Ready(c, live) && i in live && i < |c.files| && f == c.files[i]
    modifies f`loc, f`entry, f`chain, f.data.slots, f.data`clockHead
    modifies c.vol.disk, c.vol.fat.slots, c.vol.fat`clockHead, c.vol`table, c.vol`fsInfo
    ensures Ready(c, live) && ModelOf(c, live) == After(old(ModelOf(c, live)), WriteOp(i, buf))
    ensures ReplyOf(OutcomeOf(old(ModelOf(c, live)), WriteOp(i, buf))) == Reply(ok, [])
  {
    hide FatFile.Valid;
    hide FatFile.Content;
    hide Volume.Valid;
    hide ClockCache.Valid;
    hide ChoiceInRange;
    hide Away;
    hide DirReady;
    hide Sound;
    hide After;
    hide OutcomeOf;
    hide ModelOf;
    hide AllValid;
    hide Shows;
    hide Beside;
    ghost var s, op := ModelOf(c, live), WriteOp(i, buf);
    Before(c, live, i, f);
    if f.loc + |buf| >= 0x1_0000_0000 {
      RefusedFar(s, op);
      return false;
    }
    if f.loc + |buf| > FileSize(f.entry) {
      var found := FindStep(c, live, i, f);
      if !found {
        RefusedWrite(s, i, buf);
        return false;
      }
    }
    ok := WriteStep(c, live, i, f, buf);
  }

  /** One operation: the objects follow the model, and the caller gets what it says. */
  method Step(c: Mount, live: set<nat>, op: FileOp) returns (live': set<nat>, reply: Reply)
    requires Ready(c, live)
    modifies c.files, set f | f in c.files :: f.data, set f | f in c.files :: f.data.slots
    modifies c.vol.disk, c.vol.fat.slots, c.vol.fat`clockHead, c.vol`table, c.vol`fsInfo
    modifies c.vol.dir.slots, c.vol.dir`clockHead
    ensures Ready(c, live') && ModelOf(c, live') == After(old(ModelOf(c, live)), op)
    ensures reply == ReplyOf(OutcomeOf(old(ModelOf(c, live)), op))
  {
    hide FatFile.Valid;
    hide FatFile.Content;
    hide Volume.Valid;
    hide ClockCache.Valid;
    hide Away;
    hide DirReady;
    hide Sound;
    hide After;
    hide OutcomeOf;
    hide ModelOf;
    hide AllValid;
    hide Shows;
    hide Beside;
    hide Saved;
    hide HasEntry;
    ghost var s := ModelOf(c, live);
    Parts(c, live);
    live' := live;
    if op.f !in live {
      RefusedFar(s, op);
      return live, Reply(false, []);
    }
    var f := c.files[op.f];
    Before(c, live, op.f, f);
    match op {
      case WriteOp(i, buf) =>
        var ok := WriteAny(c, live, i, f, buf);
        reply := Reply(ok, []);
      case ReadOp(i, count) =>
        if f.loc + count >= 0x1_0000_0000 {
          RefusedFar(s, op);
          return live, Reply(false, []);
        }
        var data := ReadStep(c, live, i, f, count);
        reply := Reply(true, data);
      case SeekOp(i, pos) =>
        SeekStep(c, live, i, f, pos);
        reply := Reply(true, []);
      case CloseOp(i) =>
        CloseStep(c, live, i, f);
        reply := Reply(true, []);
      case RemoveOp(i) =>
        RemoveStep(c, live, i, f);
        live' := live - {i};
        reply := Reply(true, []);
    }
  }

  /** Over every run of writes, failed ones included, reads, seeks, closes and removals on
      any number of files, the objects follow the model, and every caller gets what the
      model says. */
  method Run(c: Mount, live0: set<nat>, ops: seq<FileOp>) returns (live: set<nat>, replies: seq<Reply>)
    requires Ready(c, live0)
    modifies c.files, set f | f in c.files :: f.data, set f | f in c.files :: f.data.slots
    modifies c.vol.disk, c.vol.fat.slots, c.vol.fat`clockHead, c.vol`table, c.vol`fsInfo
    modifies c.vol.dir.slots, c.vol.dir`clockHead
    ensures Ready(c, live) && ModelOf(c, live) == Replay(old(ModelOf(c, live0)), ops)
    ensures replies == Replies(Outcomes(old(ModelOf(c, live0)), ops))
  {
    hide Ready;
    hide AllValid;
    hide ModelOf;
    hide Sound;
    hide After;
    hide OutcomeOf;
    ghost var s := ModelOf(c, live0);
    live, replies := live0, [];
    var n := 0;
    assert ops[..0] == [];
    while n < |ops|
      invariant n <= |ops| && Ready(c, live) && ModelOf(c, live) == Replay(s, ops[..n])
      invariant replies == Replies(Outcomes(s, ops[..n]))
    {
      OneMore(s, ops, n);
      var reply;
      live, reply := Step(c, live, ops[n]);
      replies := replies + [reply];
      n := n + 1;
    }
    assert ops[..n] == ops;
  }
}
