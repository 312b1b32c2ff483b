/** An open file: reading, writing and closing it through its four-slot data cache
    (kernel/fs/fat/fat.c). */
module FatFile {
  import opened Sequences
  import opened BlockCache
  import opened FsCache
  import opened FatTable
  import opened FatLayout
  import opened FatVolume
  import opened FatData
  import opened FatChains
  import opened FatGrowth

  /** Offsets in a directory entry (Microsoft FAT32 File System Specification v1.03,
      "FAT Directory Structure"). */
  const START_HIGH: nat := 20
  const START_LOW: nat := 26
  const SIZE: nat := 28

  const LOCAL_DATA_BUF_NUM: nat := 4

  /** get_start_cluster. */
  function StartCluster(entry: seq<Byte>): nat
    requires |entry| == 32
  {
    0x1_0000 * Get16(entry, START_HIGH) + Get16(entry, START_LOW)
  }

  function FileSize(entry: seq<Byte>): nat
    requires |entry| == 32
  {
    Get32(entry, SIZE)
  }

  function WithStart(entry: seq<Byte>, c: nat): (e: seq<Byte>)
    requires |entry| == 32
    ensures |e| == 32
  {
    Set16(Set16(entry, START_HIGH, c / 0x1_0000 % 0x1_0000), START_LOW, c % 0x1_0000)
  }

  /** Everything in the entry but the start cluster. */
  ghost predicate SameButStart(e: seq<Byte>, e': seq<Byte>) {
    |e| == |e'| == 32 && forall i :: 0 <= i < 32 && !(20 <= i < 22) && !(26 <= i < 28) ==> e'[i] == e[i]
  }

  lemma StartStored(entry: seq<Byte>, c: nat)
    requires |entry| == 32 && c < 0x1_0000_0000
    ensures StartCluster(WithStart(entry, c)) == c
    ensures SameButStart(entry, WithStart(entry, c))
  {
    var e := Set16(entry, START_HIGH, c / 0x1_0000 % 0x1_0000);
    Get16Set16(entry, START_HIGH, c / 0x1_0000 % 0x1_0000);
    Get16Set16(e, START_LOW, c % 0x1_0000);
  }

  lemma SameSize(e: seq<Byte>, e': seq<Byte>)
    requires SameButStart(e, e')
    ensures FileSize(e') == FileSize(e)
  {
  }

  /** Every cluster of a chain in range is in view. */
  lemma ChainHeld(lay: Layout, img: map<nat, seq<Byte>>, fat: seq<nat>, ch: seq<nat>)
    requires lay.WellFormed() && |fat| == lay.Entries() && (ch == [] || IsChain(fat, ch))
    requires forall a: nat :: IsTag(lay.DataGeometry(), a) ==> a in img && |img[a]| == lay.ClusterBytes()
    ensures HoldsClusters(lay, img, ch)
  {
    forall i | 0 <= i < |ch| ensures HoldsCluster(lay, img, ch[i]) {
      assert LinkOk(fat, ch, i);
      lay.TagIsSector(ch[i]);
    }
  }

  lemma UpdateTwice(m: map<nat, seq<Byte>>, k: nat, a: seq<Byte>, b: seq<Byte>)
    ensures m[k := a][k := b] == m[k := b]
  {
  }

  /** Marking a cluster outside a chain leaves it a chain. */
  lemma ChainSurvives(fat: seq<nat>, fat': seq<nat>, start: nat, ch: seq<nat>, c: nat)
    requires IsFileChain(fat, start, ch) && 2 <= c < |fat| && c !in ch && fat' == fat[c := END_OF_CHAIN]
    ensures IsFileChain(fat', start, ch)
  {
    if ch != [] { ChainFrame(fat, fat', ch); }
  }

  /** A chain only grows by clusters it needs. */
  ghost predicate NoWaste(lay: Layout, ch: seq<nat>, ch': seq<nat>, need: nat) {
    |ch'| == |ch| || (|ch'| > 0 && lay.Bytes(|ch'| - 1) < need)
  }

  /** What growing a chain until it holds `need` bytes does to the table, the chain and
      the hint. */
  ghost predicate GrowsWell(lay: Layout, fat: seq<nat>, ch: seq<nat>, info: seq<Byte>, g: Growth, need: nat) {
    && |info| == 512 && GrownBut(fat, ch, g.fat, g.chain, g.lost, AllocChoice(fat, info))
    && HintFollows(fat, ch, info, g.fat, g.chain, g.info, g.lost)
    && NoWaste(lay, ch, g.chain, need)
    && if g.lost == 0 then need <= lay.Bytes(|g.chain|)
       else FirstFree(g.fat, g.lost) == NO_CLUSTER && lay.Bytes(|g.chain|) < need
  }

  lemma {:induction false} GrowthIsGood(lay: Layout, fat: seq<nat>, ch: seq<nat>, info: seq<Byte>, need: nat)
    requires lay.WellFormed() && (ch == [] || IsChain(fat, ch)) && |fat| <= END_OF_CHAIN && |info| == 512
    requires Usable(fat, info, ch) || need <= lay.Bytes(|ch|)
    ensures Linkable(fat, ch)
    ensures GrowsWell(lay, fat, ch, info, Grow(fat, ch, info, lay.Lacking(|ch|, need)), need)
  {
    hide *;
    LastInTable(fat, ch);
    var k := lay.Lacking(|ch|, need);
    var g := Grow(fat, ch, info, k);
    lay.LackingStep(|ch|, need);
    GrowIsGrown(fat, ch, info, k);
    GrownSize(lay, |ch|, |g.chain|, need, g.lost == 0);
    GrownIsGood(lay, fat, ch, info, g, need);
  }

  lemma GrownSize(lay: Layout, n: nat, m: nat, need: nat, done: bool)
    requires lay.WellFormed() && n <= m
    requires if done then m == n + lay.Lacking(n, need) else m < n + lay.Lacking(n, need)
    ensures m > n ==> lay.Bytes(m - 1) < need
    ensures if done then need <= lay.Bytes(m) else lay.Bytes(m) < need
  {
    hide *;
    lay.LackingUntil(n, need, m);
    if m > n { lay.LackingUntil(n, need, m - 1); }
  }

  lemma GrownIsGood(lay: Layout, fat: seq<nat>, ch: seq<nat>, info: seq<Byte>, g: Growth, need: nat)
    requires |info| == 512 && GrownBut(fat, ch, g.fat, g.chain, g.lost, AllocChoice(fat, info))
    requires HintFollows(fat, ch, info, g.fat, g.chain, g.info, g.lost)
    requires |g.chain| > |ch| ==> lay.Bytes(|g.chain| - 1) < need
    requires |g.chain| >= |ch|
    requires if g.lost == 0 then need <= lay.Bytes(|g.chain|)
      else FirstFree(g.fat, g.lost) == NO_CLUSTER && lay.Bytes(|g.chain|) < need
    ensures GrowsWell(lay, fat, ch, info, g, need)
  {
    hide GrownBut;
    hide HintFollows;
    hide FirstFree;
    hide AllocChoice;
    hide Layout.Bytes;
  }

  lemma UsableInRange(fat: seq<nat>, info: seq<Byte>, start: nat, ch: seq<nat>)
    requires IsFileChain(fat, start, ch) && Usable(fat, info, ch)
    ensures ChoiceInRange(fat, info) && Linkable(fat, ch)
  {
    StartsChain(fat, start, ch);
    LastInTable(fat, ch);
  }

  lemma StartsChain(fat: seq<nat>, start: nat, ch: seq<nat>)
    requires IsFileChain(fat, start, ch)
    ensures ch == [] || IsChain(fat, ch)
  {
  }

  lemma OwnOfAlloc(vol: Volume, b: seq<Byte>, b': seq<Byte>, c: nat)
    requires 2 <= c && vol.OnlyFatAndClusterChanged(b, b', c)
    ensures OnlyOwnChanged(vol.lay, b, b', [c])
  {
    assert c in [c];
  }

  lemma HoldsMore(lay: Layout, img: map<nat, seq<Byte>>, img': map<nat, seq<Byte>>, ch: seq<nat>)
    requires HoldsClusters(lay, img, ch)
    requires forall a: nat :: a in img ==> a in img' && |img'[a]| == |img[a]|
    ensures HoldsClusters(lay, img', ch)
  {
    forall i | 0 <= i < |ch| ensures HoldsCluster(lay, img', ch[i]) {
      assert HoldsCluster(lay, img, ch[i]);
    }
  }

  lemma LeakGrows(fat: seq<nat>, fat': seq<nat>, start: nat, ch: seq<nat>, c: nat)
    requires IsFileChain(fat, start, ch) && 2 <= c < |fat| && c !in ch && fat' == fat[c := END_OF_CHAIN]
    ensures GrownBut(fat, ch, fat', ch, c, c)
  {
    assert fat'[c := fat[c]] == fat;
  }

  lemma ChainStarts(fat: seq<nat>, ch: seq<nat>, c: nat)
    requires ch == [] && 2 <= c < |fat| <= END_OF_CHAIN
    ensures var f := fat[c := END_OF_CHAIN];
      IsFileChain(f, c, ch + [c]) && Grown(fat, ch, f, ch + [c], c)
  {
    AppendGrows(fat, ch, c);
  }

  lemma ChainExtends(fat: seq<nat>, start: nat, ch: seq<nat>, c: nat, info: seq<Byte>)
    requires IsFileChain(fat, start, ch) && ch != [] && 2 <= c < |fat| <= END_OF_CHAIN && c !in ch
    ensures Low28(c) == c && ch[|ch| - 1] < |fat|
    ensures var f := fat[c := END_OF_CHAIN][ch[|ch| - 1] := c];
      && IsFileChain(f, start, ch + [c]) && Grown(fat, ch, f, ch + [c], c)
      && (CanAlloc(fat[c := END_OF_CHAIN], info) ==> CanAlloc(f, info))
  {
    assert LinkOk(fat, ch, |ch| - 1);
    AppendGrows(fat, ch, c);
    SameFree(fat[c := END_OF_CHAIN], fat[c := END_OF_CHAIN][ch[|ch| - 1] := c], 2);
  }

  ghost predicate Zeroed(lay: Layout, img: map<nat, seq<Byte>>, c: nat) {
    c >= 2 && lay.Tag(c) in img && img[lay.Tag(c)] == Zeros(lay.ClusterBytes())
  }

  lemma ZeroAppend(lay: Layout, img: map<nat, seq<Byte>>, ch: seq<nat>, c: nat)
    requires HoldsClusters(lay, img, ch) && Zeroed(lay, img, c) && lay.WellFormed()
    ensures HoldsClusters(lay, img, ch + [c])
    ensures Stored(lay, img, ch + [c]) == Stored(lay, img, ch) + Zeros(lay.ClusterBytes())
    ensures lay.Bytes(|ch|) <= lay.Bytes(|ch + [c]|)
  {
    StoredAppend(lay, img, ch, c);
  }

  /** Zeroing a cluster outside the chain does not change the file. */
  lemma ErasedApart(lay: Layout, img: map<nat, seq<Byte>>, ch: seq<nat>, c: nat)
    requires HoldsClusters(lay, img, ch) && lay.WellFormed() && 2 <= c && c !in ch
    ensures var img' := img[lay.Tag(c) := Zeros(lay.ClusterBytes())];
      && Zeroed(lay, img', c)
      && HoldsClusters(lay, img', ch) && Stored(lay, img', ch) == Stored(lay, img, ch)
  {
    var img' := img[lay.Tag(c) := Zeros(lay.ClusterBytes())];
    forall i | 0 <= i < |ch| ensures lay.Tag(ch[i]) != lay.Tag(c) {
      assert HoldsCluster(lay, img, ch[i]) && ch[i] in ch;
      lay.ClustersApart(ch[i], c);
    }
    StoredFrame(lay, img, img', ch);
  }

  lemma OwnSteps(lay: Layout, b0: seq<Byte>, b1: seq<Byte>, b2: seq<Byte>, b3: seq<Byte>, ch: seq<nat>, c: nat)
    requires OnlyOwnChanged(lay, b0, b1, [c]) && OnlyOwnChanged(lay, b1, b2, ch) && OnlyOwnChanged(lay, b2, b3, ch + [c])
    ensures OnlyOwnChanged(lay, b0, b3, ch + [c])
  {
    forall x: nat | x < |b0| && b1[x] != b0[x]
      ensures InFat(lay, x) || exists d :: d in ch + [c] && InCluster(lay, d, x)
    {
      if !InFat(lay, x) {
        assert (ch + [c])[|ch|] == c;
        assert InCluster(lay, c, x);
      }
    }
    OwnTrans(lay, b1, b2, b3, ch, ch + [c]);
    OwnTrans(lay, b0, b1, b3, ch + [c], ch + [c]);
  }

  lemma StartTrans(e0: seq<Byte>, e1: seq<Byte>, e2: seq<Byte>)
    requires SameButStart(e0, e1) && SameButStart(e1, e2)
    ensures SameButStart(e0, e2)
  {
  }

  /** d is d0, lengthened by zeros, with w spliced in at o. */
  ghost predicate Written(d0: seq<Byte>, d: seq<Byte>, o: nat, w: seq<Byte>) {
    && |d0| <= |d| && o + |w| <= |d|
    && d == Splice(d0 + Zeros(|d| - |d0|), o, w)
  }

  lemma WrittenMore(d0: seq<Byte>, d: seq<Byte>, o: nat, w: seq<Byte>, n: nat)
    requires Written(d0, d, o, w)
    ensures Written(d0, d + Zeros(n), o, w)
  {
    var z := Zeros(|d| - |d0|);
    SpliceExtend(d0 + z, o, w, Zeros(n));
    ZerosJoin(|d| - |d0|, n);
    assert d0 + z + Zeros(n) == d0 + (z + Zeros(n));
  }

  lemma WrittenChunk(d0: seq<Byte>, d: seq<Byte>, o: nat, src: seq<Byte>, cc: nat, n: nat)
    requires cc + n <= |src| && o + cc + n <= |d| && Written(d0, d, o, src[..cc])
    ensures Written(d0, Splice(d, o + cc, src[cc..cc + n]), o, src[..cc + n])
  {
    SpliceTwice(d0 + Zeros(|d| - |d0|), o, src[..cc], src[cc..cc + n]);
    assert src[..cc] + src[cc..cc + n] == src[..cc + n];
  }

  /** Everything in the entry but the start cluster and the size. */
  ghost predicate SameButStartAndSize(e: seq<Byte>, e': seq<Byte>) {
    |e| == |e'| == 32 && forall i :: 0 <= i < 26 && !(20 <= i < 22) ==> e'[i] == e[i]
  }

  lemma WroteAll(d: Doc, buf: seq<Byte>, d': Doc)
    requires d.loc <= |d.content| && d' == Doc(Overlay(d.content, d.loc, buf), d.loc + |buf|)
    ensures Wrote(d, buf, true, |buf|, d')
  {
  }

  lemma SizeStored(e: seq<Byte>, n: nat)
    requires |e| == 32 && n < 0x1_0000_0000
    ensures FileSize(Set32(e, SIZE, n)) == n
    ensures StartCluster(Set32(e, SIZE, n)) == StartCluster(e)
    ensures forall i :: 0 <= i < 28 ==> Set32(e, SIZE, n)[i] == e[i]
  {
    Get32Set32(e, SIZE, n);
  }

  /** What a file of content c becomes when b is written at o. */
  function Overlay(c: seq<Byte>, o: nat, b: seq<Byte>): (r: seq<Byte>)
    requires o <= |c|
    ensures |r| == if |c| < o + |b| then o + |b| else |c|
  {
    c[..o] + b + if o + |b| <= |c| then c[o + |b|..] else []
  }

  /** A file as its user sees it. */
  datatype Doc = Doc(content: seq<Byte>, loc: nat)

  /** What a write of buf, complete or cut off after `done` bytes, makes of a file: all of
      buf is spliced in at the position and the position moves behind it, or a prefix is,
      as far as it lies inside the file, and the position stays. */
  ghost predicate Wrote(d: Doc, buf: seq<Byte>, ok: bool, done: nat, d': Doc) {
    && d.loc <= |d.content| && done <= |buf|
    && if ok then done == |buf| && d' == Doc(Overlay(d.content, d.loc, buf), d.loc + |buf|)
       else done < |buf| && |d.content| <= d.loc + done
            && d' == Doc(Overlay(d.content, d.loc, buf[..done])[..|d.content|], d.loc)
  }

  /** The bytes behind a position. */
  function Behind(loc: nat, size: nat): (n: nat)
    ensures loc + n == if loc < size then size else loc
  {
    if loc < size then size - loc else 0
  }

  /** How much of a read of `count` bytes lies before the end of the file: all of it, or
      what there is up to the end. */
  function Readable(size: nat, loc: nat, count: nat): (n: nat)
    requires loc <= size
    ensures n <= count && loc + n <= size && (n == count || loc + n == size)
  {
    if loc + count > size then size - loc else count
  }

  /** The first cc bytes of a buffer were copied from d, from position `at` on. */
  ghost predicate Copied(buf: seq<Byte>, was: seq<Byte>, d: seq<Byte>, at: nat, cc: nat) {
    && cc <= |buf| == |was| && at + cc <= |d|
    && buf[..cc] == d[at..at + cc] && buf[cc..] == was[cc..]
  }

  lemma CopiedMore(buf: seq<Byte>, before: seq<Byte>, was: seq<Byte>, d: seq<Byte>, at: nat, cc: nat, n: nat)
    requires Copied(before, was, d, at, cc) && cc + n <= |buf| == |before| && at + cc + n <= |d|
    requires buf[..cc + n] == before[..cc] + d[at + cc..at + cc + n] && buf[cc + n..] == before[cc + n..]
    ensures Copied(buf, was, d, at, cc + n)
  {
    assert d[at..at + cc] + d[at + cc..at + cc + n] == d[at..at + cc + n];
    assert before[cc + n..] == before[cc..][n..];
    assert was[cc + n..] == was[cc..][n..];
  }

  lemma CopiedContent(buf: seq<Byte>, was: seq<Byte>, d: seq<Byte>, size: nat, at: nat, n: nat)
    requires Copied(buf, was, d, at, n) && at + n <= size <= |d|
    ensures n <= |buf| == |was|
    ensures buf[..n] == d[..size][at..at + n] && buf[n..] == was[n..]
  {
  }

  lemma WrittenCut(d0: seq<Byte>, d: seq<Byte>, o: nat, b: seq<Byte>, n: nat)
    requires Written(d0, d, o, b) && o <= n <= |d0|
    ensures var m := if n < o + |b| then o + |b| else n; d[..m] == Overlay(d0[..n], o, b)
  {
    SpliceCut(d0 + Zeros(|d| - |d0|), o, b, n);
  }

  /** A write cut off after w leaves a file of n bytes with the part of w that is inside. */
  lemma WrittenInside(d0: seq<Byte>, d: seq<Byte>, o: nat, w: seq<Byte>, n: nat)
    requires Written(d0, d, o, w) && o <= n <= |d0|
    ensures d[..n] == Overlay(d0[..n], o, w)[..n]
  {
    WrittenCut(d0, d, o, w, n);
    var m := if n < o + |w| then o + |w| else n;
    assert d[..n] == d[..m][..n];
  }

  /** The clusters of a chain hold the same bytes on both disks. */
  ghost predicate BlocksKept(lay: Layout, b: seq<Byte>, b': seq<Byte>, ch: seq<nat>) {
    |b'| == |b| && forall c :: c in ch ==> ClusterKept(lay, b, b', c)
  }

  ghost predicate ClusterKept(lay: Layout, b: seq<Byte>, b': seq<Byte>, c: nat) {
    forall x: nat :: x < |b| && x < |b'| && InCluster(lay, c, x) ==> b'[x] == b[x]
  }

  lemma OldChainInRange(lay: Layout, fat: seq<nat>, start: nat, ch: seq<nat>)
    requires IsFileChain(fat, start, ch)
    ensures forall c :: c in ch ==> 2 <= c < |fat|
  {
    forall i | 0 <= i < |ch| ensures 2 <= ch[i] < |fat| { assert LinkOk(fat, ch, i); }
  }

  /** A cache whose blocks all belong to a chain shows the same of that chain as long
      as the chain's blocks on the disk stay the same. */
  lemma ChainIntact(lay: Layout, b: seq<Byte>, b': seq<Byte>, slots: seq<Slot>, ch: seq<nat>)
    requires lay.WellFormed() && Coherent(lay.DataGeometry(), b, slots) && BlocksKept(lay, b, b', ch)
    requires CachedIn(lay, slots, ch) && forall c :: c in ch ==> 2 <= c < lay.Entries()
    requires HoldsClusters(lay, Image(lay.DataGeometry(), b, slots), ch)
    ensures Coherent(lay.DataGeometry(), b', slots)
    ensures HoldsClusters(lay, Image(lay.DataGeometry(), b', slots), ch)
    ensures Stored(lay, Image(lay.DataGeometry(), b', slots), ch) == Stored(lay, Image(lay.DataGeometry(), b, slots), ch)
  {
    var g := lay.DataGeometry();
    forall c | c in ch
      ensures IsTag(g, lay.Tag(c)) && Block(b', lay.Tag(c), g.unit) == Block(b, lay.Tag(c), g.unit)
    {
      lay.TagIsSector(c);
      assert ClusterKept(lay, b, b', c);
      forall x: nat | 512 * lay.Tag(c) <= x < 512 * (lay.Tag(c) + g.unit) ensures b'[x] == b[x] {
        assert InCluster(lay, c, x);
      }
    }
    CachedBlocksKept(g, b, b', slots);
    StoredFrame(lay, Image(g, b, slots), Image(g, b', slots), ch);
  }

  /** Bytes of other files' clusters are not among those a file may change. */
  lemma OthersKept(lay: Layout, b: seq<Byte>, b': seq<Byte>, ch: seq<nat>, other: seq<nat>)
    requires lay.WellFormed() && OnlyOwnChanged(lay, b, b', ch) && Apart(other, ch)
    requires forall c :: c in other ==> 2 <= c < lay.Entries()
    ensures BlocksKept(lay, b, b', other)
  {
    forall c | c in other ensures ClusterKept(lay, b, b', c) {
      forall x: nat | x < |b| && InCluster(lay, c, x) ensures b'[x] == b[x] {
        forall d: nat | d in ch && d >= 2 ensures !InCluster(lay, d, x) { lay.ClustersApart(c, d); }
      }
    }
  }

  /** Another file's chain is still one after growth, complete or failed, if it does not
      own the allocator's first choice. */
  lemma OtherChainKept(fat: seq<nat>, ch: seq<nat>, fat': seq<nat>, ch': seq<nat>, leak: nat, start: nat, other: seq<nat>, x: nat)
    requires GrownBut(fat, ch, fat', ch', leak, x) && IsFileChain(fat, start, other) && Apart(other, ch) && x !in other
    ensures IsFileChain(fat', start, other) && Apart(other, ch')
  {
    if other != [] { FailureSparesOthers(fat, ch, fat', ch', leak, other, x); }
  }

  /** A write to a file, complete or failed, leaves another file's chain and blocks alone. */
  lemma BesideWrite(lay: Layout, fat: seq<nat>, ch: seq<nat>, fat': seq<nat>, ch': seq<nat>, leak: nat, x: nat,
                    b: seq<Byte>, b': seq<Byte>, start: nat, other: seq<nat>)
    requires lay.WellFormed() && |fat| == lay.Entries()
    requires GrownBut(fat, ch, fat', ch', leak, x) && OnlyOwnChanged(lay, b, b', ch')
    requires IsFileChain(fat, start, other) && Apart(other, ch) && x !in other
    ensures IsFileChain(fat', start, other) && Apart(other, ch') && BlocksKept(lay, b, b', other)
  {
    OtherChainKept(fat, ch, fat', ch', leak, start, other, x);
    OldChainInRange(lay, fat, start, other);
    OthersKept(lay, b, b', ch', other);
  }

  /** The state of an open file at some moment, and how far a write is to go. */
  datatype Moment = Moment(fat: seq<nat>, chain: seq<nat>, stored: seq<Byte>, bytes: seq<Byte>,
                           loc: nat, entry: seq<Byte>, info: seq<Byte>, need: nat)

  class FatFile {
    const vol: Volume
    const data: ClockCache
    var loc: nat
    var entry: seq<Byte>
    const dirEntryPos: nat
    const dirEntrySector: nat
    ghost var chain: seq<nat>

    /** fs_open, given the directory entry that fs_find found. */
    constructor (vol: Volume, entry: seq<Byte>, dirEntryPos: nat, dirEntrySector: nat, ghost chain: seq<nat>)
      requires vol.Valid() && |entry| == 32
      requires IsFileChain(vol.Fat(), StartCluster(entry), chain)
      requires FileSize(entry) <= vol.lay.Bytes(|chain|)
      ensures Valid() && this.vol == vol && this.entry == entry && this.chain == chain && loc == 0
      ensures this.dirEntryPos == dirEntryPos && this.dirEntrySector == dirEntrySector
      ensures fresh(data) && fresh(data.slots) && data.IsEmpty()
    {
      data := new ClockCache(vol.disk, vol.lay.DataGeometry(), LOCAL_DATA_BUF_NUM);
      this.vol, this.entry, this.chain := vol, entry, chain;
      this.dirEntryPos, this.dirEntrySector := dirEntryPos, dirEntrySector;
      loc := 0;
      new;
      hide Volume.Valid;
      data.ViewSizes();
      assert data.Valid();
      hide ClockCache.Valid;
      ChainHeld(vol.lay, data.View(), vol.Fat(), chain);
    }

    ghost predicate Wired() {
      && data.disk == vol.disk && data.geo == vol.lay.DataGeometry()
      && data != vol.fat && data != vol.dir
      && data.slots != vol.fat.slots && data.slots != vol.dir.slots
    }

    /** The chain starts in the directory entry, covers the size, and owns every
        block in the data cache. */
    ghost predicate Valid()
      reads this, vol`fsInfo, vol`table, vol.disk, vol.fat, vol.fat.slots, data, data.slots
      ensures Valid() ==> vol.lay.WellFormed()
    {
      && Wired() && vol.Valid() && data.Valid()
      && |entry| == 32
      && IsFileChain(vol.Fat(), StartCluster(entry), chain)
      && CachedIn(vol.lay, data.slots[..], chain)
      && HoldsClusters(vol.lay, data.View(), chain)
      && loc <= FileSize(entry) <= vol.lay.Bytes(|chain|)
    }

    /** The bytes of all the file's clusters. */
    ghost function Bytes(): (d: seq<Byte>)
      requires Valid()
      reads this, vol`fsInfo, vol`table, vol.disk, vol.fat, vol.fat.slots, data, data.slots
      ensures |d| == vol.lay.Bytes(|chain|)
    {
      Stored(vol.lay, data.View(), chain)
    }

    /** The abstract file. */
    ghost function Content(): seq<Byte>
      requires Valid()
      reads this, vol`fsInfo, vol`table, vol.disk, vol.fat, vol.fat.slots, data, data.slots
    {
      Bytes()[..FileSize(entry)]
    }

    ghost function Shown(): Doc
      requires Valid()
      reads this, vol`fsInfo, vol`table, vol.disk, vol.fat, vol.fat.slots, data, data.slots
    {
      Doc(Content(), loc)
    }

    lemma InRange(k: nat)
      requires Valid() && k < |chain|
      ensures Distinct(chain) && vol.lay.Tag(chain[k]) != NO_BLOCK
      ensures 2 <= chain[k] < vol.lay.Entries()
      ensures if k + 1 < |chain| then vol.Fat()[chain[k]] == chain[k + 1] else vol.Fat()[chain[k]] > vol.lay.clusters + 1
    {
      hide Volume.Valid;
      hide ClockCache.Valid;
      assert LinkOk(vol.Fat(), chain, k);
      vol.lay.TagIsSector(chain[k]);
    }

    /** get_fat_entry_value for one of the file's clusters. */
    method NextCluster(clus: nat) returns (v: nat)
      requires Valid() && clus < vol.lay.Entries()
      modifies vol.disk, vol.fat.slots, vol.fat`clockHead
      ensures Valid() && v == vol.Fat()[clus] && data.View() == old(data.View())
      ensures OnlyOwnChanged(vol.lay, old(vol.disk.bytes), vol.disk.bytes, chain)
    {
      hide Volume.Valid;
      hide ClockCache.Valid;
      v := vol.GetFatEntryValue(clus);
      OwnOfFat(vol.lay, old(vol.disk.bytes), vol.disk.bytes, chain);
      data.Framed();
    }

    /** fs_read_4k for cluster k of the file. */
    method FetchCluster(clus: nat, ghost k: nat) returns (index: nat)
      requires Valid() && k < |chain| && chain[k] == clus
      modifies vol.disk, data.slots, data`clockHead
      ensures Valid() && data.View() == old(data.View())
      ensures index < data.slots.Length && data.slots[index].cur == vol.lay.Tag(clus)
      ensures OnlyOwnChanged(vol.lay, old(vol.disk.bytes), vol.disk.bytes, chain)
    {
      hide Volume.Valid;
      hide ClockCache.Valid;
      hide ClockCache.View;
      hide IsFileChain;
      hide Layout.DataClusterToSector;
      hide Layout.Tag;
      hide Layout.Bytes;
      hide Coherent;
      hide HoldsClusters;
      InRange(k);
      vol.lay.TagIsSector(clus);
      var sec := vol.lay.DataClusterToSector(clus) + vol.lay.base;
      assert sec == vol.lay.Tag(clus);
      data.IsCoherent();
      index := data.Fetch(sec);
      DataSparesFat(vol.lay, old(vol.disk.bytes), vol.disk.bytes, old(data.slots[..]));
      CachedWritesOwn(vol.lay, old(vol.disk.bytes), vol.disk.bytes, old(data.slots[..]), chain);
      CachedGrow(vol.lay, old(data.slots[..]), data.slots[..], chain, chain, clus);
      vol.Framed();
    }

    /** Slot `index`, which was s, has taken the first i bytes of a copy. */
    ghost predicate Filled(all: seq<Slot>, v: map<nat, seq<Byte>>, index: nat, startByte: nat, src: seq<Byte>, cc: nat, i: nat)
      requires index < |all| && startByte + i <= |all[index].buf| && cc + i <= |src|
      requires data.Valid()
      reads data, data.disk, data.slots
    {
      var b := Splice(all[index].buf, startByte, src[cc..cc + i]);
      && data.slots[..] == all[index := all[index].(buf := b)]
      && data.View() == v[all[index].cur := b]
    }

    method FillOne(ghost all: seq<Slot>, ghost v: map<nat, seq<Byte>>, index: nat, startByte: nat, src: seq<Byte>, cc: nat, i: nat)
      requires data.Valid() && index < data.slots.Length == |all|
      requires all[index].cur != NO_BLOCK && all[index].dirty && all[index].referenced
      requires startByte + i < |all[index].buf| && cc + i < |src|
      requires Filled(all, v, index, startByte, src, cc, i)
      modifies data.slots
      ensures data.Valid() && Filled(all, v, index, startByte, src, cc, i + 1)
    {
      hide ClockCache.Valid;
      ghost var s := all[index];
      SpliceOne(s.buf, startByte, src, cc, i);
      UpdateTwice(v, s.cur, Splice(s.buf, startByte, src[cc..cc + i]), Splice(s.buf, startByte, src[cc..cc + i + 1]));
      data.Poke(index, startByte + i, src[cc + i]);
    }

    /** The copy loops of fs_write: n bytes of src into a slot marked dirty. */
    method FillSlot(index: nat, startByte: nat, n: nat, src: seq<Byte>, cc: nat)
      requires data.Valid() && index < data.slots.Length && data.slots[index].cur != NO_BLOCK
      requires data.slots[index].dirty && data.slots[index].referenced
      requires startByte + n <= |data.slots[index].buf| && cc + n <= |src|
      modifies data.slots
      ensures data.Valid() && SameTags(old(data.slots[..]), data.slots[..])
      ensures var s := old(data.slots[index]);
        data.View() == old(data.View())[s.cur := Splice(s.buf, startByte, src[cc..cc + n])]
    {
      hide ClockCache.Valid;
      hide ClockCache.View;
      hide Splice;
      ghost var all, s, v := data.slots[..], data.slots[index], data.View();
      data.SlotIsView(index);
      SpliceNothing(s.buf, startByte);
      assert src[cc..cc] == [];
      assert all[index := s] == all && v[s.cur := s.buf] == v;
      var i := 0;
      while i < n
        invariant i <= n && data.Valid() && Filled(all, v, index, startByte, src, cc, i)
      {
        FillOne(all, v, index, startByte, src, cc, i);
        i := i + 1;
      }
    }

    /** state = 3 and the copy into a fetched cluster. */
    method Overwrite(index: nat, clus: nat, startByte: nat, n: nat, src: seq<Byte>, cc: nat)
      requires data.Valid() && index < data.slots.Length && clus >= 2
      requires data.slots[index].cur == vol.lay.Tag(clus) != NO_BLOCK
      requires startByte + n <= |data.slots[index].buf| && cc + n <= |src|
      modifies data.slots
      ensures data.Valid() && SameTags(old(data.slots[..]), data.slots[..])
      ensures var t := vol.lay.Tag(clus);
        && t in old(data.View()) && startByte + n <= |old(data.View())[t]|
        && data.View() == old(data.View())[t := Splice(old(data.View())[t], startByte, src[cc..cc + n])]
    {
      hide ClockCache.Valid;
      data.SlotIsView(index);
      data.MarkDirty(index);
      FillSlot(index, startByte, n, src, cc);
    }

    method PutBytes(index: nat, clus: nat, ghost k: nat, startByte: nat, n: nat, src: seq<Byte>, cc: nat)
      requires Valid() && k < |chain| && chain[k] == clus >= 2
      requires index < data.slots.Length && data.slots[index].cur == vol.lay.Tag(clus) != NO_BLOCK
      requires startByte + n <= vol.lay.ClusterBytes() && cc + n <= |src|
      modifies data.slots
      ensures Valid()
      ensures vol.lay.Bytes(k) + startByte + n <= |old(Bytes())|
      ensures Bytes() == Splice(old(Bytes()), vol.lay.Bytes(k) + startByte, src[cc..cc + n])
    {
      hide Volume.Valid;
      hide ClockCache.Valid;
      hide ClockCache.View;
      hide IsFileChain;
      hide Splice;
      InRange(k);
      ghost var v, s := data.View(), data.slots[..];
      assert HoldsCluster(vol.lay, v, chain[k]);
      StoreSplice(vol.lay, v, chain, k, startByte, src[cc..cc + n]);
      data.SlotIsView(index);
      Overwrite(index, clus, startByte, n, src, cc);
      CachedSame(vol.lay, s, data.slots[..], chain);
    }

    /** One cluster's share of a write. */
    method StoreBytes(clus: nat, ghost k: nat, startByte: nat, n: nat, src: seq<Byte>, cc: nat)
      requires Valid() && k < |chain| && chain[k] == clus
      requires startByte + n <= vol.lay.ClusterBytes() && cc + n <= |src|
      modifies vol.disk, data.slots, data`clockHead
      ensures Valid()
      ensures vol.lay.Bytes(k) + startByte + n <= |old(Bytes())|
      ensures Bytes() == Splice(old(Bytes()), vol.lay.Bytes(k) + startByte, src[cc..cc + n])
      ensures OnlyOwnChanged(vol.lay, old(vol.disk.bytes), vol.disk.bytes, chain)
    {
      hide Volume.Valid;
      hide ClockCache.Valid;
      hide ClockCache.View;
      hide IsFileChain;
      hide Splice;
      InRange(k);
      var index := FetchCluster(clus, k);
      PutBytes(index, clus, k, startByte, n, src, cc);
    }

    // ------------------------------------------------------------------ growth

    /** fs_alloc, as the file sees it: its own clusters are not touched. */
    method Grab() returns (r: Result<nat>, ghost c: nat)
      requires Valid() && vol.lay.base == 0 && Usable(vol.Fat(), vol.fsInfo, chain)
      modifies vol.disk, vol.fat.slots, vol.fat`clockHead, vol`table, vol`fsInfo
      ensures Valid() && c == AllocChoice(old(vol.Fat()), old(vol.fsInfo))
      ensures 2 <= c < |old(vol.Fat())| && c !in chain
      ensures vol.Fat() == old(vol.Fat())[c := END_OF_CHAIN]
      ensures r.Ok? ==> r.value == c && CanAlloc(vol.Fat(), vol.fsInfo)
      ensures r.Ok? ==> vol.fsInfo == WithHint(old(vol.fsInfo), FirstFree(vol.Fat(), c))
      ensures r.Ok? ==> vol.Erased(vol.disk.bytes, c) && OnlyOwnChanged(vol.lay, old(vol.disk.bytes), vol.disk.bytes, [c])
      ensures r.Ok? ==> data.View() == old(data.View())[vol.lay.Tag(c) := Zeros(vol.lay.ClusterBytes())]
      ensures r.Err? ==> vol.fsInfo == old(vol.fsInfo) && HintSpent(vol.fsInfo, c) && data.View() == old(data.View())
      ensures r.Ok? <==> FirstFree(vol.Fat(), c) != NO_CLUSTER
      ensures r.Err? ==> OnlyOwnChanged(vol.lay, old(vol.disk.bytes), vol.disk.bytes, chain)
    {
      hide Volume.Valid;
      c := AllocChoice(vol.Fat(), vol.fsInfo);
      ghost var fat0 := vol.Fat();
      r := vol.Alloc();
      ChainSurvives(fat0, vol.Fat(), StartCluster(entry), chain, c);
      if r.Ok? {
        OwnOfAlloc(vol, old(vol.disk.bytes), vol.disk.bytes, c);
        ErasureSeen(vol.lay, old(vol.disk.bytes), vol.disk.bytes, data.slots[..], chain, c);
        HoldsMore(vol.lay, old(data.View()), data.View(), chain);
      } else {
        OwnOfFat(vol.lay, old(vol.disk.bytes), vol.disk.bytes, chain);
        data.Framed();
      }
    }

    /** The new cluster becomes the start of an empty file. */
    method LinkFirst(c: nat, ghost fat0: seq<nat>)
      requires Valid() && 2 <= c < |fat0| && c !in chain && vol.Fat() == fat0[c := END_OF_CHAIN]
      requires IsFileChain(fat0, StartCluster(entry), chain) && chain == []
      requires Zeroed(vol.lay, data.View(), c)
      modifies `entry, `chain
      ensures Valid() && chain == old(chain) + [c] && SameButStart(old(entry), entry)
      ensures Linkable(fat0, old(chain)) && vol.Fat() == Appended(fat0, old(chain), c)
      ensures Grown(fat0, old(chain), vol.Fat(), chain, c)
      ensures CanAlloc(old(vol.Fat()), vol.fsInfo) ==> CanAlloc(vol.Fat(), vol.fsInfo)
      ensures Bytes() == old(Bytes()) + Zeros(vol.lay.ClusterBytes())
    {
      hide Volume.Valid;
      hide ClockCache.Valid;
      hide ClockCache.View;
      StartStored(entry, c);
      SameSize(entry, WithStart(entry, c));
      ChainStarts(fat0, chain, c);
      assert IsFileChain(vol.Fat(), c, chain + [c]) && Grown(fat0, chain, vol.Fat(), chain + [c], c);
      hide Grown;
      hide IsFileChain;
      ZeroAppend(vol.lay, data.View(), chain, c);
      hide Stored;
      CachedUpTo(vol.lay, data.slots[..], chain, chain + [c]);
      entry := WithStart(entry, c);
      chain := chain + [c];
    }

    /** The new cluster is linked behind the last one. */
    method LinkLast(clus: nat, c: nat, ghost fat0: seq<nat>)
      requires Valid() && 2 <= c < |fat0| && c !in chain && vol.Fat() == fat0[c := END_OF_CHAIN]
      requires IsFileChain(fat0, StartCluster(entry), chain)
      requires chain != [] && clus == chain[|chain| - 1]
      requires Zeroed(vol.lay, data.View(), c)
      modifies `chain, vol.disk, vol.fat.slots, vol.fat`clockHead, vol`table
      ensures Valid() && chain == old(chain) + [c]
      ensures Linkable(fat0, old(chain)) && vol.Fat() == Appended(fat0, old(chain), c)
      ensures Grown(fat0, old(chain), vol.Fat(), chain, c)
      ensures CanAlloc(old(vol.Fat()), vol.fsInfo) ==> CanAlloc(vol.Fat(), vol.fsInfo)
      ensures data.View() == old(data.View()) && Bytes() == old(Bytes()) + Zeros(vol.lay.ClusterBytes())
      ensures SameSectors(old(vol.disk.bytes), vol.disk.bytes, vol.lay.DataGeometry().lo, vol.lay.DataGeometry().hi)
      ensures OnlyOwnChanged(vol.lay, old(vol.disk.bytes), vol.disk.bytes, old(chain))
    {
      hide Volume.Valid;
      hide ClockCache.Valid;
      hide ClockCache.View;
      hide Grown;
      hide IsFileChain;
      hide CanAlloc;
      hide Usable;
      hide AllocChoice;
      hide Stored;
      hide HoldsClusters;
      InRange(|chain| - 1);
      ChainExtends(fat0, StartCluster(entry), chain, c, vol.fsInfo);
      ZeroAppend(vol.lay, data.View(), chain, c);
      vol.ModifyFat(clus, c);
      OwnOfFat(vol.lay, old(vol.disk.bytes), vol.disk.bytes, old(chain));
      data.Framed();
      CachedUpTo(vol.lay, data.slots[..], chain, chain + [c]);
      chain := chain + [c];
    }

    /** fs_clr_4k for cluster k, erased and not yet cached. */
    method ClearCluster(clus: nat, ghost k: nat)
      requires Valid() && k < |chain| && chain[k] == clus >= 2
      requires Find(data.slots[..], vol.lay.Tag(clus)) == data.slots.Length
      requires vol.Erased(vol.disk.bytes, clus) && vol.lay.base == 0
      modifies vol.disk, data.slots, data`clockHead
      ensures Valid() && data.View() == old(data.View())
      ensures OnlyOwnChanged(vol.lay, old(vol.disk.bytes), vol.disk.bytes, chain)
    {
      hide Volume.Valid;
      hide ClockCache.Valid;
      hide ClockCache.View;
      hide IsFileChain;
      hide Layout.DataClusterToSector;
      InRange(k);
      vol.lay.TagIsSector(clus);
      var sec := vol.lay.DataClusterToSector(clus);
      assert sec == vol.lay.Tag(clus);
      data.IsCoherent();
      data.UncachedView(sec);
      data.Clear(sec);
      DataSparesFat(vol.lay, old(vol.disk.bytes), vol.disk.bytes, old(data.slots[..]));
      CachedWritesOwn(vol.lay, old(vol.disk.bytes), vol.disk.bytes, old(data.slots[..]), chain);
      CachedGrow(vol.lay, old(data.slots[..]), data.slots[..], chain, chain, clus);
      vol.Framed();
    }

    /** Link behind `clus`, or start the file when clus is 0. */
    method Link(clus: nat, c: nat, ghost fat0: seq<nat>)
      requires Valid() && 2 <= c < |fat0| && c !in chain && vol.Fat() == fat0[c := END_OF_CHAIN]
      requires IsFileChain(fat0, StartCluster(entry), chain)
      requires if clus == 0 then chain == [] else chain != [] && clus == chain[|chain| - 1]
      requires Zeroed(vol.lay, data.View(), c) && vol.Erased(vol.disk.bytes, c)
      requires CanAlloc(vol.Fat(), vol.fsInfo)
      modifies `entry, `chain, vol.disk, vol.fat.slots, vol.fat`clockHead, vol`table
      ensures Valid() && chain == old(chain) + [c] && SameButStart(old(entry), entry)
      ensures Linkable(fat0, old(chain)) && vol.Fat() == Appended(fat0, old(chain), c)
      ensures Grown(fat0, old(chain), vol.Fat(), chain, c) && CanAlloc(vol.Fat(), vol.fsInfo)
      ensures Bytes() == old(Bytes()) + Zeros(vol.lay.ClusterBytes())
      ensures vol.Erased(vol.disk.bytes, c) && Find(data.slots[..], vol.lay.Tag(c)) == data.slots.Length
      ensures OnlyOwnChanged(vol.lay, old(vol.disk.bytes), vol.disk.bytes, old(chain))
    {
      hide Volume.Valid;
      hide ClockCache.Valid;
      hide ClockCache.View;
      hide IsFileChain;
      hide Grown;
      hide CanAlloc;
      hide Usable;
      hide AllocChoice;
      hide HoldsClusters;
      NotCached(vol.lay, data.slots[..], chain, c);
      vol.lay.TagIsSector(c);
      if clus == 0 {
        LinkFirst(c, fat0);
        OwnOfFat(vol.lay, old(vol.disk.bytes), vol.disk.bytes, old(chain));
      } else {
        LinkLast(clus, c, fat0);
        SameBlock(old(vol.disk.bytes), vol.disk.bytes, vol.lay.DataGeometry().lo, vol.lay.DataGeometry().hi,
                  vol.lay.Tag(c), vol.lay.sectorsPerCluster);
        assert SameButStart(entry, entry);
      }
    }

    /** fs_alloc, the link and fs_clr_4k: the file gets one more cluster of zeros, or
        one cluster is marked and lost. */
    method Extend(clus: nat) returns (r: Result<nat>, ghost leak: nat)
      requires Valid() && vol.lay.base == 0 && Usable(vol.Fat(), vol.fsInfo, chain)
      requires if clus == 0 then chain == [] else chain != [] && clus == chain[|chain| - 1]
      modifies `entry, `chain, vol.disk, vol.fat.slots, vol.fat`clockHead, vol`table, vol`fsInfo, data.slots, data`clockHead
      ensures Valid() && SameButStart(old(entry), entry)
      ensures r.Ok? <==> leak == 0
      ensures r.Ok? ==> chain == old(chain) + [r.value] && CanAlloc(vol.Fat(), vol.fsInfo)
      ensures r.Ok? ==> Bytes() == old(Bytes()) + Zeros(vol.lay.ClusterBytes())
      ensures r.Err? ==> chain == old(chain) && Bytes() == old(Bytes()) && HintSpent(vol.fsInfo, leak)
      ensures Linkable(old(vol.Fat()), old(chain)) && |old(vol.fsInfo)| == 512
      ensures Growth(vol.Fat(), chain, vol.fsInfo, leak) == GrowOne(old(vol.Fat()), old(chain), old(vol.fsInfo))
      ensures r.Err? ==> leak == AllocChoice(old(vol.Fat()), old(vol.fsInfo)) && FirstFree(vol.Fat(), leak) == NO_CLUSTER
      ensures GrownBut(old(vol.Fat()), old(chain), vol.Fat(), chain, leak, AllocChoice(old(vol.Fat()), old(vol.fsInfo)))
      ensures OnlyOwnChanged(vol.lay, old(vol.disk.bytes), vol.disk.bytes, chain)
    {
      hide Volume.Valid;
      hide ClockCache.Valid;
      hide ClockCache.View;
      hide IsFileChain;
      hide CanAlloc;
      hide Usable;
      hide AllocChoice;
      hide OnlyOwnChanged;
      hide HoldsClusters;
      hide Volume.Erased;
      assert SameButStart(entry, entry);
      ghost var fat0, c, b0, ch0 := vol.Fat(), 0, vol.disk.bytes, chain;
      ghost var v0 := data.View();
      UsableInRange(fat0, vol.fsInfo, StartCluster(entry), chain);
      StepIs(fat0, chain, vol.fsInfo);
      hide GrowOne;
      r, c := Grab();
      if r.Err? {
        leak := c;
        LeakGrows(fat0, vol.Fat(), StartCluster(entry), chain, c);
        return r, leak;
      }
      leak := 0;
      ErasedApart(vol.lay, v0, chain, c);
      ghost var b1 := vol.disk.bytes;
      Link(clus, r.value, fat0);
      ghost var b2 := vol.disk.bytes;
      ClearCluster(r.value, |chain| - 1);
      OwnSteps(vol.lay, b0, b1, b2, vol.disk.bytes, ch0, c);
    }

    // ----------------------------------------------------------------- writing

    ghost function Now(need: nat): Moment
      requires Valid()
      reads this, vol`fsInfo, vol`table, vol.disk, vol.fat, vol.fat.slots, data, data.slots
    {
      Moment(vol.Fat(), chain, Bytes(), vol.disk.bytes, loc, entry, vol.fsInfo, need)
    }

    /** Since moment m the bytes w were written at the position of m, into a file
        that may have grown by clusters of zeros; nothing else happened. */
    ghost predicate Since(m: Moment, w: seq<Byte>, leak: nat)
      reads this, vol`fsInfo, vol`table, vol.disk, vol.fat, vol.fat.slots, data, data.slots
      ensures Since(m, w, leak) ==> Valid() && SameButStart(m.entry, entry) && loc == m.loc
      ensures Since(m, w, leak) ==> GrownSince(m, leak)
      ensures Since(m, w, leak) ==> OnlyOwnChanged(vol.lay, m.bytes, vol.disk.bytes, chain)
    {
      && Valid() && loc == m.loc && SameButStart(m.entry, entry)
      && GrownSince(m, leak)
      && OnlyOwnChanged(vol.lay, m.bytes, vol.disk.bytes, chain)
      && Written(m.stored, Bytes(), m.loc, w)
    }

    /** The growth still to come completes the growth that m needed; after a failure
        this is all of it. */
    ghost predicate GrownSince(m: Moment, leak: nat)
      requires vol.lay.WellFormed()
      reads `chain, vol`table, vol`fsInfo
    {
      && |m.info| == |vol.fsInfo| == 512 && Linkable(m.fat, m.chain) && Linkable(vol.Fat(), chain)
      && Grow(m.fat, m.chain, m.info, vol.lay.Lacking(|m.chain|, m.need)) ==
           if leak == 0 then Grow(vol.Fat(), chain, vol.fsInfo, vol.lay.Lacking(|chain|, m.need))
           else Growth(vol.Fat(), chain, vol.fsInfo, leak)
    }

    /** There is room for `need` bytes, or the volume can grow the file (g). */
    ghost predicate Growable(g: bool, need: nat)
      reads `chain, vol`table, vol`fsInfo
    {
      if g then vol.lay.base == 0 && Usable(vol.Fat(), vol.fsInfo, chain) else need <= vol.lay.Bytes(|chain|)
    }

    /** fs_alloc and the link, as one step of the growth that m needed. */
    method ExtendSince(ghost m: Moment, ghost w: seq<Byte>, clus: nat) returns (r: Result<nat>, ghost leak: nat)
      requires Since(m, w, 0) && vol.lay.base == 0 && Usable(vol.Fat(), vol.fsInfo, chain)
      requires vol.lay.Bytes(|chain|) < m.need
      requires if clus == 0 then chain == [] else chain != [] && clus == chain[|chain| - 1]
      modifies `entry, `chain, vol.disk, vol.fat.slots, vol.fat`clockHead, vol`table, vol`fsInfo, data.slots, data`clockHead
      ensures Since(m, w, leak) && (r.Ok? <==> leak == 0)
      ensures r.Ok? ==> chain == old(chain) + [r.value] && Usable(vol.Fat(), vol.fsInfo, chain)
      ensures r.Err? ==> chain == old(chain)
    {
      hide FatFile.Valid;
      hide Layout.Bytes;
      hide FatFile.Bytes;
      hide FirstFree;
      hide IsFileChain;
      hide SameButStart;
      hide CanAlloc;
      hide Usable;
      hide AllocChoice;
      hide GrowOne;
      hide Grow;
      hide GrownBut;
      hide OnlyOwnChanged;
      hide Written;
      ghost var fat1, ch1, info1, d, b1 := vol.Fat(), chain, vol.fsInfo, Bytes(), vol.disk.bytes;
      r, leak := Extend(clus);
      StartTrans(m.entry, old(entry), entry);
      vol.lay.LackingStep(|ch1|, m.need);
      GrowUnfolds(fat1, ch1, info1, vol.lay.Lacking(|ch1|, m.need));
      assert GrownSince(m, leak);
      hide FatFile.GrownSince;
      assert forall c :: c in ch1 ==> c in chain;
      OwnTrans(vol.lay, m.bytes, b1, vol.disk.bytes, ch1, chain);
      assert OnlyOwnChanged(vol.lay, m.bytes, vol.disk.bytes, chain);
      if r.Ok? {
        WrittenMore(m.stored, d, m.loc, w, vol.lay.ClusterBytes());
        ChainFacts();
        StartsChain(vol.Fat(), StartCluster(entry), chain);
        FreeIsUsable(vol.Fat(), vol.fsInfo, chain);
      }
    }

    method StoreSince(ghost m: Moment, clus: nat, ghost k: nat, startByte: nat, n: nat, src: seq<Byte>, cc: nat)
      requires cc + n <= |src| && Since(m, src[..cc], 0) && k < |chain| && chain[k] == clus
      requires startByte + n <= vol.lay.ClusterBytes() && vol.lay.Bytes(k) + startByte == m.loc + cc
      modifies vol.disk, data.slots, data`clockHead
      ensures Since(m, src[..cc + n], 0)
    {
      hide FatFile.Valid;
      hide FatFile.GrownSince;
      hide Splice;
      hide Written;
      hide OnlyOwnChanged;
      ghost var d, b1 := Bytes(), vol.disk.bytes;
      StoreBytes(clus, k, startByte, n, src, cc);
      OwnTrans(vol.lay, m.bytes, b1, vol.disk.bytes, chain, chain);
      WrittenChunk(m.stored, d, m.loc, src, cc, n);
    }

    method NextSince(ghost m: Moment, ghost w: seq<Byte>, clus: nat) returns (v: nat)
      requires Since(m, w, 0) && clus < vol.lay.Entries()
      modifies vol.disk, vol.fat.slots, vol.fat`clockHead
      ensures Since(m, w, 0) && v == vol.Fat()[clus]
    {
      hide FatFile.Valid;
      hide FatFile.GrownSince;
      ghost var b1 := vol.disk.bytes;
      v := NextCluster(clus);
      OwnTrans(vol.lay, m.bytes, b1, vol.disk.bytes, chain, chain);
    }

    /** From cluster k to the next one, allocating it when k is the last. */
    method Advance(ghost m: Moment, ghost w: seq<Byte>, clus: nat, ghost k: nat, ghost g: bool)
      returns (r: Result<nat>, ghost leak: nat)
      requires Since(m, w, 0) && k < |chain| && chain[k] == clus && Growable(g, m.need)
      requires vol.lay.Bytes(k + 1) < m.need
      modifies `entry, `chain, vol.disk, vol.fat.slots, vol.fat`clockHead, vol`table, vol`fsInfo, data.slots, data`clockHead
      ensures Since(m, w, leak) && (r.Ok? <==> leak == 0)
      ensures r.Ok? ==> k + 1 < |chain| && chain[k + 1] == r.value && Growable(g, m.need)
      ensures r.Err? ==> |chain| == k + 1
    {
      hide FatFile.Valid;
      hide CanAlloc;
      hide Usable;
      hide AllocChoice;
      hide FatFile.GrownSince;
      hide Layout.Bytes;
      hide FatFile.Since;
      InRange(k);
      if k + 1 < |chain| { InRange(k + 1); }
      var v := NextSince(m, w, clus);
      if v > vol.lay.clusters + 1 {
        r, leak := ExtendSince(m, w, clus);
      } else {
        r, leak := Ok(v), 0;
      }
    }

    /** Set the size and the position after a complete write. */
    method Finish(ghost m: Moment, buf: seq<Byte>)
      requires Since(m, buf, 0) && loc + |buf| < 0x1_0000_0000
      requires |m.entry| == 32 && m.loc <= FileSize(m.entry) <= |m.stored|
      modifies `loc, `entry
      ensures Valid() && loc == m.loc + |buf| && Bytes() == old(Bytes())
      ensures FileSize(entry) == if FileSize(m.entry) < m.loc + |buf| then m.loc + |buf| else FileSize(m.entry)
      ensures Content() == Overlay(m.stored[..FileSize(m.entry)], m.loc, buf)
      ensures SameButStartAndSize(m.entry, entry)
    {
      hide Volume.Valid;
      hide ClockCache.Valid;
      hide ClockCache.View;
      hide FatFile.GrownSince;
      hide OnlyOwnChanged;
      SameSize(m.entry, entry);
      WrittenCut(m.stored, Bytes(), loc, buf, FileSize(entry));
      if loc + |buf| > FileSize(entry) {
        SizeStored(entry, loc + |buf|);
        entry := Set32(entry, SIZE, loc + |buf|);
      }
      loc := loc + |buf|;
    }

    /** The first half of fs_write: the start cluster, allocated if the file has none,
        and the walk to the cluster of the position. */
    method OpenCluster(ghost m: Moment, startClus: nat, ghost g: bool)
      returns (r: Result<nat>, ghost leak: nat)
      requires Since(m, [], 0) && Growable(g, m.need) && vol.lay.Bytes(startClus) < m.need
      modifies `entry, `chain, vol.disk, vol.fat.slots, vol.fat`clockHead, vol`table, vol`fsInfo, data.slots, data`clockHead
      ensures Since(m, [], leak) && (r.Ok? <==> leak == 0)
      ensures r.Ok? ==> startClus < |chain| && chain[startClus] == r.value && Growable(g, m.need)
      ensures r.Err? ==> |chain| <= startClus
    {
      hide FatFile.Valid;
      hide CanAlloc;
      hide Usable;
      hide AllocChoice;
      hide FatFile.GrownSince;
      hide FatFile.Since;
      StartOfChain();
      r, leak := Ok(StartCluster(entry)), 0;
      if r.value == 0 {
        vol.lay.BytesLeast(startClus, m.need);
        r, leak := ExtendSince(m, [], 0);
        if r.Err? {
          return r, leak;
        }
      }
      hide Layout.Bytes;
      var i := 0;
      while i < startClus
        invariant i <= startClus && Since(m, [], 0) && Growable(g, m.need) && leak == 0
        invariant r.Ok? && i < |chain| && chain[i] == r.value
      {
        vol.lay.BytesOrder(i + 1, startClus);
        r, leak := Advance(m, [], r.value, i, g);
        if r.Err? {
          return r, leak;
        }
        i := i + 1;
      }
    }

    /** The second half of fs_write: cluster after cluster. */
    method WriteClusters(ghost m: Moment, currCluster: nat, startClus0: nat, startByte0: nat, endClus: nat, endByte: nat,
                         buf: seq<Byte>, ghost g: bool)
      returns (r: Result<nat>, ghost done: nat, ghost leak: nat)
      requires Since(m, [], 0) && |buf| > 0 && m.need == m.loc + |buf| && Growable(g, m.need)
      requires startClus0 < |chain| && chain[startClus0] == currCluster
      requires m.loc == vol.lay.Bytes(startClus0) + startByte0 && startByte0 < vol.lay.ClusterBytes()
      requires m.loc + |buf| == vol.lay.Bytes(endClus) + endByte + 1 && endByte < vol.lay.ClusterBytes()
      modifies `entry, `chain, vol.disk, vol.fat.slots, vol.fat`clockHead, vol`table, vol`fsInfo, data.slots, data`clockHead
      ensures done <= |buf| && Since(m, buf[..done], leak) && (r.Ok? <==> leak == 0)
      ensures r.Ok? ==> r.value == done == |buf| && Growable(g, m.need)
      ensures r.Ok? ==> m.need <= vol.lay.Bytes(|chain|)
      ensures r.Err? ==> m.loc + done == vol.lay.Bytes(|chain|)
    {
      hide FatFile.Valid;
      hide CanAlloc;
      hide Usable;
      hide AllocChoice;
      hide FatFile.GrownSince;
      hide FatFile.Since;
      hide FatFile.Growable;
      hide Layout.Bytes;
      var startClus: nat, startByte: nat, cc: nat := startClus0, startByte0, 0;
      r, done, leak := Ok(currCluster), 0, 0;
      vol.lay.IndexOrder(startClus, startByte, endClus, endByte);
      assert buf[..0] == [];
      while startClus <= endClus
        invariant startClus <= endClus && leak == 0
        invariant cc == done <= |buf| && Since(m, buf[..cc], 0) && Growable(g, m.need)
        invariant r.Ok? && startClus < |chain| && chain[startClus] == r.value
        invariant m.loc + cc == vol.lay.Bytes(startClus) + startByte && startByte < vol.lay.ClusterBytes()
        invariant startClus == endClus ==> startByte <= endByte
        decreases endClus - startClus
      {
        if startClus == endClus {
          StoreSince(m, r.value, startClus, startByte, endByte + 1 - startByte, buf, cc);
          cc := cc + (endByte + 1 - startByte);
          done := cc;
          break;
        }
        vol.lay.BytesStep(startClus);
        vol.lay.BytesOrder(startClus + 1, endClus);
        StoreSince(m, r.value, startClus, startByte, vol.lay.ClusterBytes() - startByte, buf, cc);
        cc := cc + (vol.lay.ClusterBytes() - startByte);
        done := cc;
        startByte := 0;
        r, leak := Advance(m, buf[..cc], r.value, startClus, g);
        if r.Err? {
          return r, done, leak;
        }
        startClus := startClus + 1;
      }
      vol.lay.BytesStep(endClus);
      vol.lay.BytesOrder(endClus + 1, |chain|);
      r := Ok(cc);
    }

    /** What growing the file to `need` bytes would do, decided by the table, the chain
        and FSInfo as they are now. */
    ghost function GrowthTo(need: nat): (g: Growth)
      requires Valid()
      reads this, vol`fsInfo, vol`table, vol.disk, vol.fat, vol.fat.slots, data, data.slots
    {
      StartsChain(vol.Fat(), StartCluster(entry), chain);
      LastInTable(vol.Fat(), chain);
      Grow(vol.Fat(), chain, vol.fsInfo, vol.lay.Lacking(|chain|, need))
    }

    lemma GrowthFacts(need: nat)
      requires Valid()
      requires Usable(vol.Fat(), vol.fsInfo, chain) || need <= vol.lay.Bytes(|chain|)
      ensures |vol.fsInfo| == 512 && vol.lay.WellFormed() && Linkable(vol.Fat(), chain)
      ensures GrowthTo(need) == Grow(vol.Fat(), chain, vol.fsInfo, vol.lay.Lacking(|chain|, need))
      ensures GrowsWell(vol.lay, vol.Fat(), chain, vol.fsInfo, GrowthTo(need), need)
    {
      hide Volume.Valid;
      hide ClockCache.Valid;
      hide ClockCache.View;
      hide Grow;
      hide GrowsWell;
      hide Usable;
      StartsChain(vol.Fat(), StartCluster(entry), chain);
      GrowthIsGood(vol.lay, vol.Fat(), chain, vol.fsInfo, need);
    }

    /** As many free clusters beyond the allocator's choice as the file lacks are enough. */
    lemma RoomSuffices(need: nat)
      requires Valid() && Usable(vol.Fat(), vol.fsInfo, chain)
      requires FreeFrom(vol.Fat(), AllocChoice(vol.Fat(), vol.fsInfo) + 1) >= vol.lay.Lacking(|chain|, need)
      ensures GrowthTo(need).lost == 0
    {
      hide Volume.Valid;
      hide ClockCache.Valid;
      hide ClockCache.View;
      hide Grow;
      hide AllocChoice;
      hide FreeFrom;
      hide Usable;
      StartsChain(vol.Fat(), StartCluster(entry), chain);
      EnoughFree(vol.Fat(), chain, vol.fsInfo, vol.lay.Lacking(|chain|, need));
    }

    /** They are also necessary while the search only goes upward. */
    lemma RoomNeeded(need: nat)
      requires Valid() && Usable(vol.Fat(), vol.fsInfo, chain) && Upward(vol.Fat(), vol.fsInfo)
      ensures GrowthTo(need).lost == 0 <==>
        FreeFrom(vol.Fat(), AllocChoice(vol.Fat(), vol.fsInfo) + 1) >= vol.lay.Lacking(|chain|, need)
    {
      hide Volume.Valid;
      hide ClockCache.Valid;
      hide ClockCache.View;
      hide Grow;
      hide AllocChoice;
      hide FreeFrom;
      hide Usable;
      hide Upward;
      StartsChain(vol.Fat(), StartCluster(entry), chain);
      GrowSucceedsIff(vol.Fat(), chain, vol.fsInfo, vol.lay.Lacking(|chain|, need));
    }

    /** The growth that was needed is done, or has failed. */
    lemma GrowthDone(m: Moment, leak: nat)
      requires vol.lay.WellFormed() && GrownSince(m, leak) && (leak == 0 ==> m.need <= vol.lay.Bytes(|chain|))
      ensures Growth(vol.Fat(), chain, vol.fsInfo, leak) ==
        Grow(m.fat, m.chain, m.info, vol.lay.Lacking(|m.chain|, m.need))
    {
      vol.lay.LackingStep(|chain|, m.need);
    }

    /** The two halves of fs_write, for at least one byte. */
    method WriteBytes(ghost m: Moment, buf: seq<Byte>, ghost g: bool) returns (r: Result<nat>, ghost done: nat, ghost leak: nat)
      requires Since(m, [], 0) && 0 < |buf| && m.need == loc + |buf| && Growable(g, m.need)
      modifies `entry, `chain, vol.disk, vol.fat.slots, vol.fat`clockHead, vol`table, vol`fsInfo, data.slots, data`clockHead
      ensures done <= |buf| && Since(m, buf[..done], leak) && (r.Ok? <==> leak == 0)
      ensures r.Ok? ==> r.value == done == |buf| && m.need <= vol.lay.Bytes(|chain|)
      ensures r.Err? ==> done == Behind(m.loc, vol.lay.Bytes(|chain|))
    {
      hide FatFile.Valid;
      hide FatFile.Since;
      hide FatFile.GrownSince;
      hide FatFile.Growable;
      hide SameButStart;
      hide Layout.ClusterIndex;
      hide Layout.ByteInCluster;
      var startClus, startByte := vol.lay.ClusterIndex(loc), vol.lay.ByteInCluster(loc);
      var endClus, endByte := vol.lay.ClusterIndex(loc + |buf| - 1), vol.lay.ByteInCluster(loc + |buf| - 1);
      vol.lay.PositionSplit(loc);
      vol.lay.PositionSplit(loc + |buf| - 1);
      r, leak := OpenCluster(m, startClus, g);
      done := 0;
      assert buf[..done] == [];
      if r.Err? {
        vol.lay.BytesOrder(|chain|, startClus);
        return r, done, leak;
      }
      r, done, leak := WriteClusters(m, r.value, startClus, startByte, endClus, endByte, buf, g);
    }

    /** fs_write.  What becomes of the table, the chain and the hint is the growth that the
        state before the call decides; the write succeeds if and only if that growth does. */
    method Write(buf: seq<Byte>) returns (r: Result<nat>, ghost done: nat, ghost leak: nat)
      requires Valid() && loc + |buf| < 0x1_0000_0000
      requires (vol.lay.base == 0 && Usable(vol.Fat(), vol.fsInfo, chain)) || loc + |buf| <= vol.lay.Bytes(|chain|)
      modifies `loc, `entry, `chain, vol.disk, vol.fat.slots, vol.fat`clockHead, vol`table, vol`fsInfo, data.slots, data`clockHead
      ensures Valid() && Wrote(old(Shown()), buf, r.Ok?, done, Shown())
      ensures Growth(vol.Fat(), chain, vol.fsInfo, leak) == old(GrowthTo(loc + |buf|))
      ensures (r.Ok? <==> leak == 0) && (r.Ok? ==> r.value == |buf|)
      ensures if r.Ok? then SameButStartAndSize(old(entry), entry) else SameButStart(old(entry), entry)
      ensures r.Ok? && old(CanAlloc(vol.Fat(), vol.fsInfo)) ==> CanAlloc(vol.Fat(), vol.fsInfo)
      ensures r.Err? ==> done == Behind(old(loc), vol.lay.Bytes(|chain|))
      ensures Written(old(Bytes()), Bytes(), old(loc), buf[..done])
      ensures GrowsWell(vol.lay, old(vol.Fat()), old(chain), old(vol.fsInfo),
                        Growth(vol.Fat(), chain, vol.fsInfo, leak), old(loc) + |buf|)
      ensures OnlyOwnChanged(vol.lay, old(vol.disk.bytes), vol.disk.bytes, chain)
    {
      hide FatFile.Valid;
      hide Written;
      hide Wrote;
      hide OnlyOwnChanged;
      hide CanAlloc;
      hide Usable;
      hide Grow;
      hide GrowsWell;
      hide FatFile.GrowthTo;
      hide FatFile.GrownSince;
      hide FatFile.Bytes;
      hide FatFile.Content;
      hide SameButStart;
      hide SameButStartAndSize;
      hide Overlay;
      hide Layout.Bytes;
      PositionInside();
      ghost var need := loc + |buf|;
      GrowthFacts(need);
      KeptGood(vol.lay, vol.Fat(), chain, vol.fsInfo, GrowthTo(need), need);
      ghost var m, d := Now(need), Shown();
      NothingWritten(need);
      if |buf| == 0 {
        GrowthDone(m, 0);
        WroteAll(d, buf, d);
        return Ok(0), 0, 0;
      }
      assert d == Doc(m.stored[..FileSize(m.entry)], m.loc);
      r, done, leak := WriteBytes(m, buf, vol.lay.base == 0 && Usable(vol.Fat(), vol.fsInfo, chain));
      GrowthDone(m, leak);
      if r.Ok? {
        assert buf[..done] == buf;
        hide FatFile.Since;
        Finish(m, buf);
        WroteAll(d, buf, Shown());
      } else {
        hide FatFile.Since;
        ShortOf(vol.lay, m, Growth(vol.Fat(), chain, vol.fsInfo, leak));
        CutOff(m, d, buf, done, leak);
      }
    }

    lemma ShortOf(lay: Layout, m: Moment, g: Growth)
      requires g.lost != 0 && GrowsWell(lay, m.fat, m.chain, m.info, g, m.need)
      ensures lay.Bytes(|g.chain|) < m.need
    {
    }

    lemma CutOff(m: Moment, d: Doc, buf: seq<Byte>, done: nat, leak: nat)
      requires done <= |buf| && Since(m, buf[..done], leak) && m.need == m.loc + |buf|
      requires |m.entry| == 32 && m.loc <= FileSize(m.entry) <= |m.stored|
      requires d == Doc(m.stored[..FileSize(m.entry)], m.loc)
      requires vol.lay.Bytes(|chain|) < m.need && done == Behind(m.loc, vol.lay.Bytes(|chain|))
      ensures Valid() && Wrote(d, buf, false, done, Shown())
    {
      hide FatFile.Valid;
      hide FatFile.Bytes;
      hide FatFile.Content;
      hide FatFile.GrownSince;
      hide OnlyOwnChanged;
      hide Written;
      hide SameButStart;
      hide Overlay;
      Interrupted(m, buf[..done], leak);
      PositionInside();
    }

    lemma KeptGood(lay: Layout, fat: seq<nat>, ch: seq<nat>, info: seq<Byte>, g: Growth, need: nat)
      requires GrowsWell(lay, fat, ch, info, g, need)
      ensures g.lost == 0 && CanAlloc(fat, info) ==> CanAlloc(g.fat, g.info)
    {
    }

    /** The file after a write that failed. */
    lemma Interrupted(m: Moment, w: seq<Byte>, leak: nat)
      requires Since(m, w, leak)
      requires |m.entry| == 32 && m.loc <= FileSize(m.entry) <= |m.stored|
      ensures Valid() && Content() == Overlay(m.stored[..FileSize(m.entry)], m.loc, w)[..FileSize(m.entry)]
    {
      hide Volume.Valid;
      hide ClockCache.Valid;
      hide ClockCache.View;
      hide FatFile.GrownSince;
      hide OnlyOwnChanged;
      hide IsFileChain;
      SameSize(m.entry, entry);
      WrittenInside(m.stored, Bytes(), m.loc, w, FileSize(m.entry));
    }

    lemma NothingWritten(need: nat)
      requires Valid()
      ensures Since(Now(need), [], 0)
      ensures Written(Bytes(), Bytes(), loc, [])
      ensures Overlay(Content(), loc, []) == Content()
    {
      hide Volume.Valid;
      hide ClockCache.Valid;
      hide ClockCache.View;
      hide Grow;
      StartsChain(vol.Fat(), StartCluster(entry), chain);
      LastInTable(vol.Fat(), chain);
      SpliceNothing(Bytes() + Zeros(0), loc);
      assert Bytes() + Zeros(0) == Bytes();
    }

    lemma PositionInside()
      requires Valid()
      ensures |entry| == 32 && loc <= FileSize(entry) <= |Bytes()| && vol.lay.sectorsPerCluster > 0
      ensures |Content()| == FileSize(entry) && Content() == Bytes()[..FileSize(entry)]
      ensures |Bytes()| == vol.lay.Bytes(|chain|)
      ensures SameButStart(entry, entry) && SameButStartAndSize(entry, entry)
    {
      hide Volume.Valid;
      hide ClockCache.Valid;
      hide ClockCache.View;
    }

    lemma ChainFacts()
      requires Valid()
      ensures Wired() && vol.Valid() && |entry| == 32 && IsFileChain(vol.Fat(), StartCluster(entry), chain)
      ensures forall c :: c in chain ==> 2 <= c < vol.lay.Entries()
    {
      hide Volume.Valid;
      hide ClockCache.Valid;
      OldChainInRange(vol.lay, vol.Fat(), StartCluster(entry), chain);
    }

    lemma StartOfChain()
      requires Valid()
      ensures |entry| == 32
      ensures if StartCluster(entry) == 0 then chain == [] else chain != [] && chain[0] == StartCluster(entry)
    {
    }

    // ----------------------------------------------------------------- reading

    /** The copy loops of fs_read. */
    method CopyOut(index: nat, startByte: nat, n: nat, buf: array<Byte>, cc: nat)
      requires index < data.slots.Length && startByte + n <= |data.slots[index].buf| && cc + n <= buf.Length
      modifies buf
      ensures buf[..cc + n] == old(buf[..cc]) + data.slots[index].buf[startByte..startByte + n]
      ensures buf[cc + n..] == old(buf[cc + n..])
    {
      ghost var b, s := buf[..], data.slots[index].buf;
      var i := 0;
      while i < n
        invariant i <= n && data.slots[index].buf == s
        invariant buf[..cc + i] == b[..cc] + s[startByte..startByte + i]
        invariant buf[cc + i..] == b[cc + i..]
      {
        buf[cc + i] := data.slots[index].buf[startByte + i];
        assert buf[..cc + (i + 1)] == buf[..cc + i] + [s[startByte + i]];
        assert buf[cc + (i + 1)..] == b[cc + (i + 1)..];
        i := i + 1;
      }
    }

    /** One cluster's share of a read. */
    method LoadBytes(clus: nat, ghost k: nat, startByte: nat, n: nat, buf: array<Byte>, cc: nat)
      requires Valid() && k < |chain| && chain[k] == clus
      requires startByte + n <= vol.lay.ClusterBytes() && cc + n <= buf.Length
      modifies vol.disk, data.slots, data`clockHead, buf
      ensures Valid() && Bytes() == old(Bytes())
      ensures vol.lay.Bytes(k) + startByte + n <= |Bytes()|
      ensures buf[..cc + n] == old(buf[..cc]) + Bytes()[vol.lay.Bytes(k) + startByte..vol.lay.Bytes(k) + startByte + n]
      ensures buf[cc + n..] == old(buf[cc + n..])
      ensures OnlyOwnChanged(vol.lay, old(vol.disk.bytes), vol.disk.bytes, chain)
    {
      hide Volume.Valid;
      hide ClockCache.Valid;
      hide ClockCache.View;
      hide IsFileChain;
      hide OnlyOwnChanged;
      hide Stored;
      hide Layout.Bytes;
      hide CachedIn;
      InRange(k);
      var index := FetchCluster(clus, k);
      data.SlotIsView(index);
      assert HoldsCluster(vol.lay, data.View(), chain[k]);
      StoredSlice(vol.lay, data.View(), chain, k);
      SliceOfSlice(Bytes(), vol.lay.Bytes(k), vol.lay.ClusterBytes(), startByte, n);
      CopyOut(index, startByte, n, buf, cc);
    }

    /** Reading changes no byte of the file. */
    ghost predicate Reading(d: seq<Byte>, b0: seq<Byte>)
      reads this, vol`fsInfo, vol`table, vol.disk, vol.fat, vol.fat.slots, data, data.slots
      ensures Reading(d, b0) ==> Valid() && Bytes() == d
    {
      Valid() && Bytes() == d && OnlyOwnChanged(vol.lay, b0, vol.disk.bytes, chain)
    }

    method NextReading(ghost d: seq<Byte>, ghost b0: seq<Byte>, clus: nat, ghost k: nat) returns (v: nat)
      requires Reading(d, b0) && k + 1 < |chain| && chain[k] == clus
      modifies vol.disk, vol.fat.slots, vol.fat`clockHead
      ensures Reading(d, b0) && v == chain[k + 1]
    {
      hide FatFile.Valid;
      hide OnlyOwnChanged;
      InRange(k);
      ghost var b1 := vol.disk.bytes;
      v := NextCluster(clus);
      OwnTrans(vol.lay, b0, b1, vol.disk.bytes, chain, chain);
    }

    method LoadReading(ghost d: seq<Byte>, ghost b0: seq<Byte>, clus: nat, ghost k: nat, startByte: nat, n: nat,
                       buf: array<Byte>, cc: nat, ghost was: seq<Byte>, ghost at: nat) returns (cc': nat)
      requires Reading(d, b0) && k < |chain| && chain[k] == clus
      requires startByte + n <= vol.lay.ClusterBytes() && cc + n <= buf.Length
      requires at + cc == vol.lay.Bytes(k) + startByte && Copied(buf[..], was, d, at, cc)
      modifies vol.disk, data.slots, data`clockHead, buf
      ensures Reading(d, b0) && cc' == cc + n && Copied(buf[..], was, d, at, cc')
    {
      hide FatFile.Valid;
      hide OnlyOwnChanged;
      ghost var b1, p := vol.disk.bytes, vol.lay.Bytes(k) + startByte;
      ghost var before := buf[..];
      LoadBytes(clus, k, startByte, n, buf, cc);
      OwnTrans(vol.lay, b0, b1, vol.disk.bytes, chain, chain);
      cc' := cc + n;
      CopiedMore(buf[..], before, was, d, at, cc, n);
    }

    /** The walk of fs_read to the cluster of the position. */
    method WalkTo(ghost d: seq<Byte>, ghost b0: seq<Byte>, startClus: nat) returns (clus: nat)
      requires Reading(d, b0) && startClus < |chain|
      modifies vol.disk, vol.fat.slots, vol.fat`clockHead
      ensures Reading(d, b0) && clus == chain[startClus]
    {
      hide FatFile.Valid;
      hide FatFile.Reading;
      StartOfChain();
      clus := StartCluster(entry);
      var i := 0;
      while i < startClus
        invariant i <= startClus && Reading(d, b0) && clus == chain[i]
      {
        clus := NextReading(d, b0, clus, i);
        i := i + 1;
      }
    }

    /** The second half of fs_read. */
    method ReadClusters(ghost d: seq<Byte>, ghost b0: seq<Byte>, clus0: nat, startClus0: nat, startByte0: nat,
                        endClus: nat, endByte: nat, buf: array<Byte>, ghost at: nat, ghost n: nat) returns (cc: nat)
      requires Reading(d, b0) && endClus < |chain| && startClus0 <= endClus && chain[startClus0] == clus0
      requires 0 < n <= buf.Length && at + n <= |d|
      requires at == vol.lay.Bytes(startClus0) + startByte0 && startByte0 < vol.lay.ClusterBytes()
      requires at + n == vol.lay.Bytes(endClus) + endByte + 1 && endByte < vol.lay.ClusterBytes()
      modifies vol.disk, vol.fat.slots, vol.fat`clockHead, data.slots, data`clockHead, buf
      ensures Reading(d, b0) && cc == n && Copied(buf[..], old(buf[..]), d, at, n)
    {
      hide FatFile.Valid;
      hide FatFile.Reading;
      var clus: nat, startClus: nat, startByte: nat := clus0, startClus0, startByte0;
      ghost var was := buf[..];
      cc := 0;
      assert Copied(buf[..], was, d, at, cc);
      vol.lay.IndexOrder(startClus, startByte, endClus, endByte);
      hide Layout.Bytes;
      hide Copied;
      while startClus <= endClus
        invariant startClus <= endClus && chain[startClus] == clus
        invariant cc <= n && Reading(d, b0) && Copied(buf[..], was, d, at, cc)
        invariant at + cc == vol.lay.Bytes(startClus) + startByte && startByte < vol.lay.ClusterBytes()
        invariant startClus == endClus ==> startByte <= endByte
        decreases endClus - startClus
      {
        if startClus == endClus {
          cc := LoadReading(d, b0, clus, startClus, startByte, endByte + 1 - startByte, buf, cc, was, at);
          assert cc == n;
          break;
        }
        vol.lay.BytesStep(startClus);
        vol.lay.BytesOrder(startClus + 1, endClus);
        cc := LoadReading(d, b0, clus, startClus, startByte, vol.lay.ClusterBytes() - startByte, buf, cc, was, at);
        clus := NextReading(d, b0, clus, startClus);
        startClus := startClus + 1;
        startByte := 0;
      }
    }

    /** fs_read of a range inside the file. */
    method ReadInside(buf: array<Byte>, n: nat) returns (cc: nat)
      requires Valid() && 0 < n <= buf.Length && loc + n <= FileSize(entry) && chain != []
      modifies vol.disk, vol.fat.slots, vol.fat`clockHead, data.slots, data`clockHead, buf
      ensures Reading(old(Bytes()), old(vol.disk.bytes)) && cc == n
      ensures Copied(buf[..], old(buf[..]), old(Bytes()), loc, n)
    {
      hide FatFile.Valid;
      hide FatFile.Bytes;
      hide FatFile.Reading;
      hide Copied;
      hide Layout.ClusterIndex;
      hide Layout.ByteInCluster;
      PositionInside();
      StillReading();
      var startClus, startByte := vol.lay.ClusterIndex(loc), vol.lay.ByteInCluster(loc);
      var endClus, endByte := vol.lay.ClusterIndex(loc + n - 1), vol.lay.ByteInCluster(loc + n - 1);
      vol.lay.PositionSplit(loc);
      vol.lay.PositionSplit(loc + n - 1);
      vol.lay.IndexOrder(startClus, startByte, endClus, endByte);
      vol.lay.IndexBelow(endClus, endByte, |chain|);
      hide Layout.Bytes;
      ghost var d, b0 := Bytes(), vol.disk.bytes;
      var clus := WalkTo(d, b0, startClus);
      cc := ReadClusters(d, b0, clus, startClus, startByte, endClus, endByte, buf, loc, n);
    }

    /** fs_read: at most up to the end of the file. */
    method Read(buf: array<Byte>, count: nat) returns (cc: nat)
      requires Valid() && loc + count < 0x1_0000_0000 && count <= buf.Length
      modifies `loc, vol.disk, vol.fat.slots, vol.fat`clockHead, data.slots, data`clockHead, buf
      ensures Valid() && Bytes() == old(Bytes()) && Content() == old(Content())
      ensures cc == Readable(FileSize(entry), old(loc), count) && loc == old(loc) + cc
      ensures loc <= |Content()| && buf[..cc] == Content()[old(loc)..loc] && buf[cc..] == old(buf[cc..])
      ensures OnlyOwnChanged(vol.lay, old(vol.disk.bytes), vol.disk.bytes, chain)
    {
      hide FatFile.Valid;
      hide FatFile.Bytes;
      hide OnlyOwnChanged;
      hide Copied;
      hide Layout.Bytes;
      PositionInside();
      StartOfChain();
      StillReading();
      var clus := StartCluster(entry);
      if clus == 0 {
        EmptyFile();
        return 0;
      }
      var n := count;
      if loc + count > FileSize(entry) {
        n := FileSize(entry) - loc;
      }
      if n == 0 {
        return 0;
      }
      ghost var d, was := Bytes(), buf[..];
      cc := ReadInside(buf, n);
      CopiedContent(buf[..], was, d, FileSize(entry), loc, n);
      AdvancePosition(n);
    }

    /** file->loc += count. */
    method AdvancePosition(n: nat)
      requires Valid() && loc + n <= FileSize(entry)
      modifies `loc
      ensures Valid() && Bytes() == old(Bytes()) && Content() == old(Content()) && loc == old(loc) + n
    {
      hide Volume.Valid;
      hide ClockCache.Valid;
      hide ClockCache.View;
      loc := loc + n;
    }

    lemma StillReading()
      requires Valid()
      ensures Reading(Bytes(), vol.disk.bytes) && OnlyOwnChanged(vol.lay, vol.disk.bytes, vol.disk.bytes, chain)
    {
      hide FatFile.Valid;
    }

    lemma EmptyFile()
      requires Valid() && chain == []
      ensures FileSize(entry) == 0
    {
    }

    /** fs_lseek. */
    method Lseek(newLoc: nat)
      requires Valid()
      modifies `loc
      ensures Valid() && loc == (if newLoc < |Content()| then newLoc else |Content()|)
      ensures Bytes() == old(Bytes()) && Content() == old(Content())
    {
      hide Volume.Valid;
      hide ClockCache.Valid;
      hide ClockCache.View;
      var filesize := FileSize(entry);
      if newLoc < filesize {
        loc := newLoc;
      } else {
        loc := filesize;
      }
    }

    /** fs_write_4k for every slot of the file. */
    method FlushOwn()
      requires Valid()
      modifies vol.disk, data.slots
      ensures Valid() && Bytes() == old(Bytes())
      ensures forall i :: 0 <= i < data.slots.Length ==> Evictable(data.slots[i])
      ensures OnlyOwnChanged(vol.lay, old(vol.disk.bytes), vol.disk.bytes, chain)
      ensures SameSectors(old(vol.disk.bytes), vol.disk.bytes, 0, vol.lay.base + vol.lay.FirstDataSector())
    {
      hide Volume.Valid;
      hide ClockCache.Valid;
      hide ClockCache.View;
      hide IsFileChain;
      ghost var b, s := vol.disk.bytes, data.slots[..];
      data.IsCoherent();
      data.FlushAll();
      DataSparesFat(vol.lay, b, vol.disk.bytes, s);
      CachedWritesOwn(vol.lay, b, vol.disk.bytes, s, chain);
      CachedSame(vol.lay, s, data.slots[..], chain);
      vol.Framed();
    }

    /** The directory cache is intact after writes to the file's own clusters. */
    twostate lemma DirStays(secs: set<nat>)
      requires vol.lay.WellFormed() && vol.dir.geo == vol.lay.DirGeometry() && vol.dir.disk == vol.disk
      requires old(vol.dir.Valid())
      requires vol.dir.slots[..] == old(vol.dir.slots[..]) && vol.dir.clockHead == old(vol.dir.clockHead)
      requires chain == old(chain) && OnlyOwnChanged(vol.lay, old(vol.disk.bytes), vol.disk.bytes, chain)
      requires CachesOnly(vol.dir.slots[..], secs) && Away(vol.lay, secs, chain)
      ensures vol.dir.Valid() && SameOn(secs, old(vol.dir.View()), vol.dir.View())
    {
      DirSurvives(vol.lay, old(vol.disk.bytes), vol.disk.bytes, vol.dir.slots[..], secs, chain);
    }

    /** The file is intact after any step that left its handle, its cache and the
        disk blocks of its clusters alone. */
    twostate lemma Unharmed()
      requires old(Valid()) && vol.Valid() && loc == old(loc) && entry == old(entry) && chain == old(chain)
      requires data.slots[..] == old(data.slots[..]) && data.clockHead == old(data.clockHead)
      requires |vol.disk.bytes| == |old(vol.disk.bytes)|
      requires IsFileChain(vol.Fat(), StartCluster(entry), chain)
      requires BlocksKept(vol.lay, old(vol.disk.bytes), vol.disk.bytes, chain)
      ensures Valid() && Bytes() == old(Bytes()) && Content() == old(Content())
    {
      hide Volume.Valid;
      hide IsFileChain;
      OldChainInRange(vol.lay, vol.Fat(), StartCluster(entry), chain);
      ChainIntact(vol.lay, old(vol.disk.bytes), vol.disk.bytes, data.slots[..], chain);
    }
  }
}
