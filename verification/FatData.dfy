/** The bytes of a file: the data of its clusters, one after the other. */
module FatData {
  import opened Sequences
  import opened BlockCache
  import opened FatLayout

  lemma SpliceTwice(s: seq<Byte>, o: nat, a: seq<Byte>, b: seq<Byte>)
    requires o + |a| + |b| <= |s|
    ensures Splice(Splice(s, o, a), o + |a|, b) == Splice(s, o, a + b)
  {
  }

  lemma SpliceExtend(s: seq<Byte>, o: nat, a: seq<Byte>, t: seq<Byte>)
    requires o + |a| <= |s|
    ensures Splice(s, o, a) + t == Splice(s + t, o, a)
  {
  }

  lemma SpliceNothing(s: seq<Byte>, o: nat)
    requires o <= |s|
    ensures Splice(s, o, []) == s
  {
  }

  /** One more byte of a copy loop. */
  lemma SpliceOne(s: seq<Byte>, o: nat, src: seq<Byte>, cc: nat, i: nat)
    requires cc + i < |src| && o + i < |s|
    ensures Splice(s, o, src[cc..cc + i])[o + i := src[cc + i]] == Splice(s, o, src[cc..cc + i + 1])
  {
  }

  /** Cutting a splice to a length that covers it. */
  lemma SpliceCut(s: seq<Byte>, o: nat, b: seq<Byte>, n: nat)
    requires o + |b| <= |s| && n <= |s| && o <= n
    ensures var m := if n < o + |b| then o + |b| else n;
      Splice(s, o, b)[..m] == s[..o] + b + if o + |b| <= n then s[o + |b|..n] else []
  {
  }

  ghost predicate HoldsCluster(lay: Layout, img: map<nat, seq<Byte>>, c: nat) {
    c >= 2 && lay.Tag(c) in img && |img[lay.Tag(c)]| == lay.ClusterBytes()
  }

  ghost predicate HoldsClusters(lay: Layout, img: map<nat, seq<Byte>>, ch: seq<nat>) {
    forall i :: 0 <= i < |ch| ==> HoldsCluster(lay, img, ch[i])
  }

  /** The concatenated data of a chain. */
  ghost function Stored(lay: Layout, img: map<nat, seq<Byte>>, ch: seq<nat>): (d: seq<Byte>)
    requires HoldsClusters(lay, img, ch) && lay.WellFormed()
    ensures |d| == lay.Bytes(|ch|)
  {
    if ch == [] then []
    else
      lay.BytesStep(|ch| - 1);
      Stored(lay, img, ch[..|ch| - 1]) + img[lay.Tag(ch[|ch| - 1])]
  }

  /** Cluster k of the chain holds bytes Bytes(k)..Bytes(k + 1). */
  lemma {:induction false} StoredSlice(lay: Layout, img: map<nat, seq<Byte>>, ch: seq<nat>, k: nat)
    requires HoldsClusters(lay, img, ch) && lay.WellFormed() && k < |ch|
    ensures lay.Bytes(k) + lay.ClusterBytes() <= |Stored(lay, img, ch)|
    ensures img[lay.Tag(ch[k])] == Stored(lay, img, ch)[lay.Bytes(k)..lay.Bytes(k) + lay.ClusterBytes()]
  {
    hide Layout.Bytes;
    hide Layout.Tag;
    var n := |ch| - 1;
    lay.BytesStep(n);
    var d, e, l := Stored(lay, img, ch), Stored(lay, img, ch[..n]), img[lay.Tag(ch[n])];
    assert d == e + l;
    assert HoldsCluster(lay, img, ch[n]);
    if k < n {
      StoredSlice(lay, img, ch[..n], k);
      lay.BytesMonotone(k, n);
      assert e == d[..|e|];
      assert ch[..n][k] == ch[k];
      assert e[lay.Bytes(k)..lay.Bytes(k) + lay.ClusterBytes()] == d[lay.Bytes(k)..lay.Bytes(k) + lay.ClusterBytes()];
    } else {
      assert d[|e|..|e| + |l|] == l;
    }
  }

  lemma {:induction false} StoredFrame(lay: Layout, img: map<nat, seq<Byte>>, img': map<nat, seq<Byte>>, ch: seq<nat>)
    requires HoldsClusters(lay, img, ch) && lay.WellFormed()
    requires forall i :: 0 <= i < |ch| ==> lay.Tag(ch[i]) in img' && img'[lay.Tag(ch[i])] == img[lay.Tag(ch[i])]
    ensures HoldsClusters(lay, img', ch) && Stored(lay, img', ch) == Stored(lay, img, ch)
  {
    if ch != [] {
      StoredFrame(lay, img, img', ch[..|ch| - 1]);
    }
  }

  lemma SpliceLast(e: seq<Byte>, l: seq<Byte>, b: seq<Byte>)
    requires |l| == |b|
    ensures Splice(e + l, |e|, b) == e + b
  {
  }

  /** The other clusters of a chain are not affected by rewriting cluster k. */
  lemma OthersStay(lay: Layout, img: map<nat, seq<Byte>>, ch: seq<nat>, k: nat, b: seq<Byte>)
    requires HoldsClusters(lay, img, ch) && lay.WellFormed() && k < |ch| && Distinct(ch)
    ensures forall i :: 0 <= i < |ch| && i != k ==> img[lay.Tag(ch[k]) := b][lay.Tag(ch[i])] == img[lay.Tag(ch[i])]
  {
    forall i | 0 <= i < |ch| && i != k ensures lay.Tag(ch[i]) != lay.Tag(ch[k]) {
      lay.ClustersApart(ch[i], ch[k]);
    }
  }

  /** Rewriting one cluster splices its bytes into the file. */
  lemma {:induction false} StoredUpdate(lay: Layout, img: map<nat, seq<Byte>>, ch: seq<nat>, k: nat, b: seq<Byte>)
    requires HoldsClusters(lay, img, ch) && lay.WellFormed() && k < |ch| && Distinct(ch)
    requires |b| == lay.ClusterBytes()
    ensures lay.Bytes(k) + |b| <= lay.Bytes(|ch|)
    ensures HoldsClusters(lay, img[lay.Tag(ch[k]) := b], ch)
    ensures Stored(lay, img[lay.Tag(ch[k]) := b], ch) == Splice(Stored(lay, img, ch), lay.Bytes(k), b)
  {
    var n := |ch| - 1;
    var img' := img[lay.Tag(ch[k]) := b];
    OthersStay(lay, img, ch, k, b);
    lay.BytesStep(n);
    assert HoldsClusters(lay, img', ch);
    var e, l := Stored(lay, img, ch[..n]), img[lay.Tag(ch[n])];
    if k == n {
      StoredFrame(lay, img, img', ch[..n]);
      SpliceLast(e, l, b);
    } else {
      lay.BytesMonotone(k, n);
      StoredUpdate(lay, img, ch[..n], k, b);
      SpliceExtend(e, lay.Bytes(k), b, l);
    }
  }

  lemma SliceOfSlice(s: seq<Byte>, p: nat, n: nat, o: nat, m: nat)
    requires p + n <= |s| && o + m <= n
    ensures s[p..p + n][o..o + m] == s[p + o..p + o + m]
  {
    var t := s[p..p + n];
    assert forall k :: o <= k < o + m ==> t[k] == s[p + k];
  }

  /** A splice inside a block of s is a splice of s. */
  lemma SpliceInner(s: seq<Byte>, p: nat, n: nat, o: nat, b: seq<Byte>)
    requires p + n <= |s| && o + |b| <= n
    ensures Splice(s, p, Splice(s[p..p + n], o, b)) == Splice(s, p + o, b)
  {
  }

  /** Splicing bytes into one cluster splices them into the file. */
  lemma {:induction false} StoreSplice(lay: Layout, img: map<nat, seq<Byte>>, ch: seq<nat>, k: nat, o: nat, b: seq<Byte>)
    requires HoldsClusters(lay, img, ch) && lay.WellFormed() && k < |ch| && Distinct(ch)
    requires o + |b| <= lay.ClusterBytes() && HoldsCluster(lay, img, ch[k])
    ensures lay.Bytes(k) + o + |b| <= lay.Bytes(|ch|)
    ensures var img' := img[lay.Tag(ch[k]) := Splice(img[lay.Tag(ch[k])], o, b)];
      && HoldsClusters(lay, img', ch)
      && Stored(lay, img', ch) == Splice(Stored(lay, img, ch), lay.Bytes(k) + o, b)
  {
    hide Stored;
    hide Splice;
    hide Layout.Bytes;
    hide Layout.Tag;
    StoredSlice(lay, img, ch, k);
    StoredUpdate(lay, img, ch, k, Splice(img[lay.Tag(ch[k])], o, b));
    SpliceInner(Stored(lay, img, ch), lay.Bytes(k), lay.ClusterBytes(), o, b);
  }

  lemma StoredAppend(lay: Layout, img: map<nat, seq<Byte>>, ch: seq<nat>, c: nat)
    requires HoldsClusters(lay, img, ch) && HoldsCluster(lay, img, c) && lay.WellFormed()
    ensures HoldsClusters(lay, img, ch + [c])
    ensures Stored(lay, img, ch + [c]) == Stored(lay, img, ch) + img[lay.Tag(c)]
  {
    assert (ch + [c])[|ch|] == c;
    assert (ch + [c])[..|ch|] == ch;
  }

  // ---------------------------------------------------------------- the disk

  ghost predicate InFat(lay: Layout, x: nat) {
    512 * lay.FatStart() <= x < 512 * (lay.base + lay.FirstDataSector())
  }

  ghost predicate InCluster(lay: Layout, c: nat, x: nat) {
    c >= 2 && 512 * lay.Tag(c) <= x < 512 * (lay.Tag(c) + lay.sectorsPerCluster)
  }

  /** Only the FAT and the clusters of ch differ. */
  ghost predicate OnlyOwnChanged(lay: Layout, b: seq<Byte>, b': seq<Byte>, ch: seq<nat>) {
    && |b'| == |b|
    && forall x: nat :: x < |b| && b'[x] != b[x] ==> InFat(lay, x) || exists c :: c in ch && InCluster(lay, c, x)
  }

  lemma OwnTrans(lay: Layout, b0: seq<Byte>, b1: seq<Byte>, b2: seq<Byte>, ch: seq<nat>, ch': seq<nat>)
    requires OnlyOwnChanged(lay, b0, b1, ch) && OnlyOwnChanged(lay, b1, b2, ch') && ch <= ch'
    ensures OnlyOwnChanged(lay, b0, b2, ch')
  {
    forall x: nat | x < |b0| && b2[x] != b0[x]
      ensures InFat(lay, x) || exists c :: c in ch' && InCluster(lay, c, x)
    {
      if b1[x] != b0[x] && !InFat(lay, x) {
        var c :| c in ch && InCluster(lay, c, x);
        var i :| 0 <= i < |ch| && ch[i] == c;
        assert ch'[i] == c;
      }
    }
  }

  /** A cache without mirror stays coherent when its cached blocks keep their bytes. */
  lemma CachedBlocksKept(g: Geometry, b: seq<Byte>, b': seq<Byte>, slots: seq<Slot>)
    requires Coherent(g, b, slots) && g.mirror == 0 && |b'| == |b|
    requires forall i :: 0 <= i < |slots| && slots[i].cur != NO_BLOCK ==>
      Block(b', slots[i].cur, g.unit) == Block(b, slots[i].cur, g.unit)
    ensures Coherent(g, b', slots)
    ensures forall a: nat :: IsTag(g, a) && Block(b', a, g.unit) == Block(b, a, g.unit) ==>
      Image(g, b', slots)[a] == Image(g, b, slots)[a]
  {
  }

  /** Every cached block belongs to a cluster of the chain. */
  ghost predicate CachedIn(lay: Layout, slots: seq<Slot>, ch: seq<nat>) {
    forall i :: 0 <= i < |slots| && slots[i].cur != NO_BLOCK ==> exists c :: c in ch && c >= 2 && slots[i].cur == lay.Tag(c)
  }

  lemma CachedGrow(lay: Layout, s: seq<Slot>, s': seq<Slot>, ch: seq<nat>, ch': seq<nat>, c: nat)
    requires CachedIn(lay, s, ch) && c >= 2 && TagsGrowBy(s, s', lay.Tag(c)) && c in ch' && ch <= ch'
    ensures CachedIn(lay, s', ch')
  {
    forall i | 0 <= i < |s'| && s'[i].cur != NO_BLOCK
      ensures exists d :: d in ch' && d >= 2 && s'[i].cur == lay.Tag(d)
    {
      if s'[i].cur == s[i].cur {
        var d :| d in ch && d >= 2 && s[i].cur == lay.Tag(d);
        var j :| 0 <= j < |ch| && ch[j] == d;
        assert ch'[j] == d;
      }
    }
  }

  /** Write-backs of a file's cache touch the file's clusters only. */
  lemma CachedWritesOwn(lay: Layout, b: seq<Byte>, b': seq<Byte>, slots: seq<Slot>, ch: seq<nat>)
    requires OnlyCachedChanged(lay.DataGeometry(), b, b', slots) && CachedIn(lay, slots, ch)
    ensures OnlyOwnChanged(lay, b, b', ch)
  {
    forall x: nat | x < |b| && b'[x] != b[x] ensures exists c :: c in ch && InCluster(lay, c, x) {
      var i :| 0 <= i < |slots| && slots[i].cur != NO_BLOCK && InBlock(lay.DataGeometry(), slots[i].cur, x);
      var c :| c in ch && c >= 2 && slots[i].cur == lay.Tag(c);
      assert InCluster(lay, c, x);
    }
  }

  lemma OwnOfFat(lay: Layout, b: seq<Byte>, b': seq<Byte>, ch: seq<nat>)
    requires |b'| == |b| && forall x: nat :: x < |b| && b'[x] != b[x] ==> InFat(lay, x)
    ensures OnlyOwnChanged(lay, b, b', ch)
    ensures SameSectors(b, b', lay.DataGeometry().lo, lay.DataGeometry().hi)
  {
  }

  /** Data write-backs stay clear of both FAT copies. */
  lemma DataSparesFat(lay: Layout, b: seq<Byte>, b': seq<Byte>, slots: seq<Slot>)
    requires Coherent(lay.DataGeometry(), b, slots) && OnlyCachedChanged(lay.DataGeometry(), b, b', slots)
    ensures SameSectors(b, b', lay.FatStart(), lay.base + lay.FirstDataSector())
    ensures SameSectors(b, b', 0, lay.base + lay.FirstDataSector())
  {
  }

  lemma CachedUpTo(lay: Layout, slots: seq<Slot>, ch: seq<nat>, ch': seq<nat>)
    requires CachedIn(lay, slots, ch) && ch <= ch'
    ensures CachedIn(lay, slots, ch')
  {
    forall i | 0 <= i < |slots| && slots[i].cur != NO_BLOCK
      ensures exists d :: d in ch' && d >= 2 && slots[i].cur == lay.Tag(d)
    {
      var d :| d in ch && d >= 2 && slots[i].cur == lay.Tag(d);
      var j :| 0 <= j < |ch| && ch[j] == d;
      assert ch'[j] == d;
    }
  }

  lemma CachedSame(lay: Layout, s: seq<Slot>, s': seq<Slot>, ch: seq<nat>)
    requires CachedIn(lay, s, ch) && SameTags(s, s')
    ensures CachedIn(lay, s', ch)
  {
    forall i | 0 <= i < |s'| && s'[i].cur != NO_BLOCK
      ensures exists d :: d in ch && d >= 2 && s'[i].cur == lay.Tag(d)
    {
      assert s[i].cur == s'[i].cur;
    }
  }

  lemma NotCached(lay: Layout, slots: seq<Slot>, ch: seq<nat>, c: nat)
    requires lay.WellFormed() && CachedIn(lay, slots, ch) && 2 <= c < lay.Entries() && c !in ch
    ensures Find(slots, lay.Tag(c)) == |slots|
    ensures forall i :: 0 <= i < |slots| ==> slots[i].cur != lay.Tag(c)
  {
    lay.TagIsSector(c);
    forall i | 0 <= i < |slots| ensures slots[i].cur != lay.Tag(c) {
      if slots[i].cur != NO_BLOCK {
        var d :| d in ch && d >= 2 && slots[i].cur == lay.Tag(d);
        lay.ClustersApart(c, d);
      }
    }
  }

  /** Erasing a cluster that is not the file's shows as zeros there and nowhere else. */
  lemma ErasureSeen(lay: Layout, b: seq<Byte>, b': seq<Byte>, slots: seq<Slot>, ch: seq<nat>, c: nat)
    requires lay.WellFormed() && Coherent(lay.DataGeometry(), b, slots)
    requires CachedIn(lay, slots, ch) && 2 <= c < lay.Entries() && c !in ch
    requires OnlyOwnChanged(lay, b, b', [c])
    requires Block(b', lay.Tag(c), lay.sectorsPerCluster) == Zeros(lay.ClusterBytes())
    ensures Coherent(lay.DataGeometry(), b', slots)
    ensures Image(lay.DataGeometry(), b', slots) == Image(lay.DataGeometry(), b, slots)[lay.Tag(c) := Zeros(lay.ClusterBytes())]
  {
    var g := lay.DataGeometry();
    lay.TagIsSector(c);
    NotCached(lay, slots, ch, c);
    forall a: nat | IsTag(g, a) && a != lay.Tag(c) ensures Block(b', a, g.unit) == Block(b, a, g.unit) {
      TagsApart(g, a, lay.Tag(c));
    }
    CachedBlocksKept(g, b, b', slots);
  }

  lemma ZerosJoin(m: nat, n: nat)
    ensures Zeros(m) + Zeros(n) == Zeros(m + n)
  {
  }

  // --------------------------------------------------------- directory sectors

  /** The directory cache holds directory sectors only. */
  ghost predicate CachesOnly(slots: seq<Slot>, secs: set<nat>) {
    forall i :: 0 <= i < |slots| && slots[i].cur != NO_BLOCK ==> slots[i].cur in secs
  }

  /** No directory sector belongs to a cluster of the chain. */
  ghost predicate Away(lay: Layout, secs: set<nat>, ch: seq<nat>) {
    forall s, c :: s in secs && c in ch ==> c >= 2 && (s < lay.Tag(c) || lay.Tag(c) + lay.sectorsPerCluster <= s)
  }

  /** Writing the file's own clusters back does not disturb the directory cache. */
  lemma DirSurvives(lay: Layout, b: seq<Byte>, b': seq<Byte>, slots: seq<Slot>, secs: set<nat>, ch: seq<nat>)
    requires Coherent(lay.DirGeometry(), b, slots) && OnlyOwnChanged(lay, b, b', ch)
    requires CachesOnly(slots, secs) && Away(lay, secs, ch)
    ensures Coherent(lay.DirGeometry(), b', slots)
    ensures SameOn(secs, Image(lay.DirGeometry(), b, slots), Image(lay.DirGeometry(), b', slots))
  {
    var g := lay.DirGeometry();
    forall a: nat | a in secs && IsTag(g, a) ensures Block(b', a, 1) == Block(b, a, 1) {
      forall x: nat | 512 * a <= x < 512 * (a + 1) ensures b'[x] == b[x] {
        forall c | c in ch ensures !InCluster(lay, c, x) { }
      }
    }
    CachedBlocksKept(g, b, b', slots);
  }

  /** Two directory views agree on the directory sectors. */
  ghost predicate SameOn(secs: set<nat>, v: map<nat, seq<Byte>>, v': map<nat, seq<Byte>>) {
    forall a: nat :: a in secs && a in v ==> a in v' && v'[a] == v[a]
  }
}
