/** Disk blocks, cached slots, and what a cache shows of the disk, as values. */
module BlockCache {

  type Byte = b: nat | b < 256

  /** The tag of an empty slot. */
  const NO_BLOCK: nat := 0xFFFF_FFFF

  /** BUF_512 and BUF_4K: the data, the first sector it belongs to, and the two
      low bits of `state`. */
  datatype Slot = Slot(buf: seq<Byte>, cur: nat, referenced: bool, dirty: bool)

  /** What a cache may hold: blocks of `unit` sectors that start at lo, lo + unit,
      ... below hi; `mirror` is the distance to a second copy, or 0. */
  datatype Geometry = Geometry(unit: nat, mirror: nat, lo: nat, hi: nat)

  /** k * u for the block sizes in use: 1, 2, 4 or 8 sectors. */
  function Scale(k: nat, u: nat): nat {
    if u == 1 then k else if u == 2 then 2 * k else if u == 4 then 4 * k else 8 * k
  }

  predicate IsUnit(u: nat) {
    u == 1 || u == 2 || u == 4 || u == 8
  }

  predicate OnGrid(k: nat, u: nat) {
    if u == 1 then true else if u == 2 then k % 2 == 0 else if u == 4 then k % 4 == 0 else k % 8 == 0
  }

  ghost predicate IsTag(g: Geometry, a: nat) {
    IsUnit(g.unit) && g.lo <= a && a + g.unit <= g.hi && OnGrid(a - g.lo, g.unit)
  }

  ghost function Tags(g: Geometry): set<nat> {
    set a: nat | g.lo <= a < g.hi && IsTag(g, a)
  }

  function Zeros(n: nat): (z: seq<Byte>)
    ensures |z| == n && forall i :: 0 <= i < n ==> z[i] == 0
  {
    seq(n, _ => 0)
  }

  /** count sectors of the disk, from sector a. */
  function Block(bytes: seq<Byte>, a: nat, count: nat): (b: seq<Byte>)
    requires 512 * (a + count) <= |bytes|
    ensures |b| == 512 * count
  {
    bytes[512 * a..512 * (a + count)]
  }

  /** s with its bytes from o on replaced by b. */
  function Splice(s: seq<Byte>, o: nat, b: seq<Byte>): (r: seq<Byte>)
    requires o + |b| <= |s|
    ensures |r| == |s|
  {
    s[..o] + b + s[o + |b|..]
  }

  /** The sectors from a on overwritten. */
  function WriteAt(bytes: seq<Byte>, a: nat, buf: seq<Byte>): (r: seq<Byte>)
    requires 512 * a + |buf| <= |bytes|
    ensures |r| == |bytes|
  {
    Splice(bytes, 512 * a, buf)
  }

  lemma WriteAtByte(bytes: seq<Byte>, a: nat, buf: seq<Byte>, x: nat)
    requires 512 * a + |buf| <= |bytes| && x < |bytes|
    ensures WriteAt(bytes, a, buf)[x] ==
      if 512 * a <= x < 512 * a + |buf| then buf[x - 512 * a] else bytes[x]
  {
  }

  lemma WriteThenBlock(bytes: seq<Byte>, a: nat, buf: seq<Byte>, n: nat)
    requires 512 * (a + n) <= |bytes| && |buf| == 512 * n
    ensures Block(WriteAt(bytes, a, buf), a, n) == buf
  {
  }

  /** Sectors lo..hi hold the same bytes on both disks. */
  ghost predicate SameSectors(b: seq<Byte>, b': seq<Byte>, lo: nat, hi: nat) {
    |b| == |b'| && forall x :: 512 * lo <= x < 512 * hi && x < |b| ==> b[x] == b'[x]
  }

  lemma SameBlock(b: seq<Byte>, b': seq<Byte>, lo: nat, hi: nat, a: nat, n: nat)
    requires SameSectors(b, b', lo, hi) && lo <= a && a + n <= hi && 512 * hi <= |b|
    ensures Block(b, a, n) == Block(b', a, n)
  {
  }

  lemma WriteElsewhere(bytes: seq<Byte>, a: nat, buf: seq<Byte>, lo: nat, hi: nat)
    requires 512 * a + |buf| <= |bytes|
    requires 512 * a + |buf| <= 512 * lo || hi <= a
    ensures SameSectors(bytes, WriteAt(bytes, a, buf), lo, hi)
  {
    forall x | 512 * lo <= x < 512 * hi && x < |bytes|
      ensures bytes[x] == WriteAt(bytes, a, buf)[x]
    {
      WriteAtByte(bytes, a, buf, x);
    }
  }

  /** Different tags are at least a unit apart. */
  lemma TagsApart(g: Geometry, a: nat, b: nat)
    requires IsTag(g, a) && IsTag(g, b) && a != b
    ensures a + g.unit <= b || b + g.unit <= a
  {
  }

  /** The search of fs_read_* from slot i on: the first slot tagged a, or |slots|. */
  function FindFrom(slots: seq<Slot>, a: nat, i: nat): (k: nat)
    requires i <= |slots|
    ensures i <= k <= |slots|
    ensures k < |slots| ==> slots[k].cur == a
    ensures forall j :: i <= j < k ==> slots[j].cur != a
    decreases |slots| - i
  {
    if i == |slots| || slots[i].cur == a then i else FindFrom(slots, a, i + 1)
  }

  function Find(slots: seq<Slot>, a: nat): (k: nat)
    ensures k <= |slots|
    ensures k < |slots| ==> slots[k].cur == a
    ensures forall j :: 0 <= j < k ==> slots[j].cur != a
  {
    FindFrom(slots, a, 0)
  }

  lemma FindIs(slots: seq<Slot>, a: nat, i: nat)
    requires i <= |slots| && (i < |slots| ==> slots[i].cur == a)
    requires forall j :: 0 <= j < i ==> slots[j].cur != a
    ensures Find(slots, a) == i
  {
  }

  /** The slots and the disk fit together: at most one slot per block, clean slots
      equal the disk, and the mirror equals the original. */
  ghost predicate Coherent(g: Geometry, bytes: seq<Byte>, slots: seq<Slot>) {
    && IsUnit(g.unit) && g.hi < NO_BLOCK
    && 512 * g.hi <= |bytes|
    && (g.mirror != 0 ==> g.lo + g.mirror >= g.hi && 512 * (g.hi + g.mirror) <= |bytes|)
    && (forall i :: 0 <= i < |slots| ==> |slots[i].buf| == 512 * g.unit)
    && (forall i :: 0 <= i < |slots| && slots[i].cur != NO_BLOCK ==> IsTag(g, slots[i].cur))
    && (forall i, j :: 0 <= i < j < |slots| && slots[i].cur != NO_BLOCK ==> slots[i].cur != slots[j].cur)
    && (forall i :: 0 <= i < |slots| && slots[i].cur != NO_BLOCK && !slots[i].dirty ==>
          slots[i].buf == Block(bytes, slots[i].cur, g.unit))
    && (g.mirror != 0 ==> forall a: nat :: IsTag(g, a) ==> Block(bytes, a, g.unit) == Block(bytes, a + g.mirror, g.unit))
  }

  /** What the cache shows of block a: the slot if cached, else the disk. */
  ghost function View(g: Geometry, bytes: seq<Byte>, slots: seq<Slot>, a: nat): seq<Byte>
    requires IsTag(g, a) && 512 * g.hi <= |bytes|
  {
    if Find(slots, a) < |slots| then slots[Find(slots, a)].buf else Block(bytes, a, g.unit)
  }

  /** The whole view: content by block. */
  ghost function Image(g: Geometry, bytes: seq<Byte>, slots: seq<Slot>): (m: map<nat, seq<Byte>>)
    requires 512 * g.hi <= |bytes|
    ensures forall a: nat :: a in m <==> IsTag(g, a)
    ensures forall a: nat :: IsTag(g, a) ==> m[a] == View(g, bytes, slots, a)
  {
    map a: nat | a in Tags(g) :: View(g, bytes, slots, a)
  }

  lemma FoundAt(g: Geometry, bytes: seq<Byte>, slots: seq<Slot>, i: nat)
    requires Coherent(g, bytes, slots) && i < |slots| && slots[i].cur != NO_BLOCK
    ensures Find(slots, slots[i].cur) == i
  {
  }

  lemma FrameCoherent(g: Geometry, b: seq<Byte>, b': seq<Byte>, slots: seq<Slot>)
    requires Coherent(g, b, slots) && SameSectors(b, b', g.lo, g.hi)
    requires g.mirror != 0 ==> SameSectors(b, b', g.lo + g.mirror, g.hi + g.mirror)
    ensures Coherent(g, b', slots)
  {
    forall i | 0 <= i < |slots| && slots[i].cur != NO_BLOCK && !slots[i].dirty
      ensures slots[i].buf == Block(b', slots[i].cur, g.unit)
    {
      SameBlock(b, b', g.lo, g.hi, slots[i].cur, g.unit);
    }
    if g.mirror != 0 {
      forall a: nat | IsTag(g, a) ensures Block(b', a, g.unit) == Block(b', a + g.mirror, g.unit) {
        SameBlock(b, b', g.lo, g.hi, a, g.unit);
        SameBlock(b, b', g.lo + g.mirror, g.hi + g.mirror, a + g.mirror, g.unit);
      }
    }
  }

  /** The image depends only on the sectors of the cache's own range. */
  lemma ImageFrame(g: Geometry, b: seq<Byte>, b': seq<Byte>, slots: seq<Slot>)
    requires Coherent(g, b, slots) && SameSectors(b, b', g.lo, g.hi)
    requires g.mirror != 0 ==> SameSectors(b, b', g.lo + g.mirror, g.hi + g.mirror)
    ensures Coherent(g, b', slots)
    ensures Image(g, b', slots) == Image(g, b, slots)
  {
    FrameCoherent(g, b, b', slots);
    forall a: nat | IsTag(g, a) ensures View(g, b', slots, a) == View(g, b, slots, a) {
      SameBlock(b, b', g.lo, g.hi, a, g.unit);
    }
  }

  // ------------------------------------------------------------- write-back

  /** The disk after writing a slot back, to both copies. */
  ghost function WrittenBack(g: Geometry, bytes: seq<Byte>, s: Slot): (r: seq<Byte>)
    requires 512 * s.cur + |s.buf| <= |bytes|
    requires g.mirror != 0 ==> 512 * (s.cur + g.mirror) + |s.buf| <= |bytes|
    ensures |r| == |bytes|
  {
    var b := WriteAt(bytes, s.cur, s.buf);
    if g.mirror == 0 then b else WriteAt(b, s.cur + g.mirror, s.buf)
  }

  /** x lies in the block of a slot, or in its mirror. */
  ghost predicate InBlock(g: Geometry, a: nat, x: nat) {
    || 512 * a <= x < 512 * (a + g.unit)
    || (g.mirror != 0 && 512 * (a + g.mirror) <= x < 512 * (a + g.mirror + g.unit))
  }

  lemma WrittenBackByte(g: Geometry, bytes: seq<Byte>, s: Slot, x: nat)
    requires IsTag(g, s.cur) && |s.buf| == 512 * g.unit && x < |bytes|
    requires 512 * g.hi <= |bytes|
    requires g.mirror != 0 ==> 512 * (g.hi + g.mirror) <= |bytes|
    ensures !InBlock(g, s.cur, x) ==> WrittenBack(g, bytes, s)[x] == bytes[x]
  {
    WriteAtByte(bytes, s.cur, s.buf, x);
    if g.mirror != 0 { WriteAtByte(WriteAt(bytes, s.cur, s.buf), s.cur + g.mirror, s.buf, x); }
  }

  lemma BlockAfterWrite(bytes: seq<Byte>, c: nat, buf: seq<Byte>, a: nat, n: nat)
    requires 512 * (c + n) <= |bytes| && 512 * (a + n) <= |bytes| && |buf| == 512 * n
    requires a == c || a + n <= c || c + n <= a
    ensures Block(WriteAt(bytes, c, buf), a, n) == if a == c then buf else Block(bytes, a, n)
  {
    if a == c {
      WriteThenBlock(bytes, a, buf, n);
    } else {
      WriteElsewhere(bytes, c, buf, a, a + n);
      SameBlock(bytes, WriteAt(bytes, c, buf), a, a + n, a, n);
    }
  }

  lemma WrittenBackBlock(g: Geometry, bytes: seq<Byte>, s: Slot, a: nat)
    requires IsTag(g, s.cur) && |s.buf| == 512 * g.unit && IsTag(g, a)
    requires 512 * g.hi <= |bytes|
    requires g.mirror != 0 ==> g.lo + g.mirror >= g.hi && 512 * (g.hi + g.mirror) <= |bytes|
    ensures var r := WrittenBack(g, bytes, s);
      Block(r, a, g.unit) == if a == s.cur then s.buf else Block(bytes, a, g.unit)
  {
    var b := WriteAt(bytes, s.cur, s.buf);
    if a != s.cur { TagsApart(g, a, s.cur); }
    BlockAfterWrite(bytes, s.cur, s.buf, a, g.unit);
    if g.mirror != 0 { BlockAfterWrite(b, s.cur + g.mirror, s.buf, a, g.unit); }
  }

  lemma WrittenBackMirror(g: Geometry, bytes: seq<Byte>, s: Slot, a: nat)
    requires IsTag(g, s.cur) && |s.buf| == 512 * g.unit && IsTag(g, a)
    requires 512 * g.hi <= |bytes| && g.mirror != 0
    requires g.lo + g.mirror >= g.hi && 512 * (g.hi + g.mirror) <= |bytes|
    ensures var r, m := WrittenBack(g, bytes, s), a + g.mirror;
      Block(r, m, g.unit) == if a == s.cur then s.buf else Block(bytes, m, g.unit)
  {
    hide Block;
    hide WriteAt;
    if a != s.cur { TagsApart(g, a, s.cur); }
    SecondCopy(bytes, s.cur, g.mirror, s.buf, a, g.unit);
  }

  lemma SecondCopy(bytes: seq<Byte>, c: nat, m: nat, buf: seq<Byte>, a: nat, n: nat)
    requires 512 * (c + m + n) <= |bytes| && 512 * (a + m + n) <= |bytes| && |buf| == 512 * n
    requires a == c || a + n <= c || c + n <= a
    requires c + n <= a + m
    ensures Block(WriteAt(WriteAt(bytes, c, buf), c + m, buf), a + m, n) == if a == c then buf else Block(bytes, a + m, n)
  {
    hide Block;
    hide WriteAt;
    BlockAfterWrite(bytes, c, buf, a + m, n);
    BlockAfterWrite(WriteAt(bytes, c, buf), c + m, buf, a + m, n);
  }

  lemma FindUpdate(slots: seq<Slot>, i: nat, s: Slot, a: nat)
    requires i < |slots| && s.cur == slots[i].cur
    ensures Find(slots[i := s], a) == Find(slots, a)
  {
    SameFind(slots, slots[i := s], a);
  }

  lemma WriteBackCoherent(g: Geometry, bytes: seq<Byte>, slots: seq<Slot>, i: nat)
    requires Coherent(g, bytes, slots) && i < |slots| && slots[i].cur != NO_BLOCK
    ensures Coherent(g, WrittenBack(g, bytes, slots[i]), slots[i := slots[i].(dirty := false)])
  {
    var b, s := WrittenBack(g, bytes, slots[i]), slots[i := slots[i].(dirty := false)];
    forall j | 0 <= j < |s| && s[j].cur != NO_BLOCK && !s[j].dirty
      ensures s[j].buf == Block(b, s[j].cur, g.unit)
    {
      WrittenBackBlock(g, bytes, slots[i], s[j].cur);
    }
    if g.mirror != 0 {
      forall a: nat | IsTag(g, a) ensures Block(b, a, g.unit) == Block(b, a + g.mirror, g.unit) {
        WrittenBackBlock(g, bytes, slots[i], a);
        WrittenBackMirror(g, bytes, slots[i], a);
      }
    }
  }

  /** Writing a slot back and marking it clean keeps coherence and the image. */
  lemma WriteBackTransparent(g: Geometry, bytes: seq<Byte>, slots: seq<Slot>, i: nat)
    requires Coherent(g, bytes, slots) && i < |slots| && slots[i].cur != NO_BLOCK
    ensures var b, s := WrittenBack(g, bytes, slots[i]), slots[i := slots[i].(dirty := false)];
      Coherent(g, b, s) && Image(g, b, s) == Image(g, bytes, slots)
  {
    WriteBackCoherent(g, bytes, slots, i);
    var b, s := WrittenBack(g, bytes, slots[i]), slots[i := slots[i].(dirty := false)];
    FoundAt(g, bytes, slots, i);
    forall a: nat | IsTag(g, a) ensures View(g, b, s, a) == View(g, bytes, slots, a) {
      WrittenBackBlock(g, bytes, slots[i], a);
      FindUpdate(slots, i, s[i], a);
    }
  }

  /** fs_write_* of slot i: the disk and the slots afterwards. */
  ghost function FlushedDisk(g: Geometry, bytes: seq<Byte>, slots: seq<Slot>, i: nat): seq<Byte>
    requires Coherent(g, bytes, slots) && i < |slots|
  {
    if slots[i].cur != NO_BLOCK && slots[i].dirty then WrittenBack(g, bytes, slots[i]) else bytes
  }

  ghost function FlushedSlots(slots: seq<Slot>, i: nat): (r: seq<Slot>)
    requires i < |slots|
    ensures |r| == |slots|
  {
    if slots[i].cur != NO_BLOCK && slots[i].dirty then slots[i := slots[i].(dirty := false)] else slots
  }

  /** Every byte that differs lies in a cached block or its mirror. */
  ghost predicate OnlyCachedChanged(g: Geometry, b: seq<Byte>, b': seq<Byte>, slots: seq<Slot>) {
    && |b'| == |b|
    && forall x: nat :: x < |b| && b'[x] != b[x] ==>
         exists i :: 0 <= i < |slots| && slots[i].cur != NO_BLOCK && InBlock(g, slots[i].cur, x)
  }

  /** A slot that can be handed over without losing data. */
  predicate Evictable(s: Slot) {
    s.cur == NO_BLOCK || !s.dirty
  }

  /** The tags in use do not change. */
  ghost predicate SameTags(s: seq<Slot>, s': seq<Slot>) {
    |s| == |s'| && forall i :: 0 <= i < |s| ==> s[i].cur == s'[i].cur
  }

  /** Tags in use are old ones, or a. */
  ghost predicate TagsGrowBy(s: seq<Slot>, s': seq<Slot>, a: nat) {
    |s| == |s'| && forall i :: 0 <= i < |s| ==> s'[i].cur == s[i].cur || s'[i].cur == a
  }

  lemma OnlyCachedTrans(g: Geometry, b0: seq<Byte>, b1: seq<Byte>, b2: seq<Byte>, s: seq<Slot>, s': seq<Slot>)
    requires SameTags(s, s') && OnlyCachedChanged(g, b0, b1, s) && OnlyCachedChanged(g, b1, b2, s')
    ensures OnlyCachedChanged(g, b0, b2, s)
  {
    forall x: nat | x < |b0| && b2[x] != b0[x]
      ensures exists i :: 0 <= i < |s| && s[i].cur != NO_BLOCK && InBlock(g, s[i].cur, x)
    {
      if b1[x] == b0[x] {
        var i :| 0 <= i < |s'| && s'[i].cur != NO_BLOCK && InBlock(g, s'[i].cur, x);
        assert s[i].cur == s'[i].cur;
      }
    }
  }

  lemma FlushTransparent(g: Geometry, bytes: seq<Byte>, slots: seq<Slot>, i: nat)
    requires Coherent(g, bytes, slots) && i < |slots|
    ensures var b, s := FlushedDisk(g, bytes, slots, i), FlushedSlots(slots, i);
      && Coherent(g, b, s) && Image(g, b, s) == Image(g, bytes, slots)
      && Evictable(s[i]) && OnlyCachedChanged(g, bytes, b, slots)
  {
    if slots[i].cur != NO_BLOCK && slots[i].dirty {
      WriteBackTransparent(g, bytes, slots, i);
      var b := WrittenBack(g, bytes, slots[i]);
      forall x: nat | x < |bytes| && b[x] != bytes[x] ensures InBlock(g, slots[i].cur, x) {
        WrittenBackByte(g, bytes, slots[i], x);
      }
    }
  }

  lemma LoadCoherent(g: Geometry, bytes: seq<Byte>, slots: seq<Slot>, i: nat, a: nat, referenced: bool)
    requires Coherent(g, bytes, slots) && i < |slots| && IsTag(g, a) && Find(slots, a) == |slots|
    ensures Coherent(g, bytes, slots[i := Slot(Block(bytes, a, g.unit), a, referenced, false)])
  {
  }

  /** Reusing a clean slot for an uncached block keeps coherence and the image. */
  lemma LoadTransparent(g: Geometry, bytes: seq<Byte>, slots: seq<Slot>, i: nat, a: nat, referenced: bool)
    requires Coherent(g, bytes, slots) && i < |slots| && IsTag(g, a) && Find(slots, a) == |slots|
    requires Evictable(slots[i])
    ensures var s := slots[i := Slot(Block(bytes, a, g.unit), a, referenced, false)];
      Coherent(g, bytes, s) && Image(g, bytes, s) == Image(g, bytes, slots)
  {
    var s := slots[i := Slot(Block(bytes, a, g.unit), a, referenced, false)];
    LoadCoherent(g, bytes, slots, i, a, referenced);
    forall c: nat | IsTag(g, c) ensures View(g, bytes, s, c) == View(g, bytes, slots, c) {
      FindLoad(g, bytes, slots, i, a, s[i], c);
    }
  }

  /** No slot but i is tagged a. */
  ghost predicate HeldOnlyBy(slots: seq<Slot>, a: nat, i: int) {
    forall j :: 0 <= j < |slots| && j != i ==> slots[j].cur != a
  }

  lemma SameHolders(s: seq<Slot>, s': seq<Slot>, a: nat, i: int)
    requires SameTags(s, s')
    ensures HeldOnlyBy(s, a, i) <==> HeldOnlyBy(s', a, i)
  {
  }

  /** When a clean slot may be turned into a block of zeros. */
  lemma ClearCoherentIff(g: Geometry, bytes: seq<Byte>, slots: seq<Slot>, i: nat, a: nat)
    requires Coherent(g, bytes, slots) && i < |slots| && IsTag(g, a) && Evictable(slots[i])
    ensures var s := slots[i := Slot(Zeros(512 * g.unit), a, false, false)];
      && (Coherent(g, bytes, s) <==> Image(g, bytes, slots)[a] == Zeros(512 * g.unit) && HeldOnlyBy(slots, a, i))
      && (Coherent(g, bytes, s) ==> Image(g, bytes, s) == Image(g, bytes, slots))
  {
    if !HeldOnlyBy(slots, a, i) {
      var s := slots[i := Slot(Zeros(512 * g.unit), a, false, false)];
      var j :| 0 <= j < |slots| && j != i && slots[j].cur == a;
      assert s[j].cur == s[i].cur;
    } else if slots[i].cur == a {
      ClearOwn(g, bytes, slots, i, a);
    } else {
      assert Image(g, bytes, slots)[a] == View(g, bytes, slots, a) == Block(bytes, a, g.unit);
      if Block(bytes, a, g.unit) == Zeros(512 * g.unit) {
        LoadTransparent(g, bytes, slots, i, a, false);
      } else {
        assert slots[i := Slot(Zeros(512 * g.unit), a, false, false)][i].cur == a != NO_BLOCK;
      }
    }
  }

  lemma ClearOwn(g: Geometry, bytes: seq<Byte>, slots: seq<Slot>, i: nat, a: nat)
    requires Coherent(g, bytes, slots) && i < |slots| && IsTag(g, a) && Evictable(slots[i]) && slots[i].cur == a
    ensures var s := slots[i := Slot(Zeros(512 * g.unit), a, false, false)];
      && (Coherent(g, bytes, s) <==> Image(g, bytes, slots)[a] == Zeros(512 * g.unit))
      && (Coherent(g, bytes, s) ==> Image(g, bytes, s) == Image(g, bytes, slots))
  {
    var s := slots[i := Slot(Zeros(512 * g.unit), a, false, false)];
    FoundAt(g, bytes, slots, i);
    assert Image(g, bytes, slots)[a] == slots[i].buf == Block(bytes, a, g.unit);
    if slots[i].buf == Zeros(512 * g.unit) {
      ReferenceTransparent(g, bytes, slots, s);
    } else {
      assert s[i].cur == a != NO_BLOCK;
    }
  }

  lemma FindLoad(g: Geometry, bytes: seq<Byte>, slots: seq<Slot>, i: nat, a: nat, t: Slot, c: nat)
    requires Coherent(g, bytes, slots) && i < |slots| && Find(slots, a) == |slots| && t.cur == a
    requires IsTag(g, c)
    ensures Find(slots[i := t], c) ==
      if c == a then i else if Find(slots, c) == i then |slots| else Find(slots, c)
  {
    var k := Find(slots[i := t], c);
    if k < |slots| && k != i { assert slots[i := t][k] == slots[k]; }
    var j := Find(slots, c);
    if j < |slots| && j != i { assert slots[i := t][j] == slots[j]; }
    if c == a { assert slots[i := t][i].cur == c; }
  }

  lemma StoreCoherent(g: Geometry, bytes: seq<Byte>, slots: seq<Slot>, i: nat, buf: seq<Byte>)
    requires Coherent(g, bytes, slots) && i < |slots| && slots[i].cur != NO_BLOCK
    requires |buf| == |slots[i].buf|
    ensures Coherent(g, bytes, slots[i := Slot(buf, slots[i].cur, true, true)])
  {
  }

  /** Writing into a cached block changes the image at that block only. */
  lemma StoreImage(g: Geometry, bytes: seq<Byte>, slots: seq<Slot>, i: nat, buf: seq<Byte>)
    requires Coherent(g, bytes, slots) && i < |slots| && slots[i].cur != NO_BLOCK
    requires |buf| == |slots[i].buf|
    ensures var s := slots[i := Slot(buf, slots[i].cur, true, true)];
      Coherent(g, bytes, s) && Image(g, bytes, s) == Image(g, bytes, slots)[slots[i].cur := buf]
  {
    var s := slots[i := Slot(buf, slots[i].cur, true, true)];
    StoreCoherent(g, bytes, slots, i, buf);
    FoundAt(g, bytes, slots, i);
    forall a: nat | IsTag(g, a)
      ensures View(g, bytes, s, a) == if a == slots[i].cur then buf else View(g, bytes, slots, a)
    {
      FindUpdate(slots, i, s[i], a);
    }
  }

  /** Reference bits do not matter. */
  lemma ReferenceTransparent(g: Geometry, bytes: seq<Byte>, slots: seq<Slot>, s: seq<Slot>)
    requires Coherent(g, bytes, slots) && |s| == |slots|
    requires forall i :: 0 <= i < |slots| ==> s[i] == slots[i].(referenced := s[i].referenced)
    ensures Coherent(g, bytes, s) && Image(g, bytes, s) == Image(g, bytes, slots)
  {
    forall a: nat | IsTag(g, a) ensures View(g, bytes, s, a) == View(g, bytes, slots, a) {
      SameFind(slots, s, a);
    }
  }

  lemma SameFind(slots: seq<Slot>, s: seq<Slot>, a: nat)
    requires |s| == |slots| && forall i :: 0 <= i < |slots| ==> s[i].cur == slots[i].cur
    ensures Find(s, a) == Find(slots, a)
  {
  }

  /** Once every slot is clean the caches may be discarded: the disk shows the same. */
  lemma DiscardClean(g: Geometry, bytes: seq<Byte>, slots: seq<Slot>, s: seq<Slot>)
    requires Coherent(g, bytes, slots)
    requires forall i :: 0 <= i < |slots| ==> Evictable(slots[i])
    requires forall i :: 0 <= i < |s| ==> s[i].cur == NO_BLOCK && |s[i].buf| == 512 * g.unit
    ensures Coherent(g, bytes, s) && Image(g, bytes, s) == Image(g, bytes, slots)
  {
    forall a: nat | IsTag(g, a)
      ensures View(g, bytes, s, a) == Block(bytes, a, g.unit) == View(g, bytes, slots, a)
    {
    }
  }
}
