/** The FAT as a table: little-endian fields, where an entry lies, and how writing
    one entry changes the table (Microsoft FAT32 File System Specification v1.03,
    "FAT Type Determination"). */
module FatTable {
  import opened Bits
  import opened BlockCache


  // ----------------------------------------------------- little-endian fields

  /** get_uint16_t and get_uint32_t: the lowest byte comes first. */
  function Get16(b: seq<Byte>, o: nat): (v: nat)
    requires o + 2 <= |b|
    ensures v < 0x1_0000
  {
    b[o] as nat + 0x100 * b[o + 1] as nat
  }

  function Get32(b: seq<Byte>, o: nat): (v: nat)
    requires o + 4 <= |b|
    ensures v < 0x1_0000_0000
  {
    b[o] as nat + 0x100 * (b[o + 1] as nat + 0x100 * (b[o + 2] as nat + 0x100 * b[o + 3] as nat))
  }

  /** set_uint16_t and set_uint32_t; a shift by 16 or 24 is repeated division by 256. */
  function Set16(b: seq<Byte>, o: nat, v: nat): (r: seq<Byte>)
    requires o + 2 <= |b| && v < 0x1_0000
    ensures |r| == |b|
    ensures r[o] == v % 0x100 && r[o + 1] == v / 0x100
    ensures forall k :: 0 <= k < |b| && !(o <= k < o + 2) ==> r[k] == b[k]
  {
    b[o := v % 0x100][o + 1 := v / 0x100 % 0x100]
  }

  function Set32(b: seq<Byte>, o: nat, v: nat): (r: seq<Byte>)
    requires o + 4 <= |b| && v < 0x1_0000_0000
    ensures |r| == |b|
    ensures r[o] == v % 0x100 && r[o + 1] == v / 0x100 % 0x100
    ensures r[o + 2] == v / 0x100 / 0x100 % 0x100 && r[o + 3] == v / 0x100 / 0x100 / 0x100
    ensures forall k :: 0 <= k < |b| && !(o <= k < o + 4) ==> r[k] == b[k]
  {
    b[o := v % 0x100][o + 1 := v / 0x100 % 0x100][o + 2 := v / 0x100 / 0x100 % 0x100][o + 3 := v / 0x100 / 0x100 / 0x100]
  }

  lemma Get16Set16(b: seq<Byte>, o: nat, v: nat)
    requires o + 2 <= |b| && v < 0x1_0000
    ensures Get16(Set16(b, o, v), o) == v
  {
  }

  lemma Get32Same(b: seq<Byte>, b': seq<Byte>, o: nat)
    requires o + 4 <= |b| == |b'| && forall k :: o <= k < o + 4 ==> b'[k] == b[k]
    ensures Get32(b', o) == Get32(b, o)
  {
  }

  lemma Get32Set32(b: seq<Byte>, o: nat, v: nat)
    requires o + 4 <= |b| && v < 0x1_0000_0000
    ensures Get32(Set32(b, o, v), o) == v
  {
    var x := v / 0x100;
    var y := x / 0x100;
    assert x == y % 0x100 * 0x100 + y / 0x100 * 0x1_0000 + x % 0x100;
  }

  /** Storing what was read changes no byte. */
  lemma SetGetIdentity(b: seq<Byte>, o: nat)
    requires o + 4 <= |b|
    ensures Set32(b, o, Get32(b, o)) == b
  {
    var z: nat := b[o + 3];
    var y := b[o + 2] as nat + 0x100 * z;
    var x := b[o + 1] as nat + 0x100 * y;
    var v := Get32(b, o);
    assert v == b[o] as nat + 0x100 * x;
    assert v / 0x100 == x && x / 0x100 == y && y / 0x100 == z;
  }

  // ---------------------------------------------------------------- the table

  /** The sector and the byte offset of cluster c's entry in a FAT that starts at lo. */
  function SectorOf(lo: nat, c: nat): nat {
    lo + c / 128
  }

  function OffsetOf(c: nat): (o: nat)
    ensures o + 4 <= 512
  {
    c % 128 * 4
  }

  /** The raw 32-bit entries 0..n of a FAT whose image starts at sector lo. */
  ghost predicate HoldsTable(img: map<nat, seq<Byte>>, lo: nat, n: nat) {
    forall c: nat :: c < n ==> SectorOf(lo, c) in img && |img[SectorOf(lo, c)]| == 512
  }

  ghost function EntryOf(img: map<nat, seq<Byte>>, lo: nat, n: nat, c: nat): (v: nat)
    requires HoldsTable(img, lo, n) && c < n
    ensures v < 0x1_0000_0000
  {
    Get32(img[SectorOf(lo, c)], OffsetOf(c))
  }

  ghost function RawOf(img: map<nat, seq<Byte>>, lo: nat, n: nat): (t: seq<nat>)
    requires HoldsTable(img, lo, n)
    ensures |t| == n && forall c :: 0 <= c < n ==> t[c] == EntryOf(img, lo, n, c) < 0x1_0000_0000
  {
    seq(n, c requires 0 <= c < n => EntryOf(img, lo, n, c))
  }

  /** value & 0x0FFFFFFF. */
  function Low28(v: nat): (r: nat)
    ensures r < 0x1000_0000
  {
    v % 0x1000_0000
  }

  /** The 28 bits that count. */
  ghost function FatOf(raw: seq<nat>): (fat: seq<nat>)
    ensures |fat| == |raw| && forall c :: 0 <= c < |raw| ==> fat[c] == Low28(raw[c])
  {
    seq(|raw|, c requires 0 <= c < |raw| => Low28(raw[c]))
  }

  /** fs_modify_fat keeps the top four bits. */
  function Merge(old_: nat, v: nat): (r: nat)
    ensures Low28(r) == Low28(v) && r / 0x1000_0000 == old_ / 0x1000_0000
    ensures old_ < 0x1_0000_0000 ==> r < 0x1_0000_0000
  {
    old_ - Low28(old_) + Low28(v)
  }

  /** The table with the 28 low bits of one entry replaced. */
  ghost function Modified(raw: seq<nat>, c: nat, v: nat): (r: seq<nat>)
    requires c < |raw|
    ensures |r| == |raw|
  {
    raw[c := Merge(raw[c], v)]
  }

  lemma ModifiedEntries(raw: seq<nat>, c: nat, v: nat)
    requires c < |raw|
    ensures FatOf(Modified(raw, c, v)) == FatOf(raw)[c := Low28(v)]
    ensures forall d :: 0 <= d < |raw| ==> Modified(raw, c, v)[d] / 0x1000_0000 == raw[d] / 0x1000_0000
    ensures forall d :: 0 <= d < |raw| && d != c ==> Modified(raw, c, v)[d] == raw[d]
  {
  }

  /** (x & 0xF0000000) | (v & 0x0FFFFFFF), the expression of fs_modify_fat. */
  lemma MergeIsBitwise(x: nat, v: nat)
    requires x < 0x1_0000_0000
    ensures And(v, Pow2(28) - 1) == Low28(v)
    ensures Or(ClearLow(x, 28), And(v, Pow2(28) - 1)) == Merge(x, v)
  {
    Pow2Values();
    AndLowMask(v, 28);
    OrDisjoint(ClearLow(x, 28), Low28(v), 28);
  }

  /** Writing one entry into its sector changes that entry of the table alone. */
  lemma SetEntry(img: map<nat, seq<Byte>>, lo: nat, n: nat, c: nat, v: nat)
    requires HoldsTable(img, lo, n) && c < n && v < 0x1_0000_0000
    requires SectorOf(lo, c) in img && |img[SectorOf(lo, c)]| == 512
    ensures var img' := img[SectorOf(lo, c) := Set32(img[SectorOf(lo, c)], OffsetOf(c), v)];
      HoldsTable(img', lo, n) && RawOf(img', lo, n) == RawOf(img, lo, n)[c := v]
  {
    var s := SectorOf(lo, c);
    var img' := img[s := Set32(img[s], OffsetOf(c), v)];
    assert HoldsTable(img', lo, n);
    forall d | 0 <= d < n ensures EntryOf(img', lo, n, d) == if d == c then v else EntryOf(img, lo, n, d) {
      Get32Set32(img[s], OffsetOf(c), v);
      if d != c && d / 128 == c / 128 { assert d % 128 != c % 128; }
    }
  }

  /** The FAT sectors after replacing the 28 low bits of one entry. */
  ghost function Rewritten(img: map<nat, seq<Byte>>, lo: nat, c: nat, value: nat): map<nat, seq<Byte>>
    requires SectorOf(lo, c) in img && |img[SectorOf(lo, c)]| == 512
  {
    var b := img[SectorOf(lo, c)];
    img[SectorOf(lo, c) := Set32(b, OffsetOf(c), Merge(Get32(b, OffsetOf(c)), value))]
  }

  /** ... so replacing the 28 low bits in the buffer replaces them in the table. */
  lemma MergeEntry(img: map<nat, seq<Byte>>, lo: nat, n: nat, c: nat, value: nat)
    requires HoldsTable(img, lo, n) && c < n
    requires SectorOf(lo, c) in img && |img[SectorOf(lo, c)]| == 512
    ensures HoldsTable(Rewritten(img, lo, c, value), lo, n)
    ensures RawOf(Rewritten(img, lo, c, value), lo, n) == Modified(RawOf(img, lo, n), c, value)
  {
    SetEntry(img, lo, n, c, Merge(EntryOf(img, lo, n, c), value));
  }

  /** cluster_to_fat_entry: the entry's sector and byte offset.  The shift is on 32 bits. */
  function FatSector(clus: nat, reserved: nat, base: nat): nat {
    reserved + clus * 4 % 0x1_0000_0000 / Pow2(9) + base
  }

  function FatOffset(clus: nat): nat {
    And(clus * 4 % 0x1_0000_0000, 511)
  }

  lemma EntryPlace(clus: nat, reserved: nat, base: nat)
    requires clus < 0x4000_0000
    ensures FatSector(clus, reserved, base) == SectorOf(base + reserved, clus)
    ensures FatOffset(clus) == OffsetOf(clus)
  {
    Pow2Values();
    var x := clus * 4;
    assert x % 0x1_0000_0000 == x;
    AndLowMask(x, 9);
    assert x % 512 == clus % 128 * 4 && x / 512 == clus / 128;
  }
}
