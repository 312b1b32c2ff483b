/** Index arithmetic of the coalescing loop, and the free lists while init_buddy
    releases the pages one by one. */
module BuddyInit {
  import opened Bits
  import opened BuddyBlocks
  import opened BuddyState
  import opened BuddySpec

  lemma BlockSizeIsPow2(o: nat)
    requires o <= MAX_BUDDY_ORDER
    ensures BlockSize(o) == Pow2(o)
  {
    assert Pow2(0) == 1 && Pow2(1) == 2 && Pow2(2) == 4 && Pow2(3) == 8 && Pow2(4) == 16;
  }

  lemma OffsetAligned(base: nat, i: nat, o: nat)
    requires o <= MAX_BUDDY_ORDER && base % BlockSize(MAX_BUDDY_ORDER) == 0
    ensures (base + i) % BlockSize(o) == i % BlockSize(o)
  {
    Coarser(base, o, MAX_BUDDY_ORDER);
    var a := BlockSize(o);
    SumMod(base / a, i, a);
  }

  lemma SumMod(k: nat, i: nat, a: nat)
    requires a > 0
    ensures (k * a + i) % a == i % a
  {
    assert k * a + i == (k + i / a) * a + i % a;
    DivModUnique(k * a + i, a, k + i / a, i % a);
  }

  lemma XorIndex(i: nat, o: nat)
    requires o < MAX_BUDDY_ORDER && i % BlockSize(o) == 0
    ensures var a := BlockSize(o);
      && (i % (2 * a) == 0 ==> Xor(i, Pow2(o)) == i + a && And(i + a, i) == i)
      && (i % (2 * a) != 0 ==> i >= a && Xor(i, Pow2(o)) == i - a && And(i - a, i) == i - a)
  {
    var a := BlockSize(o);
    BlockSizeIsPow2(o);
    BitIsDiv(i, o);
    ModDouble(i, a);
    Regroup(0, i / a % 2, a);
    XorPow2(i, o);
    if Bit(i, o) == 0 { AndClearBit(i, o); } else { AndSetBit(i, o); }
  }

  /** pageIndex ^ (1 << order) is the buddy and its conjunction with pageIndex the
      start of the enclosing window, for indices relative to the region start. */
  lemma XorIsBuddy(base: nat, i: nat, o: nat)
    requires o < MAX_BUDDY_ORDER && base % BlockSize(MAX_BUDDY_ORDER) == 0 && i % BlockSize(o) == 0
    ensures Aligned(base + i, o)
    ensures base + Xor(i, Pow2(o)) == BuddyOf(base + i, o)
    ensures base + And(Xor(i, Pow2(o)), i) == Window(base + i, o + 1)
  {
    hide Xor;
    hide And;
    hide Bit;
    OffsetAligned(base, i, o);
    OffsetAligned(base, i, o + 1);
    XorIndex(i, o);
    PairModulo(i, BlockSize(o));
  }

  // ------------------------------------------------------ the start of the region

  /** The highest end address of the boot regions; 0 if there is none. */
  function LastBootByte(ends: seq<nat>): (m: nat)
    ensures forall i :: 0 <= i < |ends| ==> ends[i] <= m
    ensures (ends == [] && m == 0) || m in ends
  {
    if ends == [] then 0
    else
      var n := |ends| - 1;
      var m := LastBootByte(ends[..n]);
      assert forall i :: 0 <= i < n ==> ends[i] == ends[..n][i];
      if ends[n] > m then ends[n] else m
  }

  /** The last page the boot allocator has handed out. */
  function LastBootPage(ends: seq<nat>): nat {
    LastBootByte(ends) / 4096
  }

  /** Where init_buddy starts the region: at the last boot page, rounded up. */
  function RegionStart(ends: seq<nat>): nat
    requires forall i :: 0 <= i < |ends| ==> ends[i] < WORD
  {
    ClearLow(LastBootPage(ends) + 15, MAX_BUDDY_ORDER)
  }

  /** A non-empty region contains no boot region's last page if and only if the highest
      one is not a multiple of 16.  If it is, the region starts with it. */
  lemma RegionAvoidsIff(ends: seq<nat>, hi: nat)
    requires forall i :: 0 <= i < |ends| ==> ends[i] < WORD
    ensures RegionStart(ends) % 16 == 0
    ensures LastBootPage(ends) <= RegionStart(ends) < LastBootPage(ends) + 16
    ensures LastBootPage(ends) == RegionStart(ends) <==> LastBootPage(ends) % 16 == 0
    ensures RegionStart(ends) < hi ==>
      ((forall i :: 0 <= i < |ends| ==> ends[i] / 4096 !in Interval(RegionStart(ends), hi))
        <==> ends == [] || LastBootPage(ends) % 16 != 0)
  {
    hide ClearLow;
    hide And;
    hide Pow2;
    Pow2Values();
    var k, start := LastBootPage(ends), RegionStart(ends);
    hide LastBootByte;
    if k % 16 != 0 {
      forall i | 0 <= i < |ends| ensures ends[i] / 4096 < start { DivMonotone(ends[i], LastBootByte(ends)); }
    } else if ends != [] {
      var i :| 0 <= i < |ends| && ends[i] == LastBootByte(ends);
      assert ends[i] / 4096 == start;
    }
  }

  lemma DivMonotone(a: nat, b: nat)
    requires a <= b
    ensures a / 4096 <= b / 4096
  {
  }

  /** A failing input: a boot region that ends with page 4096.  The region starts there. */
  lemma BootPageInRegion()
    ensures var ends := [0x100_0FFF]; LastBootPage(ends) == 4096 && RegionStart(ends) == 4096
  {
    hide ClearLow;
    hide LastBootByte;
    hide RegionStart;
    var ends := [0x100_0FFF];
    assert ends[0] == 0x100_0FFF;
    RegionAvoidsIff(ends, 0);
  }

  /** Another one: on a machine with 32896 pages, the kernel's 16 MB are followed by that
      many page records of 24 bytes, which end with page 4288.  The region starts there. */
  lemma PageRecordsInRegion()
    ensures (24 * 32896 + 4095) / 4096 == 193
    ensures var ends := [0xFF_FFFF, 0xFF_FFFF + 193 * 4096]; LastBootPage(ends) == 4288 && RegionStart(ends) == 4288
  {
    hide ClearLow;
    hide LastBootByte;
    hide RegionStart;
    var ends := [0xFF_FFFF, 0xFF_FFFF + 193 * 4096];
    assert ends[0] == 0xFF_FFFF && ends[1] == 0x10C_0FFF;
    RegionAvoidsIff(ends, 0);
  }

  // -------------------------------------------- init_buddy as a binary counter

  /** Pages lo..lo+i released, the others still handed out one by one. */
  ghost function Released(lo: nat, hi: nat, i: nat): State {
    var rest := Interval(lo + i, hi);
    State(lo, hi, map p: nat | p in rest :: 0)
  }

  lemma ReleasedFree(lo: nat, hi: nat, i: nat)
    requires lo % 16 == 0 && hi % 16 == 0 && lo + i <= hi
    ensures WellFormed(Released(lo, hi, i))
    ensures FreePages(Released(lo, hi, i)) == Interval(lo, lo + i)
  {
    var s := Released(lo, hi, i);
    forall q: nat | lo <= q < hi ensures Taken(s.outs, q) <==> lo + i <= q {
      if lo + i <= q { assert Between(lo + i, q, hi); assert q in s.outs && q in Range(q, s.outs[q]); }
    }
    forall p: nat | p in s.outs ensures Aligned(p, 0) { assert p % 1 == 0; }
  }

  lemma ReleaseNext(lo: nat, hi: nat, i: nat)
    requires lo + i < hi
    ensures lo + i in Released(lo, hi, i).outs && Released(lo, hi, i).outs[lo + i] == 0
    ensures AfterFree(Released(lo, hi, i), lo + i) == Released(lo, hi, i + 1)
  {
    assert Between(lo + i, lo + i, hi);
  }

  /** The start of the order-o block that the i-th bit contributes. */
  function DigitBlock(lo: nat, i: nat, o: nat): nat
    requires o < MAX_BUDDY_ORDER
  {
    lo + (i - i % BlockSize(o + 1))
  }

  lemma IntervalBlockIsDigit(lo: nat, i: nat, p: nat, o: nat)
    requires o < MAX_BUDDY_ORDER && lo % BlockSize(MAX_BUDDY_ORDER) == 0
    requires IsBlock(Interval(lo, lo + i), p, o)
    ensures i % BlockSize(o + 1) >= BlockSize(o) && p == DigitBlock(lo, i, o)
  {
    var f, a := Interval(lo, lo + i), BlockSize(o);
    var w := Window(p, o + 1);
    InsideInterval(f, lo, lo + i, p, o);
    Coarser(lo, o + 1, MAX_BUDDY_ORDER);
    Gap(lo, w, o + 1);
    InsideInterval(f, lo, lo + i, w, o + 1);
    RelativeMultiple(lo, w, i, 2 * a);
    PairModulo(p, a);
  }

  lemma DigitIsIntervalBlock(lo: nat, i: nat, o: nat)
    requires o < MAX_BUDDY_ORDER && lo % BlockSize(MAX_BUDDY_ORDER) == 0
    requires i % BlockSize(o + 1) >= BlockSize(o)
    ensures IsBlock(Interval(lo, lo + i), DigitBlock(lo, i, o), o)
  {
    var f, a := Interval(lo, lo + i), BlockSize(o);
    var p := DigitBlock(lo, i, o);
    ModDown(i, 2 * a);
    OffsetAligned(lo, i - i % (2 * a), o + 1);
    Coarser(p, o, o + 1);
    InsideInterval(f, lo, lo + i, p, o);
    InsideInterval(f, lo, lo + i, p, o + 1);
  }

  /** The blocks of an interval of i pages: below order 4, one block per set bit. */
  lemma IntervalBlocks(lo: nat, i: nat, p: nat, o: nat)
    requires o < MAX_BUDDY_ORDER && lo % BlockSize(MAX_BUDDY_ORDER) == 0
    ensures IsBlock(Interval(lo, lo + i), p, o) <==> i % BlockSize(o + 1) >= BlockSize(o) && p == DigitBlock(lo, i, o)
  {
    if IsBlock(Interval(lo, lo + i), p, o) { IntervalBlockIsDigit(lo, i, p, o); }
    if i % BlockSize(o + 1) >= BlockSize(o) { DigitIsIntervalBlock(lo, i, o); }
  }

  lemma InsideInterval(f: set<nat>, lo: nat, hi: nat, p: nat, o: nat)
    requires f == Interval(lo, hi) && o <= MAX_BUDDY_ORDER
    ensures Whole(f, p, o) <==> lo <= p && p + BlockSize(o) <= hi
  {
    assert p in Range(p, o) && p + BlockSize(o) - 1 in Range(p, o);
  }

  /** The multiple of d that i falls in, seen from an aligned base. */
  lemma RelativeMultiple(lo: nat, w: nat, i: nat, d: nat)
    requires d > 0 && lo % d == 0 && w % d == 0 && lo <= w <= lo + i < w + d
    ensures w == lo + (i - i % d)
  {
    var j := w / d - lo / d;
    assert w == d * (w / d) && lo == d * (lo / d);
    assert w - lo == j * d;
    assert j >= 0 by { if j < 0 { MulAtLeast(-j, d); } }
    DivModUnique(i, d, j, i - j * d);
  }

  lemma TopBlocks(lo: nat, i: nat, p: nat)
    requires lo % 16 == 0
    ensures IsBlock(Interval(lo, lo + i), p, MAX_BUDDY_ORDER) <==> lo <= p && p % 16 == 0 && p + 16 <= lo + i
  {
    InsideInterval(Interval(lo, lo + i), lo, lo + i, p, MAX_BUDDY_ORDER);
  }

  /** The order-4 blocks of an interval, highest first. */
  ghost function TopList(lo: nat, i: nat): (l: seq<nat>)
    ensures |l| == i / 16
  {
    seq(i / 16, j requires 0 <= j < i / 16 => lo + 16 * (i / 16 - 1 - j))
  }

  ghost function DigitList(lo: nat, i: nat, o: nat): seq<nat>
    requires o < MAX_BUDDY_ORDER
  {
    if i % BlockSize(o + 1) >= BlockSize(o) then [DigitBlock(lo, i, o)] else []
  }

  lemma TopListCanonical(lo: nat, i: nat)
    requires lo % 16 == 0
    ensures CanonicalAt(Interval(lo, lo + i), TopList(lo, i), MAX_BUDDY_ORDER)
  {
    var l := TopList(lo, i);
    forall p: nat ensures p in l <==> IsBlock(Interval(lo, lo + i), p, MAX_BUDDY_ORDER) {
      TopBlocks(lo, i, p);
      if lo <= p && p % 16 == 0 && p + 16 <= lo + i {
        var j := i / 16 - 1 - (p - lo) / 16;
        assert l[j] == p;
      }
    }
  }

  /** After i pages the free lists spell i in binary: i / 16 blocks of order 4 and,
      for each lower order, one block exactly when that bit of i is set. */
  lemma BinaryCounter(lo: nat, hi: nat, i: nat)
    requires lo % 16 == 0 && hi % 16 == 0 && lo + i <= hi
    ensures var ls := FreeLists(Released(lo, hi, i));
      && ls[MAX_BUDDY_ORDER] == TopList(lo, i)
      && forall o: nat :: o < MAX_BUDDY_ORDER ==> ls[o] == DigitList(lo, i, o) && |ls[o]| == Bit(i, o)
  {
    var s := Released(lo, hi, i);
    var f, ls := FreePages(s), FreeLists(s);
    ReleasedFree(lo, hi, i);
    FreeListsCanonical(s);
    TopListCanonical(lo, i);
    assert CanonicalAt(f, ls[4], 4);
    forall p: nat ensures p in ls[4] <==> p in TopList(lo, i) { assert p in ls[4] <==> IsBlock(f, p, 4); }
    SortedUnique(ls[4], TopList(lo, i), 4);
    forall o: nat | o < MAX_BUDDY_ORDER ensures ls[o] == DigitList(lo, i, o) && |ls[o]| == Bit(i, o) {
      assert CanonicalAt(f, ls[o], o);
      forall p: nat ensures p in ls[o] <==> p in DigitList(lo, i, o) {
        assert p in ls[o] <==> IsBlock(f, p, o);
        IntervalBlocks(lo, i, p, o);
      }
      SortedUnique(ls[o], DigitList(lo, i, o), o);
      BlockSizeIsPow2(o);
      BitIsDiv(i, o);
      Double(i, o);
    }
  }

  /** When the loop ends only order 4 is populated, with one block per 16 pages. */
  lemma InitComplete(lo: nat, hi: nat)
    requires lo % 16 == 0 && hi % 16 == 0 && lo <= hi
    ensures Released(lo, hi, hi - lo).outs == map[]
    ensures var ls := FreeLists(State(lo, hi, map[]));
      |ls[4]| == (hi - lo) / 16 && forall o: nat :: o < MAX_BUDDY_ORDER ==> ls[o] == []
  {
    var i := hi - lo;
    assert Released(lo, hi, i).outs == map[];
    BinaryCounter(lo, hi, i);
    var ls := FreeLists(State(lo, hi, map[]));
    forall o: nat | o < MAX_BUDDY_ORDER ensures ls[o] == [] {
      Coarser(i, o + 1, MAX_BUDDY_ORDER);
    }
  }
}
