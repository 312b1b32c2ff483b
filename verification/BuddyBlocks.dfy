/** Canonical free blocks of the buddy system: which blocks a set of free pages
    decomposes into, and how that decomposition changes when one whole block
    leaves or enters the set. */
module BuddyBlocks {
  import opened Bits

  const MAX_BUDDY_ORDER: nat := 4

  /** The number of pages of a block: 1 << order. */
  function BlockSize(o: nat): nat
    requires o <= MAX_BUDDY_ORDER
  {
    if o == 0 then 1 else if o == 1 then 2 else if o == 2 then 4 else if o == 3 then 8 else 16
  }

  ghost predicate Aligned(p: nat, o: nat)
    requires o <= MAX_BUDDY_ORDER
  {
    p % BlockSize(o) == 0
  }

  ghost predicate Between(lo: nat, q: nat, hi: nat) {
    lo <= q < hi
  }

  ghost function Interval(lo: nat, hi: nat): set<nat> {
    set q: nat | lo <= q < hi && Between(lo, q, hi)
  }

  /** The pages of the block of order o at p. */
  ghost function Range(p: nat, o: nat): set<nat>
    requires o <= MAX_BUDDY_ORDER
  {
    Interval(p, p + BlockSize(o))
  }

  /** Every page of the window of order o at p is in f. */
  ghost predicate Whole(f: set<nat>, p: nat, o: nat)
    requires o <= MAX_BUDDY_ORDER
  {
    Range(p, o) <= f
  }

  /** The aligned window of order o that contains page q. */
  function Window(q: nat, o: nat): (p: nat)
    requires o <= MAX_BUDDY_ORDER
    ensures p <= q < p + BlockSize(o) && p % BlockSize(o) == 0
  {
    ModDown(q, BlockSize(o));
    q - q % BlockSize(o)
  }

  /** The other half of the enclosing window. */
  function BuddyOf(p: nat, o: nat): (b: nat)
    requires o < MAX_BUDDY_ORDER && p % BlockSize(o) == 0
    ensures b % BlockSize(o) == 0
  {
    if p % BlockSize(o + 1) == 0 then
      ModShift(p, BlockSize(o));
      p + BlockSize(o)
    else
      BelowMultiple(p, BlockSize(o));
      p - BlockSize(o)
  }

  /** A maximal aligned window inside f: what the free list of order o must hold. */
  ghost predicate IsBlock(f: set<nat>, p: nat, o: nat) {
    && o <= MAX_BUDDY_ORDER
    && Aligned(p, o)
    && Whole(f, p, o)
    && (o < MAX_BUDDY_ORDER ==> !Whole(f, Window(p, o + 1), o + 1))
  }

  lemma BlockIsWhole(f: set<nat>, p: nat, o: nat)
    requires IsBlock(f, p, o)
    ensures o <= MAX_BUDDY_ORDER && Whole(f, p, o)
  {
  }

  /** Multiples of a block size are at least a block size apart. */
  lemma Gap(x: nat, y: nat, o: nat)
    requires o <= MAX_BUDDY_ORDER && x % BlockSize(o) == 0 && y % BlockSize(o) == 0
    requires x < y + BlockSize(o)
    ensures x <= y
  {
    if o == 0 {} else if o == 1 {} else if o == 2 {} else if o == 3 {} else {}
  }

  lemma Double(x: nat, o: nat)
    requires o < MAX_BUDDY_ORDER
    ensures x % BlockSize(o + 1) == x / BlockSize(o) % 2 * BlockSize(o) + x % BlockSize(o)
    ensures x % BlockSize(o + 1) == x % BlockSize(o) || x % BlockSize(o + 1) == BlockSize(o) + x % BlockSize(o)
  {
    ModDouble(x, BlockSize(o));
  }

  lemma {:induction false} Coarser(x: nat, o: nat, r: nat)
    requires o <= r <= MAX_BUDDY_ORDER && x % BlockSize(r) == 0
    ensures x % BlockSize(o) == 0
  {
    if o < r {
      Double(x, r - 1);
      Coarser(x, o, r - 1);
    }
  }

  /** Aligned windows that meet are nested. */
  lemma Nested(p: nat, o: nat, q: nat, r: nat)
    requires o <= r <= MAX_BUDDY_ORDER && Aligned(p, o) && Aligned(q, r)
    requires p < q + BlockSize(r) && q < p + BlockSize(o)
    ensures q <= p && p + BlockSize(o) <= q + BlockSize(r)
    ensures o == r ==> p == q
  {
    Coarser(q, o, r);
    Gap(q, p, o);
    var d := BlockSize(r) - BlockSize(o);
    assert (q + d) % BlockSize(o) == 0 by {
      ModShift(q + d, BlockSize(o));
      ModShift(q, BlockSize(r));
      Coarser(q + BlockSize(r), o, r);
    }
    Gap(p, q + d, o);
  }

  lemma BuddySide(p: nat, o: nat)
    requires o < MAX_BUDDY_ORDER && Aligned(p, o)
    ensures var w, b := Window(p, o + 1), BuddyOf(p, o);
      && Window(b, o + 1) == w
      && ((w == p && b == p + BlockSize(o)) || (w == b && p == b + BlockSize(o)))
  {
    var a := BlockSize(o);
    assert BlockSize(o + 1) == 2 * a;
    PairModulo(p, a);
    hide BlockSize;
    if p % (2 * a) == 0 {
      assert BuddyOf(p, o) == p + a;
    } else {
      assert BuddyOf(p, o) == p - a && (p - a) % (2 * a) == 0;
    }
  }

  lemma Halves(p: nat, o: nat)
    requires o < MAX_BUDDY_ORDER && Aligned(p, o)
    ensures var w, b := Window(p, o + 1), BuddyOf(p, o);
      && Range(w, o + 1) == Range(p, o) + Range(b, o)
      && Range(p, o) !! Range(b, o)
      && Window(b, o + 1) == w
      && w == if p < b then p else b
  {
    BuddySide(p, o);
    var w, b := Window(p, o + 1), BuddyOf(p, o);
    forall q ensures q in Range(w, o + 1) <==> q in Range(p, o) || q in Range(b, o) {
      assert BlockSize(o + 1) == 2 * BlockSize(o);
    }
  }

  /** A larger window that meets a block contains the block's buddy as well. */
  lemma LargerContainsBoth(p: nat, o: nat, h: nat, r: nat)
    requires o < r <= MAX_BUDDY_ORDER && Aligned(p, o) && Aligned(h, r) && BuddyOf(p, o) in Range(h, r)
    ensures p in Range(h, r)
  {
    var b := BuddyOf(p, o);
    Halves(p, o);
    assert b in Range(b, o) && p in Range(p, o);
    Nested(Window(b, o + 1), o + 1, h, r);
  }

  lemma WholeWithin(f: set<nat>, p: nat, o: nat, q: nat, r: nat)
    requires o <= MAX_BUDDY_ORDER && r <= MAX_BUDDY_ORDER
    requires q <= p && p + BlockSize(o) <= q + BlockSize(r) && Whole(f, q, r)
    ensures Whole(f, p, o)
  {
    forall x | x in Range(p, o) ensures x in f { assert x in Range(q, r); }
  }

  /** A maximal window meets no other whole window that is at least as large. */
  lemma MaximalMeets(f: set<nat>, p: nat, o: nat, q: nat, r: nat)
    requires IsBlock(f, p, o) && r <= MAX_BUDDY_ORDER && o <= r && Aligned(q, r) && Whole(f, q, r)
    requires p < q + BlockSize(r) && q < p + BlockSize(o)
    ensures p == q && o == r
  {
    if o < r {
      var w := Window(p, o + 1);
      Nested(p, o, q, r);
      Nested(w, o + 1, q, r);
      WholeWithin(f, w, o + 1, q, r);
    } else {
      Nested(p, o, q, r);
    }
  }

  lemma BlocksDisjoint(f: set<nat>, p: nat, o: nat, q: nat, r: nat)
    requires IsBlock(f, p, o) && IsBlock(f, q, r) && (p != q || o != r)
    ensures Range(p, o) !! Range(q, r)
  {
    if x :| x in Range(p, o) && x in Range(q, r) {
      if o <= r { MaximalMeets(f, p, o, q, r); } else { MaximalMeets(f, q, r, p, o); }
    }
  }

  lemma WindowStep(q: nat, k: nat)
    requires k < MAX_BUDDY_ORDER
    ensures Window(Window(q, k), k + 1) == Window(q, k + 1)
  {
    var w := Window(q, k);
    Double(q, k);
    Double(w, k);
    assert q == w + q % BlockSize(k);
    DivModUnique(q, BlockSize(k), w / BlockSize(k), q % BlockSize(k));
  }

  /** Every free page lies in a block; the search climbs the orders. */
  lemma Cover(f: set<nat>, q: nat, k: nat) returns (o: nat)
    requires k <= MAX_BUDDY_ORDER && Whole(f, Window(q, k), k)
    ensures k <= o <= MAX_BUDDY_ORDER && IsBlock(f, Window(q, o), o)
    decreases MAX_BUDDY_ORDER - k
  {
    o := k;
    if k < MAX_BUDDY_ORDER && Whole(f, Window(q, k + 1), k + 1) {
      o := Cover(f, q, k + 1);
    } else {
      if k < MAX_BUDDY_ORDER { WindowStep(q, k); }
    }
  }

  lemma WholePage(f: set<nat>, q: nat)
    ensures Window(q, 0) == q
    ensures Whole(f, q, 0) <==> q in f
  {
    assert q % 1 == 0;
    assert q in Range(q, 0);
  }

  lemma PageCovered(f: set<nat>, q: nat) returns (o: nat)
    requires q in f
    ensures o <= MAX_BUDDY_ORDER && IsBlock(f, Window(q, o), o)
  {
    WholePage(f, q);
    o := Cover(f, q, 0);
  }

  /** Taking a whole block out of f removes that block and no other. */
  lemma RemoveBlock(f: set<nat>, p: nat, o: nat, q: nat, r: nat)
    requires IsBlock(f, p, o) && r <= MAX_BUDDY_ORDER
    ensures IsBlock(f - Range(p, o), q, r) <==> IsBlock(f, q, r) && (p != q || o != r)
  {
    var g := f - Range(p, o);
    if IsBlock(g, q, r) {
      assert q in Range(q, r);
      if r < MAX_BUDDY_ORDER && Whole(f, Window(q, r + 1), r + 1) {
        var w := Window(q, r + 1);
        var x :| x in Range(w, r + 1) && x !in g;
        assert x in Range(p, o);
        if r + 1 <= o {
          Nested(w, r + 1, p, o);
        } else {
          MaximalMeets(f, p, o, w, r + 1);
        }
        assert false;
      }
      assert q in f;
    }
    if IsBlock(f, q, r) && (p != q || o != r) {
      BlocksDisjoint(f, p, o, q, r);
      assert Whole(g, q, r);
    }
  }

  /** Adding a whole window whose buddy is not wholly in f adds that block and
      changes no other. */
  lemma AddBlock(f: set<nat>, p: nat, o: nat, q: nat, r: nat)
    requires o <= MAX_BUDDY_ORDER && r <= MAX_BUDDY_ORDER && Aligned(p, o) && Range(p, o) !! f
    requires o < MAX_BUDDY_ORDER ==> !Whole(f, BuddyOf(p, o), o)
    ensures IsBlock(f + Range(p, o), q, r) <==> IsBlock(f, q, r) || (p == q && o == r)
  {
    var g := f + Range(p, o);
    assert IsBlock(g, p, o) by {
      if o < MAX_BUDDY_ORDER {
        Halves(p, o);
        var x :| x in Range(BuddyOf(p, o), o) && x !in f;
        assert x in Range(Window(p, o + 1), o + 1) && x !in g;
      }
    }
    if IsBlock(f, q, r) {
      assert q in Range(q, r) && q in f;
      if r < MAX_BUDDY_ORDER && Whole(g, Window(q, r + 1), r + 1) {
        var w := Window(q, r + 1);
        var x :| x in Range(w, r + 1) && x !in f;
        assert x in Range(p, o);
        if r + 1 <= o { Nested(w, r + 1, p, o); } else { MaximalMeets(g, p, o, w, r + 1); }
        assert false;
      }
    }
    if IsBlock(g, q, r) && (p != q || o != r) {
      BlocksDisjoint(g, p, o, q, r);
      assert Whole(f, q, r);
    }
  }
}
