/** What allocation and release do to the abstract state, and what that means
    over whole runs. */
module BuddySpec {
  import opened Options
  import opened Lists
  import opened BuddyBlocks
  import opened BuddyState

  // ------------------------------------------------------------- allocation

  /** The smallest order from o up whose list is not empty. */
  ghost function SourceOrder(ls: seq<seq<nat>>, o: nat): (c: nat)
    requires |ls| == MAX_BUDDY_ORDER + 1
    ensures c <= MAX_BUDDY_ORDER ==> o <= c && ls[c] != []
    ensures forall r :: o <= r <= MAX_BUDDY_ORDER && r < c ==> ls[r] == []
    decreases MAX_BUDDY_ORDER + 1 - o
  {
    if o > MAX_BUDDY_ORDER || ls[o] != [] then o else SourceOrder(ls, o + 1)
  }

  /** The page an allocation of order o returns: the first entry of its own list,
      or the last entry of the next list that has one. */
  ghost function AllocResult(s: State, o: nat): Option<nat> {
    var ls := FreeLists(s);
    var c := SourceOrder(ls, o);
    if c > MAX_BUDDY_ORDER then None
    else Some(if c == o then ls[c][0] else ls[c][|ls[c]| - 1])
  }

  ghost function AfterAlloc(s: State, o: nat): State {
    match AllocResult(s, o)
    case None => s
    case Some(p) => s.(outs := s.outs[p := o])
  }

  /** Releasing a page that heads no outstanding block changes nothing. */
  ghost function AfterFree(s: State, p: nat): State {
    s.(outs := s.outs - {p})
  }

  lemma ListedIsBlock(s: State, o: nat, i: nat)
    requires o <= MAX_BUDDY_ORDER && i < |FreeLists(s)[o]|
    ensures IsBlock(FreePages(s), FreeLists(s)[o][i], o)
  {
    FreeListsCanonical(s);
    assert CanonicalAt(FreePages(s), FreeLists(s)[o], o);
    assert FreeLists(s)[o][i] in FreeLists(s)[o];
  }

  /** Allocation fails exactly when no aligned window of the size is free. */
  lemma AllocFailsIff(s: State, o: nat)
    ensures AllocResult(s, o).None? <==>
      o > MAX_BUDDY_ORDER || !exists p: nat :: Aligned(p, o) && Whole(FreePages(s), p, o)
  {
    var f, ls := FreePages(s), FreeLists(s);
    FreeListsCanonical(s);
    if AllocResult(s, o).Some? {
      var c := SourceOrder(ls, o);
      var p := AllocResult(s, o).value;
      ListedIsBlock(s, c, if c == o then 0 else |ls[c]| - 1);
      Coarser(p, o, c);
      WholeWithin(f, p, o, p, c);
      assert Aligned(p, o) && Whole(f, p, o);
    }
    if o <= MAX_BUDDY_ORDER && exists p: nat :: Aligned(p, o) && Whole(f, p, o) {
      var p: nat :| Aligned(p, o) && Whole(f, p, o);
      assert Window(p, o) == p;
      var k := Cover(f, p, o);
      assert CanonicalAt(f, ls[k], k);
      assert Window(p, k) in ls[k];
      assert SourceOrder(ls, o) <= k;
    }
  }

  /** Best fit: the block split is of the smallest sufficient order, and within
      that order it is the lowest one, except that an exact match above order 0
      takes the highest. */
  lemma AllocIsBestFit(s: State, o: nat) returns (c: nat)
    requires AllocResult(s, o).Some?
    ensures var f, p := FreePages(s), AllocResult(s, o).value;
      && o <= c <= MAX_BUDDY_ORDER
      && IsBlock(f, p, c)
      && (forall q: nat, r: nat :: IsBlock(f, q, r) && o <= r ==> c <= r)
      && (forall q: nat :: IsBlock(f, q, c) ==> if c == o && o > 0 then q <= p else p <= q)
  {
    var f, ls, p := FreePages(s), FreeLists(s), AllocResult(s, o).value;
    c := SourceOrder(ls, o);
    FreeListsCanonical(s);
    ListedIsBlock(s, c, if c == o then 0 else |ls[c]| - 1);
    forall q: nat, r: nat | IsBlock(f, q, r) && o <= r ensures c <= r {
      assert CanonicalAt(f, ls[r], r);
      assert q in ls[r];
    }
    assert CanonicalAt(f, ls[c], c);
    forall q: nat | IsBlock(f, q, c) ensures if c == o && o > 0 then q <= p else p <= q {
      assert q in ls[c];
      var j :| 0 <= j < |ls[c]| && ls[c][j] == q;
      if c == o {
        assert j > 0 ==> Precedes(c, ls[c][0], ls[c][j]);
      } else {
        assert j < |ls[c]| - 1 ==> Precedes(c, ls[c][j], ls[c][|ls[c]| - 1]);
      }
    }
  }

  lemma TakenInsert(s: State, p: nat, o: nat, q: nat)
    requires o <= MAX_BUDDY_ORDER && p !in s.outs
    ensures Taken(s.outs[p := o], q) <==> Taken(s.outs, q) || q in Range(p, o)
  {
    var t := s.outs[p := o];
    if Taken(s.outs, q) {
      var h: nat :| h in s.outs && s.outs[h] <= MAX_BUDDY_ORDER && q in Range(h, s.outs[h]);
      assert h in t && t[h] == s.outs[h];
    }
    if q in Range(p, o) { assert p in t && t[p] == o; }
  }

  /** A free window lies in the region, clear of all outstanding blocks. */
  lemma FreeWindow(s: State, p: nat, o: nat)
    requires WellFormed(s) && o <= MAX_BUDDY_ORDER && Whole(FreePages(s), p, o)
    ensures s.lo <= p && p + BlockSize(o) <= s.hi && p !in s.outs
    ensures forall q: nat :: q in s.outs ==> Range(q, s.outs[q]) !! Range(p, o)
  {
    assert p in Range(p, o) && p + BlockSize(o) - 1 in Range(p, o);
    forall q: nat | q in s.outs ensures Range(q, s.outs[q]) !! Range(p, o) {
      forall x | x in Range(q, s.outs[q]) ensures x !in Range(p, o) { assert Taken(s.outs, x); }
    }
    assert p in s.outs ==> p in Range(p, s.outs[p]);
  }

  /** A free aligned window may become an outstanding block. */
  lemma {:induction false} TakeWindow(s: State, p: nat, o: nat)
    requires WellFormed(s) && o <= MAX_BUDDY_ORDER && Aligned(p, o) && Whole(FreePages(s), p, o)
    ensures p !in s.outs
    ensures WellFormed(s.(outs := s.outs[p := o]))
    ensures FreePages(s.(outs := s.outs[p := o])) == FreePages(s) - Range(p, o)
  {
    FreeWindow(s, p, o);
    hide Range;
    hide Whole;
    var t := s.(outs := s.outs[p := o]);
    forall q: nat ensures q in FreePages(t) <==> q in FreePages(s) && q !in Range(p, o) {
      TakenInsert(s, p, o, q);
    }
  }

  lemma AllocKeepsWellFormed(s: State, o: nat)
    requires WellFormed(s) && AllocResult(s, o).Some?
    ensures var p := AllocResult(s, o).value;
      && o <= MAX_BUDDY_ORDER && p !in s.outs && Aligned(p, o) && Whole(FreePages(s), p, o)
      && WellFormed(AfterAlloc(s, o))
      && FreePages(AfterAlloc(s, o)) == FreePages(s) - Range(p, o)
  {
    var p := AllocResult(s, o).value;
    var c := AllocIsBestFit(s, o);
    Coarser(p, o, c);
    WholeWithin(FreePages(s), p, o, p, c);
    TakeWindow(s, p, o);
  }

  lemma FreeKeepsWellFormed(s: State, p: nat)
    requires WellFormed(s)
    ensures WellFormed(AfterFree(s, p))
    ensures p !in s.outs ==> AfterFree(s, p) == s
    ensures p in s.outs ==> Range(p, s.outs[p]) !! FreePages(s)
    ensures p in s.outs ==> FreePages(AfterFree(s, p)) == FreePages(s) + Range(p, s.outs[p])
  {
    var t := AfterFree(s, p);
    if p !in s.outs {
      assert s.outs - {p} == s.outs;
    } else {
      var o := s.outs[p];
      assert s.outs == t.outs[p := o];
      forall q: nat ensures q in FreePages(t) <==> q in FreePages(s) || q in Range(p, o) {
        TakenInsert(t, p, o, q);
        if Taken(t.outs, q) {
          var h: nat :| h in t.outs && t.outs[h] <= MAX_BUDDY_ORDER && q in Range(h, t.outs[h]);
          assert Range(h, s.outs[h]) !! Range(p, o);
        }
      }
      forall q: nat | q in Range(p, o) ensures q !in FreePages(s) { assert Taken(s.outs, q); }
    }
  }

  /** An allocation followed by its release restores the state, and with it every free list. */
  lemma AllocThenFree(s: State, o: nat)
    requires WellFormed(s) && AllocResult(s, o).Some?
    ensures AfterFree(AfterAlloc(s, o), AllocResult(s, o).value) == s
    ensures FreeLists(AfterFree(AfterAlloc(s, o), AllocResult(s, o).value)) == FreeLists(s)
  {
    AllocKeepsWellFormed(s, o);
    var p := AllocResult(s, o).value;
    assert s.outs[p := o] - {p} == s.outs;
  }

  // ------------------------------------------------------------------- runs

  datatype Op = Alloc(order: nat) | Free(page: nat)

  ghost function Step(s: State, op: Op): State {
    match op
    case Alloc(o) => AfterAlloc(s, o)
    case Free(p) => AfterFree(s, p)
  }

  ghost function Run(s: State, ops: seq<Op>): State
    decreases |ops|
  {
    if ops == [] then s else Run(Step(s, ops[0]), ops[1..])
  }

  lemma {:induction false} RunKeepsWellFormed(s: State, ops: seq<Op>)
    requires WellFormed(s)
    ensures WellFormed(Run(s, ops)) && Run(s, ops).lo == s.lo && Run(s, ops).hi == s.hi
    decreases |ops|
  {
    if ops != [] {
      match ops[0] {
        case Alloc(o) => if AllocResult(s, o).Some? { AllocKeepsWellFormed(s, o); }
        case Free(p) => FreeKeepsWellFormed(s, p);
      }
      RunKeepsWellFormed(Step(s, ops[0]), ops[1..]);
    }
  }

  // ------------------------------------------------- tiling and conservation

  /** Page q belongs to entry i of the free list of order k. */
  ghost predicate ListedAt(s: State, q: nat, k: nat, i: nat) {
    k <= MAX_BUDDY_ORDER && i < |FreeLists(s)[k]| && q in Range(FreeLists(s)[k][i], k)
  }

  /** Free and outstanding blocks tile the region: each page is in exactly one. */
  lemma Tiling(s: State, q: nat)
    requires WellFormed(s) && s.lo <= q < s.hi
    ensures (exists p: nat :: p in s.outs && q in Range(p, s.outs[p]))
      <==> !exists k: nat, i: nat :: ListedAt(s, q, k, i)
    ensures forall p: nat, p': nat :: p in s.outs && p' in s.outs && q in Range(p, s.outs[p]) && q in Range(p', s.outs[p']) ==> p == p'
    ensures forall k: nat, i: nat, k': nat, i': nat :: ListedAt(s, q, k, i) && ListedAt(s, q, k', i') ==> k == k' && i == i'
  {
    var f, ls := FreePages(s), FreeLists(s);
    FreeListsCanonical(s);
    if Taken(s.outs, q) {
      forall k: nat, i: nat | k <= MAX_BUDDY_ORDER && i < |ls[k]| ensures !ListedAt(s, q, k, i) {
        ListedIsBlock(s, k, i);
      }
    } else {
      var k := PageCovered(f, q);
      assert CanonicalAt(f, ls[k], k);
      assert Window(q, k) in ls[k];
      var i: nat :| i < |ls[k]| && ls[k][i] == Window(q, k);
      assert ListedAt(s, q, k, i);
    }
    forall k: nat, i: nat, k': nat, i': nat | ListedAt(s, q, k, i) && ListedAt(s, q, k', i')
      ensures k == k' && i == i'
    {
      ListedIsBlock(s, k, i);
      ListedIsBlock(s, k', i');
      if ls[k][i] != ls[k'][i'] || k != k' {
        BlocksDisjoint(f, ls[k][i], k, ls[k'][i'], k');
      } else {
        assert CanonicalAt(f, ls[k], k);
        assert forall x, y :: 0 <= x < y < |ls[k]| ==> Precedes(k, ls[k][x], ls[k][y]);
      }
    }
  }

  /** The pages on the free lists of order below n: sum of length times block size. */
  function ListedBelow(ls: seq<seq<nat>>, n: nat): nat
    requires |ls| == MAX_BUDDY_ORDER + 1 && n <= MAX_BUDDY_ORDER + 1
  {
    if n == 0 then 0 else ListedBelow(ls, n - 1) + BlockSize(n - 1) * |ls[n - 1]|
  }

  function PagesListed(ls: seq<seq<nat>>): nat
    requires |ls| == MAX_BUDDY_ORDER + 1
  {
    ListedBelow(ls, MAX_BUDDY_ORDER + 1)
  }

  lemma {:induction false} ListedSplit(ls: seq<seq<nat>>, o: nat, i: nat, n: nat)
    requires |ls| == MAX_BUDDY_ORDER + 1 && n <= MAX_BUDDY_ORDER + 1 && o <= MAX_BUDDY_ORDER && i < |ls[o]|
    ensures ListedBelow(ls, n) == ListedBelow(ls[o := RemoveAt(ls[o], i)], n) + if o < n then BlockSize(o) else 0
  {
    if n > 0 { ListedSplit(ls, o, i, n - 1); }
  }

  lemma {:induction false} NothingListed(ls: seq<seq<nat>>, n: nat)
    requires |ls| == MAX_BUDDY_ORDER + 1 && n <= MAX_BUDDY_ORDER + 1
    requires forall o: nat :: o <= MAX_BUDDY_ORDER ==> ls[o] == []
    ensures ListedBelow(ls, n) == 0
  {
    if n > 0 { NothingListed(ls, n - 1); }
  }

  lemma {:induction false} IntervalSize(lo: nat, hi: nat)
    requires lo <= hi
    ensures |Interval(lo, hi)| == hi - lo
  {
    if lo == hi {
      assert Interval(lo, hi) == {};
    } else {
      IntervalSize(lo, hi - 1);
      assert Interval(lo, hi) == Interval(lo, hi - 1) + {hi - 1};
    }
  }

  lemma RangeSize(p: nat, o: nat)
    requires o <= MAX_BUDDY_ORDER
    ensures |Range(p, o)| == BlockSize(o)
  {
    IntervalSize(p, p + BlockSize(o));
  }

  lemma HasMember(l: seq<nat>)
    ensures l != [] ==> exists p: nat :: p in l
  {
    if l != [] { assert l[0] in l; }
  }

  lemma {:induction false} ListedIsFree(f: set<nat>, ls: seq<seq<nat>>)
    requires Canonical(f, ls)
    ensures PagesListed(ls) == |f|
    decreases |f|
  {
    if f == {} {
      forall o | 0 <= o <= MAX_BUDDY_ORDER ensures ls[o] == [] {
        assert CanonicalAt(f, ls[o], o);
        assert forall p: nat :: p in Range(p, o) && p !in f;
        HasMember(ls[o]);
      }
      NothingListed(ls, MAX_BUDDY_ORDER + 1);
    } else {
      var q :| q in f;
      var o := PageCovered(f, q);
      assert CanonicalAt(f, ls[o], o);
      assert Window(q, o) in ls[o];
      var i: nat :| i < |ls[o]| && ls[o][i] == Window(q, o);
      RemoveCanonical(f, ls, o, i);
      RangeSize(ls[o][i], o);
      ListedSplit(ls, o, i, MAX_BUDDY_ORDER + 1);
      ListedIsFree(f - Range(ls[o][i], o), ls[o := RemoveAt(ls[o], i)]);
    }
  }

  /** The pages of outstanding blocks headed below n. */
  ghost function PagesOut(outs: map<nat, nat>, n: nat): nat {
    if n == 0 then 0
    else PagesOut(outs, n - 1) + if n - 1 in outs && outs[n - 1] <= MAX_BUDDY_ORDER then BlockSize(outs[n - 1]) else 0
  }

  ghost predicate TakenUnder(s: State, n: nat, q: nat) {
    exists p: nat :: p in s.outs && p < n && s.outs[p] <= MAX_BUDDY_ORDER && q in Range(p, s.outs[p])
  }

  ghost function TakenBelow(s: State, n: nat): set<nat> {
    set q: nat | s.lo <= q < s.hi && TakenUnder(s, n, q)
  }

  lemma TakenStep(s: State, h: nat, q: nat)
    requires WellFormed(s)
    ensures TakenUnder(s, h + 1, q) <==> TakenUnder(s, h, q) || (h in s.outs && q in Range(h, s.outs[h]))
    ensures h in s.outs && q in Range(h, s.outs[h]) ==> !TakenUnder(s, h, q)
  {
    if TakenUnder(s, h, q) {
      var p: nat :| p in s.outs && p < h && s.outs[p] <= MAX_BUDDY_ORDER && q in Range(p, s.outs[p]);
      assert p < h + 1;
    }
  }

  lemma {:induction false} PagesOutCount(s: State, n: nat)
    requires WellFormed(s)
    ensures |TakenBelow(s, n)| == PagesOut(s.outs, n)
  {
    if n == 0 {
      assert TakenBelow(s, 0) == {};
    } else {
      var h := n - 1;
      PagesOutCount(s, h);
      forall q: nat
        ensures q in TakenBelow(s, n) <==> q in TakenBelow(s, h) || (h in s.outs && q in Range(h, s.outs[h]))
        ensures h in s.outs && q in Range(h, s.outs[h]) ==> q !in TakenBelow(s, h)
      {
        TakenStep(s, h, q);
      }
      if h in s.outs {
        RangeSize(h, s.outs[h]);
        assert TakenBelow(s, n) == TakenBelow(s, h) + Range(h, s.outs[h]);
      } else {
        assert TakenBelow(s, n) == TakenBelow(s, h);
      }
    }
  }

  /** Conservation: listed pages plus outstanding pages make up the region. */
  lemma Conservation(s: State)
    requires WellFormed(s) && s.lo <= s.hi
    ensures PagesListed(FreeLists(s)) + PagesOut(s.outs, s.hi) == s.hi - s.lo
  {
    var f, t := FreePages(s), TakenBelow(s, s.hi);
    FreeListsCanonical(s);
    ListedIsFree(f, FreeLists(s));
    PagesOutCount(s, s.hi);
    IntervalSize(s.lo, s.hi);
    forall q: nat ensures q in Interval(s.lo, s.hi) <==> q in f || q in t {
      assert s.lo <= q < s.hi ==> (Taken(s.outs, q) <==> TakenUnder(s, s.hi, q));
    }
    assert Interval(s.lo, s.hi) == f + t;
  }
}
