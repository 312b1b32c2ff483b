/** The abstract state of the buddy system: which blocks are outstanding.  The
    five free lists are a function of it. */
module BuddyState {
  import opened Lists
  import opened BuddyBlocks

  /** List order: ascending page numbers at order 0, descending above. */
  predicate Precedes(o: nat, a: nat, b: nat) {
    if o == 0 then a < b else a > b
  }

  ghost predicate Sorted(l: seq<nat>, o: nat) {
    forall i, j :: 0 <= i < j < |l| ==> Precedes(o, l[i], l[j])
  }

  /** The list of order o holds exactly the maximal free blocks of that order. */
  ghost predicate CanonicalAt(f: set<nat>, l: seq<nat>, o: nat) {
    Sorted(l, o) && forall p: nat :: p in l <==> IsBlock(f, p, o)
  }

  ghost predicate Canonical(f: set<nat>, ls: seq<seq<nat>>) {
    |ls| == MAX_BUDDY_ORDER + 1 && forall o :: 0 <= o <= MAX_BUDDY_ORDER ==> CanonicalAt(f, ls[o], o)
  }

  lemma {:induction false} SortedUnique(l: seq<nat>, m: seq<nat>, o: nat)
    requires Sorted(l, o) && Sorted(m, o) && forall p: nat :: p in l <==> p in m
    ensures l == m
  {
    if |l| > 0 { assert l[0] in m; }
    if |m| > 0 { assert m[0] in l; }
    if l != [] && m != [] {
      assert forall k :: 0 < k < |l| ==> Precedes(o, l[0], l[k]);
      assert forall k :: 0 < k < |m| ==> Precedes(o, m[0], m[k]);
      assert l[0] == m[0];
      forall p: nat ensures p in l[1..] <==> p in m[1..] {
        if p in l[1..] { var k :| 1 <= k < |l| && l[k] == p; assert Precedes(o, l[0], p); assert p in m; }
        if p in m[1..] { var k :| 1 <= k < |m| && m[k] == p; assert Precedes(o, m[0], p); assert p in l; }
      }
      SortedUnique(l[1..], m[1..], o);
      assert l == [l[0]] + l[1..] && m == [m[0]] + m[1..];
    }
  }

  /** The free state is canonical: the set of free pages determines the content
      and the order of all five lists. */
  lemma CanonicalUnique(f: set<nat>, ls: seq<seq<nat>>, ms: seq<seq<nat>>)
    requires Canonical(f, ls) && Canonical(f, ms)
    ensures ls == ms
  {
    forall o | 0 <= o <= MAX_BUDDY_ORDER ensures ls[o] == ms[o] {
      assert CanonicalAt(f, ls[o], o) && CanonicalAt(f, ms[o], o);
      forall p: nat ensures p in ls[o] <==> p in ms[o] {
        assert p in ls[o] <==> IsBlock(f, p, o);
      }
      SortedUnique(ls[o], ms[o], o);
    }
  }

  /** The canonical list of order o over the heads below n. */
  ghost function CanonicalList(f: set<nat>, n: nat, o: nat): (l: seq<nat>)
    ensures forall p: nat :: p in l <==> p < n && IsBlock(f, p, o)
    ensures Sorted(l, o)
  {
    if n == 0 then []
    else
      var l := CanonicalList(f, n - 1, o);
      assert forall i :: 0 <= i < |l| ==> l[i] in l;
      if !IsBlock(f, n - 1, o) then l else if o == 0 then l + [n - 1] else [n - 1] + l
  }

  /** Where buddy_list_add puts a page: before the first entry it does not follow. */
  ghost function Position(l: seq<nat>, o: nat, x: nat): (i: nat)
    ensures i <= |l|
    ensures forall j :: 0 <= j < i ==> Precedes(o, l[j], x)
    ensures i < |l| ==> !Precedes(o, l[i], x)
  {
    if l == [] || !Precedes(o, l[0], x) then 0 else 1 + Position(l[1..], o, x)
  }

  lemma InsertSorted(l: seq<nat>, o: nat, x: nat)
    requires Sorted(l, o) && x !in l
    ensures Sorted(InsertAt(l, Position(l, o, x), x), o)
    ensures forall p: nat :: p in InsertAt(l, Position(l, o, x), x) <==> p in l || p == x
  {
    hide Position;
    var i := Position(l, o, x);
    var m := InsertAt(l, i, x);
    forall j | i <= j < |l| ensures Precedes(o, x, l[j]) {
      assert l[i] != x && l[j] != x;
      if j > i { assert Precedes(o, l[i], l[j]); }
    }
    forall p: nat ensures p in m <==> p in l || p == x {
      if p in l { var j :| 0 <= j < |l| && l[j] == p; assert m[if j < i then j else j + 1] == p; }
      assert m[i] == x;
      if p in m { var j :| 0 <= j < |m| && m[j] == p; }
    }
  }

  lemma RemoveSorted(l: seq<nat>, o: nat, i: nat)
    requires Sorted(l, o) && i < |l|
    ensures Sorted(RemoveAt(l, i), o)
    ensures forall p: nat :: p in RemoveAt(l, i) <==> p in l && p != l[i]
  {
    var m := RemoveAt(l, i);
    forall p: nat ensures p in m <==> p in l && p != l[i] {
      if p in l && p != l[i] {
        var j :| 0 <= j < |l| && l[j] == p;
        assert m[if j < i then j else j - 1] == p;
      }
      if p in m {
        var j :| 0 <= j < |m| && m[j] == p;
        assert p == l[if j < i then j else j + 1];
        if j < i { assert Precedes(o, l[j], l[i]); } else { assert Precedes(o, l[i], l[j + 1]); }
      }
    }
  }

  /** Unlinking one block from its list keeps the lists canonical. */
  lemma RemoveCanonical(f: set<nat>, ls: seq<seq<nat>>, o: nat, i: nat)
    requires Canonical(f, ls) && o <= MAX_BUDDY_ORDER && i < |ls[o]|
    ensures IsBlock(f, ls[o][i], o)
    ensures Canonical(f - Range(ls[o][i], o), ls[o := RemoveAt(ls[o], i)])
  {
    var p := ls[o][i];
    var g := f - Range(p, o);
    var ms := ls[o := RemoveAt(ls[o], i)];
    assert CanonicalAt(f, ls[o], o);
    assert p in ls[o];
    forall r | 0 <= r <= MAX_BUDDY_ORDER ensures CanonicalAt(g, ms[r], r) {
      assert CanonicalAt(f, ls[r], r);
      forall q ensures q in ms[r] <==> IsBlock(g, q, r) {
        RemoveBlock(f, p, o, q, r);
        assert q in ls[r] <==> IsBlock(f, q, r);
        if r == o { RemoveSorted(ls[o], o, i); }
      }
      if r == o { RemoveSorted(ls[o], o, i); }
    }
  }

  /** Inserting an unmergeable block keeps the lists canonical. */
  lemma AddCanonical(f: set<nat>, ls: seq<seq<nat>>, p: nat, o: nat)
    requires Canonical(f, ls) && o <= MAX_BUDDY_ORDER && Aligned(p, o) && Range(p, o) !! f
    requires o < MAX_BUDDY_ORDER ==> !Whole(f, BuddyOf(p, o), o)
    ensures p !in ls[o]
    ensures Canonical(f + Range(p, o), ls[o := InsertAt(ls[o], Position(ls[o], o, p), p)])
  {
    var g := f + Range(p, o);
    var ms := ls[o := InsertAt(ls[o], Position(ls[o], o, p), p)];
    assert CanonicalAt(f, ls[o], o);
    assert p !in ls[o] by {
      assert p in Range(p, o) && p !in f;
      assert !Whole(f, p, o);
    }
    forall r | 0 <= r <= MAX_BUDDY_ORDER ensures CanonicalAt(g, ms[r], r) {
      assert CanonicalAt(f, ls[r], r);
      forall q ensures q in ms[r] <==> IsBlock(g, q, r) {
        AddBlock(f, p, o, q, r);
        assert q in ls[r] <==> IsBlock(f, q, r);
        if r == o { InsertSorted(ls[o], o, p); }
      }
      if r == o { InsertSorted(ls[o], o, p); }
    }
  }

  // ---------------------------------------------------------------- the state

  /** Pages lo..hi, and the order of every outstanding block by its first page. */
  datatype State = State(lo: nat, hi: nat, outs: map<nat, nat>)

  ghost predicate Taken(outs: map<nat, nat>, q: nat) {
    exists p: nat :: p in outs && outs[p] <= MAX_BUDDY_ORDER && q in Range(p, outs[p])
  }

  ghost function FreePages(s: State): set<nat> {
    set q: nat | s.lo <= q < s.hi && !Taken(s.outs, q)
  }

  /** Outstanding blocks are aligned, inside the region, and pairwise disjoint. */
  ghost predicate WellFormed(s: State) {
    && s.lo % BlockSize(MAX_BUDDY_ORDER) == 0
    && s.hi % BlockSize(MAX_BUDDY_ORDER) == 0
    && (forall p: nat :: p in s.outs ==> s.outs[p] <= MAX_BUDDY_ORDER && Aligned(p, s.outs[p]))
    && (forall p: nat :: p in s.outs ==> s.lo <= p && p + BlockSize(s.outs[p]) <= s.hi)
    && (forall p: nat, q: nat :: p in s.outs && q in s.outs && p != q ==> Range(p, s.outs[p]) !! Range(q, s.outs[q]))
  }

  /** The five free lists as a function of the outstanding blocks. */
  ghost function FreeLists(s: State): (ls: seq<seq<nat>>)
    ensures |ls| == MAX_BUDDY_ORDER + 1
  {
    seq(MAX_BUDDY_ORDER + 1, o requires 0 <= o <= MAX_BUDDY_ORDER => CanonicalList(FreePages(s), s.hi, o))
  }

  lemma FreeListsCanonical(s: State)
    ensures Canonical(FreePages(s), FreeLists(s))
  {
    var f := FreePages(s);
    forall o | 0 <= o <= MAX_BUDDY_ORDER ensures CanonicalAt(f, FreeLists(s)[o], o) {
      forall p: nat ensures p in FreeLists(s)[o] <==> IsBlock(f, p, o) {
        if IsBlock(f, p, o) { assert p in Range(p, o); }
      }
    }
  }
}
