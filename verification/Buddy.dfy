/** The buddy page allocator of kernel/mm/buddy.c: page records, intrusive free
    lists and counters updated in place. */
module Buddy {
  import opened Sequences
  import opened Options
  import opened Bits
  import opened Lists
  import opened BuddyBlocks
  import opened BuddyState
  import opened BuddySpec
  import opened BuddyInit

  /** The values set_flag ever stores: each has at most one of the flag bits. */
  datatype PageFlag = Clean | Reserved | Alloced | Slab

  /** The value -1 stored in an unsigned pageOrderLevel. */
  const NO_LEVEL: nat := 0xFFFF_FFFF

  datatype Page = Page(flag: PageFlag, pageOrderLevel: nat)

  class BuddySystem {
    /** The page records, and their list nodes: node i belongs to page i, and the
        heads of the free lists follow the pages. */
    const pages: array<Page>
    const nodes: array<ListHead>
    const freeNumer: array<nat>
    var startPage: nat
    var endPage: nat
    /** The free lists' contents, and the orders of the outstanding blocks. */
    ghost var lists: seq<seq<nat>>
    ghost var outs: map<nat, nat>

    function Head(k: nat): nat {
      pages.Length + k
    }

    ghost function RingOf(k: nat): seq<nat>
      requires k < |lists|
      reads `lists
    {
      [Head(k)] + lists[k]
    }

    ghost function Abs(): State
      reads this
    {
      State(startPage, endPage, outs)
    }

    ghost predicate Shape()
      reads `startPage, `endPage, nodes, freeNumer
    {
      && nodes.Length == pages.Length + MAX_BUDDY_ORDER + 1
      && freeNumer.Length == MAX_BUDDY_ORDER + 1
      && startPage % BlockSize(MAX_BUDDY_ORDER) == 0
      && endPage % BlockSize(MAX_BUDDY_ORDER) == 0
      && endPage <= pages.Length
    }

    /** The links represent the sequences in `lists`. */
    ghost predicate Rings()
      reads `lists, `startPage, `endPage, nodes, freeNumer
    {
      && Shape()
      && |lists| == MAX_BUDDY_ORDER + 1
      && (forall k: nat :: k <= MAX_BUDDY_ORDER ==> Ring(nodes[..], RingOf(k)))
    }

    /** ... and the counters their lengths. */
    ghost predicate Linkage()
      reads `lists, `startPage, `endPage, nodes, freeNumer
    {
      Rings() && forall k: nat :: k <= MAX_BUDDY_ORDER ==> freeNumer[k] == |lists[k]|
    }

    /** Every listed page carries the order of its list and is not allocated.
        Nothing is said about pages inside a block: their levels are stale. */
    ghost predicate HeadsMarked()
      reads `lists, pages
    {
      forall k: nat, i: nat :: k < |lists| && i < |lists[k]| ==>
        lists[k][i] < pages.Length && pages[lists[k][i]] == Page(Reserved, k)
    }

    /** The lists are the canonical lists of the free set f. */
    ghost predicate Represents(f: set<nat>)
      reads `lists, `startPage, `endPage, pages, nodes, freeNumer
    {
      && Linkage()
      && f <= Interval(startPage, endPage)
      && Canonical(f, lists)
      && HeadsMarked()
    }

    /** Within the region exactly the first pages of outstanding blocks are
        flagged as allocated. */
    ghost predicate FlagsMatch(t: State)
      reads `startPage, `endPage, pages
    {
      && endPage <= pages.Length
      && (forall p: nat :: startPage <= p < endPage ==>
            pages[p].flag == if p in t.outs then Alloced else Reserved)
      && (forall p: nat :: p in t.outs && startPage <= p < endPage ==>
            pages[p].pageOrderLevel == t.outs[p] || (t.outs[p] == 0 && pages[p].pageOrderLevel == NO_LEVEL))
    }

    ghost predicate Valid()
      reads this, pages, nodes, freeNumer
    {
      WellFormed(Abs()) && Represents(FreePages(Abs())) && FlagsMatch(Abs())
    }

    /** In a valid state the concrete lists are the canonical function of the
        abstract state. */
    lemma ListsAreCanonical()
      requires Valid()
      ensures lists == FreeLists(Abs())
    {
      FreeListsCanonical(Abs());
      CanonicalUnique(FreePages(Abs()), lists, FreeLists(Abs()));
    }

    lemma RingsApart(f: set<nat>, k: nat, j: nat)
      requires Represents(f) && k <= MAX_BUDDY_ORDER && j <= MAX_BUDDY_ORDER && k != j
      ensures Apart(RingOf(k), RingOf(j))
    {
      forall x, y | 0 <= x < |RingOf(k)| && 0 <= y < |RingOf(j)| ensures RingOf(k)[x] != RingOf(j)[y] {
        if x > 0 { ListedBlock(f, k, x - 1); }
        if y > 0 { ListedBlock(f, j, y - 1); }
        if x > 0 && y > 0 {
          var p, q := lists[k][x - 1], lists[j][y - 1];
          BlocksDisjoint(f, p, k, q, j);
          assert p in Range(p, k) && q in Range(q, j);
        }
      }
    }

    lemma ListedBlock(f: set<nat>, k: nat, i: nat)
      requires Represents(f) && k <= MAX_BUDDY_ORDER && i < |lists[k]|
      ensures IsBlock(f, lists[k][i], k) && lists[k][i] in f
      ensures lists[k][i] < pages.Length && pages[lists[k][i]] == Page(Reserved, k)
    {
      assert CanonicalAt(f, lists[k], k);
      assert lists[k][i] in lists[k];
      assert lists[k][i] in Range(lists[k][i], k);
    }

    /** Where the blocks lie relative to a window that is in no list: a page of f
        in an aligned window disjoint from f is the head of a block, provided the
        window's enclosing window is not free. */
    lemma ProbeHitsHead(f: set<nat>, t: State, p: nat, o: nat) returns (r: nat)
      requires Represents(f) && WellFormed(t) && t.lo == startPage && t.hi == endPage
      requires o < MAX_BUDDY_ORDER && Aligned(p, o) && Whole(FreePages(t), p, o)
      requires f == FreePages(t) - Range(p, o)
      ensures startPage <= BuddyOf(p, o) < endPage
      ensures r <= o
      ensures (BuddyOf(p, o) in t.outs && t.outs[BuddyOf(p, o)] == r) || IsBlock(f, BuddyOf(p, o), r)
    {
      var b := BuddyOf(p, o);
      Halves(p, o);
      BuddyInRegion(t, p, o);
      assert b in Range(b, o) && p in Range(p, o);
      assert b !in Range(p, o);
      assert p in FreePages(t) && p !in f;
      if Taken(t.outs, b) {
        var h: nat :| h in t.outs && t.outs[h] <= MAX_BUDDY_ORDER && b in Range(h, t.outs[h]);
        r := t.outs[h];
        assert p !in Range(h, r);
        if o < r { LargerContainsBoth(p, o, h, r); }
        Nested(h, r, b, o);
      } else {
        r := PageCovered(f, b);
        var h := Window(b, r);
        assert b in Range(h, r) && p !in Range(h, r);
        if o < r { LargerContainsBoth(p, o, h, r); }
        Nested(h, r, b, o);
      }
    }

    lemma BuddyInRegion(t: State, p: nat, o: nat)
      requires WellFormed(t) && o < MAX_BUDDY_ORDER && Aligned(p, o) && Whole(FreePages(t), p, o)
      ensures t.lo <= BuddyOf(p, o) && BuddyOf(p, o) + BlockSize(o) <= t.hi
    {
      Halves(p, o);
      assert p in Range(p, o) && p in FreePages(t);
      var w := Window(p, o + 1);
      Coarser(t.lo, o + 1, MAX_BUDDY_ORDER);
      Coarser(t.hi, o + 1, MAX_BUDDY_ORDER);
      Gap(t.lo, w, o + 1);
      Gap(w + BlockSize(o + 1), t.hi, o + 1) by {
        ModShift(w, BlockSize(o + 1));
      }
    }

    // ------------------------------------------------------------- the lists

    ghost predicate Unlisted(p: nat)
      reads `lists
    {
      p < pages.Length && forall k: nat :: k < |lists| ==> p !in lists[k]
    }

    /** The rings share no node. */
    ghost predicate Separate()
      requires |lists| == MAX_BUDDY_ORDER + 1
      reads `lists
    {
      forall k: nat, j: nat :: k <= MAX_BUDDY_ORDER && j <= MAX_BUDDY_ORDER && k != j ==> Apart(RingOf(k), RingOf(j))
    }

    lemma LinkAll(s: seq<ListHead>, k: nat, at: nat, page: nat)
      requires |lists| == MAX_BUDDY_ORDER + 1 && Separate() && k <= MAX_BUDDY_ORDER && at <= |lists[k]|
      requires |s| == pages.Length + MAX_BUDDY_ORDER + 1 && Unlisted(page)
      requires forall j: nat :: j <= MAX_BUDDY_ORDER ==> Ring(s, RingOf(j))
      ensures var c := RingOf(k); c[at] < |s| && After(c, at) < |s|
      ensures var c := RingOf(k);
        forall j: nat :: j <= MAX_BUDDY_ORDER ==>
          Ring(Linked(s, page, c[at], After(c, at)), [Head(j)] + if j == k then InsertAt(lists[k], at, page) else lists[j])
    {
      var c := RingOf(k);
      RingNeighbours(s, c, at);
      forall j: nat | j <= MAX_BUDDY_ORDER
        ensures Ring(Linked(s, page, c[at], After(c, at)), [Head(j)] + if j == k then InsertAt(lists[k], at, page) else lists[j])
      {
        if j == k {
          LinkKeepsRing(s, c, at, page);
          assert InsertAt(c, at + 1, page) == [Head(k)] + InsertAt(lists[k], at, page);
        } else {
          LinkKeepsOther(s, c, at, page, RingOf(j));
        }
      }
    }

    /** The walk of buddy_list_add: link the page before the first entry that it
        must precede. */
    method LinkSorted(page: nat, k: nat) returns (ghost at: nat)
      requires Rings() && Separate() && k <= MAX_BUDDY_ORDER && Unlisted(page)
      modifies nodes
      ensures at == Position(lists[k], k, page)
      ensures var c := RingOf(k); c[at] < nodes.Length && After(c, at) < nodes.Length
      ensures var c := RingOf(k); nodes[..] == Linked(old(nodes[..]), page, c[at], After(c, at))
    {
      hide Linked;
      hide Position;
      hide Apart;
      hide Joined;
      hide BuddySystem.Separate;
      ghost var l := lists[k];
      ghost var c := RingOf(k);
      var head := Head(k);
      at := 0;
      RingNeighbours(nodes[..], c, 0);
      if l != [] { assert c[|c| - 1] != c[0]; }
      if nodes[head].prev == head {
        ListAdd(nodes, page, head);
      } else {
        assert l != [];
        var temp, end := nodes[head].next, nodes[head].prev;
        var found := false;
        assert temp == l[0] && end == l[|l| - 1];
        while temp != end
          invariant at < |l| && temp == l[at] == c[at + 1]
          invariant forall j :: 0 <= j < at ==> Precedes(k, l[j], page)
          invariant nodes[..] == old(nodes[..])
          decreases |l| - at
        {
          RingNeighbours(nodes[..], c, at + 1);
          assert at < |l| - 1;
          if if k == 0 then temp >= page else temp <= page {
            found := true;
            RingNeighbours(nodes[..], c, at);
            ListAdd(nodes, page, nodes[temp].prev);
            break;
          }
          temp := nodes[temp].next;
          at := at + 1;
        }
        if at < |l| - 1 { assert c[at + 1] != c[|c| - 1]; }
        if !found {
          RingNeighbours(nodes[..], c, at + 1);
          if if k == 0 then end >= page else end <= page {
            RingNeighbours(nodes[..], c, at);
            ListAdd(nodes, page, nodes[end].prev);
          } else {
            ListAdd(nodes, page, end);
            at := at + 1;
          }
        }
      }
      assert at == Position(l, k, page);
    }

    /** buddy_list_add: the page enters list k at its sorted position. */
    method BuddyListAdd(page: nat, k: nat)
      requires Rings() && Separate() && k <= MAX_BUDDY_ORDER && Unlisted(page)
      modifies nodes, `lists
      ensures Rings()
      ensures lists == old(lists)[k := InsertAt(old(lists[k]), Position(old(lists[k]), k, page), page)]
    {
      ghost var at := LinkSorted(page, k);
      LinkAll(old(nodes[..]), k, at, page);
      lists := lists[k := InsertAt(lists[k], at, page)];
    }

    lemma UnlinkAll(s: seq<ListHead>, k: nat, i: nat)
      requires |lists| == MAX_BUDDY_ORDER + 1 && Separate() && k <= MAX_BUDDY_ORDER && i < |lists[k]|
      requires forall j: nat :: j <= MAX_BUDDY_ORDER ==> Ring(s, RingOf(j))
      ensures var e := lists[k][i]; e < |s| && s[e].prev < |s| && s[e].next < |s|
      ensures forall j: nat :: j <= MAX_BUDDY_ORDER ==>
        Ring(Unlinked(s, lists[k][i]), [Head(j)] + if j == k then RemoveAt(lists[k], i) else lists[j])
    {
      var c := RingOf(k);
      UnlinkKeepsRing(s, c, i + 1);
      forall j: nat | j <= MAX_BUDDY_ORDER
        ensures Ring(Unlinked(s, c[i + 1]), [Head(j)] + if j == k then RemoveAt(lists[k], i) else lists[j])
      {
        if j == k {
          assert RemoveAt(c, i + 1) == [Head(k)] + RemoveAt(lists[k], i);
        } else {
          UnlinkKeepsOther(s, c, i + 1, RingOf(j));
        }
      }
    }

    /** list_del_init of a page on list k. */
    method Unlist(page: nat, k: nat, ghost i: nat)
      requires Rings() && Separate() && k <= MAX_BUDDY_ORDER && i < |lists[k]| && lists[k][i] == page
      modifies nodes, `lists
      ensures Rings()
      ensures lists == old(lists)[k := RemoveAt(old(lists[k]), i)]
    {
      UnlinkAll(nodes[..], k, i);
      ListDelInit(nodes, page);
      lists := lists[k := RemoveAt(lists[k], i)];
    }

    lemma BlocksSeparate(f: set<nat>)
      requires Represents(f)
      ensures Separate()
    {
      forall k: nat, j: nat | k <= MAX_BUDDY_ORDER && j <= MAX_BUDDY_ORDER && k != j
        ensures Apart(RingOf(k), RingOf(j))
      {
        RingsApart(f, k, j);
      }
    }

    lemma NotListed(f: set<nat>, p: nat)
      requires Represents(f) && p < pages.Length && p !in f
      ensures Unlisted(p)
    {
      forall k: nat | k < |lists| ensures p !in lists[k] {
        forall i | 0 <= i < |lists[k]| ensures lists[k][i] != p { ListedBlock(f, k, i); }
      }
    }

    /** Take block i of list k off the lists: list_del_init and --freeNumer. */
    method TakeBlock(page: nat, k: nat, ghost i: nat, ghost f: set<nat>)
      requires Represents(f) && k <= MAX_BUDDY_ORDER && i < |lists[k]| && lists[k][i] == page
      modifies nodes, freeNumer, `lists
      ensures IsBlock(f, page, k)
      ensures Represents(f - Range(page, k))
    {
      BlocksSeparate(f);
      RemoveCanonical(f, lists, k, i);
      ghost var ls := lists;
      Unlist(page, k, i);
      freeNumer[k] := freeNumer[k] - 1;
      forall j: nat, x: nat | j < |lists| && x < |lists[j]|
        ensures lists[j][x] < pages.Length && pages[lists[j][x]] == Page(Reserved, j)
      {
        if j == k && x >= i { assert lists[j][x] == ls[j][x + 1]; } else { assert lists[j][x] == ls[j][x]; }
      }
    }

    /** buddy_list_add, ++freeNumer, set_pageOrderLevel and set_flag. */
    method MarkListed(page: nat, k: nat)
      requires Linkage() && HeadsMarked() && Separate() && k <= MAX_BUDDY_ORDER && Unlisted(page)
      modifies nodes, freeNumer, `lists, pages
      ensures Linkage() && HeadsMarked()
      ensures lists == old(lists)[k := InsertAt(old(lists[k]), Position(old(lists[k]), k, page), page)]
      ensures pages[page] == Page(Reserved, k)
      ensures forall q: nat :: q < pages.Length && q != page ==> pages[q] == old(pages[q])
    {
      ghost var ls := lists;
      ghost var at := Position(ls[k], k, page);
      BuddyListAdd(page, k);
      freeNumer[k] := freeNumer[k] + 1;
      pages[page] := pages[page].(pageOrderLevel := k);
      pages[page] := pages[page].(flag := Reserved);
      forall j: nat, x: nat | j < |lists| && x < |lists[j]|
        ensures lists[j][x] < pages.Length && pages[lists[j][x]] == Page(Reserved, j)
      {
        if j == k {
          if x > at { assert lists[j][x] == ls[j][x - 1]; }
          else if x < at { assert lists[j][x] == ls[j][x]; }
        } else {
          assert lists[j][x] == ls[j][x];
        }
      }
    }

    /** Put a marked block on list k: buddy_list_add and ++freeNumer. */
    method PutBlock(page: nat, k: nat, ghost f: set<nat>, ghost t: State)
      requires Represents(f) && k <= MAX_BUDDY_ORDER && Aligned(page, k)
      requires Range(page, k) !! f && Range(page, k) <= Interval(startPage, endPage)
      requires k < MAX_BUDDY_ORDER ==> !Whole(f, BuddyOf(page, k), k)
      requires FlagsMatch(t) && page !in t.outs && page < pages.Length
      modifies nodes, freeNumer, `lists, pages
      ensures pages[page] == Page(Reserved, k)
      ensures forall q: nat :: q < pages.Length && q != page ==> pages[q] == old(pages[q])
      ensures Represents(f + Range(page, k)) && FlagsMatch(t)
    {
      assert page in Range(page, k);
      BlocksSeparate(f);
      NotListed(f, page);
      AddCanonical(f, lists, page, k);
      MarkListed(page, k);
    }

    // ----------------------------------------------------------- __free_pages

    /** judge_in_same_buddy, for a page that starts a window held outside the
        lists: although interior pages keep stale levels, the probe answers
        whether the buddy window is a free block of that very order. */
    method JudgeInSameBuddy(judgePage: nat, level: nat, pageIndex: nat, ghost t: State) returns (same: bool)
      requires WellFormed(t) && t.lo == startPage && t.hi == endPage && FlagsMatch(t)
      requires level < MAX_BUDDY_ORDER && Aligned(judgePage, level) && Whole(FreePages(t), judgePage, level)
      requires Represents(FreePages(t) - Range(judgePage, level))
      requires judgePage == startPage + pageIndex
      ensures same <==> IsBlock(FreePages(t) - Range(judgePage, level), BuddyOf(judgePage, level), level)
      ensures same <==> Whole(FreePages(t) - Range(judgePage, level), BuddyOf(judgePage, level), level)
    {
      hide BuddySystem.Represents;
      hide IsBlock;
      hide Whole;
      hide Window;
      hide FreePages;
      hide Xor;
      hide And;
      hide Pow2;
      ghost var f := FreePages(t) - Range(judgePage, level);
      OffsetAligned(startPage, pageIndex, level);
      XorIsBuddy(startPage, pageIndex, level);
      ghost var r := ProbeHitsHead(f, t, judgePage, level);
      ProbeAnswer(f, t, judgePage, level, r);
      var buddyGroupIndex := Xor(pageIndex, Pow2(level));
      var buddyGroupPage := judgePage + buddyGroupIndex - pageIndex;
      if pages[buddyGroupPage].pageOrderLevel != level {
        return false;
      }
      if pages[buddyGroupPage].flag == Alloced {
        return false;
      }
      return true;
    }

    lemma ProbeAnswer(f: set<nat>, t: State, p: nat, o: nat, r: nat)
      requires Represents(f) && WellFormed(t) && t.lo == startPage && t.hi == endPage && FlagsMatch(t)
      requires o < MAX_BUDDY_ORDER && Aligned(p, o) && f == FreePages(t) - Range(p, o)
      requires startPage <= BuddyOf(p, o) < endPage && r <= o
      requires (BuddyOf(p, o) in t.outs && t.outs[BuddyOf(p, o)] == r) || IsBlock(f, BuddyOf(p, o), r)
      ensures var b := BuddyOf(p, o);
        (pages[b].pageOrderLevel == o && pages[b].flag != Alloced <==> IsBlock(f, b, o))
        && (IsBlock(f, b, o) <==> Whole(f, b, o))
    {
      var b := BuddyOf(p, o);
      assert b in Range(b, o);
      if b in t.outs {
        assert b in Range(b, t.outs[b]);
        assert Taken(t.outs, b);
      } else {
        assert CanonicalAt(f, lists[r], r);
        assert b in lists[r];
        var i: nat :| i < |lists[r]| && lists[r][i] == b;
        ListedBlock(f, r, i);
        if Whole(f, b, o) { MaximalMeets(f, b, r, b, o); }
      }
    }

    /** A block of f is on its list. */
    lemma FindListed(f: set<nat>, p: nat, k: nat) returns (i: nat)
      requires Represents(f) && IsBlock(f, p, k)
      ensures k < |lists| && i < |lists[k]| && lists[k][i] == p
    {
      assert CanonicalAt(f, lists[k], k);
      assert p in lists[k];
      i :| i < |lists[k]| && lists[k][i] == p;
    }

    /** set_pageOrderLevel on a page that is in no list and heads no outstanding block. */
    method SetLevel(page: nat, level: nat, ghost f: set<nat>, ghost t: State)
      requires Represents(f) && FlagsMatch(t)
      requires page < pages.Length && page !in f && page !in t.outs
      modifies pages
      ensures pages[page] == old(pages[page]).(pageOrderLevel := level)
      ensures forall q: nat :: q < pages.Length && q != page ==> pages[q] == old(pages[q])
      ensures Represents(f) && FlagsMatch(t)
    {
      NotListed(f, page);
      pages[page] := pages[page].(pageOrderLevel := level);
    }

    /** set_flag on the first page of a block that is being released. */
    method SetReserved(page: nat, ghost f: set<nat>, ghost s: State)
      requires Represents(f) && FlagsMatch(s) && page < pages.Length && page !in f
      modifies pages
      ensures pages[page] == old(pages[page]).(flag := Reserved)
      ensures forall q: nat :: q < pages.Length && q != page ==> pages[q] == old(pages[q])
      ensures Represents(f) && FlagsMatch(AfterFree(s, page))
    {
      NotListed(f, page);
      pages[page] := pages[page].(flag := Reserved);
    }

    lemma MergeFacts(t: State, p: nat, o: nat)
      requires WellFormed(t) && o < MAX_BUDDY_ORDER && Aligned(p, o) && Whole(FreePages(t), p, o)
      requires Whole(FreePages(t) - Range(p, o), BuddyOf(p, o), o)
      ensures var w, b := Window(p, o + 1), BuddyOf(p, o);
        && FreePages(t) - Range(p, o) - Range(b, o) == FreePages(t) - Range(w, o + 1)
        && Whole(FreePages(t), w, o + 1)
        && b in Range(b, o) && b in FreePages(t) && b !in t.outs && t.lo <= b < t.hi
    {
      Halves(p, o);
      var b := BuddyOf(p, o);
      assert b in Range(b, o);
      assert b in t.outs ==> b in Range(b, t.outs[b]);
    }

    lemma RegionOf(t: State, p: nat, o: nat)
      requires WellFormed(t) && t.lo == startPage && t.hi == endPage && FlagsMatch(t)
      ensures startPage % BlockSize(MAX_BUDDY_ORDER) == 0 && endPage <= pages.Length
    {
    }

    method MergeIndices(page: nat, order: nat, pageIndex: nat) returns (buddyGroupPage: nat, page': nat, pageIndex': nat)
      requires startPage % BlockSize(MAX_BUDDY_ORDER) == 0
      requires order < MAX_BUDDY_ORDER && Aligned(page, order) && page == startPage + pageIndex
      ensures buddyGroupPage == BuddyOf(page, order)
      ensures page' == startPage + pageIndex' == Window(page, order + 1)
    {
      OffsetAligned(startPage, pageIndex, order);
      XorIsBuddy(startPage, pageIndex, order);
      var buddyGroupIndex := Xor(pageIndex, Pow2(order));
      buddyGroupPage := page + buddyGroupIndex - pageIndex;
      var combinedIndex := And(buddyGroupIndex, pageIndex);
      page' := page + combinedIndex - pageIndex;
      pageIndex' := combinedIndex;
    }

    /** One turn of the coalescing loop: the buddy leaves its list and the window
        in hand doubles. */
    method MergeWithBuddy(page: nat, order: nat, pageIndex: nat, ghost t: State) returns (page': nat, pageIndex': nat)
      requires WellFormed(t) && t.lo == startPage && t.hi == endPage && FlagsMatch(t)
      requires order < MAX_BUDDY_ORDER && Aligned(page, order) && Whole(FreePages(t), page, order)
      requires Represents(FreePages(t) - Range(page, order))
      requires page == startPage + pageIndex
      requires IsBlock(FreePages(t) - Range(page, order), BuddyOf(page, order), order)
      modifies nodes, freeNumer, `lists, pages
      ensures FlagsMatch(t)
      ensures page' == startPage + pageIndex' && Aligned(page', order + 1)
      ensures Whole(FreePages(t), page', order + 1)
      ensures Represents(FreePages(t) - Range(page', order + 1))
      ensures forall q: nat :: q < pages.Length && !(startPage <= q < endPage) ==> pages[q] == old(pages[q])
    {
      hide BuddySystem.Represents;
      hide IsBlock;
      hide Whole;
      hide Window;
      hide BuddyOf;
      hide WellFormed;
      hide Range;
      hide FreePages;
      RegionOf(t, page, order);
      ghost var f := FreePages(t) - Range(page, order);
      BlockIsWhole(f, BuddyOf(page, order), order);
      MergeFacts(t, page, order);
      var buddyGroupPage;
      buddyGroupPage, page', pageIndex' := MergeIndices(page, order, pageIndex);
      ghost var i := FindListed(f, buddyGroupPage, order);
      TakeBlock(buddyGroupPage, order, i, f);
      ghost var g := FreePages(t) - Range(page', order + 1);
      assert f - Range(buddyGroupPage, order) == g;
      SetLevel(buddyGroupPage, NO_LEVEL, g, t);
    }

    /** The coalescing loop: grow the window in hand until its buddy is not a free
        block of the same order. */
    method Coalesce(pbpage: nat, pageOrderLevel: nat, ghost t: State) returns (page: nat, order: nat)
      requires WellFormed(t) && t.lo == startPage && t.hi == endPage && FlagsMatch(t)
      requires pageOrderLevel <= MAX_BUDDY_ORDER && Aligned(pbpage, pageOrderLevel) && startPage <= pbpage
      requires Whole(FreePages(t), pbpage, pageOrderLevel)
      requires Represents(FreePages(t) - Range(pbpage, pageOrderLevel))
      modifies nodes, freeNumer, `lists, pages
      ensures order <= MAX_BUDDY_ORDER && Aligned(page, order) && FlagsMatch(t)
      ensures Whole(FreePages(t), page, order)
      ensures Represents(FreePages(t) - Range(page, order))
      ensures order < MAX_BUDDY_ORDER ==> !Whole(FreePages(t) - Range(page, order), BuddyOf(page, order), order)
      ensures forall q: nat :: q < pages.Length && !(startPage <= q < endPage) ==> pages[q] == old(pages[q])
    {
      hide BuddySystem.Represents;
      hide BuddySystem.FlagsMatch;
      var pageIndex: nat := pbpage - startPage;
      page, order := pbpage, pageOrderLevel;
      ghost var listed := FreePages(t) - Range(page, order);
      while order < MAX_BUDDY_ORDER
        invariant order <= MAX_BUDDY_ORDER && Aligned(page, order) && page == startPage + pageIndex
        invariant Whole(FreePages(t), page, order)
        invariant listed == FreePages(t) - Range(page, order)
        invariant Represents(listed)
        invariant FlagsMatch(t)
        invariant forall q: nat :: q < pages.Length && !(startPage <= q < endPage) ==> pages[q] == old(pages[q])
      {
        var same := JudgeInSameBuddy(page, order, pageIndex, t);
        if !same {
          break;
        }
        page, pageIndex := MergeWithBuddy(page, order, pageIndex, t);
        order := order + 1;
        listed := FreePages(t) - Range(page, order);
      }
    }

    lemma FreeFacts(s: State, p: nat)
      requires WellFormed(s) && p in s.outs
      ensures var o, t := s.outs[p], AfterFree(s, p);
        && WellFormed(t) && o <= MAX_BUDDY_ORDER && Aligned(p, o) && Whole(FreePages(t), p, o)
        && FreePages(s) == FreePages(t) - Range(p, o) && p !in FreePages(s)
    {
      FreeKeepsWellFormed(s, p);
      assert p in Range(p, s.outs[p]);
    }

    lemma FinalFacts(t: State, p: nat, o: nat)
      requires WellFormed(t) && o <= MAX_BUDDY_ORDER && Whole(FreePages(t), p, o)
      ensures var f, r := FreePages(t), Range(p, o);
        f - r + r == f && r !! f - r && r <= Interval(t.lo, t.hi) && p !in t.outs && t.lo <= p < t.hi
    {
      assert p in Range(p, o);
      assert p in t.outs ==> p in Range(p, t.outs[p]);
    }

    /** __free_pages: releasing the first page of an outstanding block merges it
        back; releasing any other page of the region changes nothing. */
    method FreePageBlock(pbpage: nat, pageOrderLevel: nat)
      requires Valid() && startPage <= pbpage < endPage
      requires pbpage in outs ==> outs[pbpage] == pageOrderLevel
      modifies `outs, `lists, pages, nodes, freeNumer
      ensures Valid()
      ensures Abs() == AfterFree(old(Abs()), pbpage)
      ensures pbpage !in old(outs) ==>
        pages[..] == old(pages[..]) && nodes[..] == old(nodes[..]) && freeNumer[..] == old(freeNumer[..]) && lists == old(lists)
      ensures forall q: nat :: q < pages.Length && !(startPage <= q < endPage) ==> pages[q] == old(pages[q])
    {
      hide BuddySystem.Represents;
      hide WellFormed;
      if !(pages[pbpage].flag == Alloced || pages[pbpage].flag == Slab) {
        FreeKeepsWellFormed(Abs(), pbpage);
        return;
      }
      ghost var s := Abs();
      ghost var t := AfterFree(s, pbpage);
      FreeFacts(s, pbpage);
      SetReserved(pbpage, FreePages(s), s);
      outs := t.outs;
      var page, order := Coalesce(pbpage, pageOrderLevel, t);
      FinalFacts(t, page, order);
      PutBlock(page, order, FreePages(t) - Range(page, order), t);
    }

    // ---------------------------------------------------------- __alloc_pages

    /** The search for the smallest order with a non-empty list. */
    method FindOrder(order: nat) returns (current: nat)
      requires Linkage()
      ensures current == SourceOrder(lists, order)
    {
      current := order;
      while current <= MAX_BUDDY_ORDER
        invariant SourceOrder(lists, current) == SourceOrder(lists, order)
        decreases MAX_BUDDY_ORDER + 1 - current
      {
        assert Ring(nodes[..], RingOf(current));
        var empty := ListEmpty(nodes, Head(current), lists[current]);
        if !empty {
          break;
        }
        current := current + 1;
      }
    }

    /** The last entry of the list when a larger block is to be split, else the first. */
    method PickBlock(current: nat, order: nat) returns (page: nat, ghost i: nat)
      requires Linkage() && current <= MAX_BUDDY_ORDER && lists[current] != []
      ensures i == if current == order then 0 else |lists[current]| - 1
      ensures page == if current == order then lists[current][0] else lists[current][|lists[current]| - 1]
    {
      RingNeighbours(nodes[..], RingOf(current), 0);
      if current != order {
        i := |lists[current]| - 1;
        page := nodes[Head(current)].prev;
      } else {
        i := 0;
        page := nodes[Head(current)].next;
      }
    }

    /** set_pageOrderLevel and set_flag on the block that is handed out. */
    method SetAlloced(page: nat, order: nat, ghost f: set<nat>, ghost s: State)
      requires Represents(f) && FlagsMatch(s) && page < pages.Length && page !in f
      modifies pages
      ensures Represents(f) && FlagsMatch(s.(outs := s.outs[page := order]))
      ensures pages[page] == Page(Alloced, order)
      ensures forall q: nat :: q < pages.Length && q != page ==> pages[q] == old(pages[q])
    {
      NotListed(f, page);
      pages[page] := pages[page].(pageOrderLevel := order);
      pages[page] := pages[page].(flag := Alloced);
    }

    lemma SplitFacts(s: State, t: State, p: nat, c: nat, b: nat)
      requires WellFormed(s) && WellFormed(t) && c < MAX_BUDDY_ORDER && Aligned(p, c + 1) && Whole(FreePages(s), p, c + 1)
      requires p in t.outs && t.outs == s.outs[p := t.outs[p]] && b == p + BlockSize(c)
      ensures Aligned(p, c) && Aligned(b, c) && Whole(FreePages(s), p, c) && BuddyOf(b, c) == p
      ensures var f := FreePages(s);
        && Range(b, c) !! f - Range(p, c + 1)
        && Range(b, c) <= Interval(s.lo, s.hi)
        && !Whole(f - Range(p, c + 1), p, c)
        && f - Range(p, c + 1) + Range(b, c) == f - Range(p, c)
        && s.lo <= b < s.hi && b !in t.outs
    {
      Coarser(p, c, c + 1);
      Halves(p, c);
      BuddySide(p, c);
      assert Window(p, c + 1) == p;
      assert b == BuddyOf(p, c);
      BuddySide(b, c);
      assert p in Range(p, c) && b in Range(b, c);
      assert b in FreePages(s);
      assert b in s.outs ==> b in Range(b, s.outs[b]);
    }

    /** One turn of the splitting loop: the upper half goes back. */
    method SplitOnce(page: nat, current: nat, buddyPage: nat, ghost s: State, ghost t: State)
      requires WellFormed(s) && WellFormed(t) && s.lo == startPage && s.hi == endPage && FlagsMatch(t)
      requires current < MAX_BUDDY_ORDER && Aligned(page, current + 1) && Whole(FreePages(s), page, current + 1)
      requires page in t.outs && t.outs == s.outs[page := t.outs[page]] && buddyPage == page + BlockSize(current)
      requires Represents(FreePages(s) - Range(page, current + 1))
      modifies nodes, freeNumer, `lists, pages
      ensures Aligned(page, current) && Whole(FreePages(s), page, current)
      ensures Represents(FreePages(s) - Range(page, current)) && FlagsMatch(t)
      ensures forall q: nat :: q < pages.Length && !(startPage <= q < endPage) ==> pages[q] == old(pages[q])
    {
      ghost var f, g := FreePages(s) - Range(page, current + 1), FreePages(s) - Range(page, current);
      SplitFacts(s, t, page, current, buddyPage);
      PutBlock(buddyPage, current, f, t);
      assert f + Range(buddyPage, current) == g;
    }

    /** The splitting loop: hand the upper halves back until the block fits. */
    method SplitDown(page: nat, from: nat, order: nat, ghost s: State, ghost t: State)
      requires WellFormed(s) && WellFormed(t) && s.lo == startPage && s.hi == endPage && FlagsMatch(t)
      requires order <= from <= MAX_BUDDY_ORDER && Aligned(page, from) && Whole(FreePages(s), page, from)
      requires t.outs == s.outs[page := order]
      requires Represents(FreePages(s) - Range(page, from))
      modifies nodes, freeNumer, `lists, pages
      ensures Represents(FreePages(s) - Range(page, order)) && FlagsMatch(t)
      ensures forall q: nat :: q < pages.Length && !(startPage <= q < endPage) ==> pages[q] == old(pages[q])
    {
      BlockSizeIsPow2(from);
      var current, size := from, Pow2(from);
      ghost var listed := FreePages(s) - Range(page, from);
      while current > order
        invariant order <= current <= MAX_BUDDY_ORDER && size == BlockSize(current)
        invariant Aligned(page, current) && Whole(FreePages(s), page, current)
        invariant listed == FreePages(s) - Range(page, current)
        invariant Represents(listed)
        invariant FlagsMatch(t)
        invariant forall q: nat :: q < pages.Length && !(startPage <= q < endPage) ==> pages[q] == old(pages[q])
      {
        current := current - 1;
        size := size / 2;
        assert size == BlockSize(current);
        SplitOnce(page, current, page + size, s, t);
        listed := FreePages(s) - Range(page, current);
      }
    }

    lemma TakeFacts(s: State, order: nat)
      requires WellFormed(s) && AllocResult(s, order).Some?
      ensures var p, c, t := AllocResult(s, order).value, SourceOrder(FreeLists(s), order), AfterAlloc(s, order);
        && order <= c <= MAX_BUDDY_ORDER && IsBlock(FreePages(s), p, c)
        && WellFormed(t) && FreePages(t) == FreePages(s) - Range(p, order)
        && p in Range(p, c) && s.lo <= p < s.hi
    {
      var ls := FreeLists(s);
      var c := SourceOrder(ls, order);
      AllocKeepsWellFormed(s, order);
      ListedIsBlock(s, c, if c == order then 0 else |ls[c]| - 1);
      var p := AllocResult(s, order).value;
      assert p in Range(p, c);
    }

    /** Take the block off its list, mark it, and split it down to the order. */
    method HandOut(page: nat, current: nat, order: nat, ghost i: nat, ghost s: State, ghost t: State)
      requires WellFormed(s) && WellFormed(t) && s.lo == startPage && s.hi == endPage && FlagsMatch(s)
      requires order <= current <= MAX_BUDDY_ORDER && Represents(FreePages(s))
      requires i < |lists[current]| && lists[current][i] == page && IsBlock(FreePages(s), page, current)
      requires page in Range(page, current) && startPage <= page < endPage
      requires t == s.(outs := s.outs[page := order]) && FreePages(t) == FreePages(s) - Range(page, order)
      modifies nodes, freeNumer, `lists, pages
      ensures Represents(FreePages(t)) && FlagsMatch(t)
      ensures forall q: nat :: q < pages.Length && !(startPage <= q < endPage) ==> pages[q] == old(pages[q])
    {
      TakeBlock(page, current, i, FreePages(s));
      SetAlloced(page, order, FreePages(s) - Range(page, current), s);
      SplitDown(page, current, order, s, t);
    }

    /** __alloc_pages from the label `found` on. */
    method AllocFound(current: nat, order: nat) returns (page: nat)
      requires Valid() && current == SourceOrder(FreeLists(Abs()), order) && current <= MAX_BUDDY_ORDER
      modifies `outs, `lists, pages, nodes, freeNumer
      ensures Valid()
      ensures Some(page) == AllocResult(old(Abs()), order)
      ensures Abs() == AfterAlloc(old(Abs()), order)
      ensures forall q: nat :: q < pages.Length && !(startPage <= q < endPage) ==> pages[q] == old(pages[q])
    {
      hide WellFormed;
      hide FreeLists;
      hide IsBlock;
      hide Canonical;
      hide BuddySystem.HeadsMarked;
      hide FreePages;
      ghost var s := Abs();
      ghost var i;
      ListsAreCanonical();
      page, i := PickBlock(current, order);
      assert AllocResult(s, order) == Some(page);
      TakeFacts(s, order);
      HandOut(page, current, order, i, s, AfterAlloc(s, order));
      outs := outs[page := order];
    }

    /** __alloc_pages. */
    method AllocPageBlock(order: nat) returns (r: Option<nat>)
      requires Valid()
      modifies `outs, `lists, pages, nodes, freeNumer
      ensures Valid()
      ensures r == AllocResult(old(Abs()), order)
      ensures Abs() == AfterAlloc(old(Abs()), order)
      ensures r.None? ==>
        pages[..] == old(pages[..]) && nodes[..] == old(nodes[..]) && freeNumer[..] == old(freeNumer[..]) && lists == old(lists)
      ensures forall q: nat :: q < pages.Length && !(startPage <= q < endPage) ==> pages[q] == old(pages[q])
    {
      ListsAreCanonical();
      var current := FindOrder(order);
      if current > MAX_BUDDY_ORDER {
        return None;
      }
      var page := AllocFound(current, order);
      return Some(page);
    }

    // ------------------------------------------------------------ statistics

    /** get_buddy_allocation_state: the residual memory in KB.  Together with 4 KB
        for every outstanding page it makes up the total. */
    method GetAllocationState() returns (totalMemory: nat, residual: nat)
      requires Valid() && startPage <= endPage
      ensures totalMemory == 4 * (endPage - startPage)
      ensures residual + 4 * PagesOut(outs, endPage) == totalMemory
    {
      totalMemory := 4 * (endPage - startPage);
      residual := 0;
      var index, singleElementSize := 0, 4;
      while index <= MAX_BUDDY_ORDER
        invariant index <= MAX_BUDDY_ORDER + 1
        invariant index <= MAX_BUDDY_ORDER ==> singleElementSize == 4 * BlockSize(index)
        invariant residual == 4 * ListedBelow(lists, index)
      {
        residual := residual + singleElementSize * freeNumer[index];
        singleElementSize := singleElementSize * 2;
        index := index + 1;
      }
      ListsAreCanonical();
      Conservation(Abs());
    }

    // ------------------------------------------------------------------ init

    constructor (maxPhysicalFrameNumber: nat)
      ensures pages.Length == maxPhysicalFrameNumber
      ensures nodes.Length == maxPhysicalFrameNumber + MAX_BUDDY_ORDER + 1
      ensures freeNumer.Length == MAX_BUDDY_ORDER + 1
      ensures fresh(pages) && fresh(nodes) && fresh(freeNumer)
    {
      pages := new Page[maxPhysicalFrameNumber](_ => Page(Clean, 0));
      nodes := new ListHead[maxPhysicalFrameNumber + MAX_BUDDY_ORDER + 1](_ => ListHead(0, 0));
      freeNumer := new nat[MAX_BUDDY_ORDER + 1](_ => 0);
    }

    /** init_pages. */
    method InitPages(start: nat, end: nat)
      requires start <= end <= pages.Length && nodes.Length >= pages.Length
      modifies pages, nodes
      ensures forall i: nat :: start <= i < end ==> pages[i] == Page(Alloced, NO_LEVEL)
      ensures forall i: nat :: start <= i < end ==> nodes[i] == ListHead(i, i)
    {
      var i := start;
      while i < end
        invariant start <= i <= end
        invariant forall j: nat :: start <= j < i ==> pages[j] == Page(Alloced, NO_LEVEL)
        invariant forall j: nat :: start <= j < i ==> nodes[j] == ListHead(j, j)
      {
        pages[i] := Page(Alloced, NO_LEVEL);
        nodes[i] := ListHead(i, i);
        i := i + 1;
      }
    }

    /** The initialisation of the five free lists. */
    method InitLists()
      requires nodes.Length == pages.Length + MAX_BUDDY_ORDER + 1 && freeNumer.Length == MAX_BUDDY_ORDER + 1
      requires startPage % BlockSize(MAX_BUDDY_ORDER) == 0 && endPage % BlockSize(MAX_BUDDY_ORDER) == 0
      requires endPage <= pages.Length
      modifies nodes, freeNumer, `lists
      ensures Linkage() && lists == [[], [], [], [], []]
    {
      var i := 0;
      while i < MAX_BUDDY_ORDER + 1
        invariant i <= MAX_BUDDY_ORDER + 1
        invariant forall k: nat :: k < i ==> freeNumer[k] == 0
        invariant forall h: nat :: pages.Length <= h < pages.Length + i ==> nodes[h] == ListHead(h, h)
      {
        freeNumer[i] := 0;
        nodes[Head(i)] := ListHead(Head(i), Head(i));
        i := i + 1;
      }
      lists := [[], [], [], [], []];
      forall k: nat | k <= MAX_BUDDY_ORDER ensures Ring(nodes[..], RingOf(k)) {
        assert RingOf(k) == [Head(k)];
        assert Joined(nodes[..], [Head(k)], 0);
      }
    }

    lemma NothingReleased(s: State)
      requires s == Released(startPage, endPage, 0) && Linkage() && lists == [[], [], [], [], []]
      requires startPage <= endPage
      ensures WellFormed(s) && Represents(FreePages(s))
    {
      ReleasedFree(startPage, endPage, 0);
      assert FreePages(s) == {};
      forall o | 0 <= o <= MAX_BUDDY_ORDER ensures CanonicalAt({}, lists[o], o) {
        forall p: nat ensures !IsBlock({}, p, o) { assert p in Range(p, o); }
      }
    }

    /** Before the first release every page counts as handed out on its own. */
    ghost method HoldAll()
      requires Linkage() && lists == [[], [], [], [], []] && startPage <= endPage
      requires forall i: nat :: startPage <= i < endPage ==> pages[i] == Page(Alloced, NO_LEVEL)
      modifies `outs
      ensures Valid() && Abs() == Released(startPage, endPage, 0)
    {
      NothingReleased(Released(startPage, endPage, 0));
      outs := Released(startPage, endPage, 0).outs;
    }

    /** The final loop of init_buddy: release every page of the region, lowest first.
        After each release the lists spell the number of pages released. */
    method ReleaseAll()
      requires Linkage() && lists == [[], [], [], [], []] && startPage <= endPage
      requires forall i: nat :: startPage <= i < endPage ==> pages[i] == Page(Alloced, NO_LEVEL)
      modifies `outs, `lists, pages, nodes, freeNumer
      ensures Valid() && outs == map[]
    {
      hide BuddySystem.Valid;
      hide BuddySystem.Linkage;
      HoldAll();
      var i := startPage;
      ghost var n: nat := 0;
      while i < endPage
        invariant startPage <= i <= endPage && i == startPage + n
        invariant Valid()
        invariant Abs() == Released(startPage, endPage, n)
      {
        ReleaseOne(i, n);
        i, n := i + 1, n + 1;
      }
      RegionAligned();
      InitComplete(startPage, endPage);
    }

    lemma RegionAligned()
      requires Valid()
      ensures startPage % 16 == 0 && endPage % 16 == 0 && WellFormed(Abs())
    {
      assert BlockSize(MAX_BUDDY_ORDER) == 16;
    }

    method ReleaseOne(i: nat, ghost n: nat)
      requires Valid() && startPage <= i < endPage && i == startPage + n
      requires Abs() == Released(startPage, endPage, n)
      modifies `outs, `lists, pages, nodes, freeNumer
      ensures Valid() && Abs() == Released(startPage, endPage, n + 1)
      ensures |lists[MAX_BUDDY_ORDER]| == (n + 1) / 16
      ensures forall o: nat :: o < MAX_BUDDY_ORDER ==> |lists[o]| == Bit(n + 1, o)
    {
      hide BuddySystem.Valid;
      hide Released;
      ReleaseNext(startPage, endPage, n);
      FreePageBlock(i, 0);
      ListsCount(n + 1);
    }

    /** After n releases the lists spell n in binary. */
    lemma ListsCount(n: nat)
      requires Valid() && startPage + n <= endPage && Abs() == Released(startPage, endPage, n)
      ensures |lists[MAX_BUDDY_ORDER]| == n / 16
      ensures forall o: nat :: o < MAX_BUDDY_ORDER ==> |lists[o]| == Bit(n, o)
    {
      ListsAreCanonical();
      BinaryCounter(startPage, endPage, n);
    }

    /** init_buddy, given the end addresses of the boot allocator's regions, each the
        address of the last byte.  A machine too small for the rounded region gets an
        empty one.  The region shares no page with a boot region if and only if the last
        boot page is not a multiple of 16; if it is, the final loop frees that page. */
    method InitBuddy(infoEnds: seq<nat>)
      requires pages.Length < WORD
      requires nodes.Length == pages.Length + MAX_BUDDY_ORDER + 1 && freeNumer.Length == MAX_BUDDY_ORDER + 1
      requires forall i :: 0 <= i < |infoEnds| ==> infoEnds[i] < WORD
      modifies this, pages, nodes, freeNumer
      ensures startPage % 16 == 0 && endPage % 16 == 0 && pages.Length < endPage + 16
      ensures startPage == RegionStart(infoEnds) && endPage == ClearLow(pages.Length, MAX_BUDDY_ORDER)
      ensures startPage < endPage ==>
        ((forall i :: 0 <= i < |infoEnds| ==> infoEnds[i] / 4096 !in FreePages(Abs()))
          <==> infoEnds == [] || LastBootPage(infoEnds) % 16 != 0)
      ensures startPage <= endPage ==> Valid() && outs == map[]
      ensures startPage <= endPage ==> |lists[4]| == (endPage - startPage) / 16
      ensures startPage <= endPage ==> forall o: nat :: o < MAX_BUDDY_ORDER ==> lists[o] == []
    {
      hide And;
      hide Pow2;
      hide LastBootByte;
      hide FreePages;
      hide BuddySystem.Valid;
      InitPages(0, pages.Length);
      var kernelEnd := KernelEndFrame(infoEnds);
      RegionAvoidsIff(infoEnds, ClearLow(pages.Length, MAX_BUDDY_ORDER));
      Pow2Values();
      startPage := ClearLow(kernelEnd + 15, MAX_BUDDY_ORDER);
      endPage := ClearLow(pages.Length, MAX_BUDDY_ORDER);
      InitLists();
      if startPage <= endPage {
        ReleaseAll();
        OnlyTopOrder();
        AllFree();
      }
    }

    lemma AllFree()
      requires Valid() && outs == map[] && startPage <= endPage
      ensures FreePages(Abs()) == Interval(startPage, endPage)
    {
    }

    lemma OnlyTopOrder()
      requires Valid() && outs == map[] && startPage <= endPage
      ensures |lists[4]| == (endPage - startPage) / 16
      ensures forall o: nat :: o < MAX_BUDDY_ORDER ==> lists[o] == []
    {
      InitComplete(startPage, endPage);
      ListsAreCanonical();
    }

    /** The highest end address of the boot regions, as a frame number. */
    method KernelEndFrame(infoEnds: seq<nat>) returns (frame: nat)
      requires forall i :: 0 <= i < |infoEnds| ==> infoEnds[i] < WORD
      ensures frame == LastBootPage(infoEnds)
    {
      var end := 0;
      var i := 0;
      while i < |infoEnds|
        invariant i <= |infoEnds|
        invariant end < WORD && end == LastBootByte(infoEnds[..i])
      {
        assert infoEnds[..i + 1][..i] == infoEnds[..i];
        if infoEnds[i] > end {
          end := infoEnds[i];
        }
        i := i + 1;
      }
      assert infoEnds[..i] == infoEnds;
      Pow2Values();
      frame := end / Pow2(12);
    }

    // ------------------------------------------------------------------ runs

    /** One request; a release passes the order the block was allocated with. */
    method Perform(op: Op)
      requires Valid() && (op.Free? ==> startPage <= op.page < endPage)
      modifies `outs, `lists, pages, nodes, freeNumer
      ensures Valid() && Abs() == Step(old(Abs()), op)
    {
      match op {
        case Alloc(o) =>
          var r := AllocPageBlock(o);
        case Free(p) =>
          var level := pages[p].pageOrderLevel;
          FreePageBlock(p, if level == NO_LEVEL then 0 else level);
      }
    }

    /** Any run of allocations and order-matching releases follows the abstract
        run, so the lists are the canonical ones of the state it reaches. */
    method Execute(ops: seq<Op>)
      requires Valid()
      requires forall i :: 0 <= i < |ops| && ops[i].Free? ==> startPage <= ops[i].page < endPage
      modifies `outs, `lists, pages, nodes, freeNumer
      ensures Valid()
      ensures Abs() == Run(old(Abs()), ops)
      ensures lists == FreeLists(Run(old(Abs()), ops))
    {
      ghost var s := Abs();
      var i := 0;
      while i < |ops|
        invariant i <= |ops| && Valid()
        invariant Run(Abs(), ops[i..]) == Run(s, ops)
        invariant Abs().lo == s.lo && Abs().hi == s.hi
      {
        assert ops[i..][0] == ops[i] && ops[i..][1..] == ops[i + 1..];
        Perform(ops[i]);
        i := i + 1;
      }
      assert ops[i..] == [];
      ListsAreCanonical();
    }

    /** An allocation followed by its release restores the lists. */
    method AllocateAndRelease(order: nat)
      requires Valid()
      modifies `outs, `lists, pages, nodes, freeNumer
      ensures Valid() && Abs() == old(Abs()) && lists == old(lists)
    {
      hide BuddySystem.Valid;
      hide WellFormed;
      hide FreeLists;
      hide AllocResult;
      hide Whole;
      RegionAligned();
      ListsAreCanonical();
      ghost var s := Abs();
      var r := AllocPageBlock(order);
      match r {
        case None =>
        case Some(page) =>
          AllocKeepsWellFormed(s, order);
          AllocThenFree(s, order);
          assert page in Range(page, order) && page in FreePages(s);
          FreePageBlock(page, order);
      }
      ListsAreCanonical();
    }
  }
  /** Whatever two systems went through, the same free pages mean the same free lists,
      element by element, and the same counters. */
  lemma HistoryIndependent(b: BuddySystem, b': BuddySystem)
    requires b.Valid() && b'.Valid() && FreePages(b.Abs()) == FreePages(b'.Abs())
    ensures b.lists == b'.lists && b.freeNumer[..] == b'.freeNumer[..]
  {
    CanonicalUnique(FreePages(b.Abs()), b.lists, b'.lists);
    forall k: nat | k <= MAX_BUDDY_ORDER ensures b.freeNumer[k] == b'.freeNumer[k] {
      assert b.freeNumer[k] == |b.lists[k]|;
    }
  }
}
