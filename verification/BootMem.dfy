/** The boot-time page finder of kernel/mm/bootmm.c: first fit with skips over a byte
    map of frames, for an alignment of one page. */
module BootMem {
  import opened Options
  import opened Bits

  const PAGE_FREE: nat := 0x00
  const PAGE_USED: nat := 0xFF

  // ---------------------------------------------------------------- free runs

  /** n free frames from s on, inside the window that ends before `end`; the first
      frame must be free even when n is 0. */
  ghost predicate RunAt(m: seq<nat>, s: nat, n: nat, end: nat) {
    && s < end <= |m| && m[s] == PAGE_FREE && s + n <= end
    && forall k :: s <= k < s + n ==> m[k] == PAGE_FREE
  }

  /** The lowest run in [s, end), if any. */
  ghost function LowestRun(m: seq<nat>, n: nat, s: nat, end: nat): (r: Option<nat>)
    ensures r.Some? ==> s <= r.value < end && RunAt(m, r.value, n, end)
    ensures r.Some? ==> forall j :: s <= j < r.value ==> !RunAt(m, j, n, end)
    ensures r.None? ==> forall j :: s <= j < end ==> !RunAt(m, j, n, end)
    decreases end - s
  {
    if s >= end then None else if RunAt(m, s, n, end) then Some(s) else LowestRun(m, n, s + 1, end)
  }

  /** Places that start no run can be skipped. */
  lemma {:induction false} Skip(m: seq<nat>, n: nat, s: nat, t: nat, end: nat)
    requires s <= t && forall j :: s <= j < t ==> !RunAt(m, j, n, end)
    ensures LowestRun(m, n, s, end) == LowestRun(m, n, t, end)
    decreases t - s
  {
    if s < t { Skip(m, n, s + 1, t, end); }
  }

  /** No run starts between `index` and a blocking frame fewer than n further on. */
  lemma Blocked(m: seq<nat>, n: nat, index: nat, tmp: nat, end: nat)
    requires index <= tmp < |m| && tmp - index < n && m[tmp] == PAGE_USED
    ensures forall j :: index <= j < tmp + 1 ==> !RunAt(m, j, n, end)
  {
  }

  /** A stretch of free frames that reaches the end of the window before n frames. */
  lemma ShortTail(m: seq<nat>, n: nat, index: nat, end: nat)
    requires index <= end && end - index < n
    ensures LowestRun(m, n, index, end) == None
  {
  }

  function Marked(m: seq<nat>, s: nat, n: nat, v: nat): (r: seq<nat>)
    requires s + n <= |m|
    ensures |r| == |m| && forall k :: 0 <= k < |m| ==> r[k] == if s <= k < s + n then v else m[k]
  {
    seq(|m|, k requires 0 <= k < |m| => if s <= k < s + n then v else m[k])
  }

  // ------------------------------------------------------------- specification

  /** bmm.mapStart, bmm.lastAllocated and bmm.maxPhysicalFrameNumber. */
  datatype Boot = Boot(map_: seq<nat>, last: nat, max: nat)

  ghost predicate BootOk(b: Boot) {
    && b.max < |b.map_| && b.max <= 0x10_0000 && b.last < WORD
    && forall k :: 0 <= k < |b.map_| ==> b.map_[k] == PAGE_FREE || b.map_[k] == PAGE_USED
  }

  /** find_pages: the lowest run is marked and its address returned; 0 stands for "no
      run", and is also the address of frame 0. */
  ghost function Find(b: Boot, n: nat, start: nat, end: nat): (r: (Boot, nat))
    requires BootOk(b) && end <= b.max
    ensures BootOk(r.0) && r.0.max == b.max && |r.0.map_| == |b.map_|
  {
    match LowestRun(b.map_, n, start, end)
    case None => (b, 0)
    case Some(s) => (b.(map_ := Marked(b.map_, s, n, PAGE_USED), last := (s + n + (WORD - 1)) % WORD), s * 4096)
  }

  /** size rounded up to pages, in 32 bits. */
  function PageCount(size: nat): nat {
    (size + 4095) % WORD / 4096
  }

  /** It is the least number of pages that hold the request, except that for the last sizes
      below 4 GB the sum wraps and no page at all is asked for. */
  lemma PageCountIs(size: nat)
    requires size < 0x1_0000_0000
    ensures size <= 0xFFFF_F000 ==> 4096 * PageCount(size) < size + 4096 && size <= 4096 * PageCount(size)
    ensures size > 0xFFFF_F000 ==> PageCount(size) == 0
  {
    if size > 0xFFFF_F000 { assert (size + 4095) % WORD == size + 4095 - WORD; }
  }

  /** The state init_bootmm leaves and allocation keeps: frame 0 is the kernel's, and
      the last allocation lies inside the memory. */
  ghost predicate Booted(b: Boot) {
    BootOk(b) && b.map_[0] == PAGE_USED && b.last < b.max
  }

  lemma FindKeepsBooted(b: Boot, n: nat, start: nat, end: nat)
    requires Booted(b) && end <= b.max
    ensures Booted(Find(b, n, start, end).0)
    ensures Find(b, n, start, end).1 == 0 <==> LowestRun(b.map_, n, start, end) == None
  {
    var r := LowestRun(b.map_, n, start, end);
    if r.Some? {
      var s := r.value;
      assert s > 0;
      assert (s + n + (WORD - 1)) % WORD == s + n - 1;
    }
  }

  /** The result of find_pages is 0 if and only if there is no run, or the lowest run
      starts at frame 0, which is marked all the same. */
  lemma FindZeroIff(b: Boot, n: nat, start: nat, end: nat)
    requires BootOk(b) && end <= b.max
    ensures var r := LowestRun(b.map_, n, start, end);
      && (Find(b, n, start, end).1 == 0 <==> r == None || r == Some(0))
      && (r == Some(0) && n > 0 ==> Find(b, n, start, end).0.map_[0] == PAGE_USED)
  {
  }

  /** A run that is found and marked but reported as "no run": one free frame 0. */
  lemma FrameZeroLost()
    ensures var b := Boot([PAGE_FREE, PAGE_USED], 0, 1);
      BootOk(b) && LowestRun(b.map_, 1, 0, 1) == Some(0) && Find(b, 1, 0, 1).1 == 0 && Find(b, 1, 0, 1).0.map_[0] == PAGE_USED
  {
    var b := Boot([PAGE_FREE, PAGE_USED], 0, 1);
    assert RunAt(b.map_, 0, 1, 1);
    FindZeroIff(b, 1, 0, 1);
  }

  /** bootmm_alloc_pages: first beyond the last allocation, then before it. */
  ghost function Alloc(b: Boot, size: nat): (r: (Boot, nat))
    requires Booted(b)
    ensures Booted(r.0) && r.0.max == b.max && |r.0.map_| == |b.map_|
  {
    var n := PageCount(size);
    FindKeepsBooted(b, n, (b.last + 1) % WORD, b.max);
    var first := Find(b, n, (b.last + 1) % WORD, b.max);
    if first.1 != 0 then first
    else
      FindKeepsBooted(first.0, n, 0, first.0.last);
      Find(first.0, n, 0, first.0.last)
  }

  /** What a call may do: the lowest run of the first window that has one. */
  ghost function Chosen(b: Boot, n: nat): Option<nat>
  {
    var r := LowestRun(b.map_, n, b.last + 1, b.max);
    if r.Some? then r else LowestRun(b.map_, n, 0, b.last)
  }

  /** The address 0 is returned if and only if neither window holds a run: not the one
      beyond the last allocation, not the one before it. */
  lemma AllocFailsIff(b: Boot, size: nat)
    requires Booted(b)
    ensures var n := PageCount(size);
      Alloc(b, size).1 == 0 <==>
        && (forall s :: b.last + 1 <= s < b.max ==> !RunAt(b.map_, s, n, b.max))
        && (forall s :: 0 <= s < b.last ==> !RunAt(b.map_, s, n, b.last))
  {
    AllocIs(b, size);
    hide LowestRun;
  }

  /** The block [s, s + n) was free and is now taken, and nothing else changed. */
  ghost predicate Took(b: Boot, r: (Boot, nat), s: nat, n: nat) {
    && 0 < s && s + n <= b.max && b.max < |b.map_|
    && r.1 == s * 4096 && r.0 == Boot(Marked(b.map_, s, n, PAGE_USED), s + n - 1, b.max)
    && forall k :: s <= k < s + n ==> b.map_[k] == PAGE_FREE
  }

  lemma FindIs(b: Boot, n: nat, start: nat, end: nat)
    requires Booted(b) && end <= b.max
    ensures match LowestRun(b.map_, n, start, end)
      case None => Find(b, n, start, end) == (b, 0)
      case Some(s) => Took(b, Find(b, n, start, end), s, n)
  {
    var r := LowestRun(b.map_, n, start, end);
    if r.Some? {
      assert r.value > 0;
      assert (r.value + n + (WORD - 1)) % WORD == r.value + n - 1;
    }
  }

  /** Otherwise the lowest run is taken, exactly its frames become used, and it is the
      last allocation now. */
  lemma AllocIs(b: Boot, size: nat)
    requires Booted(b)
    ensures match Chosen(b, PageCount(size))
      case None => Alloc(b, size) == (b, 0)
      case Some(s) => Took(b, Alloc(b, size), s, PageCount(size))
  {
    hide LowestRun;
    hide Find;
    hide PageCount;
    assert b.last < b.max <= 0x10_0000;
    hide Booted;
    var n := PageCount(size);
    assert (b.last + 1) % WORD == b.last + 1;
    FindIs(b, n, b.last + 1, b.max);
    FindIs(b, n, 0, b.last);
  }

  /** ... and the frame allocated last is in use. */
  ghost predicate Settled(b: Boot) {
    Booted(b) && b.map_[b.last] == PAGE_USED
  }

  /** init_bootmm leaves this, and every allocation keeps it. */
  lemma {:induction false} AllocKeepsSettled(b: Boot, size: nat)
    requires Settled(b)
    ensures Settled(Alloc(b, size).0)
  {
    hide LowestRun;
    hide Find;
    var n := PageCount(size);
    hide PageCount;
    AllocIs(b, size);
    hide Alloc;
    var r := Chosen(b, n);
    if r.Some? && n == 0 { JustBefore(b, r.value); }
  }

  /** A request for no frame finds the lowest free one, and what lies before it is used. */
  lemma {:induction false} JustBefore(b: Boot, s: nat)
    requires Settled(b) && Chosen(b, 0) == Some(s)
    ensures 0 < s && b.map_[s - 1] == PAGE_USED
  {
    var first, second := LowestRun(b.map_, 0, b.last + 1, b.max), LowestRun(b.map_, 0, 0, b.last);
    hide LowestRun;
    if s > 0 && s - 1 != b.last {
      assert !RunAt(b.map_, s - 1, 0, if first.Some? then b.max else b.last);
    }
  }

  /** The address 0 is returned if and only if memory holds no run of that many free
      frames at all: the two windows and the frame between them miss nothing. */
  lemma {:induction false} AllocFailsOnlyWhenFull(b: Boot, size: nat)
    requires Settled(b) && PageCount(size) > 0
    ensures Alloc(b, size).1 == 0 <==> forall s :: 0 <= s < b.max ==> !RunAt(b.map_, s, PageCount(size), b.max)
  {
    var n := PageCount(size);
    AllocFailsIff(b, size);
    hide Alloc;
    hide PageCount;
    forall s | 0 <= s < b.max && RunAt(b.map_, s, n, b.max)
      ensures b.last + 1 <= s || (s < b.last && RunAt(b.map_, s, n, b.last))
    {
      assert b.map_[b.last] != PAGE_FREE;
      assert !(s <= b.last < s + n);
    }
    forall s | 0 <= s < b.last && RunAt(b.map_, s, n, b.last) ensures RunAt(b.map_, s, n, b.max) { }
  }

  // --------------------------------------------------------------- whole runs

  /** A block handed out: its first frame and its length. */
  datatype Block = Block(first: nat, count: nat)

  /** The blocks that a run of allocations returns. */
  ghost function Blocks(b: Boot, sizes: seq<nat>): seq<Block>
    requires Booted(b)
    decreases |sizes|
  {
    if sizes == [] then []
    else
      var r := Alloc(b, sizes[0]);
      var rest := Blocks(r.0, sizes[1..]);
      if r.1 == 0 then rest else [Block(r.1 / 4096, PageCount(sizes[0]))] + rest
  }

  ghost predicate FreeBlock(m: seq<nat>, x: Block) {
    x.first + x.count <= |m| && forall k :: x.first <= k < x.first + x.count ==> m[k] == PAGE_FREE
  }

  ghost predicate AllFree(m: seq<nat>, q: seq<Block>) {
    forall i :: 0 <= i < |q| ==> FreeBlock(m, q[i])
  }

  ghost predicate BlocksApart(x: Block, y: Block) {
    x.first + x.count <= y.first || y.first + y.count <= x.first || x.count == 0 || y.count == 0
  }

  ghost predicate AllApart(q: seq<Block>) {
    forall i, j :: 0 <= i < j < |q| ==> BlocksApart(q[i], q[j])
  }

  /** A block of frames that are free afterwards was free before and is clear of the
      frames taken meanwhile. */
  lemma TakenApart(m: seq<nat>, s: nat, n: nat, x: Block)
    requires s + n <= |m| && FreeBlock(Marked(m, s, n, PAGE_USED), x)
    ensures FreeBlock(m, x) && BlocksApart(Block(s, n), x)
  {
    var m' := Marked(m, s, n, PAGE_USED);
    assert forall k :: x.first <= k < x.first + x.count ==> m'[k] == PAGE_FREE && m[k] == m'[k];
    if x.count > 0 { assert m'[x.first] == PAGE_FREE; }
    if x.first <= s < x.first + x.count { assert m'[s] == PAGE_FREE; }
  }

  lemma Joined(m: seq<nat>, s: nat, n: nat, rest: seq<Block>)
    requires s + n <= |m| && FreeBlock(m, Block(s, n))
    requires AllFree(Marked(m, s, n, PAGE_USED), rest) && AllApart(rest)
    ensures AllFree(m, [Block(s, n)] + rest) && AllApart([Block(s, n)] + rest)
  {
    forall i | 0 <= i < |rest| ensures FreeBlock(m, rest[i]) && BlocksApart(Block(s, n), rest[i]) {
      TakenApart(m, s, n, rest[i]);
    }
  }

  /** Over any run of allocations the blocks handed out were all free at the start and
      are pairwise disjoint. */
  lemma {:induction false} BlocksDisjoint(b: Boot, sizes: seq<nat>)
    requires Booted(b)
    ensures AllFree(b.map_, Blocks(b, sizes)) && AllApart(Blocks(b, sizes))
    decreases |sizes|
  {
    hide Alloc;
    hide AllFree;
    hide AllApart;
    hide Booted;
    if sizes == [] {
      NoBlocks(b.map_);
    } else {
      var r, n := Alloc(b, sizes[0]), PageCount(sizes[0]);
      AllocIs(b, sizes[0]);
      BlocksDisjoint(r.0, sizes[1..]);
      if r.1 != 0 {
        var s := Chosen(b, n).value;
        assert FreeBlock(b.map_, Block(s, n));
        Joined(b.map_, s, n, Blocks(r.0, sizes[1..]));
      }
    }
  }

  lemma NoBlocks(m: seq<nat>)
    ensures AllFree(m, []) && AllApart([])
  {
  }

  class BootMm {
    const mapStart: array<nat>
    const maxPhysicalFrameNumber: nat
    var lastAllocated: nat

    ghost function Abs(): Boot
      reads this, mapStart
    {
      Boot(mapStart[..], lastAllocated, maxPhysicalFrameNumber)
    }

    /** The map has one entry beyond the last frame: find_pages reads it. */
    ghost predicate Valid()
      reads this, mapStart
    {
      BootOk(Abs())
    }

    /** init_bootmm: every frame free, then the kernel's own frames used. */
    constructor (frames: nat, kernelFrames: nat)
      requires 0 < kernelFrames <= frames <= 0x10_0000
      ensures Settled(Abs()) && maxPhysicalFrameNumber == frames && lastAllocated == kernelFrames - 1
      ensures forall k :: 0 <= k <= frames ==> mapStart[..][k] == if k < kernelFrames then PAGE_USED else PAGE_FREE
      ensures fresh(mapStart)
    {
      mapStart := new nat[frames + 1](_ => PAGE_FREE);
      maxPhysicalFrameNumber := frames;
      lastAllocated := kernelFrames - 1;
      new;
      var index := 0;
      while index < kernelFrames
        invariant index <= kernelFrames && lastAllocated == kernelFrames - 1
        invariant forall k :: 0 <= k <= frames ==> mapStart[k] == if k < index then PAGE_USED else PAGE_FREE
      {
        mapStart[index] := PAGE_USED;
        index := index + 1;
      }
      assert forall k :: 0 <= k <= frames ==> mapStart[..][k] == mapStart[k];
    }

    /** set_maps. */
    method SetMaps(startFrameNumber: nat, count: nat, value: nat)
      requires startFrameNumber + count <= mapStart.Length
      modifies mapStart
      ensures mapStart[..] == Marked(old(mapStart[..]), startFrameNumber, count, value)
    {
      ghost var m := mapStart[..];
      var at := startFrameNumber;
      var i := count;
      while i > 0
        invariant 0 <= i <= count && at == startFrameNumber + (count - i)
        invariant forall k :: 0 <= k < mapStart.Length ==>
          mapStart[k] == if startFrameNumber <= k < at then value else m[k]
      {
        mapStart[at] := value;
        at := at + 1;
        i := i - 1;
      }
      assert mapStart[..] == Marked(m, startFrameNumber, count, value);
    }

    /** The inner loop of find_pages: where the scan stopped, how many frames are still
        missing, and whether it gave up at the end of the window. */
    method Scan(pageCount: nat, index: nat, end: nat) returns (count: nat, tmp: nat, gaveUp: bool)
      requires Valid() && index < end <= maxPhysicalFrameNumber && mapStart[index] == PAGE_FREE
      ensures count <= pageCount && tmp == index + (pageCount - count) <= end
      ensures forall k :: index <= k < tmp ==> mapStart[k] == PAGE_FREE
      ensures gaveUp ==> tmp == end && count > 0
      ensures !gaveUp ==> count == 0 || mapStart[tmp] == PAGE_USED
    {
      count, tmp, gaveUp := pageCount, index, false;
      while count > 0
        invariant count <= pageCount && tmp == index + (pageCount - count) <= end && !gaveUp
        invariant forall k :: index <= k < tmp ==> mapStart[k] == PAGE_FREE
        invariant tmp < end ==> mapStart[tmp] == PAGE_FREE
        decreases count
      {
        if tmp >= end {
          gaveUp := true;
          return;
        }
        if mapStart[tmp] == PAGE_FREE {
          tmp := tmp + 1;
          count := count - 1;
        }
        assert mapStart[..][tmp] == mapStart[tmp];
        if mapStart[tmp] == PAGE_USED {
          break;
        }
      }
    }

    /** find_pages with an alignment of one page. */
    method FindPages(pageCount: nat, start: nat, end: nat) returns (res: nat)
      requires Valid() && end <= maxPhysicalFrameNumber
      modifies mapStart, `lastAllocated
      ensures Valid() && (Abs(), res) == Find(old(Abs()), pageCount, start, end)
    {
      hide LowestRun;
      ghost var m := mapStart[..];
      var index := start;
      while index < end
        invariant mapStart[..] == m && lastAllocated == old(lastAllocated)
        invariant LowestRun(m, pageCount, index, end) == LowestRun(m, pageCount, start, end)
        decreases end - index
      {
        assert m[index] == mapStart[index];
        if mapStart[index] == PAGE_USED {
          Skip(m, pageCount, index, index + 1, end);
          index := index + 1;
          continue;
        }
        var count, tmp, gaveUp := Scan(pageCount, index, end);
        assert forall k :: index <= k < tmp ==> m[k] == mapStart[k];
        if gaveUp {
          ShortTail(m, pageCount, index, end);
          return 0;
        }
        if count == 0 {
          RunHere(m, pageCount, index, end);
          lastAllocated := (tmp + (WORD - 1)) % WORD;
          SetMaps(index, pageCount, PAGE_USED);
          return index * 4096;
        }
        assert m[tmp] == mapStart[tmp];
        Blocked(m, pageCount, index, tmp, end);
        Skip(m, pageCount, index, tmp + 1, end);
        index := tmp + 1;
      }
      PastEnd(m, pageCount, index, end);
      return 0;
    }

    /** bootmm_alloc_pages; recording the block in info[] is not modelled. */
    method AllocPages(size: nat) returns (res: nat)
      requires Booted(Abs())
      modifies mapStart, `lastAllocated
      ensures Booted(Abs()) && (Abs(), res) == Alloc(old(Abs()), size)
    {
      hide LowestRun;
      hide Find;
      Pow2Values();
      var rounded := ClearLow((size + 4095) % WORD, 12);
      var sizeInPage := rounded / 4096;
      assert sizeInPage == PageCount(size);
      FindKeepsBooted(Abs(), sizeInPage, (lastAllocated + 1) % WORD, maxPhysicalFrameNumber);
      res := FindPages(sizeInPage, (lastAllocated + 1) % WORD, maxPhysicalFrameNumber);
      if res == 0 {
        FindKeepsBooted(Abs(), sizeInPage, 0, lastAllocated);
        res := FindPages(sizeInPage, 0, lastAllocated);
      }
    }
  }

  lemma RunHere(m: seq<nat>, n: nat, s: nat, end: nat)
    requires RunAt(m, s, n, end)
    ensures LowestRun(m, n, s, end) == Some(s)
  {
  }

  lemma PastEnd(m: seq<nat>, n: nat, s: nat, end: nat)
    requires s >= end
    ensures LowestRun(m, n, s, end) == None
  {
  }
}
