/** Whole runs of a write-back cache: whatever is read, written, evicted and flushed,
    in whatever order, the blocks read like a plain array of blocks. */
module CacheRuns {
  import opened BlockCache
  import opened FsCache

  /** Reading a block, storing a byte into it, clearing a block, or flushing everything. */
  datatype CacheOp = ReadOp(a: nat) | WriteOp(a: nat, offset: nat, value: Byte) | ClearOp(a: nat) | FlushOp

  ghost predicate Allowed(g: Geometry, op: CacheOp) {
    match op
    case ReadOp(a) => IsTag(g, a)
    case WriteOp(a, o, _) => IsTag(g, a) && o < 512 * g.unit
    case ClearOp(a) => IsTag(g, a)
    case FlushOp => true
  }

  /** The plain array of blocks. */
  ghost function AfterOp(v: map<nat, seq<Byte>>, op: CacheOp): map<nat, seq<Byte>> {
    match op
    case WriteOp(a, o, x) => if a in v && o < |v[a]| then (var b: seq<Byte> := v[a]; v[a := b[o := x]]) else v
    case _ => v
  }

  ghost function AfterOps(v: map<nat, seq<Byte>>, ops: seq<CacheOp>): map<nat, seq<Byte>> {
    if ops == [] then v else AfterOp(AfterOps(v, ops[..|ops| - 1]), ops[|ops| - 1])
  }

  /** One operation on the cache; a read returns the block.  A block is cleared as
      fs_write does it, when it is zero on the disk and not cached. */
  method Apply(cache: ClockCache, op: CacheOp) returns (block: seq<Byte>)
    requires cache.Valid() && Allowed(cache.geo, op)
    modifies cache.slots, cache.disk, cache`clockHead
    ensures cache.Valid() && cache.View() == AfterOp(old(cache.View()), op)
    ensures op.ReadOp? ==> op.a in cache.View() && block == cache.View()[op.a]
  {
    hide ClockCache.Valid;
    hide ClockCache.View;
    block := [];
    match op {
      case ReadOp(a) =>
        var index := cache.Fetch(a);
        cache.IsCoherent();
        cache.SlotIsView(index);
        block := cache.slots[index].buf;
      case WriteOp(a, offset, value) =>
        var index := cache.Fetch(a);
        cache.IsCoherent();
        cache.SlotIsView(index);
        cache.MarkDirty(index);
        assert cache.slots[index] == cache.slots[..][index];
        cache.Poke(index, offset, value);
      case ClearOp(a) =>
        var index := cache.FindSlot(a);
        var b := cache.disk.ReadBlock(a, cache.geo.unit);
        if index == cache.slots.Length && b == Zeros(512 * cache.geo.unit) {
          cache.UncachedView(a);
          cache.Clear(a);
        }
      case FlushOp =>
        cache.FlushAll();
    }
  }

  /** Any run at all. */
  method ApplyAll(cache: ClockCache, ops: seq<CacheOp>)
    requires cache.Valid() && forall i :: 0 <= i < |ops| ==> Allowed(cache.geo, ops[i])
    modifies cache.slots, cache.disk, cache`clockHead
    ensures cache.Valid() && cache.View() == AfterOps(old(cache.View()), ops)
  {
    hide ClockCache.Valid;
    hide ClockCache.View;
    ghost var v := cache.View();
    var i := 0;
    while i < |ops|
      invariant i <= |ops| && cache.Valid() && cache.View() == AfterOps(v, ops[..i])
    {
      var block := Apply(cache, ops[i]);
      assert ops[..i + 1][..i] == ops[..i];
      i := i + 1;
    }
    assert ops[..i] == ops;
  }

  /** The byte at place o of block a after a run: the last one written there. */
  ghost function LastWritten(ops: seq<CacheOp>, a: nat, o: nat, old_: Byte): Byte {
    if ops == [] then old_
    else
      var op := ops[|ops| - 1];
      if op.WriteOp? && op.a == a && op.offset == o then op.value else LastWritten(ops[..|ops| - 1], a, o, old_)
  }

  lemma {:induction false} LastWriteWins(v: map<nat, seq<Byte>>, ops: seq<CacheOp>, a: nat, o: nat)
    requires a in v && o < |v[a]|
    ensures var r := AfterOps(v, ops); a in r && |r[a]| == |v[a]| && r[a][o] == LastWritten(ops, a, o, v[a][o])
  {
    if ops != [] {
      LastWriteWins(v, ops[..|ops| - 1], a, o);
    }
  }
}
