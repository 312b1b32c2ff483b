/** What the users of a volume's files see, as one state machine over values: for every
    operation its outcome and the next state, decided by the state before it
    (kernel/fs/fat/fat.c, usr.c). */
module FatModel {
  import opened BlockCache
  import opened FatLayout
  import opened FatVolume
  import opened FatChains
  import opened FatGrowth
  import opened FatFile

  /** fs_write, fs_read, fs_lseek, fs_close, and the release of the clusters in fs_rm. */
  datatype FileOp =
    | WriteOp(f: nat, buf: seq<Byte>)
    | ReadOp(f: nat, count: nat)
    | SeekOp(f: nat, pos: nat)
    | CloseOp(f: nat)
    | RemoveOp(f: nat)

  /** Failed: an allocation failed after `done` bytes.  Refused: not attempted. */
  datatype Outcome = Done | Failed(done: nat) | Got(data: seq<Byte>) | Refused

  /** What the caller of an operation gets: success or failure, and the bytes read. */
  datatype Reply = Reply(ok: bool, data: seq<Byte>)

  function ReplyOf(out: Outcome): Reply {
    match out
    case Done => Reply(true, [])
    case Got(data) => Reply(true, data)
    case _ => Reply(false, [])
  }

  /** The FAT, FSInfo, the open files, and the chains of all files and directories, open
      or not. */
  datatype Model = Model(lay: Layout, fat: seq<nat>, info: seq<Byte>, files: map<nat, Doc>, chains: map<nat, seq<nat>>)

  /** The operation would take the position beyond 4 GB. */
  predicate TooFar(loc: nat, op: FileOp) {
    match op
    case WriteOp(_, buf) => loc + |buf| >= 0x1_0000_0000
    case ReadOp(_, count) => loc + count >= 0x1_0000_0000
    case _ => false
  }

  /** The growth of chain i to `need` bytes. */
  ghost function GrowthOf(s: Model, i: nat, need: nat): Growth
    requires Sound(s) && i in s.files
  {
    LastInTable(s.fat, s.chains[i]);
    Grow(s.fat, s.chains[i], s.info, s.lay.Lacking(|s.chains[i]|, need))
  }

  ghost function OutcomeOf(s: Model, op: FileOp): Outcome
    requires Sound(s)
  {
    if op.f !in s.files || TooFar(s.files[op.f].loc, op) then Refused
    else
      var d := s.files[op.f];
      match op
      case WriteOp(i, buf) => WriteOutcome(s, i, d, d.loc + |buf|)
      case ReadOp(_, count) => Got(d.content[d.loc..d.loc + Readable(|d.content|, d.loc, count)])
      case _ => Done
  }

  ghost function WriteOutcome(s: Model, i: nat, d: Doc, need: nat): Outcome
    requires Sound(s) && i in s.files
  {
    if need > |d.content| && !ChoiceInRange(s.fat, s.info) then Refused
    else if GrowthOf(s, i, need).lost == 0 then Done
    else Failed(Behind(d.loc, s.lay.Bytes(|GrowthOf(s, i, need).chain|)))
  }

  /** What an operation makes of the file it names. */
  ghost function DocAfter(d: Doc, op: FileOp, out: Outcome): Doc
    requires d.loc <= |d.content|
  {
    match (op, out)
    case (WriteOp(_, buf), Done) => Doc(Overlay(d.content, d.loc, buf), d.loc + |buf|)
    case (WriteOp(_, buf), Failed(n)) =>
      if n <= |buf| then Doc(Overlay(d.content, d.loc, buf[..n])[..|d.content|], d.loc) else d
    case (ReadOp(_, _), Got(data)) => d.(loc := d.loc + |data|)
    case (SeekOp(_, pos), Done) => d.(loc := if pos < |d.content| then pos else |d.content|)
    case _ => d
  }

  ghost function After(s: Model, op: FileOp): Model
    requires Sound(s)
  {
    var out := OutcomeOf(s, op);
    if out.Refused? then s
    else
      var d := s.files[op.f];
      match op
      case WriteOp(i, buf) =>
        var g := GrowthOf(s, i, d.loc + |buf|);
        Model(s.lay, g.fat, g.info, s.files[i := DocAfter(d, op, out)], s.chains[i := g.chain])
      case RemoveOp(i) =>
        s.(fat := Released(s.fat, StartOf(s.chains[i])), files := s.files - {i}, chains := s.chains - {i})
      case _ => s.(files := s.files[op.f := DocAfter(d, op, out)])
  }

  function StartOf(ch: seq<nat>): nat {
    if ch == [] then 0 else ch[0]
  }

  // ------------------------------------------------------------ what every run keeps

  /** The hint is distrusted, or names no live chain's cluster. */
  ghost predicate Spare(chains: map<nat, seq<nat>>, info: seq<Byte>) {
    |info| == 512 && (Hint(info) > HintLimit(info) || Unowned(chains, Hint(info)))
  }

  /** Chains are valid and pairwise disjoint, the hint is off all of them, and every open
      file has a chain that covers it. */
  ghost predicate Sound(s: Model) {
    && s.lay.WellFormed() && |s.fat| == s.lay.Entries()
    && Family(s.fat, s.chains) && Spare(s.chains, s.info)
    && forall i :: i in s.files ==> i in s.chains && Covered(s.lay, s.files[i], s.chains[i])
  }

  ghost predicate Covered(lay: Layout, d: Doc, ch: seq<nat>) {
    d.loc <= |d.content| <= lay.Bytes(|ch|)
  }

  /** The allocator never takes a live chain's cluster. */
  lemma ChoiceUnowned(fat: seq<nat>, chains: map<nat, seq<nat>>, info: seq<Byte>)
    requires Family(fat, chains) && Spare(chains, info) && |fat| <= NO_CLUSTER
    ensures Unowned(chains, AllocChoice(fat, info))
  {
    forall f | f in chains && chains[f] != [] ensures AllocChoice(fat, info) !in chains[f] {
      if AllocChoice(fat, info) in chains[f] { MembersNotFree(fat, chains[f], AllocChoice(fat, info)); }
    }
  }

  lemma GoodIsSpare(fat: seq<nat>, chains: map<nat, seq<nat>>, info: seq<Byte>)
    requires Family(fat, chains) && CanAlloc(fat, info)
    ensures Spare(chains, info)
  {
    forall f | f in chains && chains[f] != [] && Hint(info) <= HintLimit(info) ensures Hint(info) !in chains[f] {
      if Hint(info) in chains[f] { MembersNotFree(fat, chains[f], Hint(info)); }
    }
  }

  /** Growing chain f, a failed allocation included. */
  lemma GrowthKeepsSpare(fat: seq<nat>, chains: map<nat, seq<nat>>, info: seq<Byte>, f: nat, g: Growth)
    requires Family(fat, chains) && Spare(chains, info) && |fat| <= NO_CLUSTER && f in chains
    requires GrownBut(fat, chains[f], g.fat, g.chain, g.lost, AllocChoice(fat, info))
    requires HintFollows(fat, chains[f], info, g.fat, g.chain, g.info, g.lost)
    ensures Family(g.fat, chains[f := g.chain]) && Spare(chains[f := g.chain], g.info)
    ensures g.lost == 0 && CanAlloc(fat, info) ==> CanAlloc(g.fat, g.info)
  {
    hide AllocChoice;
    hide CanAlloc;
    ChoiceUnowned(fat, chains, info);
    GrowthKeepsFamily(fat, chains, f, g.fat, g.chain, g.lost, AllocChoice(fat, info));
    if g.lost == 0 {
      if g.chain == chains[f] {
        assert chains[f := g.chain] == chains;
      } else {
        GoodIsSpare(g.fat, chains[f := g.chain], g.info);
      }
    }
  }

  /** Releasing clusters keeps a good allocator good. */
  lemma ReleaseKeepsGood(fat: seq<nat>, ch: seq<nat>, info: seq<Byte>)
    requires IsChain(fat, ch) && CanAlloc(fat, info) && |fat| <= NO_CLUSTER
    ensures CanAlloc(Released(fat, ch[0]), info)
  {
    ReleasedEntries(fat, ch);
    assert Released(fat, ch[0])[AllocChoice(fat, info)] == 0;
  }

  /** The removal of file f. */
  lemma RemovalKeepsFamily(fat: seq<nat>, chains: map<nat, seq<nat>>, info: seq<Byte>, f: nat)
    requires Family(fat, chains) && Spare(chains, info) && |fat| <= NO_CLUSTER && f in chains
    ensures Family(Released(fat, StartOf(chains[f])), chains - {f}) && Spare(chains - {f}, info)
    ensures CanAlloc(fat, info) ==> CanAlloc(Released(fat, StartOf(chains[f])), info)
  {
    if chains[f] != [] {
      ReleaseKeepsFamily(fat, chains, f);
      if CanAlloc(fat, info) { ReleaseKeepsGood(fat, chains[f], info); }
    }
  }

  /** What the growth of a file is worth. */
  lemma {:induction false} GrowthOfFile(s: Model, i: nat, need: nat)
    requires Sound(s) && i in s.files && (need <= |s.files[i].content| || ChoiceInRange(s.fat, s.info))
    ensures GrowsWell(s.lay, s.fat, s.chains[i], s.info, GrowthOf(s, i, need), need)
    ensures Usable(s.fat, s.info, s.chains[i]) || need <= s.lay.Bytes(|s.chains[i]|)
  {
    hide AllocChoice;
    hide GrowsWell;
    hide Grow;
    ChoiceUnowned(s.fat, s.chains, s.info);
    GrowthIsGood(s.lay, s.fat, s.chains[i], s.info, need);
  }

  /** A write that fails has written everything inside the file, and not all of buf. */
  lemma {:induction false} FailsBehind(s: Model, op: FileOp)
    requires Sound(s) && op.WriteOp? && OutcomeOf(s, op).Failed?
    ensures var d, n := s.files[op.f], OutcomeOf(s, op).done;
      |d.content| <= d.loc + n < d.loc + |op.buf|
  {
    hide Grow;
    hide AllocChoice;
    hide GrownBut;
    hide HintFollows;
    var d, need := s.files[op.f], s.files[op.f].loc + |op.buf|;
    GrowthOfFile(s, op.f, need);
    s.lay.BytesOrder(|s.chains[op.f]|, |GrowthOf(s, op.f, need).chain|);
  }

  /** It stops at the end of the clusters the file has then, or at once if its position
      is not before that. */
  lemma {:induction false} FailsAtEnd(s: Model, op: FileOp)
    requires Sound(s) && op.WriteOp? && OutcomeOf(s, op).Failed?
    ensures op.f in s.files && op.f in After(s, op).chains
    ensures var end, loc, n := s.lay.Bytes(|After(s, op).chains[op.f]|), s.files[op.f].loc, OutcomeOf(s, op).done;
      (loc < end ==> loc + n == end) && (loc >= end ==> n == 0)
  {
    hide Grow;
    hide AllocChoice;
    hide Behind;
  }

  lemma {:induction false} WriteKeepsSound(s: Model, op: FileOp)
    requires Sound(s) && op.WriteOp?
    ensures Sound(After(s, op))
    ensures CanAlloc(s.fat, s.info) && !OutcomeOf(s, op).Failed? ==> CanAlloc(After(s, op).fat, After(s, op).info)
  {
    hide Grow;
    hide AllocChoice;
    hide GrownBut;
    hide HintFollows;
    hide Spare;
    hide Family;
    hide CanAlloc;
    if !OutcomeOf(s, op).Refused? {
      var d, need := s.files[op.f], s.files[op.f].loc + |op.buf|;
      var g := GrowthOf(s, op.f, need);
      GrowthOfFile(s, op.f, need);
      GrowthKeepsSpare(s.fat, s.chains, s.info, op.f, g);
      s.lay.BytesOrder(|s.chains[op.f]|, |g.chain|);
      if OutcomeOf(s, op).Failed? { FailsBehind(s, op); }
    }
  }

  /** Every operation keeps the chains valid and disjoint, and the hint off them; and a
      good hint stays good unless an allocation fails. */
  lemma {:induction false} StepKeepsSound(s: Model, op: FileOp)
    requires Sound(s)
    ensures Sound(After(s, op))
    ensures CanAlloc(s.fat, s.info) && !OutcomeOf(s, op).Failed? ==> CanAlloc(After(s, op).fat, After(s, op).info)
  {
    hide CanAlloc;
    hide Family;
    hide Spare;
    if op.WriteOp? {
      WriteKeepsSound(s, op);
    } else if op.RemoveOp? && op.f in s.files {
      RemovalKeepsFamily(s.fat, s.chains, s.info, op.f);
    }
  }

  lemma GrowthOfIs(s: Model, i: nat, need: nat)
    requires Sound(s) && i in s.files
    ensures s.lay.WellFormed() && |s.info| == 512 && Linkable(s.fat, s.chains[i])
    ensures GrowthOf(s, i, need) == Grow(s.fat, s.chains[i], s.info, s.lay.Lacking(|s.chains[i]|, need))
  {
    hide Grow;
    LastInTable(s.fat, s.chains[i]);
  }

  /** A write that did what the model foresees. */
  lemma {:induction false} WriteIsAfter(s: Model, i: nat, buf: seq<Byte>, g: Growth, done: nat, d': Doc)
    requires Sound(s) && i in s.files && !TooFar(s.files[i].loc, WriteOp(i, buf))
    requires s.files[i].loc + |buf| <= |s.files[i].content| || ChoiceInRange(s.fat, s.info)
    requires g == GrowthOf(s, i, s.files[i].loc + |buf|)
    requires Wrote(s.files[i], buf, g.lost == 0, done, d')
    requires g.lost != 0 ==> done == Behind(s.files[i].loc, s.lay.Bytes(|g.chain|))
    ensures After(s, WriteOp(i, buf)) == Model(s.lay, g.fat, g.info, s.files[i := d'], s.chains[i := g.chain])
    ensures OutcomeOf(s, WriteOp(i, buf)) == if g.lost == 0 then Done else Failed(done)
  {
    hide Sound;
    hide GrowthOf;
    hide ChoiceInRange;
    hide Layout.Bytes;
    hide Grow;
    hide AllocChoice;
    hide Overlay;
  }

  lemma {:induction false} ReadIsAfter(s: Model, i: nat, count: nat, data: seq<Byte>, d': Doc)
    requires Sound(s) && i in s.files && !TooFar(s.files[i].loc, ReadOp(i, count))
    requires IsRead(s.files[i], count, data) && d' == s.files[i].(loc := s.files[i].loc + |data|)
    ensures After(s, ReadOp(i, count)) == Model(s.lay, s.fat, s.info, s.files[i := d'], s.chains[i := s.chains[i]])
    ensures OutcomeOf(s, ReadOp(i, count)) == Got(data)
  {
    hide Grow;
    hide Family;
    hide Spare;
    assert s.chains[i := s.chains[i]] == s.chains;
  }

  ghost predicate IsRead(d: Doc, count: nat, data: seq<Byte>) {
    && d.loc <= |d.content| && |data| == Readable(|d.content|, d.loc, count)
    && data == d.content[d.loc..d.loc + |data|]
  }

  lemma {:induction false} SeekIsAfter(s: Model, i: nat, pos: nat, d': Doc)
    requires Sound(s) && i in s.files && Sought(s.files[i], pos, d')
    ensures After(s, SeekOp(i, pos)) == Model(s.lay, s.fat, s.info, s.files[i := d'], s.chains[i := s.chains[i]])
    ensures OutcomeOf(s, SeekOp(i, pos)) == Done
  {
    hide Grow;
    hide Family;
    hide Spare;
    assert s.chains[i := s.chains[i]] == s.chains;
  }

  ghost predicate Sought(d: Doc, pos: nat, d': Doc) {
    d.loc <= |d.content| && d' == d.(loc := if pos < |d.content| then pos else |d.content|)
  }

  lemma {:induction false} CloseIsAfter(s: Model, i: nat)
    requires Sound(s) && i in s.files
    ensures After(s, CloseOp(i)) == s && OutcomeOf(s, CloseOp(i)) == Done
  {
    hide Grow;
    hide Family;
    hide Spare;
    assert s.files[i := s.files[i]] == s.files;
  }

  lemma {:induction false} RemoveIsAfter(s: Model, i: nat, start: nat)
    requires Sound(s) && i in s.files && IsFileChain(s.fat, start, s.chains[i])
    ensures After(s, RemoveOp(i)) == Model(s.lay, Released(s.fat, start), s.info, s.files - {i}, s.chains - {i})
    ensures OutcomeOf(s, RemoveOp(i)) == Done
  {
    hide Grow;
    hide Released;
    hide Family;
    hide Spare;
  }

  lemma RefusedFar(s: Model, op: FileOp)
    requires Sound(s) && (op.f !in s.files || TooFar(s.files[op.f].loc, op))
    ensures After(s, op) == s && OutcomeOf(s, op) == Refused
  {
    hide Sound;
  }

  lemma RefusedWrite(s: Model, i: nat, buf: seq<Byte>)
    requires Sound(s) && i in s.files && s.files[i].loc + |buf| > |s.files[i].content| && !ChoiceInRange(s.fat, s.info)
    ensures After(s, WriteOp(i, buf)) == s && OutcomeOf(s, WriteOp(i, buf)) == Refused
  {
    hide ChoiceInRange;
    hide Sound;
    hide Grow;
  }

  /** A write may be asked of a file, and spares the others. */
  lemma {:induction false} WriteAllowed(s: Model, i: nat, need: nat)
    requires Sound(s) && i in s.files && (need <= |s.files[i].content| || ChoiceInRange(s.fat, s.info))
    ensures Usable(s.fat, s.info, s.chains[i]) || need <= s.lay.Bytes(|s.chains[i]|)
    ensures forall j :: j in s.chains ==> AllocChoice(s.fat, s.info) !in s.chains[j]
  {
    hide AllocChoice;
    hide GrowsWell;
    ChoiceUnowned(s.fat, s.chains, s.info);
    GrowthOfFile(s, i, need);
  }

  // ------------------------------------------------------------------------ runs

  ghost function Replay(s: Model, ops: seq<FileOp>): (r: Model)
    requires Sound(s)
    ensures Sound(r)
    decreases |ops|
  {
    if ops == [] then s
    else
      var r := Replay(s, ops[..|ops| - 1]);
      StepKeepsSound(r, ops[|ops| - 1]);
      After(r, ops[|ops| - 1])
  }

  ghost function Outcomes(s: Model, ops: seq<FileOp>): (outs: seq<Outcome>)
    requires Sound(s)
    ensures |outs| == |ops|
    decreases |ops|
  {
    if ops == [] then []
    else Outcomes(s, ops[..|ops| - 1]) + [OutcomeOf(Replay(s, ops[..|ops| - 1]), ops[|ops| - 1])]
  }

  ghost function Replies(outs: seq<Outcome>): seq<Reply> {
    seq(|outs|, k requires 0 <= k < |outs| => ReplyOf(outs[k]))
  }

  ghost predicate NoneFailed(outs: seq<Outcome>) {
    forall k :: 0 <= k < |outs| ==> !outs[k].Failed?
  }

  /** A hint that is good at the start stays good until an allocation fails. */
  lemma {:induction false} GoodUntilFailure(s: Model, ops: seq<FileOp>)
    requires Sound(s) && CanAlloc(s.fat, s.info) && NoneFailed(Outcomes(s, ops))
    ensures CanAlloc(Replay(s, ops).fat, Replay(s, ops).info)
    decreases |ops|
  {
    hide Sound;
    hide CanAlloc;
    hide After;
    hide OutcomeOf;
    if ops != [] {
      var n := |ops| - 1;
      var outs := Outcomes(s, ops);
      assert Outcomes(s, ops[..n]) == outs[..n] && outs[n] == OutcomeOf(Replay(s, ops[..n]), ops[n]);
      GoodUntilFailure(s, ops[..n]);
      StepKeepsSound(Replay(s, ops[..n]), ops[n]);
    }
  }

  /** With a good hint nothing is refused but operations on files that are gone or beyond
      4 GB. */
  lemma RefusedOnlyIf(s: Model, op: FileOp)
    requires Sound(s) && CanAlloc(s.fat, s.info)
    ensures OutcomeOf(s, op).Refused? <==>
      || op.f !in s.files
      || (op.WriteOp? && s.files[op.f].loc + |op.buf| >= 0x1_0000_0000)
      || (op.ReadOp? && s.files[op.f].loc + op.count >= 0x1_0000_0000)
  {
    hide AllocChoice;
    hide Grow;
  }

  /** A write succeeds if as many clusters are free beyond the allocator's choice as its
      file lacks. */
  lemma {:induction false} SucceedsWithRoom(s: Model, i: nat, buf: seq<Byte>)
    requires Sound(s) && i in s.files && !TooFar(s.files[i].loc, WriteOp(i, buf)) && ChoiceInRange(s.fat, s.info)
    requires FreeFrom(s.fat, AllocChoice(s.fat, s.info) + 1) >=
      s.lay.Lacking(|s.chains[i]|, s.files[i].loc + |buf|)
    ensures OutcomeOf(s, WriteOp(i, buf)).Done?
  {
    hide AllocChoice;
    hide Grow;
    hide FreeFrom;
    ChoiceUnowned(s.fat, s.chains, s.info);
    EnoughFree(s.fat, s.chains[i], s.info, s.lay.Lacking(|s.chains[i]|, s.files[i].loc + |buf|));
  }

  /** A file's history alone: the operations that name it, with their outcomes. */
  ghost function Own(d: Doc, f: nat, ops: seq<FileOp>, outs: seq<Outcome>): Doc
    requires |outs| == |ops|
  {
    if ops == [] then d
    else
      var e := Own(d, f, ops[..|ops| - 1], outs[..|ops| - 1]);
      if ops[|ops| - 1].f == f && e.loc <= |e.content| then DocAfter(e, ops[|ops| - 1], outs[|ops| - 1]) else e
  }

  /** What a file shows after a run is decided by its own operations and their outcomes. */
  lemma {:induction false} OwnHistory(s: Model, ops: seq<FileOp>, f: nat)
    requires Sound(s) && f in Replay(s, ops).files
    ensures f in s.files && Replay(s, ops).files[f] == Own(s.files[f], f, ops, Outcomes(s, ops))
    decreases |ops|
  {
    hide Grow;
    hide Released;
    hide Family;
    hide Spare;
    if ops != [] {
      var n := |ops| - 1;
      assert Outcomes(s, ops)[..n] == Outcomes(s, ops[..n]);
      hide AllocChoice;
      AfterFile(Replay(s, ops[..n]), ops[n], f);
      OwnHistory(s, ops[..n], f);
    }
  }

  lemma AfterFile(s: Model, op: FileOp, f: nat)
    requires Sound(s) && f in After(s, op).files
    ensures f in s.files && s.files[f].loc <= |s.files[f].content|
    ensures After(s, op).files[f] == if op.f == f then DocAfter(s.files[f], op, OutcomeOf(s, op)) else s.files[f]
  {
    hide Grow;
    hide Released;
    hide Family;
    hide Spare;
    hide AllocChoice;
  }

  lemma OneMore(s: Model, ops: seq<FileOp>, n: nat)
    requires Sound(s) && n < |ops|
    ensures Replay(s, ops[..n + 1]) == After(Replay(s, ops[..n]), ops[n])
    ensures Outcomes(s, ops[..n + 1]) == Outcomes(s, ops[..n]) + [OutcomeOf(Replay(s, ops[..n]), ops[n])]
  {
    assert ops[..n + 1][..n] == ops[..n];
  }
}
