/** The clock replacement policy of kernel/fs/fscache/fscache.c, as a function of
    the slots and the hand. */
module Clock {
  import opened BlockCache

  /** The slot j steps after the hand. */
  function At(hand: nat, j: nat, n: nat): (i: nat)
    requires hand < n && j < n
    ensures i < n
  {
    if hand + j < n then hand + j else hand + j - n
  }

  /** How many steps after the hand slot i comes. */
  function StepsTo(hand: nat, i: nat, n: nat): (j: nat)
    requires hand < n && i < n
    ensures j < n && At(hand, j, n) == i
  {
    if i >= hand then i - hand else i + n - hand
  }

  function Next(i: nat, n: nat): nat {
    if i + 1 >= n then 0 else i + 1
  }

  /** A slot the first sweep takes (unused), or the second sweep takes (merely clean). */
  predicate Takes(s: Slot, second: bool) {
    !s.dirty && (second || !s.referenced)
  }

  /** The first step from j on at which the sweep takes the slot, or |slots|. */
  function FirstTaken(slots: seq<Slot>, hand: nat, j: nat, second: bool): (k: nat)
    requires hand < |slots| && j <= |slots|
    ensures j <= k <= |slots|
    ensures k < |slots| ==> Takes(slots[At(hand, k, |slots|)], second)
    ensures forall i :: j <= i < k ==> !Takes(slots[At(hand, i, |slots|)], second)
    decreases |slots| - j
  {
    if j == |slots| || Takes(slots[At(hand, j, |slots|)], second) then j
    else FirstTaken(slots, hand, j + 1, second)
  }

  /** The victim: the first unreferenced clean slot in clock order, failing that the
      first clean one, and if all are dirty the slot under the hand. */
  function VictimOf(slots: seq<Slot>, hand: nat): (i: nat)
    requires hand < |slots|
    ensures i < |slots|
    ensures slots[i].dirty ==> i == hand && forall j: nat :: j < |slots| ==> slots[At(hand, j, |slots|)].dirty
    ensures !slots[i].dirty && slots[i].referenced ==>
      forall j: nat :: j < |slots| ==> slots[At(hand, j, |slots|)].dirty || slots[At(hand, j, |slots|)].referenced
  {
    var n, k := |slots|, FirstTaken(slots, hand, 0, false);
    if k < n then At(hand, k, n)
    else var m := FirstTaken(slots, hand, 0, true); if m < n then At(hand, m, n) else hand
  }

  /** The first sweep clears the reference bits it passes. */
  function Swept(slots: seq<Slot>, hand: nat, k: nat): (r: seq<Slot>)
    requires hand < |slots| && k <= |slots|
    ensures |r| == |slots|
    ensures forall i :: 0 <= i < |slots| ==>
      r[i] == if StepsTo(hand, i, |slots|) < k then slots[i].(referenced := false) else slots[i]
  {
    seq(|slots|, i requires 0 <= i < |slots| =>
      if StepsTo(hand, i, |slots|) < k then slots[i].(referenced := false) else slots[i])
  }

  lemma SweptNone(slots: seq<Slot>, hand: nat)
    requires hand < |slots|
    ensures Swept(slots, hand, 0) == slots
  {
  }

  lemma SweepStep(slots: seq<Slot>, hand: nat, k: nat)
    requires hand < |slots| && k < |slots|
    ensures var n, i := |slots|, At(hand, k, |slots|);
      && Swept(slots, hand, k)[i] == slots[i]
      && Swept(slots, hand, k + 1) == Swept(slots, hand, k)[i := slots[i].(referenced := false)]
      && Next(i, n) == if k + 1 < n then At(hand, k + 1, n) else hand
  {
    var n, i := |slots|, At(hand, k, |slots|);
    assert StepsTo(hand, i, n) == k;
    forall j | 0 <= j < n && j != i ensures StepsTo(hand, j, n) != k { }
  }

  /** What the victim is, slot by slot: it is dirty only when every slot is, and
      among the clean slots an unreferenced one is preferred, in clock order. */
  lemma VictimIsBest(slots: seq<Slot>, hand: nat, i: nat)
    requires hand < |slots| && i < |slots|
    ensures var n, v := |slots|, VictimOf(slots, hand);
      && (slots[v].dirty ==> slots[i].dirty && v == hand)
      && (!slots[i].dirty && !slots[i].referenced ==>
            !slots[v].dirty && !slots[v].referenced && StepsTo(hand, v, n) <= StepsTo(hand, i, n))
      && (!slots[i].dirty && !slots[v].dirty && slots[v].referenced ==> StepsTo(hand, v, n) <= StepsTo(hand, i, n))
  {
    var n := |slots|;
    assert At(hand, StepsTo(hand, i, n), n) == i;
    var k, m := FirstTaken(slots, hand, 0, false), FirstTaken(slots, hand, 0, true);
    assert k < n ==> StepsTo(hand, At(hand, k, n), n) == k;
    assert m < n ==> StepsTo(hand, At(hand, m, n), n) == m;
    assert hand == At(hand, 0, n);
  }

  /** The sweep alters no tag, no dirty bit and no data. */
  lemma SweepKeepsContents(slots: seq<Slot>, hand: nat, k: nat)
    requires hand < |slots| && k <= |slots|
    ensures forall i :: 0 <= i < |slots| ==>
      Swept(slots, hand, k)[i] == slots[i].(referenced := Swept(slots, hand, k)[i].referenced)
  {
  }

  /** ... so the second sweep sees the dirty bits it would have seen before. */
  lemma {:induction false} SecondSweepSame(slots: seq<Slot>, r: seq<Slot>, hand: nat, j: nat)
    requires hand < |slots| && j <= |slots| && |r| == |slots|
    requires forall i :: 0 <= i < |slots| ==> r[i].dirty == slots[i].dirty
    ensures FirstTaken(r, hand, j, true) == FirstTaken(slots, hand, j, true)
    decreases |slots| - j
  {
    if j < |slots| { SecondSweepSame(slots, r, hand, j + 1); }
  }
}
