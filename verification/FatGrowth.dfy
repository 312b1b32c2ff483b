/** How a file grows by several clusters, as values: each step is one fs_alloc and the
    link behind the last cluster (kernel/fs/fat/fat.c). */
module FatGrowth {
  import opened BlockCache
  import opened FatChains
  import opened FatVolume

  /** The table, the chain and FSInfo afterwards; `lost` is the cluster that a failed
      allocation marked, 0 if none failed. */
  datatype Growth = Growth(fat: seq<nat>, chain: seq<nat>, info: seq<Byte>, lost: nat)

  ghost predicate Linkable(fat: seq<nat>, ch: seq<nat>) {
    ch != [] ==> ch[|ch| - 1] < |fat|
  }

  /** One cluster more: taken whatever it was, and lost if none is free beyond it.  A
      choice that names no data cluster cannot be taken. */
  ghost function GrowOne(fat: seq<nat>, ch: seq<nat>, info: seq<Byte>): (g: Growth)
    requires |info| == 512 && Linkable(fat, ch)
    ensures |g.fat| == |fat| && |g.info| == 512 && Linkable(g.fat, g.chain)
    ensures if g.lost == 0 then |g.chain| == |ch| + 1 else g.chain == ch && g.info == info
  {
    var c := AllocChoice(fat, info);
    if !(2 <= c < |fat|) then Growth(fat, ch, info, NO_CLUSTER)
    else
      var f := fat[c := END_OF_CHAIN];
      var next := FirstFree(f, c);
      if next == NO_CLUSTER then Growth(f, ch, info, c)
      else Growth(Appended(fat, ch, c), ch + [c], WithHint(info, next), 0)
  }

  /** k clusters more, or as many as there are before the first failure. */
  ghost function Grow(fat: seq<nat>, ch: seq<nat>, info: seq<Byte>, k: nat): (g: Growth)
    requires |info| == 512 && Linkable(fat, ch)
    ensures |g.fat| == |fat| && |g.info| == 512
    ensures |ch| <= |g.chain| && if g.lost == 0 then |g.chain| == |ch| + k else |g.chain| < |ch| + k
    decreases k
  {
    if k == 0 then Growth(fat, ch, info, 0)
    else
      var g := GrowOne(fat, ch, info);
      if g.lost != 0 then g else Grow(g.fat, g.chain, g.info, k - 1)
  }

  /** The cluster fs_alloc would take exists and is not one of the chain's own.  It may
      be in use by something else. */
  ghost predicate Usable(fat: seq<nat>, info: seq<Byte>, ch: seq<nat>) {
    ChoiceInRange(fat, info) && AllocChoice(fat, info) !in ch
  }

  /** A free choice is never one's own. */
  lemma FreeIsUsable(fat: seq<nat>, info: seq<Byte>, ch: seq<nat>)
    requires (ch == [] || IsChain(fat, ch)) && CanAlloc(fat, info)
    ensures Usable(fat, info, ch)
  {
    if AllocChoice(fat, info) in ch { MembersNotFree(fat, ch, AllocChoice(fat, info)); }
  }

  /** The table and the allocator's hint after growth: untouched if the chain has not
      grown, good after growth, and after a failure distrusted or naming the lost
      cluster. */
  ghost predicate HintFollows(fat: seq<nat>, ch: seq<nat>, info: seq<Byte>,
                              fat': seq<nat>, ch': seq<nat>, info': seq<Byte>, leak: nat) {
    && |info| == |info'| == 512
    && if leak != 0 then HintSpent(info', leak)
       else if ch' == ch then fat' == fat && info' == info
       else CanAlloc(fat', info')
  }

  lemma LastInTable(fat: seq<nat>, ch: seq<nat>)
    requires ch == [] || IsChain(fat, ch)
    ensures Linkable(fat, ch)
  {
    if ch != [] { assert LinkOk(fat, ch, |ch| - 1); }
  }

  lemma {:induction false} SameFree(fat: seq<nat>, fat': seq<nat>, c: nat)
    requires |fat'| == |fat| && forall d :: 0 <= d < |fat| ==> (fat'[d] == 0 <==> fat[d] == 0)
    ensures FirstFree(fat', c) == FirstFree(fat, c)
    decreases |fat| - c
  {
    if c < |fat| { SameFree(fat, fat', c + 1); }
  }

  /** Linking a taken cluster frees nothing and takes nothing more. */
  lemma LinkKeepsFree(fat: seq<nat>, ch: seq<nat>, c: nat)
    requires (ch == [] || IsChain(fat, ch)) && 2 <= c < |fat|
    ensures Linkable(fat, ch)
    ensures forall x: nat :: FirstFree(Appended(fat, ch, c), x) == FirstFree(fat[c := END_OF_CHAIN], x)
  {
    LastInTable(fat, ch);
    if ch != [] { assert LinkOk(fat, ch, |ch| - 1); }
    forall x: nat ensures FirstFree(Appended(fat, ch, c), x) == FirstFree(fat[c := END_OF_CHAIN], x) {
      SameFree(fat[c := END_OF_CHAIN], Appended(fat, ch, c), x);
    }
  }

  /** A step, by the outcome of fs_alloc. */
  lemma StepIs(fat: seq<nat>, ch: seq<nat>, info: seq<Byte>)
    requires ChoiceInRange(fat, info) && Linkable(fat, ch)
    ensures var c := AllocChoice(fat, info);
      var next := FirstFree(fat[c := END_OF_CHAIN], c);
      GrowOne(fat, ch, info) ==
        if next == NO_CLUSTER then Growth(fat[c := END_OF_CHAIN], ch, info, c)
        else Growth(Appended(fat, ch, c), ch + [c], WithHint(info, next), 0)
  {
  }

  /** What one step does: the chain is a chain again, and the next hint is good. */
  lemma OneStep(fat: seq<nat>, ch: seq<nat>, info: seq<Byte>)
    requires (ch == [] || IsChain(fat, ch)) && |fat| <= END_OF_CHAIN && Usable(fat, info, ch)
    ensures Linkable(fat, ch)
    ensures var g := GrowOne(fat, ch, info);
      && GrownBut(fat, ch, g.fat, g.chain, g.lost, AllocChoice(fat, info))
      && (if g.lost == 0 then CanAlloc(g.fat, g.info) && IsChain(g.fat, g.chain)
          else HintSpent(g.info, g.lost) && g.lost == AllocChoice(fat, info) && FirstFree(g.fat, g.lost) == NO_CLUSTER)
  {
    LastInTable(fat, ch);
    var c := AllocChoice(fat, info);
    var f := fat[c := END_OF_CHAIN];
    var next := FirstFree(f, c);
    if next == NO_CLUSTER {
      assert f[c := fat[c]] == fat;
    } else {
      AppendGrows(fat, ch, c);
      HintStored(info, next);
      LinkKeepsFree(fat, ch, c);
      assert FirstFree(Appended(fat, ch, c), c) == next;
      GoodHint(Appended(fat, ch, c), WithHint(info, next));
    }
  }

  lemma GrownButTrans(f0: seq<nat>, c0: seq<nat>, f1: seq<nat>, c1: seq<nat>, f2: seq<nat>, c2: seq<nat>, leak: nat, x: nat, y: nat)
    requires Grown(f0, c0, f1, c1, x) && GrownBut(f1, c1, f2, c2, leak, y) && y < |f1| && f1[y] == 0
    ensures GrownBut(f0, c0, f2, c2, leak, x)
  {
    if leak == 0 {
      GrownTrans(f0, c0, f1, c1, f2, c2, x, y);
    } else {
      assert forall c :: c in c1 ==> c in c2;
      GrownTrans(f0, c0, f1, c1, f2[leak := f1[leak]], c2, x, y);
      assert f1[leak] == f0[leak];
    }
  }

  /** Growth by any number of clusters takes free clusters and the first choice only,
      changes entries of the longer chain only, and leaves a good hint or one that is
      spent on the lost cluster. */
  lemma {:induction false} GrowIsGrown(fat: seq<nat>, ch: seq<nat>, info: seq<Byte>, k: nat)
    requires (ch == [] || IsChain(fat, ch)) && |fat| <= END_OF_CHAIN && |info| == 512
    requires k > 0 ==> Usable(fat, info, ch)
    ensures Linkable(fat, ch)
    ensures var g := Grow(fat, ch, info, k);
      && GrownBut(fat, ch, g.fat, g.chain, g.lost, AllocChoice(fat, info))
      && HintFollows(fat, ch, info, g.fat, g.chain, g.info, g.lost)
      && (g.lost != 0 ==> FirstFree(g.fat, g.lost) == NO_CLUSTER)
    decreases k
  {
    hide Grow;
    hide GrowOne;
    hide GrownBut;
    hide Grown;
    hide HintFollows;
    hide IsChain;
    hide CanAlloc;
    hide AllocChoice;
    hide Usable;
    LastInTable(fat, ch);
    if k == 0 {
      GrowNothing(fat, ch, info);
    } else {
      var g := GrowOne(fat, ch, info);
      OneStep(fat, ch, info);
      GrowUnfolds(fat, ch, info, k);
      if g.lost == 0 {
        FreeIsUsable(g.fat, g.info, g.chain);
        GrowIsGrown(g.fat, g.chain, g.info, k - 1);
        StepThenGrow(fat, ch, info, g, Grow(g.fat, g.chain, g.info, k - 1));
      } else {
        HintSpentFollows(fat, ch, info, g);
      }
    }
  }

  lemma GrowUnfolds(fat: seq<nat>, ch: seq<nat>, info: seq<Byte>, k: nat)
    requires |info| == 512 && Linkable(fat, ch) && k > 0
    ensures var g := GrowOne(fat, ch, info);
      if g.lost != 0 then Grow(fat, ch, info, k) == g
      else Grow(fat, ch, info, k) == Grow(g.fat, g.chain, g.info, k - 1)
  {
  }

  lemma GrowNothing(fat: seq<nat>, ch: seq<nat>, info: seq<Byte>)
    requires (ch == [] || IsChain(fat, ch)) && |info| == 512
    ensures Linkable(fat, ch) && Grow(fat, ch, info, 0) == Growth(fat, ch, info, 0)
    ensures GrownBut(fat, ch, fat, ch, 0, AllocChoice(fat, info)) && HintFollows(fat, ch, info, fat, ch, info, 0)
  {
    LastInTable(fat, ch);
  }

  lemma HintSpentFollows(fat: seq<nat>, ch: seq<nat>, info: seq<Byte>, g: Growth)
    requires |info| == 512 && g.lost != 0 && HintSpent(g.info, g.lost)
    ensures HintFollows(fat, ch, info, g.fat, g.chain, g.info, g.lost)
  {
  }

  lemma StepThenGrow(fat: seq<nat>, ch: seq<nat>, info: seq<Byte>, g: Growth, r: Growth)
    requires |info| == |g.info| == 512 && g.lost == 0 && |g.chain| == |ch| + 1 <= |r.chain|
    requires GrownBut(fat, ch, g.fat, g.chain, 0, AllocChoice(fat, info)) && CanAlloc(g.fat, g.info)
    requires GrownBut(g.fat, g.chain, r.fat, r.chain, r.lost, AllocChoice(g.fat, g.info))
    requires HintFollows(g.fat, g.chain, g.info, r.fat, r.chain, r.info, r.lost)
    ensures GrownBut(fat, ch, r.fat, r.chain, r.lost, AllocChoice(fat, info))
    ensures HintFollows(fat, ch, info, r.fat, r.chain, r.info, r.lost)
  {
    hide Grown;
    hide AllocChoice;
    GrownButTrans(fat, ch, g.fat, g.chain, r.fat, r.chain, r.lost, AllocChoice(fat, info), AllocChoice(g.fat, g.info));
  }

  // ------------------------------------------------------ when growth succeeds

  /** How many clusters from c on are free. */
  ghost function FreeFrom(fat: seq<nat>, c: nat): nat
    decreases |fat| - c
  {
    if c >= |fat| then 0 else (if fat[c] == 0 then 1 else 0) + FreeFrom(fat, c + 1)
  }

  lemma {:induction false} SameCount(fat: seq<nat>, fat': seq<nat>, c: nat)
    requires |fat'| == |fat| && forall d :: c <= d < |fat| ==> (fat'[d] == 0 <==> fat[d] == 0)
    ensures FreeFrom(fat', c) == FreeFrom(fat, c)
    decreases |fat| - c
  {
    if c < |fat| { SameCount(fat, fat', c + 1); }
  }

  lemma {:induction false} CountSplit(fat: seq<nat>, c: nat, d: nat)
    requires c <= d
    ensures FreeFrom(fat, d) <= FreeFrom(fat, c)
    ensures (forall x :: c <= x < d && x < |fat| ==> fat[x] != 0) ==> FreeFrom(fat, d) == FreeFrom(fat, c)
    decreases d - c
  {
    if c < d { CountSplit(fat, c + 1, d); }
  }

  /** The search finds a cluster if and only if one is left to count. */
  lemma FirstFreeCounts(fat: seq<nat>, c: nat)
    requires |fat| <= NO_CLUSTER
    ensures var n := FirstFree(fat, c);
      if n == NO_CLUSTER then FreeFrom(fat, c) == 0 else FreeFrom(fat, c) == 1 + FreeFrom(fat, n + 1)
  {
    var n := FirstFree(fat, c);
    if n == NO_CLUSTER {
      if c <= |fat| { CountSplit(fat, c, |fat|); }
    } else {
      CountSplit(fat, c, n);
    }
  }

  /** The same clusters are free, but for c, which was taken. */
  ghost predicate TookOnly(fat: seq<nat>, fat': seq<nat>, c: nat) {
    |fat'| == |fat| && forall d :: 0 <= d < |fat| ==> (fat'[d] == 0 <==> fat[d] == 0 && d != c)
  }

  lemma MarkedSearch(fat: seq<nat>, c: nat)
    requires c < |fat|
    ensures FirstFree(fat[c := END_OF_CHAIN], c) == FirstFree(fat, c + 1)
  {
    SameFreeFrom(fat, fat[c := END_OF_CHAIN], c + 1);
  }

  lemma {:induction false} SameFreeFrom(fat: seq<nat>, fat': seq<nat>, c: nat)
    requires |fat'| == |fat| && forall d :: c <= d < |fat| ==> fat'[d] == fat[d]
    ensures FirstFree(fat', c) == FirstFree(fat, c)
    decreases |fat| - c
  {
    if c < |fat| { SameFreeFrom(fat, fat', c + 1); }
  }

  /** A step succeeds if and only if something is free beyond the choice; then the next
      hint is the first such cluster. */
  lemma StepSucceedsIff(fat: seq<nat>, ch: seq<nat>, info: seq<Byte>)
    requires (ch == [] || IsChain(fat, ch)) && |fat| <= END_OF_CHAIN && ChoiceInRange(fat, info)
    ensures Linkable(fat, ch)
    ensures var c, g := AllocChoice(fat, info), GrowOne(fat, ch, info);
      && (g.lost == 0 <==> FreeFrom(fat, c + 1) > 0)
      && (g.lost == 0 ==> TookOnly(fat, g.fat, c) && FirstFree(fat, c + 1) != NO_CLUSTER)
      && (g.lost == 0 ==> g.info == WithHint(info, FirstFree(fat, c + 1)))
  {
    hide AllocChoice;
    hide WithHint;
    LastInTable(fat, ch);
    if ch != [] { assert LinkOk(fat, ch, |ch| - 1); }
    MarkedSearch(fat, AllocChoice(fat, info));
    FirstFreeCounts(fat, AllocChoice(fat, info) + 1);
  }

  /** The count beyond the next free cluster n after c was taken. */
  lemma CountTaken(fat: seq<nat>, fat': seq<nat>, c: nat, n: nat)
    requires TookOnly(fat, fat', c) && |fat| <= NO_CLUSTER && n == FirstFree(fat, c + 1) != NO_CLUSTER
    ensures c < n < |fat| && fat'[n] == 0
    ensures FreeFrom(fat', n) == FreeFrom(fat, c + 1) == 1 + FreeFrom(fat', n + 1)
    ensures forall x :: c <= x < n ==> fat'[x] != 0
  {
    CountSplit(fat, c + 1, n);
    SameCount(fat, fat', n);
  }

  /** k free clusters beyond the one fs_alloc takes first are enough. */
  lemma {:induction false} EnoughFree(fat: seq<nat>, ch: seq<nat>, info: seq<Byte>, k: nat)
    requires (ch == [] || IsChain(fat, ch)) && |fat| <= END_OF_CHAIN && Usable(fat, info, ch)
    requires FreeFrom(fat, AllocChoice(fat, info) + 1) >= k
    ensures Linkable(fat, ch) && Grow(fat, ch, info, k).lost == 0
    decreases k
  {
    hide Grow;
    hide GrowOne;
    hide AllocChoice;
    hide WithHint;
    hide GrownBut;
    hide IsChain;
    hide TookOnly;
    LastInTable(fat, ch);
    if k > 0 {
      var c, g := AllocChoice(fat, info), GrowOne(fat, ch, info);
      StepSucceedsIff(fat, ch, info);
      GrowUnfolds(fat, ch, info, k);
      OneStep(fat, ch, info);
      FreeIsUsable(g.fat, g.info, g.chain);
      NextCount(fat, info, g.fat, c);
      EnoughFree(g.fat, g.chain, g.info, k - 1);
    }
  }

  /** The next choice is the next free cluster or a lower one. */
  lemma NextCount(fat: seq<nat>, info: seq<Byte>, fat': seq<nat>, c: nat)
    requires |info| == 512 && 2 <= c && |fat| <= END_OF_CHAIN
    requires TookOnly(fat, fat', c) && FirstFree(fat, c + 1) != NO_CLUSTER
    ensures var info' := WithHint(info, FirstFree(fat, c + 1));
      && FreeFrom(fat', AllocChoice(fat', info') + 1) + 1 >= FreeFrom(fat, c + 1)
      && HintLimit(info') == HintLimit(info)
      && ((HintLimit(info) + 1 >= |fat| || forall d :: 2 <= d < c ==> fat[d] != 0) ==>
            (AllocChoice(fat', info') == FirstFree(fat, c + 1)
             && FreeFrom(fat', AllocChoice(fat', info') + 1) + 1 == FreeFrom(fat, c + 1)))
  {
    var n := FirstFree(fat, c + 1);
    CountTaken(fat, fat', c, n);
    HintStored(info, n);
    var x := AllocChoice(fat', WithHint(info, n));
    hide WithHint;
    if x < n { CountSplit(fat', x + 1, n); }
  }

  /** Nothing below the first choice is free, or the hint is trusted up to the end. */
  ghost predicate Upward(fat: seq<nat>, info: seq<Byte>) {
    && ChoiceInRange(fat, info)
    && (HintLimit(info) + 1 >= |fat| || forall d :: 2 <= d < AllocChoice(fat, info) ==> fat[d] != 0)
  }

  lemma UpwardAgain(fat: seq<nat>, info: seq<Byte>, fat': seq<nat>, c: nat)
    requires Upward(fat, info) && c == AllocChoice(fat, info) && |fat| <= END_OF_CHAIN
    requires TookOnly(fat, fat', c) && FirstFree(fat, c + 1) != NO_CLUSTER
    ensures var info' := WithHint(info, FirstFree(fat, c + 1)); Upward(fat', info')
  {
    var n := FirstFree(fat, c + 1);
    CountTaken(fat, fat', c, n);
    NextCount(fat, info, fat', c);
    hide WithHint;
    hide AllocChoice;
  }

  /** They are also necessary, unless a later choice falls back below the first one. */
  lemma {:induction false} GrowSucceedsIff(fat: seq<nat>, ch: seq<nat>, info: seq<Byte>, k: nat)
    requires (ch == [] || IsChain(fat, ch)) && |fat| <= END_OF_CHAIN && Usable(fat, info, ch) && Upward(fat, info)
    ensures Linkable(fat, ch)
    ensures Grow(fat, ch, info, k).lost == 0 <==> FreeFrom(fat, AllocChoice(fat, info) + 1) >= k
    decreases k
  {
    hide Grow;
    hide GrowOne;
    hide AllocChoice;
    hide WithHint;
    hide GrownBut;
    hide IsChain;
    hide TookOnly;
    LastInTable(fat, ch);
    if k > 0 {
      var c, g := AllocChoice(fat, info), GrowOne(fat, ch, info);
      StepSucceedsIff(fat, ch, info);
      GrowUnfolds(fat, ch, info, k);
      if g.lost == 0 {
        OneStep(fat, ch, info);
        FreeIsUsable(g.fat, g.info, g.chain);
        NextCount(fat, info, g.fat, c);
        UpwardAgain(fat, info, g.fat, c);
        GrowSucceedsIff(g.fat, g.chain, g.info, k - 1);
      }
    }
  }

  /** fs_alloc fails although a lower cluster is free: it takes cluster 3 and does not
      look at cluster 2. */
  lemma LowerClusterUnseen()
    ensures var fat, info := [END_OF_CHAIN, END_OF_CHAIN, 0, 0], InfoWith(1000, 2);
      fat[2] == 0 && CanAlloc(fat, info) && Grow(fat, [], info, 1).lost == 3
  {
    hide Grow;
    hide GrowOne;
    hide Appended;
    hide WithHint;
    var fat: seq<nat>, info := [END_OF_CHAIN, END_OF_CHAIN, 0, 0], InfoWith(1000, 2);
    InfoFields(1000, 2);
    StepIs(fat, [], info);
    GrowUnfolds(fat, [], info, 1);
  }
}
