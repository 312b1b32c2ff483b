/** Cluster chains in a FAT, as values: what a chain is, how appending and
    releasing change the table, and why other chains are not affected. */
module FatChains {
  import opened Sequences

  /** The value fs_alloc stores, and what a failed search reports. */
  const END_OF_CHAIN: nat := 0x0FFF_FFFF
  const NO_CLUSTER: nat := 0xFFFF_FFFF

  /** Position i of the chain holds a data cluster and leads to the next one. */
  ghost predicate LinkOk(fat: seq<nat>, ch: seq<nat>, i: nat)
    requires i < |ch|
  {
    2 <= ch[i] < |fat| && if i + 1 < |ch| then fat[ch[i]] == ch[i + 1] else fat[ch[i]] >= |fat|
  }

  /** Acyclic, in range and terminated by a value beyond the last cluster. */
  ghost predicate IsChain(fat: seq<nat>, ch: seq<nat>) {
    |ch| > 0 && Distinct(ch) && forall i :: 0 <= i < |ch| ==> LinkOk(fat, ch, i)
  }

  /** The clusters of a file with this start cluster; 0 means an empty file. */
  ghost predicate IsFileChain(fat: seq<nat>, start: nat, ch: seq<nat>) {
    if start == 0 then ch == [] else IsChain(fat, ch) && ch[0] == start
  }

  lemma MembersNotFree(fat: seq<nat>, ch: seq<nat>, c: nat)
    requires IsChain(fat, ch) && c in ch
    ensures 2 <= c < |fat| && fat[c] != 0
  {
    var i :| 0 <= i < |ch| && ch[i] == c;
    assert LinkOk(fat, ch, i);
    if i + 1 < |ch| { assert LinkOk(fat, ch, i + 1); }
  }

  /** A start cluster has one chain at most. */
  lemma ChainUnique(fat: seq<nat>, ch: seq<nat>, ch': seq<nat>)
    requires IsChain(fat, ch) && IsChain(fat, ch') && ch[0] == ch'[0]
    ensures ch == ch'
  {
    forall i | 0 <= i < |ch| ensures ch[i] < |fat| { assert LinkOk(fat, ch, i); }
    forall i | 0 <= i < |ch'| ensures ch'[i] < |fat| { assert LinkOk(fat, ch', i); }
    var k := 0;
    while k + 1 < |ch| && k + 1 < |ch'|
      invariant k < |ch| && k < |ch'|
      invariant forall i :: 0 <= i <= k ==> ch[i] == ch'[i]
    {
      assert LinkOk(fat, ch, k) && LinkOk(fat, ch', k);
      k := k + 1;
    }
    assert LinkOk(fat, ch, k) && LinkOk(fat, ch', k);
  }

  /** A chain survives any change to entries that are not its own. */
  lemma ChainFrame(fat: seq<nat>, fat': seq<nat>, ch: seq<nat>)
    requires IsChain(fat, ch) && |fat'| == |fat|
    requires forall c :: c in ch && c < |fat| ==> fat'[c] == fat[c]
    ensures IsChain(fat', ch)
  {
    forall i | 0 <= i < |ch| ensures LinkOk(fat', ch, i) { assert LinkOk(fat, ch, i) && ch[i] in ch; }
  }

  // --------------------------------------------------------------- allocation

  /** The smallest free cluster from c on (fs_next_free), or NO_CLUSTER. */
  function FirstFree(fat: seq<nat>, c: nat): (r: nat)
    ensures r == NO_CLUSTER || (c <= r < |fat| && fat[r] == 0)
    ensures r == NO_CLUSTER && |fat| <= NO_CLUSTER ==> forall d :: c <= d < |fat| ==> fat[d] != 0
    ensures forall d :: c <= d < r && d < |fat| ==> fat[d] != 0
    decreases |fat| - c
  {
    if c >= |fat| then NO_CLUSTER else if fat[c] == 0 then c else FirstFree(fat, c + 1)
  }

  /** The table after the cluster c was linked behind ch. */
  ghost function Appended(fat: seq<nat>, ch: seq<nat>, c: nat): (r: seq<nat>)
    requires c < |fat| && (ch != [] ==> ch[|ch| - 1] < |fat|)
    ensures |r| == |fat|
  {
    var f := fat[c := END_OF_CHAIN];
    if ch == [] then f else f[ch[|ch| - 1] := c]
  }

  /** Linking any cluster that is not the chain's own; whether it was free does not
      matter to this chain. */
  lemma AppendCluster(fat: seq<nat>, ch: seq<nat>, c: nat)
    requires ch == [] || IsChain(fat, ch)
    requires 2 <= c < |fat| <= END_OF_CHAIN && c !in ch
    ensures ch != [] ==> ch[|ch| - 1] < |fat|
    ensures IsChain(Appended(fat, ch, c), ch + [c])
  {
    if ch != [] { assert LinkOk(fat, ch, |ch| - 1); }
    var d, f := ch + [c], Appended(fat, ch, c);
    forall i | 0 <= i < |d| ensures LinkOk(f, d, i) {
      if i < |ch| { assert LinkOk(fat, ch, i) && d[i] == ch[i]; }
    }
  }

  /** What file growth may do to the table: the chain is extended by clusters that
      were free, or by the allocator's first choice x, and only entries of the new
      chain change. */
  ghost predicate Grown(fat: seq<nat>, ch: seq<nat>, fat': seq<nat>, ch': seq<nat>, x: nat) {
    && |fat'| == |fat| && ch <= ch'
    && (ch' == [] || IsChain(fat', ch'))
    && (forall c :: 0 <= c < |fat| && fat'[c] != fat[c] ==> c in ch')
    && (forall c :: c in ch' && c !in ch ==> c < |fat| && (fat[c] == 0 || c == x))
  }

  /** Later choices y are free, or the chain has not grown yet and y is x. */
  lemma GrownTrans(fat: seq<nat>, ch: seq<nat>, f1: seq<nat>, c1: seq<nat>, f2: seq<nat>, c2: seq<nat>, x: nat, y: nat)
    requires Grown(fat, ch, f1, c1, x) && Grown(f1, c1, f2, c2, y)
    requires y == x || (y < |f1| && f1[y] == 0)
    ensures Grown(fat, ch, f2, c2, x)
  {
    forall c | c in c2 && c !in ch ensures c < |fat| && (fat[c] == 0 || c == x) {
      assert c !in c1 ==> c < |f1| && (f1[c] == 0 || c == y);
    }
    assert ch <= c1 <= c2;
  }

  lemma AppendGrows(fat: seq<nat>, ch: seq<nat>, c: nat)
    requires ch == [] || IsChain(fat, ch)
    requires 2 <= c < |fat| <= END_OF_CHAIN && c !in ch
    ensures ch != [] ==> ch[|ch| - 1] < |fat|
    ensures Grown(fat, ch, Appended(fat, ch, c), ch + [c], c)
  {
    AppendCluster(fat, ch, c);
    var f, d := Appended(fat, ch, c), ch + [c];
    forall x | 0 <= x < |fat| && f[x] != fat[x] ensures x in d {
      if x == c { assert d[|ch|] == c; } else { assert d[|ch| - 1] == x; }
    }
  }

  /** Growth of a table, except that a failed allocation may have marked one cluster,
      `leak` (0 for none), without linking it. */
  ghost predicate GrownBut(fat: seq<nat>, ch: seq<nat>, fat': seq<nat>, ch': seq<nat>, leak: nat, x: nat) {
    if leak == 0 then Grown(fat, ch, fat', ch', x)
    else
      && 2 <= leak < |fat| == |fat'| && leak !in ch'
      && (fat[leak] == 0 || leak == x) && fat'[leak] == END_OF_CHAIN
      && Grown(fat, ch, fat'[leak := fat[leak]], ch', x)
  }

  /** Growth of one chain leaves every chain disjoint from it and from the first choice
      a chain, disjoint from the longer one. */
  lemma GrowthSparesOthers(fat: seq<nat>, ch: seq<nat>, fat': seq<nat>, ch': seq<nat>, other: seq<nat>, x: nat)
    requires Grown(fat, ch, fat', ch', x) && IsChain(fat, other) && Apart(other, ch) && x !in other
    ensures IsChain(fat', other) && Apart(other, ch')
  {
    forall c | c in other ensures c !in ch' { MembersNotFree(fat, other, c); }
    ChainFrame(fat, fat', other);
  }

  /** ... also when an allocation failed on the way. */
  lemma FailureSparesOthers(fat: seq<nat>, ch: seq<nat>, fat': seq<nat>, ch': seq<nat>, leak: nat, other: seq<nat>, x: nat)
    requires GrownBut(fat, ch, fat', ch', leak, x) && IsChain(fat, other) && Apart(other, ch) && x !in other
    ensures IsChain(fat', other) && Apart(other, ch') && leak !in other
  {
    if leak == 0 {
      GrowthSparesOthers(fat, ch, fat', ch', other, x);
      if leak in other { MembersNotFree(fat, other, leak); }
    } else {
      GrowthSparesOthers(fat, ch, fat'[leak := fat[leak]], ch', other, x);
      if leak in other { MembersNotFree(fat, other, leak); }
      ChainFrame(fat'[leak := fat[leak]], fat', other);
    }
  }

  // ------------------------------------------- taking a cluster that is in use

  /** What marking a cluster in the middle of a chain does to that chain: it ends
      there, and the rest is a chain that nothing leads to any more. */
  lemma TakenClusterCutsChain(fat: seq<nat>, ch: seq<nat>, k: nat)
    requires IsChain(fat, ch) && k < |ch| && |fat| <= END_OF_CHAIN
    ensures ch[k] < |fat|
    ensures var f := fat[ch[k] := END_OF_CHAIN];
      && IsChain(f, ch[..k + 1])
      && (k + 1 < |ch| ==> IsChain(f, ch[k + 1..]))
  {
    assert LinkOk(fat, ch, k);
    var f, d, e := fat[ch[k] := END_OF_CHAIN], ch[..k + 1], ch[k + 1..];
    forall i | 0 <= i < |d| ensures LinkOk(f, d, i) { assert LinkOk(fat, ch, i); }
    forall i | 0 <= i < |e| ensures LinkOk(f, e, i) { assert LinkOk(fat, ch, k + 1 + i); }
  }

  /** ... and linking it behind another chain makes the two files share it. */
  lemma TakenClusterIsShared(fat: seq<nat>, ch: seq<nat>, k: nat, other: seq<nat>)
    requires IsChain(fat, ch) && k < |ch| && |fat| <= END_OF_CHAIN
    requires (other == [] || IsChain(fat, other)) && Apart(other, ch)
    ensures ch[k] < |fat| && (other != [] ==> other[|other| - 1] < |fat|)
    ensures var f := Appended(fat, other, ch[k]);
      && IsChain(f, other + [ch[k]]) && IsChain(f, ch[..k + 1])
      && ch[k] in other + [ch[k]] && ch[k] in ch[..k + 1] && !Apart(other + [ch[k]], ch[..k + 1])
  {
    assert LinkOk(fat, ch, k);
    assert ch[k] in ch;
    AppendCluster(fat, other, ch[k]);
    TakenClusterCutsChain(fat, ch, k);
    var f, d := Appended(fat, other, ch[k]), ch[..k + 1];
    assert d[k] == ch[k] && (other + [ch[k]])[|other|] == ch[k];
    forall c | c in d && c < |fat| ensures f[c] == fat[ch[k] := END_OF_CHAIN][c] {
      assert c in ch;
      if other != [] { assert other[|other| - 1] in other; }
    }
    ChainFrame(fat[ch[k] := END_OF_CHAIN], f, d);
  }

  // ------------------------------------------------------------------ families

  /** All live files: each has its chain, and no cluster belongs to two of them. */
  ghost predicate Family(fat: seq<nat>, files: map<nat, seq<nat>>) {
    && (forall f :: f in files ==> files[f] == [] || IsChain(fat, files[f]))
    && (forall f, g :: f in files && g in files && f != g ==> Apart(files[f], files[g]))
  }

  /** Cluster c belongs to no live file. */
  ghost predicate Unowned(files: map<nat, seq<nat>>, c: nat) {
    forall f :: f in files ==> c !in files[f]
  }

  /** Growth, failed growth included, keeps the family, as long as the allocator's first
      choice was no live file's; a cluster lost on the way is no live file's either. */
  lemma GrowthKeepsFamily(fat: seq<nat>, files: map<nat, seq<nat>>, f: nat, fat': seq<nat>, ch': seq<nat>, leak: nat, x: nat)
    requires Family(fat, files) && f in files && GrownBut(fat, files[f], fat', ch', leak, x)
    requires forall g :: g in files && g != f ==> x !in files[g]
    ensures Family(fat', files[f := ch'])
    ensures leak != 0 ==> Unowned(files[f := ch'], leak)
  {
    var t := files[f := ch'];
    if leak != 0 && ch' != [] {
      ChainFrame(fat'[leak := fat[leak]], fat', ch');
    }
    forall g | g in files && g != f
      ensures t[g] == [] || IsChain(fat', t[g])
      ensures Apart(t[g], ch') && Apart(ch', t[g]) && leak !in t[g]
    {
      assert Apart(files[g], files[f]);
      if files[g] != [] { FailureSparesOthers(fat, files[f], fat', ch', leak, files[g], x); }
    }
  }

  // ------------------------------------------------------------------- release

  /** A cluster number fs_rm goes on with. */
  predicate Live(fat: seq<nat>, c: nat) {
    c != 0 && c < |fat|
  }

  function NonZero(fat: seq<nat>): nat {
    if fat == [] then 0 else (if fat[|fat| - 1] != 0 then 1 else 0) + NonZero(fat[..|fat| - 1])
  }

  lemma {:induction false} ZeroingShrinks(fat: seq<nat>, c: nat)
    requires c < |fat|
    ensures NonZero(fat[c := 0]) == NonZero(fat) - if fat[c] != 0 then 1 else 0
  {
    var n := |fat| - 1;
    if c == n {
      assert fat[c := 0][..n] == fat[..n];
    } else {
      ZeroingShrinks(fat[..n], c);
      assert fat[c := 0][..n] == fat[..n][c := 0];
    }
  }

  /** The table the loop of fs_rm leaves, on any table at all. */
  ghost function Released(fat: seq<nat>, c: nat): (r: seq<nat>)
    ensures |r| == |fat|
    decreases NonZero(fat), if Live(fat, c) then 1 else 0
  {
    if !Live(fat, c) then fat
    else
      ZeroingShrinks(fat, c);
      Released(fat[c := 0], fat[c])
  }

  /** p follows table entries from live cluster to live cluster. */
  ghost predicate Path(fat: seq<nat>, p: seq<nat>) {
    && |p| > 0
    && (forall i :: 0 <= i < |p| ==> Live(fat, p[i]))
    && (forall i :: 0 <= i < |p| - 1 ==> fat[p[i]] == p[i + 1])
  }

  ghost predicate Reachable(fat: seq<nat>, start: nat, c: nat) {
    exists p :: Path(fat, p) && p[0] == start && p[|p| - 1] == c
  }

  /** A path either avoids its start after the first step or can be shortened. */
  lemma {:induction false} SkipStart(fat: seq<nat>, p: seq<nat>)
    requires Path(fat, p) && p[|p| - 1] != p[0]
    ensures Reachable(fat[p[0] := 0], fat[p[0]], p[|p| - 1])
    decreases |p|
  {
    var s, q := p[0], p[1..];
    assert Path(fat, q) && q[|q| - 1] == p[|p| - 1];
    if i :| 0 <= i < |q| && q[i] == s {
      assert Path(fat, q[i..]);
      SkipStart(fat, q[i..]);
    } else {
      assert Path(fat[s := 0], q);
    }
  }

  lemma ExtendPath(fat: seq<nat>, s: nat, p: seq<nat>)
    requires Live(fat, s) && Path(fat[s := 0], p) && p[0] == fat[s]
    ensures Reachable(fat, s, p[|p| - 1])
  {
    var q := [s] + p;
    forall i | 0 <= i < |q| - 1 ensures fat[q[i]] == q[i + 1] {
      if i > 0 {
        assert fat[s := 0][p[i - 1]] == p[i];
        assert Live(fat, p[i]);
      }
    }
    assert Path(fat, q) && q[0] == s && q[|q| - 1] == p[|p| - 1];
  }

  lemma ReachStep(fat: seq<nat>, s: nat, c: nat)
    requires Live(fat, s)
    ensures Reachable(fat, s, c) <==> c == s || Reachable(fat[s := 0], fat[s], c)
  {
    if c == s { assert Path(fat, [s]); }
    if Reachable(fat, s, c) && c != s {
      var p :| Path(fat, p) && p[0] == s && p[|p| - 1] == c;
      SkipStart(fat, p);
    }
    if Reachable(fat[s := 0], fat[s], c) {
      var p :| Path(fat[s := 0], p) && p[0] == fat[s] && p[|p| - 1] == c;
      ExtendPath(fat, s, p);
    }
  }

  /** On every table, cyclic or cross-linked ones included, fs_rm ends and zeroes
      exactly the entries reachable from the start cluster. */
  lemma {:induction false} ReleaseIsReachable(fat: seq<nat>, start: nat, c: nat)
    requires c < |fat|
    ensures Released(fat, start)[c] == if Reachable(fat, start, c) then 0 else fat[c]
    decreases NonZero(fat), if Live(fat, start) then 1 else 0
  {
    if Live(fat, start) {
      ZeroingShrinks(fat, start);
      ReachStep(fat, start, c);
      ReleaseIsReachable(fat[start := 0], fat[start], c);
    } else {
      assert forall p :: Path(fat, p) ==> Live(fat, p[0]);
    }
  }

  lemma {:induction false} ChainPath(fat: seq<nat>, ch: seq<nat>, p: seq<nat>)
    requires IsChain(fat, ch) && Path(fat, p) && p[0] == ch[0]
    ensures |p| <= |ch| && p == ch[..|p|]
    decreases |p|
  {
    if |p| > 1 {
      var k := |p| - 1;
      assert Path(fat, p[..k]);
      ChainPath(fat, ch, p[..k]);
      assert LinkOk(fat, ch, k - 1);
      assert fat[p[k - 1]] == p[k] && p[k - 1] == ch[k - 1];
    }
  }

  /** The clusters reachable from the start of a chain are the chain. */
  lemma ChainReach(fat: seq<nat>, ch: seq<nat>, c: nat)
    requires IsChain(fat, ch)
    ensures Reachable(fat, ch[0], c) <==> c in ch
  {
    if c in ch {
      var i :| 0 <= i < |ch| && ch[i] == c;
      var p := ch[..i + 1];
      forall j | 0 <= j < |p| ensures Live(fat, p[j]) { assert LinkOk(fat, ch, j); }
      forall j | 0 <= j < |p| - 1 ensures fat[p[j]] == p[j + 1] { assert LinkOk(fat, ch, j); }
      assert Path(fat, p);
    }
    if Reachable(fat, ch[0], c) {
      var p :| Path(fat, p) && p[0] == ch[0] && p[|p| - 1] == c;
      ChainPath(fat, ch, p);
    }
  }

  /** Releasing one chain frees exactly its own clusters and keeps a disjoint chain. */
  lemma ReleaseSparesOther(fat: seq<nat>, ch: seq<nat>, other: seq<nat>)
    requires IsChain(fat, ch) && IsChain(fat, other) && Apart(other, ch)
    ensures IsChain(Released(fat, ch[0]), other)
  {
    ReleasedEntries(fat, ch);
    ChainFrame(fat, Released(fat, ch[0]), other);
  }

  lemma ReleasedEntries(fat: seq<nat>, ch: seq<nat>)
    requires IsChain(fat, ch)
    ensures forall c :: 0 <= c < |fat| ==> Released(fat, ch[0])[c] == if c in ch then 0 else fat[c]
  {
    forall c: nat | c < |fat| ensures Released(fat, ch[0])[c] == if c in ch then 0 else fat[c] {
      ReleaseIsReachable(fat, ch[0], c);
      ChainReach(fat, ch, c);
    }
  }

  /** Removing a file frees exactly its own clusters and keeps every other file. */
  lemma ReleaseKeepsFamily(fat: seq<nat>, files: map<nat, seq<nat>>, f: nat)
    requires Family(fat, files) && f in files && files[f] != []
    ensures var t := Released(fat, files[f][0]);
      && Family(t, files - {f})
      && forall c :: 0 <= c < |fat| ==> t[c] == if c in files[f] then 0 else fat[c]
  {
    ReleasedEntries(fat, files[f]);
    forall g | g in files && g != f && files[g] != [] ensures IsChain(Released(fat, files[f][0]), files[g]) {
      assert Apart(files[g], files[f]);
      ReleaseSparesOther(fat, files[f], files[g]);
    }
  }
}
