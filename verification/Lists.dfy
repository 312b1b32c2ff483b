/** The kernel's circular doubly linked list (include/xsu/list.h).  A pointer
    to a list node is an index into the array that holds all the nodes. */
module Lists {
  import opened Sequences

  datatype ListHead = ListHead(prev: nat, next: nat)

  /** The node after position i of the cycle c, and the one before it. */
  ghost function After(c: seq<nat>, i: nat): nat
    requires i < |c|
  {
    if i + 1 == |c| then c[0] else c[i + 1]
  }

  ghost function Before(c: seq<nat>, i: nat): nat
    requires i < |c|
  {
    if i == 0 then c[|c| - 1] else c[i - 1]
  }

  /** The node at position i of the cycle is linked to its two neighbours. */
  ghost predicate Joined(s: seq<ListHead>, c: seq<nat>, i: nat)
    requires i < |c|
  {
    c[i] < |s| && s[c[i]].next == After(c, i) && s[c[i]].prev == Before(c, i)
  }

  /** The links of the nodes in c form exactly the cycle c, in both directions. */
  ghost predicate Ring(s: seq<ListHead>, c: seq<nat>) {
    |c| > 0 && Distinct(c) && forall i :: 0 <= i < |c| ==> Joined(s, c, i)
  }

  /** c with x inserted at position i, and c without its element i. */
  ghost function InsertAt<T>(c: seq<T>, i: nat, x: T): (r: seq<T>)
    requires i <= |c|
    ensures |r| == |c| + 1
  {
    seq(|c| + 1, k requires 0 <= k < |c| + 1 => if k < i then c[k] else if k == i then x else c[k - 1])
  }

  ghost function RemoveAt<T>(c: seq<T>, i: nat): (r: seq<T>)
    requires i < |c|
    ensures |r| == |c| - 1
  {
    seq(|c| - 1, k requires 0 <= k < |c| - 1 => if k < i then c[k] else c[k + 1])
  }

  ghost function Linked(s: seq<ListHead>, n: nat, p: nat, q: nat): (r: seq<ListHead>)
    requires n < |s| && p < |s| && q < |s|
    ensures |r| == |s|
  {
    var s1 := s[n := ListHead(p, q)];
    var s2 := s1[p := s1[p].(next := n)];
    s2[q := s2[q].(prev := n)]
  }

  ghost function Unlinked(s: seq<ListHead>, e: nat): (r: seq<ListHead>)
    requires e < |s| && s[e].prev < |s| && s[e].next < |s|
    ensures |r| == |s|
  {
    var p, q := s[e].prev, s[e].next;
    var s1 := s[p := s[p].(next := q)];
    var s2 := s1[q := s1[q].(prev := p)];
    s2[e := ListHead(e, e)]
  }

  lemma LinkedNext(s: seq<ListHead>, n: nat, p: nat, q: nat)
    requires n < |s| && p < |s| && q < |s| && n != p && n != q
    ensures forall x :: 0 <= x < |s| ==>
      Linked(s, n, p, q)[x].next == if x == n then q else if x == p then n else s[x].next
    ensures forall x :: 0 <= x < |s| ==>
      Linked(s, n, p, q)[x].prev == if x == n then p else if x == q then n else s[x].prev
  {
  }

  lemma UnlinkedNext(s: seq<ListHead>, e: nat)
    requires e < |s| && s[e].prev < |s| && s[e].next < |s| && s[e].prev != e && s[e].next != e
    ensures forall x :: 0 <= x < |s| ==>
      Unlinked(s, e)[x].next == if x == e then e else if x == s[e].prev then s[e].next else s[x].next
    ensures forall x :: 0 <= x < |s| ==>
      Unlinked(s, e)[x].prev == if x == e then e else if x == s[e].next then s[e].prev else s[x].prev
  {
  }

  lemma InsertDistinct<T>(c: seq<T>, i: nat, n: T)
    requires Distinct(c) && i <= |c| && n !in c
    ensures Distinct(InsertAt(c, i, n))
  {
  }

  lemma RemoveDistinct<T>(c: seq<T>, i: nat)
    requires Distinct(c) && i < |c|
    ensures Distinct(RemoveAt(c, i)) && c[i] !in RemoveAt(c, i)
  {
  }

  lemma LinkStep(s: seq<ListHead>, c: seq<nat>, i: nat, n: nat, k: nat)
    requires Ring(s, c) && i < |c| && n < |s| && n !in c && k <= |c|
    requires c[i] < |s| && After(c, i) < |s|
    ensures Joined(Linked(s, n, c[i], After(c, i)), InsertAt(c, i + 1, n), k)
  {
    var d := InsertAt(c, i + 1, n);
    var q := if i + 1 == |c| then 0 else i + 1;
    LinkedNext(s, n, c[i], c[q]);
    if k != i + 1 {
      var j := if k <= i then k else k - 1;
      assert Joined(s, c, j);
      assert d[k] == c[j] != n;
      assert j != i ==> c[j] != c[i];
      assert j != q ==> c[j] != c[q];
    }
  }

  lemma RingNeighbours(s: seq<ListHead>, c: seq<nat>, i: nat)
    requires Ring(s, c) && i < |c|
    ensures c[i] < |s| && After(c, i) < |s| && Before(c, i) < |s|
    ensures s[c[i]].next == After(c, i) && s[c[i]].prev == Before(c, i)
  {
    assert Joined(s, c, i);
    assert Joined(s, c, if i + 1 == |c| then 0 else i + 1);
    assert Joined(s, c, if i == 0 then |c| - 1 else i - 1);
  }

  /** Inserting after position i of a ring gives the ring with the node there. */
  lemma LinkKeepsRing(s: seq<ListHead>, c: seq<nat>, i: nat, n: nat)
    requires Ring(s, c) && i < |c| && n < |s| && n !in c
    ensures c[i] < |s| && After(c, i) < |s|
    ensures Ring(Linked(s, n, c[i], After(c, i)), InsertAt(c, i + 1, n))
  {
    RingNeighbours(s, c, i);
    InsertDistinct(c, i + 1, n);
    var d := InsertAt(c, i + 1, n);
    var r := Linked(s, n, c[i], After(c, i));
    forall k | 0 <= k < |d| ensures Joined(r, d, k) {
      LinkStep(s, c, i, n, k);
    }
  }

  lemma UnlinkStep(s: seq<ListHead>, c: seq<nat>, i: nat, k: nat)
    requires Ring(s, c) && 0 < i < |c| && k < |c| - 1
    requires c[i] < |s| && s[c[i]].prev < |s| && s[c[i]].next < |s|
    ensures Joined(Unlinked(s, c[i]), RemoveAt(c, i), k)
  {
    var d := RemoveAt(c, i);
    var q := if i + 1 == |c| then 0 else i + 1;
    assert Joined(s, c, i);
    assert c[q] != c[i] && c[i - 1] != c[i];
    UnlinkedNext(s, c[i]);
    var j := if k < i then k else k + 1;
    assert Joined(s, c, j);
    assert d[k] == c[j] != c[i];
    assert j != i - 1 ==> c[j] != c[i - 1];
    assert j != q ==> c[j] != c[q];
  }

  /** Taking out position i > 0 of a ring leaves the ring without it, and a
      self-linked node. */
  lemma UnlinkKeepsRing(s: seq<ListHead>, c: seq<nat>, i: nat)
    requires Ring(s, c) && 0 < i < |c|
    ensures c[i] < |s| && s[c[i]].prev < |s| && s[c[i]].next < |s|
    ensures Ring(Unlinked(s, c[i]), RemoveAt(c, i))
    ensures Ring(Unlinked(s, c[i]), [c[i]])
  {
    RingNeighbours(s, c, i);
    RemoveDistinct(c, i);
    forall k | 0 <= k < |c| - 1
      ensures Joined(Unlinked(s, c[i]), RemoveAt(c, i), k)
    {
      UnlinkStep(s, c, i, k);
    }
    assert Joined(Unlinked(s, c[i]), [c[i]], 0);
  }

  /** Rings that share no node with the changed one are untouched. */
  lemma LinkKeepsOther(s: seq<ListHead>, c: seq<nat>, i: nat, n: nat, d: seq<nat>)
    requires Ring(s, c) && i < |c| && n < |s|
    requires Ring(s, d) && Apart(c, d) && n !in d
    ensures c[i] < |s| && After(c, i) < |s|
    ensures Ring(Linked(s, n, c[i], After(c, i)), d)
  {
    RingNeighbours(s, c, i);
    assert c[i] in c && After(c, i) in c;
    forall k | 0 <= k < |d| ensures Joined(Linked(s, n, c[i], After(c, i)), d, k) {
      assert Joined(s, d, k) && d[k] in d;
    }
  }

  lemma UnlinkKeepsOther(s: seq<ListHead>, c: seq<nat>, i: nat, d: seq<nat>)
    requires Ring(s, c) && i < |c|
    requires Ring(s, d) && Apart(c, d)
    ensures c[i] < |s| && s[c[i]].prev < |s| && s[c[i]].next < |s|
    ensures Ring(Unlinked(s, c[i]), d)
  {
    RingNeighbours(s, c, i);
    assert c[i] in c && After(c, i) in c && Before(c, i) in c;
    forall k | 0 <= k < |d| ensures Joined(Unlinked(s, c[i]), d, k) {
      assert Joined(s, d, k) && d[k] in d;
    }
  }

  /** __list_add: insert n between two neighbours. */
  method ListLink(nodes: array<ListHead>, n: nat, prev: nat, next: nat)
    requires n < nodes.Length && prev < nodes.Length && next < nodes.Length
    modifies nodes
    ensures nodes[..] == Linked(old(nodes[..]), n, prev, next)
  {
    nodes[n] := nodes[n].(next := next);
    nodes[n] := nodes[n].(prev := prev);
    nodes[prev] := nodes[prev].(next := n);
    nodes[next] := nodes[next].(prev := n);
  }

  /** list_add: insert n right after head. */
  method ListAdd(nodes: array<ListHead>, n: nat, head: nat)
    requires n < nodes.Length && head < nodes.Length && nodes[head].next < nodes.Length
    modifies nodes
    ensures nodes[..] == Linked(old(nodes[..]), n, head, old(nodes[head].next))
  {
    ListLink(nodes, n, head, nodes[head].next);
  }

  /** list_del_init: unlink e and make it a ring of its own. */
  method ListDelInit(nodes: array<ListHead>, e: nat)
    requires e < nodes.Length && nodes[e].prev < nodes.Length && nodes[e].next < nodes.Length
    modifies nodes
    ensures nodes[..] == Unlinked(old(nodes[..]), e)
  {
    var p, q := nodes[e].prev, nodes[e].next;
    nodes[p] := nodes[p].(next := q);
    nodes[q] := nodes[q].(prev := p);
    nodes[e] := ListHead(e, e);
  }

  /** list_empty. */
  method ListEmpty(nodes: array<ListHead>, head: nat, ghost l: seq<nat>) returns (b: bool)
    requires head < nodes.Length && Ring(nodes[..], [head] + l)
    ensures b <==> l == []
  {
    b := nodes[head].next == head;
    assert Joined(nodes[..], [head] + l, 0);
    if l != [] { assert ([head] + l)[0] != ([head] + l)[1]; }
  }
}
