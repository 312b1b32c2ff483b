/** The ASID bitmap of kernel/pc/pc.c: eight 32-bit words, one bit per ASID. */
module Asid {
  import opened Bits

  lemma {:induction false} AndBit(a: nat, b: nat, k: nat)
    ensures Bit(And(a, b), k) == if Bit(a, k) == 1 && Bit(b, k) == 1 then 1 else 0
  {
    AndStep(a, b);
    if k > 0 { AndBit(a / 2, b / 2, k - 1); }
  }

  lemma {:induction false} OrBit(a: nat, b: nat, k: nat)
    ensures Bit(Or(a, b), k) == if Bit(a, k) == 1 || Bit(b, k) == 1 then 1 else 0
  {
    OrStep(a, b);
    if k > 0 { OrBit(a / 2, b / 2, k - 1); }
  }

  lemma {:induction false} Pow2Bit(j: nat, k: nat)
    ensures Bit(Pow2(j), k) == if j == k then 1 else 0
  {
    if j > 0 && k > 0 { Pow2Bit(j - 1, k - 1); }
    if j == 0 && k > 0 { ZeroBit(k - 1); }
  }

  lemma {:induction false} ZeroBit(k: nat)
    ensures Bit(0, k) == 0
  {
    if k > 0 { ZeroBit(k - 1); }
  }

  /** ~(1 << j) in n bits. */
  lemma {:induction false} MaskBit(n: nat, j: nat, k: nat)
    requires j < n && k < n
    ensures Pow2(j) < Pow2(n) && Bit(Pow2(n) - 1 - Pow2(j), k) == if j == k then 0 else 1
  {
    Pow2Monotone(j + 1, n);
    if j == 0 {
      if k > 0 { OnesBit(n - 1, k - 1); }
    } else if k > 0 {
      MaskBit(n - 1, j - 1, k - 1);
    } else {
      Pow2Monotone(j, n - 1);
    }
  }

  lemma {:induction false} OnesBit(n: nat, k: nat)
    requires k < n
    ensures Bit(Pow2(n) - 1, k) == 1
  {
    if k > 0 { OnesBit(n - 1, k - 1); }
  }

  /** A word that is not all ones has a zero bit. */
  lemma {:induction false} ZeroAt(w: nat, n: nat) returns (k: nat)
    requires w < Pow2(n) - 1
    ensures k < n && Bit(w, k) == 0
  {
    if w % 2 == 0 {
      k := 0;
    } else {
      k := ZeroAt(w / 2, n - 1);
      k := k + 1;
    }
  }

  lemma {:induction false} OrBelow(a: nat, b: nat, n: nat)
    requires a < Pow2(n) && b < Pow2(n)
    ensures Or(a, b) < Pow2(n)
  {
    if n > 0 {
      OrStep(a, b);
      OrBelow(a / 2, b / 2, n - 1);
    }
  }

  lemma {:induction false} AndBelow(a: nat, b: nat)
    ensures And(a, b) <= a
    decreases a
  {
    AndStep(a, b);
    if a > 0 { AndBelow(a / 2, b / 2); }
  }

  // ---------------------------------------------------------------- the bitmap

  function WordOf(a: nat): nat {
    a / 32
  }

  function BitOf(a: nat): (j: nat)
    ensures j < 32
  {
    a % 32
  }

  function AsidOf(i: nat, j: nat): nat {
    i * 32 + j
  }

  lemma AsidParts(i: nat, j: nat)
    requires j < 32
    ensures WordOf(AsidOf(i, j)) == i && BitOf(AsidOf(i, j)) == j && (i < 8 ==> AsidOf(i, j) < 256)
  {
  }

  lemma PartsAsid(a: nat)
    ensures AsidOf(WordOf(a), BitOf(a)) == a && (a < 256 ==> WordOf(a) < 8)
  {
  }

  ghost predicate MapOk(m: seq<nat>) {
    |m| == 8 && forall i :: 0 <= i < 8 ==> m[i] < 0x1_0000_0000
  }

  ghost predicate Used(m: seq<nat>, a: nat)
    requires |m| == 8 && a < 256
  {
    PartsAsid(a);
    Bit(m[WordOf(a)], BitOf(a)) == 1
  }

  /** asidmap[asid / 32] |= 1 << (asid % 32). */
  function WithSet(m: seq<nat>, a: nat): (r: seq<nat>)
    requires |m| == 8 && a < 256
    ensures |r| == 8
  {
    PartsAsid(a);
    m[WordOf(a) := Or(m[WordOf(a)], Pow2(BitOf(a)))]
  }

  /** asidmap[asid / 32] &= ~(1 << (asid % 32)). */
  function WithClear(m: seq<nat>, a: nat): (r: seq<nat>)
    requires |m| == 8 && a < 256
    ensures |r| == 8
  {
    PartsAsid(a);
    var mask := 0xFFFF_FFFF - Pow2(BitOf(a));
    m[WordOf(a) := if mask >= 0 then And(m[WordOf(a)], mask) else 0]
  }

  lemma SetWord(w: nat, j: nat, k: nat)
    requires w < 0x1_0000_0000 && j < 32 && k < 32
    ensures Or(w, Pow2(j)) < 0x1_0000_0000
    ensures Bit(Or(w, Pow2(j)), k) == 1 <==> k == j || Bit(w, k) == 1
  {
    hide Bit;
    hide Or;
    Pow2Values();
    Pow2Monotone(j + 1, 32);
    OrBelow(w, Pow2(j), 32);
    OrBit(w, Pow2(j), k);
    Pow2Bit(j, k);
  }

  lemma ClearWord(w: nat, j: nat, k: nat)
    requires w < 0x1_0000_0000 && j < 32 && k < 32
    ensures Pow2(j) <= 0xFFFF_FFFF && And(w, 0xFFFF_FFFF - Pow2(j)) < 0x1_0000_0000
    ensures Bit(And(w, 0xFFFF_FFFF - Pow2(j)), k) == 1 <==> k != j && Bit(w, k) == 1
  {
    hide Bit;
    hide And;
    Pow2Values();
    MaskBit(32, j, k);
    AndBelow(w, 0xFFFF_FFFF - Pow2(j));
    AndBit(w, 0xFFFF_FFFF - Pow2(j), k);
  }

  lemma SetUsed(m: seq<nat>, a: nat, b: nat)
    requires MapOk(m) && a < 256 && b < 256
    ensures MapOk(WithSet(m, a))
    ensures Used(WithSet(m, a), b) <==> b == a || Used(m, b)
  {
    hide Bit;
    hide Or;
    hide Pow2;
    PartsAsid(a);
    PartsAsid(b);
    hide WordOf;
    hide BitOf;
    SetWord(m[WordOf(a)], BitOf(a), BitOf(b));
  }

  lemma ClearUsed(m: seq<nat>, a: nat, b: nat)
    requires MapOk(m) && a < 256 && b < 256
    ensures MapOk(WithClear(m, a))
    ensures Used(WithClear(m, a), b) <==> b != a && Used(m, b)
  {
    hide Bit;
    hide And;
    hide Pow2;
    PartsAsid(a);
    PartsAsid(b);
    hide WordOf;
    hide BitOf;
    ClearWord(m[WordOf(a)], BitOf(a), BitOf(b));
  }

  /** setasidmap. */
  method SetAsidMap(asidmap: array<nat>, asid: nat)
    requires asidmap.Length == 8 && asid < 256
    modifies asidmap
    ensures asidmap[..] == WithSet(old(asidmap[..]), asid)
  {
    PartsAsid(asid);
    asidmap[WordOf(asid)] := Or(asidmap[WordOf(asid)], Pow2(BitOf(asid)));
  }

  /** clearasid. */
  method ClearAsid(asidmap: array<nat>, asid: nat)
    requires asidmap.Length == 8 && asid < 256
    modifies asidmap
    ensures asidmap[..] == WithClear(old(asidmap[..]), asid)
  {
    PartsAsid(asid);
    Pow2Values();
    MaskBit(32, BitOf(asid), 0);
    asidmap[WordOf(asid)] := And(asidmap[WordOf(asid)], 0xFFFF_FFFF - Pow2(BitOf(asid)));
  }

  lemma FullWord(m: seq<nat>, i: nat, b: nat)
    requires |m| == 8 && i < 8 && b < 256 && WordOf(b) == i && m[i] == 0xFFFF_FFFF
    ensures Used(m, b)
  {
    Pow2Values();
    OnesBit(32, BitOf(b));
  }

  /** getemptyasid: the lowest unused ASID, now marked, or -1 if all 256 are in use. */
  method GetEmptyAsid(asidmap: array<nat>) returns (a: int)
    requires MapOk(asidmap[..])
    modifies asidmap
    ensures a == -1 || 0 <= a < 256
    ensures a == -1 ==> asidmap[..] == old(asidmap[..]) && forall b :: 0 <= b < 256 ==> Used(asidmap[..], b)
    ensures a >= 0 ==> !Used(old(asidmap[..]), a) && asidmap[..] == WithSet(old(asidmap[..]), a)
    ensures a >= 0 ==> forall b :: 0 <= b < a ==> Used(old(asidmap[..]), b)
  {
    hide Bit;
    ghost var m := asidmap[..];
    var i := 0;
    while i < 8
      invariant i <= 8 && asidmap[..] == m
      invariant forall b :: 0 <= b < 256 && WordOf(b) < i ==> Used(m, b)
    {
      if asidmap[i] == 0xFFFF_FFFF {
        forall b | 0 <= b < 256 && WordOf(b) == i ensures Used(m, b) { FullWord(m, i, b); }
      } else {
        ghost var z := WordHasZero(m[i]);
        var j := 0;
        while j < 32
          invariant j <= 32 && j <= z && asidmap[..] == m
          invariant forall b :: 0 <= b < 256 && WordOf(b) == i && BitOf(b) < j ==> Used(m, b)
        {
          BitIsDiv(m[i], j);
          AsidParts(i, j);
          if asidmap[i] / Pow2(j) % 2 == 0 {
            a := AsidOf(i, j);
            forall b | 0 <= b < a ensures b < 256 && Used(m, b) { PartsAsid(b); LowerPlace(b, i, j); }
            SetAsidMap(asidmap, a);
            return;
          }
          forall b | 0 <= b < 256 && WordOf(b) == i && BitOf(b) == j ensures Used(m, b) { PartsAsid(b); }
          j := j + 1;
        }
      }
      i := i + 1;
    }
    a := -1;
    forall b | 0 <= b < 256 ensures Used(m, b) { PartsAsid(b); }
  }

  lemma LowerPlace(b: nat, i: nat, j: nat)
    requires j < 32 && i < 8 && b < AsidOf(i, j)
    ensures b < 256 && (WordOf(b) < i || (WordOf(b) == i && BitOf(b) < j))
  {
  }

  lemma WordHasZero(w: nat) returns (z: nat)
    requires w < 0xFFFF_FFFF
    ensures z < 32 && Bit(w, z) == 0
  {
    Pow2Values();
    z := ZeroAt(w, 32);
  }
}
