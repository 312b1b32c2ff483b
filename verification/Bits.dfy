/** Unsigned bit operations on natural numbers, defined bit by bit, with the
    arithmetic readings that the kernel code relies on. */
module Bits {
  /** One more than the largest unsigned int. */
  const WORD: nat := 0x1_0000_0000

  function Pow2(k: nat): (p: nat)
    ensures p >= 1
  {
    if k == 0 then 1 else 2 * Pow2(k - 1)
  }

  /** The powers that occur as word sizes, masks and shifts in the kernel. */
  lemma Pow2Values()
    ensures Pow2(2) == 4 && Pow2(3) == 8 && Pow2(4) == 16 && Pow2(5) == 32
    ensures Pow2(8) == 256 && Pow2(9) == 512 && Pow2(12) == 4096 && Pow2(16) == 0x1_0000
    ensures Pow2(24) == 0x100_0000 && Pow2(28) == 0x1000_0000 && Pow2(32) == 0x1_0000_0000
  {
    assert Pow2(8) == 256;
    assert Pow2(16) == 256 * Pow2(8);
    assert Pow2(24) == 256 * Pow2(16);
    assert Pow2(32) == 256 * Pow2(24);
  }

  function And(a: nat, b: nat): nat
  {
    if a == 0 || b == 0 then 0
    else (if a % 2 == 1 && b % 2 == 1 then 1 else 0) + 2 * And(a / 2, b / 2)
  }

  function Or(a: nat, b: nat): nat
    decreases a + b
  {
    if a == 0 then b else if b == 0 then a
    else (if a % 2 == 1 || b % 2 == 1 then 1 else 0) + 2 * Or(a / 2, b / 2)
  }

  function Xor(a: nat, b: nat): nat
    decreases a + b
  {
    if a == 0 then b else if b == 0 then a
    else (if a % 2 != b % 2 then 1 else 0) + 2 * Xor(a / 2, b / 2)
  }

  /** Bit k of i. */
  function Bit(i: nat, k: nat): (b: nat)
    ensures b < 2
  {
    if k == 0 then i % 2 else Bit(i / 2, k - 1)
  }

  lemma {:induction false} BitIsDiv(i: nat, k: nat)
    ensures Bit(i, k) == i / Pow2(k) % 2
  {
    if k > 0 {
      BitIsDiv(i / 2, k - 1);
      DivHalf(i, k);
    }
  }

  lemma DivHalf(i: nat, k: nat)
    requires k > 0
    ensures i / Pow2(k) == i / 2 / Pow2(k - 1)
    ensures i % Pow2(k) == i % 2 + 2 * (i / 2 % Pow2(k - 1))
  {
    var p := Pow2(k - 1);
    var q, r := i / 2 / p, i / 2 % p;
    assert i / 2 == q * p + r;
    assert i == q * (2 * p) + (i % 2 + 2 * r) by {
      assert q * (2 * p) == 2 * (q * p);
    }
    DivModUnique(i, 2 * p, q, i % 2 + 2 * r);
  }

  lemma MulAtLeast(a: int, d: nat)
    requires a >= 1
    ensures a * d >= d
  {
    assert (a - 1) * d >= 0;
    assert a * d == (a - 1) * d + d;
  }

  lemma DivModUnique(n: nat, d: nat, q: nat, r: nat)
    requires d > 0 && r < d && n == q * d + r
    ensures n / d == q && n % d == r
  {
    var q', r' := n / d, n % d;
    assert n == d * q' + r' && 0 <= r' < d;
    assert d * q' == q' * d;
    var k := q - q';
    assert k * d == q * d - q' * d == r' - r;
    if k >= 1 { MulAtLeast(k, d); }
    if k <= -1 { MulAtLeast(-k, d); }
  }

  lemma Regroup(j: nat, b: nat, a: nat)
    ensures (2 * j + b) * a == j * (2 * a) + b * a
    ensures b == 0 ==> b * a == 0
    ensures b == 1 ==> b * a == a
  {
  }

  /** The remainder modulo 2a is the remainder modulo a plus the next bit. */
  lemma ModDouble(x: nat, a: nat)
    requires a > 0
    ensures x % (2 * a) == x / a % 2 * a + x % a
    ensures x / (2 * a) == x / a / 2
  {
    var q, r := x / a, x % a;
    var j, b := q / 2, q % 2;
    Regroup(j, b, a);
    DivModUnique(x, 2 * a, j, b * a + r);
  }

  lemma ModShift(x: nat, a: nat)
    requires a > 0
    ensures (x + a) / a == x / a + 1 && (x + a) % a == x % a
  {
    assert x + a == (x / a + 1) * a + x % a;
    DivModUnique(x + a, a, x / a + 1, x % a);
  }

  lemma BelowMultiple(p: nat, a: nat)
    requires a > 0 && p % a == 0 && p > 0
    ensures p >= a && (p - a) % a == 0
  {
    var q := p / a;
    assert p == q * a;
    if q >= 1 {
      MulAtLeast(q, a);
      ModShift(p - a, a);
    }
  }

  /** A multiple of a and its neighbour within the enclosing multiple of 2a. */
  lemma PairModulo(p: nat, a: nat)
    requires a > 0 && p % a == 0
    ensures p % (2 * a) == 0 ==> (p + a) % (2 * a) == a
    ensures p % (2 * a) != 0 ==> p % (2 * a) == a && p >= a && (p - a) % (2 * a) == 0
  {
    ModDouble(p, a);
    if p % (2 * a) == 0 {
      ModShift(p, a);
      ModDouble(p + a, a);
      Regroup(0, (p + a) / a % 2, a);
    } else {
      Regroup(0, p / a % 2, a);
      BelowMultiple(p, a);
      ModShift(p - a, a);
      ModDouble(p - a, a);
      Regroup(0, (p - a) / a % 2, a);
    }
  }

  lemma ModDown(q: nat, a: nat)
    requires a > 0
    ensures (q - q % a) % a == 0
  {
    assert q - q % a == q / a * a;
    DivModUnique(q - q % a, a, q / a, 0);
  }

  lemma {:induction false} XorPow2(i: nat, k: nat)
    ensures Bit(i, k) == 0 ==> Xor(i, Pow2(k)) == i + Pow2(k)
    ensures Bit(i, k) == 1 ==> i >= Pow2(k) && Xor(i, Pow2(k)) == i - Pow2(k)
  {
    hide Xor;
    hide Bit;
    BitStep(i, k);
    if k == 0 {
      XorOne(i);
    } else {
      XorPow2(i / 2, k - 1);
      assert Pow2(k) == 2 * Pow2(k - 1);
      hide Pow2;
      XorStep(i, Pow2(k));
    }
  }

  lemma BitStep(i: nat, k: nat)
    ensures Bit(i, k) == if k == 0 then i % 2 else Bit(i / 2, k - 1)
  {
  }

  lemma {:induction false} XorOne(i: nat)
    ensures Xor(i, 1) == if i % 2 == 0 then i + 1 else i - 1
  {
    assert Xor(i / 2, 0) == i / 2;
  }

  lemma XorStep(a: nat, b: nat)
    requires b % 2 == 0
    ensures Xor(a, b) == a % 2 + 2 * Xor(a / 2, b / 2)
  {
  }

  lemma {:induction false} AndSelf(i: nat)
    ensures And(i, i) == i
  {
    if i > 0 { AndSelf(i / 2); }
  }

  lemma AndStep(a: nat, b: nat)
    ensures And(a, b) == (if a % 2 == 1 && b % 2 == 1 then 1 else 0) + 2 * And(a / 2, b / 2)
  {
  }

  lemma AndPlusEven(i: nat, p: nat)
    ensures And(i + 2 * p, i) == i % 2 + 2 * And(i / 2 + p, i / 2)
  {
    var j := i + 2 * p;
    assert j / 2 == i / 2 + p && j % 2 == i % 2;
    AndStep(j, i);
  }

  lemma AndMinusEven(i: nat, p: nat)
    requires i / 2 >= p
    ensures And(i - 2 * p, i) == i % 2 + 2 * And(i / 2 - p, i / 2)
  {
    var j := i - 2 * p;
    assert j / 2 == i / 2 - p && j % 2 == i % 2;
    AndStep(j, i);
  }

  lemma AndUnit(i: nat)
    ensures i % 2 == 0 ==> And(i + 1, i) == i
    ensures i % 2 == 1 ==> And(i - 1, i) == i - 1
  {
    var h := i / 2;
    AndSelf(h);
    if i % 2 == 0 {
      assert (i + 1) / 2 == h;
      AndStep(i + 1, i);
      assert And(i + 1, i) == 2 * And(h, h);
    } else {
      assert (i - 1) / 2 == h;
      AndStep(i - 1, i);
      assert And(i - 1, i) == 2 * And(h, h);
    }
  }

  lemma {:induction false} AndClearBit(i: nat, k: nat)
    requires Bit(i, k) == 0
    ensures And(i + Pow2(k), i) == i
  {
    if k == 0 {
      AndUnit(i);
    } else {
      AndClearBit(i / 2, k - 1);
      AndPlusEven(i, Pow2(k - 1));
    }
  }

  lemma {:induction false} AndSetBit(i: nat, k: nat)
    requires Bit(i, k) == 1
    ensures i >= Pow2(k) && And(i - Pow2(k), i) == i - Pow2(k)
  {
    if k == 0 {
      AndUnit(i);
    } else {
      AndSetBit(i / 2, k - 1);
      AndMinusEven(i, Pow2(k - 1));
    }
  }

  /** The k low bits of x. */
  function Low(x: nat, k: nat): nat {
    if k == 0 then 0 else x % 2 + 2 * Low(x / 2, k - 1)
  }

  lemma {:induction false} LowIsMod(x: nat, k: nat)
    ensures Low(x, k) == x % Pow2(k)
  {
    if k > 0 {
      LowIsMod(x / 2, k - 1);
      DivHalf(x, k);
    }
  }

  lemma {:induction false} AndOnes(x: nat, k: nat)
    ensures And(x, Pow2(k) - 1) == Low(x, k)
  {
    if k > 0 {
      AndOnes(x / 2, k - 1);
      AndStep(x, Pow2(k) - 1);
    }
  }

  /** x & (2^k - 1) is the remainder modulo 2^k. */
  lemma AndLowMask(x: nat, k: nat)
    ensures And(x, Pow2(k) - 1) == x % Pow2(k)
  {
    AndOnes(x, k);
    LowIsMod(x, k);
  }

  lemma AndEven(x: nat, m: nat)
    ensures And(x, 2 * m) == 2 * And(x / 2, m)
  {
    AndStep(x, 2 * m);
    assert 2 * m % 2 == 0 && 2 * m / 2 == m;
  }

  lemma {:induction false} AndHighOnes(x: nat, k: nat, n: nat)
    requires k <= n && x < Pow2(n)
    ensures Pow2(n) >= Pow2(k) && Low(x, k) <= x
    ensures And(x, Pow2(n) - Pow2(k)) == x - Low(x, k)
  {
    hide And;
    if k == 0 {
      AndOnes(x, n);
      LowWhole(x, n);
    } else {
      Pow2Monotone(k - 1, n - 1);
      var m := Pow2(n - 1) - Pow2(k - 1);
      assert Pow2(n) == 2 * Pow2(n - 1) && Pow2(k) == 2 * Pow2(k - 1);
      assert Low(x, k) == x % 2 + 2 * Low(x / 2, k - 1);
      AndHighOnes(x / 2, k - 1, n - 1);
      AndEven(x, m);
    }
  }

  lemma {:induction false} LowWhole(x: nat, n: nat)
    requires x < Pow2(n)
    ensures Low(x, n) == x
  {
    if n > 0 { LowWhole(x / 2, n - 1); }
  }

  /** x & ~(2^k - 1), on n-bit words, rounds x down to a multiple of 2^k. */
  lemma AndHighMask(x: nat, k: nat, n: nat)
    requires k <= n && x < Pow2(n)
    ensures Pow2(n) >= Pow2(k)
    ensures And(x, Pow2(n) - Pow2(k)) == x - x % Pow2(k)
  {
    AndHighOnes(x, k, n);
    LowIsMod(x, k);
  }

  lemma {:induction false} Pow2Monotone(k: nat, n: nat)
    requires k <= n
    ensures Pow2(k) <= Pow2(n)
  {
    if k < n { Pow2Monotone(k, n - 1); }
  }

  /** x & ~((1 << k) - 1) on 32-bit words. */
  function ClearLow(x: nat, k: nat): (r: nat)
    requires x < 0x1_0000_0000 && k <= 32
    ensures r == x - x % Pow2(k)
    ensures r % Pow2(k) == 0 && r <= x < r + Pow2(k)
  {
    ClearLowFits(x, k);
    And(x, 0x1_0000_0000 - Pow2(k))
  }

  lemma ClearLowFits(x: nat, k: nat)
    requires x < 0x1_0000_0000 && k <= 32
    ensures Pow2(k) <= 0x1_0000_0000
    ensures And(x, 0x1_0000_0000 - Pow2(k)) == x - x % Pow2(k)
    ensures (x - x % Pow2(k)) % Pow2(k) == 0
  {
    var n := 32;
    Pow2Values();
    Pow2Monotone(k, n);
    AndHighMask(x, k, n);
    ModDown(x, Pow2(k));
  }

  lemma OrStep(a: nat, b: nat)
    ensures Or(a, b) == (if a % 2 == 1 || b % 2 == 1 then 1 else 0) + 2 * Or(a / 2, b / 2)
  {
  }

  lemma {:induction false} OrLow(h: nat, v: nat, k: nat)
    requires Low(h, k) == 0 && v < Pow2(k)
    ensures Or(h, v) == h + v
  {
    if k > 0 {
      OrLow(h / 2, v / 2, k - 1);
      OrStep(h, v);
    }
  }

  /** Or of a multiple of 2^k with a value below 2^k is their sum. */
  lemma OrDisjoint(h: nat, v: nat, k: nat)
    requires h % Pow2(k) == 0 && v < Pow2(k)
    ensures Or(h, v) == h + v
  {
    LowIsMod(h, k);
    OrLow(h, v, k);
  }
}
