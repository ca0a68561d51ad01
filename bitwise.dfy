/**
 * C's bitwise `&` on unsigned words, defined bit by bit on natural numbers,
 * together with the facts about masks that the page-alignment code relies on.
 */
module Bitwise {

  function Pow2(n: nat): (r: nat)
    ensures r >= 1
  {
    if n == 0 then 1 else 2 * Pow2(n - 1)
  }

  /** The powers that describe a 32-bit word with a 4096-byte page offset. */
  lemma Pow2Values()
    ensures Pow2(12) == 0x1000 && Pow2(20) == 0x10_0000 && Pow2(32) == 0x1_0000_0000
  {
    assert Pow2(8) == 0x100;
    PowAdd(8, 8);
    PowAdd(16, 16);
    PowAdd(8, 12);
  }

  /** The low `n` bits of `a & b`: bit i of the result is set iff bit i is set in both. */
  function And(a: nat, b: nat, n: nat): (r: nat)
    ensures r < Pow2(n)
    ensures r <= a
    decreases n
  {
    if n == 0 then 0 else (a % 2) * (b % 2) + 2 * And(a / 2, b / 2, n - 1)
  }

  /** A mask whose low `n` bits are all set keeps every bit of an `n`-bit word. */
  lemma {:induction false} AndAllOnes(a: nat, n: nat)
    requires a < Pow2(n)
    ensures And(a, Pow2(n) - 1, n) == a
    decreases n
  {
    if n > 0 {
      var m := Pow2(n - 1);
      assert Pow2(n) - 1 == 2 * (m - 1) + 1;
      assert (Pow2(n) - 1) % 2 == 1 && (Pow2(n) - 1) / 2 == m - 1;
      assert a / 2 < m;
      AndAllOnes(a / 2, n - 1);
    }
  }

  lemma MulAtLeast(m: int, d: int)
    requires m > 0 && d >= 1
    ensures m * d >= m
  {
  }

  /** Quotient and remainder are determined by `a == m * q + r` with `0 <= r < m`. */
  lemma DivUnique(a: int, m: int, q: int, r: int)
    requires m > 0 && 0 <= r < m && a == m * q + r
    ensures a / m == q && a % m == r
  {
    var q', r' := a / m, a % m;
    assert a == m * q' + r';
    assert m * (q - q') == r' - r;
    if q - q' >= 1 {
      MulAtLeast(m, q - q');
    } else if q' - q >= 1 {
      MulAtLeast(m, q' - q);
    }
  }

  /** Halving `a` `k` times is halving it once, then `k - 1` times. */
  lemma DivPow2Step(a: nat, k: nat)
    requires k > 0
    ensures a / Pow2(k) == (a / 2) / Pow2(k - 1)
  {
    var m := Pow2(k - 1);
    assert Pow2(k) == 2 * m;
    var q, r := a / (2 * m), a % (2 * m);
    assert a == 2 * m * q + r;
    assert a == 2 * (m * q + r / 2) + r % 2;
    DivUnique(a, 2, m * q + r / 2, r % 2);
    DivUnique(a / 2, m, q, r / 2);
  }

  /** `a >> k`: `a` halved `k` times. */
  function Shr(a: nat, k: nat): nat
  {
    if k == 0 then a else Shr(a / 2, k - 1)
  }

  /** `x << k` on unbounded words: `x` doubled `k` times. */
  function Shl(x: nat, k: nat): nat
  {
    if k == 0 then x else 2 * Shl(x, k - 1)
  }

  /** Shifting right by `k` is dividing by 2^k. */
  lemma {:induction false} ShrIsDiv(a: nat, k: nat)
    ensures Shr(a, k) == a / Pow2(k)
    decreases k
  {
    if k > 0 {
      ShrIsDiv(a / 2, k - 1);
      DivPow2Step(a, k);
    }
  }

  /** Shifting left by `k` is multiplying by 2^k. */
  lemma {:induction false} ShlIsMul(x: nat, k: nat)
    ensures Shl(x, k) == x * Pow2(k)
    decreases k
  {
    if k > 0 {
      ShlIsMul(x, k - 1);
      MulAssocComm(2, x, Pow2(k - 1));
    }
  }

  /** The low `k` bits of `b` are all clear. */
  predicate LowBitsClear(b: nat, k: nat)
  {
    k == 0 || (b % 2 == 0 && LowBitsClear(b / 2, k - 1))
  }

  /**
   * With a mask whose low `k` bits are clear, `a & b` is the conjunction of the
   * words shifted right by `k`, shifted back left by `k`.
   */
  lemma {:induction false} AndLowBitsClear(a: nat, b: nat, n: nat, k: nat)
    requires k <= n && LowBitsClear(b, k)
    ensures And(a, b, n) == Shl(And(Shr(a, k), Shr(b, k), n - k), k)
    decreases k
  {
    if k > 0 {
      AndEvenMask(a, b, n);
      AndLowBitsClear(a / 2, b / 2, n - 1, k - 1);
    }
  }

  /** Products may be regrouped and their factors swapped. */
  lemma MulAssocComm(x: int, y: int, z: int)
    ensures x * (y * z) == (x * y) * z && x * y == y * x
  {
  }

  /** A mask with bit 0 clear: that bit of the result is clear, the rest is the shifted conjunction. */
  lemma AndEvenMask(a: nat, b: nat, n: nat)
    requires n > 0 && b % 2 == 0
    ensures And(a, b, n) == 2 * And(a / 2, b / 2, n - 1)
  {
  }

  lemma DivMod(a: int, p: int)
    requires p > 0
    ensures a == p * (a / p) + a % p && 0 <= a % p < p
  {
  }

  lemma {:induction false} PowAdd(i: nat, j: nat)
    ensures Pow2(i + j) == Pow2(i) * Pow2(j)
    decreases i
  {
    if i > 0 {
      PowAdd(i - 1, j);
    }
  }
}
