/**
  Integer facts the bit-level proofs lean on: powers of two and the
  division/remainder identities that the solver does not find unaided.
*/
module Arith {

  /** 2 to the power k. */
  function Pow2(k: nat): (r: nat)
    ensures r > 0
  {
    if k == 0 then 1 else 2 * Pow2(k - 1)
  }

  /** 2^32, the number of distinct Java `int` values. */
  const Modulus: nat := 0x1_0000_0000

  lemma Pow2Is32()
    ensures Pow2(32) == Modulus
  {
    assert Pow2(8) == 256;
    assert Pow2(16) == 256 * 256 by { Pow2Add(8, 8); }
    Pow2Add(16, 16);
  }

  lemma {:induction false} Pow2Add(a: nat, b: nat)
    ensures Pow2(a + b) == Pow2(a) * Pow2(b)
  {
    if b > 0 {
      Pow2Add(a, b - 1);
      assert Pow2(a + b) == 2 * Pow2(a + b - 1);
    }
  }

  lemma {:induction false} Pow2Monotone(a: nat, b: nat)
    requires a <= b
    ensures Pow2(a) <= Pow2(b)
  {
    if a < b {
      Pow2Monotone(a, b - 1);
    }
  }

  lemma MulAtLeast(m: int, d: int)
    requires m >= 1 && d > 0
    ensures m * d >= d
  {
    assert m * d == (m - 1) * d + d;
  }

  /** Quotient and remainder are the only ones with a remainder in [0, d). */
  lemma DivUnique(a: int, d: int, q: int, r: int)
    requires d > 0 && 0 <= r < d && a == q * d + r
    ensures a / d == q && a % d == r
  {
    var q0 := a / d;
    var r0 := a % d;
    assert a == q0 * d + r0;
    assert (q - q0) * d == r0 - r by {
      assert (q - q0) * d == q * d - q0 * d;
    }
    if q > q0 {
      MulAtLeast(q - q0, d);
    } else if q < q0 {
      MulAtLeast(q0 - q, d);
    }
  }

  /** Adding a multiple of d does not change the remainder. */
  lemma ModAddMultiple(x: int, j: int, d: int)
    requires d > 0
    ensures (x + j * d) % d == x % d
  {
    var q := x / d;
    var r := x % d;
    assert x + j * d == (q + j) * d + r by {
      assert (q + j) * d == q * d + j * d;
    }
    DivUnique(x + j * d, d, q + j, r);
  }

  /** Reducing a factor before multiplying does not change the remainder. */
  lemma ModMulAdd(a: int, p: int, v: int, d: int)
    requires d > 0
    ensures ((a % d) * p + v) % d == (a * p + v) % d
  {
    var q := a / d;
    var r := a % d;
    assert a * p + v == (r * p + v) + (q * p) * d by {
      assert a == q * d + r;
      assert a * p == (q * d) * p + r * p;
      assert (q * d) * p == (q * p) * d;
    }
    ModAddMultiple(r * p + v, q * p, d);
  }

  /** Halving after dividing by p is dividing by 2p. */
  lemma DivHalf(a: nat, p: nat)
    requires p > 0
    ensures a / p / 2 == a / (p * 2)
  {
    var x := a / p;
    var y := x / 2;
    var s := a % p;
    var t := x % 2;
    assert a == x * p + s;
    assert x == y * 2 + t;
    assert a == y * (p * 2) + (t * p + s) by {
      assert x * p == (y * 2 + t) * p;
      assert (y * 2 + t) * p == y * (p * 2) + t * p;
    }
    assert t * p + s < p * 2 by {
      assert t <= 1;
      assert t * p <= p;
    }
    DivUnique(a, p * 2, y, t * p + s);
  }

  /** A number below 2^32 is its own remainder. */
  lemma ModSelf(u: int)
    requires 0 <= u < Modulus
    ensures u % Modulus == u
  {
    DivUnique(u, Modulus, 0, u);
  }

  lemma MulAddRight(a: int, b: int, p: int)
    ensures (a + b) * p == a * p + b * p
  {
  }

  /** The smaller of a and b. */
  function Min(a: int, b: int): int
  {
    if a <= b then a else b
  }
}
