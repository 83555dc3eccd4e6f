/**
  Bit strings: finite runs of bits and the number they denote when read
  most significant bit first.
*/
module BitString {
  import opened Arith

  /** One bit of a stream, as the values 0 and 1. */
  type Bit = b: int | 0 <= b <= 1

  /** What bit b contributes at position k: 2^k when set, nothing when clear. */
  function Weight(b: Bit, k: nat): nat
  {
    if b == 1 then Pow2(k) else 0
  }

  /** The number the bits s denote, most significant first. */
  function Value(s: seq<Bit>): (r: nat)
    ensures r < Pow2(|s|)
  {
    if |s| == 0 then 0 else Weight(s[0], |s| - 1) + Value(s[1..])
  }

  /** A run of clear bits denotes zero. */
  lemma {:induction false} ValueZeros(s: seq<Bit>)
    requires forall i :: 0 <= i < |s| ==> s[i] == 0
    ensures Value(s) == 0
  {
    if |s| > 0 {
      ValueZeros(s[1..]);
    }
  }

  /** n copies of x. */
  function Repeat<T>(x: T, n: nat): (r: seq<T>)
    ensures |r| == n && forall i :: 0 <= i < n ==> r[i] == x
  {
    seq(n, _ => x)
  }

  /** n clear bits. */
  function Zeros(n: nat): (r: seq<Bit>)
    ensures |r| == n && forall i :: 0 <= i < n ==> r[i] == 0
  {
    Repeat(0, n)
  }

  /** The last 32 bits of t: what a 32-bit register holds after t is shifted through it. */
  function Last32(t: seq<Bit>): (r: seq<Bit>)
    requires |t| >= 32
    ensures |r| == 32
  {
    t[|t| - 32..]
  }

  /** A 32-bit t shifted through a register after 31 clear bits is t itself. */
  lemma LastOfPadded(t: seq<Bit>)
    requires |t| == 32
    ensures Last32(Zeros(31) + t) == t
  {
    assert (Zeros(31) + t)[31..] == t;
  }

  /** Leading clear bits do not change the value. */
  lemma {:induction false} ValueZerosPrefix(n: nat, t: seq<Bit>)
    ensures Value(Zeros(n) + t) == Value(t)
  {
    if n > 0 {
      assert (Zeros(n) + t)[1..] == Zeros(n - 1) + t;
      ValueZerosPrefix(n - 1, t);
    } else {
      assert Zeros(n) + t == t;
    }
  }

  /** Keeping the last 32 bits of t keeps its value modulo 2^32. */
  lemma {:induction false} ValueLast32(t: seq<Bit>)
    requires |t| >= 32
    ensures Value(Last32(t)) == Value(t) % Modulus
    decreases |t|
  {
    if |t| == 32 {
      assert Last32(t) == t;
      Pow2Is32();
      ModSelf(Value(t));
    } else {
      var rest := t[1..];
      Last32Drop(t);
      ValueLast32(rest);
      var j := WeightMultiple(t[0], |t| - 1);
      assert Value(t) == Weight(t[0], |t| - 1) + Value(rest);
      ModAddMultiple(Value(rest), j, Modulus);
    }
  }

  /** A bit at position 32 or above weighs a multiple of 2^32. */
  lemma WeightMultiple(b: Bit, m: nat) returns (j: nat)
    requires m >= 32
    ensures Weight(b, m) == j * Modulus
  {
    Pow2Is32();
    Pow2Add(32, m - 32);
    j := if b == 1 then Pow2(m - 32) else 0;
  }

  /** Dropping the first bit of more than 32 leaves the last 32 alone. */
  lemma Last32Drop(t: seq<Bit>)
    requires |t| > 32
    ensures Last32(t[1..]) == Last32(t)
  {
  }

  /** A 32-bit register that had the bits t shifted into it from zero holds their value modulo 2^32. */
  lemma ValueOfRegister(t: seq<Bit>)
    requires t != []
    ensures Value(Last32(Zeros(31) + t)) == Value(t) % Modulus
  {
    ValueLast32(Zeros(31) + t);
    ValueZerosPrefix(31, t);
  }

  /** n set bits. */
  function Ones(n: nat): (r: seq<Bit>)
    ensures |r| == n && forall i :: 0 <= i < n ==> r[i] == 1
  {
    Repeat(1, n)
  }

  /** n set bits denote 2^n - 1. */
  lemma {:induction false} ValueOnes(n: nat)
    ensures Value(Ones(n)) == Pow2(n) - 1
  {
    if n > 0 {
      assert Ones(n)[1..] == Ones(n - 1);
      ValueOnes(n - 1);
    }
  }

  /** A bit k places further up weighs 2^k times as much. */
  lemma WeightShift(b: Bit, a: nat, k: nat)
    ensures Weight(b, a + k) == Weight(b, a) * Pow2(k)
  {
    Pow2Add(a, k);
  }

  /** Bits s followed by bits t: s shifted up past t, plus t. */
  lemma {:induction false} ValueConcat(s: seq<Bit>, t: seq<Bit>)
    ensures Value(s + t) == Value(s) * Pow2(|t|) + Value(t)
  {
    if |s| == 0 {
      assert s + t == t;
    } else {
      assert (s + t)[1..] == s[1..] + t;
      ValueConcat(s[1..], t);
      WeightShift(s[0], |s| - 1, |t|);
      MulAddRight(Weight(s[0], |s| - 1), Value(s[1..]), Pow2(|t|));
    }
  }
}
