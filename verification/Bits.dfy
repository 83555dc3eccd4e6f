/**
  The abstract bit stream: bytes expanded into bits, most significant bit
  first, and the number a run of bits denotes when read in that order.
*/
module Bits {
  import opened Arith
  import opened BitString
  import opened JavaInt

  /** The low n binary digits of v, most significant first. */
  function Digits(v: nat, n: nat): seq<Bit>
  {
    seq(n, i requires 0 <= i < n => (v / Pow2(n - 1 - i)) % 2)
  }

  /** Bit k of the byte b. */
  function ByteBit(b: bv8, k: nat): Bit
    requires k < 8
  {
    BitOf(b as bv32, k)
  }

  /** The eight bits of the byte b, most significant first. */
  function ByteBits(b: bv8): seq<Bit>
  {
    seq(8, i requires 0 <= i < 8 => ByteBit(b, 7 - i))
  }

  /** The bit stream of a run of bytes: each byte's eight bits in turn. */
  function SourceBits(data: seq<bv8>): (r: seq<Bit>)
    ensures |r| == 8 * |data|
  {
    if |data| == 0 then [] else ByteBits(data[0]) + SourceBits(data[1..])
  }

  /** Splitting v modulo 2^(n+1) into its digit n and the digits below. */
  lemma ModNextPower(v: nat, n: nat)
    ensures v % Pow2(n + 1) == Weight((v / Pow2(n)) % 2, n) + v % Pow2(n)
  {
    var p := Pow2(n);
    var q := v / p;
    var r := v % p;
    var t := q % 2;
    var q2 := q / 2;
    assert v == q * p + r;
    assert q == q2 * 2 + t;
    assert v == q2 * (2 * p) + (t * p + r) by {
      assert q * p == (q2 * 2 + t) * p;
      assert (q2 * 2 + t) * p == q2 * (2 * p) + t * p;
    }
    assert t * p + r < 2 * p by {
      assert t * p <= p;
    }
    DivUnique(v, 2 * p, q2, t * p + r);
    assert Weight(t, n) == t * p;
  }

  /** Reading the n low digits of v back gives v modulo 2^n. */
  lemma {:induction false} DigitsValue(v: nat, n: nat)
    ensures |Digits(v, n)| == n
    ensures Value(Digits(v, n)) == v % Pow2(n)
  {
    if n > 0 {
      var d := Digits(v, n);
      var t := d[0];
      var p := Pow2(n - 1);
      assert d[1..] == Digits(v, n - 1);
      DigitsValue(v, n - 1);
      assert t == (v / p) % 2;
      ModNextPower(v, n - 1);
    }
  }

  /** A byte's expansion is eight bits, and reading it back gives the byte. */
  lemma ByteBitsValue(b: bv8)
    ensures Value(ByteBits(b)) == b as int
  {
    var v := b as int;
    ByteBitsDigits(b);
    DigitsValue(v, 8);
    Pow2Byte();
    DivUnique(v, 256, 0, v);
  }

  lemma Pow2Byte()
    ensures Pow2(8) == 256
  {
  }

  /** A byte's bits are its eight binary digits. */
  lemma ByteBitsDigits(b: bv8)
    ensures ByteBits(b) == Digits(b as int, 8)
  {
    var d := Digits(b as int, 8);
    forall i | 0 <= i < 8
      ensures ByteBits(b)[i] == d[i]
    {
      ByteBitOf(b, 7 - i);
    }
  }

  lemma ShiftHalves(x: bv8)
    ensures (x >> 1) as int == x as int / 2
  {
  }

  lemma LowBit(x: bv8)
    ensures (x & 1) as int == x as int % 2
  {
  }

  lemma ByteShiftTwice(b: bv8, k: bv8)
    requires k < 7
    ensures b >> (k + 1) == (b >> k) >> 1
  {
  }

  /** Shifting a byte right by k divides it by 2^k. */
  lemma {:induction false} ShiftDivides(b: bv8, k: nat)
    requires k < 8
    ensures (b >> (k as bv8)) as int == b as int / Pow2(k)
  {
    if k > 0 {
      ShiftDivides(b, k - 1);
      var h := b >> ((k - 1) as bv8);
      assert k as bv8 == (k - 1) as bv8 + 1;
      ByteShiftTwice(b, (k - 1) as bv8);
      ShiftHalves(h);
      DivHalf(b as int, Pow2(k - 1));
    }
  }

  /** The bit-level and the arithmetic reading of a byte's bit k agree. */
  lemma ByteBitOf(b: bv8, k: nat)
    requires k < 8
    ensures ByteBit(b, k) == (b as int / Pow2(k)) % 2
  {
    var kk := k as bv8;
    assert ((b as bv32) >> kk) & 1 == ((b >> kk) & 1) as bv32;
    ShiftDivides(b, k);
    LowBit(b >> kk);
  }

  /** Dropping j bytes drops their 8 * j bits from the front of the stream. */
  lemma {:induction false} SourceBitsDrop(data: seq<bv8>, j: nat)
    requires j <= |data|
    ensures SourceBits(data)[8 * j..] == SourceBits(data[j..])
  {
    if j > 0 {
      assert data[1..][j - 1..] == data[j..];
      SourceBitsDrop(data[1..], j - 1);
    }
  }

  /** The first j bytes give the first 8 * j bits of the stream. */
  lemma {:induction false} SourceBitsTake(data: seq<bv8>, j: nat)
    requires j <= |data|
    ensures SourceBits(data)[..8 * j] == SourceBits(data[..j])
  {
    if j > 0 {
      assert data[1..][..j - 1] == data[..j][1..];
      SourceBitsTake(data[1..], j - 1);
      assert SourceBits(data[..j]) == ByteBits(data[0]) + SourceBits(data[..j][1..]);
    }
  }

  /** The stream of a non-empty run starts with the first byte's eight bits. */
  lemma SourceBitsFirst(data: seq<bv8>)
    requires data != []
    ensures SourceBits(data)[..8] == ByteBits(data[0])
    ensures SourceBits(data)[8..] == SourceBits(data[1..])
  {
    assert SourceBits(data) == ByteBits(data[0]) + SourceBits(data[1..]);
  }

  /** Byte i of the data is bits 8 * i to 8 * i + 8 of its stream. */
  lemma SourceBitsAt(data: seq<bv8>, i: nat)
    requires i < |data|
    ensures SourceBits(data)[8 * i..8 * i + 8] == ByteBits(data[i])
  {
    SourceBitsDrop(data, i);
    SourceBitsFirst(data[i..]);
    assert SourceBits(data)[8 * i..][..8] == SourceBits(data)[8 * i..8 * i + 8];
  }

  /** A single byte's stream is its eight bits. */
  lemma SourceBitsOne(b: bv8)
    ensures SourceBits([b]) == ByteBits(b)
  {
    assert SourceBits([b]) == ByteBits(b) + SourceBits([]);
  }

  /** A byte widened to a Java `int` reads as the byte's own number. */
  lemma ByteSigned(b: bv8)
    ensures Signed(b as bv32) == b as int == Value(ByteBits(b))
  {
    var x := b as bv32;
    forall i | 0 <= i < 24
      ensures Pattern(x)[i] == 0
    {
      HighBitClear(b, (31 - i) as bv8);
    }
    forall i | 24 <= i < 32
      ensures Pattern(x)[i] == ByteBits(b)[i - 24]
    {
    }
    assert Pattern(x) == Zeros(24) + ByteBits(b);
    ValueZerosPrefix(24, ByteBits(b));
    ByteBitsValue(b);
    SignBitWeight(x);
  }

  lemma HighBitClear(b: bv8, kk: bv8)
    requires 8 <= kk < 32
    ensures ((b as bv32) >> kk) & 1 == 0
  {
  }

  /**
    Shifting the bits s one at a time into an accumulator u, doubling and
    adding each bit and wrapping around modulo 2^32 as a Java `int` does.
  */
  function WrapFold(u: nat, s: seq<Bit>): nat
    decreases |s|
  {
    if |s| == 0 then u else WrapFold((2 * u + s[0]) % Modulus, s[1..])
  }

  /** The wrapped accumulation is the positional value modulo 2^32. */
  lemma {:induction false} WrapFoldValue(u: nat, s: seq<Bit>)
    requires u < Modulus
    ensures WrapFold(u, s) == (u * Pow2(|s|) + Value(s)) % Modulus
    decreases |s|
  {
    if |s| == 0 {
      assert u * Pow2(0) + Value(s) == u;
      DivUnique(u, Modulus, 0, u);
    } else {
      var b := s[0];
      var p := Pow2(|s| - 1);
      var v := Value(s[1..]);
      var u1 := (2 * u + b) % Modulus;
      WrapFoldValue(u1, s[1..]);
      assert WrapFold(u, s) == (u1 * p + v) % Modulus;
      assert Value(s) == b * p + v;
      assert Pow2(|s|) == 2 * p;
      ShiftAddMod(u, b, p, v);
    }
  }

  /** The arithmetic of one accumulation step, modulo 2^32. */
  lemma ShiftAddMod(u: int, b: int, p: int, v: int)
    ensures (((2 * u + b) % Modulus) * p + v) % Modulus == (u * (2 * p) + (b * p + v)) % Modulus
  {
    ModMulAdd(2 * u + b, p, v, Modulus);
    assert (2 * u + b) * p == u * (2 * p) + b * p;
  }

  /** Folding from zero starts with the first bit and gives the value modulo 2^32. */
  lemma WrapFoldFromZero(t: seq<Bit>)
    requires t != []
    ensures WrapFold(0, t) == WrapFold(t[0], t[1..])
    ensures WrapFold(0, t) == Value(t) % Modulus
  {
    DivUnique(t[0], Modulus, 0, t[0]);
    assert WrapFold(0, t) == WrapFold(t[0], t[1..]);
    WrapFoldValue(0, t);
    assert 0 * Pow2(|t|) == 0;
  }
}
