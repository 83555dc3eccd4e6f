/**
  Java `int` values as 32-bit patterns (`bv32`), with the few Java operators
  the bit cursor uses, and their readings as unsigned and signed integers.
  Integer readings are defined bit by bit so that they stay within the
  reach of the solver.
*/
module JavaInt {
  import opened Arith
  import opened BitString

  /** The Java `int` -1: every bit set. Streams use it to signal end of data. */
  const MinusOne: bv32 := 0xFFFF_FFFF

  /** Java's `x < 0` on an `int`: the sign bit, bit 31, is set. */
  predicate IsNegative(x: bv32) {
    x & 0x8000_0000 != 0
  }

  /**
    Bit k of x (0 is the least significant). The shift distance is taken
    as a byte so that facts about neighbouring positions stay bit-level.
  */
  function BitOf(x: bv32, k: nat): Bit
    requires k < 32
  {
    if (x >> (k as bv8)) & 1 == 0 then 0 else 1
  }

  /** The Java `int` 0 or 1 that holds the bit b. */
  function BitValue(b: Bit): (r: bv32)
    ensures r <= 1 && !IsNegative(r)
    ensures BitOf(r, 0) == b
  {
    if b == 0 then 0 else 1
  }

  /** The 32 bits of x, most significant first. */
  function Pattern(x: bv32): (r: seq<Bit>)
    ensures |r| == 32
  {
    seq(32, i requires 0 <= i < 32 => BitOf(x, 31 - i))
  }

  /** The 32-bit pattern x read as an unsigned number in [0, 2^32). */
  function Unsigned(x: bv32): (r: nat)
    ensures r < Modulus
  {
    Pow2Is32();
    Value(Pattern(x))
  }

  /** The Java `int` value of the pattern x (two's complement). */
  function Signed(x: bv32): (r: int)
    ensures -0x8000_0000 <= r < 0x8000_0000
    ensures r < 0 <==> IsNegative(x)
    ensures r % Modulus == Unsigned(x)
  {
    var u := Unsigned(x);
    SignBitWeight(x);
    if IsNegative(x) then
      WrapBelowZero(u);
      u - Modulus
    else
      ModSelf(u);
      u
  }

  /** Reading a pattern with the sign bit set as negative keeps it modulo 2^32. */
  lemma WrapBelowZero(u: int)
    requires 0 <= u < Modulus
    ensures (u - Modulus) % Modulus == u
  {
    DivUnique(u - Modulus, Modulus, -1, u);
  }

  /** Splits the unsigned reading into its top bit and the 31 bits below it. */
  lemma SignBitWeight(x: bv32)
    ensures Pow2(31) == 0x8000_0000
    ensures Unsigned(x) == Weight(BitOf(x, 31), 31) + Value(Pattern(x)[1..])
    ensures Value(Pattern(x)[1..]) < 0x8000_0000
    ensures IsNegative(x) <==> BitOf(x, 31) == 1
  {
    Pow2Is32();
    assert |Pattern(x)[1..]| == 31;
  }

  /** Bit j + 1 of `x << 1 | b` is bit j of x. */
  lemma ShiftOrBit(x: bv32, b: Bit, j: nat)
    requires j < 31
    ensures BitOf((x << 1) | BitValue(b), j + 1) == BitOf(x, j)
  {
    var kk := j as bv8;
    assert (j + 1) as bv8 == kk + 1;
    ShiftOrBitAt(x, BitValue(b), kk);
  }

  lemma ShiftOrBitAt(x: bv32, b: bv32, kk: bv8)
    requires b <= 1 && kk < 31
    ensures (((x << 1) | b) >> (kk + 1)) & 1 == (x >> kk) & 1
  {
  }

  /** Bit 0 of `x << 1 | b` is b. */
  lemma ShiftOrLow(x: bv32, b: Bit)
    ensures BitOf((x << 1) | BitValue(b), 0) == b
  {
  }

  /** `x << 1 | b` drops the top bit of x and appends b at the bottom. */
  lemma PatternShiftOr(x: bv32, b: Bit)
    ensures Pattern((x << 1) | BitValue(b)) == Pattern(x)[1..] + [b]
  {
    var y := (x << 1) | BitValue(b);
    forall i | 0 <= i < 32
      ensures Pattern(y)[i] == (Pattern(x)[1..] + [b])[i]
    {
      if i < 31 {
        ShiftOrBit(x, b, 30 - i);
      } else {
        ShiftOrLow(x, b);
      }
    }
  }

  /** The Java `int` 0 or 1 is 31 clear bits followed by that bit. */
  lemma PatternOfBit(b: Bit)
    ensures Pattern(BitValue(b)) == Zeros(31) + [b]
  {
    var p := Pattern(BitValue(b));
    forall i | 0 <= i < 32
      ensures p[i] == (Zeros(31) + [b])[i]
    {
      if i < 31 {
        assert BitOf(BitValue(b), 31 - i) == 0;
      }
    }
  }

  /**
    Java's `(byte)` cast followed by the widening back to `int` that
    `&` applies: keeps the low 8 bits and copies bit 7 into the 24 above.
  */
  function ByteCast(x: bv32): (r: bv32)
    ensures r & 0xFF == x & 0xFF
    ensures r >> 7 == 0 || r >> 7 == 0x1FF_FFFF
    ensures (r >> 7 == 0) <==> (x & 0x80 == 0)
  {
    if x & 0x80 == 0 then x & 0xFF else (x & 0xFF) | 0xFFFF_FF00
  }

  /**
    Java's arithmetic shift `x >> k` on an `int`: the sign bit is copied
    into the k vacated top positions. Java uses only the low 5 bits of k.
  */
  function Asr(x: bv32, k: nat): (r: bv32)
    ensures forall j :: 0 <= j < 32 ==>
      BitOf(r, j) == BitOf(x, if j + k % 32 < 32 then j + k % 32 else 31)
  {
    var d := (k % 32) as bv8;
    ByteBack(k % 32);
    forall j | 0 <= j < 32
      ensures BitOf(ShiftRight(x, d), j) == BitOf(x, if j + k % 32 < 32 then j + k % 32 else 31)
    {
      ShiftRightBit(x, d, k % 32, j);
    }
    ShiftRight(x, d)
  }

  /** The arithmetic shift by a distance below 32: a logical shift, with the top d bits set for a negative x. */
  function ShiftRight(x: bv32, d: bv8): bv32
    requires d < 32
  {
    if IsNegative(x) then (x >> d) | (MinusOne << (32 - d)) else x >> d
  }

  /** Bit j of the shift is bit j + d of x, or the sign bit once j + d passes the top. */
  lemma ShiftRightBit(x: bv32, dd: bv8, d: nat, j: nat)
    requires d < 32 && j < 32 && dd as int == d
    ensures BitOf(ShiftRight(x, dd), j) == BitOf(x, if j + d < 32 then j + d else 31)
  {
    if j + d < 32 {
      ShiftRightBitBelowTop(x, dd, d, j);
    } else {
      ShiftRightBitPastTop(x, dd, d, j);
    }
  }

  lemma ShiftRightBitBelowTop(x: bv32, dd: bv8, d: nat, j: nat)
    requires d < 32 && j < 32 && j + d < 32 && dd as int == d
    ensures BitOf(ShiftRight(x, dd), j) == BitOf(x, j + d)
  {
    var jj, kk := IndicesBelowTop(j, d, dd);
    ShiftRightInside(x, dd, jj, kk);
    SameBitAt(ShiftRight(x, dd), x, j, jj, j + d, kk);
  }

  lemma ShiftRightBitPastTop(x: bv32, dd: bv8, d: nat, j: nat)
    requires d < 32 && j < 32 && j + d >= 32 && dd as int == d
    ensures BitOf(ShiftRight(x, dd), j) == BitOf(x, 31)
  {
    var jj := j as bv8;
    ByteBack(j);
    ByteSum(jj, dd);
    ShiftRightPast(x, dd, jj);
    SameBitAt(ShiftRight(x, dd), x, j, jj, 31, 31);
  }

  /** Byte-sized positions j and j + d for positions that stay below the top. */
  lemma IndicesBelowTop(j: nat, d: nat, dd: bv8) returns (jj: bv8, kk: bv8)
    requires j < 32 && d < 32 && j + d < 32 && dd as int == d
    ensures jj < 32 && kk < 32 && kk == jj + dd
    ensures jj as int == j && kk as int == j + d
  {
    jj := j as bv8;
    ByteBack(j);
    ByteSum(jj, dd);
    kk := jj + dd;
  }

  /**
    Bit k of x, with k given as a byte. Facts about shifts are proved at
    byte positions, where the solver reasons bit by bit, and carried over
    to BitOf here.
  */
  function BitAt(x: bv32, kk: bv8): Bit
    requires kk < 32
  {
    if (x >> kk) & 1 == 0 then 0 else 1
  }

  lemma BitOfAt(x: bv32, k: nat, kk: bv8)
    requires k < 32 && kk as int == k
    ensures BitOf(x, k) == BitAt(x, kk)
  {
    ToByte(k, kk);
  }

  lemma SameBitAt(y: bv32, x: bv32, i: nat, ii: bv8, k: nat, kk: bv8)
    requires i < 32 && k < 32 && ii as int == i && kk as int == k
    requires BitAt(y, ii) == BitAt(x, kk)
    ensures BitOf(y, i) == BitOf(x, k)
  {
    BitOfAt(y, i, ii);
    BitOfAt(x, k, kk);
  }

  lemma ShiftRightInside(x: bv32, d: bv8, jj: bv8, kk: bv8)
    requires d < 32 && jj < 32 && kk < 32 && kk == jj + d
    ensures BitAt(ShiftRight(x, d), jj) == BitAt(x, kk)
  {
    if IsNegative(x) {
      assert ShiftRight(x, d) == (x >> d) | (MinusOne << (32 - d));
      FillInside(x, d, jj);
    } else {
      assert ShiftRight(x, d) == x >> d;
      ShiftTwice(x, d, jj);
    }
  }

  lemma ShiftRightPast(x: bv32, d: bv8, jj: bv8)
    requires d < 32 && jj < 32 && jj + d >= 32
    ensures BitAt(ShiftRight(x, d), jj) == BitAt(x, 31)
  {
    SignBit(x);
    if IsNegative(x) {
      assert ShiftRight(x, d) == (x >> d) | (MinusOne << (32 - d));
      FillPast(x, d, jj);
    } else {
      assert ShiftRight(x, d) == x >> d;
      ShiftPastTop(x, d, jj);
    }
  }

  lemma FillInside(x: bv32, d: bv8, jj: bv8)
    requires d < 32 && jj < 32 && jj + d < 32
    ensures BitAt((x >> d) | (MinusOne << (32 - d)), jj) == BitAt(x, jj + d)
  {
  }

  lemma FillPast(x: bv32, d: bv8, jj: bv8)
    requires d < 32 && jj < 32 && jj + d >= 32
    ensures BitAt((x >> d) | (MinusOne << (32 - d)), jj) == 1
  {
  }

  lemma ShiftTwice(x: bv32, d: bv8, jj: bv8)
    requires d < 32 && jj < 32 && jj + d < 32
    ensures BitAt(x >> d, jj) == BitAt(x, jj + d)
  {
  }

  lemma ShiftPastTop(x: bv32, d: bv8, jj: bv8)
    requires d < 32 && jj < 32 && jj + d >= 32
    ensures BitAt(x >> d, jj) == 0
  {
  }

  lemma SignBit(x: bv32)
    ensures BitAt(x, 31) == (if IsNegative(x) then 1 else 0)
  {
  }

  lemma ByteBack(a: nat)
    requires a < 32
    ensures (a as bv8) as int == a
  {
  }

  lemma ToByte(a: nat, b: bv8)
    requires a < 32 && b as int == a
    ensures a as bv8 == b
  {
  }

  lemma ByteSum(x: bv8, y: bv8)
    requires x < 32 && y < 32
    ensures (x + y) as int == x as int + y as int
    ensures x + y < 32 <==> x as int + y as int < 32
  {
  }

  lemma AllOnesBit(kk: bv8)
    requires kk < 32
    ensures (MinusOne >> kk) & 1 == 1
  {
  }

  /** Every bit of -1 is set. */
  lemma PatternOfMinusOne()
    ensures Pattern(MinusOne) == Ones(32)
  {
    forall i | 0 <= i < 32
      ensures Pattern(MinusOne)[i] == 1
    {
      AllOnesBit((31 - i) as bv8);
    }
  }

  /** An `int` with every bit set is -1, the end-of-data marker, whatever produced it. */
  lemma SignedOfOnes(x: bv32)
    requires Pattern(x) == Ones(32)
    ensures Signed(x) == -1 == Signed(MinusOne)
  {
    ValueOnes(32);
    Pow2Is32();
    SignBitWeight(x);
    assert Pattern(x)[0] == BitOf(x, 31);
    PatternOfMinusOne();
    SignBitWeight(MinusOne);
    assert Pattern(MinusOne)[0] == BitOf(MinusOne, 31);
  }
}
