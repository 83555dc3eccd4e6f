/**
  What callers of the bit cursor can rely on across several calls: runs
  of `readBit` and `readBits`, checked against reference definitions on
  the abstract bit stream, and the behaviours the repository's own test
  suite exercises on the four-byte text "test".
*/
module Properties {
  import opened Arith
  import opened Wrappers
  import opened BitString
  import opened JavaInt
  import opened Bits
  import opened ByteSource
  import opened BitStream

  /**
    n successive `readBit()` calls: the values they return and the cursor
    they leave. Past the end every call returns -1.
  */
  function ReadBitRun(s: BitInputStream, n: nat): (r: (seq<bv32>, BitInputStream))
    requires Valid(s)
    decreases n
    ensures Valid(r.1) && |r.0| == n
    ensures
      var k := Min(n, |Remaining(s)|);
      && r.0 == BitInts(Remaining(s)[..k]) + Repeat(MinusOne, n - k)
      && Remaining(r.1) == Remaining(s)[k..]
  {
    if n == 0 then
      NoBits(Remaining(s));
      ([], s)
    else
      var first := ReadBit(s);
      var rest := ReadBitRun(first.1, n - 1);
      BitRunStep(Remaining(s), Remaining(first.1), Remaining(rest.1), first.0, rest.0, n);
      ([first.0] + rest.0, rest.1)
  }

  lemma NoBits(rem: seq<Bit>)
    ensures BitInts(rem[..0]) + Repeat(MinusOne, 0) == [] && rem[0..] == rem
  {
    assert rem[..0] == [];
  }

  /** One call of `ReadBitRun`, on the abstract stream: rem before it, rem1 after it. */
  lemma BitRunStep(rem: seq<Bit>, rem1: seq<Bit>, after: seq<Bit>, b: bv32, t: seq<bv32>, n: nat)
    requires n >= 1
    requires rem == [] ==> b == MinusOne && rem1 == []
    requires rem != [] ==> b == BitValue(rem[0]) && rem1 == rem[1..]
    requires
      var k := Min(n - 1, |rem1|);
      && t == BitInts(rem1[..k]) + Repeat(MinusOne, n - 1 - k)
      && after == rem1[k..]
    ensures
      var k := Min(n, |rem|);
      && [b] + t == BitInts(rem[..k]) + Repeat(MinusOne, n - k)
      && after == rem[k..]
  {
    if rem == [] {
      assert rem[..0] == [] && rem1[..0] == [];
      assert [b] + Repeat(MinusOne, n - 1) == Repeat(MinusOne, n);
    } else {
      var k := Min(n, |rem|);
      TakeFirst(rem, k);
      TakeFirstInts(rem, k);
    }
  }

  /**
    Reading bit by bit past the end yields every bit left, in order, and
    then only -1; on a fresh cursor these are the eight bits of every byte,
    most significant first.
  */
  lemma ReadToEnd(s: BitInputStream, extra: nat)
    requires Valid(s)
    ensures
      var r := ReadBitRun(s, |Remaining(s)| + extra);
      && r.0 == BitInts(Remaining(s)) + Repeat(MinusOne, extra)
      && Remaining(r.1) == []
  {
    var r := ReadBitRun(s, |Remaining(s)| + extra);
    RunPastEnd(Remaining(s), extra, r.0, Remaining(r.1));
  }

  /** The shape of a bit run that asks for every bit left and extra more. */
  lemma RunPastEnd(rem: seq<Bit>, extra: nat, t: seq<bv32>, after: seq<Bit>)
    requires
      var n := |rem| + extra;
      var k := Min(n, |rem|);
      t == BitInts(rem[..k]) + Repeat(MinusOne, n - k) && after == rem[k..]
    ensures t == BitInts(rem) + Repeat(MinusOne, extra) && after == []
  {
    assert Min(|rem| + extra, |rem|) == |rem|;
    assert rem[..|rem|] == rem;
  }

  /** `readBitsToArray(n)` returns exactly what n calls of `readBit` return before the first -1. */
  lemma ArrayIsBitByBit(s: BitInputStream, nbits: int)
    requires Valid(s) && nbits >= 1
    ensures
      var a := ReadBitsToArray(s, nbits);
      var b := ReadBitRun(s, nbits);
      var k := Min(nbits, |Remaining(s)|);
      && a.result == Ok(b.0[..k])
      && (forall j :: k <= j < nbits ==> b.0[j] == MinusOne)
      && Remaining(a.after) == Remaining(b.1)
  {
    var k := Min(nbits, |Remaining(s)|);
    var b := ReadBitRun(s, nbits);
    assert b.0[..k] == BitInts(Remaining(s)[..k]);
  }

  /**
    The Java loop `res = res << 1 | bit` as plain arithmetic: double and
    add each bit, reduced modulo 2^32.
  */
  lemma ReadBitsFolds(s: BitInputStream, nbits: int)
    requires Valid(s) && 1 <= nbits <= 32 && Remaining(s) != []
    ensures
      var k := Min(nbits, |Remaining(s)|);
      var r := ReadBits(s, nbits);
      r.result.Ok? && Unsigned(r.result.value) == WrapFold(0, Remaining(s)[..k])
  {
    var k := Min(nbits, |Remaining(s)|);
    WrapFoldFromZero(Remaining(s)[..k]);
  }

  /**
    `readBits(n)` for n <= 31 as the `int` a caller sees: the number the
    next min(n, available) bits denote, or -1 when none is left.
  */
  lemma ReadBitsSigned(s: BitInputStream, nbits: int)
    requires Valid(s) && 1 <= nbits <= 31
    ensures ReadBits(s, nbits).result.Ok?
    ensures Remaining(s) == [] ==> Signed(ReadBits(s, nbits).result.value) == -1
    ensures Remaining(s) != [] ==>
      Signed(ReadBits(s, nbits).result.value) == Value(Remaining(s)[..Min(nbits, |Remaining(s)|)])
  {
    if Remaining(s) == [] {
      PatternOfMinusOne();
      SignedOfOnes(MinusOne);
    } else {
      ReadBitsSmall(s, nbits);
    }
  }

  /**
    The reference reading of a bit stream in groups of n: c numbers, each
    the value of the next n bits (fewer at the end), then -1 once the
    bits have run out.
  */
  function Chunks(t: seq<Bit>, n: nat, c: nat): (r: seq<int>)
    requires n >= 1
    decreases c
    ensures |r| == c
  {
    if c == 0 then []
    else if t == [] then [-1] + Chunks(t, n, c - 1)
    else
      var k := Min(n, |t|);
      [Value(t[..k])] + Chunks(t[k..], n, c - 1)
  }

  /**
    c successive `readBits(n)` calls, for n <= 31: the `int`s they return
    are the stream read in groups of n, and the cursor has moved past the
    bits consumed.
  */
  function ReadBitsRun(s: BitInputStream, nbits: int, c: nat): (r: (seq<int>, BitInputStream))
    requires Valid(s) && 1 <= nbits <= 31
    decreases c
    ensures Valid(r.1)
    ensures r.0 == Chunks(Remaining(s), nbits, c)
    ensures Remaining(r.1) == Remaining(s)[Consumed(c, nbits, |Remaining(s)|)..]
  {
    if c == 0 then
      NoBits(Remaining(s));
      ([], s)
    else
      var first := ReadBits(s, nbits);
      var v := Signed(first.result.value);
      ReadBitsSigned(s, nbits);
      var rest := ReadBitsRun(first.after, nbits, c - 1);
      ChunkStep(Remaining(s), Remaining(first.after), Remaining(rest.1), v, rest.0, nbits, c);
      ([v] + rest.0, rest.1)
  }

  /** One call of `ReadBitsRun`, on the abstract stream. */
  lemma ChunkStep(rem: seq<Bit>, rem1: seq<Bit>, after: seq<Bit>, v: int, t: seq<int>, n: nat, c: nat)
    requires 1 <= n && 1 <= c
    requires rem == [] ==> v == -1
    requires rem != [] ==> v == Value(rem[..Min(n, |rem|)])
    requires rem1 == rem[Min(n, |rem|)..]
    requires t == Chunks(rem1, n, c - 1) && after == rem1[Consumed(c - 1, n, |rem1|)..]
    ensures [v] + t == Chunks(rem, n, c)
    ensures after == rem[Consumed(c, n, |rem|)..]
  {
    var k := Min(n, |rem|);
    var j := Consumed(c - 1, n, |rem1|);
    if rem == [] {
      assert rem1 == rem;
    }
    ChunkAdvance(c, n, |rem|, k, j);
    DropTwice(rem, k, j);
  }

  /** The bits c reads of n bits each consume when len are left: c * n, or all of them. */
  function Consumed(c: nat, n: nat, len: nat): (r: nat)
    ensures r <= len
  {
    Min(c * n, len)
  }

  /** Moving on by one group and then by c - 1 more is moving on by c groups, or to the end. */
  lemma ChunkAdvance(c: nat, n: nat, len: nat, k: nat, j: nat)
    requires 1 <= n && 1 <= c && k == Min(n, len) && j == Consumed(c - 1, n, len - k)
    ensures k + j == Consumed(c, n, len)
  {
    assert (c - 1) * n + n == c * n;
  }

  lemma DropTwice<T>(s: seq<T>, k: nat, j: nat)
    requires k + j <= |s|
    ensures s[k..][j..] == s[k + j..]
  {
  }

  /** Reading in groups of 8 returns the bytes themselves, then -1. */
  lemma {:induction false} ByteChunks(data: seq<bv8>, c: nat)
    requires c >= |data|
    ensures Chunks(SourceBits(data), 8, c) == ByteInts(data) + Repeat(-1, c - |data|)
  {
    if data == [] {
      NoChunks(8, c);
    } else {
      var t := SourceBits(data);
      SourceBitsFirst(data);
      ByteBitsValue(data[0]);
      ByteChunks(data[1..], c - 1);
      assert Min(8, |t|) == 8;
      assert ByteInts(data) == [data[0] as int] + ByteInts(data[1..]);
    }
  }

  /** The bytes as the `int`s 0 to 255. */
  function ByteInts(data: seq<bv8>): (r: seq<int>)
    ensures |r| == |data| && forall i :: 0 <= i < |data| ==> r[i] == data[i] as int
  {
    seq(|data|, i requires 0 <= i < |data| => data[i] as int)
  }

  /** Once the bits have run out every read returns -1. */
  lemma {:induction false} NoChunks(n: nat, c: nat)
    requires n >= 1
    ensures Chunks([], n, c) == Repeat(-1, c)
  {
    if c > 0 {
      NoChunks(n, c - 1);
      assert [-1] + Repeat(-1, c - 1) == Repeat(-1, c);
    }
  }

  /** The groups laid end to end. */
  function Flatten(groups: seq<seq<Bit>>): seq<Bit>
  {
    if groups == [] then [] else groups[0] + Flatten(groups[1..])
  }

  /** Every group holds n bits, except the last, which holds between 1 and n. */
  predicate Grouped(groups: seq<seq<Bit>>, n: nat)
  {
    forall i :: 0 <= i < |groups| ==>
      1 <= |groups[i]| && (if i < |groups| - 1 then |groups[i]| == n else |groups[i]| <= n)
  }

  /** The number each group denotes. */
  function GroupValues(groups: seq<seq<Bit>>): (r: seq<int>)
    ensures |r| == |groups|
  {
    if groups == [] then [] else [Value(groups[0])] + GroupValues(groups[1..])
  }

  /** A first group of n bits, or a last shorter one, is read as its value. */
  lemma ChunksHead(a: seq<Bit>, t: seq<Bit>, n: nat, c: nat)
    requires 1 <= |a| <= n && c >= 1 && (|a| < n ==> t == [])
    ensures Chunks(a + t, n, c) == [Value(a)] + Chunks(t, n, c - 1)
  {
    assert (a + t)[..|a|] == a;
    assert (a + t)[|a|..] == t;
  }

  lemma GroupStep(g: seq<Bit>, t: seq<Bit>, n: nat, c: nat, a: seq<int>, e: seq<int>)
    requires 1 <= |g| <= n && c >= 1 && (|g| < n ==> t == [])
    requires Chunks(t, n, c - 1) == a + e
    ensures Chunks(g + t, n, c) == ([Value(g)] + a) + e
  {
    ChunksHead(g, t, n, c);
    assert [Value(g)] + (a + e) == ([Value(g)] + a) + e;
  }

  /** Bits made of groups of n are read in groups of n as the groups' values, then -1. */
  lemma {:induction false} ChunksOfGroups(groups: seq<seq<Bit>>, n: nat, c: nat)
    requires n >= 1 && c >= |groups| && Grouped(groups, n)
    ensures Chunks(Flatten(groups), n, c) == GroupValues(groups) + Repeat(-1, c - |groups|)
  {
    if groups == [] {
      NoChunks(n, c);
    } else {
      var g := groups[0];
      var rest := groups[1..];
      assert Grouped(rest, n) by {
        forall i | 0 <= i < |rest|
          ensures 1 <= |rest[i]| && (if i < |rest| - 1 then |rest[i]| == n else |rest[i]| <= n)
        {
          assert rest[i] == groups[i + 1];
        }
      }
      assert 1 <= |g| <= n by { assert g == groups[0]; }
      ChunksOfGroups(rest, n, c - 1);
      GroupStep(g, Flatten(rest), n, c, GroupValues(rest), Repeat(-1, c - |groups|));
      assert Flatten(groups) == g + Flatten(rest);
    }
  }

  /** `readBits(n)` calls on a stream made of groups of n bits return the groups' values, then -1. */
  lemma ReadGroups(s: BitInputStream, groups: seq<seq<Bit>>, n: nat, c: nat)
    requires Valid(s) && 1 <= n <= 31 && c >= |groups| && Grouped(groups, n)
    requires Remaining(s) == Flatten(groups)
    ensures ReadBitsRun(s, n, c).0 == GroupValues(groups) + Repeat(-1, c - |groups|)
  {
    ChunksOfGroups(groups, n, c);
  }

  lemma {:induction false} FlattenAppend(a: seq<seq<Bit>>, b: seq<seq<Bit>>)
    ensures Flatten(a + b) == Flatten(a) + Flatten(b)
  {
    if a == [] {
      assert a + b == b;
    } else {
      assert (a + b)[1..] == a[1..] + b;
      FlattenAppend(a[1..], b);
    }
  }

  lemma {:induction false} GroupValuesAppend(a: seq<seq<Bit>>, b: seq<seq<Bit>>)
    ensures GroupValues(a + b) == GroupValues(a) + GroupValues(b)
  {
    if a == [] {
      assert a + b == b;
    } else {
      assert (a + b)[1..] == a[1..] + b;
      GroupValuesAppend(a[1..], b);
    }
  }

  /**
    A 32-bit read of 32 set bits returns the `int` -1: the caller cannot
    tell it from the end of the stream.
  */
  lemma EndMarkerCollision(s: BitInputStream)
    requires Valid(s) && |Remaining(s)| >= 32 && Remaining(s)[..32] == Ones(32)
    ensures ReadBits(s, 32).result.Ok?
    ensures Signed(ReadBits(s, 32).result.value) == -1 == Signed(MinusOne)
  {
    var v := ReadBits(s, 32).result.value;
    assert Min(32, |Remaining(s)|) == 32;
    LastOfPadded(Remaining(s)[..32]);
    SignedOfOnes(v);
    PatternOfMinusOne();
    SignedOfOnes(MinusOne);
  }

  /**
    `mask(7)` is `(byte) 0x80`, the `int` -128, sign-extended: bit 7 and
    every bit above it are set.
  */
  lemma MaskSevenIsNegative()
    ensures Mask(7).Ok? && Signed(Mask(7).value) == -128
  {
    var x := Mask(7).value;
    MaskSevenPattern();
    MaskSevenValue();
    SignBitWeight(x);
    assert Pattern(x)[0] == BitOf(x, 31);
  }

  lemma MaskSevenPattern()
    ensures Mask(7).Ok? && Pattern(Mask(7).value) == Ones(25) + Zeros(7)
  {
    var x := Mask(7).value;
    forall i | 0 <= i < 32
      ensures Pattern(x)[i] == (Ones(25) + Zeros(7))[i]
    {
      assert Pattern(x)[i] == BitOf(x, 31 - i);
    }
  }

  /** Twenty-five set bits above seven clear ones denote 2^32 - 128. */
  lemma MaskSevenValue()
    ensures Value(Ones(25) + Zeros(7)) == Modulus - 128
  {
    OnesThenZeros(25, 7);
    Pow2Is32();
    assert Pow2(7) == 128;
  }

  /** a set bits above b clear ones denote 2^(a + b) - 2^b. */
  lemma OnesThenZeros(a: nat, b: nat)
    ensures Value(Ones(a) + Zeros(b)) == Pow2(a + b) - Pow2(b)
  {
    ValueConcat(Ones(a), Zeros(b));
    ValueOnes(a);
    ValueZeros(Zeros(b));
    Pow2Add(a, b);
    MulAddRight(Pow2(a), -1, Pow2(b));
  }

  /** Marking and then resetting drops the pending bits and returns to the next byte. */
  lemma MarkThenReset(s: BitInputStream)
    requires Valid(s) && s.source.markSupported
    ensures
      var r := Reset(Mark(s));
      r.result.Ok? && Remaining(r.after) == Remaining(s)[s.bitsCountLeft..]
  {
    DropPending(s);
  }

  /** Bit reads keep a stream markable, so marking after them and resetting succeeds. */
  lemma MarkAfterBitReads(s: BitInputStream, n: int)
    requires Valid(s) && s.source.markSupported
    ensures var t := ReadBits(s, n).after; Reset(Mark(t)).result.Ok?
    ensures var t := ReadBitsToArray(s, n).after; Reset(Mark(t)).result.Ok?
  {
    MarkThenReset(ReadBits(s, n).after);
    MarkThenReset(ReadBitsToArray(s, n).after);
  }

  /** Skipping at least every byte left leaves no bit: every bit read reports the end, and none fails. */
  lemma SkipPastEnd(s: BitInputStream, n: int, actual: nat)
    requires Valid(s) && actual <= (if n > 0 then n else 0) && actual >= |Rest(s.source)|
    ensures
      var after := Skip(s, n, actual).1;
      && ReadBit(after).0 == MinusOne
      && ReadBits(after, 1).result == Ok(MinusOne)
      && ReadBitsToArray(after, 1).result == Ok([])
  {
    var after := Skip(s, n, actual).1;
    assert Min(s.bitsCountLeft + 8 * actual, |Remaining(s)|) == |Remaining(s)|;
    assert Remaining(after) == [];
  }

  // The test suite's text file.

  /** The bytes of "test". */
  const Test: seq<bv8> := [0x74, 0x65, 0x73, 0x74]

  /** "test" as bits: 01110100 01100101 01110011 01110100. */
  const TestBits: seq<Bit> :=
    [0, 1, 1, 1, 0, 1, 0, 0] + ([0, 1, 1, 0, 0, 1, 0, 1] + ([0, 1, 1, 1, 0, 0, 1, 1] + [0, 1, 1, 1, 0, 1, 0, 0]))

  /** A byte's bits, position by position. */
  lemma ByteBitsByIndex(b: bv8)
    ensures ByteBits(b) == [ByteBit(b, 7), ByteBit(b, 6), ByteBit(b, 5), ByteBit(b, 4),
                            ByteBit(b, 3), ByteBit(b, 2), ByteBit(b, 1), ByteBit(b, 0)]
  {
    var t := ByteBits(b);
    assert t[0] == ByteBit(b, 7);
    assert t[1] == ByteBit(b, 6);
    assert t[2] == ByteBit(b, 5);
    assert t[3] == ByteBit(b, 4);
    assert t[4] == ByteBit(b, 3);
    assert t[5] == ByteBit(b, 2);
    assert t[6] == ByteBit(b, 1);
    assert t[7] == ByteBit(b, 0);
  }

  lemma ExpandTest()
    ensures SourceBits(Test) == TestBits
  {
    ByteBitsByIndex(0x74);
    ByteBitsByIndex(0x65);
    ByteBitsByIndex(0x73);
    assert SourceBits(Test[3..]) == ByteBits(0x74) + SourceBits([]);
    assert SourceBits(Test[2..]) == ByteBits(0x73) + SourceBits(Test[3..]);
    assert SourceBits(Test[1..]) == ByteBits(0x65) + SourceBits(Test[2..]);
    assert SourceBits(Test) == ByteBits(0x74) + SourceBits(Test[1..]);
  }

  /** A fresh cursor over "test", on a stream that may or may not support marks. */
  function OverTest(markSupported: bool): (s: BitInputStream)
    ensures Valid(s) && Remaining(s) == TestBits
    ensures s.source == Open(Test, markSupported)
  {
    ExpandTest();
    New(Open(Test, markSupported))
  }

  /** Thirty-two `readBit` calls on "test" give its bits in order, and every further call gives -1. */
  lemma TestBitByBit(markSupported: bool, c: nat)
    requires c >= 32
    ensures ReadBitRun(OverTest(markSupported), c).0 == BitInts(TestBits) + Repeat(MinusOne, c - 32)
  {
    ReadToEnd(OverTest(markSupported), c - 32);
  }

  /** "test" in groups of three: 011 101 000 110 | 010 101 110 011 | 011 101 00. */
  const TriplesA: seq<seq<Bit>> := [[0, 1, 1], [1, 0, 1], [0, 0, 0], [1, 1, 0]]
  const TriplesB: seq<seq<Bit>> := [[0, 1, 0], [1, 0, 1], [1, 1, 0], [0, 1, 1]]
  const TriplesC: seq<seq<Bit>> := [[0, 1, 1], [1, 0, 1], [0, 0]]
  const TestTriples: seq<seq<Bit>> := TriplesA + TriplesB + TriplesC

  lemma TriplesSpellTest()
    ensures Flatten(TestTriples) == TestBits
  {
    FlattenAppend(TriplesA + TriplesB, TriplesC);
    FlattenAppend(TriplesA, TriplesB);
    var b0: seq<Bit> := [0, 1, 1, 1, 0, 1, 0, 0];
    var b1: seq<Bit> := [0, 1, 1, 0, 0, 1, 0, 1];
    var b2: seq<Bit> := [0, 1, 1, 1, 0, 0, 1, 1];
    assert Flatten(TriplesA) + Flatten(TriplesB) == b0 + (b1 + b2);
    assert Flatten(TriplesC) == [0, 1, 1, 1, 0, 1, 0, 0];
    assert (b0 + (b1 + b2)) + Flatten(TriplesC) == b0 + (b1 + (b2 + Flatten(TriplesC)));
  }

  lemma TriplesGrouped()
    ensures Grouped(TestTriples, 3)
  {
  }

  lemma TriplesValues()
    ensures GroupValues(TestTriples) == [3, 5, 0, 6, 2, 5, 6, 3, 3, 5, 0]
  {
    GroupValuesAppend(TriplesA + TriplesB, TriplesC);
    GroupValuesAppend(TriplesA, TriplesB);
    assert GroupValues(TriplesA) == [3, 5, 0, 6];
    assert GroupValues(TriplesB) == [2, 5, 6, 3];
    assert GroupValues(TriplesC) == [3, 5, 0];
  }

  /** Eleven `readBits(3)` calls on "test" return its triples, and every further call -1. */
  lemma TestThreeBits(markSupported: bool, c: nat)
    requires c >= 11
    ensures ReadBitsRun(OverTest(markSupported), 3, c).0 == [3, 5, 0, 6, 2, 5, 6, 3, 3, 5, 0] + Repeat(-1, c - 11)
  {
    TriplesSpellTest();
    TriplesGrouped();
    TriplesValues();
    ReadGroups(OverTest(markSupported), TestTriples, 3, c);
  }

  /** Four `readBits(8)` calls on "test" return its bytes 116 101 115 116, and every further call -1. */
  lemma TestBytes(markSupported: bool, c: nat)
    requires c >= 4
    ensures ReadBitsRun(OverTest(markSupported), 8, c).0 == [116, 101, 115, 116] + Repeat(-1, c - 4)
  {
    ExpandTest();
    ByteChunks(Test, c);
    assert ByteInts(Test) == [116, 101, 115, 116];
  }

  /** `readBitsToArray(8)` on "test": 01110100. */
  lemma TestArrayOfEight(markSupported: bool)
    ensures ReadBitsToArray(OverTest(markSupported), 8).result == Ok(BitInts([0, 1, 1, 1, 0, 1, 0, 0]))
  {
    assert TestBits[..8] == [0, 1, 1, 1, 0, 1, 0, 0];
  }

  /** `readBitsToArray(11)` on "test": 01110100011. */
  lemma TestArrayOfEleven(markSupported: bool)
    ensures ReadBitsToArray(OverTest(markSupported), 11).result == Ok(BitInts([0, 1, 1, 1, 0, 1, 0, 0, 0, 1, 1]))
  {
    assert TestBits[..11] == [0, 1, 1, 1, 0, 1, 0, 0, 0, 1, 1];
  }

  /** `readBitsToArray(51)` on "test" returns the 32 bits there are. */
  lemma TestArrayOfFiftyOne(markSupported: bool)
    ensures ReadBitsToArray(OverTest(markSupported), 51).result == Ok(BitInts(TestBits))
    ensures |ReadBitsToArray(OverTest(markSupported), 51).result.value| == 32
  {
    assert TestBits[..32] == TestBits;
  }

  /** The whole bytes that k bits reach into: k rounded up to a multiple of 8, in bytes. */
  function BytesTouched(k: nat): (r: nat)
    ensures 0 <= 8 * r - k <= 7
  {
    (k + 7) / 8
  }

  /**
    A cursor with fewer than 8 bits pending that is k bits short of n whole
    bytes has the rest of the byte that bit k falls in pending.
  */
  lemma PendingFromLength(s: BitInputStream, n: nat, k: nat)
    requires Valid(s) && s.bitsCountLeft < 8 && |Remaining(s)| == 8 * n - k
    ensures s.bitsCountLeft == 8 * BytesTouched(k) - k
  {
    var q := |Rest(s.source)|;
    var t := BytesTouched(k);
    assert s.bitsCountLeft + 8 * q == 8 * n - k;
    assert 8 * (n - q - t) == s.bitsCountLeft - (8 * t - k);
  }

  /**
    On a cursor at a byte boundary, `readBits(k)` and then `read()`: the
    rest of the byte bit k falls in is dropped and the next whole byte is
    returned; after a whole number of bytes nothing is dropped.
  */
  lemma ReadAfterPartialByte(s0: BitInputStream, k: int)
    requires Valid(s0) && s0.bitsCountLeft == 0 && 1 <= k <= 32 && |Rest(s0.source)| > BytesTouched(k)
    ensures Signed(Read(ReadBits(s0, k).after).0) == Rest(s0.source)[BytesTouched(k)] as int
  {
    PartialByte(s0, k);
    SecondByte(ReadBits(s0, k).after, Rest(s0.source), k);
  }

  /** `readBits(k)` at a byte boundary leaves the rest of the byte bit k falls in pending. */
  lemma PartialByte(s0: BitInputStream, k: int)
    requires Valid(s0) && s0.bitsCountLeft == 0 && 1 <= k <= 32 && |Rest(s0.source)| > BytesTouched(k)
    ensures
      var s := ReadBits(s0, k).after;
      s.bitsCountLeft == 8 * BytesTouched(k) - k && Remaining(s) == SourceBits(Rest(s0.source))[k..]
  {
    var d := Rest(s0.source);
    var t := SourceBits(d);
    DropPending(s0);
    assert Remaining(s0) == t;
    assert Min(k, |Remaining(s0)|) == k;
    var s := ReadBits(s0, k).after;
    assert Remaining(s) == t[k..];
    assert |Remaining(s)| == 8 * |d| - k;
    PendingFromLength(s, |d|, k);
  }

  /** With the rest of the byte bit k falls in pending, `read()` returns the byte after it. */
  lemma SecondByte(s: BitInputStream, d: seq<bv8>, k: nat)
    requires Valid(s) && |d| > BytesTouched(k)
    requires s.bitsCountLeft == 8 * BytesTouched(k) - k && Remaining(s) == SourceBits(d)[k..]
    ensures Signed(Read(s).0) == d[BytesTouched(k)] as int
  {
    var rem := Remaining(s);
    var p := s.bitsCountLeft;
    ByteAfterDrop(d, k, p, rem);
    assert |rem| > p;
    assert Signed(Read(s).0) == Value(rem[p..p + 8]);
  }

  /** Past the first k bits of d's bits and p more to a byte boundary come the bits of a whole byte. */
  lemma ByteAfterDrop(d: seq<bv8>, k: nat, p: nat, rem: seq<Bit>)
    requires |d| > BytesTouched(k) && p == 8 * BytesTouched(k) - k && rem == SourceBits(d)[k..]
    ensures p + 8 <= |rem| && Value(rem[p..p + 8]) == d[BytesTouched(k)] as int
  {
    var q := BytesTouched(k);
    DropIndices(|d|, k, p, q);
    DropWindow(SourceBits(d), rem, k, p, 8 * q);
    SourceBitsAt(d, q);
    WindowValue(rem[p..p + 8], SourceBits(d)[8 * q..8 * q + 8], d[q]);
  }

  lemma WindowValue(w: seq<Bit>, u: seq<Bit>, b: bv8)
    requires w == u && u == ByteBits(b)
    ensures Value(w) == b as int
  {
    ByteBitsValue(b);
  }

  lemma DropIndices(n: nat, k: nat, p: nat, q: nat)
    requires n > q && q == BytesTouched(k) && p == 8 * q - k
    ensures k + p == 8 * q && 8 * q + 8 <= 8 * n
  {
  }

  /** Eight elements p on of t[k..] are eight elements k + p on of t. */
  lemma DropWindow<T>(t: seq<T>, rem: seq<T>, k: nat, p: nat, a: nat)
    requires k + p == a && a + 8 <= |t| && rem == t[k..]
    ensures p + 8 <= |rem| && rem[p..p + 8] == t[a..a + 8]
  {
  }

  /** After `readBits(4)` on "test", `read()` drops the rest of 't' and returns 'e', 101. */
  lemma TestReadAfterFourBits(markSupported: bool)
    ensures Signed(Read(ReadBits(OverTest(markSupported), 4).after).0) == 101
  {
    ReadAfterPartialByte(OverTest(markSupported), 4);
  }

  /** After `readBits(8)` on "test", nothing is pending and `read()` returns 'e', 101. */
  lemma TestReadAfterEightBits(markSupported: bool)
    ensures Signed(Read(ReadBits(OverTest(markSupported), 8).after).0) == 101
  {
    ReadAfterPartialByte(OverTest(markSupported), 8);
  }

  /** Skipping the four bytes of "test" leaves nothing for any bit read. */
  lemma TestSkipToEnd(markSupported: bool)
    ensures ReadBit(Skip(OverTest(markSupported), 4, 4).1).0 == MinusOne
    ensures ReadBits(Skip(OverTest(markSupported), 4, 4).1, 1).result == Ok(MinusOne)
    ensures ReadBitsToArray(Skip(OverTest(markSupported), 4, 4).1, 1).result == Ok([])
  {
    SkipPastEnd(OverTest(markSupported), 4, 4);
  }

  /** On a markable stream marked at the start, skipping to the end and resetting reads "test" again. */
  lemma TestSkipThenReset()
    ensures
      var s := Reset(Skip(Mark(OverTest(true)), 4, 4).1).after;
      ReadBitRun(s, 32).0 == BitInts(TestBits)
  {
    ExpandTest();
    assert Test[0..] == Test;
    assert TestBits[..32] == TestBits;
  }
}
