/**
  The bit cursor `BitInputStream`: a byte stream plus one pending byte
  (`bitsLeft`) and the number of its bits not yet handed out
  (`bitsCountLeft`). Bits come out most significant first. The whole-byte
  operations first drop the pending byte and then hand over to the stream.

  Every operation is stated against the abstract bit stream `Remaining`:
  the unread low bits of the pending byte followed by the eight bits of
  every byte the stream has not yet delivered.
*/
module BitStream {
  import opened Arith
  import opened Wrappers
  import opened BitString
  import opened JavaInt
  import opened Bits
  import opened ByteSource

  datatype BitInputStream = BitInputStream(bitsLeft: bv32, bitsCountLeft: int, source: Source)

  /** What an operation returns (or throws) and the cursor it leaves behind. */
  datatype Step<T> = Step(result: Result<T>, after: BitInputStream)

  /**
    The cursor's invariant: at most 8 pending bits, a pending byte in
    [0, 255] whenever any are pending, and a well-formed stream.
  */
  predicate Valid(s: BitInputStream)
  {
    && 0 <= s.bitsCountLeft <= 8
    && (s.bitsCountLeft > 0 ==> s.bitsLeft <= 0xFF)
    && ValidSource(s.source)
  }

  /** The pending byte, once its bits matter. */
  function PendingByte(s: BitInputStream): bv8
    requires Valid(s)
  {
    if s.bitsCountLeft > 0 then s.bitsLeft as bv8 else 0
  }

  /** The unread bits of the pending byte, most significant first. */
  function PendingBits(s: BitInputStream): (r: seq<Bit>)
    requires Valid(s)
    ensures |r| == s.bitsCountLeft
  {
    var n := s.bitsCountLeft;
    var b := PendingByte(s);
    seq(n, i requires 0 <= i < n => ByteBit(b, n - 1 - i))
  }

  /** The abstract bit stream still to be read. */
  function Remaining(s: BitInputStream): (r: seq<Bit>)
    requires Valid(s)
    ensures |r| == s.bitsCountLeft + 8 * |Rest(s.source)|
  {
    PendingBits(s) + SourceBits(Rest(s.source))
  }

  /** The Java `int`s 0 and 1 that `readBitsToArray` stores for the bits s. */
  function BitInts(s: seq<Bit>): (r: seq<bv32>)
    ensures |r| == |s|
    ensures forall i :: 0 <= i < |s| ==> r[i] == BitValue(s[i])
  {
    seq(|s|, i requires 0 <= i < |s| => BitValue(s[i]))
  }

  /** Taking k bits is taking the first and then k - 1 of the rest. */
  lemma TakeFirst(rem: seq<Bit>, k: nat)
    requires 1 <= k <= |rem|
    ensures rem[1..][k - 1..] == rem[k..]
    ensures rem[..k][1..] == rem[1..][..k - 1]
  {
  }

  /** The same, for the `int`s that `readBitsToArray` stores. */
  lemma TakeFirstInts(rem: seq<Bit>, k: nat)
    requires 1 <= k <= |rem|
    ensures BitInts(rem[..k]) == [BitValue(rem[0])] + BitInts(rem[1..][..k - 1])
  {
  }

  /** Appending the first bit and then k - 1 more appends the first k. */
  lemma PrependFirst(z: seq<Bit>, rem: seq<Bit>, k: nat)
    requires 1 <= k <= |rem|
    ensures z + [rem[0]] + rem[1..][..k - 1] == z + rem[..k]
  {
    assert rem[..k] == [rem[0]] + rem[1..][..k - 1];
  }

  /** Storing x at index i and keeping i + 1 entries extends the first i by x. */
  lemma StoreThenCut(res: seq<bv32>, i: nat, x: bv32, tail: seq<bv32>)
    requires i < |res|
    ensures res[i := x][..i + 1] + tail == res[..i] + ([x] + tail)
  {
    assert res[i := x][..i + 1] == res[..i] + [x];
  }

  /** Clears the pending byte. */
  function ClearBuffer(s: BitInputStream): (r: BitInputStream)
    requires ValidSource(s.source)
    ensures Valid(r) && r.source == s.source && r.bitsCountLeft == 0
    ensures Remaining(r) == SourceBits(Rest(s.source))
  {
    BitInputStream(0, 0, s.source)
  }

  /** The constructor: a cursor over src with nothing pending. */
  function New(src: Source): (s: BitInputStream)
    requires ValidSource(src)
    ensures Valid(s) && s.source == src
    ensures Remaining(s) == SourceBits(Rest(src))
  {
    ClearBuffer(BitInputStream(0, 0, src))
  }

  /**
    `mask(bitNumber)`: `(byte) (1 << bitNumber)` widened back to an `int`.
    Positions 0 to 6 give that single bit; 7 gives -128, sign-extended;
    8 is accepted and gives 0; anything else throws.
  */
  function Mask(bitNumber: int): (r: Result<bv32>)
    ensures r.Ok? <==> 0 <= bitNumber <= 8
    ensures r.Err? ==> r.error == IllegalArgument
    ensures 0 <= bitNumber < 7 ==>
      forall j :: 0 <= j < 32 ==> BitOf(r.value, j) == (if j == bitNumber then 1 else 0)
    ensures bitNumber == 7 ==>
      forall j :: 0 <= j < 32 ==> BitOf(r.value, j) == (if j < 7 then 0 else 1)
    ensures bitNumber == 8 ==> r.value == 0
  {
    if bitNumber < 0 || bitNumber > 8 then Err(IllegalArgument)
    else Ok(ByteCast((1 as bv32) << (bitNumber as bv8)))
  }

  /**
    `(bitsLeft & mask(k)) >> k` with bitsLeft a byte value in [0, 255] and
    k in [0, 7] is bit k of that byte, (b / 2^k) mod 2, as the `int` 0 or 1.
  */
  lemma MaskSelectsBit(x: bv32, k: nat)
    requires x <= 0xFF && k < 8
    ensures Mask(k).Ok?
    ensures Asr(x & Mask(k).value, k) == BitValue(ByteBit(x as bv8, k))
    ensures ByteBit(x as bv8, k) == (x as bv8 as int / Pow2(k)) % 2
  {
    MaskShift(x, k);
    assert (x as bv8) as bv32 == x;
    ByteBitOf(x as bv8, k);
  }

  /** The Java expression on a value below 256 shifts bit k down to position 0. */
  lemma MaskShift(x: bv32, k: nat)
    requires x <= 0xFF && k < 8
    ensures Mask(k).Ok?
    ensures Asr(x & Mask(k).value, k) == (x >> (k as bv8)) & 1
  {
  }

  /** The decrement-mask-shift step of `readBit`: hands out the top pending bit. */
  function NextBit(s: BitInputStream): (r: (bv32, BitInputStream))
    requires Valid(s) && s.bitsCountLeft > 0
    ensures Valid(r.1) && r.1.source == s.source && r.1.bitsCountLeft == s.bitsCountLeft - 1
    ensures r.0 == BitValue(Remaining(s)[0])
    ensures Remaining(r.1) == Remaining(s)[1..]
  {
    var k := s.bitsCountLeft - 1;
    MaskSelectsBit(s.bitsLeft, k);
    PendingStep(s);
    (Asr(s.bitsLeft & Mask(k).value, k), s.(bitsCountLeft := k))
  }

  /** Handing out the top pending bit takes the head of the abstract stream. */
  lemma PendingStep(s: BitInputStream)
    requires Valid(s) && s.bitsCountLeft > 0
    ensures Valid(s.(bitsCountLeft := s.bitsCountLeft - 1))
    ensures Remaining(s)[0] == ByteBit(s.bitsLeft as bv8, s.bitsCountLeft - 1)
    ensures Remaining(s.(bitsCountLeft := s.bitsCountLeft - 1)) == Remaining(s)[1..]
  {
    PendingShift(s);
    ConcatTail(PendingBits(s), SourceBits(Rest(s.source)));
  }

  lemma PendingShift(s: BitInputStream)
    requires Valid(s) && s.bitsCountLeft > 0
    ensures Valid(s.(bitsCountLeft := s.bitsCountLeft - 1))
    ensures PendingBits(s)[0] == ByteBit(PendingByte(s), s.bitsCountLeft - 1)
    ensures PendingBits(s.(bitsCountLeft := s.bitsCountLeft - 1)) == PendingBits(s)[1..]
  {
    var n := s.bitsCountLeft;
    var s' := s.(bitsCountLeft := n - 1);
    var b := PendingByte(s);
    var p := PendingBits(s);
    var p' := PendingBits(s');
    assert |p'| == |p[1..]|;
    forall i | 0 <= i < n - 1
      ensures p'[i] == p[1..][i]
    {
      assert p'[i] == ByteBit(b, n - 2 - i);
      assert p[i + 1] == ByteBit(b, n - 1 - (i + 1));
    }
  }

  lemma ConcatTail<T>(p: seq<T>, q: seq<T>)
    requires p != []
    ensures (p + q)[0] == p[0]
    ensures (p + q)[1..] == p[1..] + q
  {
  }

  /**
    `readBit()`: with nothing pending, loads the next byte; at the end of
    the stream returns -1 with nothing pending. Otherwise returns the next
    bit of the stream as 0 or 1.
  */
  function ReadBit(s: BitInputStream): (r: (bv32, BitInputStream))
    requires Valid(s)
    ensures Valid(r.1) && r.1.source.data == s.source.data && r.1.source.mark == s.source.mark
      && r.1.source.markSupported == s.source.markSupported
    ensures Remaining(s) == [] ==>
      r.0 == MinusOne && r.1.bitsCountLeft == 0 && r.1.source == s.source && Remaining(r.1) == []
    ensures Remaining(s) != [] ==>
      r.0 == BitValue(Remaining(s)[0]) && Remaining(r.1) == Remaining(s)[1..]
    ensures Remaining(s) != [] ==>
      r.1.bitsCountLeft == (if s.bitsCountLeft == 0 then 7 else s.bitsCountLeft - 1)
    ensures IsNegative(r.0) <==> Remaining(s) == []
  {
    if s.bitsCountLeft == 0 then
      var (b, src) := ReadByte(s.source);
      if IsNegative(b) then
        (MinusOne, BitInputStream(b, 0, src))
      else
        LoadByte(s, b, src);
        NextBit(BitInputStream(b, 8, src))
    else
      NextBit(s)
  }

  /** Loading the next byte as the pending one leaves the abstract stream as it was. */
  lemma LoadByte(s: BitInputStream, b: bv32, src: Source)
    requires Valid(s) && s.bitsCountLeft == 0 && ValidSource(src)
    requires Rest(s.source) != [] && b == Rest(s.source)[0] as bv32 && Rest(src) == Rest(s.source)[1..]
    ensures Valid(BitInputStream(b, 8, src))
    ensures Remaining(BitInputStream(b, 8, src)) == Remaining(s)
  {
    var loaded := BitInputStream(b, 8, src);
    var byte := Rest(s.source)[0];
    assert PendingByte(loaded) == byte;
    assert PendingBits(loaded) == ByteBits(byte);
    assert Remaining(s) == SourceBits(Rest(s.source));
  }

  /**
    The loop of `readBits` from iteration i on: each bit read is shifted
    into `res` (`res << 1 | bit`, wrapping as a Java `int`) until nbits
    bits are in or the stream ends. The register then holds the last 32
    of its old bits followed by the bits read.
  */
  function Accumulate(s: BitInputStream, res: bv32, i: int, nbits: int): (r: (bv32, BitInputStream))
    requires Valid(s) && 1 <= i <= nbits
    decreases nbits - i
    ensures Valid(r.1) && r.1.source.data == s.source.data && r.1.source.mark == s.source.mark
      && r.1.source.markSupported == s.source.markSupported
    ensures s.bitsCountLeft < 8 ==> r.1.bitsCountLeft < 8
    ensures
      var k := Min(nbits - i, |Remaining(s)|);
      && Remaining(r.1) == Remaining(s)[k..]
      && Pattern(r.0) == Last32(Pattern(res) + Remaining(s)[..k])
  {
    if i >= nbits then
      NothingShifted(Pattern(res), Remaining(s));
      (res, s)
    else
      var (bit, s1) := ReadBit(s);
      if IsNegative(bit) then
        NothingShifted(Pattern(res), Remaining(s));
        (res, s1)
      else
        var r := Accumulate(s1, (res << 1) | bit, i + 1, nbits);
        AccumulateStep(Remaining(s), Remaining(s1), Remaining(r.1), res, bit, r.0, i, nbits);
        r
  }

  /** Shifting no bits into a 32-bit register leaves it as it was. */
  lemma NothingShifted(p: seq<Bit>, rem: seq<Bit>)
    requires |p| == 32
    ensures Last32(p + rem[..0]) == p && rem[0..] == rem
  {
    assert p + rem[..0] == p;
  }

  /**
    One step of `Accumulate`, on the abstract stream: rem before the read,
    rem1 after it, after at the end of the loop; res the register before
    the bit is shifted in, v the register at the end of the loop.
  */
  lemma AccumulateStep(rem: seq<Bit>, rem1: seq<Bit>, after: seq<Bit>, res: bv32, bit: bv32, v: bv32, i: int, nbits: int)
    requires i < nbits && rem != [] && rem1 == rem[1..] && bit == BitValue(rem[0])
    requires
      var k := Min(nbits - (i + 1), |rem1|);
      && after == rem1[k..]
      && Pattern(v) == Last32(Pattern((res << 1) | bit) + rem1[..k])
    ensures
      var k := Min(nbits - i, |rem|);
      && after == rem[k..]
      && Pattern(v) == Last32(Pattern(res) + rem[..k])
  {
    var k := Min(nbits - i, |rem|);
    assert Min(nbits - (i + 1), |rem1|) == k - 1;
    TakeFirst(rem, k);
    PatternShiftOr(res, rem[0]);
    ShiftInFirst(Pattern(res), rem, k);
  }

  /** Shifting the first bit into a 32-bit register and then k - 1 more shifts in the first k. */
  lemma ShiftInFirst(p: seq<Bit>, rem: seq<Bit>, k: nat)
    requires |p| == 32 && 1 <= k <= |rem|
    ensures Last32(p[1..] + [rem[0]] + rem[1..][..k - 1]) == Last32(p + rem[..k])
  {
    assert p[1..] + [rem[0]] + rem[1..][..k - 1] == (p + rem[..k])[1..];
    Last32Drop(p + rem[..k]);
  }

  /**
    `readBits(nbits)`: throws for nbits outside [1, 32] before reading
    anything; returns -1 when the first bit is already past the end;
    otherwise reads up to nbits bits and returns an `int` holding the last
    32 of them (zero-filled above), so the number they denote modulo 2^32.
  */
  function ReadBits(s: BitInputStream, nbits: int): (r: Step<bv32>)
    requires Valid(s)
    ensures Valid(r.after) && r.after.source.data == s.source.data && r.after.source.mark == s.source.mark
      && r.after.source.markSupported == s.source.markSupported
    ensures r.result.Ok? <==> 1 <= nbits <= 32
    ensures r.result.Err? ==> r.result.error == IllegalArgument && r.after == s
    ensures r.result.Ok? ==> r.after.bitsCountLeft < 8
    ensures r.result.Ok? ==>
      var k := Min(nbits, |Remaining(s)|);
      && Remaining(r.after) == Remaining(s)[k..]
      && (k == 0 ==> r.result.value == MinusOne)
      && (k > 0 ==> Pattern(r.result.value) == Last32(Zeros(31) + Remaining(s)[..k]))
      && (k > 0 ==> Unsigned(r.result.value) == Value(Remaining(s)[..k]) % Modulus)
  {
    if nbits <= 0 || nbits > 32 then
      Step(Err(IllegalArgument), s)
    else
      var (bit, s1) := ReadBit(s);
      if IsNegative(bit) then
        Step(Ok(MinusOne), s1)
      else
        var rem := Remaining(s);
        var (res, s2) := Accumulate(s1, bit, 1, nbits);
        PatternOfBit(rem[0]);
        ReadBitsValue(rem, Remaining(s1), Remaining(s2), nbits, Pattern(res));
        Step(Ok(res), s2)
  }

  /**
    Up to 31 bits fit below the sign bit: `readBits` then returns the
    non-negative number the bits denote, which is never the end marker -1.
  */
  lemma ReadBitsSmall(s: BitInputStream, nbits: int)
    requires Valid(s) && 1 <= nbits <= 31 && Remaining(s) != []
    ensures
      var r := ReadBits(s, nbits);
      var k := Min(nbits, |Remaining(s)|);
      && r.result.Ok?
      && Signed(r.result.value) == Value(Remaining(s)[..k])
      && 0 <= Signed(r.result.value) < Pow2(nbits)
      && r.result.value != MinusOne
  {
    var r := ReadBits(s, nbits);
    var k := Min(nbits, |Remaining(s)|);
    ValueOfRegister(Remaining(s)[..k]);
    Pow2Monotone(k, nbits);
    SmallValueSigned(r.result.value, Value(Remaining(s)[..k]), nbits);
  }

  /**
    Ties the register after the loop to the bits read: rem before the first
    read, rem1 after it, after at the end; v the register at the end.
  */
  lemma ReadBitsValue(rem: seq<Bit>, rem1: seq<Bit>, after: seq<Bit>, nbits: int, v: seq<Bit>)
    requires 1 <= nbits <= 32 && rem != [] && rem1 == rem[1..]
    requires
      var k := Min(nbits - 1, |rem1|);
      && after == rem1[k..]
      && v == Last32(Zeros(31) + [rem[0]] + rem1[..k])
    ensures
      var k := Min(nbits, |rem|);
      && after == rem[k..]
      && v == Last32(Zeros(31) + rem[..k])
      && Value(v) == Value(rem[..k]) % Modulus
      && Value(rem[..k]) < Pow2(nbits)
  {
    var k := Min(nbits, |rem|);
    assert Min(nbits - 1, |rem1|) == k - 1;
    TakeFirst(rem, k);
    PrependFirst(Zeros(31), rem, k);
    ValueOfRegister(rem[..k]);
    Pow2Monotone(k, nbits);
  }

  /** A value of at most 31 bits is stored without touching the sign bit. */
  lemma SmallValueSigned(res: bv32, v: nat, nbits: int)
    requires 1 <= nbits <= 31 && v < Pow2(nbits)
    requires Unsigned(res) == v % Modulus
    ensures Signed(res) == v
  {
    Pow2Monotone(nbits, 31);
    Pow2Is32();
    assert Pow2(32) == 2 * Pow2(31);
    DivUnique(v, Modulus, 0, v);
    SignBitWeight(res);
  }

  /**
    The loop of `readBitsToArray` from iteration i on: res is the array of
    nbits entries, filled up to i; at the end of the stream it is cut to
    the i entries filled (`Arrays.copyOf(res, i)`).
  */
  function Fill(s: BitInputStream, res: seq<bv32>, i: int, nbits: int): (r: (seq<bv32>, BitInputStream))
    requires Valid(s) && 1 <= i <= nbits && |res| == nbits
    decreases nbits - i
    ensures Valid(r.1) && r.1.source.data == s.source.data && r.1.source.mark == s.source.mark
      && r.1.source.markSupported == s.source.markSupported
    ensures s.bitsCountLeft < 8 ==> r.1.bitsCountLeft < 8
    ensures
      var k := Min(nbits - i, |Remaining(s)|);
      && Remaining(r.1) == Remaining(s)[k..]
      && r.0 == res[..i] + BitInts(Remaining(s)[..k])
  {
    if i >= nbits then
      TakeAll(res);
      EndOfStream(res, Remaining(s));
      (res, s)
    else
      var (bit, s1) := ReadBit(s);
      if IsNegative(bit) then
        EndOfStream(res[..i], Remaining(s));
        (res[..i], s1)
      else
        var r := Fill(s1, res[i := bit], i + 1, nbits);
        FillStep(Remaining(s), Remaining(s1), Remaining(r.1), res, i, bit, r.0, nbits);
        r
  }

  lemma TakeAll<T>(x: seq<T>)
    ensures x[..|x|] == x
  {
  }

  /** Reading no bits adds nothing. */
  lemma EndOfStream(done: seq<bv32>, rem: seq<Bit>)
    ensures done + BitInts(rem[..0]) == done && rem[0..] == rem
  {
    assert rem[..0] == [];
  }

  /** One step of `Fill`, on the abstract stream, as for `AccumulateStep`. */
  lemma FillStep(rem: seq<Bit>, rem1: seq<Bit>, after: seq<Bit>, res: seq<bv32>, i: nat, bit: bv32, arr: seq<bv32>, nbits: int)
    requires i < nbits == |res| && rem != [] && bit == BitValue(rem[0]) && rem1 == rem[1..]
    requires
      var k := Min(nbits - (i + 1), |rem1|);
      && after == rem1[k..]
      && arr == res[i := bit][..i + 1] + BitInts(rem1[..k])
    ensures
      var k := Min(nbits - i, |rem|);
      && after == rem[k..]
      && arr == res[..i] + BitInts(rem[..k])
  {
    var k := Min(nbits - i, |rem|);
    assert Min(nbits - (i + 1), |rem1|) == k - 1;
    TakeFirst(rem, k);
    TakeFirstInts(rem, k);
    StoreThenCut(res, i, bit, BitInts(rem1[..k - 1]));
  }

  /** The first read of `readBitsToArray`, on the abstract stream, as for `ReadBitsValue`. */
  lemma FirstStep(rem: seq<Bit>, rem1: seq<Bit>, after: seq<Bit>, res: seq<bv32>, arr: seq<bv32>, nbits: int)
    requires 1 <= nbits == |res| && rem != [] && rem1 == rem[1..] && res[0] == BitValue(rem[0])
    requires
      var k := Min(nbits - 1, |rem1|);
      && after == rem1[k..]
      && arr == res[..1] + BitInts(rem1[..k])
    ensures
      var k := Min(nbits, |rem|);
      && after == rem[k..]
      && arr == BitInts(rem[..k])
  {
    var k := Min(nbits, |rem|);
    assert Min(nbits - 1, |rem1|) == k - 1;
    assert res[..1] == [BitValue(rem[0])];
    TakeFirst(rem, k);
    TakeFirstInts(rem, k);
  }

  /**
    `readBitsToArray(nbits)`: throws for nbits <= 0 before reading
    anything; otherwise returns the next min(nbits, available) bits of the
    stream, one 0-or-1 entry each, which is empty at the end of the stream.
  */
  function ReadBitsToArray(s: BitInputStream, nbits: int): (r: Step<seq<bv32>>)
    requires Valid(s)
    ensures Valid(r.after) && r.after.source.data == s.source.data && r.after.source.mark == s.source.mark
      && r.after.source.markSupported == s.source.markSupported
    ensures r.result.Ok? <==> nbits >= 1
    ensures r.result.Err? ==> r.result.error == IllegalArgument && r.after == s
    ensures r.result.Ok? ==> r.after.bitsCountLeft < 8
    ensures r.result.Ok? ==>
      var k := Min(nbits, |Remaining(s)|);
      && r.result.value == BitInts(Remaining(s)[..k])
      && Remaining(r.after) == Remaining(s)[k..]
  {
    if nbits <= 0 then
      Step(Err(IllegalArgument), s)
    else
      var (bit, s1) := ReadBit(s);
      if IsNegative(bit) then
        Step(Ok([]), s1)
      else
        var res := seq(nbits, _ => 0 as bv32)[0 := bit];
        var (arr, s2) := Fill(s1, res, 1, nbits);
        FirstStep(Remaining(s), Remaining(s1), Remaining(s2), res, arr, nbits);
        Step(Ok(arr), s2)
  }

  /** With the pending bits dropped, what is left is the stream's own bits. */
  lemma DropPending(s: BitInputStream)
    requires Valid(s)
    ensures Remaining(s)[s.bitsCountLeft..] == SourceBits(Rest(s.source))
  {
  }

  /**
    `read()`: drops the pending bits, then returns the stream's next byte,
    which is the number the next eight bits of the abstract stream denote,
    or -1 when nothing follows the dropped bits.
  */
  function Read(s: BitInputStream): (r: (bv32, BitInputStream))
    requires Valid(s)
    ensures Valid(r.1) && r.1.bitsCountLeft == 0
    ensures r.1.source.data == s.source.data && r.1.source.mark == s.source.mark
      && r.1.source.markSupported == s.source.markSupported
    ensures |Remaining(s)| == s.bitsCountLeft ==> r.0 == MinusOne && Remaining(r.1) == []
    ensures |Remaining(s)| > s.bitsCountLeft ==>
      var p := s.bitsCountLeft;
      && Signed(r.0) == Value(Remaining(s)[p..p + 8])
      && Remaining(r.1) == Remaining(s)[p + 8..]
  {
    var c := ClearBuffer(s);
    var (b, src) := ReadByte(c.source);
    NextByte(s);
    (b, BitInputStream(c.bitsLeft, c.bitsCountLeft, src))
  }

  /** The byte the stream delivers next, seen on the abstract stream. */
  lemma NextByte(s: BitInputStream)
    requires Valid(s)
    ensures Rest(s.source) != [] ==>
      var p := s.bitsCountLeft;
      && Signed(ReadByte(s.source).0) == Value(Remaining(s)[p..p + 8])
      && SourceBits(Rest(ReadByte(s.source).1)) == Remaining(s)[p + 8..]
  {
    var d := Rest(s.source);
    if d != [] {
      DropPending(s);
      CopiedPrefix(Remaining(s), s.bitsCountLeft, d, 1);
      SourceBitsOne(d[0]);
      assert d[..1] == [d[0]];
      ByteSigned(d[0]);
    }
  }

  /**
    The whole bytes an operation handed over are the ones whose bits follow
    the dropped pending bits, and after leaves the bits past them.
  */
  predicate Delivered(s: BitInputStream, bytes: seq<bv8>, after: BitInputStream)
    requires Valid(s) && Valid(after)
  {
    var p := s.bitsCountLeft;
    && p + 8 * |bytes| <= |Remaining(s)|
    && SourceBits(bytes) == Remaining(s)[p..p + 8 * |bytes|]
    && Remaining(after) == Remaining(s)[p + 8 * |bytes|..]
  }

  /**
    `read(b, off, len)`: drops the pending bits, then lets the stream copy
    up to len bytes into buf at off (`chunk` is how many it chooses to
    deliver). The bytes copied are the ones whose bits followed the
    dropped bits. The pending bits are dropped even when the range is
    rejected.
  */
  function ReadBytes(s: BitInputStream, buf: seq<bv8>, off: int, len: int, chunk: nat): (r: Step<(int, seq<bv8>)>)
    requires Valid(s)
    ensures Valid(r.after) && r.after.bitsCountLeft == 0
    ensures r.after.source.data == s.source.data && r.after.source.mark == s.source.mark
      && r.after.source.markSupported == s.source.markSupported
    ensures r.result.Err? <==> off < 0 || len < 0 || len > |buf| - off
    ensures r.result.Err? ==> r.result.error == IndexOutOfBounds
    ensures r.result.Ok? && r.result.value.0 <= 0 ==> r.result.value.1 == buf
    ensures r.result.Ok? ==> (r.result.value.0 == 0 <==> len == 0)
    ensures r.result.Ok? ==> -1 <= r.result.value.0 <= len
    ensures r.result.Ok? && r.result.value.0 > 0 ==>
      && r.result.value.0 <= len && |r.result.value.1| == |buf|
      && r.result.value.1[..off] == buf[..off]
      && r.result.value.1[off + r.result.value.0..] == buf[off + r.result.value.0..]
    ensures r.result.Ok? ==> (r.result.value.0 == -1 <==> len > 0 && |Remaining(s)| == s.bitsCountLeft)
    ensures r.result.Err? || r.result.value.0 <= 0 ==> Remaining(r.after) == Remaining(s)[s.bitsCountLeft..]
    ensures r.result.Ok? && r.result.value.0 > 0 ==>
      Delivered(s, r.result.value.1[off..off + r.result.value.0], r.after)
  {
    var c := ClearBuffer(s);
    var rs := ReadInto(c.source, buf, off, len, chunk);
    var r := Step(rs.0, BitInputStream(c.bitsLeft, c.bitsCountLeft, rs.1));
    CopiedBytesRange(s, buf, off, len, chunk, r);
    CopiedBytes(s, buf, off, len, chunk, r);
    r
  }

  /** The byte-level half of `ReadBytes`: what the stream's own read promises. */
  lemma CopiedBytesRange(s: BitInputStream, buf: seq<bv8>, off: int, len: int, chunk: nat, r: Step<(int, seq<bv8>)>)
    requires Valid(s)
    requires
      var rs := ReadInto(ClearBuffer(s).source, buf, off, len, chunk);
      r == Step(rs.0, BitInputStream(ClearBuffer(s).bitsLeft, ClearBuffer(s).bitsCountLeft, rs.1))
    ensures Valid(r.after) && r.after.bitsCountLeft == 0
    ensures r.after.source.data == s.source.data && r.after.source.mark == s.source.mark
      && r.after.source.markSupported == s.source.markSupported
    ensures r.result.Err? <==> off < 0 || len < 0 || len > |buf| - off
    ensures r.result.Err? ==> r.result.error == IndexOutOfBounds
    ensures r.result.Ok? && r.result.value.0 <= 0 ==> r.result.value.1 == buf
    ensures r.result.Ok? ==> (r.result.value.0 == 0 <==> len == 0)
    ensures r.result.Ok? ==> -1 <= r.result.value.0 <= len
    ensures r.result.Ok? && r.result.value.0 > 0 ==>
      && r.result.value.0 <= len && |r.result.value.1| == |buf|
      && r.result.value.1[..off] == buf[..off]
      && r.result.value.1[off + r.result.value.0..] == buf[off + r.result.value.0..]
  {
  }

  /** The abstract half of `ReadBytes`: the bytes copied, seen on the bit stream. */
  lemma CopiedBytes(s: BitInputStream, buf: seq<bv8>, off: int, len: int, chunk: nat, r: Step<(int, seq<bv8>)>)
    requires Valid(s)
    requires
      var rs := ReadInto(ClearBuffer(s).source, buf, off, len, chunk);
      r == Step(rs.0, BitInputStream(ClearBuffer(s).bitsLeft, ClearBuffer(s).bitsCountLeft, rs.1))
    ensures Valid(r.after)
    ensures r.result.Ok? ==> (r.result.value.0 == -1 <==> len > 0 && |Remaining(s)| == s.bitsCountLeft)
    ensures r.result.Err? || r.result.value.0 <= 0 ==> Remaining(r.after) == Remaining(s)[s.bitsCountLeft..]
    ensures r.result.Ok? && r.result.value.0 > 0 ==>
      Delivered(s, r.result.value.1[off..off + r.result.value.0], r.after)
  {
    DropPending(s);
    assert Remaining(r.after) == SourceBits(Rest(r.after.source));
    if r.result.Ok? && r.result.value.0 > 0 {
      CopiedPrefix(Remaining(s), s.bitsCountLeft, Rest(s.source), r.result.value.0);
    }
  }

  /** The first m bytes of d, and the rest, on a stream rem whose bits from p on are d's. */
  lemma CopiedPrefix(rem: seq<Bit>, p: nat, d: seq<bv8>, m: nat)
    requires p <= |rem| && rem[p..] == SourceBits(d) && m <= |d|
    ensures p + 8 * m <= |rem|
    ensures SourceBits(d[..m]) == rem[p..p + 8 * m]
    ensures SourceBits(d[m..]) == rem[p + 8 * m..]
  {
    SourceBitsDrop(d, m);
    SourceBitsTake(d, m);
    assert rem[p..p + 8 * m] == rem[p..][..8 * m];
    assert rem[p + 8 * m..] == rem[p..][8 * m..];
  }

  /**
    `skip(n)`: drops the pending bits, then the stream passes over `actual`
    bytes, at most n and none for n <= 0, and reports that count. Skipping
    past the end leaves nothing to read.
  */
  function Skip(s: BitInputStream, n: int, actual: nat): (r: (int, BitInputStream))
    requires Valid(s) && actual <= (if n > 0 then n else 0)
    ensures Valid(r.1) && r.1.bitsCountLeft == 0
    ensures r.1.source.data == s.source.data && r.1.source.mark == s.source.mark
      && r.1.source.markSupported == s.source.markSupported
    ensures r.0 == actual
    ensures Remaining(r.1) == Remaining(s)[Min(s.bitsCountLeft + 8 * actual, |Remaining(s)|)..]
  {
    var c := ClearBuffer(s);
    var (count, src) := SkipBytes(c.source, n, actual);
    SkippedBytes(s, n, actual);
    (count, BitInputStream(c.bitsLeft, c.bitsCountLeft, src))
  }

  /** The bytes a skip passes over, seen on the abstract stream. */
  lemma SkippedBytes(s: BitInputStream, n: int, actual: nat)
    requires Valid(s) && actual <= (if n > 0 then n else 0)
    ensures
      var src := SkipBytes(s.source, n, actual).1;
      SourceBits(Rest(src)) == Remaining(s)[Min(s.bitsCountLeft + 8 * actual, |Remaining(s)|)..]
  {
    var d := Rest(s.source);
    var j := Min(actual, |d|);
    DropPending(s);
    SourceBitsDrop(d, j);
    assert Remaining(s)[s.bitsCountLeft + 8 * j..] == Remaining(s)[s.bitsCountLeft..][8 * j..];
  }

  /**
    `mark(readlimit)`, inherited: the stream remembers its position (the
    byte after the pending one); the pending bits stay.
  */
  function Mark(s: BitInputStream): (r: BitInputStream)
    requires Valid(s)
    ensures Valid(r) && r.bitsLeft == s.bitsLeft && r.bitsCountLeft == s.bitsCountLeft
    ensures r.source.data == s.source.data && Remaining(r) == Remaining(s)
    ensures r.source.markSupported == s.source.markSupported
    ensures s.source.markSupported ==> r.source.mark == Some(s.source.pos)
    ensures !s.source.markSupported ==> r == s
  {
    s.(source := MarkPosition(s.source))
  }

  /**
    `reset()`: drops the pending bits, then returns the stream to its mark,
    after which the abstract stream is the bits of every byte from the
    mark on; a stream with no mark fails with an I/O error, the pending
    bits dropped all the same.
  */
  function Reset(s: BitInputStream): (r: Step<()>)
    requires Valid(s)
    ensures Valid(r.after) && r.after.bitsCountLeft == 0
    ensures r.after.source.data == s.source.data && r.after.source.mark == s.source.mark
      && r.after.source.markSupported == s.source.markSupported
    ensures r.result.Err? <==> s.source.mark.None?
    ensures r.result.Err? ==> r.result.error == IOFailure && Remaining(r.after) == Remaining(s)[s.bitsCountLeft..]
    ensures r.result.Ok? ==> Remaining(r.after) == SourceBits(s.source.data[s.source.mark.value..])
  {
    var c := ClearBuffer(s);
    var (res, src) := ResetToMark(c.source);
    DropPending(s);
    Step(res, BitInputStream(c.bitsLeft, c.bitsCountLeft, src))
  }
}
