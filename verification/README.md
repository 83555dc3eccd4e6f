# BitInputStream, modelled in Dafny

`com.excilys.ebi.io.BitInputStream` is a `FilterInputStream` that hands
out the bits of the wrapped byte stream one at a time, most significant bit
first. It keeps one pending byte (`bitsLeft`) and the number of its bits not
yet handed out (`bitsCountLeft`). `readBit` reloads that byte when it is
used up. `readBits(n)` packs the next n bits into an `int`.
`readBitsToArray(n)` returns them as an array of 0s and 1s. All four
whole-byte operations first clear the pending byte, so the unread part of a
partly read byte is lost. These are `read()`, `read(b, off, len)`, `skip`
and `reset`.

The model is a set of pure functions over immutable values:

- `ByteSource` — the wrapped stream: its bytes, read position, mark and
  whether it supports marks.
- `BitStream` — the cursor and its operations: `New` (the constructor),
  `ClearBuffer`, `Mask`, `ReadBit`, `ReadBits`, `ReadBitsToArray`, `Read`,
  `ReadBytes`, `Skip`, `Mark` and `Reset`. Each returns its result, or the
  exception Java throws, together with the cursor it leaves behind.
- `JavaInt` — Java `int` semantics: `bv32` values with their signed and
  unsigned readings, the `(byte)` cast and the arithmetic shift `>>`.
- `Bits`, `BitString`, `Arith` — bytes as bit strings, and the arithmetic
  that relates them to numbers.
- `Properties` — facts that span several calls, checked against reference
  definitions, and the test suite's scenarios on the four-byte file "test".

Every contract is stated against one abstract value, `Remaining(s)`. It is
the unread low bits of the pending byte, followed by the eight bits of
every byte the wrapped stream has not yet delivered.

The cursor's invariant is `BitStream.Valid`, from the fields and their
updates at BitInputStream.java lines 29-35 and 194-213:

- `bitsCountLeft` lies in [0, 8].
- `bitsLeft` lies in 0..255 whenever bits are pending.
- The wrapped stream's position and mark lie within its data.

Every operation requires it and ensures it of the cursor it returns. Every
operation also keeps the wrapped stream's data and whether it supports
marks; only `mark` changes the mark.

## Model

| member | source | states |
|---|---|---|
| `BitStream.New` | src/main/java/com/excilys/ebi/io/BitInputStream.java:32-35 | A new cursor has nothing pending: its bit stream is exactly the eight bits of every unread byte of the wrapped stream. |
| `BitStream.ClearBuffer` | src/main/java/com/excilys/ebi/io/BitInputStream.java:210-213 | Clearing drops every pending bit and leaves the wrapped stream untouched: what remains is the unread bytes' bits. |
| `BitStream.Mask` | src/main/java/com/excilys/ebi/io/BitInputStream.java:229-234 | `mask` succeeds exactly for 0..8; otherwise it throws `IllegalArgumentException`. For 0..6 exactly bit k is set. For 7 bits 7..31 are set, the sign-extended `(byte) 0x80`. For 8 the value is 0. |
| `BitStream.MaskSelectsBit` | src/main/java/com/excilys/ebi/io/BitInputStream.java:204 | For a pending byte and k < 8, `(bitsLeft & mask(k)) >> k` is 1 or 0 as bit k of the byte is set or clear, also for k = 7 where the mask is negative. |
| `BitStream.NextBit` | src/main/java/com/excilys/ebi/io/BitInputStream.java:204 | With bits pending, `(bitsLeft & mask(--bitsCountLeft)) >> bitsCountLeft` returns the top pending bit as the `int` 0/1 and leaves one bit fewer pending; the wrapped stream is untouched. |
| `BitStream.ReadBit` | src/main/java/com/excilys/ebi/io/BitInputStream.java:193-205 | `readBit` returns the first bit of the stream as 0/1 and moves past it. One bit fewer stays pending, or 7 after a reload. At the end it returns -1, leaves nothing pending and does not move. The result is negative exactly at the end. |
| `BitStream.Accumulate` | src/main/java/com/excilys/ebi/io/BitInputStream.java:126-134 | The shift-or loop leaves in the 32-bit register the last 32 bits of the old register followed by up to nbits - i further bits. It stops early at the end of the stream, moves past exactly the bits it took, and leaves fewer than 8 bits pending when fewer than 8 were pending on entry, as after any `readBit`. The wrapped stream keeps its data, mark and mark support. |
| `BitStream.ReadBits` | src/main/java/com/excilys/ebi/io/BitInputStream.java:115-136 | `readBits(n)` throws `IllegalArgumentException` and changes nothing unless 1 <= n <= 32. Otherwise it consumes k = min(n, available) bits. It returns -1 when k = 0; otherwise its unsigned value is those k bits' value modulo 2^32, and its bit pattern is the last 32 of those bits, padded with zeros on the left. On success fewer than 8 bits stay pending. The wrapped stream keeps its data, mark and mark support. |
| `BitStream.ReadBitsSmall` | src/main/java/com/excilys/ebi/io/BitInputStream.java:115-136 | For 1 <= n <= 31 on a non-empty stream, `readBits(n)` returns as an `int` exactly the value of the next min(n, available) bits. The value lies in [0, 2^n) and is never -1. |
| `BitStream.Fill` | src/main/java/com/excilys/ebi/io/BitInputStream.java:165-175 | The array loop keeps the first i entries and appends one 0/1 per bit read, stopping at the end of the stream; it moves past exactly the bits stored and leaves fewer than 8 bits pending when fewer than 8 were pending on entry, as after any `readBit`. The wrapped stream keeps its data, mark and mark support. |
| `BitStream.ReadBitsToArray` | src/main/java/com/excilys/ebi/io/BitInputStream.java:154-176 | `readBitsToArray(n)` throws `IllegalArgumentException` and changes nothing when n <= 0. Otherwise it returns the next min(n, available) bits as 0/1 `int`s and moves past them. The array is empty at the end and shortened when fewer bits are left. On success fewer than 8 bits stay pending. The wrapped stream keeps its data, mark and mark support. |
| `BitStream.DropPending` | src/main/java/com/excilys/ebi/io/BitInputStream.java:58 | After the pending bits, the abstract stream is exactly the unread bytes' bits. This is what every whole-byte operation keeps. |
| `BitStream.Read` | src/main/java/com/excilys/ebi/io/BitInputStream.java:56-60 | `read()` discards the pending bits and returns the next whole byte: the value of the eight bits after them. It returns -1, leaving nothing, when no whole byte is left. |
| `BitStream.ReadBytes` | src/main/java/com/excilys/ebi/io/BitInputStream.java:69-73 | `read(b, off, len)` discards the pending bits. It throws `IndexOutOfBoundsException` for a bad range, returns 0 only for len 0, and -1 only at the end of the bytes. Otherwise it copies 1 <= m <= len bytes, the next ones, into b at off, leaves the rest of b alone, and moves past those bytes. |
| `BitStream.Skip` | src/main/java/com/excilys/ebi/io/BitInputStream.java:82-86 | `skip(n)` discards the pending bits, reports the count the wrapped stream skipped, and resumes that many whole bytes after the pending bits, or at the end. |
| `BitStream.Mark` | src/main/java/com/excilys/ebi/io/BitInputStream.java:28 | The inherited `mark` records the byte position on a markable stream and changes nothing on the cursor: the same pending bits, the same bit stream. |
| `BitStream.Reset` | src/main/java/com/excilys/ebi/io/BitInputStream.java:95-99 | `reset()` discards the pending bits. It throws `IOException` exactly when the stream has no mark, resuming after the dropped bits. Otherwise it resumes at the marked byte. |
| `ByteSource.ReadByte` | src/main/java/com/excilys/ebi/io/BitInputStream.java:59 | The wrapped `read()` returns the next byte as 0..255 and advances, or -1 at the end without moving. |
| `ByteSource.ReadInto` | src/main/java/com/excilys/ebi/io/BitInputStream.java:72 | The wrapped `read(b, off, len)` checks the range, returns 0 for len 0 and -1 at the end, and otherwise copies 1..len next bytes into b at off. |
| `ByteSource.SkipBytes` | src/main/java/com/excilys/ebi/io/BitInputStream.java:85 | The wrapped `skip(n)` passes over the count it reports, never more than n and none for n <= 0, stopping at the end. |
| `ByteSource.MarkPosition` | src/main/java/com/excilys/ebi/io/BitInputStream.java:28 | The wrapped `mark` on a markable stream records the current byte position and moves nothing; on any other stream it changes nothing. |
| `ByteSource.ResetToMark` | src/main/java/com/excilys/ebi/io/BitInputStream.java:98 | The wrapped `reset()` fails exactly when there is no mark, and otherwise goes back to the marked byte. |
| `JavaInt.ByteCast` | src/main/java/com/excilys/ebi/io/BitInputStream.java:233 | `(byte) x` widened back to `int` keeps the low eight bits and copies bit 7 into every higher bit. |
| `JavaInt.SignBitWeight` | src/main/java/com/excilys/ebi/io/BitInputStream.java:122 | Java's `x < 0` on an `int` (`JavaInt.IsNegative`) holds exactly when bit 31 is set, the bit worth 2^31 in the unsigned reading. |
| `JavaInt.Asr` | src/main/java/com/excilys/ebi/io/BitInputStream.java:204 | Java's `x >> k` uses k modulo 32. Bit j of the result is bit j + k of x, or the sign bit once j + k passes bit 31. |
| `JavaInt.Signed` | src/main/java/com/excilys/ebi/io/BitInputStream.java:121-124 | The `int` a 32-bit pattern denotes lies in [-2^31, 2^31). It is negative exactly when the sign bit is set, and agrees with the unsigned reading modulo 2^32. |
| `Properties.ReadBitRun` | src/main/java/com/excilys/ebi/io/BitInputStream.java:193-205 | n successive `readBit` calls return the next min(n, available) bits as 0/1 in order, then -1 for every further call, and move past exactly the bits returned. |
| `Properties.ReadToEnd` | src/main/java/com/excilys/ebi/io/BitInputStream.java:193-205 | Reading bit by bit past the end yields every bit left in order and then only -1, leaving nothing. |
| `Properties.ArrayIsBitByBit` | src/main/java/com/excilys/ebi/io/BitInputStream.java:154-176 | `readBitsToArray(n)` returns exactly what n `readBit` calls return before their first -1, and leaves the cursor where they leave it. |
| `Properties.ReadBitsFolds` | src/main/java/com/excilys/ebi/io/BitInputStream.java:126-134 | The shift-or loop equals the arithmetic fold "double and add the bit, modulo 2^32", started from the first bit. |
| `Properties.ReadBitsSigned` | src/main/java/com/excilys/ebi/io/BitInputStream.java:115-136 | For 1 <= n <= 31 the `int` `readBits(n)` returns is -1 at the end, and otherwise the value of the next min(n, available) bits. |
| `Properties.ReadBitsRun` | src/main/java/com/excilys/ebi/io/BitInputStream.java:115-136 | c successive `readBits(n)` calls, n <= 31, return the reference grouping `Chunks`: each group's value, then -1. They move past min(c * n, available) bits. |
| `Properties.ChunksOfGroups` | src/main/java/com/excilys/ebi/io/BitInputStream.java:127-134 | Bits that consist of n-bit groups, the last possibly shorter, read in groups of n give each group's value, then -1. |
| `Properties.ReadGroups` | src/main/java/com/excilys/ebi/io/BitInputStream.java:115-136 | `readBits(n)` calls on a stream made of n-bit groups return the groups' values in order and then -1. |
| `Properties.ByteChunks` | src/main/java/com/excilys/ebi/io/BitInputStream.java:115-136 | Reading in groups of 8 from a byte boundary returns the bytes themselves as 0..255, then -1. |
| `Properties.EndMarkerCollision` | src/main/java/com/excilys/ebi/io/BitInputStream.java:108-109 | `readBits(32)` over 32 set bits succeeds and returns the `int` -1. A caller cannot tell it from the end-of-stream result. |
| `Properties.MaskSevenIsNegative` | src/main/java/com/excilys/ebi/io/BitInputStream.java:233 | `mask(7)` is the `int` -128. |
| `Properties.MarkThenReset` | src/main/java/com/excilys/ebi/io/BitInputStream.java:95-99 | On a markable stream, marking and then resetting succeeds and resumes at the byte after the pending bits: those bits are lost. |
| `Properties.MarkAfterBitReads` | src/main/java/com/excilys/ebi/io/BitInputStream.java:95-99 | `readBits(n)` or `readBitsToArray(n)` on a markable stream, whatever n, leaves it markable: `mark` and then `reset` succeed. |
| `Properties.SkipPastEnd` | src/main/java/com/excilys/ebi/io/BitInputStream.java:82-86 | After skipping at least every remaining byte, `readBit` gives -1, `readBits(1)` gives -1 and `readBitsToArray(1)` gives an empty array, none of them failing. |
| `Properties.ReadAfterPartialByte` | src/main/java/com/excilys/ebi/io/BitInputStream.java:184-185 | At a byte boundary, `readBits(k)` for 1 <= k <= 32 followed by `read()` returns the byte after the ceil(k / 8) bytes the bits came from: the rest of the last of them is dropped. |
| `Properties.OverTest` | src/test/java/com/excilys/ebi/io/BitInputStreamTest.java:17-25 | A fresh cursor over the test file's bytes "test" has the bit stream 01110100 01100101 01110011 01110100. |
| `Properties.TestBitByBit` | src/test/java/com/excilys/ebi/io/BitInputStreamTest.java:151-165 | Thirty-two `readBit` calls on "test" return its 32 bits in order; every further call returns -1. |
| `Properties.TestThreeBits` | src/test/java/com/excilys/ebi/io/BitInputStreamTest.java:61-75 | Eleven `readBits(3)` calls on "test" return 3 5 0 6 2 5 6 3 3 5 0; every further call returns -1. |
| `Properties.TestBytes` | src/test/java/com/excilys/ebi/io/BitInputStreamTest.java:77-91 | `readBits(8)` calls on "test" return 116 101 115 116 and then -1 for every further call; of the test's 32 calls, the last 28 return -1. |
| `Properties.TestArrayOfEight` | src/test/java/com/excilys/ebi/io/BitInputStreamTest.java:106-119 | `readBitsToArray(8)` on "test" returns 0 1 1 1 0 1 0 0. |
| `Properties.TestArrayOfEleven` | src/test/java/com/excilys/ebi/io/BitInputStreamTest.java:121-134 | `readBitsToArray(11)` on "test" returns 0 1 1 1 0 1 0 0 0 1 1. |
| `Properties.TestArrayOfFiftyOne` | src/test/java/com/excilys/ebi/io/BitInputStreamTest.java:136-149 | `readBitsToArray(51)` on "test" returns the 32 bits there are, an array of length 32. |
| `Properties.TestReadAfterFourBits` | src/test/java/com/excilys/ebi/io/BitInputStreamTest.java:175-193 | After `readBits(4)` on "test", `read()` returns 101, the byte 'e'. |
| `Properties.TestReadAfterEightBits` | src/main/java/com/excilys/ebi/io/BitInputStream.java:115-136 | After `readBits(8)` on "test", `read()` returns 101, the byte 'e': a whole first byte leaves nothing to drop. |
| `Properties.TestSkipToEnd` | src/test/java/com/excilys/ebi/io/BitInputStreamTest.java:53-59 | After `skip(4)` on "test", `readBit` and `readBits(1)` return -1 and `readBitsToArray(1)` returns an empty array. |
| `Properties.TestSkipThenReset` | src/test/java/com/excilys/ebi/io/BitInputStreamTest.java:195-203 | On a markable stream over "test" marked at the start, `skip(4)` and then `reset()` lets 32 `readBit` calls read the whole of "test" again. |

The argument-range tests (`readBits(-1)`, `readBits(33)` and
`readBitsToArray(-1)`, BitInputStreamTest.java lines 43-51 and 93-96) are
instances of the error clauses of `BitStream.ReadBits` and
`BitStream.ReadBitsToArray`. The end-of-stream tests at lines 98-104 and
167-173 are the three cases of `Properties.TestSkipToEnd`.

## Where the comments and the code differ

The model follows the code in each case:

- The comment on `mask` says that bit number 5 gives 16. The code gives
  `1 << 5`, which is 32. `BitStream.Mask` follows the code.
- The comment on `mask` says numbers outside 0..8 are rejected, which the
  code does. It does not say that 8 gives `(byte) 256`, which is 0, or that
  7 gives the negative `int` -128. Both are modelled.
- The comment on `readBits` says `IllegalArgumentException` is thrown for n
  "not between 0 and 32". The code also rejects 0: the accepted range is
  1..32.
- The comment on `readBitsToArray` says n "< 0" is rejected. The code also
  rejects 0.
- The comment on `readBits` says -1 means the end of the stream. A 32-bit
  read of 32 set bits also returns -1 (`Properties.EndMarkerCollision`).
  For that reason the run lemmas on `readBits` are stated for n <= 31.
- The test `testRead_AfterRead8Bits` reads 4 bits, exactly like
  `testRead_AfterRead4Bits`. Both are covered by
  `Properties.TestReadAfterFourBits`. `Properties.TestReadAfterEightBits`
  models the 8-bit read the test's name describes.
- The test `testReset_EOFThenReset` does nothing on a `FileInputStream`, which
  does not support marks. It also resets without calling `mark`. On a
  `BufferedInputStream` that was never marked this throws `IOException`,
  as `BitStream.Reset` states for a missing mark.
  `Properties.TestSkipThenReset` models the scenario the test evidently
  means, with an explicit mark at the start.

## Left out

- Blocking, and `IOException` raised by the wrapped stream itself, are not
  modelled: the byte source is total. The only `IOException` modelled is a
  reset without a mark.
- How many bytes the wrapped `skip` and `read(b, off, len)` actually move
  over is the stream's own choice. It is a parameter (`actual`, `chunk`),
  constrained only by what `InputStream` promises.
- `skip` with a negative count (some streams seek backwards) is not
  modelled. The skipped count is at most `max(n, 0)`.
- `synchronized` on `reset`: concurrency is not modelled.
- `close`, `available` and `markSupported` are not modelled. Whether a mark
  is supported is a fixed flag of the byte source.
- The `readlimit` of `mark` is ignored: a mark never expires.
- `ByteSource.Open` starts every stream without a mark, as a
  `BufferedInputStream` does. A `ByteArrayInputStream` starts marked at
  position 0; over data d it is `Source(d, 0, Some(0), true)`, which is
  not the stream `Open` builds.
- A `null` buffer passed to `read(b, off, len)` (`NullPointerException`) is
  not modelled: a Dafny sequence cannot be null.
- The inherited `read(byte[] b)` is not modelled separately: it is
  `ReadBytes` with offset 0 and length |b|.
- The `OutOfMemoryError` that a huge `readBitsToArray(n)` allocation can
  raise is not modelled.
- The test suite's file system access is not modelled: the file is the
  constant bytes "test".
- Properties.ReadBitsRun: stated only for 1 <= n <= 31. With n = 32 the
  returned `int` can be negative without meaning the end of the stream.
  `BitStream.ReadBits` states that case bit by bit.
- Properties.TestBitByBit, Properties.TestThreeBits and Properties.TestBytes:
  stated for any number of calls at least the test's, with -1 for the calls
  past the end. The test's own counts are instances.
