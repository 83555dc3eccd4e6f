/**
  The byte stream the bit cursor wraps, reduced to what the cursor relies
  on: its bytes, a read position, and the mark a reset returns to. How many
  bytes a skip or a bulk read actually moves over is the stream's own
  choice; it is passed in as a parameter.
*/
module ByteSource {
  import opened Arith
  import opened Wrappers
  import opened JavaInt

  datatype Source = Source(data: seq<bv8>, pos: nat, mark: Option<nat>, markSupported: bool)

  /** The position and the mark lie within the data; only a markable stream has a mark. */
  predicate ValidSource(src: Source)
  {
    && src.pos <= |src.data|
    && (src.mark.Some? ==> src.markSupported && src.mark.value <= |src.data|)
  }

  /** The bytes not yet read. */
  function Rest(src: Source): seq<bv8>
    requires ValidSource(src)
  {
    src.data[src.pos..]
  }

  /** A stream over data, positioned at its start, with no mark. */
  function Open(data: seq<bv8>, markSupported: bool): (src: Source)
    ensures ValidSource(src) && Rest(src) == data
  {
    Source(data, 0, None, markSupported)
  }

  /**
    `InputStream.read()`: the next byte as an `int` in [0, 255], or -1 at
    the end of the data.
  */
  function ReadByte(src: Source): (r: (bv32, Source))
    requires ValidSource(src)
    ensures ValidSource(r.1) && r.1.data == src.data && r.1.mark == src.mark && r.1.markSupported == src.markSupported
    ensures Rest(src) == [] ==> r.0 == MinusOne && r.1 == src
    ensures Rest(src) != [] ==> r.0 == Rest(src)[0] as bv32 && Rest(r.1) == Rest(src)[1..]
  {
    if src.pos == |src.data| then (MinusOne, src)
    else (src.data[src.pos] as bv32, src.(pos := src.pos + 1))
  }

  /**
    `InputStream.skip(n)`: the stream passes over `actual` bytes, at most n
    and none when n is not positive, and reports that count. Passing the
    end leaves the stream at its end.
  */
  function SkipBytes(src: Source, n: int, actual: nat): (r: (int, Source))
    requires ValidSource(src)
    requires actual <= (if n > 0 then n else 0)
    ensures ValidSource(r.1) && r.1.data == src.data && r.1.mark == src.mark && r.1.markSupported == src.markSupported
    ensures r.0 == actual
    ensures Rest(r.1) == Rest(src)[Min(actual, |Rest(src)|)..]
  {
    (actual, src.(pos := Min(src.pos + actual, |src.data|)))
  }

  /**
    `InputStream.read(b, off, len)`: rejects a range outside the buffer,
    reads nothing when len is 0, reports -1 at the end of the data, and
    otherwise copies between 1 and len of the next bytes into buf at off;
    `chunk` is how many the stream chooses to deliver. The result is the
    count and the buffer's new contents.
  */
  function ReadInto(src: Source, buf: seq<bv8>, off: int, len: int, chunk: nat): (r: (Result<(int, seq<bv8>)>, Source))
    requires ValidSource(src)
    ensures ValidSource(r.1) && r.1.data == src.data && r.1.mark == src.mark && r.1.markSupported == src.markSupported
    ensures r.0.Err? <==> off < 0 || len < 0 || len > |buf| - off
    ensures r.0.Err? ==> r.0.error == IndexOutOfBounds && r.1 == src
    ensures r.0.Ok? && (len == 0 || Rest(src) == []) ==> r.1 == src && r.0.value.1 == buf
    ensures r.0.Ok? ==> (r.0.value.0 == -1 <==> len > 0 && Rest(src) == [])
    ensures r.0.Ok? ==> (r.0.value.0 == 0 <==> len == 0)
    ensures r.0.Ok? ==> -1 <= r.0.value.0 <= len
    ensures r.0.Ok? && r.0.value.0 > 0 ==>
      var m := r.0.value.0;
      && m <= len && m <= |Rest(src)|
      && Rest(r.1) == Rest(src)[m..]
      && |r.0.value.1| == |buf|
      && r.0.value.1[off..off + m] == Rest(src)[..m]
      && r.0.value.1[..off] == buf[..off]
      && r.0.value.1[off + m..] == buf[off + m..]
  {
    if off < 0 || len < 0 || len > |buf| - off then (Err(IndexOutOfBounds), src)
    else if len == 0 then (Ok((0, buf)), src)
    else if src.pos == |src.data| then (Ok((-1, buf)), src)
    else
      var m := Min(if chunk < 1 then 1 else chunk, Min(len, |src.data| - src.pos));
      var copied := src.data[src.pos..src.pos + m];
      (Ok((m, buf[..off] + copied + buf[off + m..])), src.(pos := src.pos + m))
  }

  /** `InputStream.mark`: a markable stream remembers the current position. */
  function MarkPosition(src: Source): (r: Source)
    requires ValidSource(src)
    ensures ValidSource(r) && r.data == src.data && r.pos == src.pos && r.markSupported == src.markSupported
    ensures src.markSupported ==> r.mark == Some(src.pos)
    ensures !src.markSupported ==> r == src
  {
    if src.markSupported then src.(mark := Some(src.pos)) else src
  }

  /**
    `InputStream.reset`: returns to the mark, or fails with an IOException
    when the stream cannot be reset (no mark support, or never marked).
  */
  function ResetToMark(src: Source): (r: (Result<()>, Source))
    requires ValidSource(src)
    ensures ValidSource(r.1) && r.1.data == src.data && r.1.mark == src.mark && r.1.markSupported == src.markSupported
    ensures r.0.Err? <==> src.mark.None?
    ensures r.0.Err? ==> r.0.error == IOFailure && r.1 == src
    ensures r.0.Ok? ==> Rest(r.1) == src.data[src.mark.value..]
  {
    match src.mark
    case None => (Err(IOFailure), src)
    case Some(m) => (Ok(()), src.(pos := m))
  }
}
