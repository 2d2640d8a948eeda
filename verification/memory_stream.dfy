/** The byte stream underneath `BinaryReader` and `BinaryWriter`.

    Every stream the codec uses is a `System.IO.MemoryStream` (the packet
    parsers wrap the datagram in one, `ToBytes` writes into a fresh one), so the
    model is a MemoryStream: its contents and a cursor. As in .NET the cursor may
    be moved past the end of the contents by `Seek`; reading there delivers
    nothing and writing there first fills the gap with zeros.
 */
module MemoryStreams {
  import opened Numerics
  import opened Results

  datatype MemoryStream = MemoryStream(data: seq<uint8>, pos: nat)

  /** `System.IO.SeekOrigin`. */
  datatype SeekOrigin = Begin | Current | End

  /** Exceptions the stream operations used by the codec can raise. */
  datatype StreamError =
    | OffsetTooLarge    // ArgumentOutOfRangeException: a seek offset above int.MaxValue
    | SeekBeforeBegin   // IOException: a seek to a negative (or int-wrapped) position
    | NegativeCount     // OverflowException: `new byte[count]` with count < 0

  function Zeros(n: nat): (r: seq<uint8>)
    ensures |r| == n
    ensures forall i :: 0 <= i < n ==> r[i] == 0
  {
    seq(n, i => 0)
  }

  function Min(a: int, b: int): int
  {
    if a <= b then a else b
  }

  /** How many of `count` requested bytes a `Read` actually delivers. */
  function Available(s: MemoryStream, count: nat): (k: nat)
    ensures k <= count
    ensures s.pos + k <= |s.data| || k == 0
    ensures s.pos + count <= |s.data| ==> k == count
    ensures k == count || s.pos + k >= |s.data|
  {
    if s.pos >= |s.data| then 0 else Min(count, |s.data| - s.pos)
  }

  /** `stream.Read(buffer, 0, count)` into a freshly allocated buffer of
      `count` zero bytes. The number of bytes delivered is NOT part of the
      result: the source never looks at it, so a short read leaves the tail
      of the buffer zero. */
  function ReadInto(s: MemoryStream, count: nat): (r: (seq<uint8>, MemoryStream))
    ensures |r.0| == count
    ensures s.pos + count <= |s.data| ==> r.0 == s.data[s.pos..s.pos + count]
    ensures s.pos >= |s.data| ==> r.0 == Zeros(count)
    ensures r.1 == s.(pos := s.pos + Available(s, count))
  {
    var k := Available(s, count);
    var delivered := if k == 0 then [] else s.data[s.pos..s.pos + k];
    (delivered + Zeros(count - k), s.(pos := s.pos + k))
  }

  /** Byte by byte: a read delivers the bytes that are there and leaves the
      rest of the buffer zero. */
  lemma ReadIntoContents(s: MemoryStream, count: nat)
    ensures forall i :: 0 <= i < count ==>
              ReadInto(s, count).0[i] == (if s.pos + i < |s.data| then s.data[s.pos + i] else 0)
  {
  }

  /** `stream.ReadByte()`: the next byte, or -1 at the end of the data. */
  function ReadByte(s: MemoryStream): (r: (int, MemoryStream))
    ensures -1 <= r.0 < 0x100
    ensures r.0 == -1 <==> s.pos >= |s.data|
    ensures r.0 == -1 ==> r.1 == s
    ensures r.0 != -1 ==> r.0 == ReadInto(s, 1).0[0] && r.1 == ReadInto(s, 1).1
  {
    if s.pos < |s.data| then (s.data[s.pos] as int, s.(pos := s.pos + 1)) else (-1, s)
  }

  /** `int.MaxValue`: the longest a MemoryStream can be, and the largest seek
      offset it accepts. */
  const Int32Max := 0x7FFF_FFFF

  /** `unchecked((int)x)`: `x` wrapped into the 32-bit two's-complement range. */
  function Wrap32(x: int): (r: int32)
    ensures 0 <= x <= Int32Max ==> r == x
    ensures Int32Max < x < 0x1_0000_0000 ==> r < 0
  {
    assert Pow256(4) == 0x1_0000_0000;
    ToSigned(x % Pow256(4), 4)
  }

  /** The position a seek is relative to. A MemoryStream over an array starts
      at offset 0 of it, so `Begin` is 0. */
  function SeekBase(s: MemoryStream, origin: SeekOrigin): nat
  {
    match origin
    case Begin => 0
    case Current => s.pos
    case End => |s.data|
  }

  /** `stream.Seek(offset, origin)` of `System.IO.MemoryStream`: an offset above
      `int.MaxValue` is refused; otherwise the new position is computed in
      32-bit arithmetic, and a seek whose true or wrapped target is negative
      throws. */
  function Seek(s: MemoryStream, offset: int64, origin: SeekOrigin): (r: Result<MemoryStream, StreamError>)
    ensures offset > Int32Max ==> r == Failure(OffsetTooLarge)
    ensures r.Success? ==> r.value.data == s.data
    ensures var base := SeekBase(s, origin);
            base <= Int32Max && offset <= Int32Max ==>
              && (r.Success? <==> 0 <= base + offset <= Int32Max)
              && (r.Success? ==> r.value.pos == base + offset)
  {
    var base := SeekBase(s, origin);
    if offset > Int32Max then Failure(OffsetTooLarge)
    else
      var target := Wrap32(base + offset);
      if base + offset < 0 || target < 0 then Failure(SeekBeforeBegin)
      else Success(s.(pos := target))
  }

  /** `stream.Write(bytes, 0, bytes.Length)`: overwrite at the cursor, growing
      the contents when the write runs past their end, and advance the cursor. */
  function Write(s: MemoryStream, bytes: seq<uint8>): (r: MemoryStream)
    ensures r.pos == s.pos + |bytes|
    ensures |r.data| == if s.pos + |bytes| <= |s.data| then |s.data| else s.pos + |bytes|
    ensures s.pos == |s.data| ==> r == MemoryStream(s.data + bytes, |s.data| + |bytes|)
  {
    var prefix := if s.pos <= |s.data| then s.data[..s.pos] else s.data + Zeros(s.pos - |s.data|);
    var suffix := if s.pos + |bytes| < |s.data| then s.data[s.pos + |bytes|..] else [];
    MemoryStream(prefix + bytes + suffix, s.pos + |bytes|)
  }

  /** What a write leaves in the stream: the bytes at the old cursor, every
      other byte as it was, and zeros in any gap the cursor had opened past
      the end of the contents. */
  lemma WriteContents(s: MemoryStream, bytes: seq<uint8>)
    ensures var r := Write(s, bytes);
            && r.data[s.pos..r.pos] == bytes
            && forall i :: 0 <= i < |r.data| && !(s.pos <= i < r.pos) ==>
                 r.data[i] == (if i < |s.data| then s.data[i] else 0)
  {
  }
}
