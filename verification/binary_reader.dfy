/** `HNIdesu.IO.BinaryReader`: fixed-width integers and raw bytes read from a
    stream, little-endian unless `IsBigEndian` is set.

    Every fixed-width read fills a fresh zeroed buffer with `Stream.Read` and
    ignores how many bytes arrived, so a read past the end of the data is not an
    error: the missing bytes are zero. `BitConverter` is taken to run on a
    little-endian host.
 */
module BinaryReader {
  import opened Numerics
  import opened Results
  import opened MemoryStreams
  import BinaryWriter

  datatype Reader = Reader(stream: MemoryStream, isBigEndian: bool)

  /** `new BinaryReader(stream)`: `IsBigEndian` starts out false. */
  function NewReader(stream: MemoryStream): Reader
  {
    Reader(stream, false)
  }

  /** `BitConverter.ToUIntNN` applied to a filled buffer, which is reversed first
      when big-endian. */
  function DecodeInt(buffer: seq<uint8>, isBigEndian: bool): (v: nat)
    ensures v < Pow256(|buffer|)
    ensures isBigEndian ==> v == BigEndianValue(buffer)
  {
    if isBigEndian then
      BigEndianIsReversedLittleEndian(buffer);
      LittleEndianValue(Reverse(buffer))
    else
      LittleEndianValue(buffer)
  }

  /** The common body of `ReadUInt16/32/64`: read `n` bytes and decode them. */
  function ReadUnsigned(rd: Reader, n: nat): (r: (nat, Reader))
    ensures r.0 < Pow256(n)
    ensures r.1.isBigEndian == rd.isBigEndian && r.1.stream.data == rd.stream.data
    ensures r.1.stream.pos == rd.stream.pos + Available(rd.stream, n)
    ensures rd.stream.pos + n <= |rd.stream.data| ==>
              && r.1.stream.pos == rd.stream.pos + n
              && r.0 == DecodeInt(rd.stream.data[rd.stream.pos..rd.stream.pos + n], rd.isBigEndian)
    ensures rd.stream.pos >= |rd.stream.data| ==> r.0 == 0
  {
    var (buffer, s) := ReadInto(rd.stream, n);
    if rd.stream.pos >= |rd.stream.data| then
      assert buffer == Zeros(n);
      ZerosDecodeToZero(n, rd.isBigEndian);
      (DecodeInt(buffer, rd.isBigEndian), rd.(stream := s))
    else
      (DecodeInt(buffer, rd.isBigEndian), rd.(stream := s))
  }

  /** The common body of `ReadInt16/32/64`: the two's-complement reading of the
      bytes the unsigned read of the same width consumes. */
  function ReadSigned(rd: Reader, n: nat): (r: (int, Reader))
    requires n > 0
    ensures r.1 == ReadUnsigned(rd, n).1
    ensures r.0 % Pow256(n) == ReadUnsigned(rd, n).0
    ensures -(Pow256(n) / 2) <= r.0 < Pow256(n) / 2
  {
    var (u, next) := ReadUnsigned(rd, n);
    SignedReading(u, n);
    (ToSigned(u, n), next)
  }

  function ReadUInt16(rd: Reader): (uint16, Reader) { ReadUnsigned(rd, 2) }
  function ReadUInt32(rd: Reader): (uint32, Reader) { ReadUnsigned(rd, 4) }
  function ReadUInt64(rd: Reader): (uint64, Reader) { ReadUnsigned(rd, 8) }
  function ReadInt16(rd: Reader): (int16, Reader) { ReadSigned(rd, 2) }
  function ReadInt32(rd: Reader): (int32, Reader) { ReadSigned(rd, 4) }
  function ReadInt64(rd: Reader): (int64, Reader) { ReadSigned(rd, 8) }

  /** `ReadByte`: the next byte as an `int`, or -1 when the data is exhausted. */
  function ReadByte(rd: Reader): (r: (int, Reader))
    ensures -1 <= r.0 < 0x100
    ensures r.0 == -1 <==> rd.stream.pos >= |rd.stream.data|
    ensures r.0 != -1 ==> r.0 == rd.stream.data[rd.stream.pos] && r.1.stream.pos == rd.stream.pos + 1
    ensures r.1.isBigEndian == rd.isBigEndian && r.1.stream.data == rd.stream.data
  {
    var (b, s) := MemoryStreams.ReadByte(rd.stream);
    (b, rd.(stream := s))
  }

  /** `ReadBytes(count)`: always an array of `count` bytes; those past the end
      of the data are zero. */
  function ReadBytes(rd: Reader, count: int): (r: Result<(seq<uint8>, Reader), StreamError>)
    ensures r.Success? <==> count >= 0
    ensures r.Success? ==> |r.value.0| == count
    ensures r.Success? && rd.stream.pos + count <= |rd.stream.data| ==>
              r.value == (rd.stream.data[rd.stream.pos..rd.stream.pos + count],
                          rd.(stream := rd.stream.(pos := rd.stream.pos + count)))
    ensures r.Success? ==> r.value.1 == rd.(stream := rd.stream.(pos := rd.stream.pos + Available(rd.stream, count)))
  {
    if count < 0 then Failure(NegativeCount)
    else
      var (buffer, s) := ReadInto(rd.stream, count);
      Success((buffer, rd.(stream := s)))
  }

  /** `ReadBytes(count, offset, origin)`: seek, read, and put the cursor back
      where it was. A failure is an exception: when the seek succeeded and the
      count is negative, the source leaves the cursor at the sought position,
      which the model, returning no reader on failure, does not show. */
  function ReadBytesAt(rd: Reader, count: int, offset: int32, origin: SeekOrigin): (r: Result<(seq<uint8>, Reader), StreamError>)
    ensures r.Success? <==> Seek(rd.stream, offset, origin).Success? && count >= 0
    ensures r.Success? ==> r.value.1 == rd
    ensures r.Success? ==> |r.value.0| == count
    ensures r.Success? ==> r.value.0 == ReadInto(Seek(rd.stream, offset, origin).value, count).0
  {
    var mark := rd.stream.pos;
    var seeked :- Seek(rd.stream, offset, origin);
    if count < 0 then Failure(NegativeCount)
    else
      var (buffer, s) := ReadInto(seeked, count);
      Success((buffer, rd.(stream := s.(pos := mark))))
  }

  /** `SeekAndRead(offset, origin, action)`: run `action` on the reader moved to
      the given position, then put the cursor back. The action is a function of
      the positioned reader whose result is handed back (the source passes an
      `Action` that reports through captured variables). The source's action
      may also change the reader itself (its `IsBigEndian` switch, say), and
      when it throws the cursor is not put back, since there is no
      `try`/`finally`; the model's action is pure and cannot throw. */
  function SeekAndRead<A>(rd: Reader, offset: int64, origin: SeekOrigin, action: Reader -> A): (r: Result<(A, Reader), StreamError>)
    ensures r.Success? <==> Seek(rd.stream, offset, origin).Success?
    ensures r.Success? ==> r.value.1 == rd
    ensures r.Success? ==> r.value.0 == action(rd.(stream := Seek(rd.stream, offset, origin).value))
  {
    var mark := rd.stream.pos;
    var seeked :- Seek(rd.stream, offset, origin);
    var result := action(rd.(stream := seeked));
    Success((result, rd.(stream := seeked.(pos := mark))))
  }

  // ---------------------------------------------------------------------
  // Lemmas

  /** `ReadBytes` byte by byte: the bytes that are there, then zeros. */
  lemma ReadBytesContents(rd: Reader, count: nat)
    ensures forall i :: 0 <= i < count ==>
              ReadBytes(rd, count).value.0[i]
                == (if rd.stream.pos + i < |rd.stream.data| then rd.stream.data[rd.stream.pos + i] else 0)
  {
    ReadIntoContents(rd.stream, count);
  }

  lemma {:induction false} ZerosDecodeToZero(n: nat, isBigEndian: bool)
    ensures DecodeInt(Zeros(n), isBigEndian) == 0
  {
    if n > 0 {
      assert Zeros(n)[1..] == Zeros(n - 1);
      ZerosDecodeToZero(n - 1, false);
      assert Reverse(Zeros(n)) == Zeros(n);
    }
  }

  /** Trailing zeros add nothing to a little-endian value. */
  lemma {:induction false} LittleEndianPadded(a: seq<uint8>, m: nat)
    ensures LittleEndianValue(a + Zeros(m)) == LittleEndianValue(a)
  {
    if |a| == 0 {
      assert a + Zeros(m) == Zeros(m);
      ZerosDecodeToZero(m, false);
    } else {
      assert (a + Zeros(m))[1..] == a[1..] + Zeros(m);
      LittleEndianPadded(a[1..], m);
    }
  }

  /** Trailing zeros scale a big-endian value by 256 per byte. */
  lemma {:induction false} BigEndianPadded(a: seq<uint8>, m: nat)
    ensures BigEndianValue(a + Zeros(m)) == BigEndianValue(a) * Pow256(m)
  {
    if m == 0 {
      assert a + Zeros(m) == a;
    } else {
      var padded := a + Zeros(m);
      assert padded[..|padded| - 1] == a + Zeros(m - 1);
      BigEndianPadded(a, m - 1);
      assert padded[|padded| - 1] == 0;
      assert BigEndianValue(padded) == 256 * (BigEndianValue(a) * Pow256(m - 1));
      ScaleBy256(BigEndianValue(a), Pow256(m - 1));
    }
  }

  lemma ScaleBy256(x: nat, y: nat)
    ensures 256 * (x * y) == x * (256 * y)
  {
  }

  /** The value of every unsigned read, a short one included: the `k` bytes that
      are there followed by zeros. Little-endian, the zeros are high bytes and
      the value is that of the `k` bytes; big-endian, they are low bytes, so the
      value of the `k` bytes is shifted up by the missing ones. */
  lemma ReadUnsignedContents(rd: Reader, n: nat)
    ensures var k := Available(rd.stream, n);
            var v := ReadUnsigned(rd, n).0;
            && (k == 0 ==> v == 0)
            && (k > 0 ==> rd.stream.pos + k <= |rd.stream.data|)
            && (k > 0 && !rd.isBigEndian ==> v == LittleEndianValue(rd.stream.data[rd.stream.pos..rd.stream.pos + k]))
            && (k > 0 && rd.isBigEndian ==>
                  v == BigEndianValue(rd.stream.data[rd.stream.pos..rd.stream.pos + k]) * Pow256(n - k))
  {
    var k := Available(rd.stream, n);
    if k == 0 {
      assert ReadInto(rd.stream, n).0 == Zeros(n);
      ZerosDecodeToZero(n, rd.isBigEndian);
    } else {
      var avail := rd.stream.data[rd.stream.pos..rd.stream.pos + k];
      assert ReadInto(rd.stream, n).0 == avail + Zeros(n - k);
      if rd.isBigEndian {
        BigEndianPadded(avail, n - k);
      } else {
        LittleEndianPadded(avail, n - k);
      }
    }
  }

  /** Write-then-read: reading back, with the same `IsBigEndian`, the bytes a
      `WriteInt` of width `n` put at some position gives the item modulo 256^n. */
  lemma WriteThenRead(w: BinaryWriter.Writer, item: int, n: nat)
    ensures var written := BinaryWriter.WriteInt(w, item, n);
            ReadUnsigned(Reader(written.stream.(pos := w.stream.pos), w.isBigEndian), n).0 == item % Pow256(n)
  {
    BinaryWriter.WriteIntEmits(w, item, n);
  }

  /** Write-then-read for signed items: an item in the signed range of width
      `n` comes back unchanged. */
  lemma WriteThenReadSigned(w: BinaryWriter.Writer, item: int, n: nat)
    requires n > 0 && -(Pow256(n) / 2) <= item < Pow256(n) / 2
    ensures var written := BinaryWriter.WriteInt(w, item, n);
            ReadSigned(Reader(written.stream.(pos := w.stream.pos), w.isBigEndian), n).0 == item
  {
    var written := BinaryWriter.WriteInt(w, item, n);
    WriteThenRead(w, item, n);
    SignedRoundTrip(item, n);
  }

  /** Read-then-write: writing back the value just read, with the same
      `IsBigEndian`, reproduces the bytes that were read. */
  lemma ReadThenWrite(buffer: seq<uint8>, isBigEndian: bool)
    ensures BinaryWriter.EncodeInt(DecodeInt(buffer, isBigEndian), |buffer|, isBigEndian) == buffer
  {
    var v := DecodeInt(buffer, isBigEndian);
    DivModUnique(v, Pow256(|buffer|), 0, v);
    if isBigEndian {
      BigEndianInjective(BinaryWriter.EncodeInt(v, |buffer|, isBigEndian), buffer);
    } else {
      ShiftOutOfLittleEndian(buffer);
    }
  }
}
