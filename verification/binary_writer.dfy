/** `HNIdesu.IO.BinaryWriter`: fixed-width integers and raw bytes written to a
    stream, little-endian unless `IsBigEndian` is set. */
module BinaryWriter {
  import opened Numerics
  import opened MemoryStreams

  datatype Writer = Writer(stream: MemoryStream, isBigEndian: bool)

  /** `new BinaryWriter(stream)`: `IsBigEndian` starts out false. */
  function NewWriter(stream: MemoryStream): Writer
  {
    Writer(stream, false)
  }

  /** The `n` bytes every `WriteXxx` of an `n`-byte item emits: the loop
      `array[i] = (byte)item; item >>= 8;`, then `Reverse` when big-endian. */
  function EncodeInt(item: int, n: nat, isBigEndian: bool): (bs: seq<uint8>)
    ensures |bs| == n
    ensures isBigEndian ==> BigEndianValue(bs) == item % Pow256(n)
    ensures !isBigEndian ==> LittleEndianValue(bs) == item % Pow256(n)
  {
    var le := ShiftOutBytes(item, n);
    LittleEndianOfShiftOut(item, n);
    if isBigEndian then
      BigEndianIsReversedLittleEndian(Reverse(le));
      ReverseReverse(le);
      Reverse(le)
    else
      le
  }

  /** `r` is `w` after `bytes` were written at its cursor: the cursor moved past
      them, the contents grew only as far as the new cursor, every byte outside
      the written range is unchanged (or zero in a gap the cursor had opened
      past the end), and when the cursor was at the end of the contents the
      bytes were simply appended. */
  ghost predicate Emitted(w: Writer, r: Writer, bytes: seq<uint8>)
  {
    && r.isBigEndian == w.isBigEndian
    && r.stream.pos == w.stream.pos + |bytes| <= |r.stream.data|
    && |r.stream.data| == (if w.stream.pos + |bytes| <= |w.stream.data| then |w.stream.data| else r.stream.pos)
    && r.stream.data[w.stream.pos..r.stream.pos] == bytes
    && (forall i :: 0 <= i < |r.stream.data| && !(w.stream.pos <= i < r.stream.pos) ==>
          r.stream.data[i] == (if i < |w.stream.data| then w.stream.data[i] else 0))
    && (w.stream.pos == |w.stream.data| ==> r.stream.data == w.stream.data + bytes)
  }

  /** `WriteByte`: exactly one byte. */
  function WriteByte(w: Writer, item: uint8): (r: Writer)
    ensures r.isBigEndian == w.isBigEndian && r.stream.pos == w.stream.pos + 1
    ensures w.stream.pos == |w.stream.data| ==>
              r == Writer(MemoryStream(w.stream.data + [item], |w.stream.data| + 1), w.isBigEndian)
  {
    w.(stream := Write(w.stream, [item]))
  }

  /** `WriteBytes`: the array, unchanged. */
  function WriteBytes(w: Writer, item: seq<uint8>): (r: Writer)
    ensures r.isBigEndian == w.isBigEndian && r.stream.pos == w.stream.pos + |item|
    ensures w.stream.pos == |w.stream.data| ==>
              r == Writer(MemoryStream(w.stream.data + item, |w.stream.data| + |item|), w.isBigEndian)
  {
    w.(stream := Write(w.stream, item))
  }

  /** The common body of `WriteInt16/32/64` and `WriteUInt16/32/64`. */
  function WriteInt(w: Writer, item: int, n: nat): (r: Writer)
    ensures r.isBigEndian == w.isBigEndian && r.stream.pos == w.stream.pos + n
    ensures w.stream.pos == |w.stream.data| ==>
              r == Writer(MemoryStream(w.stream.data + EncodeInt(item, n, w.isBigEndian), |w.stream.data| + |EncodeInt(item, n, w.isBigEndian)|), w.isBigEndian)
  {
    w.(stream := Write(w.stream, EncodeInt(item, n, w.isBigEndian)))
  }

  /** Wherever the cursor is, each write emits its bytes there and keeps
      every other byte. */
  lemma WriteByteEmits(w: Writer, item: uint8)
    ensures Emitted(w, WriteByte(w, item), [item])
  {
    WriteContents(w.stream, [item]);
  }

  lemma WriteBytesEmits(w: Writer, bytes: seq<uint8>)
    ensures Emitted(w, WriteBytes(w, bytes), bytes)
  {
    WriteContents(w.stream, bytes);
  }

  lemma WriteIntEmits(w: Writer, item: int, n: nat)
    ensures Emitted(w, WriteInt(w, item, n), EncodeInt(item, n, w.isBigEndian))
  {
    WriteContents(w.stream, EncodeInt(item, n, w.isBigEndian));
  }

  function WriteUInt16(w: Writer, item: uint16): Writer { WriteInt(w, item, 2) }
  function WriteUInt32(w: Writer, item: uint32): Writer { WriteInt(w, item, 4) }
  function WriteUInt64(w: Writer, item: uint64): Writer { WriteInt(w, item, 8) }
  function WriteInt16(w: Writer, item: int16): Writer { WriteInt(w, item, 2) }
  function WriteInt32(w: Writer, item: int32): Writer { WriteInt(w, item, 4) }
  function WriteInt64(w: Writer, item: int64): Writer { WriteInt(w, item, 8) }

  /** Byte `i` of a write is `(item >> 8i) mod 256` in little-endian mode; in
      big-endian mode the same bytes come in the opposite order. */
  lemma EncodedByteAt(item: int, n: nat, isBigEndian: bool, i: nat)
    requires i < n
    ensures !isBigEndian ==> EncodeInt(item, n, isBigEndian)[i] == (item / Pow256(i)) % 256
    ensures isBigEndian ==> EncodeInt(item, n, isBigEndian)[i] == (item / Pow256(n - 1 - i)) % 256
  {
    if isBigEndian {
      ShiftOutByteAt(item, n, n - 1 - i);
    } else {
      ShiftOutByteAt(item, n, i);
    }
  }

  /** A signed write emits the two's-complement bytes: the same bytes as the
      unsigned write of `item mod 256^n`. */
  lemma SignedWriteIsUnsignedWrite(item: int, n: nat, isBigEndian: bool)
    ensures EncodeInt(item, n, isBigEndian) == EncodeInt(item % Pow256(n), n, isBigEndian)
  {
    ShiftOutModulo(item, n);
  }
}
