/** The 48-byte header on the wire (section 7.3 of RFC 5905) and the two byte
    streams both packet classes run over it: the big-endian read sequence of
    `Parse` and the big-endian write sequence of `ToBytes`. The two packet
    classes read and write the same fields in the same order with the same
    widths; they differ only in how they interpret byte 0 and the precision byte,
    which they do on top of this module. */
module NtpWire {
  import opened Numerics
  import opened MemoryStreams
  import opened NtpTypes
  import opened Results
  import BinaryReader
  import BinaryWriter

  /** Bytes 1..47 of the header, as the wire carries them. */
  datatype Body = Body(
    stratum: uint8,
    poll: uint8,
    precision: uint8,
    rootDelay: NtpShortTime,
    rootDispersion: NtpShortTime,
    referenceId: RefId,
    reference: NtpTimestamp,
    originate: NtpTimestamp,
    receive: NtpTimestamp,
    transmit: NtpTimestamp)

  /** The big-endian 16-bit value of bytes `i` and `i + 1`. */
  function U16At(b: seq<uint8>, i: nat): uint16
    requires i + 2 <= |b|
  {
    b[i] as int * 0x100 + b[i + 1] as int
  }

  /** The big-endian 32-bit value of bytes `i` to `i + 3`. */
  function U32At(b: seq<uint8>, i: nat): uint32
    requires i + 4 <= |b|
  {
    U16At(b, i) * 0x1_0000 + U16At(b, i + 2)
  }

  /** The header layout, read off fixed offsets: stratum, poll and precision in
      bytes 1-3, root delay 4-7, root dispersion 8-11, reference identifier
      12-15, then the reference, originate, receive and transmit timestamps at
      16, 24, 32 and 40; every multi-byte integer big-endian. */
  function BodyAt(b: seq<uint8>): Body
    requires |b| >= PacketSize
  {
    Body(b[1], b[2], b[3],
         NtpShortTime(U16At(b, 4), U16At(b, 6)),
         NtpShortTime(U16At(b, 8), U16At(b, 10)),
         b[12..16],
         NtpTimestamp(U32At(b, 16), U32At(b, 20)),
         NtpTimestamp(U32At(b, 24), U32At(b, 28)),
         NtpTimestamp(U32At(b, 32), U32At(b, 36)),
         NtpTimestamp(U32At(b, 40), U32At(b, 44)))
  }

  /** `new NtpShortTimeFormat(br.ReadUInt16(), br.ReadUInt16())`: seconds
      first, as C# evaluates arguments left to right. */
  function ReadShortTime(rd: BinaryReader.Reader): (r: (NtpShortTime, BinaryReader.Reader))
  {
    var seconds := BinaryReader.ReadUInt16(rd);
    var fraction := BinaryReader.ReadUInt16(seconds.1);
    (NtpShortTime(seconds.0, fraction.0), fraction.1)
  }

  /** `new NtpTimeStamp(br.ReadUInt32(), br.ReadUInt32())`. */
  function ReadTimestamp(rd: BinaryReader.Reader): (r: (NtpTimestamp, BinaryReader.Reader))
  {
    var seconds := BinaryReader.ReadUInt32(rd);
    var fraction := BinaryReader.ReadUInt32(seconds.1);
    (NtpTimestamp(seconds.0, fraction.0), fraction.1)
  }

  /** The reads both `Parse` methods perform after byte 0, in their order:
      `(byte)ReadByte()` for stratum, poll and precision (the cast turns the -1
      of an exhausted stream into 255), two short formats, `ReadBytes(4)` for
      the identifier, and four timestamps. */
  function ReadBody(rd: BinaryReader.Reader): (r: Body)
  {
    var front := ReadFront(rd);
    var times := ReadTimestamps(front.6);
    Body(front.0, front.1, front.2, front.3, front.4, front.5, times.0, times.1, times.2, times.3)
  }

  /** The reads of `ReadBody` before the timestamps: stratum, poll,
      precision, root delay, root dispersion and the identifier, with the
      reader they leave behind. */
  function ReadFront(rd: BinaryReader.Reader)
    : (r: (uint8, uint8, uint8, NtpShortTime, NtpShortTime, RefId, BinaryReader.Reader))
  {
    var stratum := BinaryReader.ReadByte(rd);
    var poll := BinaryReader.ReadByte(stratum.1);
    var precision := BinaryReader.ReadByte(poll.1);
    var rootDelay := ReadShortTime(precision.1);
    var rootDispersion := ReadShortTime(rootDelay.1);
    var id := BinaryReader.ReadBytes(rootDispersion.1, 4).value;
    (stratum.0 % 256, poll.0 % 256, precision.0 % 256, rootDelay.0, rootDispersion.0, id.0, id.1)
  }

  /** The four timestamp reads that end the header: reference, originate,
      receive and transmit, in that order. */
  function ReadTimestamps(rd: BinaryReader.Reader): (r: (NtpTimestamp, NtpTimestamp, NtpTimestamp, NtpTimestamp))
  {
    var reference := ReadTimestamp(rd);
    var originate := ReadTimestamp(reference.1);
    var receive := ReadTimestamp(originate.1);
    var transmit := ReadTimestamp(receive.1);
    (reference.0, originate.0, receive.0, transmit.0)
  }

  /** What both `Parse` methods read from a big-endian reader over the buffer:
      byte 0 through `ReadByte`, kept as the `int` it returns (-1 when the
      buffer is empty), then the body. A buffer shorter than 48 bytes is read as
      if padded with zeros, except that the one-byte reads yield 255 past the
      end. */
  function ReadHeader(data: seq<uint8>): (r: (int, Body))
    ensures -1 <= r.0 < 0x100
    ensures r.0 == -1 <==> |data| == 0
    ensures |data| > 0 ==> r.0 == data[0] as int
  {
    var rd0 := BinaryReader.Reader(MemoryStream(data, 0), true);
    var first := BinaryReader.ReadByte(rd0);
    (first.0, ReadBody(first.1))
  }

  /** The writes both `ToBytes` methods perform, in their order, on a
      big-endian writer over a fresh MemoryStream. */
  function WriteChain(byte0: uint8, body: Body): BinaryWriter.Writer
  {
    var w0 := BinaryWriter.Writer(MemoryStream([], 0), true);
    var w1 := BinaryWriter.WriteByte(w0, byte0);
    var w2 := BinaryWriter.WriteByte(w1, body.stratum);
    var w3 := BinaryWriter.WriteByte(w2, body.poll);
    var w4 := BinaryWriter.WriteByte(w3, body.precision);
    var w5 := BinaryWriter.WriteUInt16(w4, body.rootDelay.seconds);
    var w6 := BinaryWriter.WriteUInt16(w5, body.rootDelay.fraction);
    var w7 := BinaryWriter.WriteUInt16(w6, body.rootDispersion.seconds);
    var w8 := BinaryWriter.WriteUInt16(w7, body.rootDispersion.fraction);
    var w9 := BinaryWriter.WriteBytes(w8, body.referenceId);
    var w10 := BinaryWriter.WriteUInt32(w9, body.reference.seconds);
    var w11 := BinaryWriter.WriteUInt32(w10, body.reference.fraction);
    var w12 := BinaryWriter.WriteUInt32(w11, body.originate.seconds);
    var w13 := BinaryWriter.WriteUInt32(w12, body.originate.fraction);
    var w14 := BinaryWriter.WriteUInt32(w13, body.receive.seconds);
    var w15 := BinaryWriter.WriteUInt32(w14, body.receive.fraction);
    var w16 := BinaryWriter.WriteUInt32(w15, body.transmit.seconds);
    BinaryWriter.WriteUInt32(w16, body.transmit.fraction)
  }

  /** What both `ToBytes` methods return: after the writes, `Seek(0)` and a
      `Read` into a 48-byte buffer (see `WriteHeaderLayout`). */
  function WriteHeader(byte0: uint8, body: Body): seq<uint8>
  {
    ReadInto(WriteChain(byte0, body).stream.(pos := 0), PacketSize).0
  }

  // ---------------------------------------------------------------------
  // Lemmas

  /** The bytes `WriteHeader` produces, spelled out: byte 0, the three one-byte
      fields, then every multi-byte field big-endian, in wire order. */
  function HeaderBytes(byte0: uint8, body: Body): (r: seq<uint8>)
  {
    [byte0, body.stratum, body.poll, body.precision]
    + BinaryWriter.EncodeInt(body.rootDelay.seconds, 2, true)
    + BinaryWriter.EncodeInt(body.rootDelay.fraction, 2, true)
    + BinaryWriter.EncodeInt(body.rootDispersion.seconds, 2, true)
    + BinaryWriter.EncodeInt(body.rootDispersion.fraction, 2, true)
    + body.referenceId
    + BinaryWriter.EncodeInt(body.reference.seconds, 4, true)
    + BinaryWriter.EncodeInt(body.reference.fraction, 4, true)
    + BinaryWriter.EncodeInt(body.originate.seconds, 4, true)
    + BinaryWriter.EncodeInt(body.originate.fraction, 4, true)
    + BinaryWriter.EncodeInt(body.receive.seconds, 4, true)
    + BinaryWriter.EncodeInt(body.receive.fraction, 4, true)
    + BinaryWriter.EncodeInt(body.transmit.seconds, 4, true)
    + BinaryWriter.EncodeInt(body.transmit.fraction, 4, true)
  }

  /** The write chain of `ToBytes` appends its fields one after another to the
      empty stream, which ends up holding exactly `HeaderBytes`. */
  lemma ChainBytes(byte0: uint8, body: Body)
    ensures WriteChain(byte0, body) == BinaryWriter.Writer(MemoryStream(HeaderBytes(byte0, body), PacketSize), true)
  {
    var w := BinaryWriter.Writer(MemoryStream([], 0), true);
    var d: seq<uint8> := [];
    w, d := BinaryWriter.WriteByte(w, byte0), d + [byte0];
    assert w == BinaryWriter.Writer(MemoryStream(d, |d|), true);
    w, d := BinaryWriter.WriteByte(w, body.stratum), d + [body.stratum];
    assert w == BinaryWriter.Writer(MemoryStream(d, |d|), true);
    w, d := BinaryWriter.WriteByte(w, body.poll), d + [body.poll];
    assert w == BinaryWriter.Writer(MemoryStream(d, |d|), true);
    w, d := BinaryWriter.WriteByte(w, body.precision), d + [body.precision];
    assert d == [byte0, body.stratum, body.poll, body.precision];
    d := [byte0, body.stratum, body.poll, body.precision];
    assert w == BinaryWriter.Writer(MemoryStream(d, |d|), true);
    w, d := BinaryWriter.WriteUInt16(w, body.rootDelay.seconds), d + BinaryWriter.EncodeInt(body.rootDelay.seconds, 2, true);
    assert w == BinaryWriter.Writer(MemoryStream(d, |d|), true);
    w, d := BinaryWriter.WriteUInt16(w, body.rootDelay.fraction), d + BinaryWriter.EncodeInt(body.rootDelay.fraction, 2, true);
    assert w == BinaryWriter.Writer(MemoryStream(d, |d|), true);
    w, d := BinaryWriter.WriteUInt16(w, body.rootDispersion.seconds), d + BinaryWriter.EncodeInt(body.rootDispersion.seconds, 2, true);
    assert w == BinaryWriter.Writer(MemoryStream(d, |d|), true);
    w, d := BinaryWriter.WriteUInt16(w, body.rootDispersion.fraction), d + BinaryWriter.EncodeInt(body.rootDispersion.fraction, 2, true);
    assert w == BinaryWriter.Writer(MemoryStream(d, |d|), true);
    w, d := BinaryWriter.WriteBytes(w, body.referenceId), d + body.referenceId;
    assert w == BinaryWriter.Writer(MemoryStream(d, |d|), true);
    w, d := BinaryWriter.WriteUInt32(w, body.reference.seconds), d + BinaryWriter.EncodeInt(body.reference.seconds, 4, true);
    assert w == BinaryWriter.Writer(MemoryStream(d, |d|), true);
    w, d := BinaryWriter.WriteUInt32(w, body.reference.fraction), d + BinaryWriter.EncodeInt(body.reference.fraction, 4, true);
    assert w == BinaryWriter.Writer(MemoryStream(d, |d|), true);
    w, d := BinaryWriter.WriteUInt32(w, body.originate.seconds), d + BinaryWriter.EncodeInt(body.originate.seconds, 4, true);
    assert w == BinaryWriter.Writer(MemoryStream(d, |d|), true);
    w, d := BinaryWriter.WriteUInt32(w, body.originate.fraction), d + BinaryWriter.EncodeInt(body.originate.fraction, 4, true);
    assert w == BinaryWriter.Writer(MemoryStream(d, |d|), true);
    w, d := BinaryWriter.WriteUInt32(w, body.receive.seconds), d + BinaryWriter.EncodeInt(body.receive.seconds, 4, true);
    assert w == BinaryWriter.Writer(MemoryStream(d, |d|), true);
    w, d := BinaryWriter.WriteUInt32(w, body.receive.fraction), d + BinaryWriter.EncodeInt(body.receive.fraction, 4, true);
    assert w == BinaryWriter.Writer(MemoryStream(d, |d|), true);
    w, d := BinaryWriter.WriteUInt32(w, body.transmit.seconds), d + BinaryWriter.EncodeInt(body.transmit.seconds, 4, true);
    assert w == BinaryWriter.Writer(MemoryStream(d, |d|), true);
    w, d := BinaryWriter.WriteUInt32(w, body.transmit.fraction), d + BinaryWriter.EncodeInt(body.transmit.fraction, 4, true);
    assert w == BinaryWriter.Writer(MemoryStream(d, |d|), true);
    assert d == HeaderBytes(byte0, body);
  }

  /** Reading a whole stream from position 0 delivers its contents. */
  lemma ReadAll(data: seq<uint8>)
    ensures ReadInto(MemoryStream(data, 0), |data|).0 == data
  {
  }

  /** `ToBytes` yields 48 bytes: byte 0 as given, then every field of the
      body at its fixed offset, big-endian. */
  lemma WriteHeaderLayout(byte0: uint8, body: Body)
    ensures |WriteHeader(byte0, body)| == PacketSize
    ensures WriteHeader(byte0, body)[0] == byte0
    ensures BodyAt(WriteHeader(byte0, body)) == body
  {
    WriteHeaderBytes(byte0, body);
    HeaderBytesLayout(byte0, body);
  }

  /** The buffer `ToBytes` reads back is exactly `HeaderBytes`. */
  lemma WriteHeaderBytes(byte0: uint8, body: Body)
    ensures WriteHeader(byte0, body) == HeaderBytes(byte0, body)
  {
    ChainBytes(byte0, body);
    HeaderBytesLayout(byte0, body);
    ReadAll(HeaderBytes(byte0, body));
  }

  /** Two bytes read big-endian are their `U16At` value. */
  lemma BigEndian2(s: seq<uint8>)
    requires |s| == 2
    ensures BigEndianValue(s) == U16At(s, 0)
  {
    assert s[..1][..0] == [];
    assert BigEndianValue(s[..1]) == s[0];
  }

  /** Four bytes read big-endian are their `U32At` value. */
  lemma BigEndian4(s: seq<uint8>)
    requires |s| == 4
    ensures BigEndianValue(s) == U32At(s, 0)
  {
    BigEndian2(s[..2]);
    assert s[..3][..2] == s[..2];
  }

  /** A big-endian encoding of an item that fits its width reads back as the
      item. */
  lemma EncodedValue(item: nat, n: nat)
    requires item < Pow256(n)
    ensures BigEndianValue(BinaryWriter.EncodeInt(item, n, true)) == item
  {
    DivModUnique(item, Pow256(n), 0, item);
  }

  lemma EncodedU16(item: uint16)
    ensures U16At(BinaryWriter.EncodeInt(item, 2, true), 0) == item
  {
    EncodedValue(item, 2);
    BigEndian2(BinaryWriter.EncodeInt(item, 2, true));
  }

  lemma EncodedU32(item: uint32)
    ensures U32At(BinaryWriter.EncodeInt(item, 4, true), 0) == item
  {
    EncodedValue(item, 4);
    BigEndian4(BinaryWriter.EncodeInt(item, 4, true));
  }

  /** `HeaderBytes` is 48 bytes long, starts with byte 0 as given, and carries
      every field of the body at its fixed offset. */
  lemma HeaderBytesLayout(byte0: uint8, body: Body)
    ensures |HeaderBytes(byte0, body)| == PacketSize
    ensures HeaderBytes(byte0, body)[0] == byte0
    ensures BodyAt(HeaderBytes(byte0, body)) == body
  {
    var d1 := BinaryWriter.EncodeInt(body.rootDelay.seconds, 2, true);
    var d2 := BinaryWriter.EncodeInt(body.rootDelay.fraction, 2, true);
    var d3 := BinaryWriter.EncodeInt(body.rootDispersion.seconds, 2, true);
    var d4 := BinaryWriter.EncodeInt(body.rootDispersion.fraction, 2, true);
    var t1 := BinaryWriter.EncodeInt(body.reference.seconds, 4, true);
    var t2 := BinaryWriter.EncodeInt(body.reference.fraction, 4, true);
    var t3 := BinaryWriter.EncodeInt(body.originate.seconds, 4, true);
    var t4 := BinaryWriter.EncodeInt(body.originate.fraction, 4, true);
    var t5 := BinaryWriter.EncodeInt(body.receive.seconds, 4, true);
    var t6 := BinaryWriter.EncodeInt(body.receive.fraction, 4, true);
    var t7 := BinaryWriter.EncodeInt(body.transmit.seconds, 4, true);
    var t8 := BinaryWriter.EncodeInt(body.transmit.fraction, 4, true);
    EncodedU16(body.rootDelay.seconds);
    EncodedU16(body.rootDelay.fraction);
    EncodedU16(body.rootDispersion.seconds);
    EncodedU16(body.rootDispersion.fraction);
    EncodedU32(body.reference.seconds);
    EncodedU32(body.reference.fraction);
    EncodedU32(body.originate.seconds);
    EncodedU32(body.originate.fraction);
    EncodedU32(body.receive.seconds);
    EncodedU32(body.receive.fraction);
    EncodedU32(body.transmit.seconds);
    EncodedU32(body.transmit.fraction);
    LayoutOfPieces(byte0, body, d1, d2, d3, d4, t1, t2, t3, t4, t5, t6, t7, t8);
  }

  /** The layout of a header assembled from pieces that each decode to their
      field. */
  lemma LayoutOfPieces(byte0: uint8, body: Body,
                       d1: seq<uint8>, d2: seq<uint8>, d3: seq<uint8>, d4: seq<uint8>,
                       t1: seq<uint8>, t2: seq<uint8>, t3: seq<uint8>, t4: seq<uint8>,
                       t5: seq<uint8>, t6: seq<uint8>, t7: seq<uint8>, t8: seq<uint8>)
    requires |d1| == 2 && |d2| == 2 && |d3| == 2 && |d4| == 2
    requires |t1| == 4 && |t2| == 4 && |t3| == 4 && |t4| == 4
    requires |t5| == 4 && |t6| == 4 && |t7| == 4 && |t8| == 4
    requires U16At(d1, 0) == body.rootDelay.seconds && U16At(d2, 0) == body.rootDelay.fraction
    requires U16At(d3, 0) == body.rootDispersion.seconds && U16At(d4, 0) == body.rootDispersion.fraction
    requires U32At(t1, 0) == body.reference.seconds && U32At(t2, 0) == body.reference.fraction
    requires U32At(t3, 0) == body.originate.seconds && U32At(t4, 0) == body.originate.fraction
    requires U32At(t5, 0) == body.receive.seconds && U32At(t6, 0) == body.receive.fraction
    requires U32At(t7, 0) == body.transmit.seconds && U32At(t8, 0) == body.transmit.fraction
    ensures var b := [byte0, body.stratum, body.poll, body.precision] + d1 + d2 + d3 + d4
                     + body.referenceId + t1 + t2 + t3 + t4 + t5 + t6 + t7 + t8;
            |b| == PacketSize && b[0] == byte0 && BodyAt(b) == body
  {
  }

  /** A big-endian fixed-width read that fits inside the data yields the
      big-endian value of the next `n` bytes and moves the cursor past them. */
  lemma ReadStep(rd: BinaryReader.Reader, n: nat)
    requires rd.isBigEndian
    requires rd.stream.pos + n <= |rd.stream.data|
    ensures BinaryReader.ReadUnsigned(rd, n)
         == (BigEndianValue(rd.stream.data[rd.stream.pos..rd.stream.pos + n]),
             rd.(stream := rd.stream.(pos := rd.stream.pos + n)))
  {
  }

  /** `ReadUInt16` inside the data reads the big-endian value at the cursor. */
  lemma U16Step(rd: BinaryReader.Reader)
    requires rd.isBigEndian
    requires rd.stream.pos + 2 <= |rd.stream.data|
    ensures BinaryReader.ReadUInt16(rd)
         == (U16At(rd.stream.data, rd.stream.pos), rd.(stream := rd.stream.(pos := rd.stream.pos + 2)))
  {
    var p := rd.stream.pos;
    var d := rd.stream.data;
    ReadStep(rd, 2);
    BigEndian2(d[p..p + 2]);
    assert U16At(d[p..p + 2], 0) == U16At(d, p);
  }

  /** `ReadUInt32` inside the data reads the big-endian value at the cursor. */
  lemma U32Step(rd: BinaryReader.Reader)
    requires rd.isBigEndian
    requires rd.stream.pos + 4 <= |rd.stream.data|
    ensures BinaryReader.ReadUInt32(rd)
         == (U32At(rd.stream.data, rd.stream.pos), rd.(stream := rd.stream.(pos := rd.stream.pos + 4)))
  {
    var p := rd.stream.pos;
    var d := rd.stream.data;
    ReadStep(rd, 4);
    BigEndian4(d[p..p + 4]);
    assert U32At(d[p..p + 4], 0) == U32At(d, p);
  }

  lemma ShortTimeStep(rd: BinaryReader.Reader)
    requires rd.isBigEndian
    requires rd.stream.pos + 4 <= |rd.stream.data|
    ensures var p := rd.stream.pos; var d := rd.stream.data;
      ReadShortTime(rd)
        == (NtpShortTime(U16At(d, p), U16At(d, p + 2)), rd.(stream := rd.stream.(pos := p + 4)))
  {
    U16Step(rd);
    U16Step(rd.(stream := rd.stream.(pos := rd.stream.pos + 2)));
  }

  lemma TimestampStep(rd: BinaryReader.Reader)
    requires rd.isBigEndian
    requires rd.stream.pos + 8 <= |rd.stream.data|
    ensures var p := rd.stream.pos; var d := rd.stream.data;
      ReadTimestamp(rd)
        == (NtpTimestamp(U32At(d, p), U32At(d, p + 4)), rd.(stream := rd.stream.(pos := p + 8)))
  {
    U32Step(rd);
    U32Step(rd.(stream := rd.stream.(pos := rd.stream.pos + 4)));
  }

  lemma ByteStep(rd: BinaryReader.Reader)
    requires rd.stream.pos < |rd.stream.data|
    ensures BinaryReader.ReadByte(rd)
         == (rd.stream.data[rd.stream.pos] as int, rd.(stream := rd.stream.(pos := rd.stream.pos + 1)))
  {
  }

  lemma IdStep(rd: BinaryReader.Reader)
    requires rd.stream.pos + 4 <= |rd.stream.data|
    ensures var p := rd.stream.pos;
      BinaryReader.ReadBytes(rd, 4)
        == Success((rd.stream.data[p..p + 4], rd.(stream := rd.stream.(pos := p + 4))))
  {
  }

  /** The four timestamp reads, started at byte 16 of a buffer of at least 48
      bytes, read the timestamps at 16, 24, 32 and 40. */
  lemma TimestampsLayout(data: seq<uint8>, rd: BinaryReader.Reader)
    requires |data| >= PacketSize
    requires rd == BinaryReader.Reader(MemoryStream(data, 16), true)
    ensures ReadTimestamps(rd)
         == (NtpTimestamp(U32At(data, 16), U32At(data, 20)), NtpTimestamp(U32At(data, 24), U32At(data, 28)),
             NtpTimestamp(U32At(data, 32), U32At(data, 36)), NtpTimestamp(U32At(data, 40), U32At(data, 44)))
  {
    var reference := ReadTimestamp(rd);
    TimestampStep(rd);
    var originate := ReadTimestamp(reference.1);
    TimestampStep(reference.1);
    var receive := ReadTimestamp(originate.1);
    TimestampStep(originate.1);
    TimestampStep(receive.1);
  }

  /** The reads before the timestamps, started at byte 1 of a buffer of at
      least 48 bytes: stratum, poll and precision from bytes 1-3, the two short
      formats from 4-11, the identifier from 12-15, leaving the cursor at 16. */
  lemma FrontLayout(data: seq<uint8>)
    requires |data| >= PacketSize
    ensures ReadFront(BinaryReader.Reader(MemoryStream(data, 1), true))
         == (data[1], data[2], data[3],
             NtpShortTime(U16At(data, 4), U16At(data, 6)), NtpShortTime(U16At(data, 8), U16At(data, 10)),
             data[12..16], BinaryReader.Reader(MemoryStream(data, 16), true))
  {
    var rd := BinaryReader.Reader(MemoryStream(data, 1), true);
    var stratum := BinaryReader.ReadByte(rd);
    ByteStep(rd);
    var poll := BinaryReader.ReadByte(stratum.1);
    ByteStep(stratum.1);
    var precision := BinaryReader.ReadByte(poll.1);
    ByteStep(poll.1);
    var rootDelay := ReadShortTime(precision.1);
    ShortTimeStep(precision.1);
    var rootDispersion := ReadShortTime(rootDelay.1);
    ShortTimeStep(rootDelay.1);
    IdStep(rootDispersion.1);
    DivModUnique(data[1] as int, 256, 0, data[1] as int);
    DivModUnique(data[2] as int, 256, 0, data[2] as int);
    DivModUnique(data[3] as int, 256, 0, data[3] as int);
  }

  /** On a buffer of at least 48 bytes, the body reads follow the fixed
      layout. */
  lemma ReadBodyLayout(data: seq<uint8>)
    requires |data| >= PacketSize
    ensures ReadBody(BinaryReader.Reader(MemoryStream(data, 1), true)) == BodyAt(data)
  {
    FrontLayout(data);
    TimestampsLayout(data, BinaryReader.Reader(MemoryStream(data, 16), true));
  }

  /** `Parse` on a buffer of at least 48 bytes reads byte 0 and every field of
      the body from its fixed offset. */
  lemma ReadHeaderLayout(data: seq<uint8>)
    requires |data| >= PacketSize
    ensures ReadHeader(data) == (data[0] as int, BodyAt(data))
  {
    ReadBodyLayout(data);
  }

  /** A two-byte field read off a buffer re-encodes to the same bytes. */
  lemma FieldBytes16(b: seq<uint8>, i: nat)
    requires i + 2 <= |b|
    ensures BinaryWriter.EncodeInt(U16At(b, i), 2, true) == b[i..i + 2]
  {
    var piece := b[i..i + 2];
    assert BinaryReader.DecodeInt(piece, true) == U16At(b, i) by {
      BigEndian2(piece);
      assert U16At(piece, 0) == U16At(b, i);
    }
    BinaryReader.ReadThenWrite(piece, true);
  }

  lemma FieldBytes32(b: seq<uint8>, i: nat)
    requires i + 4 <= |b|
    ensures BinaryWriter.EncodeInt(U32At(b, i), 4, true) == b[i..i + 4]
  {
    var piece := b[i..i + 4];
    assert BinaryReader.DecodeInt(piece, true) == U32At(b, i) by {
      BigEndian4(piece);
      assert U32At(piece, 0) == U32At(b, i);
    }
    BinaryReader.ReadThenWrite(piece, true);
  }

  /** A 48-byte buffer is the concatenation of its header fields. */
  lemma SplitHeader(b: seq<uint8>)
    requires |b| == PacketSize
    ensures b == [b[0], b[1], b[2], b[3]] + b[4..6] + b[6..8] + b[8..10] + b[10..12] + b[12..16]
               + b[16..20] + b[20..24] + b[24..28] + b[28..32] + b[32..36] + b[36..40] + b[40..44] + b[44..48]
  {
  }

  /** Writing back the fields of any 48-byte header reproduces it: the byte
      layout loses nothing. */
  lemma HeaderBytesOfLayout(b: seq<uint8>)
    requires |b| == PacketSize
    ensures HeaderBytes(b[0], BodyAt(b)) == b
  {
    FieldBytes16(b, 4);
    FieldBytes16(b, 6);
    FieldBytes16(b, 8);
    FieldBytes16(b, 10);
    FieldBytes32(b, 16);
    FieldBytes32(b, 20);
    FieldBytes32(b, 24);
    FieldBytes32(b, 28);
    FieldBytes32(b, 32);
    FieldBytes32(b, 36);
    FieldBytes32(b, 40);
    FieldBytes32(b, 44);
    SplitHeader(b);
  }

  /** Two 48-byte headers with the same fields after byte 0 agree on every
      byte after byte 0. */
  lemma SameBodySameTail(a: seq<uint8>, b: seq<uint8>)
    requires |a| == PacketSize && |b| == PacketSize
    requires BodyAt(a) == BodyAt(b)
    ensures a[1..] == b[1..]
  {
    var c := [b[0]] + a[1..];
    assert BodyAt(c) == BodyAt(a);
    HeaderBytesOfLayout(c);
    HeaderBytesOfLayout(b);
    assert c == b;
    assert a[1..] == c[1..];
  }

  /** A 48-byte header is determined by byte 0 and the fields after it. */
  lemma SameHeader(a: seq<uint8>, b: seq<uint8>)
    requires |a| == PacketSize && |b| == PacketSize
    requires a[0] == b[0] && BodyAt(a) == BodyAt(b)
    ensures a == b
  {
    HeaderBytesOfLayout(a);
    HeaderBytesOfLayout(b);
  }
}
