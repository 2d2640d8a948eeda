/** The `NtpPacket` class of the server program.

    It is a mutable object with public properties instead of a builder: a fresh
    packet is all zero except for version 4, every field is a byte or a
    fixed-point pair, the precision is an unsigned byte and the protocol mode
    is kept as a raw byte. `Parse` has no version check and never fails; a
    buffer shorter than 48 bytes is read as the stream reads it. A property
    setter is a datatype update of the packet value.
 */
module ServerPacket {
  import opened Numerics
  import opened Results
  import opened NtpTypes
  import opened NtpWire

  datatype Packet = Packet(
    leap: uint8,
    version: uint8,
    mode: uint8,
    stratum: uint8,
    poll: uint8,
    precision: uint8,
    rootDelay: NtpShortTime,
    rootDispersion: NtpShortTime,
    referenceId: RefId,
    reference: NtpTimestamp,
    originate: NtpTimestamp,
    receive: NtpTimestamp,
    transmit: NtpTimestamp)

  /** `new NtpPacket()`: version 4, everything else zero. */
  function Default(): (p: Packet)
    ensures p.version == 4 && p.leap == 0 && p.mode == 0 && p.stratum == 0
    ensures p.poll == 0 && p.precision == 0
    ensures p.rootDelay == ZeroShortTime && p.rootDispersion == ZeroShortTime
    ensures p.referenceId == ZeroRefId
    ensures p.reference == ZeroTimestamp && p.originate == ZeroTimestamp
    ensures p.receive == ZeroTimestamp && p.transmit == ZeroTimestamp
  {
    Packet(0, 4, 0, 0, 0, 0, ZeroShortTime, ZeroShortTime, ZeroRefId,
           ZeroTimestamp, ZeroTimestamp, ZeroTimestamp, ZeroTimestamp)
  }

  /** The `ProtocolMode` getter: the raw byte cast to the enumeration. A byte
      of 8 or more is no named member, which is `None` here. */
  function ProtocolMode(p: Packet): (r: Option<NtpTypes.ProtocolMode>)
    ensures r.Some? <==> p.mode < 8
    ensures r.Some? ==> r.value.Code() == p.mode
  {
    if p.mode < 8 then Some(ModeFromCode(p.mode)) else None
  }

  /** The `ProtocolMode` setter: the member's numeric value is stored. */
  function SetProtocolMode(p: Packet, m: NtpTypes.ProtocolMode): (r: Packet)
    ensures ProtocolMode(r) == Some(m)
    ensures r.(mode := p.mode) == p
  {
    ModeCodeRoundTrip(m);
    p.(mode := m.Code())
  }

  /** The header fields after byte 0, as `ToBytes` writes them. */
  function BodyOf(p: Packet): Body
  {
    Body(p.stratum, p.poll, p.precision, p.rootDelay, p.rootDispersion, p.referenceId,
         p.reference, p.originate, p.receive, p.transmit)
  }

  /** `ToBytes()`: byte 0 is `(byte)((leap << 6) | (version << 3) | mode)`,
      the rest is the body, big-endian, 48 bytes in all. Stated as the header
      layout; that the source's writer calls produce exactly these bytes is
      `ToBytesIsWriteSequence`. */
  function ToBytes(p: Packet): (r: seq<uint8>)
    ensures |r| == PacketSize
    ensures r[0] == PackByte0(p.leap, p.version, p.mode)
    ensures BodyAt(r) == BodyOf(p)
  {
    HeaderBytesLayout(PackByte0(p.leap, p.version, p.mode), BodyOf(p));
    HeaderBytes(PackByte0(p.leap, p.version, p.mode), BodyOf(p))
  }

  /** The field assignments of `Parse` once the header has been read: leap,
      version and mode from byte 0 `b` (the `int` from `ReadByte`), mode from
      the given bits, the body as read. */
  function FromHeader(b: int, body: Body, bits: ModeBits): Packet
  {
    Packet(LeapOf(b), VersionOf(b), ModeOf(b, bits), body.stratum, body.poll, body.precision,
           body.rootDelay, body.rootDispersion, body.referenceId,
           body.reference, body.originate, body.receive, body.transmit)
  }

  /** `Parse(byte[])`, taking the mode from the given bits of byte 0. It
      accepts any buffer: an empty one gives the -1 of `ReadByte` as byte 0,
      which reads as leap 255, version 7 and as-written mode 3. */
  function ParseWith(data: seq<uint8>, bits: ModeBits): (r: Packet)
    ensures var first := if |data| == 0 then -1 else data[0] as int;
            r.leap == LeapOf(first) && r.version == VersionOf(first) && r.mode == ModeOf(first, bits)
  {
    var header := ReadHeader(data);
    FromHeader(header.0, header.1, bits)
  }

  /** `NtpPacket.Parse` as written: the mode is `(b & 0xC0) >> 6`, the
      leap-indicator bits, so it always equals the low two bits of the leap
      indicator. */
  function Parse(data: seq<uint8>): (r: Packet)
    ensures r.mode == r.leap % 4
  {
    ModeIsLeapMod4(if |data| == 0 then -1 else data[0] as int);
    ParseWith(data, HighBits)
  }

  /** `NtpPacket.Parse` with the mode taken from bits 0-2, as section 7.3 of
      RFC 5905 places it. */
  function ParseCorrected(data: seq<uint8>): (r: Packet)
  {
    ParseWith(data, LowBits)
  }

  /** The `ReferenceIdentifier` getter, the same decoding as the client
      library's. */
  function ReferenceIdentifier(p: Packet): (r: string)
    ensures |r| == 4
    ensures forall i :: 0 <= i < 4 && p.referenceId[i] < 128 ==> r[i] as int == p.referenceId[i]
  {
    ReferenceIdText(p.referenceId)
  }

  /** The `ReferenceIdentifier` setter: one to four ASCII bytes, copied over
      the start of the identifier; anything else throws. */
  function SetReferenceIdentifier(p: Packet, value: string): (r: Result<Packet, RefIdError>)
    ensures r.Success? <==> 1 <= |value| <= 4
    ensures r.Success? ==> r.value == p.(referenceId := r.value.referenceId)
    ensures r.Success? && IsAscii(value) ==> ReferenceIdentifier(r.value)[..|value|] == value
    ensures r.Success? ==> r.value.referenceId[|value|..] == p.referenceId[|value|..]
  {
    var id :- AssignReferenceId(p.referenceId, value);
    Success(p.(referenceId := id))
  }

  // ---------------------------------------------------------------------
  // Lemmas

  /** The writer calls of `ToBytes`, followed by `Seek(0)` and a 48-byte
      `Read`, return `ToBytes(p)`. */
  lemma ToBytesIsWriteSequence(p: Packet)
    ensures WriteHeader(PackByte0(p.leap, p.version, p.mode), BodyOf(p)) == ToBytes(p)
  {
    WriteHeaderBytes(PackByte0(p.leap, p.version, p.mode), BodyOf(p));
  }

  /** On a buffer of at least 48 bytes, parsing reads byte 0 and the fields
      at their fixed offsets. */
  lemma ParseWithLayout(data: seq<uint8>, bits: ModeBits)
    requires |data| >= PacketSize
    ensures ParseWith(data, bits) == FromHeader(data[0], BodyAt(data), bits)
  {
    ReadHeaderLayout(data);
  }

  /** The parser's field assignments applied to the header fields of `p`
      give `p` back, with the mode read from the given bits of byte 0. */
  lemma FromHeaderOfPacket(p: Packet, bits: ModeBits)
    requires p.leap < 4 && p.version < 8 && p.mode < 8
    ensures FromHeader(PackByte0(p.leap, p.version, p.mode), BodyOf(p), bits)
            == p.(mode := if bits == HighBits then p.leap else p.mode)
    ensures bits == LowBits ==> FromHeader(PackByte0(p.leap, p.version, p.mode), BodyOf(p), bits) == p
  {
    var byte0 := PackByte0(p.leap, p.version, p.mode);
    assert LeapOf(byte0) == p.leap && VersionOf(byte0) == p.version
        && ModeOf(byte0, LowBits) == p.mode && ModeOf(byte0, HighBits) == p.leap by {
      PackByte0Fields(p.leap, p.version, p.mode);
    }
  }

  /** Parsing what `ToBytes` wrote gives the packet back, except that the
      as-written parser replaces the mode by the leap indicator. */
  lemma ParseRoundTripAsWritten(p: Packet)
    requires p.leap < 4 && p.version < 8 && p.mode < 8
    ensures Parse(ToBytes(p)) == p.(mode := p.leap)
  {
    ParseWithLayout(ToBytes(p), HighBits);
    FromHeaderOfPacket(p, HighBits);
  }

  /** With the mode taken from bits 0-2, parsing what `ToBytes` wrote gives
      the packet back unchanged. */
  lemma ParseCorrectedRoundTrip(p: Packet)
    requires p.leap < 4 && p.version < 8 && p.mode < 8
    ensures ParseCorrected(ToBytes(p)) == p
  {
    ParseWithLayout(ToBytes(p), LowBits);
    FromHeaderOfPacket(p, LowBits);
  }

  /** `ToBytes` of a packet whose fields are those of a header `data`, with
      the mode taken from bits 0-2, is `data` itself. */
  lemma ToBytesOfFields(p: Packet, data: seq<uint8>)
    requires |data| == PacketSize
    requires p.leap == LeapOf(data[0]) && p.version == VersionOf(data[0])
    requires p.mode == ModeOf(data[0], LowBits) && BodyOf(p) == BodyAt(data)
    ensures ToBytes(p) == data
  {
    var r := ToBytes(p);
    assert r[0] == data[0] by {
      Byte0Decompose(data[0]);
    }
    SameHeader(r, data);
  }

  /** Every 48-byte buffer, whatever its version bits, survives the corrected
      parser followed by `ToBytes`. */
  lemma ParseCorrectedThenToBytes(data: seq<uint8>)
    requires |data| == PacketSize
    ensures ToBytes(ParseCorrected(data)) == data
  {
    ParseWithLayout(data, LowBits);
    ToBytesOfFields(ParseCorrected(data), data);
  }

  /** The as-written parser followed by `ToBytes` keeps bytes 1-47 but
      rewrites byte 0: its mode bits are replaced by the leap indicator. */
  lemma ParseThenToBytesAsWritten(data: seq<uint8>)
    requires |data| == PacketSize
    ensures var r := ToBytes(Parse(data));
            && r[0] == PackByte0(LeapOf(data[0]), VersionOf(data[0]), LeapOf(data[0]))
            && r[1..] == data[1..]
  {
    ParseWithLayout(data, HighBits);
    ModeAsWrittenIsLeap(data[0]);
    SameBodySameTail(ToBytes(Parse(data)), data);
  }

  /** A version-4 client request, byte 0 = 0x23: the as-written parser
      reports mode 0 (Reserved) where the corrected one reports 3 (Client),
      and writing the parsed packet back gives 0x20 in byte 0. */
  lemma ClientRequestLosesMode(data: seq<uint8>)
    requires |data| == PacketSize && data[0] == 0x23
    ensures Parse(data).mode == 0 && ProtocolMode(Parse(data)) == Some(Reserved)
    ensures ParseCorrected(data).mode == 3 && ProtocolMode(ParseCorrected(data)) == Some(Client)
    ensures ToBytes(Parse(data))[0] == 0x20
  {
    ClientRequestByte();
    ParseThenToBytesAsWritten(data);
  }

  /** An empty buffer parses without error: byte 0 is the -1 of `ReadByte`,
      so the leap indicator reads 255, the version 7 and the mode 3. */
  lemma ParseEmpty(data: seq<uint8>)
    requires |data| == 0
    ensures Parse(data).leap == 255 && Parse(data).version == 7 && Parse(data).mode == 3
  {
    assert LeapOf(-1) == 255 && VersionOf(-1) == 7 && ModeOf(-1, HighBits) == 3;
  }
}
