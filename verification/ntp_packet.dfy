/** The `NtpPacket` class of the client library, with its `Builder`.

    A packet is built either through the builder, which fills in missing
    timestamps according to the protocol mode, or by `Parse`, which insists on
    protocol version 4. The precision is a signed byte here. Clock readings
    (`DateTime.UtcNow` converted with `NtpTimeStamp.FromDateTime`) enter as
    parameters.
 */
module NtpPacket {
  import opened Numerics
  import opened Results
  import opened NtpTypes
  import opened NtpWire

  /** The exceptions raised by the builder and by `Parse`. */
  datatype PacketError =
    | UnsupportedVersion            // Parse: version bits are not 4
    | OriginateTimestampUnset       // Build: originate missing outside Client mode
    | ReceiveTimestampUnset         // Build: receive missing outside Client mode
    | ReferenceIdentifierTooLong    // Builder.SetReferenceIdentifier: more than 4 bytes
    | ReferenceIdentifierRejected   // ReferenceIdentifier setter: 0 or more than 4 bytes

  datatype Packet = Packet(
    leap: uint8,
    version: uint8,
    mode: ProtocolMode,
    stratum: uint8,
    poll: uint8,
    precision: int8,
    rootDelay: NtpShortTime,
    rootDispersion: NtpShortTime,
    referenceId: RefId,
    reference: NtpTimestamp,
    originate: NtpTimestamp,
    receive: NtpTimestamp,
    transmit: NtpTimestamp)

  /** The builder's state. The version number is not a field: the builder's is
      read-only and always 4. Timestamps are nullable until set. */
  datatype Builder = Builder(
    leap: uint8,
    mode: ProtocolMode,
    stratum: uint8,
    poll: uint8,
    precision: int8,
    rootDelay: NtpShortTime,
    rootDispersion: NtpShortTime,
    referenceId: RefId,
    reference: Option<NtpTimestamp>,
    originate: Option<NtpTimestamp>,
    receive: Option<NtpTimestamp>,
    transmit: Option<NtpTimestamp>)

  const BuilderVersion: uint8 := 4

  /** `NtpPacket.NewBuilder()`: a Client-mode request at stratum 1, poll 4,
      precision -6, with nothing else set. The setters that only store their
      argument are datatype updates of this value. */
  function NewBuilder(): (b: Builder)
    ensures b.leap == 0 && b.mode == Client && b.stratum == 1 && b.poll == 4 && b.precision == -6
    ensures b.rootDelay == ZeroShortTime && b.rootDispersion == ZeroShortTime && b.referenceId == ZeroRefId
    ensures b.reference.None? && b.originate.None? && b.receive.None? && b.transmit.None?
  {
    Builder(0, Client, 1, 4, -6, ZeroShortTime, ZeroShortTime, ZeroRefId, None, None, None, None)
  }

  /** `Builder.SetReferenceIdentifier` as written: the length is clamped to 4,
      but the whole argument is then copied into a span of that length, which
      throws when the argument is longer than the span. */
  function SetReferenceIdentifierAsWritten(b: Builder, id: seq<uint8>): (r: Result<Builder, PacketError>)
    ensures r.Success? <==> |id| <= 4
    ensures r.Success? ==> r.value == b.(referenceId := r.value.referenceId)
    ensures r.Success? ==> r.value.referenceId[..|id|] == id
    ensures r.Success? ==> r.value.referenceId[|id|..] == b.referenceId[|id|..]
  {
    if |id| > 4 then Failure(ReferenceIdentifierTooLong)
    else Success(b.(referenceId := id + b.referenceId[|id|..]))
  }

  /** `Builder.SetReferenceIdentifier` as its length clamp intends: at most the
      first four bytes are copied, over the start of the current identifier. */
  function SetReferenceIdentifier(b: Builder, id: seq<uint8>): (r: Builder)
    ensures r == b.(referenceId := r.referenceId)
    ensures var n := if |id| > 4 then 4 else |id|;
            r.referenceId[..n] == id[..n] && r.referenceId[n..] == b.referenceId[n..]
  {
    var n := if |id| > 4 then 4 else |id|;
    b.(referenceId := id[..n] + b.referenceId[n..])
  }

  /** `Builder.Build()`, with `now` standing for the clock reading it takes
      when it has to fill in a timestamp. Outside Client mode the originate and
      the receive timestamp must have been set, checked in that order. */
  function Build(b: Builder, now: NtpTimestamp): (r: Result<Packet, PacketError>)
    ensures r.Success? <==> b.mode == Client || (b.originate.Some? && b.receive.Some?)
    ensures r.Failure? ==> r.error == if b.originate.None? then OriginateTimestampUnset else ReceiveTimestampUnset
    ensures r.Success? ==>
      && r.value.version == 4
      && r.value.leap == b.leap && r.value.mode == b.mode && r.value.stratum == b.stratum
      && r.value.poll == b.poll && r.value.precision == b.precision
      && r.value.rootDelay == b.rootDelay && r.value.rootDispersion == b.rootDispersion
      && r.value.referenceId == b.referenceId
    ensures r.Success? ==> r.value.reference == b.reference.GetOr(ZeroTimestamp)
    ensures r.Success? ==> r.value.originate == b.originate.GetOr(now)
    ensures r.Success? ==> r.value.receive == b.receive.GetOr(ZeroTimestamp)
    ensures r.Success? ==> r.value.transmit == b.transmit.GetOr(if b.mode == Client then ZeroTimestamp else now)
  {
    var originate :-
      if b.originate.Some? then Success(b.originate.value)
      else if b.mode == Client then Success(now)
      else Failure(OriginateTimestampUnset);
    var reference := b.reference.GetOr(ZeroTimestamp);
    var receive :-
      if b.receive.Some? then Success(b.receive.value)
      else if b.mode == Client then Success(ZeroTimestamp)
      else Failure(ReceiveTimestampUnset);
    var transmit :=
      if b.transmit.Some? then b.transmit.value
      else if b.mode == Client then ZeroTimestamp
      else now;
    Success(Packet(b.leap, BuilderVersion, b.mode, b.stratum, b.poll, b.precision,
                   b.rootDelay, b.rootDispersion, b.referenceId,
                   reference, originate, receive, transmit))
  }

  /** The header fields after byte 0, as `ToBytes` writes them: the precision
      goes out as `(byte)precision`, its two's-complement byte. */
  function BodyOf(p: Packet): Body
  {
    Body(p.stratum, p.poll, p.precision % 256, p.rootDelay, p.rootDispersion, p.referenceId,
         p.reference, p.originate, p.receive, p.transmit)
  }

  /** `ToBytes()`: byte 0 packs leap, version and mode; the rest is the body,
      big-endian, 48 bytes in all. Stated as the header layout; that the
      source's sequence of writer calls produces exactly these bytes is
      `ToBytesIsWriteSequence`. */
  function ToBytes(p: Packet): (r: seq<uint8>)
    ensures |r| == PacketSize
    ensures r[0] == PackByte0(p.leap, p.version, p.mode.Code())
    ensures BodyAt(r) == BodyOf(p)
  {
    HeaderBytesLayout(PackByte0(p.leap, p.version, p.mode.Code()), BodyOf(p));
    HeaderBytes(PackByte0(p.leap, p.version, p.mode.Code()), BodyOf(p))
  }

  /** The builder calls `Parse(byte[])` makes once the header has been read:
      byte 0 `b` (the `int` from `ReadByte`) must carry version 4; leap and
      mode come from `b`, the precision byte is cast with `(sbyte)`, and the
      identifier and all four timestamps are set, so `Build` neither fails nor
      reads the clock. It is handed the zero timestamp for that unused
      reading. */
  function FromHeader(b: int, body: Body, bits: ModeBits): (r: Result<Packet, PacketError>)
    ensures r.Failure? <==> VersionOf(b) != 4
    ensures r.Failure? ==> r.error == UnsupportedVersion
    ensures r.Success? ==>
      && r.value.leap == LeapOf(b)
      && r.value.version == 4
      && r.value.mode == ModeFromCode(ModeOf(b, bits))
      && r.value.precision == ToSigned(body.precision, 1)
      && BodyOf(r.value) == body
  {
    if VersionOf(b) != 4 then
      Failure(UnsupportedVersion)
    else
      SignedReading(body.precision, 1);
      var builder := NewBuilder().(
        leap := LeapOf(b),
        stratum := body.stratum,
        mode := ModeFromCode(ModeOf(b, bits)),
        poll := body.poll,
        precision := ToSigned(body.precision, 1),
        rootDelay := body.rootDelay,
        rootDispersion := body.rootDispersion);
      var withId := SetReferenceIdentifier(builder, body.referenceId);
      assert withId.referenceId == body.referenceId;
      var complete := withId.(
        reference := Some(body.reference),
        originate := Some(body.originate),
        receive := Some(body.receive),
        transmit := Some(body.transmit));
      Build(complete, ZeroTimestamp)
  }

  /** `Parse(byte[])`, taking the mode from the given bits of byte 0. The
      source takes it from `HighBits` (see `Parse`). Byte 0 comes from
      `ReadByte`, so an empty buffer yields -1, whose version bits read as 7. */
  function ParseWith(data: seq<uint8>, bits: ModeBits): (r: Result<Packet, PacketError>)
    ensures var first := if |data| == 0 then -1 else data[0] as int;
            r.Failure? <==> VersionOf(first) != 4
    ensures r.Failure? ==> r.error == UnsupportedVersion
    ensures r.Success? ==> |data| > 0
    ensures r.Success? ==> r.value.leap == LeapOf(data[0]) && r.value.mode == ModeFromCode(ModeOf(data[0], bits))
  {
    var header := ReadHeader(data);
    FromHeader(header.0, header.1, bits)
  }

  /** `NtpPacket.Parse` as written: the mode comes from bits 6-7. */
  function Parse(data: seq<uint8>): (r: Result<Packet, PacketError>)
    ensures r.Success? ==> r.value.mode.Code() == r.value.leap
  {
    var r := ParseWith(data, HighBits);
    if r.Success? then
      ModeAsWrittenIsLeap(data[0]);
      r
    else r
  }

  /** `NtpPacket.Parse` with the mode taken from bits 0-2, as section 7.3 of
      RFC 5905 places it. */
  function ParseCorrected(data: seq<uint8>): (r: Result<Packet, PacketError>)
  {
    ParseWith(data, LowBits)
  }

  /** The `ReferenceIdentifier` getter. */
  function ReferenceIdentifier(p: Packet): (r: string)
    ensures |r| == 4
    ensures forall i :: 0 <= i < 4 && p.referenceId[i] < 128 ==> r[i] as int == p.referenceId[i]
  {
    ReferenceIdText(p.referenceId)
  }

  /** The `ReferenceIdentifier` setter. */
  function SetReferenceIdentifierText(p: Packet, value: string): (r: Result<Packet, PacketError>)
    ensures r.Success? <==> 1 <= |value| <= 4
    ensures r.Success? ==> r.value == p.(referenceId := r.value.referenceId)
    ensures r.Success? && IsAscii(value) ==> ReferenceIdentifier(r.value)[..|value|] == value
    ensures r.Success? ==> r.value.referenceId[|value|..] == p.referenceId[|value|..]
  {
    match AssignReferenceId(p.referenceId, value)
    case Success(id) => Success(p.(referenceId := id))
    case Failure(_) => Failure(ReferenceIdentifierRejected)
  }

  // ---------------------------------------------------------------------
  // Lemmas

  /** The writer calls of `ToBytes` (byte 0, stratum, poll, precision, then
      every multi-byte field big-endian), followed by `Seek(0)` and a 48-byte
      `Read`, return `ToBytes(p)`. */
  lemma ToBytesIsWriteSequence(p: Packet)
    ensures WriteHeader(PackByte0(p.leap, p.version, p.mode.Code()), BodyOf(p)) == ToBytes(p)
  {
    WriteHeaderBytes(PackByte0(p.leap, p.version, p.mode.Code()), BodyOf(p));
  }

  /** On a buffer of at least 48 bytes, parsing is the builder step applied
      to byte 0 and the fields at their fixed offsets. */
  lemma ParseWithLayout(data: seq<uint8>, bits: ModeBits)
    requires |data| >= PacketSize
    ensures ParseWith(data, bits) == FromHeader(data[0], BodyAt(data), bits)
  {
    ReadHeaderLayout(data);
  }

  /** The builder step applied to the header fields of `p`: the fields of
      `p` come back, with the mode read from the given bits of byte 0, which
      hold the leap indicator (`HighBits`) or the mode code (`LowBits`). */
  lemma FromHeaderOfPacket(p: Packet, bits: ModeBits)
    requires p.version == 4 && p.leap < 4
    ensures FromHeader(PackByte0(p.leap, 4, p.mode.Code()), BodyOf(p), bits)
            == Success(p.(mode := if bits == HighBits then ModeFromCode(p.leap) else p.mode))
    ensures bits == LowBits ==> FromHeader(PackByte0(p.leap, 4, p.mode.Code()), BodyOf(p), bits) == Success(p)
  {
    var byte0 := PackByte0(p.leap, 4, p.mode.Code());
    assert LeapOf(byte0) == p.leap && VersionOf(byte0) == 4
        && ModeOf(byte0, LowBits) == p.mode.Code() && ModeOf(byte0, HighBits) == p.leap by {
      PackByte0Fields(p.leap, 4, p.mode.Code());
    }
    var r := FromHeader(byte0, BodyOf(p), bits);
    assert r.value.precision == p.precision by {
      assert Pow256(1) == 256;
      SignedRoundTrip(p.precision, 1);
    }
    ModeCodeRoundTrip(p.mode);
    var q := p.(mode := if bits == HighBits then ModeFromCode(p.leap) else p.mode);
    assert BodyOf(q) == BodyOf(p);
    assert r.value == q;
  }

  /** What the parser makes of the bytes `ToBytes` wrote for `p`. */
  lemma ParseOfToBytes(p: Packet, bits: ModeBits)
    requires p.version == 4 && p.leap < 4
    ensures ParseWith(ToBytes(p), bits)
            == Success(p.(mode := if bits == HighBits then ModeFromCode(p.leap) else p.mode))
    ensures bits == LowBits ==> ParseWith(ToBytes(p), bits) == Success(p)
  {
    ParseWithLayout(ToBytes(p), bits);
    FromHeaderOfPacket(p, bits);
  }

  /** Parsing what `ToBytes` wrote gives the packet back, except that the
      as-written parser replaces the mode by the leap indicator. */
  lemma ParseRoundTripAsWritten(p: Packet)
    requires p.version == 4 && p.leap < 4
    ensures Parse(ToBytes(p)) == Success(p.(mode := ModeFromCode(p.leap)))
  {
    ParseOfToBytes(p, HighBits);
  }

  /** With the mode taken from bits 0-2, parsing what `ToBytes` wrote gives
      the packet back unchanged. */
  lemma ParseCorrectedRoundTrip(p: Packet)
    requires p.version == 4 && p.leap < 4
    ensures ParseCorrected(ToBytes(p)) == Success(p)
  {
    ParseOfToBytes(p, LowBits);
  }

  /** `ToBytes` of a packet whose fields are those of a header `data`, with
      the mode taken from bits 0-2, is `data` itself. */
  lemma ToBytesOfFields(p: Packet, data: seq<uint8>)
    requires |data| == PacketSize
    requires p.leap == LeapOf(data[0]) && p.version == VersionOf(data[0])
    requires p.mode.Code() == ModeOf(data[0], LowBits) && BodyOf(p) == BodyAt(data)
    ensures ToBytes(p) == data
  {
    var r := ToBytes(p);
    assert r[0] == data[0] by {
      Byte0Decompose(data[0]);
    }
    SameHeader(r, data);
  }

  /** Every 48-byte version-4 header survives the corrected parser followed by
      `ToBytes`: no bit of it is lost. */
  lemma ParseCorrectedThenToBytes(data: seq<uint8>)
    requires |data| == PacketSize && VersionOf(data[0]) == 4
    ensures ParseCorrected(data).Success?
    ensures ToBytes(ParseCorrected(data).value) == data
  {
    ParseWithLayout(data, LowBits);
    ToBytesOfFields(ParseCorrected(data).value, data);
  }

  /** The as-written parser followed by `ToBytes` keeps bytes 1-47 but
      rewrites byte 0: its mode bits are replaced by the leap indicator. */
  lemma ParseThenToBytesAsWritten(data: seq<uint8>)
    requires |data| == PacketSize && VersionOf(data[0]) == 4
    ensures Parse(data).Success?
    ensures var r := ToBytes(Parse(data).value);
            && r[0] == PackByte0(LeapOf(data[0]), 4, LeapOf(data[0]))
            && r[1..] == data[1..]
  {
    ParseWithLayout(data, HighBits);
    var r := ToBytes(Parse(data).value);
    ModeAsWrittenIsLeap(data[0]);
    SameBodySameTail(r, data);
  }

  /** A concrete client request: byte 0x23 is leap 0, version 4, mode 3
      (Client). The as-written parser reports mode 0 (Reserved), and writing
      the packet back yields 0x20 in byte 0 instead of 0x23. */
  lemma ClientRequestLosesMode(data: seq<uint8>)
    requires |data| == PacketSize && data[0] == 0x23
    ensures Parse(data).Success? && Parse(data).value.mode == Reserved
    ensures ToBytes(Parse(data).value)[0] == 0x20 && ToBytes(Parse(data).value) != data
  {
    ClientRequestByte();
    ParseThenToBytesAsWritten(data);
    assert Parse(data).value.mode == ModeFromCode(0);
  }

  /** The same client request through the corrected parser: mode Client, and
      writing it back reproduces the header. */
  lemma ClientRequestKeepsMode(data: seq<uint8>)
    requires |data| == PacketSize && data[0] == 0x23
    ensures ParseCorrected(data).Success? && ParseCorrected(data).value.mode == Client
    ensures ToBytes(ParseCorrected(data).value) == data
  {
    ClientRequestByte();
    ParseCorrectedThenToBytes(data);
  }

  /** Up to four bytes, the as-written `SetReferenceIdentifier` and the
      corrected one agree. */
  lemma SetReferenceIdentifierAgrees(b: Builder, id: seq<uint8>)
    requires |id| <= 4
    ensures SetReferenceIdentifierAsWritten(b, id) == Success(SetReferenceIdentifier(b, id))
  {
    assert id[..|id|] == id;
  }

  /** A five-byte identifier: the length clamp says four bytes are copied,
      but the as-written setter fails; the corrected one keeps the first four. */
  lemma FiveByteIdentifierRejected(b: Builder)
    ensures SetReferenceIdentifierAsWritten(b, [1, 2, 3, 4, 5]).Failure?
    ensures SetReferenceIdentifier(b, [1, 2, 3, 4, 5]).referenceId == [1, 2, 3, 4]
  {
    assert SetReferenceIdentifier(b, [1, 2, 3, 4, 5]).referenceId[..4] == [1, 2, 3, 4];
  }

  /** A request built from a fresh builder is a version-4 Client packet whose
      originate timestamp is the clock reading and whose other timestamps
      are zero. */
  lemma ClientRequestFromNewBuilder(now: NtpTimestamp)
    ensures Build(NewBuilder(), now).Success?
    ensures var p := Build(NewBuilder(), now).value;
            && p.version == 4 && p.mode == Client && p.leap == 0
            && p.originate == now && p.transmit == ZeroTimestamp
            && p.reference == ZeroTimestamp && p.receive == ZeroTimestamp
  {
  }

  /** Outside Client mode the builder never reads the clock for the originate
      and receive timestamps: they must be given. */
  lemma BuildServerNeedsTimestamps(b: Builder, now: NtpTimestamp)
    requires b.mode != Client
    ensures Build(b, now).Success? <==> b.originate.Some? && b.receive.Some?
    ensures Build(b, now).Success? ==>
      Build(b, now).value.originate == b.originate.value && Build(b, now).value.receive == b.receive.value
  {
  }
}
