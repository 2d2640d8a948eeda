/** The value types both packet classes share: the two fixed-point time formats
    of section 6 of RFC 5905, the protocol-mode enumeration, the reference
    identifier, and the packing of leap indicator, version and mode into the
    first header byte. */
module NtpTypes {
  import opened Numerics
  import opened Results

  /** `NtpTimeStamp`: 32-bit seconds since 1900 and a 32-bit binary fraction.
      The conversions to and from calendar time are floating point and are not
      part of this model; clock readings enter as values of this type. */
  datatype NtpTimestamp = NtpTimestamp(seconds: uint32, fraction: uint32)

  /** `new NtpTimeStamp()`: all zero. */
  const ZeroTimestamp := NtpTimestamp(0, 0)

  /** `NtpShortTimeFormat`: 16-bit seconds and a 16-bit binary fraction. */
  datatype NtpShortTime = NtpShortTime(seconds: uint16, fraction: uint16)

  const ZeroShortTime := NtpShortTime(0, 0)

  /** `NtpProtocolMode`, with the numeric values of its C# declaration. */
  datatype ProtocolMode =
    | Reserved | SymmetricActive | SymmetricPassive | Client
    | Server | Broadcast | NtpControl | ReservedForPrivateUsage
  {
    function Code(): (c: uint8)
      ensures c < 8
    {
      match this
      case Reserved => 0
      case SymmetricActive => 1
      case SymmetricPassive => 2
      case Client => 3
      case Server => 4
      case Broadcast => 5
      case NtpControl => 6
      case ReservedForPrivateUsage => 7
    }
  }

  /** The cast `(NtpProtocolMode)code` for a code inside the enumeration. */
  function ModeFromCode(code: int): (m: ProtocolMode)
    requires 0 <= code < 8
    ensures m.Code() == code
  {
    if code == 0 then Reserved
    else if code == 1 then SymmetricActive
    else if code == 2 then SymmetricPassive
    else if code == 3 then Client
    else if code == 4 then Server
    else if code == 5 then Broadcast
    else if code == 6 then NtpControl
    else ReservedForPrivateUsage
  }

  /** Every mode survives the cast to its code and back. */
  lemma ModeCodeRoundTrip(m: ProtocolMode)
    ensures ModeFromCode(m.Code()) == m
  {
  }

  /** The four raw bytes of the reference identifier (always a 4-byte array in
      both packet classes). */
  type RefId = s: seq<uint8> | |s| == 4 witness [0, 0, 0, 0]

  const ZeroRefId: RefId := [0, 0, 0, 0]

  /** Size of the header on the wire. */
  const PacketSize := 48

  // ---------------------------------------------------------------------
  // Byte 0: leap indicator, version, mode

  /** `(byte)((leap << 6) | (version << 3) | mode)`, for any byte-sized
      operands: the OR is taken bitwise and the result truncated to a byte. */
  function PackByte0(leap: uint8, version: uint8, mode: uint8): uint8
  {
    BitOr(BitOr(leap * 64, version * 8), mode) % 256
  }

  /** `(byte)(b >> 6)` where `b` is the `int` returned by `ReadByte` (-1 when the
      data is exhausted). */
  function LeapOf(b: int): uint8
  {
    (b / 64) % 256
  }

  /** `(byte)((b & 0x38) >> 3)`: bits 3-5. */
  function VersionOf(b: int): uint8
  {
    (b / 8) % 8
  }

  /** Which bits of byte 0 a parser takes the mode from. Both parsers in the
      source use `(b & 0xC0) >> 6`, the leap-indicator bits (`HighBits`);
      section 7.3 of RFC 5905 puts the mode in the low three bits (`LowBits`,
      `b & 0x07`). */
  datatype ModeBits = HighBits | LowBits

  function ModeOf(b: int, bits: ModeBits): uint8
  {
    match bits
    case HighBits => (b / 64) % 4
    case LowBits => b % 8
  }

  /** With leap < 4, version < 8 and mode < 8 the three fields occupy disjoint
      bits of byte 0, and each can be read back from its own bits. */
  lemma PackByte0Fields(leap: uint8, version: uint8, mode: uint8)
    requires leap < 4 && version < 8 && mode < 8
    ensures PackByte0(leap, version, mode) == leap * 64 + version * 8 + mode
    ensures LeapOf(PackByte0(leap, version, mode)) == leap
    ensures VersionOf(PackByte0(leap, version, mode)) == version
    ensures ModeOf(PackByte0(leap, version, mode), LowBits) == mode
    ensures ModeOf(PackByte0(leap, version, mode), HighBits) == leap
  {
    PackByte0Value(leap, version, mode);
    var b := leap * 64 + version * 8 + mode;
    DivModUnique(b, 64, leap, version * 8 + mode);
    DivModUnique(b, 8, leap * 8 + version, mode);
    DivModUnique(leap * 8 + version, 8, leap, version);
    DivModUnique(leap, 256, 0, leap);
    DivModUnique(leap, 4, 0, leap);
    DivModUnique(version, 8, 0, version);
  }

  lemma PackByte0Value(leap: uint8, version: uint8, mode: uint8)
    requires leap < 4 && version < 8 && mode < 8
    ensures PackByte0(leap, version, mode) == leap * 64 + version * 8 + mode
  {
    var inner := leap * 64 + version * 8;
    assert BitOr(leap * 64, version * 8) == inner by {
      assert Pow2(6) == 64;
      BitOrDisjoint(leap, version * 8, 6);
    }
    assert BitOr(inner, mode) == inner + mode by {
      assert Pow2(3) == 8;
      assert (leap * 8 + version) * 8 == inner;
      BitOrDisjoint(leap * 8 + version, mode, 3);
    }
    assert (inner + mode) % 256 == inner + mode by {
      DivModUnique(inner + mode, 256, 0, inner + mode);
    }
  }

  /** The as-written mode decoding reads the leap-indicator bits: for every
      byte, the decoded mode equals the decoded leap indicator. */
  lemma {:induction false} ModeAsWrittenIsLeap(b: uint8)
    ensures ModeOf(b, HighBits) == LeapOf(b)
    ensures ModeOf(b, HighBits) < 4
  {
    DivModUnique(b / 64, 4, 0, b / 64);
  }

  /** For any `int` `b`, also the -1 of an exhausted stream, the as-written
      mode is the low two bits of the leap indicator. */
  lemma ModeIsLeapMod4(b: int)
    ensures ModeOf(b, HighBits) == LeapOf(b) % 4
  {
    var q := b / 64;
    DivModUnique(q % 256, 4, (q % 256) / 4, (q % 256) % 4);
    DivModUnique(q, 4, (q / 256) * 64 + (q % 256) / 4, (q % 256) % 4);
  }

  /** Every byte is its three fields packed back together: the leap indicator
      in bits 6-7, the version in bits 3-5 and the mode in bits 0-2. */
  lemma Byte0Decompose(b: uint8)
    ensures LeapOf(b) < 4
    ensures b == LeapOf(b) * 64 + VersionOf(b) * 8 + ModeOf(b, LowBits)
    ensures PackByte0(LeapOf(b), VersionOf(b), ModeOf(b, LowBits)) == b
  {
    var leap, rest := b / 64, b % 64;
    DivModUnique(leap, 256, 0, leap);
    DivModUnique(b / 8, 8, leap, rest / 8) by {
      assert b == 8 * (leap * 8 + rest / 8) + rest % 8;
    }
    DivModUnique(b, 8, leap * 8 + rest / 8, rest % 8);
    PackByte0Value(LeapOf(b), VersionOf(b), ModeOf(b, LowBits));
  }

  /** Byte 0 of a version-4 client request, 0x23, read both ways; and what
      the as-written round trip writes back for it. */
  lemma ClientRequestByte()
    ensures VersionOf(0x23) == 4 && LeapOf(0x23) == 0
    ensures ModeOf(0x23, HighBits) == 0 && ModeOf(0x23, LowBits) == 3
    ensures PackByte0(0, 4, 0) == 0x20
  {
    PackByte0Fields(0, 4, 0);
  }

  // ---------------------------------------------------------------------
  // Reference identifier as text (`Encoding.ASCII`)

  /** One character through `Encoding.ASCII.GetBytes`: non-ASCII becomes '?'. */
  function AsciiByte(c: char): uint8
  {
    if c as int < 128 then c as int else '?' as int
  }

  /** One byte through `Encoding.ASCII.GetString`: non-ASCII becomes '?'. */
  function AsciiChar(b: uint8): char
  {
    if b < 128 then b as char else '?'
  }

  function AsciiEncode(s: string): (r: seq<uint8>)
    ensures |r| == |s|
  {
    seq(|s|, i requires 0 <= i < |s| => AsciiByte(s[i]))
  }

  function AsciiDecode(bs: seq<uint8>): (r: string)
    ensures |r| == |bs|
  {
    seq(|bs|, i requires 0 <= i < |bs| => AsciiChar(bs[i]))
  }

  predicate IsAscii(s: string)
  {
    forall i :: 0 <= i < |s| ==> s[i] as int < 128
  }

  /** ASCII text survives encoding and decoding. */
  lemma AsciiRoundTrip(s: string)
    requires IsAscii(s)
    ensures AsciiDecode(AsciiEncode(s)) == s
  {
    assert forall i :: 0 <= i < |s| ==> AsciiDecode(AsciiEncode(s))[i] == s[i];
  }

  /** Why the reference identifier setter failed. */
  datatype RefIdError = ReferenceIdentifierLength

  /** The `ReferenceIdentifier` setter (identical in both packet classes): the
      ASCII encoding must be 1 to 4 bytes long; it overwrites that many leading
      bytes and leaves the rest. */
  function AssignReferenceId(current: RefId, value: string): (r: Result<RefId, RefIdError>)
    ensures r.Success? <==> 1 <= |value| <= 4
    ensures r.Success? ==> r.value[..|value|] == AsciiEncode(value)
    ensures r.Success? ==> r.value[|value|..] == current[|value|..]
    ensures r.Success? && IsAscii(value) ==> AsciiDecode(r.value)[..|value|] == value
  {
    var source := AsciiEncode(value);
    if 0 < |source| <= 4 then
      var updated: RefId := source + current[|source|..];
      assert AsciiDecode(updated)[..|value|] == AsciiDecode(source) by {
        assert forall i :: 0 <= i < |value| ==> AsciiDecode(updated)[i] == AsciiDecode(source)[i];
      }
      assert IsAscii(value) ==> AsciiDecode(source) == value by {
        if IsAscii(value) {
          AsciiRoundTrip(value);
        }
      }
      Success(updated)
    else
      Failure(ReferenceIdentifierLength)
  }

  /** The `ReferenceIdentifier` getter: all four bytes decoded, nothing stripped. */
  function ReferenceIdText(id: RefId): (r: string)
    ensures |r| == 4
    ensures forall i :: 0 <= i < 4 && id[i] < 128 ==> r[i] as int == id[i]
  {
    AsciiDecode(id)
  }

  /** Setting a four-character ASCII identifier and reading it back gives the
      same text, whatever the identifier held before. */
  lemma ReferenceIdTextRoundTrip(current: RefId, value: string)
    requires |value| == 4 && IsAscii(value)
    ensures AssignReferenceId(current, value).Success?
    ensures ReferenceIdText(AssignReferenceId(current, value).value) == value
  {
    var r := AssignReferenceId(current, value).value;
    assert AsciiDecode(r)[..4] == AsciiDecode(r);
  }
}
