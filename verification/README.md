# NTP server core, modelled in Dafny

This project models the core of a small NTPv4 server written in C#. The core has four parts:

- **An endian codec.** A `BinaryReader` and a `BinaryWriter` read and write 16-, 32- and 64-bit integers, single bytes and raw byte ranges on a stream. Each has a big/little-endian switch.
- **The client library's `NtpPacket`.** It has a `Builder` that fills in missing timestamps by protocol mode. Its `Parse` rejects every protocol version other than 4. Its precision is a signed byte.
- **The server program's `NtpPacket`.** It is a mutable object with an unsigned precision, and its `Parse` never fails.
- **`NtpServer`.** A UDP listener answers every 48-byte datagram with a server-mode reply. It re-arms its receive callback while `IsWorking` is set.

The stream underneath the codec is a `MemoryStream`:

- `Read` copies what is available and leaves the rest of the buffer zero.
- `ReadByte` returns -1 at the end.
- `Write` overwrites at the position and extends the data as needed.

C# integer semantics are written out:

- `(byte)x` is `x % 256`.
- `x >> k` on a signed value is floor division by `2^k`.
- `(sbyte)` reinterprets the low byte as two's complement.
- `ReadByte`'s -1 flows through the byte-0 decoding exactly as the casts treat it. An empty buffer therefore reads as leap indicator 255 and version 7.

The modules follow the source, one per file:

| module | file |
|---|---|
| `Numerics` | byte-order arithmetic |
| `Results` | `Option` and `Result` for nullable values and exceptions |
| `MemoryStreams` | the stream |
| `BinaryWriter` | the writer |
| `BinaryReader` | the reader |
| `NtpTypes` | the time formats, the protocol mode, byte-0 packing and the reference-identifier text |
| `NtpWire` | the 48-byte header layout shared by both packet classes |
| `NtpPacket` | the client library's packet and builder |
| `ServerPacket` | the server's packet |
| `NtpServer` | the reply rule and the start/stop/re-arm loop |

Each packet class has a `ToBytes` that is stated as the header layout. Its `ToBytesIsWriteSequence` lemma proves that the source's seventeen writer calls, followed by `Seek(0)` and a 48-byte `Read`, produce exactly those bytes. Each `Parse` is the source's read sequence through the modelled reader. `ParseWithLayout` proves that on a 48-byte buffer it reads every field at its fixed offset.

Both parsers take the protocol mode from bits 6-7 of byte 0, which are the leap-indicator bits. The model keeps this as written (`Parse`). Beside it stands `ParseCorrected`, which takes the mode from bits 0-2 as section 7.3 of RFC 5905 places it. See "Findings".

Three behaviours of the code are worth stating, because a reader of RFC 5905 might expect otherwise:

- Short input is not detected. `Read` leaves the missing bytes of a multi-byte field zero, and `ReadByte` returns -1 (NtpPacket/BinaryReader.cs:75-96), so a missing one-byte field reads as 255 through the `(byte)` casts of stratum and poll, and of the server's precision; the client library's `(sbyte)` precision reads as -1. Only the client library's version gate can reject a short buffer, and an empty one always fails there, since -1 carries version 7 (NtpPacket/NtpPacket.cs:333-338).
- The server's `Parse` has no version check and accepts any buffer (NtpServer/NtpPacket.cs:190-213). Only the client library's `Parse` rejects versions other than 4 (NtpPacket/NtpPacket.cs:336-338).
- `Build` does not check the reference identifier. `Builder.SetReferenceIdentifier` throws at once for more than four bytes (NtpPacket/NtpPacket.cs:118-125).

## Model

| member | source | states |
|---|---|---|
| Numerics.LittleEndianOfShiftOut | BinaryOperator/BinaryWriter.cs:84-95 | the bytes of the `array[i] = (byte)item; item >>= 8` loop are the little-endian digits of `item` modulo 256^n, for negative items too |
| Numerics.ShiftOutByteAt | BinaryOperator/BinaryWriter.cs:19-30 | byte i of the shift loop is `(item >> 8i) mod 256` |
| Numerics.ShiftOutOfLittleEndian | BinaryOperator/BinaryWriter.cs:84-95 | writing back the little-endian value of any byte sequence gives the sequence again |
| Numerics.ShiftOutModulo | BinaryOperator/BinaryWriter.cs:71-82 | the shift loop only sees its item modulo 256^n, so a signed item writes as its unsigned twin |
| Numerics.BigEndianIsReversedLittleEndian | NtpPacket/BinaryReader.cs:14-16 | reversing a buffer and reading it little-endian is reading it big-endian |
| Numerics.BigEndianInjective | NtpPacket/BinaryReader.cs:55-62 | two buffers of equal length with the same big-endian value are equal |
| Numerics.SignedRoundTrip | NtpPacket/BinaryReader.cs:28-35 | reinterpreting the low n bytes of an in-range signed value as two's complement gives the value back |
| Numerics.SignedReading | NtpPacket/BinaryReader.cs:46-53 | a two's-complement reading lies in the signed range and agrees with the unsigned reading modulo 256^n |
| Numerics.BitOrDisjoint | NtpServer/NtpPacket.cs:221 | the bitwise or that packs byte 0 adds its operands when the low one fits below the shift |
| MemoryStreams.Available | NtpPacket/BinaryReader.cs:75-80 | a read takes what is left, at most the count; it falls short of the count only when it reaches the end of the data |
| MemoryStreams.ReadInto | NtpPacket/BinaryReader.cs:75-80 | `Read` fills a zero buffer of the requested length with the next available bytes and advances by their number; at the end the buffer stays zero |
| MemoryStreams.ReadIntoContents | NtpPacket/BinaryReader.cs:75-80 | byte i of a read is the stream's byte at position + i when it exists, else 0 |
| MemoryStreams.ReadByte | NtpPacket/BinaryReader.cs:93-96 | -1 exactly at the end, leaving the stream unchanged; otherwise the next byte, advancing by one |
| MemoryStreams.Seek | NtpPacket/BinaryReader.cs:82-90 | an offset above `int.MaxValue` throws; otherwise the new position from each origin, and a target that is negative or past `int.MaxValue` throws |
| MemoryStreams.Write | BinaryOperator/BinaryWriter.cs:97-100 | the position advances by the count and the data grows only as far as needed; at the end it is an append |
| MemoryStreams.WriteContents | BinaryOperator/BinaryWriter.cs:97-100 | the written range holds the bytes; every other byte is unchanged or zero-filled |
| BinaryWriter.EncodeInt | BinaryOperator/BinaryWriter.cs:32-43 | the n bytes written have the item modulo 256^n as their big- or little-endian value |
| BinaryWriter.WriteByte | BinaryOperator/BinaryWriter.cs:14-17 | one byte, position + 1; at the end the byte is appended |
| BinaryWriter.WriteBytes | BinaryOperator/BinaryWriter.cs:97-100 | the whole array, position + its length; at the end it is appended |
| BinaryWriter.WriteInt | BinaryOperator/BinaryWriter.cs:58-69 | n bytes in the configured order, position + n; at the end they are appended |
| BinaryWriter.WriteByteEmits | BinaryOperator/BinaryWriter.cs:14-17 | the byte lands at the old position; the length grows only to the new position, and every other byte is kept, or zero in a gap past the old end |
| BinaryWriter.WriteBytesEmits | BinaryOperator/BinaryWriter.cs:97-100 | the array lands at the old position; the length grows only to the new position, and every other byte is kept, or zero in a gap past the old end |
| BinaryWriter.WriteIntEmits | BinaryOperator/BinaryWriter.cs:19-30 | the encoded bytes land at the old position; the length grows only to the new position, and every other byte is kept, or zero in a gap past the old end |
| BinaryWriter.EncodedByteAt | BinaryOperator/BinaryWriter.cs:45-56 | byte i is `(item >> 8i) mod 256`, mirrored in big-endian mode |
| BinaryWriter.SignedWriteIsUnsignedWrite | BinaryOperator/BinaryWriter.cs:19-43 | a signed write emits the bytes of the unsigned write of the value modulo 256^n |
| BinaryReader.DecodeInt | NtpPacket/BinaryReader.cs:10-17 | the value of a buffer is below 256^length and is its big-endian value in big-endian mode |
| BinaryReader.ReadUnsigned | NtpPacket/BinaryReader.cs:55-62 | with enough data, the value of the next n bytes and position + n; at the end, 0 |
| BinaryReader.ReadSigned | NtpPacket/BinaryReader.cs:28-35 | same stream effect as the unsigned read; the value is in the signed range and agrees with it modulo 256^n |
| BinaryReader.ReadByte | NtpPacket/BinaryReader.cs:93-96 | -1 exactly when exhausted, otherwise the next byte and position + 1 |
| BinaryReader.ReadBytes | NtpPacket/BinaryReader.cs:75-80 | a negative count throws; otherwise count bytes, which are the next bytes when available |
| BinaryReader.ReadBytesAt | NtpPacket/BinaryReader.cs:82-90 | reads count bytes at the sought position and restores the reader's position |
| BinaryReader.SeekAndRead | NtpPacket/BinaryReader.cs:100-107 | runs the action at the sought position and restores the position afterwards |
| BinaryReader.ReadBytesContents | NtpPacket/BinaryReader.cs:75-80 | byte i of `ReadBytes` is the stream's byte at position + i when it exists, else 0 |
| BinaryReader.ReadUnsignedContents | NtpPacket/BinaryReader.cs:55-62 | every read, short ones included, decodes the k bytes that are there padded with zeros: little-endian their own value, big-endian their value times 256^(n-k); none there gives 0 |
| BinaryReader.ZerosDecodeToZero | NtpPacket/BinaryReader.cs:19-26 | a read past the end, a zero buffer, decodes to 0 |
| BinaryReader.WriteThenRead | NtpPacket/BinaryReader.cs:10-17 | reading back an unsigned write in the same byte order gives the item modulo 256^n |
| BinaryReader.WriteThenReadSigned | NtpPacket/BinaryReader.cs:37-44 | reading back a signed write in the same byte order gives the item |
| BinaryReader.ReadThenWrite | NtpPacket/BinaryReader.cs:55-62 | writing the value read from a buffer gives the buffer back |
| NtpTypes.ModeFromCode | NtpServer/NtpPacket.cs:183-187 | the enumeration cast of a code below 8 is the member with that numeric value |
| NtpTypes.PackByte0Fields | NtpServer/NtpPacket.cs:195-198 | unpacking a packed byte 0 gives back leap, version and (from bits 0-2) the mode; the as-written mode decoding gives the leap indicator |
| NtpTypes.PackByte0Value | NtpServer/NtpPacket.cs:221 | for in-range fields, the packed byte 0 is `64·leap + 8·version + mode` |
| NtpTypes.ModeAsWrittenIsLeap | NtpPacket/NtpPacket.cs:335-339 | for every byte, `(b & 0xC0) >> 6` equals the leap indicator `b >> 6`, and is below 4 |
| NtpTypes.ModeIsLeapMod4 | NtpServer/NtpPacket.cs:196-198 | for every `int` from `ReadByte`, also -1, the as-written mode is the leap indicator modulo 4 |
| NtpTypes.Byte0Decompose | NtpServer/NtpPacket.cs:221 | every byte is the packing of its leap indicator, version and low-bit mode |
| NtpTypes.ClientRequestByte | NtpPacket/NtpPacket.cs:334-339 | 0x23 is version 4 and mode 3 in bits 0-2, but mode 0 in bits 6-7; leap 0, version 4, mode 0 packs to 0x20 |
| NtpTypes.AsciiRoundTrip | NtpServer/NtpPacket.cs:101-112 | ASCII text survives `Encoding.ASCII.GetBytes` followed by `GetString` |
| NtpTypes.AssignReferenceId | NtpServer/NtpPacket.cs:104-111 | succeeds exactly for 1 to 4 characters; the encoded text overwrites the start of the identifier and the rest is kept |
| NtpTypes.ReferenceIdText | NtpServer/NtpPacket.cs:103 | four characters, each ASCII byte decoded as itself |
| NtpTypes.ReferenceIdTextRoundTrip | NtpServer/NtpPacket.cs:101-112 | setting a four-character ASCII identifier and reading it back gives the text |
| NtpWire.ReadHeader | NtpServer/NtpPacket.cs:195-208 | byte 0 is the `ReadByte` result: -1 exactly for an empty buffer, else the first byte |
| NtpWire.ChainBytes | NtpServer/NtpPacket.cs:221-237 | the seventeen writes on a fresh big-endian stream leave exactly the 48 header bytes, positioned at the end |
| NtpWire.ReadAll | NtpServer/NtpPacket.cs:238-239 | `Seek(0)` and a full-length `Read` return all the data |
| NtpWire.WriteHeaderLayout | NtpServer/NtpPacket.cs:215-242 | the written header is 48 bytes, with byte 0 first and every field at its offset |
| NtpWire.WriteHeaderBytes | NtpPacket/NtpPacket.cs:360-387 | the writer sequence equals the declarative header layout |
| NtpWire.HeaderBytesLayout | NtpServer/NtpPacket.cs:221-237 | the layout is 48 bytes, with byte 0 first and each field read back at its offset |
| NtpWire.LayoutOfPieces | NtpServer/NtpPacket.cs:221-237 | the concatenated field encodings read back field by field |
| NtpWire.ReadStep | NtpPacket/BinaryReader.cs:55-62 | with n bytes available, an unsigned read returns their big-endian value and advances n |
| NtpWire.U16Step | NtpPacket/BinaryReader.cs:55-62 | `ReadUInt16` returns the big-endian field at the position and advances 2 |
| NtpWire.U32Step | NtpPacket/BinaryReader.cs:10-17 | `ReadUInt32` returns the big-endian field at the position and advances 4 |
| NtpWire.ShortTimeStep | NtpServer/NtpPacket.cs:202 | an `NtpShortTimeFormat` is two consecutive 16-bit fields |
| NtpWire.TimestampStep | NtpServer/NtpPacket.cs:205 | an `NtpTimeStamp` is two consecutive 32-bit fields |
| NtpWire.ByteStep | NtpServer/NtpPacket.cs:199 | with data left, `ReadByte` returns the next byte and advances 1 |
| NtpWire.IdStep | NtpServer/NtpPacket.cs:204 | `ReadBytes(4)` returns the next four bytes and advances 4 |
| NtpWire.FrontLayout | NtpServer/NtpPacket.cs:199-204 | stratum, poll, precision, delay, dispersion and identifier come from bytes 1-15 |
| NtpWire.TimestampsLayout | NtpServer/NtpPacket.cs:205-208 | the four timestamps come from bytes 16-47 in order |
| NtpWire.ReadBodyLayout | NtpServer/NtpPacket.cs:199-208 | on 48 bytes, the reads after byte 0 give every field at its offset |
| NtpWire.ReadHeaderLayout | NtpServer/NtpPacket.cs:195-208 | on 48 bytes, the read sequence gives byte 0 and every field at its offset |
| NtpWire.FieldBytes16 | BinaryOperator/BinaryWriter.cs:58-69 | writing a 16-bit field read at an offset reproduces those two bytes |
| NtpWire.FieldBytes32 | BinaryOperator/BinaryWriter.cs:32-43 | writing a 32-bit field read at an offset reproduces those four bytes |
| NtpWire.HeaderBytesOfLayout | NtpServer/NtpPacket.cs:221-237 | every 48-byte buffer is the layout of its own byte 0 and fields |
| NtpWire.SameBodySameTail | NtpServer/NtpPacket.cs:222-237 | two headers whose fields after byte 0 agree have the same bytes 1-47 |
| NtpWire.SameHeader | NtpServer/NtpPacket.cs:221-237 | two headers with the same byte 0 and fields are the same bytes |
| NtpPacket.NewBuilder | NtpPacket/NtpPacket.cs:72-88 | a fresh builder: leap 0, mode Client, stratum 1, poll 4, precision -6, zero delay, dispersion and identifier, no timestamp set |
| NtpPacket.SetReferenceIdentifierAsWritten | NtpPacket/NtpPacket.cs:118-125 | throws exactly for more than four bytes; otherwise the bytes overwrite the start of the identifier and nothing else changes |
| NtpPacket.SetReferenceIdentifier | NtpPacket/NtpPacket.cs:118-125 | the first min(4, length) bytes are copied over the start of the identifier; nothing else changes |
| NtpPacket.Build | NtpPacket/NtpPacket.cs:163-204 | fails exactly outside Client mode with originate or receive unset, naming the first missing one; otherwise version 4, fields copied, and timestamps defaulted by mode |
| NtpPacket.ToBytes | NtpPacket/NtpPacket.cs:360-387 | 48 bytes: the packed byte 0, then every field at its offset |
| NtpPacket.FromHeader | NtpPacket/NtpPacket.cs:334-355 | fails exactly when the version bits are not 4; otherwise leap, mode from the chosen bits, signed precision and the fields as read |
| NtpPacket.ParseWith | NtpPacket/NtpPacket.cs:331-358 | fails exactly when byte 0 (or -1 for no data) does not carry version 4; a success has a first byte, whose leap and mode it carries |
| NtpPacket.Parse | NtpPacket/NtpPacket.cs:339 | every parsed packet's mode equals its leap indicator |
| NtpPacket.ReferenceIdentifier | NtpPacket/NtpPacket.cs:242-244 | four characters, each ASCII byte of the identifier decoded as itself |
| NtpPacket.SetReferenceIdentifierText | NtpPacket/NtpPacket.cs:242-253 | succeeds exactly for 1 to 4 characters, overwriting the start of the identifier and keeping the rest |
| NtpPacket.ToBytesIsWriteSequence | NtpPacket/NtpPacket.cs:360-387 | the source's writer calls produce `ToBytes` |
| NtpPacket.ParseWithLayout | NtpPacket/NtpPacket.cs:331-358 | on 48 bytes, parsing is the field assignment of byte 0 and the fields at their offsets |
| NtpPacket.FromHeaderOfPacket | NtpPacket/NtpPacket.cs:334-355 | the parser's assignments applied to a version-4 packet's header give the packet back, with the mode replaced by the leap indicator when read from bits 6-7 |
| NtpPacket.ParseOfToBytes | NtpPacket/NtpPacket.cs:331-387 | parsing `ToBytes(p)` yields p, up to the mode when it is read from bits 6-7 |
| NtpPacket.ParseRoundTripAsWritten | NtpPacket/NtpPacket.cs:331-387 | the as-written round trip returns p with its mode replaced by the leap indicator |
| NtpPacket.ParseCorrectedRoundTrip | NtpPacket/NtpPacket.cs:331-387 | with the mode from bits 0-2, parsing `ToBytes(p)` returns p for every version-4 packet |
| NtpPacket.ToBytesOfFields | NtpPacket/NtpPacket.cs:360-387 | a packet holding the fields of a header serialises to that header |
| NtpPacket.ParseCorrectedThenToBytes | NtpPacket/NtpPacket.cs:331-387 | every 48-byte version-4 buffer survives the corrected parse and `ToBytes` unchanged |
| NtpPacket.ParseThenToBytesAsWritten | NtpPacket/NtpPacket.cs:331-387 | the as-written parse and `ToBytes` keep bytes 1-47 and rewrite the mode bits of byte 0 to the leap indicator |
| NtpPacket.ClientRequestLosesMode | NtpPacket/NtpPacket.cs:339 | a client request (byte 0 = 0x23) parses as mode Reserved and is written back with 0x20 |
| NtpPacket.ClientRequestKeepsMode | NtpPacket/NtpPacket.cs:339 | the corrected parse reads the same request as Client and writes it back unchanged |
| NtpPacket.SetReferenceIdentifierAgrees | NtpPacket/NtpPacket.cs:118-125 | for up to four bytes the as-written setter and the truncating one agree |
| NtpPacket.FiveByteIdentifierRejected | NtpPacket/NtpPacket.cs:118-125 | five bytes make the as-written setter throw; the truncating one keeps the first four |
| NtpPacket.ClientRequestFromNewBuilder | NtpPacket/NtpPacket.cs:72-88 | a fresh builder builds a version-4 Client packet whose originate is now and whose other timestamps are zero |
| NtpPacket.BuildServerNeedsTimestamps | NtpPacket/NtpPacket.cs:163-189 | outside Client mode, building succeeds exactly when originate and receive were set, and keeps them |
| ServerPacket.Default | NtpServer/NtpPacket.cs:52-64 | a new packet is version 4 and every other field is zero: leap, mode, stratum, poll, precision, delay, dispersion, identifier and all four timestamps |
| ServerPacket.ProtocolMode | NtpServer/NtpPacket.cs:183-187 | the getter names a member exactly for a stored code below 8, and that member's code is the stored byte |
| ServerPacket.SetProtocolMode | NtpServer/NtpPacket.cs:183-187 | the getter then returns the mode set, and no other field changes |
| ServerPacket.ToBytes | NtpServer/NtpPacket.cs:215-242 | 48 bytes: the packed byte 0, then every field at its offset |
| ServerPacket.ParseWith | NtpServer/NtpPacket.cs:190-213 | any buffer parses; leap, version and mode come from byte 0, or from the -1 of an empty buffer |
| ServerPacket.Parse | NtpServer/NtpPacket.cs:198 | the parsed mode is always the leap indicator modulo 4 |
| ServerPacket.ReferenceIdentifier | NtpServer/NtpPacket.cs:101-103 | four characters, each ASCII byte of the identifier decoded as itself |
| ServerPacket.SetReferenceIdentifier | NtpServer/NtpPacket.cs:101-112 | succeeds exactly for 1 to 4 characters, overwriting the start of the identifier and keeping the rest |
| ServerPacket.ToBytesIsWriteSequence | NtpServer/NtpPacket.cs:215-242 | the source's writer calls produce `ToBytes` |
| ServerPacket.ParseWithLayout | NtpServer/NtpPacket.cs:190-213 | on 48 bytes, parsing is the field assignment of byte 0 and the fields at their offsets |
| ServerPacket.FromHeaderOfPacket | NtpServer/NtpPacket.cs:195-208 | the parser's assignments applied to a packet's header give it back, up to the mode read from bits 6-7 |
| ServerPacket.ParseRoundTripAsWritten | NtpServer/NtpPacket.cs:190-242 | the as-written round trip returns p with its mode replaced by the leap indicator |
| ServerPacket.ParseCorrectedRoundTrip | NtpServer/NtpPacket.cs:190-242 | with the mode from bits 0-2, parsing `ToBytes(p)` returns p for every packet with in-range leap, version and mode |
| ServerPacket.ToBytesOfFields | NtpServer/NtpPacket.cs:215-242 | a packet holding the fields of a header serialises to that header |
| ServerPacket.ParseCorrectedThenToBytes | NtpServer/NtpPacket.cs:190-242 | every 48-byte buffer, whatever its version, survives the corrected parse and `ToBytes` unchanged |
| ServerPacket.ParseThenToBytesAsWritten | NtpServer/NtpPacket.cs:190-242 | the as-written parse and `ToBytes` keep bytes 1-47 and rewrite the mode bits of byte 0 to the leap indicator |
| ServerPacket.ClientRequestLosesMode | NtpServer/NtpPacket.cs:198 | a client request (0x23) parses as mode 0 (Reserved), where the corrected parse gives 3 (Client); written back, byte 0 is 0x20 |
| ServerPacket.ParseEmpty | NtpServer/NtpPacket.cs:195-198 | an empty buffer parses without error as leap 255, version 7 and mode 3 |
| NtpServer.ReplyPacket | NtpServer/NtpServer.cs:36-46 | the reply's mode getter says Server, and its originate timestamp is the request's transmit timestamp |
| NtpServer.ReplyPacketHeader | NtpServer/NtpServer.cs:36-46 | the reply's byte 0 is 0x24 and its fields are stratum 1, zeros and the three clock readings around the echoed timestamp |
| NtpServer.Reply | NtpServer/NtpServer.cs:29-47 | a reply exactly for 48-byte buffers; it is the 48-byte header 0x24 followed by the reply fields for the request's transmit timestamp |
| NtpServer.StartFirstHalf | NtpServer/NtpServer.cs:16-17 | the first statement of `Start()`: as written, one more receive pending and the working flag unchanged; corrected, working and nothing begun yet |
| NtpServer.StartSecondHalf | NtpServer/NtpServer.cs:16-17 | the second statement: as written, working with the pending count unchanged; corrected, one more receive pending |
| NtpServer.Start | NtpServer/NtpServer.cs:14-18 | with nothing between its two statements, either order leaves the server working with one more receive pending |
| NtpServer.Stop | NtpServer/NtpServer.cs:20-23 | not working, the pending receive left in place, a `Start()` in progress still in progress |
| NtpServer.Respond | NtpServer/NtpServer.cs:28-53 | a datagram is sent exactly for a received 48-byte payload, to its source, carrying the reply |
| NtpServer.Rearm | NtpServer/NtpServer.cs:61-62 | the completed receive retires, and a new one is begun exactly when the server is working |
| NtpServer.Step | NtpServer/NtpServer.cs:14-63 | only a completion sends anything, and it sends what `Respond` gives |
| NtpServer.OnReceiveData | NtpServer/NtpServer.cs:24-63 | working flag unchanged; pending count kept while working, one less otherwise; a send exactly for a received 48-byte payload, to its source, carrying the reply to that payload |
| NtpServer.ReplyBytes | NtpServer/NtpServer.cs:36-47 | reply bytes 0-15 are 0x24, 1 and fourteen zeros, and bytes 24-31 are the request's bytes 40-47 |
| NtpServer.ReplyLayoutBytes | NtpServer/NtpServer.cs:36-47 | the same bytes for any header laid out as a reply |
| NtpServer.ReplyDependsOnlyOnTransmit | NtpServer/NtpServer.cs:35-47 | two requests with the same bytes 40-47 get the same reply |
| NtpServer.TransmitBytes | NtpServer/NtpPacket.cs:208 | the transmit timestamp is read from bytes 40-47 alone |
| NtpServer.ReplyParsesBack | NtpServer/NtpServer.cs:35-47 | the server's corrected parser reads the reply back as the reply packet |
| NtpServer.ClientReadsReply | NtpServer/NtpServer.cs:36-47 | the client library's corrected parser accepts the reply as a Server packet at stratum 1 echoing the request's transmit timestamp; the as-written one sees mode Reserved |
| NtpServer.ClientReadsReplyLayout | NtpServer/NtpServer.cs:36-47 | the same for any header laid out as a reply |
| NtpServer.EventKeepsListening | NtpServer/NtpServer.cs:14-63 | in the corrected order every event keeps the server listening; as written every event does too except the end of `Start()`, which keeps it exactly when a receive is pending |
| NtpServer.RunKeepsListening | NtpServer/NtpServer.cs:14-63 | with `IsWorking` set before `BeginReceive`, along every feasible trace a working server outside `Start()` has a receive pending |
| NtpServer.StartRaceLosesListening | NtpServer/NtpServer.cs:16-17 | as written, a fresh server with a completion between the two statements of `Start()` ends working with nothing pending; in the corrected order that trace is impossible |
| NtpServer.DeafUntilRestarted | NtpServer/NtpServer.cs:14-63 | a server with no receive pending takes no completion and sends nothing until the next `Start()` |
| NtpServer.AtomicStartsKeepListening | NtpServer/NtpServer.cs:14-63 | as written, the server stays listening along every trace with no completion inside a `Start()` call |
| NtpServer.RunSendsAnswers | NtpServer/NtpServer.cs:24-63 | the datagrams sent are one reply per completed 48-byte receive, in order, whatever the start and stop calls |
| NtpServer.StoppedServerDrains | NtpServer/NtpServer.cs:61-62 | once stopped, each completion retires a pending receive and none is begun |
| NtpServer.StoppedServerBound | NtpServer/NtpServer.cs:61-62 | a stopped server takes no more completions than it has receives pending |
| NtpServer.WorkingServerRearms | NtpServer/NtpServer.cs:61-62 | a working server ends any run of completions in the state it started in |

## Left out

- `NtpTimeStamp.FromDateTime`, `ToDateTime` and `NtpShortTimeFormat.ToTimeSpan` are not modelled because they use floating point. Clock readings enter as NTP timestamps, so the reply's timestamps are not related to wall-clock time.
- UDP I/O is abstracted to events: `UdpClient`, `BeginReceive`/`EndReceive` and `Send`. A completion carries the datagram and its source, or a failed receive. Failures of `Send` are not modelled; the source catches and logs them.
- The console logging in `OnReceiveData` is left out.
- The default endpoint `127.0.0.1:123` is left out. It is overwritten by every successful `EndReceive`, and a failed one sends nothing.
- Each event other than `Start()` is atomic. `Start()` is two events, and completions may come between them. The handler reads `IsWorking` once, at its end (NtpServer/NtpServer.cs:61), so running it as one step loses no interleaving with `Stop()`. Concurrent handlers only retire and begin receives, which the pending count adds up. A second `Start()` while running begins a second concurrent receive, and the model counts it as one more pending receive. Overlapping `Start()` calls from two threads are not modelled (`Enabled`).
- `NtpServer.OnReceiveData`: a completion requires a pending receive (`Enabled`), since the socket delivers no callback otherwise.
- BinaryReader.SeekAndRead: the action is pure and cannot throw. In the source (NtpPacket/BinaryReader.cs:100-107) an action may change the reader, for instance its `IsBigEndian` switch, and that change is not kept by the model. And since there is no `try`/`finally`, an action that throws leaves the cursor at the sought position, which the model does not show.
- `ReadMarshal`, `WriteMarshal`, `Read(Action)`, `Read<T>(Func)`, `Close` and `Dispose` are not modelled. They involve unmanaged memory or only forward to the stream.
- Host endianness is not modelled. The model assumes `BitConverter` is little-endian, as it is on x86, x64 and Arm hosts. On a big-endian host such as s390x, `BitConverter.IsLittleEndian` is false and every multi-byte read and write would come out in the opposite order.
- Only the `byte[]` overload of `Parse` is modelled. The `Stream` overload is the same code on a `MemoryStream` over the array.
- The `NtpPacket` constructor of the client library stores the builder's reference-identifier array. Array aliasing between packets and builders is not modelled: values are copied.
- NtpPacket.ToBytes: holds only for packets whose reference identifier is four bytes and whose mode is a named enumeration member. The public constructor (NtpPacket/NtpPacket.cs:39-53) also accepts other identifier lengths and cast mode values. A 5-byte identifier makes the writes 49 bytes long, and the 48-byte `Read` drops the last one, so every later field shifts. A 3-byte identifier leaves the last byte 0. A mode of 8 or more spills into the version bits. The model's `Packet` fixes the identifier at four bytes and the mode to the enumeration, so these layouts are not stated.
- `NtpTypes.AsciiEncode` maps each character to one byte, with non-ASCII characters becoming `?`. `Encoding.ASCII` maps a surrogate pair to a single `?`, so the length check of the reference-identifier setter is modelled on the character count.
- `ServerPacket.ProtocolMode`: a stored code of 8 or more is `None` rather than an unnamed enumeration value.
- `NtpServer.ReplyPacket`: its contract states only the mode and the echoed timestamp. The full header is in `ReplyPacketHeader`.

## Findings

| source | as written | input that shows it | evidently intended | confidence | as-written member | corrected member |
|---|---|---|---|---|---|---|
| NtpPacket/NtpPacket.cs:339 | the mode is `(b & 0xC0) >> 6`, the leap-indicator bits | a version-4 client request, byte 0 = 0x23, parses as mode Reserved and is written back as 0x20 | the mode is bits 0-2, `b & 0x07` (section 7.3 of RFC 5905), so the request reads as Client and survives `ToBytes` | high; not executed | NtpPacket.ClientRequestLosesMode | NtpPacket.ParseCorrectedRoundTrip |
| NtpServer/NtpPacket.cs:198 | the mode is `(b & 0xC0) >> 6`, the leap-indicator bits | byte 0 = 0x23 parses as mode 0 (Reserved) instead of 3 (Client); `ToBytes` then writes 0x20 | the mode is bits 0-2, so every 48-byte buffer survives parse and `ToBytes` | high; not executed | ServerPacket.ClientRequestLosesMode | ServerPacket.ParseCorrectedThenToBytes |
| NtpPacket/NtpPacket.cs:118-125 | the length is clamped to 4, but the whole array is copied into the 4-byte span, which throws for more than 4 bytes | the identifier bytes 1, 2, 3, 4, 5 | copy the first four bytes, as the clamp intends | high; not executed | NtpPacket.FiveByteIdentifierRejected | NtpPacket.SetReferenceIdentifier |
| NtpServer/NtpServer.cs:16-17 | `Start()` begins the receive and only then sets `IsWorking`; a completion in between sees a stopped server and does not re-arm | a fresh server, a datagram already waiting (or another thread's completion), then `Start()`: the events begin, completion, end leave the server working with no receive pending, deaf until restarted | set `IsWorking` first, so every completion re-arms and a working server always listens | medium; not executed | NtpServer.StartRaceLosesListening | NtpServer.RunKeepsListening |

The server's reply depends on the request only through its transmit timestamp (`ReplyDependsOnlyOnTransmit`). The mode finding therefore does not change what the server sends. It changes what a client using the client library reads back (`ClientReadsReply`).
