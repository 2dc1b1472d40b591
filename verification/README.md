# SNTP client core in Dafny

This project models the pure logic of a small SNTP client written in Go (`sntp.go`).
The client sends one NTP version 3 request to a time server and reads one reply.
It then converts the reply's timestamps to Unix times and prints them as formatted times, together with two differences against local clock readings.

The model has five modules:

- `Bytes`: the fixed-width integers the client uses (`uint8`, `int8`, `uint32`, `int64`).
  It also holds two's complement storage of signed bytes and big-endian 32-bit words.
- `Settings`: the first header byte, which packs leap indicator (2 bits), version (3 bits) and mode (3 bits).
  The request byte 0x1B means no leap warning, version 3, client mode.
- `Packet`: the 48-byte header from section 7.3 of RFC 5905 and section 4 of RFC 4330, without extension fields or authenticator.
  It also holds the big-endian codec that Go's `binary.Write` and `binary.Read` apply to the `packet` struct.
  Fields are written in declaration order: four single bytes, then eleven 32-bit words.
  `Decode` models `binary.Read` on a finite stream whose whole remaining content is the given byte sequence.
  Over such a stream `binary.Read` reads through `io.ReadFull`: an empty stream gives `EOF`, and a stream of 1 to 47 bytes gives `UnexpectedEOF`.
  A longer stream yields the packet held by its first 48 bytes.
  A failed read never yields a partly filled packet.
- `Timestamp`: `printTime`, the conversion of an NTP timestamp (section 6 of RFC 5905) to Unix seconds and nanoseconds.
  Seconds become `s - 2208988800`.
  Nanoseconds become `(int64(f) * 1e9) >> 32`, with the 64-bit product and the arithmetic shift written out.
  The model proves that the product never overflows `int64`.
- `Exchange`: the report the client prints for a reply.
  The local send and receive instants T1 and T4 are parameters.
  `Sub` follows the documented behaviour of Go's `time.Time.Sub`: the exact difference in nanoseconds, saturated to the `int64` range.
  Go's `time` package is not part of this model.
  The client also prints the origin and reference times (sntp.go:110-111), and the report holds them.
  The two printed differences are T2 - T1 and T3 - T4, the two terms whose mean is the RFC 4330 section 5 offset.
  The client never combines them into a round-trip delay or a clock offset, and neither does the model.

## Model

| member | source | states |
|---|---|---|
| Bytes.Int8ToByte | sntp.go:47-48 | an `int8` field is stored as the byte congruent to it modulo 256, with the top bit set exactly when the value is negative |
| Bytes.ByteToInt8 | sntp.go:47-48 | a stored byte is read back as the `int8` congruent to it modulo 256, negative exactly when its top bit is set |
| Bytes.Int8RoundTrip | sntp.go:47-48 | storing then reading a signed byte gives the original value, including every negative one |
| Bytes.ByteRoundTrip | sntp.go:47-48 | reading then storing a byte gives the original byte, so every byte is a valid `int8` |
| Bytes.BE32 | sntp.go:49-59 | a 32-bit field is written as four bytes, most significant first; `ReadBE32OfBE32` and `BE32OfReadBE32` show that this is a bijection with `ReadBE32` |
| Bytes.ReadBE32 | sntp.go:49-59 | four bytes are read as a 32-bit field, most significant first; its contract is the pair of round-trip lemmas with `BE32` |
| Bytes.ReadBE32OfBE32 | sntp.go:49-59 | reading back the four big-endian bytes of a 32-bit field gives the field |
| Bytes.BE32OfReadBE32 | sntp.go:49-59 | writing the word held by any four bytes gives those bytes back |
| Bytes.BE32Injective | sntp.go:49-59 | distinct 32-bit values have distinct big-endian encodings |
| Settings.Pack | sntp.go:19 | the packed byte has mode in bits 2-0, version in bits 5-3 and leap indicator in bits 7-6 |
| Settings.Unpack | sntp.go:19 | the three sub-fields recombine to the byte they were taken from |
| Settings.UnpackPack | sntp.go:19 | unpacking a packed byte returns the leap, version and mode that went in |
| Settings.PackUnpack | sntp.go:19 | every byte is the packing of its own sub-fields |
| Settings.ClientRequestFields | sntp.go:81-86 | 0x1B is leap indicator 0, version 3, mode 3 (client), and packing those gives 0x1B |
| Packet.Words | sntp.go:49-59 | the eleven 32-bit fields, in the order the struct declares them |
| Packet.FromFields | sntp.go:44-60 | building a packet from header bytes and eleven words puts each word in its declared field |
| Packet.EncodeWords | sntp.go:49-59 | the k-th word is written big-endian at byte offset 4k of the word area |
| Packet.DecodeWords | sntp.go:49-59 | the k-th word is read big-endian from byte offset 4k of the word area |
| Packet.DecodeEncodeWords | sntp.go:49-59 | reading back a written run of words gives the words |
| Packet.EncodeDecodeWords | sntp.go:49-59 | writing the words read from a byte run gives back the byte run |
| Packet.Header | sntp.go:45-48 | the four single-byte fields as written: settings and stratum unchanged, poll and precision as bytes that read back as the same `int8` |
| Packet.Encode | sntp.go:91 | the wire form is 48 bytes long, starting with settings, stratum, and poll and precision in two's complement |
| Packet.EncodeWordLayout | sntp.go:49-59 | the eleven 32-bit fields follow the header in declaration order, each big-endian, at byte offsets 4, 8, …, 44 |
| Packet.Parse | sntp.go:97 | the packet held by exactly 48 bytes: settings and stratum are bytes 0 and 1, poll and precision are the `int8` values whose two's complement bytes are 2 and 3, and the k-th 32-bit field is read big-endian from bytes 4+4k to 7+4k |
| Packet.Decode | sntp.go:96-99 | a read succeeds exactly when the stream holds at least 48 bytes, and the error is EOF exactly when the stream is empty; on success the four single-byte fields come from bytes 0-3 and the k-th 32-bit field is read big-endian from bytes 4+4k to 7+4k |
| Packet.HeaderOfParse | sntp.go:45-48 | writing back the single-byte fields of a parsed packet reproduces bytes 0-3, negative exponents included |
| Packet.EncodeOfParse | sntp.go:91-97 | writing a packet parsed from 48 bytes reproduces those bytes |
| Packet.EncodeDecode | sntp.go:91-97 | every 48-byte prefix of a stream is the encoding of the packet decoded from it |
| Packet.DecodeEncode | sntp.go:91-99 | decoding an encoded packet gives the packet back, negative poll and precision included |
| Packet.DecodeTimestampOffsets | sntp.go:52-59 | the reference, origin, receive and transmit timestamps are read from bytes 16, 24, 32 and 40, seconds then fraction |
| Packet.DecodeIgnoresTrailing | sntp.go:97 | bytes after the first 48 do not change the decoded packet |
| Packet.EncodeInjective | sntp.go:91 | distinct packets have distinct wire forms |
| Packet.Request | sntp.go:81-86 | the request's settings byte packs no leap warning, version 3 and client mode, and every other field is zero |
| Packet.EncodeZeroWords | sntp.go:86 | zero words are written as zero bytes |
| Packet.RequestOnWire | sntp.go:86-91 | the request goes on the wire as 0x1B followed by 47 zero bytes |
| Packet.RequestWordsOnWire | sntp.go:86-91 | the request's eleven zero words go on the wire as 44 zero bytes |
| Packet.RequestWireOfParts | sntp.go:86-91 | the header 0x1B 0 0 0 followed by 44 zero bytes is 0x1B followed by 47 zero bytes |
| Packet.RequestWireExact | sntp.go:86-91 | a byte string is the request's wire form exactly when it equals 0x1B followed by 47 zero bytes |
| Packet.RequestDecodes | sntp.go:86-97 | decoding 0x1B followed by 47 zero bytes gives settings 0x1B and every other field zero |
| Timestamp.UnixSeconds | sntp.go:12 | Unix seconds of any NTP seconds field lie in [-2208988800, 2^32-1-2208988800] |
| Timestamp.NtpSeconds | sntp.go:122 | inverse of `UnixSeconds`, no counterpart in sntp.go: within the NTP era, each Unix second comes from exactly one seconds field |
| Timestamp.NtpSecondsOfUnixSeconds | sntp.go:122 | the seconds conversion loses nothing: it can be undone for every field value |
| Timestamp.UnixSecondsMonotone | sntp.go:122 | the seconds conversion preserves order in both directions |
| Timestamp.ShiftRight32 | sntp.go:123 | an arithmetic right shift by 32 is the floor of division by 2^32 |
| Timestamp.FractionToNanos | sntp.go:123 | the `int64` product cannot overflow, the result lies in [0, 999999999], and it is the floor of f·10^9/2^32 |
| Timestamp.FractionToNanosMonotone | sntp.go:123 | a larger fraction never gives fewer nanoseconds |
| Timestamp.FractionToNanosBoundaries | sntp.go:123 | fraction 0 gives 0, 0x80000000 gives 500000000, and 0xFFFFFFFF gives 999999999 with no rollover to a full second |
| Timestamp.NanosToFraction | sntp.go:123 | inverse of `FractionToNanos`, no counterpart in sntp.go: the fraction chosen for n nanoseconds is the smallest one whose scaled value reaches n |
| Timestamp.FractionToNanosOfNanosToFraction | sntp.go:123 | every nanosecond count 0 to 999999999 is produced by some fraction |
| Timestamp.ToUnixTime | sntp.go:121-125 | the reported time is at most the instant the NTP timestamp denotes, and less than one nanosecond before it |
| Timestamp.ToUnixTimeOfFromUnixTime | sntp.go:121-125 | any Unix time within the NTP era comes back unchanged through an NTP timestamp and `printTime` |
| Timestamp.ToUnixTimeMonotone | sntp.go:121-125 | later NTP timestamps in one era never give earlier Unix times |
| Timestamp.NewYear2024 | sntp.go:121-125 | NTP (3913056000, 0) is Unix 1704067200.000000000, and (3913056000, 0x80000000) is 1704067200.500000000 |
| Exchange.Sub | sntp.go:115-116 | the difference has the sign of the exact difference, equals it when it fits in `int64`, and otherwise saturates at the bound on its side |
| Exchange.Add | sntp.go:115-116 | inverse of `Sub`, no counterpart in sntp.go: adding a duration moves an instant by exactly that many nanoseconds |
| Exchange.UnixNanosInjective | sntp.go:115-116 | two instants with the same nanosecond count are the same instant |
| Exchange.AddSub | sntp.go:115-116 | an unsaturated difference added back to the earlier operand gives the later one |
| Exchange.SubAntisymmetric | sntp.go:115-116 | swapping the operands negates an unsaturated difference |
| Exchange.ReportOf | sntp.go:110-116 | the origin, reference, receive (T2) and transmit (T3) times are the converted timestamps of the reply, and the printed differences are T2 - T1 and T3 - T4 |
| Exchange.ReportedDifferencesGiveOffset | sntp.go:115-116 | unless either saturates, the two printed differences add up to (T2 - T1) + (T3 - T4), twice the offset of RFC 4330 section 5 |
| Exchange.RequestBytes | sntp.go:86-91 | the client writes 0x1B followed by 47 zero bytes, and those bytes decode back to the request |
| Exchange.ReadReply | sntp.go:95-116 | a reply stream shorter than 48 bytes ends the run with the read error (EOF exactly when empty); otherwise the reference, origin, receive and transmit times come from bytes 16-23, 24-31, 32-39 and 40-47 of the stream, and the printed differences are T2 - T1 and T3 - T4 |
| Exchange.ClientRun | sntp.go:86-116 | a run always sends the request bytes; it reports exactly when the reply holds 48 bytes, and then the report is that of the decoded reply with the given T1 and T4 |
| Exchange.ReadReplyOfEncode | sntp.go:91-116 | a stream that starts with the encoding of a packet is reported on with exactly that packet's timestamps, whatever follows |
| Exchange.ReportRecoversTimes | sntp.go:115-116 | unless a difference saturates, adding T2 - T1 back to T1 gives T2 and adding T3 - T4 back to T4 gives T3 |
| Exchange.NewYearReply | sntp.go:97-116 | a reply stamped 2024-01-01T00:00:00Z and half a second later reports T2 = 1704067200.0 and T3 = 1704067200.5 |

## Left out

- Flag parsing, `net.Dial`, `conn.Close`, `SetDeadline` and the `log.Fatal` exits (sntp.go:68-80) are process and socket I/O. A failed read is modelled as a `Failure` result, not as a process exit.
- Transport behaviour of the UDP connection is not modelled: timeouts, datagram boundaries, and write errors from `binary.Write`. The reply is a finite byte stream. On the program's UDP connection a read never returns `EOF`. A missing reply fails with the connection's error, usually the timeout of the 5-second deadline (sntp.go:78) or a refused connection. A short datagram is completed by `io.ReadFull` with the bytes of the next one, if one arrives before the deadline, so the program may decode a packet spliced from two datagrams. A datagram longer than 48 bytes is cut to its first 48.
- `time.Now()` (sntp.go:89-90, 100) reads a nondeterministic clock. T1 and T4 are parameters.
- `fmt.Println`/`Printf` output and `time.Time` formatting (sntp.go:89, 110-116, 124) are presentation only. The model returns the values that would be printed.
- The `float64` step at sntp.go:122 is replaced by exact integer subtraction. Every `uint32` minus 2208988800 is an integer below 2^53, so `float64` holds it exactly.
- Exchange.Sub: Go's monotonic-clock path and its internal seconds-since-year-1 representation are not modelled. The model uses the wall-clock difference, which is what applies because T2 and T3 come from `time.Unix` and carry no monotonic reading.
- NTP era rollover in 2036 and semantic checks on the reply (stratum 0, mode) are not modelled, because the code does neither.
- The code does not compute the full round-trip delay and offset formulas. The model does not compute them either.
