/** The 48-byte NTP version 3 header (section 7.3 of RFC 5905, section 4 of
    RFC 4330, without extension fields or authenticator) and its big-endian
    codec: fields in declaration order, one byte each for the first four,
    four bytes each for the eleven 32-bit words that follow. */
module Packet {
  import opened Bytes
  import Settings

  datatype Packet = Packet(
    settings: uint8,        // leap indicator, version number and mode
    stratum: uint8,
    poll: int8,             // poll exponent
    precision: int8,        // precision exponent
    rootDelay: uint32,
    rootDispersion: uint32,
    referenceId: uint32,
    refTimeSec: uint32,
    refTimeFrac: uint32,
    origTimeSec: uint32,
    origTimeFrac: uint32,
    rxTimeSec: uint32,
    rxTimeFrac: uint32,
    txTimeSec: uint32,
    txTimeFrac: uint32)

  /** Why a read of a packet from a byte stream fails: the stream ended
      before its first byte, or somewhere inside the packet. */
  datatype ReadError = EOF | UnexpectedEOF

  datatype Result<T> = Success(value: T) | Failure(error: ReadError)

  const HeaderBytes := 4
  const WordCount := 11
  const PacketSize := HeaderBytes + 4 * WordCount

  /** The eleven 32-bit fields, in declaration order. */
  function Words(p: Packet): (ws: seq<uint32>)
    ensures |ws| == WordCount
  {
    [p.rootDelay, p.rootDispersion, p.referenceId,
     p.refTimeSec, p.refTimeFrac, p.origTimeSec, p.origTimeFrac,
     p.rxTimeSec, p.rxTimeFrac, p.txTimeSec, p.txTimeFrac]
  }

  /** The packet with the given one-byte fields and 32-bit words. */
  function FromFields(settings: uint8, stratum: uint8, poll: int8, precision: int8,
                      ws: seq<uint32>): (p: Packet)
    requires |ws| == WordCount
    ensures Words(p) == ws
    ensures p.settings == settings && p.stratum == stratum
    ensures p.poll == poll && p.precision == precision
  {
    Packet(settings, stratum, poll, precision,
           ws[0], ws[1], ws[2], ws[3], ws[4], ws[5], ws[6], ws[7], ws[8], ws[9], ws[10])
  }

  /** A run of 32-bit words, each written big-endian, one after another. */
  function EncodeWords(ws: seq<uint32>): (r: seq<uint8>)
    ensures |r| == 4 * |ws|
    ensures forall k :: 0 <= k < |ws| ==> r[4 * k .. 4 * k + 4] == BE32(ws[k])
  {
    if ws == [] then []
    else
      var rest := EncodeWords(ws[1..]);
      var r := BE32(ws[0]) + rest;
      assert forall k :: 1 <= k < |ws| ==> r[4 * k .. 4 * k + 4] == rest[4 * (k - 1) .. 4 * (k - 1) + 4];
      r
  }

  /** The 32-bit words a run of bytes holds, read big-endian four at a time. */
  function DecodeWords(b: seq<uint8>): (ws: seq<uint32>)
    requires |b| % 4 == 0
    ensures |ws| == |b| / 4
    ensures forall k :: 0 <= k < |ws| ==> ws[k] == ReadBE32(b[4 * k .. 4 * k + 4])
  {
    if b == [] then []
    else
      var rest := DecodeWords(b[4..]);
      assert forall k :: 1 <= k < |b| / 4 ==> b[4 * k .. 4 * k + 4] == b[4..][4 * (k - 1) .. 4 * (k - 1) + 4];
      [ReadBE32(b[..4])] + rest
  }

  lemma {:induction false} DecodeEncodeWords(ws: seq<uint32>)
    ensures DecodeWords(EncodeWords(ws)) == ws
  {
    if ws != [] {
      var b := EncodeWords(ws);
      assert b[..4] == BE32(ws[0]);
      assert b[4..] == EncodeWords(ws[1..]);
      ReadBE32OfBE32(ws[0]);
      DecodeEncodeWords(ws[1..]);
      assert ws == [ws[0]] + ws[1..];
    }
  }

  lemma {:induction false} EncodeDecodeWords(b: seq<uint8>)
    requires |b| % 4 == 0
    ensures EncodeWords(DecodeWords(b)) == b
  {
    if b != [] {
      var ws := DecodeWords(b);
      assert ws[0] == ReadBE32(b[..4]);
      assert ws[1..] == DecodeWords(b[4..]);
      BE32OfReadBE32(b[..4]);
      EncodeDecodeWords(b[4..]);
      assert b == b[..4] + b[4..];
    }
  }

  /** The four one-byte fields as written, the signed ones in two's
      complement. */
  function Header(p: Packet): (h: seq<uint8>)
    ensures |h| == HeaderBytes
    ensures h[0] == p.settings && h[1] == p.stratum
    ensures ByteToInt8(h[2]) == p.poll && ByteToInt8(h[3]) == p.precision
  {
    Int8RoundTrip(p.poll);
    Int8RoundTrip(p.precision);
    [p.settings, p.stratum, Int8ToByte(p.poll), Int8ToByte(p.precision)]
  }

  /** The packet on the wire: what a big-endian binary write of the
      structure produces. */
  function Encode(p: Packet): (r: seq<uint8>)
    ensures |r| == PacketSize
    ensures r[0] == p.settings && r[1] == p.stratum
    ensures ByteToInt8(r[2]) == p.poll && ByteToInt8(r[3]) == p.precision
  {
    Header(p) + EncodeWords(Words(p))
  }

  /** The eleven 32-bit fields follow the header in declaration order,
      each big-endian, at byte offsets 4, 8, ..., 44. */
  lemma EncodeWordLayout(p: Packet)
    ensures forall k :: 0 <= k < WordCount ==>
              ReadBE32(Encode(p)[HeaderBytes + 4 * k .. HeaderBytes + 4 * k + 4]) == Words(p)[k]
  {
    var r := Encode(p);
    var words := EncodeWords(Words(p));
    forall k | 0 <= k < WordCount
      ensures ReadBE32(r[HeaderBytes + 4 * k .. HeaderBytes + 4 * k + 4]) == Words(p)[k]
    {
      assert r[HeaderBytes + 4 * k .. HeaderBytes + 4 * k + 4] == words[4 * k .. 4 * k + 4];
      ReadBE32OfBE32(Words(p)[k]);
    }
  }

  /** The packet held by exactly 48 bytes. */
  function Parse(b: seq<uint8>): (p: Packet)
    requires |b| == PacketSize
    ensures p.settings == b[0] && p.stratum == b[1]
    ensures Int8ToByte(p.poll) == b[2] && Int8ToByte(p.precision) == b[3]
    ensures forall k :: 0 <= k < WordCount ==>
              Words(p)[k] == ReadBE32(b[HeaderBytes + 4 * k .. HeaderBytes + 4 * k + 4])
  {
    ByteRoundTrip(b[2]);
    ByteRoundTrip(b[3]);
    var body := b[HeaderBytes..];
    var ws := DecodeWords(body);
    assert forall k :: 0 <= k < WordCount ==>
             body[4 * k .. 4 * k + 4] == b[HeaderBytes + 4 * k .. HeaderBytes + 4 * k + 4];
    FromFields(b[0], b[1], ByteToInt8(b[2]), ByteToInt8(b[3]), ws)
  }

  /** A big-endian binary read of the structure from a stream whose
      remaining content is `stream`: the first 48 bytes are consumed and
      become the packet; a stream that ends first yields an error and no
      packet at all. */
  function Decode(stream: seq<uint8>): (r: Result<Packet>)
    ensures r.Success? <==> |stream| >= PacketSize
    ensures r.Failure? ==> (r.error == EOF <==> |stream| == 0)
    ensures r.Success? ==>
              && r.value.settings == stream[0] && r.value.stratum == stream[1]
              && Int8ToByte(r.value.poll) == stream[2] && Int8ToByte(r.value.precision) == stream[3]
              && forall k :: 0 <= k < WordCount ==>
                   Words(r.value)[k] == ReadBE32(stream[HeaderBytes + 4 * k .. HeaderBytes + 4 * k + 4])
  {
    if |stream| == 0 then Failure(EOF)
    else if |stream| < PacketSize then Failure(UnexpectedEOF)
    else
      var b := stream[..PacketSize];
      assert forall k :: 0 <= k < WordCount ==>
               b[HeaderBytes + 4 * k .. HeaderBytes + 4 * k + 4] == stream[HeaderBytes + 4 * k .. HeaderBytes + 4 * k + 4];
      Success(Parse(b))
  }

  /** Writing the header of a parsed packet gives back its first four bytes. */
  lemma HeaderOfParse(b: seq<uint8>)
    requires |b| == PacketSize
    ensures Header(Parse(b)) == b[..HeaderBytes]
  {
    ByteRoundTrip(b[2]);
    ByteRoundTrip(b[3]);
  }

  /** Writing a parsed packet gives back the 48 bytes it was parsed from. */
  lemma EncodeOfParse(b: seq<uint8>)
    requires |b| == PacketSize
    ensures Encode(Parse(b)) == b
  {
    HeaderOfParse(b);
    EncodeDecodeWords(b[HeaderBytes..]);
    assert b == b[..HeaderBytes] + b[HeaderBytes..];
  }

  /** Encoding a decoded packet gives back the 48 bytes it was read from,
      so every 48-byte string is the encoding of some packet. */
  lemma EncodeDecode(stream: seq<uint8>)
    requires |stream| >= PacketSize
    ensures Encode(Decode(stream).value) == stream[..PacketSize]
  {
    EncodeOfParse(stream[..PacketSize]);
  }

  /** Encoding then decoding gives back every packet, including negative
      poll and precision exponents. */
  lemma DecodeEncode(p: Packet)
    ensures Decode(Encode(p)) == Success(p)
  {
    var b := Encode(p);
    assert b[..PacketSize] == b;
    assert b[HeaderBytes..] == EncodeWords(Words(p));
    DecodeEncodeWords(Words(p));
    Int8RoundTrip(p.poll);
    Int8RoundTrip(p.precision);
    assert Parse(b) == p;
  }

  /** Where the four timestamps sit in a decoded stream: reference at
      byte 16, origin at 24, receive at 32 and transmit at 40, seconds
      then fraction, each big-endian. */
  lemma DecodeTimestampOffsets(stream: seq<uint8>)
    requires |stream| >= PacketSize
    ensures var p := Decode(stream).value;
            && p.refTimeSec == ReadBE32(stream[16..20]) && p.refTimeFrac == ReadBE32(stream[20..24])
            && p.origTimeSec == ReadBE32(stream[24..28]) && p.origTimeFrac == ReadBE32(stream[28..32])
            && p.rxTimeSec == ReadBE32(stream[32..36]) && p.rxTimeFrac == ReadBE32(stream[36..40])
            && p.txTimeSec == ReadBE32(stream[40..44]) && p.txTimeFrac == ReadBE32(stream[44..48])
  {
    var ws := Words(Decode(stream).value);
    assert ws[3] == ReadBE32(stream[16..20]) && ws[4] == ReadBE32(stream[20..24]);
    assert ws[5] == ReadBE32(stream[24..28]) && ws[6] == ReadBE32(stream[28..32]);
    assert ws[7] == ReadBE32(stream[32..36]) && ws[8] == ReadBE32(stream[36..40]);
    assert ws[9] == ReadBE32(stream[40..44]) && ws[10] == ReadBE32(stream[44..48]);
  }

  /** Bytes after the first 48 are left in the stream and do not affect the
      decoded packet. */
  lemma DecodeIgnoresTrailing(p: Packet, trailing: seq<uint8>)
    ensures Decode(Encode(p) + trailing) == Success(p)
  {
    DecodeEncode(p);
    assert (Encode(p) + trailing)[..PacketSize] == Encode(p);
  }

  /** Distinct packets have distinct encodings. */
  lemma EncodeInjective(p: Packet, q: Packet)
    requires Encode(p) == Encode(q)
    ensures p == q
  {
    DecodeEncode(p);
    DecodeEncode(q);
  }

  /** The request the client sends: settings byte 0x1B, all else zero. */
  function Request(): (p: Packet)
    ensures p.settings == Settings.Pack(Settings.Settings(Settings.NoWarning, Settings.Version3, Settings.ModeClient))
    ensures p.stratum == 0 && p.poll == 0 && p.precision == 0
    ensures Words(p) == seq(WordCount, _ => 0)
  {
    Settings.ClientRequestFields();
    Packet(Settings.ClientRequest, 0, 0, 0, 0, 0, 0, 0, 0, 0, 0, 0, 0, 0, 0)
  }

  /** Zero words are written as zero bytes. */
  lemma {:induction false} EncodeZeroWords(n: nat)
    ensures EncodeWords(seq(n, _ => 0)) == seq(4 * n, _ => 0)
  {
    if n > 0 {
      var ws: seq<uint32> := seq(n, _ => 0);
      assert ws[1..] == seq(n - 1, _ => 0);
      EncodeZeroWords(n - 1);
    }
  }

  /** The request's wire form: 0x1B followed by 47 zero bytes. */
  predicate IsRequestWire(b: seq<uint8>) {
    |b| == PacketSize && b[0] == 0x1B && forall i :: 1 <= i < PacketSize ==> b[i] == 0
  }

  /** The request's eleven words are written as 44 zero bytes. */
  lemma RequestWordsOnWire()
    ensures EncodeWords(Words(Request())) == seq(4 * WordCount, _ => 0)
  {
    EncodeZeroWords(WordCount);
  }

  /** The request header followed by zero words is the request's wire form. */
  lemma RequestWireOfParts(h: seq<uint8>, words: seq<uint8>)
    requires h == [0x1B, 0, 0, 0]
    requires words == seq(4 * WordCount, _ => 0)
    ensures IsRequestWire(h + words)
  {
    var r := h + words;
    forall i | HeaderBytes <= i < PacketSize
      ensures r[i] == 0
    {
      assert r[i] == words[i - HeaderBytes];
    }
  }

  /** On the wire the request is 0x1B followed by 47 zero bytes. */
  lemma RequestOnWire()
    ensures IsRequestWire(Encode(Request()))
  {
    var p := Request();
    RequestWordsOnWire();
    RequestWireOfParts(Header(p), EncodeWords(Words(p)));
  }

  /** The request's wire form is exactly one byte string: 0x1B followed by
      47 zero bytes. */
  lemma RequestWireExact(b: seq<uint8>)
    ensures IsRequestWire(b) <==> b == [0x1B] + seq(PacketSize - 1, _ => 0)
  {
    var w: seq<uint8> := [0x1B] + seq(PacketSize - 1, _ => 0);
    assert forall i :: 1 <= i < PacketSize ==> w[i] == 0;
    if IsRequestWire(b) {
      assert forall i :: 0 <= i < PacketSize ==> b[i] == w[i];
    }
  }

  /** Decoding the request's wire form gives settings 0x1B with every
      other field zero. */
  lemma RequestDecodes(b: seq<uint8>)
    requires IsRequestWire(b)
    ensures Decode(b) == Success(Request())
  {
    RequestOnWire();
    RequestWireExact(b);
    RequestWireExact(Encode(Request()));
    DecodeEncode(Request());
  }
}
