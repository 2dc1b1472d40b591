/** Fixed-width machine integers of the client, as bounded mathematical
    integers, together with the two byte-level encodings the wire format
    uses: two's complement for signed bytes and big-endian order for 32-bit
    words. */
module Bytes {

  type uint8 = x: int | 0 <= x < 0x100
  type int8 = x: int | -0x80 <= x < 0x80
  type uint32 = x: int | 0 <= x < 0x1_0000_0000
  type int64 = x: int | -0x8000_0000_0000_0000 <= x < 0x8000_0000_0000_0000

  const MinInt64: int64 := -0x8000_0000_0000_0000
  const MaxInt64: int64 := 0x7FFF_FFFF_FFFF_FFFF

  /** The byte that stores a signed 8-bit value in two's complement. */
  function Int8ToByte(v: int8): (b: uint8)
    ensures (b - v) % 0x100 == 0
    ensures b >= 0x80 <==> v < 0
  {
    if v < 0 then v + 0x100 else v
  }

  /** The signed 8-bit value a byte holds when read as two's complement. */
  function ByteToInt8(b: uint8): (v: int8)
    ensures (b - v) % 0x100 == 0
    ensures v < 0 <==> b >= 0x80
  {
    if b >= 0x80 then b - 0x100 else b
  }

  lemma Int8RoundTrip(v: int8)
    ensures ByteToInt8(Int8ToByte(v)) == v
  {
  }

  lemma ByteRoundTrip(b: uint8)
    ensures Int8ToByte(ByteToInt8(b)) == b
  {
  }

  /** The four bytes of a 32-bit word, most significant first. */
  function BE32(x: uint32): (r: seq<uint8>)
    ensures |r| == 4
  {
    [x / 0x100_0000, (x / 0x1_0000) % 0x100, (x / 0x100) % 0x100, x % 0x100]
  }

  /** The 32-bit word held by four bytes, most significant first. */
  function ReadBE32(b: seq<uint8>): (x: uint32)
    requires |b| == 4
  {
    ((b[0] as int * 0x100 + b[1]) * 0x100 + b[2]) * 0x100 + b[3]
  }

  /** Reading back the bytes of a word gives the word. */
  lemma ReadBE32OfBE32(x: uint32)
    ensures ReadBE32(BE32(x)) == x
  {
    var r := BE32(x);
    var hi, mid, lo := x / 0x100_0000, x / 0x1_0000, x / 0x100;
    assert mid / 0x100 == hi;
    assert lo / 0x100 == mid;
    assert mid == hi * 0x100 + r[1];
    assert lo == mid * 0x100 + r[2];
    assert x == lo * 0x100 + r[3];
  }

  /** Writing the word four bytes hold gives those bytes back. */
  lemma BE32OfReadBE32(b: seq<uint8>)
    requires |b| == 4
    ensures BE32(ReadBE32(b)) == b
  {
    var x := ReadBE32(b);
    var mid := b[0] as int * 0x100 + b[1];
    var lo := mid * 0x100 + b[2];
    assert x == lo * 0x100 + b[3];
    assert x / 0x100_0000 == b[0] by {
      assert b[0] as int * 0x100_0000 <= x < (b[0] as int + 1) * 0x100_0000;
    }
    assert x / 0x100 == lo by {
      assert lo * 0x100 <= x < (lo + 1) * 0x100;
    }
    assert x / 0x1_0000 == mid by {
      assert mid * 0x1_0000 <= x < (mid + 1) * 0x1_0000;
    }
    assert lo % 0x100 == b[2];
    assert mid % 0x100 == b[1];
    var r := BE32(x);
    assert r[0] == b[0] && r[1] == b[1] && r[2] == b[2] && r[3] == b[3];
  }

  /** Different words have different encodings. */
  lemma BE32Injective(x: uint32, y: uint32)
    requires BE32(x) == BE32(y)
    ensures x == y
  {
    ReadBE32OfBE32(x);
    ReadBE32OfBE32(y);
  }
}
