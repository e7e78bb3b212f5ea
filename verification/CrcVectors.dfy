/** The published check values of the Teltonika checksum. */
module CrcVectors {
  import opened Word16
  import opened Crc16

  /** Extends a known checksum by one byte. */
  lemma NextByte(p: Word, data: seq<Byte>, b: Byte, c: Word, c': Word, zero: nat)
    requires zero == 0 && Crc(p, data) == c
    requires c' == FourSteps(p, FourSteps(p, Xor(c, b as Word)))
    ensures Crc(p, data + [b]) == c'
  {
    CrcAppend(p, data, b);
    ShiftFour(p, Xor(c, b as Word), zero);
    ShiftFour(p, Xor(c, b as Word), zero + 4);
  }

  lemma SmallVectors()
    ensures Crc(IBM, []) == 0 && Crc(IBM, [0x00]) == 0 && Crc(IBM, [0x01]) == 0xC0C1
  {
    NextByte(IBM, [], 0x00, 0, 0, 0);
    NextByte(IBM, [], 0x01, 0, 0xC0C1, 0);
    assert [] + [0x00 as Byte] == [0x00] && [] + [0x01 as Byte] == [0x01];
  }

  /** The nine characters 123456789. */
  lemma CheckString()
    ensures Crc(IBM, [0x31, 0x32, 0x33, 0x34, 0x35, 0x36, 0x37, 0x38, 0x39]) == 0xBB3D
  {
    var d: seq<Byte> := [];
    NextByte(IBM, d, 0x31, 0x0000, 0xD4C1, 0);
    d := d + [0x31];
    NextByte(IBM, d, 0x32, 0xD4C1, 0x4594, 0);
    d := d + [0x32];
    NextByte(IBM, d, 0x33, 0x4594, 0xBA04, 0);
    d := d + [0x33];
    NextByte(IBM, d, 0x34, 0xBA04, 0x14BA, 0);
    d := d + [0x34];
    NextByte(IBM, d, 0x35, 0x14BA, 0xA455, 0);
    d := d + [0x35];
    NextByte(IBM, d, 0x36, 0xA455, 0x29E4, 0);
    d := d + [0x36];
    NextByte(IBM, d, 0x37, 0x29E4, 0x9D68, 0);
    d := d + [0x37];
    NextByte(IBM, d, 0x38, 0x9D68, 0x3C9D, 0);
    d := d + [0x38];
    NextByte(IBM, d, 0x39, 0x3C9D, 0xBB3D, 0);
    d := d + [0x39];
    assert d == [0x31, 0x32, 0x33, 0x34, 0x35, 0x36, 0x37, 0x38, 0x39];
  }

  /** A minimal Codec 8 data part. */
  lemma MinimalPacket()
    ensures Crc(IBM, [0x08, 0x01, 0x00, 0x00, 0x00, 0x00]) == 0x883C
  {
    var d: seq<Byte> := [];
    NextByte(IBM, d, 0x08, 0x0000, 0xC601, 0);
    d := d + [0x08];
    NextByte(IBM, d, 0x01, 0xC601, 0x00C6, 0);
    d := d + [0x01];
    NextByte(IBM, d, 0x00, 0x00C6, 0x5280, 0);
    d := d + [0x00];
    NextByte(IBM, d, 0x00, 0x5280, 0xA053, 0);
    d := d + [0x00];
    NextByte(IBM, d, 0x00, 0xA053, 0x3DE0, 0);
    d := d + [0x00];
    NextByte(IBM, d, 0x00, 0x3DE0, 0x883C, 0);
    d := d + [0x00];
    assert d == [0x08, 0x01, 0x00, 0x00, 0x00, 0x00];
  }
}
