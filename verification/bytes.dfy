/** Byte-level vocabulary of a Modbus RTU frame: octets, unsigned 16-bit
    words, and the two byte orders a frame mixes (big-endian data words,
    little-endian CRC trailer). */
module Bytes {

  /** An octet, as Python's `bytes` yields it: an integer in 0..255. */
  type byte = x: int | 0 <= x < 0x100

  /** An unsigned 16-bit word, the range of struct format `H`. */
  type uint16 = x: int | 0 <= x < 0x1_0000

  /** The two octets of `w`, high octet first (struct format `>H`). */
  function BigEndian(w: uint16): (bs: seq<byte>)
    ensures |bs| == 2
    ensures bs[0] as int * 0x100 + bs[1] as int == w
  {
    [w / 0x100, w % 0x100]
  }

  /** The two octets of `w`, low octet first (struct format `<H`). */
  function LittleEndian(w: uint16): (bs: seq<byte>)
    ensures |bs| == 2
    ensures bs[0] as int + bs[1] as int * 0x100 == w
  {
    [w % 0x100, w / 0x100]
  }

  /** The word whose big-endian encoding is `hi, lo` (struct.unpack('>H')). */
  function ReadBigEndian(hi: byte, lo: byte): (w: uint16)
    ensures w / 0x100 == hi && w % 0x100 == lo
  {
    hi as int * 0x100 + lo as int
  }

  /** The word whose little-endian encoding is `bs` (struct.unpack('<H')). */
  function ReadLittleEndian(bs: seq<byte>): (w: uint16)
    requires |bs| == 2
    ensures w % 0x100 == bs[0] && w / 0x100 == bs[1]
  {
    bs[0] as int + bs[1] as int * 0x100
  }

  /** Reading back a big-endian encoding gives the word; and every pair of
      octets is the encoding of the word read from it. */
  lemma BigEndianRoundTrip(w: uint16, hi: byte, lo: byte)
    ensures ReadBigEndian(BigEndian(w)[0], BigEndian(w)[1]) == w
    ensures BigEndian(ReadBigEndian(hi, lo)) == [hi, lo]
  {
  }

  /** The same two directions for the little-endian order. */
  lemma LittleEndianRoundTrip(w: uint16, bs: seq<byte>)
    requires |bs| == 2
    ensures ReadLittleEndian(LittleEndian(w)) == w
    ensures LittleEndian(ReadLittleEndian(bs)) == bs
  {
  }
}
