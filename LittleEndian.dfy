/** Little-endian byte strings and the 64-bit words they denote: the decoding
    that turns the eight bytes of a page-table slot into the entry's value. */
module LittleEndian {

  type Byte = bv8

  /** The eight bytes of a 64-bit word, least significant first. */
  function EncodeWord(w: bv64): (bs: seq<Byte>)
    ensures |bs| == 8
  {
    [ (w & 0xFF) as Byte, ((w >> 8) & 0xFF) as Byte,
      ((w >> 16) & 0xFF) as Byte, ((w >> 24) & 0xFF) as Byte,
      ((w >> 32) & 0xFF) as Byte, ((w >> 40) & 0xFF) as Byte,
      ((w >> 48) & 0xFF) as Byte, ((w >> 56) & 0xFF) as Byte ]
  }

  /** The value of eight bytes read least significant byte first: byte `k`
      supplies bits 8k+7:8k. Eight bytes always fit in 64 bits, and the
      encoding of the result is the bytes it was decoded from. */
  function DecodeWord(bs: seq<Byte>): (w: bv64)
    requires |bs| == 8
    ensures EncodeWord(w) == bs
  {
    (bs[0] as bv64) | ((bs[1] as bv64) << 8) | ((bs[2] as bv64) << 16) | ((bs[3] as bv64) << 24)
    | ((bs[4] as bv64) << 32) | ((bs[5] as bv64) << 40) | ((bs[6] as bv64) << 48) | ((bs[7] as bv64) << 56)
  }

  /** Decoding undoes encoding, so no two words share an encoding. */
  lemma DecodeEncodeWord(w: bv64)
    ensures DecodeWord(EncodeWord(w)) == w
  {
  }
}
