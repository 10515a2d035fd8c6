/** Little-endian 32-bit words, as `u32::from_le_bytes` reads them and as
    `f32_from_le_bytes` reinterprets them (src/lib.rs:310-312). A float is kept
    as its bit pattern, so reading a float IS reading a word. */
module Words {

  /** `u32::from_le_bytes([b0, b1, b2, b3])`: b0 is the least significant byte. */
  function WordLe(b0: bv8, b1: bv8, b2: bv8, b3: bv8): (r: bv32)
    ensures (r & 0xFF) as bv8 == b0 && ((r >> 8) & 0xFF) as bv8 == b1
    ensures ((r >> 16) & 0xFF) as bv8 == b2 && ((r >> 24) & 0xFF) as bv8 == b3
  {
    (b0 as bv32) | ((b1 as bv32) << 8) | ((b2 as bv32) << 16) | ((b3 as bv32) << 24)
  }

  /** The word stored at byte offset `off` of `buf`. */
  function WordAt(buf: seq<bv8>, off: nat): (r: bv32)
    requires off + 4 <= |buf|
    ensures LeBytes(r) == buf[off..off + 4]
  {
    WordLe(buf[off], buf[off + 1], buf[off + 2], buf[off + 3])
  }

  /** The bit pattern of the f32 stored at byte offset `off`: `f32::from_bits`
      of the little-endian word there (src/lib.rs:310-312). */
  function F32BitsAt(buf: seq<bv8>, off: nat): (r: bv32)
    requires off + 4 <= |buf|
    ensures r == WordAt(buf, off) && LeBytes(r) == buf[off..off + 4]
  {
    WordAt(buf, off)
  }

  /** `u32::to_le_bytes`: the inverse encoding, used to state round trips. */
  function LeBytes(w: bv32): (r: seq<bv8>)
    ensures |r| == 4
  {
    [(w & 0xFF) as bv8, ((w >> 8) & 0xFF) as bv8,
     ((w >> 16) & 0xFF) as bv8, ((w >> 24) & 0xFF) as bv8]
  }

  /** Decoding the encoding of a word gives the word back. */
  lemma DecodeEncodeWord(w: bv32)
    ensures WordAt(LeBytes(w), 0) == w
  {
  }

  /** Encoding a decoded word gives the four bytes back: no two byte strings
      decode to the same word. */
  lemma EncodeDecodeWord(b0: bv8, b1: bv8, b2: bv8, b3: bv8)
    ensures LeBytes(WordLe(b0, b1, b2, b3)) == [b0, b1, b2, b3]
  {
  }

  /** A word read depends only on its own four bytes. */
  lemma WordAtSlice(buf: seq<bv8>, off: nat)
    requires off + 4 <= |buf|
    ensures WordAt(buf, off) == WordAt(buf[off..off + 4], 0)
  {
  }
}
