/** 32-bit words: the logical functions of FIPS 180-4 section 4.1.2, the forms in which
    the two implementations write them, and byte order. */
module Sha256Words {
  type word = bv32
  type byte = bv8

  function Plus(x: word, y: word): word {
    x + y
  }

  function Rotr(x: word, n: bv6): word
    requires n <= 32
  {
    (x >> n) | (x << (32 - n))
  }

  function Ch(x: word, y: word, z: word): word {
    (x & y) ^ (!x & z)
  }

  function Maj(x: word, y: word, z: word): word {
    (x & y) ^ (x & z) ^ (y & z)
  }

  function BigSigma0(x: word): word {
    Rotr(x, 2) ^ Rotr(x, 13) ^ Rotr(x, 22)
  }

  function BigSigma1(x: word): word {
    Rotr(x, 6) ^ Rotr(x, 11) ^ Rotr(x, 25)
  }

  function SmallSigma0(x: word): word {
    Rotr(x, 7) ^ Rotr(x, 18) ^ (x >> 3)
  }

  function SmallSigma1(x: word): word {
    Rotr(x, 17) ^ Rotr(x, 19) ^ (x >> 10)
  }

  /** The choice and majority functions as the implementations write them. */
  function Select(x: word, y: word, z: word): word {
    z ^ (x & (y ^ z))
  }

  function Majority(x: word, y: word, z: word): word {
    (x & y) | (z & (x | y))
  }

  function Majority2(x: word, y: word, z: word): word {
    (x & (y | z)) | (y & z)
  }

  lemma SelectIsCh(x: word, y: word, z: word)
    ensures Select(x, y, z) == Ch(x, y, z)
  {
    ChoiceBits(x, y, z);
  }

  lemma ChoiceBits(x: word, y: word, z: word)
    ensures z ^ (x & (y ^ z)) == (x & y) ^ (!x & z)
  {
  }

  lemma MajorityIsMaj(x: word, y: word, z: word)
    ensures Majority(x, y, z) == Maj(x, y, z)
    ensures Majority2(x, y, z) == Maj(x, y, z)
  {
    MajorityBits(x, y, z);
  }

  lemma MajorityBits(x: word, y: word, z: word)
    ensures (x & y) | (z & (x | y)) == (x & y) ^ (x & z) ^ (y & z)
    ensures (x & (y | z)) | (y & z) == (x & y) ^ (x & z) ^ (y & z)
  {
  }

  function BigEndian(b0: byte, b1: byte, b2: byte, b3: byte): word {
    ((b0 as word) << 24) | ((b1 as word) << 16) | ((b2 as word) << 8) | (b3 as word)
  }

  function LittleEndian(b0: byte, b1: byte, b2: byte, b3: byte): word {
    ((b3 as word) << 24) | ((b2 as word) << 16) | ((b1 as word) << 8) | (b0 as word)
  }

  function ByteSwap(x: word): word {
    (Rotr(x, 8) & 0xff00ff00) | (Rotr(x, 24) & 0x00ff00ff)
  }

  /** A little-endian load followed by a byte swap is a big-endian load. */
  lemma SwapLoad(b0: byte, b1: byte, b2: byte, b3: byte)
    ensures ByteSwap(LittleEndian(b0, b1, b2, b3)) == BigEndian(b0, b1, b2, b3)
  {
  }

  function LowByte(x: word): byte {
    (x & 0xff) as byte
  }

  function BigBytes(x: word): (b: seq<byte>)
    ensures |b| == 4
  {
    [LowByte(x >> 24), LowByte(x >> 16), LowByte(x >> 8), LowByte(x)]
  }

  function LittleBytes(x: word): (b: seq<byte>)
    ensures |b| == 4
  {
    [LowByte(x), LowByte(x >> 8), LowByte(x >> 16), LowByte(x >> 24)]
  }

  /** A byte swap followed by a little-endian store is a big-endian store. */
  lemma SwapStore(x: word)
    ensures LittleBytes(ByteSwap(x)) == BigBytes(x)
  {
  }
}
