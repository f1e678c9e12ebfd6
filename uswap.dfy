/** Unconditional byte swaps of 16-, 32- and 64-bit unsigned words.

    `uswap16`, `uswap32` and `uswap64` come from hodea/core/uswap.hpp, which
    is not part of this model. They are defined here the way such primitives
    are usually written in C++ (shifts and masks, the 64-bit swap built from
    two 32-bit swaps), and each one's contract states the meaning the
    conversion module relies on: the bytes of the result are the bytes of the
    argument in reverse order.
 */
module Uswap {
  import opened Bytes

  /** The bytes of a 16-bit word, least significant first. */
  function Bytes16(x: bv16): seq<bv8>
  {
    [(x & 0xff) as bv8, (x >> 8) as bv8]
  }

  /** The bytes of a 32-bit word, least significant first. */
  function Bytes32(x: bv32): seq<bv8>
  {
    [(x & 0xff) as bv8, ((x >> 8) & 0xff) as bv8, ((x >> 16) & 0xff) as bv8, (x >> 24) as bv8]
  }

  /** The bytes of a 64-bit word, least significant first. */
  function Bytes64(x: bv64): seq<bv8>
  {
    [ (x & 0xff) as bv8, ((x >> 8) & 0xff) as bv8, ((x >> 16) & 0xff) as bv8, ((x >> 24) & 0xff) as bv8,
      ((x >> 32) & 0xff) as bv8, ((x >> 40) & 0xff) as bv8, ((x >> 48) & 0xff) as bv8, (x >> 56) as bv8 ]
  }

  /** The 16-bit word with the given bytes, least significant first. */
  function Word16(b: seq<bv8>): (x: bv16)
    requires |b| == 2
    ensures Bytes16(x) == b
  {
    (b[0] as bv16) | (b[1] as bv16 << 8)
  }

  /** The 32-bit word with the given bytes, least significant first. */
  function Word32(b: seq<bv8>): (x: bv32)
    requires |b| == 4
    ensures Bytes32(x) == b
  {
    (b[0] as bv32) | (b[1] as bv32 << 8) | (b[2] as bv32 << 16) | (b[3] as bv32 << 24)
  }

  /** The 64-bit word with the given bytes, least significant first. */
  function Word64(b: seq<bv8>): (x: bv64)
    requires |b| == 8
    ensures Bytes64(x) == b
  {
    (b[0] as bv64) | (b[1] as bv64 << 8) | (b[2] as bv64 << 16) | (b[3] as bv64 << 24)
    | (b[4] as bv64 << 32) | (b[5] as bv64 << 40) | (b[6] as bv64 << 48) | (b[7] as bv64 << 56)
  }

  /** Reassembling the bytes of a 16-bit word gives back the word. */
  lemma Word16OfBytes(x: bv16)
    ensures Word16(Bytes16(x)) == x
  {
  }

  /** A 16-bit word is determined by its bytes. */
  lemma Bytes16Injective(a: bv16, b: bv16)
    requires Bytes16(a) == Bytes16(b)
    ensures a == b
  {
    Word16OfBytes(a);
    Word16OfBytes(b);
  }

  /** Reassembling the bytes of a 32-bit word gives back the word. */
  lemma Word32OfBytes(x: bv32)
    ensures Word32(Bytes32(x)) == x
  {
  }

  /** A 32-bit word is determined by its bytes. */
  lemma Bytes32Injective(a: bv32, b: bv32)
    requires Bytes32(a) == Bytes32(b)
    ensures a == b
  {
    Word32OfBytes(a);
    Word32OfBytes(b);
  }

  /** Reassembling the bytes of a 64-bit word gives back the word. */
  lemma Word64OfBytes(x: bv64)
    ensures Word64(Bytes64(x)) == x
  {
  }

  /** A 64-bit word is determined by its bytes. */
  lemma Bytes64Injective(a: bv64, b: bv64)
    requires Bytes64(a) == Bytes64(b)
    ensures a == b
  {
    Word64OfBytes(a);
    Word64OfBytes(b);
  }

  /** Swaps the two bytes of a 16-bit word. */
  function Uswap16(x: bv16): (r: bv16)
    ensures Bytes16(r) == Reverse(Bytes16(x))
  {
    (x << 8) | (x >> 8)
  }

  /** Reverses the four bytes of a 32-bit word. */
  function Uswap32(x: bv32): (r: bv32)
    ensures Bytes32(r) == Reverse(Bytes32(x))
  {
    (x << 24) | ((x << 8) & 0x00ff_0000) | ((x >> 8) & 0x0000_ff00) | (x >> 24)
  }

  /** Reverses the eight bytes of a 64-bit word: each 32-bit half is swapped
      and the halves change places. */
  function Uswap64(x: bv64): (r: bv64)
    ensures Bytes64(r) == Reverse(Bytes64(x))
  {
    var low := (x & 0xffff_ffff) as bv32;
    var high := (x >> 32) as bv32;
    Reverse8(Bytes64(x));
    ((Uswap32(low) as bv64) << 32) | (Uswap32(high) as bv64)
  }

  /** Swapping twice gives back the word, for 16 bits. */
  lemma Uswap16Involutive(x: bv16)
    ensures Uswap16(Uswap16(x)) == x
  {
    ReverseInvolutive(Bytes16(x));
    Bytes16Injective(Uswap16(Uswap16(x)), x);
  }

  /** Swapping twice gives back the word, for 32 bits. */
  lemma Uswap32Involutive(x: bv32)
    ensures Uswap32(Uswap32(x)) == x
  {
    ReverseInvolutive(Bytes32(x));
    Bytes32Injective(Uswap32(Uswap32(x)), x);
  }

  /** Swapping twice gives back the word, for 64 bits. */
  lemma Uswap64Involutive(x: bv64)
    ensures Uswap64(Uswap64(x)) == x
  {
    ReverseInvolutive(Bytes64(x));
    Bytes64Injective(Uswap64(Uswap64(x)), x);
  }

  /** A swap turns the big-endian layout of a word into the little-endian
      layout of the swapped word, and back. */
  lemma UswapExchangesOrders(x16: bv16, x32: bv32, x64: bv64)
    ensures Arrange(LittleEndian, Bytes16(Uswap16(x16))) == Arrange(BigEndian, Bytes16(x16))
    ensures Arrange(BigEndian, Bytes16(Uswap16(x16))) == Arrange(LittleEndian, Bytes16(x16))
    ensures Arrange(LittleEndian, Bytes32(Uswap32(x32))) == Arrange(BigEndian, Bytes32(x32))
    ensures Arrange(BigEndian, Bytes32(Uswap32(x32))) == Arrange(LittleEndian, Bytes32(x32))
    ensures Arrange(LittleEndian, Bytes64(Uswap64(x64))) == Arrange(BigEndian, Bytes64(x64))
    ensures Arrange(BigEndian, Bytes64(Uswap64(x64))) == Arrange(LittleEndian, Bytes64(x64))
  {
    ArrangeOpposite(Bytes16(x16));
    ArrangeOpposite(Bytes32(x32));
    ArrangeOpposite(Bytes64(x64));
  }

  /** Fixed inputs and their swaps. */
  lemma UswapExamples()
    ensures Uswap16(0x1234) == 0x3412
    ensures Uswap32(0x1234_5678) == 0x7856_3412
    ensures Uswap64(0x0102_0304_0506_0708) == 0x0807_0605_0403_0201
  {
  }
}
