/** Byte orders and byte sequences.

    A word of N bytes is described by the list of its bytes in ascending
    significance (byte 0 is the least significant one). A byte order says in
    which sequence those bytes appear when the word is laid out byte by byte:
    little-endian lists them least significant first, big-endian most
    significant first. Mixed ("PDP") orders are not supported, so the
    datatype has exactly two values.
 */
module Bytes {

  datatype ByteOrder = LittleEndian | BigEndian

  /** The reverse of a sequence. */
  function Reverse<T>(s: seq<T>): (r: seq<T>)
    ensures |r| == |s|
    ensures forall i :: 0 <= i < |s| ==> r[i] == s[|s| - 1 - i]
  {
    if s == [] then [] else Reverse(s[1..]) + [s[0]]
  }

  /** Reversing twice gives back the original sequence. */
  lemma ReverseInvolutive<T>(s: seq<T>)
    ensures Reverse(Reverse(s)) == s
  {
    var rr := Reverse(Reverse(s));
    forall i | 0 <= i < |s|
      ensures rr[i] == s[i]
    {
      assert rr[i] == Reverse(s)[|s| - 1 - i];
    }
  }

  /** Reverse of an eight-element sequence, written out. */
  lemma Reverse8<T>(s: seq<T>)
    requires |s| == 8
    ensures Reverse(s) == [s[7], s[6], s[5], s[4], s[3], s[2], s[1], s[0]]
  {
  }

  /** The bytes of a word, given in ascending significance, in the order
      `order` lays them out. */
  function Arrange(order: ByteOrder, bytes: seq<bv8>): seq<bv8>
  {
    match order
    case LittleEndian => bytes
    case BigEndian => Reverse(bytes)
  }

  /** Laying out in one order is laying out the reversed bytes in the other. */
  lemma ArrangeOpposite(bytes: seq<bv8>)
    ensures Arrange(BigEndian, bytes) == Arrange(LittleEndian, Reverse(bytes))
    ensures Arrange(LittleEndian, bytes) == Arrange(BigEndian, Reverse(bytes))
  {
    ReverseInvolutive(bytes);
  }

  /** Arranging loses nothing: equal layouts come from equal byte lists. */
  lemma {:induction false} ArrangeInjective(order: ByteOrder, a: seq<bv8>, b: seq<bv8>)
    requires Arrange(order, a) == Arrange(order, b)
    ensures a == b
  {
    if order == BigEndian {
      ReverseInvolutive(a);
      ReverseInvolutive(b);
    }
  }
}
