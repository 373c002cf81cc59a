/** Bits.reverseOrder: a shift-and-mask expression on a Java `int` that is
    meant to reverse the four bytes of a 32-bit value. */
module Bits {

  /** Byte `k` of `x`, counting from the least significant. */
  function ByteAt(x: bv32, k: nat): bv32
    requires k < 4
  {
    if k == 0 then x & 0xff
    else if k == 1 then (x >> 8) & 0xff
    else if k == 2 then (x >> 16) & 0xff
    else x >> 24
  }

  /** reverseOrder as written.  Its second term shifts by 16 where a byte
      reversal shifts by 8, so byte 3 of the input lands in both byte 0 and
      byte 1 of the result and byte 2 of the input is lost. */
  function ReverseOrder(x: bv32): (r: bv32)
    ensures ByteAt(r, 0) == ByteAt(x, 3)
    ensures ByteAt(r, 1) == ByteAt(x, 3)
    ensures ByteAt(r, 2) == ByteAt(x, 1)
    ensures ByteAt(r, 3) == ByteAt(x, 0)
  {
    (x >> 24) | ((x >> 16) & 0xff00) | ((x << 8) & 0xff0000) | ((x << 24) & 0xff00_0000)
  }

  /** A true byte reversal, as Integer.reverseBytes computes it. */
  function ReverseBytes(x: bv32): (r: bv32)
    ensures ByteAt(r, 0) == ByteAt(x, 3)
    ensures ByteAt(r, 1) == ByteAt(x, 2)
    ensures ByteAt(r, 2) == ByteAt(x, 1)
    ensures ByteAt(r, 3) == ByteAt(x, 0)
  {
    (x >> 24) | ((x >> 8) & 0xff00) | ((x << 8) & 0xff0000) | ((x << 24) & 0xff00_0000)
  }

  /** Two values are equal when all four of their bytes are. */
  lemma BytesDetermine(x: bv32, y: bv32)
    requires forall k :: 0 <= k < 4 ==> ByteAt(x, k) == ByteAt(y, k)
    ensures x == y
  {
    assert ByteAt(x, 0) == ByteAt(y, 0) && ByteAt(x, 1) == ByteAt(y, 1);
    assert ByteAt(x, 2) == ByteAt(y, 2) && ByteAt(x, 3) == ByteAt(y, 3);
  }

  /** reverseOrder agrees with a true byte reversal exactly on the inputs
      whose two high bytes are equal. */
  lemma ReverseOrderIsReversalIff(x: bv32)
    ensures ReverseOrder(x) == ReverseBytes(x) <==> ByteAt(x, 2) == ByteAt(x, 3)
  {
    var r, b := ReverseOrder(x), ReverseBytes(x);
    if ByteAt(x, 2) == ByteAt(x, 3) {
      BytesDetermine(r, b);
    } else {
      assert ByteAt(r, 1) != ByteAt(b, 1);
    }
  }

  /** reverseOrder is not an involution. */
  lemma ReverseOrderNotInvolution()
    ensures ReverseOrder(0x0102_0304) == 0x0403_0101
    ensures ReverseOrder(ReverseOrder(0x0102_0304)) != 0x0102_0304
  {
  }
}
