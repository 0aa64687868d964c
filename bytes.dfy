/**
 Bytes as the C++ code stores them (`unsigned char` pixel channels, `char`
 message characters), the bit operations the codec applies to them, and the
 conversion of a `char` buffer to a `std::string`, which stops at the first
 NUL byte.
 */
module Bytes {

  type byte = bv8

  /** Bit `k` of `b`, counting from the least-significant bit (bit 0). */
  function BitOf(b: byte, k: nat): (r: byte)
    requires k < 8
    ensures r == 0 || r == 1
  {
    (b >> k) & 1
  }

  /** Bit 0 of `b` is `b & 1`. */
  lemma LowBit(b: byte)
    ensures BitOf(b, 0) == b & 1
  {
  }

  /** `(b & ~1) | bit`: the byte `b` with its least-significant bit replaced by `bit`. */
  function SetLsb(b: byte, bit: byte): (r: byte)
    requires bit == 0 || bit == 1
    ensures BitOf(r, 0) == bit
    ensures forall k :: 1 <= k < 8 ==> BitOf(r, k) == BitOf(b, k)
    ensures r & 0xFE == b & 0xFE
  {
    (b & !1) | bit
  }

  /** The eight bits of `b`, least-significant first. */
  function BitsOfByte(b: byte): (bits: seq<byte>)
    ensures |bits| == 8
    ensures forall t :: 0 <= t < 8 ==> bits[t] == 0 || bits[t] == 1
  {
    seq(8, t requires 0 <= t < 8 => BitOf(b, t))
  }

  /** `b | (bit << s)`: the byte `b` with `bit` ORed in at bit `s`. */
  function OrAt(b: byte, bit: byte, s: nat): byte
    requires s < 8
  {
    b | (bit << s)
  }

  /**
   The byte built by ORing `bits[t]` in at bit `t` of a zero byte for `t` from
   0 up to `k - 1`, which is how `extractmessage` assembles each message byte.
   */
  function OrBits(bits: seq<byte>, k: nat): byte
    requires k <= |bits| && k <= 8
  {
    if k == 0 then 0 else OrAt(OrBits(bits, k - 1), bits[k - 1], k - 1)
  }

  /** Assembling the eight bits of `b` gives `b` back. */
  lemma OrBitsOfByte(b: byte)
    ensures OrBits(BitsOfByte(b), 8) == b
  {
    var bits := BitsOfByte(b);
    assert OrBits(bits, 1) == 0 | (bits[0] << 0);
    assert OrBits(bits, 2) == OrBits(bits, 1) | (bits[1] << 1);
    assert OrBits(bits, 4) == OrBits(bits, 2) | (bits[2] << 2) | (bits[3] << 3);
    assert OrBits(bits, 6) == OrBits(bits, 4) | (bits[4] << 4) | (bits[5] << 5);
    assert OrBits(bits, 8) == OrBits(bits, 6) | (bits[6] << 6) | (bits[7] << 7);
  }

  /** Bit `t` of the byte assembled from eight bits is bit `t` of the sequence. */
  lemma OrBitsBit(bits: seq<byte>, t: nat)
    requires |bits| == 8 && t < 8
    requires forall u :: 0 <= u < 8 ==> bits[u] == 0 || bits[u] == 1
    ensures BitOf(OrBits(bits, 8), t) == bits[t]
  {
    var b0, b1, b2, b3, b4, b5, b6, b7 := bits[0], bits[1], bits[2], bits[3], bits[4], bits[5], bits[6], bits[7];
    assert OrBits(bits, 1) == OrAt(0, b0, 0);
    assert OrBits(bits, 2) == OrAt(OrBits(bits, 1), b1, 1);
    assert OrBits(bits, 4) == OrAt(OrAt(OrBits(bits, 2), b2, 2), b3, 3);
    assert OrBits(bits, 6) == OrAt(OrAt(OrBits(bits, 4), b4, 4), b5, 5);
    assert OrBits(bits, 8) == OrAt(OrAt(OrBits(bits, 6), b6, 6), b7, 7);
    assert b0 <= 1 && b1 <= 1 && b2 <= 1 && b3 <= 1 && b4 <= 1 && b5 <= 1 && b6 <= 1 && b7 <= 1;
    AssembledBits(b0, b1, b2, b3, b4, b5, b6, b7);
    if t == 0 {
    } else if t == 1 {
    } else if t == 2 {
    } else if t == 3 {
    } else if t == 4 {
    } else if t == 5 {
    } else if t == 6 {
    } else {
      assert t == 7;
    }
  }

  /** The eight bits ORed in one after the other can each be read back. */
  lemma AssembledBits(b0: byte, b1: byte, b2: byte, b3: byte, b4: byte, b5: byte, b6: byte, b7: byte)
    requires b0 <= 1 && b1 <= 1 && b2 <= 1 && b3 <= 1 && b4 <= 1 && b5 <= 1 && b6 <= 1 && b7 <= 1
    ensures var b := OrAt(OrAt(OrAt(OrAt(OrAt(OrAt(OrAt(OrAt(0, b0, 0), b1, 1), b2, 2), b3, 3), b4, 4), b5, 5), b6, 6), b7, 7);
      BitOf(b, 0) == b0 && BitOf(b, 1) == b1 && BitOf(b, 2) == b2 && BitOf(b, 3) == b3 &&
      BitOf(b, 4) == b4 && BitOf(b, 5) == b5 && BitOf(b, 6) == b6 && BitOf(b, 7) == b7
  {
  }

  /** Zero bits from position `k` on add nothing to the assembled byte. */
  lemma {:induction false} OrBitsZeroTail(bits: seq<byte>, k: nat, m: nat)
    requires k <= m <= |bits| && m <= 8
    requires forall t :: k <= t < m ==> bits[t] == 0
    ensures OrBits(bits, m) == OrBits(bits, k)
  {
    if m > k {
      OrBitsZeroTail(bits, k, m - 1);
    }
  }

  /**
   The `std::string` built from a `char` buffer: the bytes before the first
   NUL byte. A buffer without a NUL is taken whole.
   */
  function CString(buffer: seq<byte>): (r: seq<byte>)
    ensures |r| <= |buffer| && r == buffer[..|r|]
    ensures 0 !in r
    ensures |r| < |buffer| ==> buffer[|r|] == 0
  {
    if buffer == [] || buffer[0] == 0 then []
    else [buffer[0]] + CString(buffer[1..])
  }
}
