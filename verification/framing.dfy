/**
  Bit framing of the AFSK encoder.

  For every frame the encoder builds a 9-bit word `gbyte` and sends
  its bits 9 down to 0, one bit per bit tick; bit 9 is always 0 and is the
  start bit of the 10-bit frame:
  - standard format: `(cur_byte << 1) | 1` -- a start bit 0, the eight bits
    of the byte (seven data bits and a parity bit prepared by the sender),
    and a stop bit 1;
  - alternate format: `(cur_byte << 1) | (ext_byte & 1)` -- a start bit 0,
    eight data bits, and a parity bit taken from the low bit of the next
    payload byte.
 */
module Framing {
  import opened AfskTypes

  const FrameLength: nat := 10

  function Pow2(n: nat): (r: nat)
    ensures r >= 1
  {
    if n == 0 then 1 else 2 * Pow2(n - 1)
  }

  /** `x >> n` for a non-negative `x`: `n` successive halvings. */
  function ShiftRight(x: nat, n: nat): nat
    decreases n
  {
    if n == 0 then x else ShiftRight(x / 2, n - 1)
  }

  /** The framed word `gbyte` of the source. */
  function FrameWord(cur: Byte, ext: Byte, alt: bool): (g: nat)
    ensures g < 512
    ensures g / 2 == cur
    ensures g % 2 == Trailer(ext, alt)
  {
    if !alt then cur * 2 + 1 else cur * 2 + ext % 2
  }

  /** Last bit of a frame: the stop bit 1, or the parity bit carried by the next byte. */
  function Trailer(ext: Byte, alt: bool): Bit
  {
    if alt then ext % 2 else 1
  }

  /** `cur_bit = (gbyte >> (9 - bit_pos)) & 1`. */
  function FrameBit(g: nat, bitPos: nat): Bit
    requires bitPos < FrameLength
  {
    ShiftRight(g, FrameLength - 1 - bitPos) % 2
  }

  /** The `n` low bits of `b`, most significant first. */
  function MsbBits(b: nat, n: nat): (bits: seq<Bit>)
    ensures |bits| == n
    decreases n
  {
    if n == 0 then [] else MsbBits(b / 2, n - 1) + [b % 2]
  }

  /** The value of a bit string read most significant bit first. */
  function FromMsbBits(bits: seq<Bit>): (v: nat)
    ensures v < Pow2(|bits|)
    decreases |bits|
  {
    if |bits| == 0 then 0 else 2 * FromMsbBits(bits[..|bits| - 1]) + bits[|bits| - 1]
  }

  /**
    Reference layout of one frame on the line, independent of the shift
    arithmetic: start bit, the byte most significant bit first, trailer.
   */
  function FrameBits(cur: Byte, ext: Byte, alt: bool): (bits: seq<Bit>)
    ensures |bits| == FrameLength
  {
    [0] + MsbBits(cur, 8) + [Trailer(ext, alt)]
  }

  /**
    Receiver side: checks the start bit (and, in the standard format, the
    stop bit) and recovers the byte.
   */
  function DecodeFrame(bits: seq<Bit>, alt: bool): (r: Option<Byte>)
    requires |bits| == FrameLength
  {
    if bits[0] != 0 || (!alt && bits[FrameLength - 1] != 1) then None
    else
      var v := FromMsbBits(bits[1..FrameLength - 1]);
      assert v < 256 by { assert Pow2(8) == 256; }
      Some(v)
  }

  lemma {:induction false} MsbBitsAt(b: nat, n: nat, j: nat)
    requires j < n
    ensures MsbBits(b, n)[j] == ShiftRight(b, n - 1 - j) % 2
    decreases n
  {
    if j < n - 1 {
      MsbBitsAt(b / 2, n - 1, j);
      ShiftRightHalves(b, n - 1 - j);
    }
  }

  lemma ShiftRightHalves(b: nat, m: nat)
    ensures ShiftRight(b / 2, m) == ShiftRight(b, m + 1)
  {
  }

  lemma {:induction false} ShiftRightSmall(b: nat, n: nat)
    requires b < Pow2(n)
    ensures ShiftRight(b, n) == 0
    decreases n
  {
    if n > 0 {
      ShiftRightSmall(b / 2, n - 1);
    }
  }

  /**
    The bit the source extracts at `bit_pos` is bit `bit_pos` of the
    reference frame, for every position and both formats; in particular the
    first bit of every frame is the start bit 0.
   */
  lemma {:induction false} FrameBitMatchesLayout(cur: Byte, ext: Byte, alt: bool, k: nat)
    requires k < FrameLength
    ensures FrameBit(FrameWord(cur, ext, alt), k) == FrameBits(cur, ext, alt)[k]
    ensures k == 0 ==> FrameBit(FrameWord(cur, ext, alt), k) == 0
  {
    var g := FrameWord(cur, ext, alt);
    var m := FrameLength - 1 - k;
    if k == FrameLength - 1 {
    } else {
      ShiftRightHalves(g, m - 1);
      assert ShiftRight(g, m) == ShiftRight(cur, m - 1);
      if k == 0 {
        assert Pow2(8) == 256;
        ShiftRightSmall(cur, 8);
      } else {
        MsbBitsAt(cur, 8, k - 1);
        assert FrameBits(cur, ext, alt)[k] == MsbBits(cur, 8)[k - 1];
      }
    }
  }

  lemma {:induction false} FromMsbBitsInverse(b: nat, n: nat)
    requires b < Pow2(n)
    ensures FromMsbBits(MsbBits(b, n)) == b
    decreases n
  {
    if n > 0 {
      FromMsbBitsInverse(b / 2, n - 1);
      assert MsbBits(b, n)[..n - 1] == MsbBits(b / 2, n - 1);
    }
  }

  lemma {:induction false} MsbBitsInverse(bits: seq<Bit>)
    ensures MsbBits(FromMsbBits(bits), |bits|) == bits
    decreases |bits|
  {
    if |bits| > 0 {
      var n := |bits|;
      MsbBitsInverse(bits[..n - 1]);
      assert bits == bits[..n - 1] + [bits[n - 1]];
    }
  }

  /** Decoding a frame the encoder produced gives back the byte. */
  lemma FrameRoundTrip(cur: Byte, ext: Byte, alt: bool)
    ensures DecodeFrame(FrameBits(cur, ext, alt), alt) == Some(cur)
  {
    var bits := FrameBits(cur, ext, alt);
    assert bits[1..FrameLength - 1] == MsbBits(cur, 8);
    assert Pow2(8) == 256;
    FromMsbBitsInverse(cur, 8);
  }

  /**
    Conversely, every 10-bit string the decoder accepts is the frame of the
    byte it returns; in the alternate format its last bit is the parity bit
    of any next byte with that low bit.
   */
  lemma FrameDecodeComplete(bits: seq<Bit>, alt: bool, ext: Byte)
    requires |bits| == FrameLength
    requires alt ==> ext % 2 == bits[FrameLength - 1]
    requires DecodeFrame(bits, alt).Some?
    ensures bits == FrameBits(DecodeFrame(bits, alt).value, ext, alt)
  {
    var mid := bits[1..FrameLength - 1];
    MsbBitsInverse(mid);
    assert bits == [bits[0]] + mid + [bits[FrameLength - 1]];
  }
}
