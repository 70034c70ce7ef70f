/**
  Machine-level value types shared by the AFSK processor model.

  The class declaration of the processor (proc_afsk.hpp) and the layout of
  the configuration message are not part of this model. The widths below
  are assumed widths (the declarations are not shown): 32-bit unsigned
  counts and increments, a signed 32-bit bandwidth scale, and payload bytes
  as unsigned 8-bit values.
 */
module AfskTypes {

  const PayloadSize: nat := 512
  const TableSize: nat := 256
  const Modulus32: nat := 0x1_0000_0000

  type Byte = x: int | 0 <= x < 256
  type Bit = x: int | 0 <= x < 2
  type I8 = x: int | -128 <= x < 128
  type I32 = x: int | -0x8000_0000 <= x < 0x8000_0000
  type U32 = x: int | 0 <= x < 0x1_0000_0000

  /** The 512-byte message buffer carried by a configuration message. */
  type Payload = s: seq<Byte> | |s| == PayloadSize witness seq(512, _ => 0)

  /** A 256-entry signed 8-bit sine table; its contents are a parameter of the model. */
  type SineTable = t: seq<I8> | |t| == TableSize witness seq(256, _ => 0)

  datatype Option<+T> = None | Some(value: T)

  /** Conversion of an arbitrary integer to a 32-bit unsigned value (two's-complement wrap-around). */
  function Wrap32(x: int): (r: U32)
    ensures (r - x) % Modulus32 == 0
    ensures 0 <= x < Modulus32 ==> r == x
  {
    x % Modulus32
  }
}
