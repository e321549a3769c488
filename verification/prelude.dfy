/**
  Fixed-width integer types of the simulator and the small datatypes the
  peripherals share. Dafny integers are unbounded, so every C++ truncation or
  wrap-around used by the model goes through one of the functions below.
 */
module Prelude {

  /** An unsigned 8-bit value (`uint8_t`). */
  type byte = b: int | 0 <= b < 256

  const TWO_16: int := 0x1_0000
  const TWO_32: int := 0x1_0000_0000
  const TWO_64: int := 0x1_0000_0000_0000_0000

  /** A 16-bit CPU address (`Word`). */
  type word = w: int | 0 <= w < TWO_16

  /** An unsigned 32-bit value (`uint32_t`). */
  type u32 = x: int | 0 <= x < TWO_32

  /** Storing an integer into a `uint8_t`. */
  function Wrap8(x: int): (r: byte)
    ensures (r - x) % 256 == 0
    ensures 0 <= x < 256 ==> r == x
  {
    x % 256
  }

  /** Storing an integer into a `uint32_t`. */
  function Wrap32(x: int): (r: u32)
    ensures (r - x) % TWO_32 == 0
    ensures 0 <= x < TWO_32 ==> r == x
  {
    x % TWO_32
  }

  /** Storing an integer into a 64-bit `size_t`. */
  function WrapSize(x: int): (r: int)
    ensures 0 <= r < TWO_64
    ensures (r - x) % TWO_64 == 0
    ensures 0 <= x < TWO_64 ==> r == x
  {
    x % TWO_64
  }

  datatype Option<+T> = None | Some(value: T)

  /** A register read: the value placed on the bus and the device's next state. */
  datatype Access<S> = Access(value: byte, next: S)
}
