/** Values shared by every component: optional values, results and machine bytes. */
module Wrappers {

  datatype Option<+T> = None | Some(value: T)

  datatype Result<+T, +E> = Ok(value: T) | Err(error: E)

  /** An unsigned byte, as `InputStream.read` delivers it. */
  type Byte = x: int | 0 <= x < 0x100

  /** A Java `char`. */
  type Char16 = x: int | 0 <= x < 0x1_0000

  /** A Java `int`. */
  type JavaInt = x: int | -0x8000_0000 <= x < 0x8000_0000

  /** The magnitude `Math.abs` gives for the signed reading of a byte (128 for -128). */
  function AbsByte(b: Byte): (r: nat)
    ensures r <= 128 && (r == b || r + b == 0x100)
  {
    if b < 128 then b else 256 - b
  }

  /** Java's `int` wrap-around. */
  function Int32(x: int): JavaInt {
    (x + 0x8000_0000) % 0x1_0000_0000 - 0x8000_0000
  }
}
