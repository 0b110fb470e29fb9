/** Small shared vocabulary: an optional value (the model's stand-in for a
    possibly-null pointer) and the fixed-width integers the Model uses. */
module Base {

  /** A value that may be absent, as a C++ pointer may be NULL. */
  datatype Option<+T> = None | Some(value: T)

  /** One byte of serial input. */
  newtype u8 = x: int | 0 <= x < 0x100

  /** A C++ `uint16_t`. */
  newtype u16 = x: int | 0 <= x < 0x1_0000

  /** A `QByteArray` as delivered by the serial port. */
  type Bytes = seq<u8>
}
