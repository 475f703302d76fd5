/** The one-byte integers of the program. */
module Machine {

  newtype uint8 = x: int | 0 <= x < 256

  /** The same as a number, for packets and specifications. */
  type Byte = x: int | 0 <= x < 256
}
