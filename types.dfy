/** The machine integers the search works with. */
module Types {
  /** An 8-bit byte, as in a Go []byte. */
  newtype byte = x: int | 0 <= x < 0x100

  /** A 32-bit checksum value, as Go's uint32. */
  newtype uint32 = x: int | 0 <= x < 0x1_0000_0000
}
