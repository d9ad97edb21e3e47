/** Fixed-width integers of the modelled Java code. */
module Java {
  newtype int32 = x: int | -0x8000_0000 <= x < 0x8000_0000
}
