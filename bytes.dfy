/** Fixed-width unsigned integers used by the sensor images and the gesture ring buffer. */
module Bytes {
  /** One unsigned 8-bit sample (`uint8_t`). */
  newtype byte = x: int | 0 <= x < 0x100

  /** One unsigned 32-bit value (`uint32_t`). */
  newtype uint32 = x: int | 0 <= x < 0x1_0000_0000

  const UINT32_MAX: uint32 := 0xFFFF_FFFF
}
