/** Compile-time configuration of the logger and the C integer types the model needs. */
module Config {
  type byte = x: int | 0 <= x < 256
  type int32 = x: int | -0x8000_0000 <= x < 0x8000_0000
  type uint16 = x: int | 0 <= x < 0x1_0000

  const RING_SIZE: nat := 1024          // bytes in the RAM ring
  const MAX_MESSAGE: nat := 256         // budget of one message, in bytes
  const MAX_PACKET: nat := 256          // bytes handed to a destination at once
  const OVERRUN_MARK: byte := 94        // '^'

  const SECTOR: nat := 65536            // flash sector, in bytes
  const SECTOR_KB: nat := 64
  const THRESHOLD_KB: nat := 50         // usage at which the next sector is erased
  const FLASH_START: nat := 0xA_0000    // first address of the log area
  const BLANK_NVR: nat := 0xFFFF_FFFF   // an NVR word that was never written
  const WHOLE_LOG_KB: uint16 := 0xFFFF  // "send everything" request

  /** A C string: the bytes before its terminating NUL. */
  type CString = s: seq<byte> | 0 !in s

  function Min(a: int, b: int): int {
    if a < b then a else b
  }
}
