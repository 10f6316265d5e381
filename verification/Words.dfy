/** Machine words of the firmware as subset types of `int`, and the limits and wrappers the models share. */
module Words {
  type u8 = x: int | 0 <= x < 0x100
  type u16 = x: int | 0 <= x < 0x1_0000
  type u32 = x: int | 0 <= x < 0x1_0000_0000
  type u64 = x: int | 0 <= x < 0x1_0000_0000_0000_0000

  const U64_MAX: u64 := 0xFFFF_FFFF_FFFF_FFFF

  const FRAME_BUF := 255
  const MAX_CONTACTS := 16
  const MAX_PIN_LEN := 16

  datatype Option<+T> = None | Some(value: T)

  /** A 4-byte hash: the packet dedup key, the wire ACK hash, a content fingerprint. */
  datatype Hash4 = Hash4(b0: u8, b1: u8, b2: u8, b3: u8)

  function Min(a: int, b: int): int {
    if a <= b then a else b
  }

  function Max(a: int, b: int): int {
    if a >= b then a else b
  }

  /** Rust's `saturating_sub` on an unsigned word. */
  function SatSub(a: nat, b: nat): nat {
    if a >= b then a - b else 0
  }
}
