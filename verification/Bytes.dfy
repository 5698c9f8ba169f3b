/** Bytes, and the keys and values made of them. */
module Bytes {
  type byte = b: int | 0 <= b < 256
  type Key = seq<byte>

  /** The longest key that, behind its eight-byte length, the index's 32-bit byte positions can reach. */
  const MAX_KEY := 0xFFFF_FFF7

  /** The part of `value` that a read at `offset` into `room` bytes returns. */
  function Window(value: seq<byte>, offset: nat, room: nat): seq<byte> {
    if offset >= |value| then []
    else if offset + room <= |value| then value[offset..offset + room]
    else value[offset..]
  }
}
