/** Shared vocabulary: machine words, optional values and results. */
module Words {
  const TWO_TO_64: int := 0x1_0000_0000_0000_0000
  const MAX_UINT64: uint64 := 0xFFFF_FFFF_FFFF_FFFF

  type uint64 = x: int | 0 <= x < 0x1_0000_0000_0000_0000

  /** Unsigned 64-bit arithmetic keeps the low 64 bits of every result. */
  function Wrap(x: int): uint64 {
    x % TWO_TO_64
  }

  function Min(x: int, y: int): int {
    if x <= y then x else y
  }

  datatype Option<+T> = None | Some(value: T)

  datatype Result<+T> = Ok(value: T) | Error
}
