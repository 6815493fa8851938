/** Machine integers, bytes and the few wrappers shared by every component.
    Unsigned arithmetic wraps, as it does in a release build. */
module Machine {

  const TWO_64: int := 0x1_0000_0000_0000_0000
  const TWO_63: int := 0x8000_0000_0000_0000

  /** The largest value of a signed 64-bit `off_t`; no file is longer. */
  const OFF_MAX: int := TWO_63 - 1

  type Byte = b: int | 0 <= b < 256
  type U64 = x: int | 0 <= x < TWO_64
  type FileBytes = s: seq<Byte> | |s| <= OFF_MAX

  datatype Option<+T> = None | Some(value: T)

  function Min(a: int, b: int): int {
    if a <= b then a else b
  }

  function WrapAdd(a: U64, b: U64): U64 {
    if a + b < TWO_64 then a + b else a + b - TWO_64
  }

  function WrapSub(a: U64, b: U64): U64 {
    if b <= a then a - b else a - b + TWO_64
  }

  /** The low 64 bits. */
  function Low64(x: nat): U64 {
    if x < TWO_64 then x else x % TWO_64
  }

  /** The cast `x as i64`. */
  function AsI64(x: U64): int {
    if x < TWO_63 then x else x - TWO_64
  }
}
