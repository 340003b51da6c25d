/** Small shared vocabulary: optional values, results, machine integers and minima. */
module Basics {

  datatype Option<+T> = None | Some(value: T)

  datatype Result<+T, +E> = Ok(value: T) | Err(error: E)

  /** How a call ended, without what it returned. */
  function ErrorOf<T, E>(r: Result<T, E>): Option<E> {
    if r.Ok? then None else Some(r.error)
  }

  type byte = b: int | 0 <= b < 0x100

  type uint16 = x: int | 0 <= x < 0x1_0000

  type uint32 = x: int | 0 <= x < 0x1_0000_0000

  const TWO32: int := 0x1_0000_0000

  function Min(a: int, b: int): int {
    if a < b then a else b
  }

  function Max(a: int, b: int): int {
    if a > b then a else b
  }
}
