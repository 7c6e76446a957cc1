/** Small definitions that several modules share. */
module Basics {
  datatype Option<T> = None | Some(value: T)

  const NUL: char := '\0'

  function Min(a: int, b: int): (r: int)
    ensures r == a || r == b
    ensures r <= a && r <= b
  {
    if a < b then a else b
  }
}
