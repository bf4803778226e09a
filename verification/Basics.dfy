/** Small definitions shared by the models. */
module Basics {

  datatype Option<T> = None | Some(value: T)

  function Max(x: int, y: int): int {
    if x < y then y else x
  }
}
