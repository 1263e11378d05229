/** Types and functions every part of the project uses. */
module Basics {

  datatype Option<T> = None | Some(value: T)

  /** Message IDs are only ever compared for equality. */
  datatype MessageId = MessageId(id: nat)

  function Min(a: int, b: int): int { if a < b then a else b }

  function Max(a: int, b: int): int { if a > b then a else b }
}
