/** Small values every component uses. */
module Scalars {

  type Byte = x: nat | x < 256

  function Min(a: int, b: int): (m: int) { if a < b then a else b }

  function Max(a: int, b: int): (m: int) { if a > b then a else b }
}
