/** Integer helpers standing in for `Math.max` and `Math.min`. */
module Numeric {

  function Max(a: int, b: int): int { if a >= b then a else b }

  function Min(a: int, b: int): int { if a <= b then a else b }
}
