/** Small definitions that several modules share. */
module Basics {

  const U32_MAX: nat := 0xFFFF_FFFF

  type Byte = x: int | 0 <= x < 256

  function Max(a: nat, b: nat): nat {
    if a < b then b else a
  }

  /** The first `cap` elements, or all if there are no more. */
  function Capped<T>(s: seq<T>, cap: nat): seq<T> {
    if |s| <= cap then s else s[..cap]
  }
}
