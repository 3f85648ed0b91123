/** Sizes of words and of the windows that several parts of the program work with. */
module Sizes {

  const KB := 1024
  const KB64 := 0x1_0000
  const GB := 0x4000_0000
  const U32 := 0x1_0000_0000
  const U64 := 0x1_0000_0000_0000_0000

  function Min(a: nat, b: nat): nat {
    if a < b then a else b
  }

  function Max(a: nat, b: nat): nat {
    if a < b then b else a
  }
}
