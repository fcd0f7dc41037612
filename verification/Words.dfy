/** Optional values and the unsigned 64-bit arithmetic of the modelled code. */
module Words {

  datatype Option<+T> = None | Some(value: T)

  const TWO_TO_THE_64: nat := 0x1_0000_0000_0000_0000

  /** The unsigned machine word: block numbers, slots, timestamps. */
  type uint64 = n: nat | n < TWO_TO_THE_64

  const UINT64_MAX: uint64 := TWO_TO_THE_64 - 1

  /** Unsigned addition and subtraction wrap around silently. */
  function WrapAdd(a: uint64, b: uint64): uint64 {
    if a + b < TWO_TO_THE_64 then a + b else a + b - TWO_TO_THE_64
  }

  function WrapSub(a: uint64, b: uint64): uint64 {
    if b <= a then a - b else a + TWO_TO_THE_64 - b
  }

  function Min(a: nat, b: nat): nat {
    if a <= b then a else b
  }

  function Max(a: nat, b: nat): nat {
    if a <= b then b else a
  }
}
