/** Bytes, 32-bit arithmetic and bounds, for all the models. */
module Common {
  const UINT_MOD: nat := 0x1_0000_0000

  /** Where the kernel's half of the address space starts. */
  const KERNBASE: nat := 0x8000_0000

  type byte = x: nat | x < 256

  function Min(a: int, b: int): int {
    if a < b then a else b
  }

  function Max(a: int, b: int): int {
    if a < b then b else a
  }
}
