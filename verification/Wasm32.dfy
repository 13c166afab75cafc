/** 32-bit WebAssembly memory: words that wrap, pages that end one short of the address space. */
module Wasm32 {

  const WORD := 0x1_0000_0000
  const PAGE := 65536

  // A 32-bit result.
  function Wrap(x: int): (w: nat)
    ensures w < WORD && (0 <= x < WORD ==> w == x)
  {
    x % WORD
  }

  function Pow2(n: nat): (p: nat)
    ensures p >= 1
  {
    if n == 0 then 1 else 2 * Pow2(n - 1)
  }
}
