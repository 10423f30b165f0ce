/** What several models share: options, 64-bit words and powers of 256. */
module Basics {

  datatype Option<T> = None | Some(value: T)

  const TWO_64: nat := 0x1_0000_0000_0000_0000

  type uint64 = n: nat | n < TWO_64

  function Pow256(k: nat): (p: nat)
    ensures p >= 1
  {
    if k == 0 then 1 else 256 * Pow256(k - 1)
  }
}
