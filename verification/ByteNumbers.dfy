/** Bytes and the numbers they can write. */
module ByteNumbers {

  type Byte = x: int | 0 <= x < 256

  /** The number of values of k bytes. */
  function Pow256(k: nat): (p: nat)
    ensures p >= 1
  {
    if k == 0 then 1 else 256 * Pow256(k - 1)
  }
}
