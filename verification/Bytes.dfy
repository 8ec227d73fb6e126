/** Bytes as numbers, and little-endian fields. */
module Bytes {
  type Byte = x: int | 0 <= x < 256

  /** The `width` low-order bytes of `n`, lowest first. */
  function LittleEndian(n: nat, width: nat): (r: seq<Byte>)
    ensures |r| == width
  {
    if width == 0 then [] else [n % 256] + LittleEndian(n / 256, width - 1)
  }

  function FromLittleEndian(bytes: seq<Byte>): nat {
    if bytes == [] then 0 else bytes[0] + 256 * FromLittleEndian(bytes[1..])
  }

  function Pow256(k: nat): nat {
    if k == 0 then 1 else 256 * Pow256(k - 1)
  }

  /** Reading a field back gives the number, as long as it fits. */
  lemma {:induction false} LittleEndianInverse(n: nat, width: nat)
    requires n < Pow256(width)
    ensures FromLittleEndian(LittleEndian(n, width)) == n
  {
    if width > 0 {
      LittleEndianInverse(n / 256, width - 1);
      assert LittleEndian(n, width)[1..] == LittleEndian(n / 256, width - 1);
    }
  }
}
