/** Bytes and byte strings. */
module Octets {
  type Byte = b: int | 0 <= b < 256
  type Bytes = seq<Byte>

  /** The first `n` pieces, joined. */
  function Concat(pieces: seq<Bytes>, n: nat): Bytes
    requires n <= |pieces|
  {
    if n == 0 then [] else Concat(pieces, n - 1) + pieces[n - 1]
  }
}
