/** Hash functions with 32-byte digests: BLAKE2b-256 and SHA-256 are parameters of the model. */
module Hashing {
  import opened Bytes

  const HASH_SIZE: nat := 32

  type Digest = s: seq<byte> | |s| == HASH_SIZE witness Zeros(HASH_SIZE)

  type Hasher = seq<byte> -> Digest

  function Zeros(n: nat): (z: seq<byte>)
    ensures |z| == n
    ensures forall i :: 0 <= i < n ==> z[i] == 0
  {
    if n == 0 then [] else Zeros(n - 1) + [0]
  }

  /** Two different inputs with one hash. */
  predicate Collides(h: Hasher, x: seq<byte>, y: seq<byte>) {
    x != y && h(x) == h(y)
  }
}
