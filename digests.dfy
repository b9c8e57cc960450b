/** Bytes, 32-byte digests and the hash primitive that produces them.
    The primitive (SHA-256, reached through OpenSSL in the engine) is not
    modelled internally: every operation takes it as a total function
    parameter, so every result below holds for any hash of that shape. */
module Digests {

  /** An unsigned char of the engine. */
  newtype byte = x: int | 0 <= x < 256

  /** SHA256_SIZE of the engine's header. */
  const DIGEST_SIZE: nat := 32

  /** A hash output: exactly DIGEST_SIZE bytes. */
  type Digest = s: seq<byte> | |s| == DIGEST_SIZE witness seq(32, _ => 0)

  /** A hash primitive: defined on every byte string, including the empty one,
      and never failing. */
  type Hasher = seq<byte> -> Digest

  /** The raw 64-byte concatenation l || r of two digests, left one first,
      with no separator, length prefix or tag. */
  function Concat(l: Digest, r: Digest): (c: seq<byte>)
    ensures |c| == 2 * DIGEST_SIZE
    ensures c[..DIGEST_SIZE] == l && c[DIGEST_SIZE..] == r
  {
    l + r
  }
}
