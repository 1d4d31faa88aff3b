/** Bytes, 32-byte digests and the hash function they come from.

    The repository hashes with Keccak-256 from a foreign crate. Its internals are
    not modelled: every operation of the model takes the hash function as a
    parameter of type `Hasher`, so every property proved holds for whichever
    function of that type is plugged in. */
module Digests {

  /** An unsigned 8-bit value (Rust `u8`). */
  newtype Byte = b: int | 0 <= b < 0x100

  type Bytes = seq<Byte>

  /** A 256-bit hash value (Rust `[u8; 32]`). */
  type Digest = d: Bytes | |d| == 32 witness seq(32, _ => 0)

  /** A hash function with a 256-bit output over byte strings of any length. */
  type Hasher = Bytes -> Digest

  /** Two different messages that the hash function maps to the same digest. */
  ghost predicate IsCollision(keccak: Hasher, m1: Bytes, m2: Bytes) {
    m1 != m2 && keccak(m1) == keccak(m2)
  }
}
