# Merkle path verifier (sp1-mt `merkle_tree_lib`)

This project models the Merkle-path library that the SP1 guest program and the demo script
call into. The library has three operations:

- `hash_pair` is one Keccak-256 pass over `left ‖ right`, two 32-byte digests with no
  separator.
- `compute_leaf_hash` is one Keccak-256 pass over arbitrary bytes. It has no leaf tag.
- `verify_merkle_path` first rejects sibling and direction lists of unequal length. It then
  folds the siblings onto the leaf, nearest level first. Bit `true` hashes `(sibling, current)`
  and bit `false` hashes `(current, sibling)`. Finally it compares the result with the
  claimed root.

Keccak-256 is not modelled. Every operation takes the hash function as a parameter
`keccak: Hasher` (any function from byte strings to 32-byte digests). So every lemma holds
for whatever hash is plugged in. A pair hash maps 64-byte inputs onto 32-byte digests, so it
cannot be injective. The security lemmas therefore do not assume injectivity. Each one says:
if a forged or tampered path were accepted, here are two distinct 64-byte messages with the
same hash, i.e. an explicit collision.

Files:

- `digests.dfy` (module `Digests`) holds bytes, digests, the `Hasher` type and what a
  collision is.
- `merkle.dfy` (module `Merkle`) holds `HashPair`, `LeafHash`, the spec fold `Fold`, the
  verdict `Verify` and the loop `VerifyMerklePath`. The loop is proved equal to `Verify`
  with the invariant `current == Fold(leaf, proof[..i], indices[..i])`.
- `merkle_security.dfy` (module `MerkleSecurity`) shows what an accepted path pins down.
- `merkle_tree.dfy` (module `MerkleTree`) holds binary trees and their authentication paths.
  It proves that every leaf verifies, which generalises the hand-built trees of the unit tests.

Two properties of the code are worth stating directly:

- The verifier takes the siblings and the direction bits as two separate lists. A length
  mismatch between them is answered with `false`, not with an error.
- A flipped direction bit is not always caught. When the running digest at that level
  equals the sibling, both orders hash the same 64 bytes, so the verdict is unchanged for
  every hash. `FlippedDirectionRejected` and `FlipAtEqualSiblingHarmless` prove the two sides.

## Model

| member | source | states |
|---|---|---|
| Merkle.HashPair | lib/src/lib.rs:13-20 | the pair hash is the leaf hash of the 64-byte concatenation `left ‖ right`: there is no domain separation between nodes and leaves |
| Merkle.LeafHash | lib/src/lib.rs:58-64 | the leaf digest is one hash pass over the raw bytes, with no leaf tag; its relation to node digests is stated by `HashPair` and `LeafIsNode` |
| Merkle.Step | lib/src/lib.rs:45-51 | one level hashes the 64-byte message `sibling ‖ current` when the bit is true and `current ‖ sibling` when it is false; when current equals the sibling the bit does not matter |
| Merkle.LeafIsNode | lib/src/lib.rs:58-64 | conversely, the leaf hash of any 64-byte payload equals the node hash of its two 32-byte halves (the second-preimage weakness of an untagged leaf hash) |
| Merkle.Verify | lib/src/lib.rs:32-55 | sibling and direction lists of unequal length are rejected whatever the contents; with an empty path the verdict is exactly `leaf == root` |
| Merkle.FoldAppend | lib/src/lib.rs:44-52 | folding a path split in two equals folding the second part onto the digest the first part produces |
| Merkle.FoldSnoc | lib/src/lib.rs:44-54 | appending a level `(s, b)` to a path yields `HashPair(s, prev)` when `b` holds and `HashPair(prev, s)` otherwise |
| Merkle.VerifyMerklePath | lib/src/lib.rs:32-55 | the imperative loop (early length check, in-order fold, final comparison) returns exactly the verdict of the functional `Verify` |
| MerkleSecurity.PairCollision | lib/src/lib.rs:13-20 | two different child pairs with the same node hash give two distinct 64-byte messages with equal hash |
| MerkleSecurity.OrderSensitivity | lib/src/lib.rs:71-83 | swapping two distinct children leaves the node hash unchanged only through an explicit hash collision |
| MerkleSecurity.StepCollision | lib/src/lib.rs:45-51 | one level with a fixed direction bit maps different (current, sibling) inputs to one digest only through a collision |
| MerkleSecurity.PathsDetermined | lib/src/lib.rs:44-54 | two folds with the same direction bits that differ in leaf or siblings but reach the same digest yield a collision |
| MerkleSecurity.TamperedLeafRejected | lib/src/lib.rs:32-55 | one path accepted for two different leaves against one root yields a collision |
| MerkleSecurity.TamperedSiblingsRejected | lib/src/lib.rs:32-55 | two different sibling lists accepted for one leaf, root and bit list yield a collision |
| MerkleSecurity.TamperedRootRejected | lib/src/lib.rs:54 | an accepted path is rejected against every other root, for every hash function |
| MerkleSecurity.WrongSiblingRejected | lib/src/lib.rs:102-110 | accepting leaf `l1` with sibling `l1` against `hash_pair(l1, l2)`, `l1 != l2`, yields a collision |
| MerkleSecurity.SplitAt | lib/src/lib.rs:44-52 | the fold of a whole path equals the fold of levels `j+1..` onto level `j`'s parent, whose running digest is the fold of the first `j` levels |
| MerkleSecurity.FlippedDirectionRejected | lib/src/lib.rs:45-51 | flipping bit `j` of an accepted path, where the running digest differs from sibling `j`, keeps it accepted only through a collision |
| MerkleSecurity.FlipAtEqualSiblingHarmless | lib/src/lib.rs:45-51 | flipping bit `j` where the running digest equals sibling `j` never changes the verdict |
| MerkleTree.Completeness | lib/src/lib.rs:86-134 | in every binary tree, every leaf verifies against the root with its siblings and bottom-up turns |
| MerkleTree.OneLevelRoundTrip | lib/src/lib.rs:86-100 | with `root = hash_pair(l1, l2)`, `l1` verifies with `[l2]`/`[false]` and `l2` with `[l1]`/`[true]`, for any digests |
| MerkleTree.FourLeafRoundTrip | lib/src/lib.rs:114-134 | in the four-leaf tree, `h1` verifies with `[h2, n2]`/`[false, false]` and `h4` with `[h3, n1]`/`[true, true]`, for any digests |

## Left out

- Keccak-256 itself (the `sha3` crate, lib/src/lib.rs:14 and 59) is a foreign library. It is
  the `keccak` parameter. Feeding the hasher twice (`update(left); update(right)`) is
  modelled as one hash of the concatenation.
- OrderSensitivity: the unit test asserts `hash_pair(a, b) != hash_pair(b, a)` for two
  concrete digests. That is a cryptographic fact about Keccak and cannot be proved of an
  arbitrary hash, so the lemma only turns equality into an explicit collision.
- WrongSiblingRejected: the unit test asserts the wrong proof fails outright. The lemma only
  shows that accepting it requires a collision, for the same reason.
- The unit tests build leaves as `compute_leaf_hash(b"data1")` and so on. The round-trip
  lemmas quantify over all leaf digests instead, which covers those values.
- Inputs untouched: the Rust function takes digests by value and lists as shared slices. The
  model's sequences are immutable values, so this holds by construction and no contract
  states it.
- `PublicValuesStruct` (lib/src/lib.rs:3-10) and its ABI encoding come from the `alloy` `sol!`
  macro, whose generated code is not part of this model.
- program/src/main.rs (zkVM stdin reads, `commit_slice`) is I/O plumbing. It always reads
  equal-length lists.
- script/src/bin/main.rs, evm.rs and vkey.rs are command-line parsing, prover-client setup,
  proof generation and fixture writing around an external proving backend.
