/** The Merkle-path verifier: pair hashing, leaf hashing and the fold of a
    sibling path onto a leaf. */
module Merkle {
  import opened Digests

  /** The digest of an internal node: one hash pass over `left` followed by
      `right`, 64 bytes with no separator, length prefix or node tag. It is
      the leaf hash of that 64-byte concatenation. */
  function HashPair(keccak: Hasher, left: Digest, right: Digest): (d: Digest)
    ensures |left + right| == 64
    ensures d == LeafHash(keccak, left + right)
  {
    keccak(left + right)
  }

  /** The digest of a leaf: one hash pass over the raw data. */
  function LeafHash(keccak: Hasher, data: Bytes): Digest {
    keccak(data)
  }

  /** Any 64-byte payload hashed as a leaf gives the digest of the internal
      node whose children are its two halves: leaves and nodes share one
      digest space. */
  lemma LeafIsNode(keccak: Hasher, data: Bytes)
    requires |data| == 64
    ensures LeafHash(keccak, data) == HashPair(keccak, data[..32], data[32..])
  {
    assert data[..32] + data[32..] == data;
  }

  /** One level of the path: `goesRight` places the current digest on the right
      of its sibling, otherwise on the left. */
  function Step(keccak: Hasher, current: Digest, sibling: Digest, goesRight: bool): (d: Digest)
    ensures d == LeafHash(keccak, if goesRight then sibling + current else current + sibling)
    ensures current == sibling ==> d == HashPair(keccak, sibling, sibling)
  {
    if goesRight then HashPair(keccak, sibling, current) else HashPair(keccak, current, sibling)
  }

  /** The digest obtained by folding `proof` onto `current`, nearest level first. */
  function Fold(keccak: Hasher, current: Digest, proof: seq<Digest>, indices: seq<bool>): Digest
    requires |proof| == |indices|
    decreases |proof|
  {
    if |proof| == 0 then current
    else Fold(keccak, Step(keccak, current, proof[0], indices[0]), proof[1..], indices[1..])
  }

  /** The verdict of the verifier: the lists must have equal length and the
      fold of the path onto the leaf must reproduce the claimed root. A length
      mismatch is answered with `false`, never with an error. */
  function Verify(keccak: Hasher, leaf: Digest, root: Digest, proof: seq<Digest>, indices: seq<bool>): (valid: bool)
    ensures |proof| != |indices| ==> !valid
    ensures |proof| == 0 && |indices| == 0 ==> (valid <==> leaf == root)
  {
    |proof| == |indices| && Fold(keccak, leaf, proof, indices) == root
  }

  /** Folding a path split in two is folding the second part onto the result
      of the first. */
  lemma {:induction false} FoldAppend(keccak: Hasher, current: Digest,
                                      p1: seq<Digest>, i1: seq<bool>,
                                      p2: seq<Digest>, i2: seq<bool>)
    requires |p1| == |i1| && |p2| == |i2|
    ensures Fold(keccak, current, p1 + p2, i1 + i2)
         == Fold(keccak, Fold(keccak, current, p1, i1), p2, i2)
    decreases |p1|
  {
    if |p1| == 0 {
      assert p1 + p2 == p2;
      assert i1 + i2 == i2;
    } else {
      var next := Step(keccak, current, p1[0], i1[0]);
      assert (p1 + p2)[0] == p1[0] && (i1 + i2)[0] == i1[0];
      assert (p1 + p2)[1..] == p1[1..] + p2;
      assert (i1 + i2)[1..] == i1[1..] + i2;
      FoldAppend(keccak, next, p1[1..], i1[1..], p2, i2);
    }
  }

  /** Appending one level `(sibling, goesRight)` to a path hashes the previous
      result with that sibling on the side the bit selects. */
  lemma FoldSnoc(keccak: Hasher, current: Digest, proof: seq<Digest>, indices: seq<bool>,
                 sibling: Digest, goesRight: bool)
    requires |proof| == |indices|
    ensures var prev := Fold(keccak, current, proof, indices);
            Fold(keccak, current, proof + [sibling], indices + [goesRight])
            == (if goesRight then HashPair(keccak, sibling, prev) else HashPair(keccak, prev, sibling))
  {
    FoldAppend(keccak, current, proof, indices, [sibling], [goesRight]);
  }

  /** The verifier as the source writes it: reject on a length mismatch, then
      walk the siblings in order, keeping the running digest equal to the fold
      of the levels seen so far, and compare with the root. */
  method VerifyMerklePath(keccak: Hasher, leaf: Digest, root: Digest,
                          proof: seq<Digest>, indices: seq<bool>) returns (valid: bool)
    ensures valid == Verify(keccak, leaf, root, proof, indices)
  {
    if |proof| != |indices| {
      return false;
    }
    var current := leaf;
    for i := 0 to |proof|
      invariant current == Fold(keccak, leaf, proof[..i], indices[..i])
    {
      FoldSnoc(keccak, leaf, proof[..i], indices[..i], proof[i], indices[i]);
      assert proof[..i + 1] == proof[..i] + [proof[i]];
      assert indices[..i + 1] == indices[..i] + [indices[i]];
      if indices[i] {
        current := HashPair(keccak, proof[i], current);
      } else {
        current := HashPair(keccak, current, proof[i]);
      }
    }
    assert proof[..|proof|] == proof;
    assert indices[..|indices|] == indices;
    valid := current == root;
  }
}
