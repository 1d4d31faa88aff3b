/** What an accepted path pins down. A pair hash maps 512-bit inputs to 256-bit
    digests, so it cannot be injective; instead of assuming it is, each lemma
    here shows that a forged or tampered path that still verifies hands over
    an explicit hash collision between two distinct 64-byte messages. */
module MerkleSecurity {
  import opened Digests
  import opened Merkle

  /** Two different (left, right) pairs with the same pair hash are a
      collision of the underlying hash on 64-byte messages. */
  lemma PairCollision(keccak: Hasher, l1: Digest, r1: Digest, l2: Digest, r2: Digest)
    returns (m1: Bytes, m2: Bytes)
    requires l1 != l2 || r1 != r2
    requires HashPair(keccak, l1, r1) == HashPair(keccak, l2, r2)
    ensures |m1| == 64 && |m2| == 64
    ensures IsCollision(keccak, m1, m2)
  {
    m1, m2 := l1 + r1, l2 + r2;
    assert m1[..32] == l1 && m1[32..] == r1;
    assert m2[..32] == l2 && m2[32..] == r2;
  }

  /** Pair hashing is order-sensitive unless the hash collides: swapping two
      different children changes the parent digest. */
  lemma OrderSensitivity(keccak: Hasher, left: Digest, right: Digest)
    returns (m1: Bytes, m2: Bytes)
    requires left != right
    requires HashPair(keccak, left, right) == HashPair(keccak, right, left)
    ensures |m1| == 64 && |m2| == 64
    ensures IsCollision(keccak, m1, m2)
  {
    m1, m2 := PairCollision(keccak, left, right, right, left);
  }

  /** Two levels with the same direction bit but different inputs give the
      same digest only through a collision. */
  lemma StepCollision(keccak: Hasher, a: Digest, s: Digest, b: Digest, t: Digest, goesRight: bool)
    returns (m1: Bytes, m2: Bytes)
    requires a != b || s != t
    requires Step(keccak, a, s, goesRight) == Step(keccak, b, t, goesRight)
    ensures |m1| == 64 && |m2| == 64
    ensures IsCollision(keccak, m1, m2)
  {
    if goesRight {
      m1, m2 := PairCollision(keccak, s, a, t, b);
    } else {
      m1, m2 := PairCollision(keccak, a, s, b, t);
    }
  }

  /** Two paths with the same direction bits that start from different leaves
      or carry different siblings, yet reach the same top digest, expose a
      collision. */
  lemma {:induction false} PathsDetermined(keccak: Hasher, a: Digest, p: seq<Digest>,
                                           b: Digest, q: seq<Digest>, indices: seq<bool>)
    returns (m1: Bytes, m2: Bytes)
    requires |p| == |indices| && |q| == |indices|
    requires a != b || p != q
    requires Fold(keccak, a, p, indices) == Fold(keccak, b, q, indices)
    ensures |m1| == 64 && |m2| == 64
    ensures IsCollision(keccak, m1, m2)
    decreases |indices|
  {
    if |indices| == 0 {
      assert false;
    } else {
      var a' := Step(keccak, a, p[0], indices[0]);
      var b' := Step(keccak, b, q[0], indices[0]);
      if a' == b' && (a != b || p[0] != q[0]) {
        m1, m2 := StepCollision(keccak, a, p[0], b, q[0], indices[0]);
      } else {
        assert p == [p[0]] + p[1..] && q == [q[0]] + q[1..];
        m1, m2 := PathsDetermined(keccak, a', p[1..], b', q[1..], indices[1..]);
      }
    }
  }

  /** The same path cannot prove two different leaves against one root
      without a collision. */
  lemma TamperedLeafRejected(keccak: Hasher, leaf: Digest, forged: Digest, root: Digest,
                             proof: seq<Digest>, indices: seq<bool>)
    returns (m1: Bytes, m2: Bytes)
    requires forged != leaf
    requires Verify(keccak, leaf, root, proof, indices)
    requires Verify(keccak, forged, root, proof, indices)
    ensures |m1| == 64 && |m2| == 64
    ensures IsCollision(keccak, m1, m2)
  {
    m1, m2 := PathsDetermined(keccak, leaf, proof, forged, proof, indices);
  }

  /** For a given leaf, root and direction bits, at most one sibling list
      verifies unless the hash collides. */
  lemma TamperedSiblingsRejected(keccak: Hasher, leaf: Digest, root: Digest,
                                 proof: seq<Digest>, forged: seq<Digest>, indices: seq<bool>)
    returns (m1: Bytes, m2: Bytes)
    requires forged != proof
    requires Verify(keccak, leaf, root, proof, indices)
    requires Verify(keccak, leaf, root, forged, indices)
    ensures |m1| == 64 && |m2| == 64
    ensures IsCollision(keccak, m1, m2)
  {
    m1, m2 := PathsDetermined(keccak, leaf, proof, leaf, forged, indices);
  }

  /** A path verifies against at most one root; no collision-freeness needed. */
  lemma TamperedRootRejected(keccak: Hasher, leaf: Digest, root: Digest, forged: Digest,
                             proof: seq<Digest>, indices: seq<bool>)
    requires forged != root
    requires Verify(keccak, leaf, root, proof, indices)
    ensures !Verify(keccak, leaf, forged, proof, indices)
  {
  }

  /** The test's wrong proof: leaf `l1` offered with itself as sibling against
      the root of `(l1, l2)`. Accepting it would need a collision. */
  lemma WrongSiblingRejected(keccak: Hasher, l1: Digest, l2: Digest)
    returns (m1: Bytes, m2: Bytes)
    requires l1 != l2
    requires Verify(keccak, l1, HashPair(keccak, l1, l2), [l1], [false])
    ensures |m1| == 64 && |m2| == 64
    ensures IsCollision(keccak, m1, m2)
  {
    assert Fold(keccak, l1, [l1], [false]) == Fold(keccak, HashPair(keccak, l1, l1), [], []);
    m1, m2 := PairCollision(keccak, l1, l1, l1, l2);
  }

  /** The running digest after the first `j` levels of a path. */
  function Prefix(keccak: Hasher, leaf: Digest, proof: seq<Digest>, indices: seq<bool>, j: nat): Digest
    requires |proof| == |indices| && j <= |proof|
  {
    Fold(keccak, leaf, proof[..j], indices[..j])
  }

  /** Splits a path at level `j`: the whole fold is the rest of the path
      folded onto level `j`'s parent. */
  lemma SplitAt(keccak: Hasher, leaf: Digest, proof: seq<Digest>, indices: seq<bool>, j: nat)
    requires |proof| == |indices| && j < |proof|
    ensures Fold(keccak, leaf, proof, indices)
         == Fold(keccak, Step(keccak, Prefix(keccak, leaf, proof, indices, j), proof[j], indices[j]),
                 proof[j + 1..], indices[j + 1..])
  {
    assert proof == proof[..j] + proof[j..];
    assert indices == indices[..j] + indices[j..];
    FoldAppend(keccak, leaf, proof[..j], indices[..j], proof[j..], indices[j..]);
    assert proof[j..][1..] == proof[j + 1..];
    assert indices[j..][1..] == indices[j + 1..];
  }

  /** Flipping direction bit `j` of an accepted path, when the running digest
      at that level differs from the sibling, is rejected unless the hash
      collides. */
  lemma FlippedDirectionRejected(keccak: Hasher, leaf: Digest, root: Digest,
                                 proof: seq<Digest>, indices: seq<bool>, j: nat)
    returns (m1: Bytes, m2: Bytes)
    requires |proof| == |indices| && j < |indices|
    requires Prefix(keccak, leaf, proof, indices, j) != proof[j]
    requires Verify(keccak, leaf, root, proof, indices)
    requires Verify(keccak, leaf, root, proof, indices[j := !indices[j]])
    ensures |m1| == 64 && |m2| == 64
    ensures IsCollision(keccak, m1, m2)
  {
    var flipped := indices[j := !indices[j]];
    var x := Prefix(keccak, leaf, proof, indices, j);
    assert flipped[..j] == indices[..j];
    assert flipped[j + 1..] == indices[j + 1..];
    SplitAt(keccak, leaf, proof, indices, j);
    SplitAt(keccak, leaf, proof, flipped, j);
    var kept := Step(keccak, x, proof[j], indices[j]);
    var other := Step(keccak, x, proof[j], !indices[j]);
    if kept == other {
      m1, m2 := PairCollision(keccak, x, proof[j], proof[j], x);
    } else {
      m1, m2 := PathsDetermined(keccak, kept, proof[j + 1..], other, proof[j + 1..], indices[j + 1..]);
    }
  }

  /** The exception to the previous lemma is real: when the running digest at
      level `j` equals the sibling, both orders hash the same 64 bytes, so
      flipping bit `j` keeps the verdict whatever the hash. */
  lemma FlipAtEqualSiblingHarmless(keccak: Hasher, leaf: Digest, root: Digest,
                                   proof: seq<Digest>, indices: seq<bool>, j: nat)
    requires |proof| == |indices| && j < |indices|
    requires Prefix(keccak, leaf, proof, indices, j) == proof[j]
    ensures Verify(keccak, leaf, root, proof, indices[j := !indices[j]])
        == Verify(keccak, leaf, root, proof, indices)
  {
    var flipped := indices[j := !indices[j]];
    assert flipped[..j] == indices[..j];
    assert flipped[j + 1..] == indices[j + 1..];
    SplitAt(keccak, leaf, proof, indices, j);
    SplitAt(keccak, leaf, proof, flipped, j);
  }
}
