/** Binary Merkle trees built from leaf digests, the authentication path of
    each leaf, and the round trips the unit tests check by hand. */
module MerkleTree {
  import opened Digests
  import opened Merkle

  datatype Tree = Leaf(digest: Digest) | Node(left: Tree, right: Tree)

  /** The root digest: each internal node hashes its left child's digest
      followed by its right child's. */
  function Root(keccak: Hasher, t: Tree): Digest {
    match t
    case Leaf(d) => d
    case Node(l, r) => HashPair(keccak, Root(keccak, l), Root(keccak, r))
  }

  /** `pos` lists the turns from the root down to a leaf, `true` for right. */
  predicate Reaches(t: Tree, pos: seq<bool>) {
    match t
    case Leaf(_) => pos == []
    case Node(l, r) => |pos| > 0 && Reaches(if pos[0] then r else l, pos[1..])
  }

  function LeafAt(t: Tree, pos: seq<bool>): Digest
    requires Reaches(t, pos)
  {
    match t
    case Leaf(d) => d
    case Node(l, r) => LeafAt(if pos[0] then r else l, pos[1..])
  }

  /** The direction bits of the path to `pos`, nearest the leaf first: the
      turns read from the bottom up. */
  function Directions(pos: seq<bool>): (d: seq<bool>)
    ensures |d| == |pos|
    ensures forall i :: 0 <= i < |pos| ==> d[i] == pos[|pos| - 1 - i]
  {
    if |pos| == 0 then [] else Directions(pos[1..]) + [pos[0]]
  }

  /** The sibling digests along the path to `pos`, nearest the leaf first:
      at each turn, the root of the subtree not taken. */
  function Siblings(keccak: Hasher, t: Tree, pos: seq<bool>): (s: seq<Digest>)
    requires Reaches(t, pos)
    ensures |s| == |pos|
  {
    match t
    case Leaf(_) => []
    case Node(l, r) =>
      if pos[0] then Siblings(keccak, r, pos[1..]) + [Root(keccak, l)]
      else Siblings(keccak, l, pos[1..]) + [Root(keccak, r)]
  }

  /** Every leaf of every tree verifies against the tree's root with its own
      authentication path. */
  lemma {:induction false} Completeness(keccak: Hasher, t: Tree, pos: seq<bool>)
    requires Reaches(t, pos)
    ensures Verify(keccak, LeafAt(t, pos), Root(keccak, t), Siblings(keccak, t, pos), Directions(pos))
  {
    match t
    case Leaf(_) =>
    case Node(l, r) =>
      var sub, other := if pos[0] then r else l, if pos[0] then l else r;
      Completeness(keccak, sub, pos[1..]);
      FoldSnoc(keccak, LeafAt(t, pos), Siblings(keccak, sub, pos[1..]), Directions(pos[1..]),
               Root(keccak, other), pos[0]);
  }

  /** Two leaves under one root: each verifies with the other as its only
      sibling, the left one with bit `false` and the right one with `true`. */
  lemma OneLevelRoundTrip(keccak: Hasher, l1: Digest, l2: Digest)
    ensures Verify(keccak, l1, HashPair(keccak, l1, l2), [l2], [false])
    ensures Verify(keccak, l2, HashPair(keccak, l1, l2), [l1], [true])
  {
  }

  /** Four leaves: the leftmost verifies with `[h2, n2]` going left twice and
      the rightmost with `[h3, n1]` going right twice. */
  lemma FourLeafRoundTrip(keccak: Hasher, h1: Digest, h2: Digest, h3: Digest, h4: Digest)
    ensures var n1 := HashPair(keccak, h1, h2);
            var n2 := HashPair(keccak, h3, h4);
            var root := HashPair(keccak, n1, n2);
            && Verify(keccak, h1, root, [h2, n2], [false, false])
            && Verify(keccak, h4, root, [h3, n1], [true, true])
  {
    var t := Node(Node(Leaf(h1), Leaf(h2)), Node(Leaf(h3), Leaf(h4)));
    assert [false, false][1..] == [false] && [true, true][1..] == [true];
    assert Siblings(keccak, t, [false, false]) == [h2] + [Root(keccak, t.right)];
    assert Siblings(keccak, t, [true, true]) == [h3] + [Root(keccak, t.left)];
    assert Directions([false, false]) == [false, false];
    assert Directions([true, true]) == [true, true];
    assert [false][1..] == [] && [true][1..] == [];
    assert LeafAt(t, [false, false]) == LeafAt(t.left, [false]) == h1;
    assert LeafAt(t, [true, true]) == LeafAt(t.right, [true]) == h4;
    Completeness(keccak, t, [false, false]);
    Completeness(keccak, t, [true, true]);
  }
}
