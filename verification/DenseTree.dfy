/** The first relayer's `ServerMerkleTree`: only the leaf list is kept, and the root and every
    path are recomputed level by level over all 2^depth padded leaves. */
module DenseTree {
  import opened Merkle

  /** level lists the nodes of level d, and beyond it the level holds only zero hashes. */
  ghost predicate IsLevel(h: Hash2, leaves: seq<nat>, d: nat, level: seq<nat>) {
    && (forall i :: 0 <= i < |level| ==> level[i] == Node(h, leaves, d, i))
    && forall i: nat :: |level| <= i ==> Node(h, leaves, d, i) == Zero(h, d)
  }

  /** Hashing a level pair by pair, with the zero hash for a missing last partner, gives the
      next level. */
  lemma PairsAreLevel(h: Hash2, leaves: seq<nat>, d: nat, level: seq<nat>, next: seq<nat>)
    requires IsLevel(h, leaves, d, level) && |next| == (|level| + 1) / 2
    requires forall j :: 0 <= j < |next| ==>
      next[j] == h(level[2 * j], if 2 * j + 1 < |level| then level[2 * j + 1] else Zero(h, d))
    ensures IsLevel(h, leaves, d + 1, next)
  {
    var e := d + 1;
    forall j: nat
      ensures Node(h, leaves, e, j) == if j < |next| then next[j] else Zero(h, e)
    {
      assert Node(h, leaves, d, 2 * j) == if 2 * j < |level| then level[2 * j] else Zero(h, d);
      assert Node(h, leaves, d, 2 * j + 1) == if 2 * j + 1 < |level| then level[2 * j + 1] else Zero(h, d);
    }
  }

  class DenseMerkleTree {
    const h: Hash2
    const depth: nat
    var leaves: seq<nat>
    const zeros: seq<nat>

    ghost predicate Valid() {
      |zeros| == depth + 1 && forall l :: 0 <= l <= depth ==> zeros[l] == Zero(h, l)
    }

    constructor (h: Hash2, depth: nat)
      ensures Valid() && this.h == h && this.depth == depth && leaves == []
    {
      this.h := h;
      this.depth := depth;
      leaves := [];
      var z := [0];
      for i := 1 to depth + 1
        invariant |z| == i
        invariant forall l :: 0 <= l < i ==> z[l] == Zero(h, l)
      {
        z := z + [h(z[i - 1], z[i - 1])];
      }
      zeros := z;
    }

    /** The full padded bottom level. */
    method BottomLevel() returns (level: seq<nat>)
      requires |leaves| <= Pow2(depth)
      ensures |level| == Pow2(depth) && IsLevel(h, leaves, 0, level)
    {
      level := leaves;
      var size := Pow2(depth);
      while |level| < size
        invariant |leaves| <= |level| <= size
        invariant forall i :: 0 <= i < |level| ==> level[i] == Leaf(leaves, i)
      {
        level := level + [0];
      }
    }

    /** Hashes the pairs of one level. */
    method NextLevel(level: seq<nat>, ghost d: nat, ghost half: nat) returns (next: seq<nat>)
      requires |level| == 2 * half && IsLevel(h, leaves, d, level)
      ensures |next| == half && IsLevel(h, leaves, d + 1, next)
    {
      next := [];
      var i := 0;
      while i < |level|
        invariant i == 2 * |next| && |next| <= half
        invariant forall j :: 0 <= j < |next| ==> next[j] == h(level[2 * j], level[2 * j + 1])
      {
        next := next + [h(level[i], level[i + 1])];
        i := i + 2;
      }
      PairsAreLevel(h, leaves, d, level, next);
    }

    method GetRoot() returns (root: nat)
      requires Valid() && |leaves| <= Pow2(depth)
      ensures root == Root(h, depth, leaves)
    {
      if |leaves| == 0 {
        EmptyNode(h, depth, 0);
        return zeros[depth];
      }
      var level := BottomLevel();
      for d := 0 to depth
        invariant |level| == Pow2(depth - d) && IsLevel(h, leaves, d, level)
      {
        level := NextLevel(level, d, Pow2(depth - d - 1));
      }
      root := level[0];
    }

    /** No bounds check: past the capacity the answer is still the zero-padded one. */
    method GetMerklePath(index: nat) returns (pathElements: seq<nat>, pathIndices: seq<nat>)
      requires Valid() && |leaves| <= Pow2(depth)
      ensures pathElements == Path(h, leaves, depth, index) && pathIndices == PathBits(depth, index)
      ensures index < Pow2(depth) ==>
        Opens(h, depth, leaves, index, pathElements, pathIndices) && BitsValue(pathIndices) == index
    {
      pathElements, pathIndices := [], [];
      var currentIndex := index;
      var level := BottomLevel();
      for d := 0 to depth
        invariant currentIndex == Up(index, d)
        invariant |level| == Pow2(depth - d) && IsLevel(h, leaves, d, level)
        invariant pathElements == Path(h, leaves, d, index) && pathIndices == PathBits(d, index)
      {
        var siblingIndex := Sibling(currentIndex);
        pathElements := pathElements + [if siblingIndex < |level| then level[siblingIndex] else zeros[d]];
        pathIndices := pathIndices + [currentIndex % 2];
        level := NextLevel(level, d, Pow2(depth - d - 1));
        currentIndex := currentIndex / 2;
      }
      PathAndBits(h, depth, leaves, index);
    }

    method Insert(commitment: nat) returns (index: nat)
      modifies this
      ensures index == |old(leaves)| && leaves == old(leaves) + [commitment]
    {
      index := |leaves|;
      leaves := leaves + [commitment];
    }

    method InsertAt(index: nat, commitment: nat)
      modifies this
      ensures leaves == Put(old(leaves), index, commitment)
    {
      while |leaves| <= index
        invariant leaves == Pad(old(leaves), |leaves|)
        invariant |old(leaves)| <= |leaves| && (|leaves| <= |old(leaves)| || |leaves| <= index + 1)
        decreases index + 1 - |leaves|
      {
        leaves := leaves + [0];
      }
      leaves := leaves[index := commitment];
    }
  }
}
