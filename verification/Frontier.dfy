/** Two short cuts to a path: the settlement script's ragged levels, which keep only the part of
    each level that the leaves reach, and the frontier of filled subtrees that the script and the
    app read from the chain. */
module Frontier {
  import opened Merkle
  import DenseTree
  import opened TreeLaws

  ghost predicate ZerosOk(h: Hash2, depth: nat, zeros: seq<nat>) {
    depth <= |zeros| && forall d :: 0 <= d < depth ==> zeros[d] == Zero(h, d)
  }

  // ----- ragged levels -----

  /** Ragged levels give the path of the fully padded tree, for any leaves and any index. */
  method ComputeInsertPath(h: Hash2, depth: nat, leaves: seq<nat>, index: nat, zeros: seq<nat>)
      returns (pathElements: seq<nat>)
    requires depth <= |zeros|
    ensures |pathElements| == depth
    ensures ZerosOk(h, depth, zeros) ==> pathElements == Path(h, leaves, depth, index)
  {
    ghost var ok := ZerosOk(h, depth, zeros);
    var level := leaves;
    var idx := index;
    pathElements := [];
    for d := 0 to depth
      invariant idx == Up(index, d) && |pathElements| == d
      invariant ok ==> DenseTree.IsLevel(h, leaves, d, level)
      invariant ok ==> pathElements == Path(h, leaves, d, index)
    {
      var siblingIndex := Sibling(idx);
      pathElements := pathElements + [if siblingIndex < |level| then level[siblingIndex] else zeros[d]];
      var nextLevel := [];
      var i := 0;
      while i < |level|
        invariant i % 2 == 0 && i <= |level| + 1 && |nextLevel| == i / 2
        invariant forall j :: 0 <= j < |nextLevel| ==>
          nextLevel[j] == h(level[2 * j], if 2 * j + 1 < |level| then level[2 * j + 1] else zeros[d])
      {
        var left := level[i];
        var right := if i + 1 < |level| then level[i + 1] else zeros[d];
        nextLevel := nextLevel + [h(left, right)];
        i := i + 2;
      }
      if ok { DenseTree.PairsAreLevel(h, leaves, d, level, nextLevel); }
      level := nextLevel;
      idx := idx / 2;
    }
  }

  // ----- the frontier of filled subtrees -----

  /** At each level the filled subtree if the node is a right child, the zero hash if not. */
  function FrontierPath(zeros: seq<nat>, filled: seq<nat>, depth: nat, k: nat): (p: seq<nat>)
    requires depth <= |zeros| && depth <= |filled|
    ensures |p| == depth
    decreases depth
  {
    if depth == 0 then []
    else
      var top := if Up(k, depth - 1) % 2 == 1 then filled[depth - 1] else zeros[depth - 1];
      FrontierPath(zeros, filled, depth - 1, k) + [top]
  }

  /** The script's fallback path. */
  method FallbackPath(depth: nat, startIndex: nat, zeros: seq<nat>, filledSubtrees: seq<nat>)
      returns (fallbackPath: seq<nat>)
    requires depth <= |zeros| && depth <= |filledSubtrees|
    ensures fallbackPath == FrontierPath(zeros, filledSubtrees, depth, startIndex)
  {
    fallbackPath := [];
    var shifted := startIndex;
    for i := 0 to depth
      invariant shifted == Up(startIndex, i)
      invariant fallbackPath == FrontierPath(zeros, filledSubtrees, i, startIndex)
    {
      var isRightChild := shifted % 2 == 1;
      fallbackPath := fallbackPath + [if isRightChild then filledSubtrees[i] else zeros[i]];
      shifted := shifted / 2;
    }
  }

  /** The app's path, with its side bits. */
  method ComputeSolanaMerklePath(depth: nat, zeros: seq<nat>, filledSubtrees: seq<nat>, leafIndex: nat)
      returns (pathElements: seq<nat>, pathIndices: seq<nat>)
    requires depth <= |zeros| && depth <= |filledSubtrees|
    ensures pathElements == FrontierPath(zeros, filledSubtrees, depth, leafIndex)
    ensures pathIndices == PathBits(depth, leafIndex)
    ensures leafIndex < Pow2(depth) ==> BitsValue(pathIndices) == leafIndex && forall b <- pathIndices :: b < 2
    ensures forall h: Hash2, leaves: seq<nat> ::
      (&& leafIndex < Pow2(depth) && ZerosOk(h, depth, zeros) && NoneAfter(depth, leaves, leafIndex)
       && FilledOk(h, depth, leaves, filledSubtrees, leafIndex))
      ==> Opens(h, depth, leaves, leafIndex, pathElements, pathIndices)
  {
    pathElements, pathIndices := [], [];
    var currentIndex := leafIndex;
    for level := 0 to depth
      invariant currentIndex == Up(leafIndex, level)
      invariant pathElements == FrontierPath(zeros, filledSubtrees, level, leafIndex)
      invariant pathIndices == PathBits(level, leafIndex)
    {
      var isRightChild := currentIndex % 2 == 1;
      pathIndices := pathIndices + [if isRightChild then 1 else 0];
      var sibling := if isRightChild then filledSubtrees[level] else zeros[level];
      pathElements := pathElements + [sibling];
      currentIndex := currentIndex / 2;
    }
    if leafIndex < Pow2(depth) { DigitsOfLeaf(depth, leafIndex); }
    forall h: Hash2, leaves: seq<nat> |
        leafIndex < Pow2(depth) && ZerosOk(h, depth, zeros) && FilledOk(h, depth, leaves, filledSubtrees, leafIndex)
        && NoneAfter(depth, leaves, leafIndex)
      ensures Opens(h, depth, leaves, leafIndex, pathElements, pathIndices)
    {
      FrontierIsPath(h, depth, depth, leaves, zeros, filledSubtrees, leafIndex);
      PathOpens(h, depth, leaves, leafIndex);
    }
  }

  /** The script's new root: the commitment folded along a path. */
  method FoldRoot(h: Hash2, depth: nat, startIndex: nat, commitment: nat, pathElements: seq<nat>)
      returns (newRoot: nat)
    requires depth <= |pathElements|
    ensures newRoot == Fold(h, startIndex, commitment, pathElements, depth)
  {
    newRoot := commitment;
    var shifted := startIndex;
    for i := 0 to depth
      invariant shifted == Up(startIndex, i)
      invariant newRoot == Fold(h, startIndex, commitment, pathElements, i)
    {
      var sibling := pathElements[i];
      newRoot := if shifted % 2 == 1 then h(sibling, newRoot) else h(newRoot, sibling);
      shifted := shifted / 2;
    }
  }

  /** Each filled subtree that the index calls for is the left neighbour at its level. */
  ghost predicate FilledOk(h: Hash2, depth: nat, leaves: seq<nat>, filled: seq<nat>, k: nat) {
    && depth <= |filled|
    && forall d :: 0 <= d < depth && Up(k, d) % 2 == 1 ==> filled[d] == Node(h, leaves, d, Up(k, d) - 1)
  }

  ghost predicate NoneAfter(depth: nat, leaves: seq<nat>, k: nat) {
    forall j: nat :: k < j < Pow2(depth) ==> Leaf(leaves, j) == 0
  }

  /** A leaf under the right sibling of k's ancestor comes after k, inside the tree. */
  lemma RightOf(k: nat, j: nat, d: nat, depth: nat)
    requires d < depth && k < Pow2(depth)
    requires Up(k, d) % 2 == 0 && Up(j, d) == Up(k, d) + 1
    ensures k < j < Pow2(depth)
  {
    if j <= k { UpMono(j, k, d); }
    UpBound(k, d, depth);
    assert Pow2(depth - d) == 2 * Pow2(depth - d - 1);
    DownBound(j, d, depth);
  }

  /** With no leaf after k the frontier gives k's true path. */
  lemma {:induction false} FrontierIsPath(h: Hash2, depth: nat, n: nat, leaves: seq<nat>, zeros: seq<nat>,
                                          filled: seq<nat>, k: nat)
    requires n <= depth && k < Pow2(depth)
    requires ZerosOk(h, depth, zeros) && FilledOk(h, depth, leaves, filled, k) && NoneAfter(depth, leaves, k)
    ensures FrontierPath(zeros, filled, n, k) == Path(h, leaves, n, k)
    decreases n
  {
    if n > 0 {
      FrontierIsPath(h, depth, n - 1, leaves, zeros, filled, k);
      var d, i := n - 1, Up(k, n - 1);
      if i % 2 == 0 {
        forall j: nat | Up(j, d) == i + 1 ensures Leaf(leaves, j) == 0 {
          RightOf(k, j, d, depth);
        }
        ZeroNode(h, leaves, d, i + 1);
      }
    }
  }

  /** Branches that end at one root part at one level: below it they are siblings there. */
  lemma {:induction false} Fork(k: nat, j: nat, n: nat) returns (d: nat)
    requires k < j && Up(k, n) == Up(j, n)
    ensures d < n && Up(k, d) % 2 == 0 && Up(j, d) == Up(k, d) + 1
    decreases n
  {
    if Up(k, n - 1) == Up(j, n - 1) {
      d := Fork(k, j, n - 1);
    } else {
      d := n - 1;
      UpMono(k, j, d);
    }
  }

  /** Given true zeros and filled subtrees, the frontier path of k is k's path exactly when no
      leaf after k is set; any other agreement is a collision of the tree with the empty one. */
  lemma FrontierIffLast(h: Hash2, depth: nat, leaves: seq<nat>, zeros: seq<nat>, filled: seq<nat>, k: nat)
    requires k < Pow2(depth)
    requires ZerosOk(h, depth, zeros) && FilledOk(h, depth, leaves, filled, k)
    ensures NoneAfter(depth, leaves, k) ==> FrontierPath(zeros, filled, depth, k) == Path(h, leaves, depth, k)
    ensures FrontierPath(zeros, filled, depth, k) == Path(h, leaves, depth, k)
        ==> NoneAfter(depth, leaves, k) || TreesCollide(h, depth, leaves, [])
  {
    if NoneAfter(depth, leaves, k) {
      FrontierIsPath(h, depth, depth, leaves, zeros, filled, k);
    } else if FrontierPath(zeros, filled, depth, k) == Path(h, leaves, depth, k) {
      var j: nat :| k < j < Pow2(depth) && Leaf(leaves, j) != 0;
      UpBound(k, depth, depth);
      UpBound(j, depth, depth);
      var d := Fork(k, j, depth);
      FrontierAt(zeros, filled, depth, k, d);
      PathIsPath(h, leaves, depth, k);
      EmptyNode(h, d, Up(j, d));
      BranchCollides(h, depth, leaves, [], d, j);
    }
  }

  lemma {:induction false} FrontierAt(zeros: seq<nat>, filled: seq<nat>, depth: nat, k: nat, d: nat)
    requires d < depth <= |zeros| && depth <= |filled|
    ensures FrontierPath(zeros, filled, depth, k)[d] == if Up(k, d) % 2 == 1 then filled[d] else zeros[d]
    decreases depth
  {
    if d < depth - 1 { FrontierAt(zeros, filled, depth - 1, k, d); }
  }

  /** The script's settlement of one commitment, by either path, proposes the root of the tree
      with the commitment at the next free index. */
  lemma SettleOneRoot(h: Hash2, depth: nat, leaves: seq<nat>, commitment: nat, zeros: seq<nat>, filled: seq<nat>)
    requires |leaves| < Pow2(depth)
    requires ZerosOk(h, depth, zeros) && FilledOk(h, depth, leaves, filled, |leaves|)
    ensures FrontierPath(zeros, filled, depth, |leaves|) == Path(h, leaves, depth, |leaves|)
    ensures Fold(h, |leaves|, commitment, FrontierPath(zeros, filled, depth, |leaves|), depth)
         == Root(h, depth, leaves + [commitment])
  {
    FrontierIsPath(h, depth, depth, leaves, zeros, filled, |leaves|);
    assert Put(leaves, |leaves|, commitment) == leaves + [commitment];
    PathFoldsToRoot(h, leaves, depth, |leaves|, commitment);
  }

  /** The script's new root for one commitment: ragged levels when its own leaf list is as long
      as the chain's, the frontier otherwise. */
  method SettleOne(h: Hash2, depth: nat, existingLeaves: seq<nat>, startIndex: nat, commitment: nat,
                   zeros: seq<nat>, filledSubtrees: seq<nat>, ghost settled: seq<nat>) returns (newRoot: nat)
    requires depth <= |zeros| && depth <= |filledSubtrees|
    ensures
      && |settled| == startIndex < Pow2(depth) && ZerosOk(h, depth, zeros)
      && (if |existingLeaves| == startIndex then existingLeaves == settled
          else FilledOk(h, depth, settled, filledSubtrees, startIndex))
      ==> newRoot == Root(h, depth, settled + [commitment])
  {
    var pathElements;
    if |existingLeaves| == startIndex {
      pathElements := ComputeInsertPath(h, depth, existingLeaves, startIndex, zeros);
    } else {
      pathElements := FallbackPath(depth, startIndex, zeros, filledSubtrees);
    }
    newRoot := FoldRoot(h, depth, startIndex, commitment, pathElements);
    if |settled| == startIndex < Pow2(depth) && ZerosOk(h, depth, zeros) {
      AppendOne(h, depth, settled, commitment);
      if |existingLeaves| != startIndex && FilledOk(h, depth, settled, filledSubtrees, startIndex) {
        SettleOneRoot(h, depth, settled, commitment, zeros, filledSubtrees);
      }
    }
  }
}
