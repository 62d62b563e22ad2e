/** Laws of the trees that span several operations: the chained witness of a batch, the
    irrelevance of the order of writes, and the size of the sparse map. */
module TreeLaws {
  import opened Results
  import opened Merkle
  import opened Sets
  import opened SparseTree
  import opened DenseTree

  // ----- the batch witness -----

  /** What a batch settlement proof is about: path i folds a zero leaf at index start + i to
      the root before step i and commitment i to the root after it, from oldRoot to newRoot. */
  ghost predicate ChainedWitness(h: Hash2, depth: nat, oldRoot: nat, newRoot: nat, start: nat,
                                 cs: seq<nat>, paths: seq<seq<nat>>)
    decreases |cs|
  {
    && |paths| == |cs|
    && if cs == [] then newRoot == oldRoot
       else
         var i := |cs| - 1;
         && |paths[i]| == depth
         && Fold(h, start + i, cs[i], paths[i], depth) == newRoot
         && ChainedWitness(h, depth, oldRoot, Fold(h, start + i, 0, paths[i], depth), start, cs[..i], paths[..i])
  }

  /** Appending a leaf writes the next free index, which held a zero. */
  lemma AppendOne(h: Hash2, depth: nat, a: seq<nat>, c: nat)
    requires |a| < Pow2(depth)
    ensures Fold(h, |a|, 0, Path(h, a, depth, |a|), depth) == Root(h, depth, a)
    ensures Fold(h, |a|, c, Path(h, a, depth, |a|), depth) == Root(h, depth, a + [c])
  {
    assert Leaf(a, |a|) == 0;
    assert Put(a, |a|, c) == a + [c];
    PathFoldsToRoot(h, a, depth, |a|, c);
  }

  lemma ExtendWitness(h: Hash2, depth: nat, oldRoot: nat, mid: nat, newRoot: nat, start: nat,
                      cs: seq<nat>, paths: seq<seq<nat>>, c: nat, p: seq<nat>)
    requires ChainedWitness(h, depth, oldRoot, mid, start, cs, paths) && |p| == depth
    requires Fold(h, start + |cs|, 0, p, depth) == mid && Fold(h, start + |cs|, c, p, depth) == newRoot
    ensures ChainedWitness(h, depth, oldRoot, newRoot, start, cs + [c], paths + [p])
  {
    assert (cs + [c])[..|cs|] == cs && (paths + [p])[..|cs|] == paths;
  }

  /** Both roots of one more step of a batch, along the true path. */
  lemma NextRoots(h: Hash2, depth: nat, base: seq<nat>, front: seq<nat>, c: nat, p: seq<nat>)
    requires |base| + |front| < Pow2(depth) && p == Path(h, base + front, depth, |base| + |front|)
    ensures Fold(h, |base| + |front|, 0, p, depth) == Root(h, depth, base + front)
    ensures Fold(h, |base| + |front|, c, p, depth) == Root(h, depth, base + (front + [c]))
  {
    AppendOne(h, depth, base + front, c);
    assert (base + front) + [c] == base + (front + [c]);
  }

  lemma NextPath(h: Hash2, depth: nat, base: seq<nat>, front: seq<nat>, c: nat)
    ensures BatchPaths(h, depth, base, front + [c])
         == BatchPaths(h, depth, base, front) + [Path(h, base + front, depth, |base| + |front|)]
  {
    assert (front + [c])[..|front|] == front;
  }

  /** A witness for a batch, extended by the true path of one more leaf. */
  lemma AppendToWitness(h: Hash2, depth: nat, base: seq<nat>, front: seq<nat>, c: nat, paths: seq<seq<nat>>,
                        p: seq<nat>)
    requires |base| + |front| < Pow2(depth) && p == Path(h, base + front, depth, |base| + |front|)
    requires ChainedWitness(h, depth, Root(h, depth, base), Root(h, depth, base + front), |base|, front, paths)
    ensures ChainedWitness(h, depth, Root(h, depth, base), Root(h, depth, base + (front + [c])), |base|,
                           front + [c], paths + [p])
  {
    NextRoots(h, depth, base, front, c, p);
    ExtendWitness(h, depth, Root(h, depth, base), Root(h, depth, base + front), Root(h, depth, base + (front + [c])),
                  |base|, front, paths, c, p);
  }

  /** The paths that simulateBatchInsert collects are such a witness. */
  lemma {:induction false} BatchPathsAreWitness(h: Hash2, depth: nat, base: seq<nat>, cs: seq<nat>)
    requires |base| + |cs| <= Pow2(depth)
    ensures ChainedWitness(h, depth, Root(h, depth, base), Root(h, depth, base + cs), |base|, cs,
                           BatchPaths(h, depth, base, cs))
    decreases |cs|
  {
    if cs == [] {
      assert base + cs == base;
    } else {
      var front, c := cs[..|cs| - 1], cs[|cs| - 1];
      assert cs == front + [c];
      BatchPathsAreWitness(h, depth, base, front);
      NextPath(h, depth, base, front, c);
      AppendToWitness(h, depth, base, front, c, BatchPaths(h, depth, base, front),
                      Path(h, base + front, depth, |base| + |front|));
    }
  }

  /** Some path of the witness opens the root before its step in a way that collides with the
      true path there. */
  ghost predicate WitnessCollides(h: Hash2, depth: nat, base: seq<nat>, cs: seq<nat>, paths: seq<seq<nat>>) {
    exists i: nat :: i < |cs| && StepCollides(h, depth, base, cs, paths, i)
  }

  ghost predicate StepCollides(h: Hash2, depth: nat, base: seq<nat>, cs: seq<nat>, paths: seq<seq<nat>>, i: nat)
    requires i < |cs|
  {
    var k := |base| + i;
    i < |paths| && FoldsCollide(h, k, 0, paths[i], 0, Path(h, base + cs[..i], depth, k), depth)
  }

  lemma {:induction false} BatchPathAt(h: Hash2, depth: nat, base: seq<nat>, cs: seq<nat>, i: nat)
    requires i < |cs|
    ensures BatchPaths(h, depth, base, cs)[i] == Path(h, base + cs[..i], depth, |base| + i)
    decreases |cs|
  {
    if i < |cs| - 1 {
      BatchPathAt(h, depth, base, cs[..|cs| - 1], i);
      assert cs[..|cs| - 1][..i] == cs[..i];
    }
  }

  /** The true paths collide with nothing. */
  lemma TruePathsDoNotCollide(h: Hash2, depth: nat, base: seq<nat>, cs: seq<nat>)
    ensures !WitnessCollides(h, depth, base, cs, BatchPaths(h, depth, base, cs))
  {
    forall i: nat | i < |cs| ensures !StepCollides(h, depth, base, cs, BatchPaths(h, depth, base, cs), i) {
      BatchPathAt(h, depth, base, cs, i);
    }
  }

  lemma FrontDoesNotCollide(h: Hash2, depth: nat, base: seq<nat>, front: seq<nat>, c: nat,
                            paths: seq<seq<nat>>, p: seq<nat>)
    requires |paths| == |front| && !WitnessCollides(h, depth, base, front + [c], paths + [p])
    ensures !WitnessCollides(h, depth, base, front, paths)
    ensures !FoldsCollide(h, |base| + |front|, 0, p, 0, Path(h, base + front, depth, |base| + |front|), depth)
  {
    var cs := front + [c];
    forall i: nat | i < |front| ensures !StepCollides(h, depth, base, front, paths, i) {
      assert cs[..i] == front[..i];
      assert !StepCollides(h, depth, base, cs, paths + [p], i);
    }
    assert cs[..|front|] == front;
    assert !StepCollides(h, depth, base, cs, paths + [p], |front|);
  }

  /** A path that opens the next free index of the true tree to zero, without colliding with the
      true path there, is the true path. */
  lemma OpeningIsTrue(h: Hash2, depth: nat, a: seq<nat>, p: seq<nat>)
    requires |a| < Pow2(depth) && |p| == depth
    requires Fold(h, |a|, 0, p, depth) == Root(h, depth, a)
    requires !FoldsCollide(h, |a|, 0, p, 0, Path(h, a, depth, |a|), depth)
    ensures p == Path(h, a, depth, |a|)
  {
    assert Leaf(a, |a|) == 0;
    PathBinding(h, depth, a, |a|, 0, p);
  }

  lemma LastStep(h: Hash2, depth: nat, oldRoot: nat, newRoot: nat, start: nat, front: seq<nat>, c: nat,
                 paths: seq<seq<nat>>, p: seq<nat>)
    requires ChainedWitness(h, depth, oldRoot, newRoot, start, front + [c], paths + [p])
    ensures |paths| == |front| && |p| == depth && Fold(h, start + |front|, c, p, depth) == newRoot
    ensures ChainedWitness(h, depth, oldRoot, Fold(h, start + |front|, 0, p, depth), start, front, paths)
  {
    assert (front + [c])[..|front|] == front && |paths| == |front| && (paths + [p])[..|paths|] == paths;
  }

  /** Without a collision between its paths and the true ones, a witness from the true root has
      the true paths and proves the true new root. */
  lemma {:induction false} WitnessIsTrue(h: Hash2, depth: nat, newRoot: nat, base: seq<nat>, cs: seq<nat>,
                                         paths: seq<seq<nat>>)
    requires |base| + |cs| <= Pow2(depth)
    requires ChainedWitness(h, depth, Root(h, depth, base), newRoot, |base|, cs, paths)
    requires !WitnessCollides(h, depth, base, cs, paths)
    ensures newRoot == Root(h, depth, base + cs) && paths == BatchPaths(h, depth, base, cs)
    decreases |cs|, 0
  {
    if cs == [] {
      assert base + cs == base;
    } else {
      var i := |cs| - 1;
      assert cs == cs[..i] + [cs[i]] && paths == paths[..i] + [paths[i]];
      WitnessIsTrueStep(h, depth, newRoot, base, cs[..i], cs[i], paths[..i], paths[i]);
    }
  }

  lemma {:induction false} WitnessIsTrueStep(h: Hash2, depth: nat, newRoot: nat, base: seq<nat>, front: seq<nat>,
                                             c: nat, paths: seq<seq<nat>>, p: seq<nat>)
    requires |base| + |front| < Pow2(depth)
    requires ChainedWitness(h, depth, Root(h, depth, base), newRoot, |base|, front + [c], paths + [p])
    requires !WitnessCollides(h, depth, base, front + [c], paths + [p])
    ensures newRoot == Root(h, depth, base + (front + [c]))
    ensures paths + [p] == BatchPaths(h, depth, base, front + [c])
    decreases |front|, 1
  {
    LastStep(h, depth, Root(h, depth, base), newRoot, |base|, front, c, paths, p);
    FrontDoesNotCollide(h, depth, base, front, c, paths, p);
    WitnessIsTrue(h, depth, Fold(h, |base| + |front|, 0, p, depth), base, front, paths);
    OpeningIsTrue(h, depth, base + front, p);
    NextRoots(h, depth, base, front, c, p);
    NextPath(h, depth, base, front, c);
  }

  /** A witness from the true root has the true paths exactly when none of its paths collides
      with the true one at its step, and then it proves the true new root and no other. */
  lemma WitnessBindsNewRoot(h: Hash2, depth: nat, newRoot: nat, base: seq<nat>, cs: seq<nat>, paths: seq<seq<nat>>)
    requires |base| + |cs| <= Pow2(depth)
    requires ChainedWitness(h, depth, Root(h, depth, base), newRoot, |base|, cs, paths)
    ensures paths == BatchPaths(h, depth, base, cs) <==> !WitnessCollides(h, depth, base, cs, paths)
    ensures newRoot == Root(h, depth, base + cs) || WitnessCollides(h, depth, base, cs, paths)
  {
    TruePathsDoNotCollide(h, depth, base, cs);
    if !WitnessCollides(h, depth, base, cs, paths) {
      WitnessIsTrue(h, depth, newRoot, base, cs, paths);
    }
  }

  // ----- order of writes -----

  /** The leaf list after a run of insertAt calls. */
  function PutAll(a: seq<nat>, ops: seq<(nat, nat)>): seq<nat>
    decreases |ops|
  {
    if ops == [] then a else Put(PutAll(a, ops[..|ops| - 1]), ops[|ops| - 1].0, ops[|ops| - 1].1)
  }

  predicate DistinctIndices(ops: seq<(nat, nat)>) {
    forall i, j :: 0 <= i < j < |ops| ==> ops[i].0 != ops[j].0
  }

  /** What a run of writes at distinct indices leaves behind, in terms of its members only. */
  lemma {:induction false} PutAllMembers(a: seq<nat>, ops: seq<(nat, nat)>)
    requires DistinctIndices(ops)
    ensures forall op <- ops :: op.0 < |PutAll(a, ops)| && Leaf(PutAll(a, ops), op.0) == op.1
    ensures forall k: nat :: (forall op <- ops :: op.0 != k) ==> Leaf(PutAll(a, ops), k) == Leaf(a, k)
    ensures |a| <= |PutAll(a, ops)|
    ensures |PutAll(a, ops)| == |a| || exists op <- ops :: op.0 + 1 == |PutAll(a, ops)|
    decreases |ops|
  {
    if ops != [] {
      var front, last := ops[..|ops| - 1], ops[|ops| - 1];
      PutAllMembers(a, front);
      assert ops == front + [last];
      forall op | op in front ensures op in ops && op.0 != last.0 {}
      assert last in ops;
    }
  }

  /** Writes at distinct indices commute: any permutation of them ends with the same leaf list
      and the very same node map. */
  lemma WritesCommute(h: Hash2, depth: nat, a: seq<nat>, ops: seq<(nat, nat)>, ops': seq<(nat, nat)>,
                      m: NodeMap, m': NodeMap)
    requires multiset(ops) == multiset(ops') && DistinctIndices(ops) && DistinctIndices(ops')
    requires Represents(h, depth, m, PutAll(a, ops)) && Represents(h, depth, m', PutAll(a, ops'))
    ensures PutAll(a, ops) == PutAll(a, ops') && m == m'
  {
    var x, y := PutAll(a, ops), PutAll(a, ops');
    PutAllMembers(a, ops);
    PutAllMembers(a, ops');
    forall op: (nat, nat) ensures op in ops <==> op in ops' {
      assert op in ops <==> op in multiset(ops);
      assert op in ops' <==> op in multiset(ops');
    }
    forall k: nat ensures Leaf(x, k) == Leaf(y, k) {
      if op :| op in ops && op.0 == k {
        assert Leaf(x, k) == op.1 == Leaf(y, k);
      }
    }
    assert |x| == |y|;
    forall k | 0 <= k < |x| ensures x[k] == y[k] {
      assert Leaf(x, k) == Leaf(y, k);
    }
    NodesDeterminedByLeaves(h, depth, m, m', x, y);
  }

  /** All writes lie inside a tree of this depth. */
  predicate InRange(depth: nat, ops: seq<(nat, nat)>) {
    forall op <- ops :: op.0 < Pow2(depth)
  }

  /** A run of insertAt calls. */
  method InsertEntries(tree: ServerMerkleTree, ops: seq<(nat, nat)>)
    requires tree.Valid() && InRange(tree.depth, ops)
    modifies tree
    ensures tree.Valid() && tree.leaves == PutAll(old(tree.leaves), ops)
    ensures |old(tree.leaves)| <= Pow2(tree.depth) ==> |tree.leaves| <= Pow2(tree.depth)
  {
    for i := 0 to |ops|
      invariant tree.Valid() && tree.leaves == PutAll(old(tree.leaves), ops[..i])
      invariant |old(tree.leaves)| <= Pow2(tree.depth) ==> |tree.leaves| <= Pow2(tree.depth)
    {
      assert ops[i] in ops && ops[..i + 1][..i] == ops[..i];
      var _ := tree.InsertAt(ops[i].0, ops[i].1);
    }
    assert ops[..|ops|] == ops;
  }

  /** The same run on a dense tree. */
  method InsertEntriesDense(tree: DenseMerkleTree, ops: seq<(nat, nat)>)
    modifies tree
    ensures tree.leaves == PutAll(old(tree.leaves), ops)
  {
    for i := 0 to |ops|
      invariant tree.leaves == PutAll(old(tree.leaves), ops[..i])
    {
      assert ops[..i + 1][..i] == ops[..i];
      tree.InsertAt(ops[i].0, ops[i].1);
    }
    assert ops[..|ops|] == ops;
  }

  /** Two trees that start alike end with the same leaves and the very same node map, in whatever
      order the writes at distinct indices reach them. */
  method InsertInAnyOrder(tree: ServerMerkleTree, other: ServerMerkleTree, ops: seq<(nat, nat)>, ops': seq<(nat, nat)>)
    requires tree != other && tree.Valid() && other.Valid() && tree.h == other.h && tree.depth == other.depth
    requires tree.leaves == other.leaves
    requires multiset(ops) == multiset(ops') && DistinctIndices(ops) && DistinctIndices(ops')
    requires InRange(tree.depth, ops) && InRange(tree.depth, ops')
    modifies tree, other
    ensures tree.leaves == other.leaves && tree.nodes == other.nodes
  {
    ghost var a := tree.leaves;
    InsertEntries(tree, ops);
    InsertEntries(other, ops');
    WritesCommute(tree.h, tree.depth, a, ops, ops', tree.nodes, other.nodes);
  }

  /** The sparse tree refines the dense one: after the same writes, in any order, with gaps and
      overwrites, both answer with the same root and the same path at every index. */
  method SparseRefinesDense(sparse: ServerMerkleTree, dense: DenseMerkleTree, ops: seq<(nat, nat)>, index: nat)
      returns (sparseRoot: nat, denseRoot: nat, sparsePath: Result<(seq<nat>, seq<nat>)>, densePath: (seq<nat>, seq<nat>))
    requires sparse.Valid() && dense.Valid() && sparse.h == dense.h && sparse.depth == dense.depth
    requires sparse.leaves == dense.leaves && |dense.leaves| <= Pow2(dense.depth)
    requires InRange(sparse.depth, ops)
    modifies sparse, dense
    ensures sparse.leaves == dense.leaves == PutAll(old(dense.leaves), ops)
    ensures sparseRoot == denseRoot == Root(sparse.h, sparse.depth, sparse.leaves)
    ensures index < Pow2(sparse.depth) ==> sparsePath == Ok(densePath)
  {
    InsertEntries(sparse, ops);
    InsertEntriesDense(dense, ops);
    sparseRoot := sparse.GetRoot();
    denseRoot := dense.GetRoot();
    sparsePath := sparse.GetMerklePath(index);
    var elements, indices := dense.GetMerklePath(index);
    densePath := (elements, indices);
  }

  // ----- size of the map -----

  function NonZeroCount(leaves: seq<nat>): nat
    decreases |leaves|
  {
    if leaves == [] then 0
    else NonZeroCount(leaves[..|leaves| - 1]) + if leaves[|leaves| - 1] != 0 then 1 else 0
  }

  function Branch(k: nat, n: nat): (s: set<Key>)
    ensures |s| <= n
    ensures forall l :: 0 <= l < n ==> (l, Up(k, l)) in s
  {
    if n == 0 then {} else Branch(k, n - 1) + {(n - 1, Up(k, n - 1))}
  }

  /** The nodes on some branch of a non-zero leaf. */
  function Branches(leaves: seq<nat>, n: nat): set<Key>
    decreases |leaves|
  {
    if leaves == [] then {}
    else
      var k := |leaves| - 1;
      Branches(leaves[..k], n) + if leaves[k] != 0 then Branch(k, n) else {}
  }

  lemma {:induction false} BranchesCard(leaves: seq<nat>, n: nat)
    ensures |Branches(leaves, n)| <= NonZeroCount(leaves) * n
    decreases |leaves|
  {
    if leaves != [] {
      var front := leaves[..|leaves| - 1];
      BranchesCard(front, n);
      assert (NonZeroCount(front) + 1) * n == NonZeroCount(front) * n + n;
    }
  }

  lemma {:induction false} BranchesCover(leaves: seq<nat>, n: nat, k: nat, l: nat)
    requires Leaf(leaves, k) != 0 && l < n
    ensures (l, Up(k, l)) in Branches(leaves, n)
    decreases |leaves|
  {
    if k < |leaves| - 1 { BranchesCover(leaves[..|leaves| - 1], n, k, l); }
  }

  /** The map stays sparse: at most depth + 1 nodes for each non-zero leaf. */
  lemma MapIsSparse(h: Hash2, depth: nat, nodes: NodeMap, leaves: seq<nat>)
    requires Represents(h, depth, nodes, leaves)
    ensures |nodes| <= NonZeroCount(leaves) * (depth + 1)
  {
    forall key | key in nodes ensures key in Branches(leaves, depth + 1) {
      assert nodes[key] == Get(h, nodes, key.0, key.1);
      if forall j: nat :: Up(j, key.0) == key.1 ==> Leaf(leaves, j) == 0 {
        ZeroNode(h, leaves, key.0, key.1);
        assert false;
      }
      var j: nat :| Up(j, key.0) == key.1 && Leaf(leaves, j) != 0;
      BranchesCover(leaves, depth + 1, j, key.0);
    }
    BranchesCard(leaves, depth + 1);
    SubsetCard(nodes.Keys, Branches(leaves, depth + 1));
    assert |nodes| == |nodes.Keys|;
  }
}
