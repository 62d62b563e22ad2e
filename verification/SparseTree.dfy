/** The relayer's `ServerMerkleTree`: a leaf list and a map holding only the nodes that differ
    from the zero hash of their level, updated one branch at a time. */
module SparseTree {
  import opened Results
  import opened Merkle

  type Key = (nat, nat)
  type NodeMap = map<Key, nat>

  predicate InTree(depth: nat, l: nat, i: nat) {
    l <= depth && i < Pow2(depth - l)
  }

  function Get(h: Hash2, nodes: NodeMap, l: nat, i: nat): nat {
    if (l, i) in nodes then nodes[(l, i)] else Zero(h, l)
  }

  function Set(h: Hash2, nodes: NodeMap, l: nat, i: nat, v: nat): NodeMap {
    if v == Zero(h, l) then nodes - {(l, i)} else nodes[(l, i) := v]
  }

  /** Only nodes inside the tree are stored, and none that equals its level's zero hash. */
  ghost predicate Canonical(h: Hash2, depth: nat, nodes: NodeMap) {
    forall key <- nodes :: InTree(depth, key.0, key.1) && nodes[key] != Zero(h, key.0)
  }

  /** The node map answers every lookup like the full tree over `leaves`. */
  ghost predicate Represents(h: Hash2, depth: nat, nodes: NodeMap, leaves: seq<nat>) {
    && Canonical(h, depth, nodes)
    && forall l: nat, i: nat {:trigger Get(h, nodes, l, i)} ::
         InTree(depth, l, i) ==> Get(h, nodes, l, i) == Node(h, leaves, l, i)
  }

  /** Half-way through an update: levels below d are those of b, the others those of a. */
  ghost predicate Between(h: Hash2, depth: nat, nodes: NodeMap, a: seq<nat>, b: seq<nat>, d: nat) {
    && Canonical(h, depth, nodes)
    && forall l: nat, i: nat {:trigger Get(h, nodes, l, i)} ::
         InTree(depth, l, i) ==> Get(h, nodes, l, i) == Node(h, if l < d then b else a, l, i)
  }

  lemma SiblingInTree(depth: nat, d: nat, i: nat)
    requires d < depth && InTree(depth, d, i)
    ensures InTree(depth, d, Sibling(i)) && InTree(depth, d + 1, i / 2)
  {
    assert Pow2(depth - d) == 2 * Pow2(depth - d - 1);
  }

  /** Storing the branch node of level d completes that level, and the next branch node is the
      join of the stored sibling pair. */
  lemma LevelDone(h: Hash2, depth: nat, nodes: NodeMap, nodes': NodeMap, a: seq<nat>, k: nat, c: nat, d: nat)
    requires d <= depth && k < Pow2(depth)
    requires Between(h, depth, nodes, a, Put(a, k, c), d)
    requires nodes' == Set(h, nodes, d, Up(k, d), Node(h, Put(a, k, c), d, Up(k, d)))
    ensures Between(h, depth, nodes', a, Put(a, k, c), d + 1)
    ensures d < depth ==>
      Node(h, Put(a, k, c), d + 1, Up(k, d + 1))
        == Join(h, Up(k, d), Node(h, Put(a, k, c), d, Up(k, d)), Get(h, nodes', d, Sibling(Up(k, d))))
  {
    var b, u := Put(a, k, c), Up(k, d);
    UpBound(k, d, depth);
    forall l: nat, i: nat | InTree(depth, l, i)
      ensures Get(h, nodes', l, i) == Node(h, if l < d + 1 then b else a, l, i)
    {
      if (l, i) != (d, u) {
        assert Get(h, nodes', l, i) == Get(h, nodes, l, i);
        if l == d { OffBranch(h, a, k, c, d, i); }
      }
    }
    if d < depth {
      SiblingInTree(depth, d, u);
      BranchStep(h, b, k, d);
    }
  }

  /** Two maps for the same padded leaves are the same map: whatever order the leaves were
      written in, and whether the map was grown or rebuilt. */
  lemma NodesDeterminedByLeaves(h: Hash2, depth: nat, m: NodeMap, n: NodeMap, a: seq<nat>, b: seq<nat>)
    requires Represents(h, depth, m, a) && Represents(h, depth, n, b)
    requires forall k: nat :: k < Pow2(depth) ==> Leaf(a, k) == Leaf(b, k)
    ensures m == n
  {
    forall l: nat, i: nat | InTree(depth, l, i)
      ensures Get(h, m, l, i) == Get(h, n, l, i)
    {
      forall j: nat | Up(j, l) == i ensures Leaf(a, j) == Leaf(b, j) {
        DownBound(j, l, depth);
      }
      NodeAgree(h, a, b, l, i);
    }
    forall key: Key ensures key in m <==> key in n {
      assert key in m ==> InTree(depth, key.0, key.1) && Get(h, m, key.0, key.1) == Get(h, n, key.0, key.1);
      assert key in n ==> InTree(depth, key.0, key.1) && Get(h, m, key.0, key.1) == Get(h, n, key.0, key.1);
    }
    forall key: Key | key in m ensures m[key] == n[key] {
      assert Get(h, m, key.0, key.1) == Get(h, n, key.0, key.1);
    }
  }

  /** Half-way through a rebuild over `leaves`: level d holds its first i nodes, the levels
      below are complete and everything else is still absent. */
  ghost predicate Rebuilt(h: Hash2, depth: nat, nodes: NodeMap, leaves: seq<nat>, d: nat, i: nat) {
    && Canonical(h, depth, nodes)
    && forall l: nat, j: nat {:trigger Get(h, nodes, l, j)} :: InTree(depth, l, j) ==>
         if l < d || (l == d && j < i) then Get(h, nodes, l, j) == Node(h, leaves, l, j)
         else (l, j) !in nodes
  }

  lemma RebuiltNext(h: Hash2, depth: nat, nodes: NodeMap, leaves: seq<nat>, d: nat, i: nat)
    requires InTree(depth, d, i)
    requires Rebuilt(h, depth, nodes, leaves, d, i)
    ensures Rebuilt(h, depth, Set(h, nodes, d, i, Node(h, leaves, d, i)), leaves, d, i + 1)
  {
    var v := Node(h, leaves, d, i);
    var nodes' := Set(h, nodes, d, i, v);
    forall l: nat, j: nat | InTree(depth, l, j)
      ensures if l < d || (l == d && j < i + 1) then Get(h, nodes', l, j) == Node(h, leaves, l, j)
              else (l, j) !in nodes'
    {
      if (l, j) != (d, i) { assert Get(h, nodes', l, j) == Get(h, nodes, l, j); }
    }
  }

  /** Skipping a node whose stored value would be the zero hash changes nothing. */
  lemma RebuiltSkip(h: Hash2, depth: nat, nodes: NodeMap, leaves: seq<nat>, d: nat, i: nat)
    requires InTree(depth, d, i) && Node(h, leaves, d, i) == Zero(h, d)
    requires Rebuilt(h, depth, nodes, leaves, d, i)
    ensures Rebuilt(h, depth, nodes, leaves, d, i + 1)
  {
    forall l: nat, j: nat | InTree(depth, l, j)
      ensures if l < d || (l == d && j < i + 1) then Get(h, nodes, l, j) == Node(h, leaves, l, j)
              else (l, j) !in nodes
    {
      assert Get(h, nodes, l, j) == if (l, j) in nodes then nodes[(l, j)] else Zero(h, l);
    }
  }

  /** A level is complete once its remaining nodes are zero hashes. */
  lemma RebuiltLevel(h: Hash2, depth: nat, nodes: NodeMap, leaves: seq<nat>, d: nat, i: nat)
    requires Rebuilt(h, depth, nodes, leaves, d, i)
    requires forall j: nat :: InTree(depth, d, j) && j >= i ==> Node(h, leaves, d, j) == Zero(h, d)
    ensures Rebuilt(h, depth, nodes, leaves, d + 1, 0)
  {
    forall l: nat, j: nat | InTree(depth, l, j)
      ensures if l < d + 1 then Get(h, nodes, l, j) == Node(h, leaves, l, j) else (l, j) !in nodes
    {
      assert Get(h, nodes, l, j) == if (l, j) in nodes then nodes[(l, j)] else Zero(h, l);
    }
  }

  /** One step of the rebuild at level d + 1, whether the pair below is skipped or hashed. */
  lemma RebuiltPair(h: Hash2, depth: nat, nodes: NodeMap, nodes': NodeMap, leaves: seq<nat>, d: nat, i: nat)
    requires d < depth && i < Pow2(depth - d - 1)
    requires Rebuilt(h, depth, nodes, leaves, d + 1, i)
    requires nodes' ==
      if (d, 2 * i) !in nodes && (d, 2 * i + 1) !in nodes then nodes
      else Set(h, nodes, d + 1, i, h(Get(h, nodes, d, 2 * i), Get(h, nodes, d, 2 * i + 1)))
    ensures Rebuilt(h, depth, nodes', leaves, d + 1, i + 1)
  {
    assert Pow2(depth - d) == 2 * Pow2(depth - d - 1);
    assert Get(h, nodes, d, 2 * i) == Node(h, leaves, d, 2 * i);
    assert Get(h, nodes, d, 2 * i + 1) == Node(h, leaves, d, 2 * i + 1);
    if (d, 2 * i) !in nodes && (d, 2 * i + 1) !in nodes {
      RebuiltSkip(h, depth, nodes, leaves, d + 1, i);
    } else {
      RebuiltNext(h, depth, nodes, leaves, d + 1, i);
    }
  }

  lemma RepresentsSame(h: Hash2, depth: nat, nodes: NodeMap, a: seq<nat>, b: seq<nat>)
    requires Represents(h, depth, nodes, a) && SameLeaves(a, b)
    ensures Represents(h, depth, nodes, b)
  {
    forall l: nat, i: nat | InTree(depth, l, i) ensures Get(h, nodes, l, i) == Node(h, b, l, i) {
      SameLeavesSameNode(h, a, b, l, i);
    }
  }

  /** The path of each leaf of a batch, looked up just before the leaf is inserted. */
  function BatchPaths(h: Hash2, depth: nat, base: seq<nat>, cs: seq<nat>): (p: seq<seq<nat>>)
    ensures |p| == |cs|
  {
    if cs == [] then []
    else
      var front := cs[..|cs| - 1];
      BatchPaths(h, depth, base, front) + [Path(h, base + front, depth, |base| + |front|)]
  }

  /** Number of leaves of a batch that fit after `base` in a tree of this depth. */
  function Room(depth: nat, base: seq<nat>, cs: seq<nat>): nat {
    if |base| + |cs| <= Pow2(depth) then |cs|
    else if |base| < Pow2(depth) then Pow2(depth) - |base|
    else 0
  }

  /** The first i leaves of a batch are in, and their paths are collected. */
  ghost predicate InBatch(h: Hash2, depth: nat, base: seq<nat>, cs: seq<nat>, i: nat, leaves: seq<nat>,
                          paths: seq<seq<nat>>)
  {
    && i <= |cs| && leaves == base + cs[..i] && (i > 0 ==> |leaves| <= Pow2(depth))
    && paths == BatchPaths(h, depth, base, cs[..i])
  }

  lemma BatchNext(h: Hash2, depth: nat, base: seq<nat>, cs: seq<nat>, i: nat, leaves: seq<nat>, paths: seq<seq<nat>>)
    requires InBatch(h, depth, base, cs, i, leaves, paths) && i < |cs| && |leaves| < Pow2(depth)
    ensures InBatch(h, depth, base, cs, i + 1, leaves + [cs[i]], paths + [Path(h, leaves, depth, |leaves|)])
  {
    assert cs[..i + 1] == cs[..i] + [cs[i]] && cs[..i + 1][..i] == cs[..i];
  }

  /** A batch stops where the tree is full. */
  lemma BatchFull(h: Hash2, depth: nat, base: seq<nat>, cs: seq<nat>, i: nat, leaves: seq<nat>, paths: seq<seq<nat>>)
    requires InBatch(h, depth, base, cs, i, leaves, paths) && i < |cs| && |leaves| >= Pow2(depth)
    ensures Room(depth, base, cs) == i && |base| + |cs| > Pow2(depth)
  {}

  lemma BatchDone(h: Hash2, depth: nat, base: seq<nat>, cs: seq<nat>, leaves: seq<nat>, paths: seq<seq<nat>>)
    requires InBatch(h, depth, base, cs, |cs|, leaves, paths)
    ensures leaves == base + cs && paths == BatchPaths(h, depth, base, cs)
    ensures cs == [] || |base| + |cs| <= Pow2(depth)
  {
    assert cs[..|cs|] == cs;
  }

  class ServerMerkleTree {
    const h: Hash2
    const depth: nat
    var leaves: seq<nat>
    const zeros: seq<nat>
    var nodes: NodeMap

    ghost predicate ZerosOk() {
      |zeros| == depth + 1 && forall l :: 0 <= l <= depth ==> zeros[l] == Zero(h, l)
    }

    ghost predicate Valid()
      reads this
    {
      ZerosOk() && Represents(h, depth, nodes, leaves)
    }

    constructor (h: Hash2, depth: nat)
      ensures Valid() && this.h == h && this.depth == depth
      ensures leaves == [] && nodes == map[]
    {
      this.h := h;
      this.depth := depth;
      leaves := [];
      nodes := map[];
      var z := [0];
      for i := 1 to depth + 1
        invariant |z| == i
        invariant forall l :: 0 <= l < i ==> z[l] == Zero(h, l)
      {
        z := z + [h(z[i - 1], z[i - 1])];
      }
      zeros := z;
      new;
      forall l: nat, i: nat | InTree(depth, l, i) ensures Get(h, nodes, l, i) == Node(h, leaves, l, i) {
        EmptyNode(h, l, i);
      }
    }

    function GetNode(level: nat, index: nat): nat
      requires level < |zeros|
      reads this
    {
      if (level, index) in nodes then nodes[(level, index)] else zeros[level]
    }

    method SetNode(level: nat, index: nat, value: nat)
      requires ZerosOk() && level <= depth
      modifies this`nodes
      ensures nodes == Set(h, old(nodes), level, index, value)
      ensures Canonical(h, depth, old(nodes)) && InTree(depth, level, index) ==> Canonical(h, depth, nodes)
    {
      if value == zeros[level] {
        nodes := nodes - {(level, index)};
      } else {
        nodes := nodes[(level, index) := value];
      }
    }

    method GetRoot() returns (root: nat)
      requires Valid()
      ensures root == Root(h, depth, leaves)
    {
      root := GetNode(depth, 0);
      assert InTree(depth, depth, 0);
      assert root == Get(h, nodes, depth, 0);
    }

    /** Rewrites the branch of leaf k after the leaf list has changed there. */
    method UpdatePath(k: nat, c: nat, ghost a: seq<nat>)
      requires ZerosOk() && k < Pow2(depth)
      requires Represents(h, depth, nodes, a)
      modifies this`nodes
      ensures Represents(h, depth, nodes, Put(a, k, c))
    {
      ghost var b := Put(a, k, c);
      var currentHash := c;
      var currentIndex := k;
      for d := 0 to depth
        invariant currentIndex == Up(k, d)
        invariant currentHash == Node(h, b, d, currentIndex)
        invariant Between(h, depth, nodes, a, b, d)
      {
        ghost var before := nodes;
        SetNode(d, currentIndex, currentHash);
        LevelDone(h, depth, before, nodes, a, k, c, d);
        var siblingIndex := Sibling(currentIndex);
        var siblingHash := GetNode(d, siblingIndex);
        if currentIndex % 2 == 1 {
          currentHash := h(siblingHash, currentHash);
        } else {
          currentHash := h(currentHash, siblingHash);
        }
        currentIndex := currentIndex / 2;
      }
      UpBound(k, depth, depth);
      ghost var before := nodes;
      SetNode(depth, 0, currentHash);
      LevelDone(h, depth, before, nodes, a, k, c, depth);
    }

    method GetMerklePath(index: int) returns (r: Result<(seq<nat>, seq<nat>)>)
      requires Valid()
      ensures r.Ok? <==> 0 <= index < Pow2(depth)
      ensures r.Ok? ==> r.value == (Path(h, leaves, depth, index), PathBits(depth, index))
      ensures r.Ok? ==> Opens(h, depth, leaves, index, r.value.0, r.value.1) && BitsValue(r.value.1) == index
    {
      if index < 0 || index >= Pow2(depth) {
        return Err;
      }
      var pathElements, pathIndices := [], [];
      var currentIndex: nat := index;
      for d := 0 to depth
        invariant currentIndex == Up(index, d)
        invariant pathElements == Path(h, leaves, d, index)
        invariant pathIndices == PathBits(d, index)
      {
        UpBound(index, d, depth);
        SiblingInTree(depth, d, currentIndex);
        var siblingIndex := Sibling(currentIndex);
        var e := GetNode(d, siblingIndex);
        assert e == Get(h, nodes, d, siblingIndex);
        pathElements := pathElements + [e];
        pathIndices := pathIndices + [currentIndex % 2];
        currentIndex := currentIndex / 2;
      }
      PathAndBits(h, depth, leaves, index);
      r := Ok((pathElements, pathIndices));
    }

    /** Appends a leaf. The source does not check the capacity; its callers must. */
    method Insert(commitment: nat) returns (index: nat)
      requires Valid() && |leaves| < Pow2(depth)
      modifies this
      ensures Valid()
      ensures index == |old(leaves)| && leaves == old(leaves) + [commitment]
    {
      index := |leaves|;
      ghost var a := leaves;
      leaves := leaves + [commitment];
      assert leaves == Put(a, index, commitment);
      UpdatePath(index, commitment, a);
    }

    /** The padding loop shared by InsertAt and SimulateBatchInsert. */
    method PadTo(n: nat)
      modifies this`leaves
      ensures leaves == Pad(old(leaves), n)
    {
      while |leaves| < n
        invariant leaves == Pad(old(leaves), |leaves|)
        invariant |old(leaves)| <= |leaves| && (|leaves| <= |old(leaves)| || |leaves| <= n)
        decreases n - |leaves|
      {
        leaves := leaves + [0];
      }
    }

    method InsertAt(index: int, commitment: nat) returns (ok: bool)
      requires Valid()
      modifies this
      ensures Valid()
      ensures ok <==> 0 <= index < Pow2(depth)
      ensures ok ==> leaves == Put(old(leaves), index, commitment)
      ensures !ok ==> leaves == old(leaves) && nodes == old(nodes)
    {
      var maxIndex := Pow2(depth) - 1;
      if index < 0 || index > maxIndex {
        return false;
      }
      ghost var a := leaves;
      PadTo(index + 1);
      leaves := leaves[index := commitment];
      assert leaves == Put(a, index, commitment);
      UpdatePath(index, commitment, a);
      ok := true;
    }

    /** Hashes pair i of level d into level d + 1, if one of the two is stored. */
    method RebuildNode(d: nat, i: nat)
      requires ZerosOk() && d < depth && i < Pow2(depth - d - 1)
      requires Rebuilt(h, depth, nodes, leaves, d + 1, i)
      modifies this`nodes
      ensures Rebuilt(h, depth, nodes, leaves, d + 1, i + 1)
    {
      ghost var before := nodes;
      if (d, 2 * i) in nodes || (d, 2 * i + 1) in nodes {
        var left := GetNode(d, 2 * i);
        var right := GetNode(d, 2 * i + 1);
        var parent := h(left, right);
        SetNode(d + 1, i, parent);
      }
      RebuiltPair(h, depth, before, nodes, leaves, d, i);
    }

    /** Hashes the stored pairs of level d into level d + 1. */
    method RebuildLevel(d: nat)
      requires ZerosOk() && d < depth
      requires Rebuilt(h, depth, nodes, leaves, d + 1, 0)
      modifies this`nodes
      ensures Rebuilt(h, depth, nodes, leaves, d + 2, 0)
    {
      var nodeCount := Pow2(depth - d - 1);
      for i := 0 to nodeCount
        invariant Rebuilt(h, depth, nodes, leaves, d + 1, i)
      {
        RebuildNode(d, i);
      }
      RebuiltLevel(h, depth, nodes, leaves, d + 1, nodeCount);
    }

    /** Replaces all leaves and rebuilds the map, visiting only pairs with a stored child. */
    method SetLeaves(ls: seq<nat>)
      requires Valid() && |ls| <= Pow2(depth)
      modifies this
      ensures Valid() && leaves == ls
    {
      leaves := ls;
      nodes := map[];
      for i := 0 to |ls|
        invariant leaves == ls
        invariant Rebuilt(h, depth, nodes, ls, 0, i)
      {
        if ls[i] != 0 {
          RebuiltNext(h, depth, nodes, ls, 0, i);
          SetNode(0, i, ls[i]);
        } else {
          RebuiltSkip(h, depth, nodes, ls, 0, i);
        }
      }
      RebuiltLevel(h, depth, nodes, ls, 0, |ls|);
      for d := 0 to depth
        invariant leaves == ls
        invariant Rebuilt(h, depth, nodes, ls, d + 1, 0)
      {
        RebuildLevel(d);
      }
    }

    /** Looks up the path of the next free index, then inserts there; throws at the capacity. */
    method InsertNext(commitment: nat) returns (r: Result<seq<nat>>)
      requires Valid()
      modifies this
      ensures Valid()
      ensures r.Ok? <==> |old(leaves)| < Pow2(depth)
      ensures r.Ok? ==> r.value == Path(h, old(leaves), depth, |old(leaves)|)
      ensures leaves == if r.Ok? then old(leaves) + [commitment] else old(leaves)
    {
      var index := |leaves|;
      var path := GetMerklePath(index);
      if path.Err? {
        return Err;
      }
      var _ := Insert(commitment);
      r := Ok(path.value.0);
    }

    /** Inserts a batch leaf by leaf, looking up each path first; stops at the capacity. */
    method InsertBatch(commitments: seq<nat>) returns (r: Result<seq<seq<nat>>>)
      requires Valid()
      modifies this
      ensures Valid()
      ensures r.Ok? <==> commitments == [] || |old(leaves)| + |commitments| <= Pow2(depth)
      ensures r.Ok? ==> r.value == BatchPaths(h, depth, old(leaves), commitments)
      ensures r.Ok? ==> leaves == old(leaves) + commitments
      ensures r.Err? ==> leaves == old(leaves) + commitments[..Room(depth, old(leaves), commitments)]
    {
      ghost var base := leaves;
      var paths := [];
      assert base + commitments[..0] == base;
      for i := 0 to |commitments|
        invariant Valid() && InBatch(h, depth, base, commitments, i, leaves, paths)
      {
        ghost var before := leaves;
        var path := InsertNext(commitments[i]);
        if path.Err? {
          BatchFull(h, depth, base, commitments, i, leaves, paths);
          return Err;
        }
        BatchNext(h, depth, base, commitments, i, before, paths);
        paths := paths + [path.value];
      }
      BatchDone(h, depth, base, commitments, leaves, paths);
      r := Ok(paths);
    }

    /** Inserts a batch, collects the paths and the new root, and puts leaves and nodes back.
        A batch that does not fit makes the path lookup throw, and then nothing is put back: the
        padding and the leaves that fitted stay, unless the tree was full and needed no padding. */
    method SimulateBatchInsert(commitments: seq<nat>, startIndex: nat)
        returns (r: Result<(seq<seq<nat>>, nat)>)
      requires Valid()
      modifies this
      ensures Valid()
      ensures r.Ok? <==> commitments == [] || |Pad(old(leaves), startIndex)| + |commitments| <= Pow2(depth)
      ensures r.Ok? ==> leaves == old(leaves) && nodes == old(nodes)
      ensures r.Ok? ==>
        var base := Pad(old(leaves), startIndex);
        r.value == (BatchPaths(h, depth, base, commitments), Root(h, depth, base + commitments))
      ensures r.Err? ==>
        var base := Pad(old(leaves), startIndex);
        leaves == base + commitments[..Room(depth, base, commitments)]
      ensures r.Err? ==>
        (leaves == old(leaves) <==> startIndex <= |old(leaves)| && Pow2(depth) <= |old(leaves)|)
      ensures leaves == old(leaves) ==> nodes == old(nodes)
    {
      var savedLeaves := leaves;
      var savedNodes := nodes;
      PadTo(startIndex);
      RepresentsSame(h, depth, nodes, savedLeaves, leaves);
      var paths := InsertBatch(commitments);
      if paths.Err? {
        if leaves == savedLeaves {
          NodesDeterminedByLeaves(h, depth, nodes, savedNodes, leaves, savedLeaves);
        }
        return Err;
      }
      var newRoot := GetRoot();
      leaves := savedLeaves;
      nodes := savedNodes;
      r := Ok((paths.value, newRoot));
    }
  }
}
