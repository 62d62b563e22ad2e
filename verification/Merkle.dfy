/** The value every tree of the repository computes: the nodes of a binary hash tree over a
    list of leaves padded on the right with zero leaves. The two-argument hash is a parameter,
    so nothing here depends on Poseidon, and the depth is a parameter as well. */
module Merkle {

  type Hash2 = (nat, nat) -> nat

  function Pow2(n: nat): (p: nat)
    ensures p >= 1
  {
    if n == 0 then 1 else 2 * Pow2(n - 1)
  }

  /** Hash of an all-zero subtree of height d. */
  function Zero(h: Hash2, d: nat): nat {
    if d == 0 then 0 else h(Zero(h, d - 1), Zero(h, d - 1))
  }

  /** Leaf i of the padded list. */
  function Leaf(leaves: seq<nat>, i: nat): nat {
    if i < |leaves| then leaves[i] else 0
  }

  /** Node i of level d, leaves being level 0. */
  function Node(h: Hash2, leaves: seq<nat>, d: nat, i: nat): nat
    decreases d
  {
    if d == 0 then Leaf(leaves, i)
    else h(Node(h, leaves, d - 1, 2 * i), Node(h, leaves, d - 1, 2 * i + 1))
  }

  function Root(h: Hash2, depth: nat, leaves: seq<nat>): nat {
    Node(h, leaves, depth, 0)
  }

  /** Index of the level-d ancestor of leaf k: k shifted right d times. */
  function Up(k: nat, d: nat): nat {
    if d == 0 then k else Up(k, d - 1) / 2
  }

  /** i with its lowest bit flipped. */
  function Sibling(i: nat): nat {
    if i % 2 == 0 then i + 1 else i - 1
  }

  /** Hash of the node at index i holding x and of its sibling s, in tree order. */
  function Join(h: Hash2, i: nat, x: nat, s: nat): nat {
    if i % 2 == 1 then h(s, x) else h(x, s)
  }

  /** The first d elements of path are the siblings of leaf k's ancestors, from the leaf up. */
  ghost predicate IsPath(h: Hash2, a: seq<nat>, k: nat, path: seq<nat>, d: nat) {
    d <= |path| && forall e :: 0 <= e < d ==> path[e] == Node(h, a, e, Sibling(Up(k, e)))
  }

  /** The authentication path of leaf k: its sibling at every level below the root. */
  function Path(h: Hash2, leaves: seq<nat>, depth: nat, k: nat): (p: seq<nat>)
    ensures |p| == depth
    decreases depth
  {
    if depth == 0 then []
    else Path(h, leaves, depth - 1, k) + [Node(h, leaves, depth - 1, Sibling(Up(k, depth - 1)))]
  }

  /** The bits that say on which side the path's nodes lie. */
  function PathBits(depth: nat, k: nat): (p: seq<nat>)
    ensures |p| == depth
    decreases depth
  {
    if depth == 0 then [] else PathBits(depth - 1, k) + [Up(k, depth - 1) % 2]
  }

  /** Value v at leaf k hashed upwards through the first d elements of a path. */
  function Fold(h: Hash2, k: nat, v: nat, path: seq<nat>, d: nat): nat
    requires d <= |path|
    decreases d
  {
    if d == 0 then v else Join(h, Up(k, d - 1), Fold(h, k, v, path, d - 1), path[d - 1])
  }

  /** Value v hashed upwards with the path's nodes, each on the side that its bit names: a one
      means that the node lies on the left. */
  function FoldBits(h: Hash2, v: nat, path: seq<nat>, bits: seq<nat>, d: nat): nat
    requires d <= |path| && d <= |bits|
    decreases d
  {
    if d == 0 then v
    else
      var x := FoldBits(h, v, path, bits, d - 1);
      if bits[d - 1] == 1 then h(path[d - 1], x) else h(x, path[d - 1])
  }

  /** The number with these binary digits, lowest first. */
  function BitsValue(bits: seq<nat>): nat {
    if bits == [] then 0 else BitsValue(bits[..|bits| - 1]) + bits[|bits| - 1] * Pow2(|bits| - 1)
  }

  /** A list padded with zeros up to length n. */
  function Pad(s: seq<nat>, n: nat): (r: seq<nat>)
    ensures |r| == if |s| < n then n else |s|
    ensures forall i: nat :: Leaf(r, i) == Leaf(s, i)
  {
    if |s| < n then s + seq(n - |s|, _ => 0) else s
  }

  /** The leaf list after writing c at index i. */
  function Put(s: seq<nat>, i: nat, c: nat): (r: seq<nat>)
    ensures |r| == if |s| <= i then i + 1 else |s|
    ensures forall j: nat :: Leaf(r, j) == if j == i then c else Leaf(s, j)
  {
    Pad(s, i + 1)[i := c]
  }

  ghost predicate SameLeaves(a: seq<nat>, b: seq<nat>) {
    forall i: nat :: Leaf(a, i) == Leaf(b, i)
  }

  // ----- ancestors -----

  lemma {:induction false} UpBound(k: nat, d: nat, depth: nat)
    requires d <= depth && k < Pow2(depth)
    ensures Up(k, d) < Pow2(depth - d)
  {
    if d > 0 { UpBound(k, d - 1, depth); }
  }

  lemma {:induction false} UpMono(j: nat, k: nat, d: nat)
    requires j <= k
    ensures Up(j, d) <= Up(k, d)
  {
    if d > 0 { UpMono(j, k, d - 1); }
  }

  /** Leaves below a node of the tree are leaves of the tree. */
  lemma {:induction false} DownBound(j: nat, d: nat, depth: nat)
    requires d <= depth && Up(j, d) < Pow2(depth - d)
    ensures j < Pow2(depth)
    decreases d
  {
    if d > 0 {
      assert Pow2(depth - (d - 1)) == 2 * Pow2(depth - d);
      DownBound(j, d - 1, depth);
    }
  }

  // ----- which leaves a node depends on -----

  /** A node depends only on the leaves below it. */
  lemma {:induction false} NodeAgree(h: Hash2, a: seq<nat>, b: seq<nat>, d: nat, i: nat)
    requires forall j: nat :: Up(j, d) == i ==> Leaf(a, j) == Leaf(b, j)
    ensures Node(h, a, d, i) == Node(h, b, d, i)
    decreases d
  {
    if d == 0 {
      assert Up(i, 0) == i;
    } else {
      forall j: nat | Up(j, d - 1) == 2 * i || Up(j, d - 1) == 2 * i + 1
        ensures Leaf(a, j) == Leaf(b, j)
      {
        assert Up(j, d) == i;
      }
      NodeAgree(h, a, b, d - 1, 2 * i);
      NodeAgree(h, a, b, d - 1, 2 * i + 1);
    }
  }

  lemma {:induction false} EmptyNode(h: Hash2, d: nat, i: nat)
    ensures Node(h, [], d, i) == Zero(h, d)
  {
    if d > 0 {
      EmptyNode(h, d - 1, 2 * i);
      EmptyNode(h, d - 1, 2 * i + 1);
    }
  }

  /** A subtree with only zero leaves hashes to the zero of its level. */
  lemma ZeroNode(h: Hash2, a: seq<nat>, d: nat, i: nat)
    requires forall j: nat :: Up(j, d) == i ==> Leaf(a, j) == 0
    ensures Node(h, a, d, i) == Zero(h, d)
  {
    NodeAgree(h, a, [], d, i);
    EmptyNode(h, d, i);
  }

  /** Padding does not change any node. */
  lemma SameLeavesSameNode(h: Hash2, a: seq<nat>, b: seq<nat>, d: nat, i: nat)
    requires SameLeaves(a, b)
    ensures Node(h, a, d, i) == Node(h, b, d, i)
  {
    NodeAgree(h, a, b, d, i);
  }

  /** The root depends only on the first 2^depth padded leaves. */
  lemma RootAgree(h: Hash2, depth: nat, a: seq<nat>, b: seq<nat>)
    requires forall k: nat :: k < Pow2(depth) ==> Leaf(a, k) == Leaf(b, k)
    ensures Root(h, depth, a) == Root(h, depth, b)
  {
    forall j: nat | Up(j, depth) == 0 ensures Leaf(a, j) == Leaf(b, j) {
      DownBound(j, depth, depth);
    }
    NodeAgree(h, a, b, depth, 0);
  }

  /** Writing leaf k changes no node off its branch. */
  lemma OffBranch(h: Hash2, a: seq<nat>, k: nat, c: nat, d: nat, i: nat)
    requires i != Up(k, d)
    ensures Node(h, Put(a, k, c), d, i) == Node(h, a, d, i)
  {
    NodeAgree(h, Put(a, k, c), a, d, i);
  }

  /** A node of leaf k's branch is its child on the branch joined with the child's sibling. */
  lemma BranchStep(h: Hash2, a: seq<nat>, k: nat, d: nat)
    ensures Node(h, a, d + 1, Up(k, d + 1))
         == Join(h, Up(k, d), Node(h, a, d, Up(k, d)), Node(h, a, d, Sibling(Up(k, d))))
  {
    var i := Up(k, d);
    assert Up(k, d + 1) == i / 2;
    assert i == if i % 2 == 0 then 2 * (i / 2) else 2 * (i / 2) + 1;
  }

  // ----- paths -----

  lemma {:induction false} PathIsPath(h: Hash2, a: seq<nat>, depth: nat, k: nat)
    ensures IsPath(h, a, k, Path(h, a, depth, k), depth)
    decreases depth
  {
    if depth > 0 { PathIsPath(h, a, depth - 1, k); }
  }

  /** Folding any value along the path of leaf k gives the branch of the tree holding that
      value at k. */
  lemma {:induction false} FoldPut(h: Hash2, a: seq<nat>, k: nat, v: nat, path: seq<nat>, d: nat)
    requires IsPath(h, a, k, path, d)
    ensures Fold(h, k, v, path, d) == Node(h, Put(a, k, v), d, Up(k, d))
    decreases d
  {
    if d > 0 {
      var e := d - 1;
      FoldPut(h, a, k, v, path, e);
      OffBranch(h, a, k, v, e, Sibling(Up(k, e)));
      BranchStep(h, Put(a, k, v), k, e);
    }
  }

  /** The path of leaf k folds the value written there to the root afterwards, and the value
      stored there to the present root. */
  lemma PathFoldsToRoot(h: Hash2, a: seq<nat>, depth: nat, k: nat, v: nat)
    requires k < Pow2(depth)
    ensures Fold(h, k, v, Path(h, a, depth, k), depth) == Root(h, depth, Put(a, k, v))
    ensures Fold(h, k, Leaf(a, k), Path(h, a, depth, k), depth) == Root(h, depth, a)
  {
    UpBound(k, depth, depth);
    PathIsPath(h, a, depth, k);
    FoldPut(h, a, k, v, Path(h, a, depth, k), depth);
    FoldPut(h, a, k, Leaf(a, k), Path(h, a, depth, k), depth);
    SameLeavesSameNode(h, Put(a, k, Leaf(a, k)), a, depth, 0);
  }

  lemma {:induction false} PathBitsAt(depth: nat, k: nat, d: nat)
    requires d < depth
    ensures PathBits(depth, k)[d] == Up(k, d) % 2
    decreases depth
  {
    if d < depth - 1 { PathBitsAt(depth - 1, k, d); }
  }

  /** The side bits are the binary digits of the index. */
  lemma {:induction false} PathBitsAreDigits(depth: nat, k: nat)
    ensures BitsValue(PathBits(depth, k)) + Up(k, depth) * Pow2(depth) == k
    ensures forall b <- PathBits(depth, k) :: b < 2
    decreases depth
  {
    if depth > 0 {
      var d := depth - 1;
      PathBitsAreDigits(d, k);
      assert PathBits(depth, k)[..d] == PathBits(d, k);
      SplitDigit(Up(k, d), Pow2(d));
    }
  }

  lemma SplitDigit(u: nat, p: nat)
    ensures u * p == u % 2 * p + u / 2 * (2 * p)
  {
    assert u == u % 2 + 2 * (u / 2);
    assert u * p == (u % 2) * p + (2 * (u / 2)) * p;
  }

  lemma DigitsOfLeaf(depth: nat, k: nat)
    requires k < Pow2(depth)
    ensures BitsValue(PathBits(depth, k)) == k && forall b <- PathBits(depth, k) :: b < 2
  {
    PathBitsAreDigits(depth, k);
    UpBound(k, depth, depth);
  }

  /** Folding by the side bits is folding by the index. */
  lemma {:induction false} FoldBitsIsFold(h: Hash2, depth: nat, k: nat, v: nat, path: seq<nat>, d: nat)
    requires d <= depth && d <= |path|
    ensures FoldBits(h, v, path, PathBits(depth, k), d) == Fold(h, k, v, path, d)
    decreases d
  {
    if d > 0 {
      FoldBitsIsFold(h, depth, k, v, path, d - 1);
      PathBitsAt(depth, k, d - 1);
    }
  }

  /** A path with its side bits opens the root to the stored leaf, and the root after writing any
      other value there to that value. */
  ghost predicate Opens(h: Hash2, depth: nat, leaves: seq<nat>, k: nat, path: seq<nat>, bits: seq<nat>) {
    && |path| == |bits| == depth
    && FoldBits(h, Leaf(leaves, k), path, bits, depth) == Root(h, depth, leaves)
    && forall v: nat :: FoldBits(h, v, path, bits, depth) == Root(h, depth, Put(leaves, k, v))
  }

  lemma PathOpens(h: Hash2, depth: nat, leaves: seq<nat>, k: nat)
    requires k < Pow2(depth)
    ensures Opens(h, depth, leaves, k, Path(h, leaves, depth, k), PathBits(depth, k))
  {
    forall v: nat
      ensures FoldBits(h, v, Path(h, leaves, depth, k), PathBits(depth, k), depth) == Root(h, depth, Put(leaves, k, v))
      ensures v == Leaf(leaves, k) ==>
        FoldBits(h, v, Path(h, leaves, depth, k), PathBits(depth, k), depth) == Root(h, depth, leaves)
    {
      FoldBitsIsFold(h, depth, k, v, Path(h, leaves, depth, k), depth);
      PathFoldsToRoot(h, leaves, depth, k, v);
    }
  }

  /** What a path lookup gives for a leaf of the tree. */
  lemma PathAndBits(h: Hash2, depth: nat, leaves: seq<nat>, k: nat)
    ensures k < Pow2(depth) ==>
      Opens(h, depth, leaves, k, Path(h, leaves, depth, k), PathBits(depth, k)) && BitsValue(PathBits(depth, k)) == k
  {
    if k < Pow2(depth) {
      PathOpens(h, depth, leaves, k);
      DigitsOfLeaf(depth, k);
    }
  }

  // ----- the root by halves -----

  function Take(s: seq<nat>, n: nat): seq<nat> {
    if n <= |s| then s[..n] else s
  }

  function Drop(s: seq<nat>, n: nat): seq<nat> {
    if n <= |s| then s[n..] else []
  }

  /** Dropping whole subtrees from the front shifts the nodes. */
  lemma {:induction false} NodeShift(h: Hash2, a: seq<nat>, d: nat, i: nat, off: nat, n: nat)
    requires n == off * Pow2(d)
    ensures Node(h, a, d, i + off) == Node(h, Drop(a, n), d, i)
    decreases d
  {
    if d > 0 {
      TwiceAsMany(off, Pow2(d - 1));
      NodeShift(h, a, d - 1, 2 * i, 2 * off, n);
      NodeShift(h, a, d - 1, 2 * i + 1, 2 * off, n);
    }
  }

  lemma TwiceAsMany(off: nat, p: nat)
    ensures off * (2 * p) == 2 * off * p
  {}

  /** The root is the hash of the roots of the two halves of the leaves, the first on the left, and
      at depth zero the first leaf, or zero without one. */
  lemma RootByHalves(h: Hash2, depth: nat, a: seq<nat>)
    ensures Root(h, 0, a) == if a == [] then 0 else a[0]
    ensures Root(h, depth + 1, a)
         == h(Root(h, depth, Take(a, Pow2(depth))), Root(h, depth, Drop(a, Pow2(depth))))
  {
    NodeShift(h, a, depth, 0, 1, Pow2(depth));
    RootAgree(h, depth, a, Take(a, Pow2(depth)));
  }

  // ----- binding -----

  /** x and y are different inputs with the same hash. */
  predicate IsCollision(h: Hash2, x: (nat, nat), y: (nat, nat)) {
    x != y && h(x.0, x.1) == h(y.0, y.1)
  }

  /** The two nodes of level d that are hashed into node i of level d + 1. */
  function Kids(h: Hash2, leaves: seq<nat>, d: nat, i: nat): (nat, nat) {
    (Node(h, leaves, d, 2 * i), Node(h, leaves, d, 2 * i + 1))
  }

  /** The trees over a and b hash different pairs into equal nodes at one place. */
  ghost predicate TreesCollide(h: Hash2, depth: nat, a: seq<nat>, b: seq<nat>) {
    exists d: nat, i: nat ::
      d < depth && i < Pow2(depth - d - 1) && IsCollision(h, Kids(h, a, d, i), Kids(h, b, d, i))
  }

  ghost predicate AgreeBelow(a: seq<nat>, b: seq<nat>, n: nat) {
    forall k: nat :: k < n ==> Leaf(a, k) == Leaf(b, k)
  }

  lemma EqualKids(h: Hash2, a: seq<nat>, b: seq<nat>, d: nat, k: nat)
    requires Kids(h, a, d, Up(k, d + 1)) == Kids(h, b, d, Up(k, d + 1))
    ensures Node(h, a, d, Up(k, d)) == Node(h, b, d, Up(k, d))
  {
    assert Up(k, d) == 2 * Up(k, d + 1) || Up(k, d) == 2 * Up(k, d + 1) + 1;
  }

  /** Two equal nodes over lists that differ at a leaf below them hash different pairs somewhere
      on that leaf's branch, and this says on which level. */
  lemma {:induction false} NodeBinding(h: Hash2, a: seq<nat>, b: seq<nat>, d: nat, k: nat) returns (e: nat)
    requires Leaf(a, k) != Leaf(b, k)
    requires Node(h, a, d, Up(k, d)) == Node(h, b, d, Up(k, d))
    ensures e < d && IsCollision(h, Kids(h, a, e, Up(k, e + 1)), Kids(h, b, e, Up(k, e + 1)))
    decreases d
  {
    e := d - 1;
    if Kids(h, a, e, Up(k, e + 1)) == Kids(h, b, e, Up(k, e + 1)) {
      EqualKids(h, a, b, e, k);
      e := NodeBinding(h, a, b, e, k);
    }
  }

  lemma CollisionInTrees(h: Hash2, depth: nat, a: seq<nat>, b: seq<nat>, d: nat, i: nat)
    requires d < depth && i < Pow2(depth - (d + 1)) && IsCollision(h, Kids(h, a, d, i), Kids(h, b, d, i))
    ensures TreesCollide(h, depth, a, b)
  {
    assert depth - d - 1 == depth - (d + 1);
  }

  /** The same inside a tree. */
  lemma BranchCollides(h: Hash2, depth: nat, a: seq<nat>, b: seq<nat>, d: nat, k: nat)
    requires d <= depth && k < Pow2(depth) && Leaf(a, k) != Leaf(b, k)
    requires Node(h, a, d, Up(k, d)) == Node(h, b, d, Up(k, d))
    ensures TreesCollide(h, depth, a, b)
  {
    var e := NodeBinding(h, a, b, d, k);
    UpBound(k, e + 1, depth);
    CollisionInTrees(h, depth, a, b, e, Up(k, e + 1));
  }

  /** Trees that agree on all their leaves agree on every pair they hash. */
  lemma AgreeingTrees(h: Hash2, depth: nat, a: seq<nat>, b: seq<nat>)
    requires AgreeBelow(a, b, Pow2(depth))
    ensures !TreesCollide(h, depth, a, b)
  {
    forall d: nat, i: nat | d < depth && i < Pow2(depth - d - 1)
      ensures Kids(h, a, d, i) == Kids(h, b, d, i)
    {
      assert Pow2(depth - d) == 2 * Pow2(depth - d - 1);
      forall j: nat | Up(j, d) == 2 * i || Up(j, d) == 2 * i + 1 ensures Leaf(a, j) == Leaf(b, j) {
        DownBound(j, d, depth);
      }
      NodeAgree(h, a, b, d, 2 * i);
      NodeAgree(h, a, b, d, 2 * i + 1);
    }
  }

  /** Trees with equal roots agree on all their leaves exactly when they do not collide with
      each other. */
  lemma RootBinding(h: Hash2, depth: nat, a: seq<nat>, b: seq<nat>)
    requires Root(h, depth, a) == Root(h, depth, b)
    ensures AgreeBelow(a, b, Pow2(depth)) <==> !TreesCollide(h, depth, a, b)
  {
    if k: nat :| k < Pow2(depth) && Leaf(a, k) != Leaf(b, k) {
      UpBound(k, depth, depth);
      BranchCollides(h, depth, a, b, depth, k);
    } else {
      AgreeingTrees(h, depth, a, b);
    }
  }

  /** The pair that a fold hashes at level d. */
  function FoldPair(h: Hash2, k: nat, v: nat, path: seq<nat>, d: nat): (nat, nat)
    requires d < |path|
  {
    var x := Fold(h, k, v, path, d);
    if Up(k, d) % 2 == 1 then (path[d], x) else (x, path[d])
  }

  /** Two folds at one index hash different pairs to one value at the same level. */
  ghost predicate FoldsCollide(h: Hash2, k: nat, v: nat, p: seq<nat>, w: nat, q: seq<nat>, n: nat) {
    exists d: nat :: d < n && d < |p| && d < |q| && IsCollision(h, FoldPair(h, k, v, p, d), FoldPair(h, k, w, q, d))
  }

  /** Equal folds of different values, or along different siblings, hash different pairs at some
      level, and this says which. */
  lemma {:induction false} FoldBinding(h: Hash2, k: nat, v: nat, p: seq<nat>, w: nat, q: seq<nat>, n: nat)
      returns (d: nat)
    requires n <= |p| && n <= |q|
    requires Fold(h, k, v, p, n) == Fold(h, k, w, q, n)
    requires v != w || p[..n] != q[..n]
    ensures d < n && IsCollision(h, FoldPair(h, k, v, p, d), FoldPair(h, k, w, q, d))
    decreases n
  {
    assert n > 0;
    d := n - 1;
    if FoldPair(h, k, v, p, d) == FoldPair(h, k, w, q, d) {
      assert p[..n] == p[..d] + [p[d]] && q[..n] == q[..d] + [q[d]];
      d := FoldBinding(h, k, v, p, w, q, d);
    }
  }

  /** A path of the right length that folds v to the root is the true path of k, and v the leaf
      there, exactly when the fold does not collide with the true one. */
  lemma PathBinding(h: Hash2, depth: nat, a: seq<nat>, k: nat, v: nat, path: seq<nat>)
    requires k < Pow2(depth) && |path| == depth
    ensures v == Leaf(a, k) && path == Path(h, a, depth, k)
        ==> Fold(h, k, v, path, depth) == Root(h, depth, a)
    ensures Fold(h, k, v, path, depth) == Root(h, depth, a) ==>
      (v == Leaf(a, k) && path == Path(h, a, depth, k) <==>
        !FoldsCollide(h, k, v, path, Leaf(a, k), Path(h, a, depth, k), depth))
  {
    var q := Path(h, a, depth, k);
    PathFoldsToRoot(h, a, depth, k, v);
    if Fold(h, k, v, path, depth) == Root(h, depth, a) && (v != Leaf(a, k) || path != q) {
      assert path[..depth] == path && q[..depth] == q;
      var d := FoldBinding(h, k, v, path, Leaf(a, k), q, depth);
    }
  }
}
