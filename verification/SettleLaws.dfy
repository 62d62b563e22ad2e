/** What a prepared settlement proposes to the chain, and exactly when it is the right root. */
module SettleLaws {
  import opened Results
  import opened Merkle
  import opened TreeLaws
  import opened SparseTree
  import opened Protocol
  import opened SyncLaws

  /** The read is of one chain state: its root is that of the first `next` commitments and its
      pending list follows them. */
  ghost predicate TrueRead(h: Hash2, depth: nat, total: seq<nat>, s: Snapshot) {
    && TrueCursor(total, Cursor(s.next, s.pending))
    && s.root == Root(h, depth, total[..s.next])
  }

  predicate AllZero(cs: seq<nat>) {
    forall c <- cs :: c == 0
  }

  /** The first b pending commitments continue the settled ones. */
  lemma FirstPending(total: seq<nat>, s: Snapshot, b: nat)
    requires TrueCursor(total, Cursor(s.next, s.pending)) && b <= |s.pending|
    ensures s.pending[..b] == total[s.next..s.next + b]
    ensures total[..s.next] + s.pending[..b] == total[..s.next + b]
  {
    assert total[s.next..s.next + |s.pending|][..b] == total[s.next..s.next + b];
  }

  /** st is what the preparation builds on `leaves` from the read s. */
  ghost predicate Built(h: Hash2, depth: nat, maxBatch: nat, leaves: seq<nat>, s: Snapshot, st: Settlement) {
    var base := Pad(leaves, s.next);
    && s.pending != [] && Root(h, depth, leaves) == s.root
    && st.startIndex == s.next && st.commitments == s.pending[..Min(|s.pending|, maxBatch)]
    && (st.commitments == [] || |base| + |st.commitments| <= Pow2(depth))
    && st.newRoot == Root(h, depth, base + st.commitments)
    && st.paths == BatchPaths(h, depth, base, st.commitments)
  }

  lemma ProposedIsBuilt(h: Hash2, depth: nat, maxBatch: nat, r: Relayer, s: Snapshot, st: Settlement)
    ensures Propose(h, depth, maxBatch, r, s).1 == Ok(Some(st)) <==> Built(h, depth, maxBatch, r.leaves, s, st)
  {}

  /** A settlement built on a local tree no longer than startIndex always carries a valid witness
      from the root that was read to its new root. */
  lemma BuiltWitness(h: Hash2, depth: nat, maxBatch: nat, leaves: seq<nat>, s: Snapshot, st: Settlement)
    requires Built(h, depth, maxBatch, leaves, s, st) && |leaves| <= s.next && maxBatch > 0
    ensures st.commitments != [] && s.next + |st.commitments| <= Pow2(depth)
    ensures ChainedWitness(h, depth, s.root, st.newRoot, s.next, st.commitments, st.paths)
  {
    var base := Pad(leaves, s.next);
    SameLeavesSameNode(h, base, leaves, depth, 0);
    BatchPathsAreWitness(h, depth, base, st.commitments);
  }

  /** On a full tree no settlement is built. */
  lemma BuiltHasRoom(h: Hash2, depth: nat, maxBatch: nat, leaves: seq<nat>, s: Snapshot, st: Settlement)
    requires Built(h, depth, maxBatch, leaves, s, st) && maxBatch > 0
    ensures |leaves| < Pow2(depth)
  {}

  /** Lists of one length that agree on every leaf of the tree are the same list. */
  lemma SameList(a: seq<nat>, b: seq<nat>, size: nat)
    requires |a| == |b| <= size && AgreeBelow(a, b, size)
    ensures a == b
  {
    forall k | 0 <= k < |a| ensures a[k] == b[k] {
      assert Leaf(a, k) == Leaf(b, k);
    }
  }

  /** Whatever the local tree holds, a settlement built from one true read, on a local tree no
      longer than startIndex, proposes the root of the settled leaves followed by the first
      pending commitments, along their true paths, unless the local tree collides with the tree
      of the settled leaves. */
  lemma BuiltRootIsRight(h: Hash2, depth: nat, maxBatch: nat, total: seq<nat>, leaves: seq<nat>, s: Snapshot,
                         st: Settlement)
    requires TrueRead(h, depth, total, s) && Built(h, depth, maxBatch, leaves, s, st) && maxBatch > 0
    requires |leaves| <= s.next
    ensures
      var n := s.next + |st.commitments|;
      && n <= |total| && st.commitments == total[s.next..n]
      && (TreesCollide(h, depth, leaves, total[..s.next])
          || (st.newRoot == Root(h, depth, total[..n])
              && st.paths == BatchPaths(h, depth, total[..s.next], st.commitments)))
  {
    FirstPending(total, s, |st.commitments|);
    if !TreesCollide(h, depth, leaves, total[..s.next]) {
      RootBinding(h, depth, leaves, total[..s.next]);
      SameList(Pad(leaves, s.next), total[..s.next], Pow2(depth));
    }
  }

  /** Two lists that agree, of which one appends cs later than the other, make cs zero. */
  lemma {:induction false} ShiftIsZero(a: seq<nat>, b: seq<nat>, cs: seq<nat>, size: nat, i: nat)
    requires |b| < |a| && |a| + |cs| <= size && i <= |cs|
    requires forall k: nat :: k < size ==> Leaf(a, k) == Leaf(b, k)
    requires forall k: nat :: k < size ==> Leaf(a + cs, k) == Leaf(b + cs, k)
    ensures forall j :: 0 <= j < i ==> cs[j] == 0
    decreases i
  {
    if i > 0 {
      ShiftIsZero(a, b, cs, size, i - 1);
      var k := |b| + i - 1;
      assert Leaf(b + cs, k) == cs[i - 1];
      assert k < |a| ==> Leaf(a + cs, k) == Leaf(a, k) == Leaf(b, k) == 0;
    }
  }

  lemma AppendZeros(a: seq<nat>, cs: seq<nat>)
    requires AllZero(cs)
    ensures SameLeaves(a + cs, a)
  {
    forall k: nat ensures Leaf(a + cs, k) == Leaf(a, k) {
      if |a| <= k < |a| + |cs| { assert cs[k - |a|] in cs; }
    }
  }

  /** The guard is exact: a settlement built on a longer local tree, whose surplus the matching
      root shows to be zeros, is right only if its commitments are all zero; short of a collision
      between the local and the settled tree, before or after the batch. */
  lemma BuiltRootExact(h: Hash2, depth: nat, maxBatch: nat, total: seq<nat>, leaves: seq<nat>, s: Snapshot,
                       st: Settlement)
    requires TrueRead(h, depth, total, s) && Built(h, depth, maxBatch, leaves, s, st) && maxBatch > 0
    ensures
      var settled := total[..s.next];
      var right := Root(h, depth, settled + st.commitments);
      var fits := |leaves| <= s.next || AllZero(st.commitments);
      var collides := TreesCollide(h, depth, leaves, settled);
      && (fits ==> st.newRoot == right || collides)
      && (st.newRoot == right ==>
            fits || collides || TreesCollide(h, depth, leaves + st.commitments, settled + st.commitments))
  {
    var settled, cs := total[..s.next], st.commitments;
    if |leaves| <= s.next {
      BuiltRootIsRight(h, depth, maxBatch, total, leaves, s, st);
      assert settled + cs == total[..s.next + |cs|];
    } else {
      LongerTreeExact(h, depth, leaves, settled, cs);
    }
  }

  lemma LongerTreeExact(h: Hash2, depth: nat, a: seq<nat>, b: seq<nat>, cs: seq<nat>)
    requires |b| < |a| && |a| + |cs| <= Pow2(depth) && Root(h, depth, a) == Root(h, depth, b)
    ensures TreesCollide(h, depth, a, b)
      || (&& (AllZero(cs) ==> Root(h, depth, a + cs) == Root(h, depth, b + cs))
          && (Root(h, depth, a + cs) == Root(h, depth, b + cs) ==>
                AllZero(cs) || TreesCollide(h, depth, a + cs, b + cs)))
  {
    RootBinding(h, depth, a, b);
    if TreesCollide(h, depth, a, b) { return; }
    if Root(h, depth, a + cs) == Root(h, depth, b + cs) && !TreesCollide(h, depth, a + cs, b + cs) {
      RootBinding(h, depth, a + cs, b + cs);
      ShiftIsZero(a, b, cs, Pow2(depth), |cs|);
    }
    if AllZero(cs) {
      AppendZeros(a, cs);
      AppendZeros(b, cs);
      RootAgree(h, depth, a + cs, b + cs);
    }
  }

  /** The batch of the read fits behind these leaves. */
  predicate BatchFits(depth: nat, maxBatch: nat, leaves: seq<nat>, s: Snapshot) {
    |Pad(leaves, s.next)| + Min(|s.pending|, maxBatch) <= Pow2(depth)
  }

  lemma FittingProposal(h: Hash2, depth: nat, maxBatch: nat, r: Relayer, s: Snapshot)
    requires BatchFits(depth, maxBatch, r.leaves, s)
    ensures Propose(h, depth, maxBatch, r, s).0 == r
  {}

  /** Which preparations have nothing to settle and which fail, in terms of the two root checks and
      the room for the batch. */
  lemma PrepareOutcome(h: Hash2, depth: nat, maxBatch: nat, r: Relayer, s: Snapshot, recovered: map<nat, nat>)
    requires maxBatch > 0
    ensures
      var out := Prepare(h, depth, maxBatch, r, s, recovered).1;
      var found := Recover(r, s.next, recovered);
      && (out == Ok(None) <==> s.pending == [])
      && (out.Err? <==>
            (&& s.pending != []
             && if Root(h, depth, r.leaves) == s.root then !BatchFits(depth, maxBatch, r.leaves, s)
                else Root(h, depth, found.leaves) != s.root || !BatchFits(depth, maxBatch, found.leaves, s)))
  {}

  /** A local tree that equals the settled leaves always yields a settlement while the batch
      fits: the root check passes, nothing throws, and the new root is right. */
  lemma ProposeSucceeds(h: Hash2, depth: nat, maxBatch: nat, total: seq<nat>, r: Relayer, s: Snapshot)
      returns (st: Settlement)
    requires TrueRead(h, depth, total, s) && maxBatch > 0 && s.pending != []
    requires r.leaves == total[..s.next] && BatchFits(depth, maxBatch, r.leaves, s)
    ensures Propose(h, depth, maxBatch, r, s) == (r, Ok(Some(st))) && Built(h, depth, maxBatch, r.leaves, s, st)
    ensures |st.commitments| == Min(|s.pending|, maxBatch)
    ensures st.newRoot == Root(h, depth, total[..s.next + |st.commitments|])
  {
    var b := Min(|s.pending|, maxBatch);
    var cs := s.pending[..b];
    FirstPending(total, s, b);
    st := Settlement(s.next, cs, Root(h, depth, r.leaves + cs), BatchPaths(h, depth, r.leaves, cs));
  }
}
