/** The settlement and sync protocol as steps over values.

    The chain keeps one growing FIFO list of commitments: the first `settled` of them are leaves of
    the on-chain tree, the others wait in the pending buffer. A deposit appends to the list, a
    settlement moves the boundary. The relayer keeps a local copy of the leaves, a cursor with the
    pending list it last saw, and three files. */
module Protocol {
  import opened Results
  import opened Merkle
  import opened SparseTree

  /** One read of the two accounts. */
  datatype Snapshot = Snapshot(next: nat, root: nat, pending: seq<nat>)

  datatype Cursor = Cursor(next: nat, pending: seq<nat>)

  datatype LogEntry = LogEntry(leafIndex: nat, commitment: nat)

  datatype Relayer = Relayer(
    leaves: seq<nat>,               // the local tree
    cursor: Cursor,                 // pendingState
    savedLeaves: seq<nat>,          // merkle-tree-state.json
    savedCursor: Option<Cursor>,    // pending-state.json
    log: seq<LogEntry>)             // settled-commitments.json

  /** A prepared batch settlement. */
  datatype Settlement = Settlement(startIndex: nat, commitments: seq<nat>, newRoot: nat, paths: seq<seq<nat>>)

  // ----- the relayer's operations -----

  /** Inserts the recovered commitments with index below n, lowest first. */
  function InsertRecovered(leaves: seq<nat>, recovered: map<nat, nat>, n: nat): (r: seq<nat>)
    ensures forall j: nat :: Leaf(r, j) == if j in recovered && j < n then recovered[j] else Leaf(leaves, j)
    ensures |leaves| <= |r|
    ensures |r| > |leaves| ==> |r| <= n && |r| - 1 in recovered
    ensures forall i: nat :: i in recovered && i < n ==> i < |r|
  {
    if n == 0 then leaves
    else
      var l := InsertRecovered(leaves, recovered, n - 1);
      if n - 1 in recovered then Put(l, n - 1, recovered[n - 1]) else l
  }

  /** Inserts cs at consecutive indices. */
  function InsertRun(leaves: seq<nat>, at: nat, cs: seq<nat>): (r: seq<nat>)
    ensures forall j: nat :: Leaf(r, j) == if at <= j < at + |cs| then cs[j - at] else Leaf(leaves, j)
    ensures |r| == if cs != [] && |leaves| < at + |cs| then at + |cs| else |leaves|
    decreases |cs|
  {
    if cs == [] then leaves
    else
      var last := |cs| - 1;
      Put(InsertRun(leaves, at, cs[..last]), at + last, cs[last])
  }

  function Min(a: nat, b: nat): nat { if a < b then a else b }

  /** recoverMerkleTreeFromEvents, given what the event scan found. */
  function Recover(r: Relayer, target: nat, recovered: map<nat, nat>): Relayer {
    if forall i <- recovered :: i >= target then r
    else
      var leaves := InsertRecovered(r.leaves, recovered, target);
      r.(leaves := leaves, savedLeaves := leaves)
  }

  /** The state after "on-chain reset detected". */
  function Reset(): Relayer {
    Relayer([], Cursor(0, []), [], Some(Cursor(0, [])), [])
  }

  /** The tree after the recovery stage of a sync. */
  function Recovered(r: Relayer, s: Snapshot, recovered: map<nat, nat>): Relayer {
    if |r.leaves| < s.next then Recover(r, s.next, recovered)
    else if |r.leaves| > s.next then Reset()
    else r
  }

  /** The cursor that settlement detection starts from. */
  function StartCursor(r: Relayer, s: Snapshot): nat {
    if r.cursor.next > s.next then Min(|r.leaves|, s.next) else r.cursor.next
  }

  /** The commitments taken to be settled: the first ones of the previous pending list. */
  function Inferred(r: Relayer, s: Snapshot): seq<nat> {
    var from := StartCursor(r, s);
    if |r.leaves| >= s.next && s.next > from then r.cursor.pending[..Min(s.next - from, |r.cursor.pending|)]
    else []
  }

  /** syncMerkleTree. */
  function Sync(r: Relayer, s: Snapshot, recovered: map<nat, nat>): Relayer {
    Settle(Recovered(r, s, recovered), s)
  }

  /** The second half of a sync: the tree with the inferred commitments, and the new cursor. */
  function Settle(r: Relayer, s: Snapshot): Relayer {
    var failed := |r.leaves| < s.next;
    var from := StartCursor(r, s);
    var inferred := Inferred(r, s);
    var leaves := InsertRun(r.leaves, from, inferred);
    var cursor := Cursor(if failed then from else s.next, s.pending);
    r.(leaves := leaves, savedLeaves := if inferred == [] then r.savedLeaves else leaves,
       cursor := cursor, savedCursor := Some(cursor))
  }

  /** The batch part of settlePendingDeposits, after its sync: s is the second read of the
      accounts and `recovered` what a second event scan would find. */
  function Prepare(h: Hash2, depth: nat, maxBatch: nat, r: Relayer, s: Snapshot, recovered: map<nat, nat>)
      : (Relayer, Result<Option<Settlement>>)
  {
    if s.pending != [] && Root(h, depth, r.leaves) != s.root then
      Propose(h, depth, maxBatch, Recover(r, s.next, recovered), s)
    else
      Propose(h, depth, maxBatch, r, s)
  }

  /** The rest of it: the last root check and the simulated insert. */
  function Propose(h: Hash2, depth: nat, maxBatch: nat, r: Relayer, s: Snapshot)
      : (Relayer, Result<Option<Settlement>>)
  {
    if s.pending == [] then (r, Ok(None))
    else if Root(h, depth, r.leaves) != s.root then (r, Err)
    else
      var cs := s.pending[..Min(|s.pending|, maxBatch)];
      var base := Pad(r.leaves, s.next);
      if cs != [] && |base| + |cs| > Pow2(depth) then
        (r.(leaves := base + cs[..Room(depth, base, cs)]), Err)
      else
        (r, Ok(Some(Settlement(s.next, cs, Root(h, depth, base + cs), BatchPaths(h, depth, base, cs)))))
  }

  /** Replaying the settled log, oldest entry first. */
  function Replay(log: seq<LogEntry>): (leaves: seq<nat>)
    decreases |log|
  {
    if log == [] then []
    else var e := log[|log| - 1]; Put(Replay(log[..|log| - 1]), e.leafIndex, e.commitment)
  }

  /** initialize: everything in memory is rebuilt from the files. */
  function Restarted(r: Relayer): Relayer {
    r.(leaves := if r.log != [] then Replay(r.log) else r.savedLeaves,
       cursor := match r.savedCursor case Some(c) => c case None => Cursor(0, []))
  }

  /** The log entries of a settled batch. */
  function Entries(start: nat, cs: seq<nat>): (es: seq<LogEntry>)
    ensures |es| == |cs|
    ensures forall i :: 0 <= i < |cs| ==> es[i] == LogEntry(start + i, cs[i])
    decreases |cs|
  {
    if cs == [] then [] else Entries(start, cs[..|cs| - 1]) + [LogEntry(start + |cs| - 1, cs[|cs| - 1])]
  }
}
