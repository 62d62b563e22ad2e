/** The relayer objects that the protocol steps describe: the state store, the API extensions with
    their tree and pending state, and the sequencer. Reads of the chain, event pages and the
    outcome of submissions are parameters. */
module ApiExtensions {
  import opened Results
  import opened Merkle
  import opened SparseTree
  import opened Protocol
  import opened EventScan

  /** The saved values; each save replaces a value whole. */
  class StateStore {
    var merkle: seq<nat>
    var pending: Option<Cursor>
    var settled: seq<LogEntry>

    constructor ()
      ensures merkle == [] && pending == None && settled == []
    {
      merkle, pending, settled := [], None, [];
    }

    method AppendSettledCommitment(entry: LogEntry)
      modifies this`settled
      ensures settled == old(settled) + [entry]
    {
      settled := settled + [entry];
    }
  }

  /** A read of an account: None if there is no such account, Err if its data does not parse. */
  type Read<T> = Option<Result<T>>

  /** What one sync or preparation reads: next index and root of the tree account, the commitments
      in the pending buffer, and the pages of events that a scan would meet. */
  datatype Reads = Reads(tree: Read<(nat, nat)>, pendingBuffer: Read<seq<nat>>, pages: seq<Page>)

  /** What a sync makes of what it read. Without a tree account it does nothing; a pending buffer
      that does not parse ends it after the recovery stage; a missing one counts as empty. */
  function SyncReads(r: Relayer, got: Reads, maxPages: nat): Relayer {
    if got.tree.None? || got.tree.value.Err? then r
    else
      var (next, root) := got.tree.value.value;
      var found := NotePages(map[], got.pages, maxPages, next);
      match got.pendingBuffer
      case None => Sync(r, Snapshot(next, root, []), found)
      case Some(Err) => Recovered(r, Snapshot(next, root, []), found)
      case Some(Ok(pending)) => Sync(r, Snapshot(next, root, pending), found)
  }

  /** What the preparation makes of its reads. It has nothing to settle without both accounts, and
      fails if one does not parse. */
  function PrepareReads(h: Hash2, depth: nat, maxBatch: nat, maxPages: nat, r: Relayer, got: Reads)
      : (Relayer, Result<Option<Settlement>>)
  {
    if got.tree.None? || got.pendingBuffer.None? then (r, Ok(None))
    else if got.tree.value.Err? || got.pendingBuffer.value.Err? then (r, Err)
    else
      var (next, root) := got.tree.value.value;
      Prepare(h, depth, maxBatch, r, Snapshot(next, root, got.pendingBuffer.value.value),
              NotePages(map[], got.pages, maxPages, next))
  }

  /** What settlePendingDeposits makes of the reads of its sync and of its own. A failing proof is
      an error. */
  function SettleReads(h: Hash2, depth: nat, maxBatch: nat, maxPages: nat, r: Relayer, first: Reads, second: Reads,
                       proofOk: bool): (Relayer, Result<Option<Settlement>>)
  {
    var (v, out) := PrepareReads(h, depth, maxBatch, maxPages, SyncReads(r, first, maxPages), second);
    (v, if out.Ok? && out.value.Some? && !proofOk then Err else out)
  }

  /** What a tick makes of it: a settlement that lands is logged, up to a failed write of the log;
      one that does not land is an error. */
  function TickReads(h: Hash2, depth: nat, maxBatch: nat, maxPages: nat, r: Relayer, first: Reads, second: Reads,
                     proofOk: bool, landed: bool, persisted: nat): (Relayer, Result<Option<Settlement>>)
  {
    var (v, out) := SettleReads(h, depth, maxBatch, maxPages, r, first, second, proofOk);
    match out
    case Ok(Some(st)) =>
      if landed then
        (v.(log := v.log + Entries(st.startIndex, st.commitments)[..Min(persisted, |st.commitments|)]), out)
      else (v, Err)
    case _ => (v, out)
  }

  /** The tree account, if there is one, fits the local tree. */
  predicate InCapacity(got: Reads, depth: nat) {
    got.tree.Some? && got.tree.value.Ok? ==> got.tree.value.value.0 <= Pow2(depth)
  }

  class RelayerApiExtensions {
    const h: Hash2
    const depth: nat
    const maxPages: nat
    const maxBatch: nat
    const store: StateStore
    var merkleTree: ServerMerkleTree
    var pendingCommitments: seq<nat>
    var nextLeafIndex: nat

    ghost predicate Valid()
      reads this, merkleTree
    {
      merkleTree.Valid() && merkleTree.h == h && merkleTree.depth == depth
    }

    /** The protocol's view of this object and its files. */
    ghost function View(): Relayer
      reads this, merkleTree, store
    {
      Relayer(merkleTree.leaves, Cursor(nextLeafIndex, pendingCommitments), store.merkle, store.pending, store.settled)
    }

    constructor (h: Hash2, depth: nat, maxPages: nat, maxBatch: nat, store: StateStore)
      ensures Valid() && fresh(merkleTree)
      ensures this.h == h && this.depth == depth && this.maxPages == maxPages && this.maxBatch == maxBatch
      ensures this.store == store && merkleTree.leaves == [] && nextLeafIndex == 0 && pendingCommitments == []
    {
      this.h, this.depth, this.maxPages, this.maxBatch, this.store := h, depth, maxPages, maxBatch, store;
      pendingCommitments, nextLeafIndex := [], 0;
      merkleTree := new ServerMerkleTree(h, depth);
    }

    method PersistMerkleTree()
      modifies store`merkle
      ensures store.merkle == merkleTree.leaves
    {
      store.merkle := merkleTree.leaves;
    }

    /** Inserts the commitments found below target, in ascending order. */
    method InsertFound(found: map<nat, nat>, target: nat)
      requires Valid() && target <= Pow2(depth)
      modifies merkleTree
      ensures Valid()
      ensures merkleTree.leaves == InsertRecovered(old(merkleTree.leaves), found, target)
    {
      for i := 0 to target
        invariant Valid()
        invariant merkleTree.leaves == InsertRecovered(old(merkleTree.leaves), found, i)
      {
        if i in found {
          var _ := merkleTree.InsertAt(i, found[i]);
        }
      }
    }

    method RecoverMerkleTreeFromEvents(target: nat, pages: seq<Page>)
      requires Valid() && target <= Pow2(depth)
      modifies merkleTree, store`merkle
      ensures Valid()
      ensures View() == Recover(old(View()), target, NotePages(map[], pages, maxPages, target))
    {
      if target <= 0 {
        return;
      }
      var commitmentsByIndex := Scan(pages, maxPages, target);
      if |commitmentsByIndex| == 0 {
        return;
      }
      InsertFound(commitmentsByIndex, target);
      PersistMerkleTree();
    }

    /** Replaces the tree and clears every saved value. */
    method ResetState()
      requires Valid()
      modifies this`merkleTree, this`pendingCommitments, this`nextLeafIndex, store
      ensures Valid() && fresh(merkleTree)
      ensures View() == Reset()
      ensures merkleTree.leaves == [] && pendingCommitments == [] && nextLeafIndex == 0
      ensures store.merkle == [] && store.pending == Some(Cursor(0, [])) && store.settled == []
    {
      merkleTree := new ServerMerkleTree(h, depth);
      pendingCommitments, nextLeafIndex := [], 0;
      store.pending := Some(Cursor(0, []));
      store.settled := [];
      PersistMerkleTree();
    }

    /** The recovery stage of a sync. */
    method CatchUp(next: nat, pages: seq<Page>, ghost s: Snapshot)
      requires Valid() && next == s.next <= Pow2(depth)
      modifies this`merkleTree, this`pendingCommitments, this`nextLeafIndex, merkleTree, store
      ensures Valid() && (merkleTree == old(merkleTree) || fresh(merkleTree))
      ensures View() == Recovered(old(View()), s, NotePages(map[], pages, maxPages, next))
    {
      var localLeafCount := |merkleTree.leaves|;
      if localLeafCount < next {
        RecoverMerkleTreeFromEvents(next, pages);
      } else if localLeafCount > next {
        ResetState();
      }
    }

    /** Inserts the commitments taken to be settled at consecutive indices. */
    method InsertSettled(at: nat, settledCommitments: seq<nat>)
      requires Valid() && at + |settledCommitments| <= Pow2(depth)
      modifies merkleTree, store`merkle
      ensures Valid()
      ensures merkleTree.leaves == InsertRun(old(merkleTree.leaves), at, settledCommitments)
      ensures store.merkle == if settledCommitments == [] then old(store.merkle) else merkleTree.leaves
    {
      if |settledCommitments| > 0 {
        for i := 0 to |settledCommitments|
          invariant Valid()
          invariant merkleTree.leaves == InsertRun(old(merkleTree.leaves), at, settledCommitments[..i])
        {
          var _ := merkleTree.InsertAt(at + i, settledCommitments[i]);
          assert settledCommitments[..i + 1][..i] == settledCommitments[..i];
        }
        assert settledCommitments[..|settledCommitments|] == settledCommitments;
        PersistMerkleTree();
      }
    }

    /** One sync against one read of the tree account and the pending buffer. */
    method SyncMerkleTree(got: Reads)
      requires Valid() && InCapacity(got, depth)
      modifies this`merkleTree, this`pendingCommitments, this`nextLeafIndex, merkleTree, store
      ensures Valid() && (merkleTree == old(merkleTree) || fresh(merkleTree))
      ensures View() == SyncReads(old(View()), got, maxPages)
    {
      var tree, pendingBuffer := got.tree, got.pendingBuffer;
      if tree.None? || tree.value.Err? {
        return;
      }
      var currentNextLeafIndex := tree.value.value.0;
      ghost var pending := if pendingBuffer.Some? && pendingBuffer.value.Ok? then pendingBuffer.value.value else [];
      ghost var s := Snapshot(currentNextLeafIndex, tree.value.value.1, pending);
      CatchUp(currentNextLeafIndex, got.pages, s);
      if pendingBuffer.Some? && pendingBuffer.value.Err? {
        return;
      }
      DetectSettled(currentNextLeafIndex, if pendingBuffer.Some? then pendingBuffer.value.value else [], s);
    }

    /** The rest of a sync: the FIFO inference and the new cursor. */
    method DetectSettled(currentNextLeafIndex: nat, currentPending: seq<nat>, ghost s: Snapshot)
      requires Valid() && s.next == currentNextLeafIndex <= Pow2(depth) && s.pending == currentPending
      modifies this`pendingCommitments, this`nextLeafIndex, merkleTree, store
      ensures Valid()
      ensures View() == Settle(old(View()), s)
    {
      ghost var r := View();
      var recoveryFailed := |merkleTree.leaves| < currentNextLeafIndex;
      var prevPending := pendingCommitments;
      var prevNextLeafIndex := nextLeafIndex;
      if prevNextLeafIndex > currentNextLeafIndex {
        prevNextLeafIndex := Min(|merkleTree.leaves|, currentNextLeafIndex);
      }
      if !recoveryFailed && currentNextLeafIndex > prevNextLeafIndex {
        var numSettled := currentNextLeafIndex - prevNextLeafIndex;
        var settledCommitments := prevPending[..Min(numSettled, |prevPending|)];
        assert settledCommitments == Inferred(r, s);
        InsertSettled(prevNextLeafIndex, settledCommitments);
      } else {
        assert Inferred(r, s) == [];
      }
      pendingCommitments := currentPending;
      nextLeafIndex := if recoveryFailed then prevNextLeafIndex else currentNextLeafIndex;
      store.pending := Some(Cursor(nextLeafIndex, currentPending));
    }

    /** The batch part of settlePendingDeposits. */
    method PrepareBatch(next: nat, onChainRoot: nat, deposits: seq<nat>, pages: seq<Page>)
        returns (r: Result<Option<Settlement>>)
      requires Valid() && next <= Pow2(depth)
      modifies merkleTree, store`merkle
      ensures Valid()
      ensures (View(), r) == Prepare(h, depth, maxBatch, old(View()), Snapshot(next, onChainRoot, deposits),
                                     NotePages(map[], pages, maxPages, next))
    {
      if |deposits| == 0 {
        return Ok(None);
      }
      var batchSize := Min(|deposits|, maxBatch);
      var localRoot := merkleTree.GetRoot();
      if localRoot != onChainRoot {
        RecoverMerkleTreeFromEvents(next, pages);
        var rebuiltRoot := merkleTree.GetRoot();
        if rebuiltRoot != onChainRoot {
          return Err;
        }
      }
      var commitments := deposits[..batchSize];
      var batch := merkleTree.SimulateBatchInsert(commitments, next);
      if batch.Err? {
        return Err;
      }
      r := Ok(Some(Settlement(next, commitments, batch.value.1, batch.value.0)));
    }

    /** Syncs, reads the accounts a second time and prepares a batch; the proof may fail. */
    method SettlePendingDeposits(first: Reads, second: Reads, proofOk: bool) returns (r: Result<Option<Settlement>>)
      requires Valid() && InCapacity(first, depth) && InCapacity(second, depth)
      modifies this`merkleTree, this`pendingCommitments, this`nextLeafIndex, merkleTree, store
      ensures Valid() && (merkleTree == old(merkleTree) || fresh(merkleTree))
      ensures (View(), r) == SettleReads(h, depth, maxBatch, maxPages, old(View()), first, second, proofOk)
    {
      SyncMerkleTree(first);
      if second.tree.None? || second.pendingBuffer.None? {
        return Ok(None);
      }
      if second.tree.value.Err? || second.pendingBuffer.value.Err? {
        return Err;
      }
      var (next, root) := second.tree.value.value;
      r := PrepareBatch(next, root, second.pendingBuffer.value.value, second.pages);
      if r.Ok? && r.value.Some? && !proofOk {
        r := Err;
      }
    }

    /** Replays the settled log into a fresh tree. */
    method ReplayLog(entries: seq<LogEntry>) returns (ok: bool)
      requires Valid() && merkleTree.leaves == []
      modifies merkleTree
      ensures Valid()
      ensures ok <==> forall e <- entries :: e.leafIndex < Pow2(depth)
      ensures ok ==> merkleTree.leaves == Replay(entries)
    {
      for i := 0 to |entries|
        invariant Valid()
        invariant forall e <- entries[..i] :: e.leafIndex < Pow2(depth)
        invariant merkleTree.leaves == Replay(entries[..i])
      {
        var entry := entries[i];
        assert entries[..i + 1] == entries[..i] + [entry];
        var inserted := merkleTree.InsertAt(entry.leafIndex, entry.commitment);
        if !inserted {
          assert entry in entries;
          return false;
        }
      }
      assert entries[..|entries|] == entries;
      ok := true;
    }

    /** Rebuilds everything in memory from the files, then syncs. Fails on a log entry that the
        tree cannot hold. */
    method Initialize(got: Reads) returns (ok: bool)
      requires Valid() && InCapacity(got, depth)
      requires pendingCommitments == [] && nextLeafIndex == 0
      requires |store.merkle| <= Pow2(depth)
      modifies this`merkleTree, this`pendingCommitments, this`nextLeafIndex, merkleTree, store
      ensures Valid()
      ensures ok <==> forall e <- old(store.settled) :: e.leafIndex < Pow2(depth)
      ensures ok ==> View() == SyncReads(Restarted(old(View())), got, maxPages)
      ensures ok && (got.tree.None? || got.tree.value.Err?) ==>
        && merkleTree.leaves == (if old(store.settled) == [] then old(store.merkle) else Replay(old(store.settled)))
        && (old(store.pending).Some? ==> Cursor(nextLeafIndex, pendingCommitments) == old(store.pending).value)
        && store.merkle == old(store.merkle) && store.pending == old(store.pending) && store.settled == old(store.settled)
    {
      merkleTree := new ServerMerkleTree(h, depth);
      if |store.settled| > 0 {
        ok := ReplayLog(store.settled);
        if !ok {
          return;
        }
      } else if |store.merkle| > 0 {
        merkleTree.SetLeaves(store.merkle);
      }
      if store.pending.Some? {
        pendingCommitments := store.pending.value.pending;
        nextLeafIndex := store.pending.value.next;
      }
      SyncMerkleTree(got);
      ok := true;
    }
  }

  class Sequencer {
    const api: RelayerApiExtensions
    var settleCount: nat
    var lastError: bool

    constructor (api: RelayerApiExtensions)
      ensures this.api == api && settleCount == 0 && !lastError
    {
      this.api, settleCount, lastError := api, 0, false;
    }

    /** Logs a landed batch; writing the log fails after `persisted` entries, if it does. */
    method LogBatch(st: Settlement, persisted: nat)
      modifies api.store`settled
      ensures api.store.settled ==
        old(api.store.settled) + Entries(st.startIndex, st.commitments)[..Min(persisted, |st.commitments|)]
    {
      ghost var es := Entries(st.startIndex, st.commitments);
      for i := 0 to |st.commitments|
        invariant i <= persisted
        invariant api.store.settled == old(api.store.settled) + es[..i]
      {
        if i == persisted {
          return;
        }
        api.store.AppendSettledCommitment(LogEntry(st.startIndex + i, st.commitments[i]));
        assert es[..i + 1] == es[..i] + [es[i]];
      }
    }

    /** One tick: prepare a settlement, submit it, log what landed. An error anywhere before the
        log ends the tick and is kept; an error in writing the log is not. */
    method Tick(first: Reads, second: Reads, proofOk: bool, landed: bool, persisted: nat)
      requires api.Valid() && InCapacity(first, api.depth) && InCapacity(second, api.depth)
      modifies this`settleCount, this`lastError
      modifies api`merkleTree, api`pendingCommitments, api`nextLeafIndex, api.merkleTree, api.store
      ensures api.Valid()
      ensures
        var (v, out) := TickReads(api.h, api.depth, api.maxBatch, api.maxPages, old(api.View()), first, second,
                                  proofOk, landed, persisted);
        && api.View() == v
        && match out
           case Ok(Some(_)) => settleCount == old(settleCount) + 1 && !lastError
           case Ok(None) => settleCount == old(settleCount) && lastError == old(lastError)
           case Err => settleCount == old(settleCount) && lastError
    {
      var settlement := api.SettlePendingDeposits(first, second, proofOk);
      if settlement.Err? {
        lastError := true;
        return;
      }
      if settlement.value.None? {
        return;
      }
      if !landed {
        lastError := true;
        return;
      }
      LogBatch(settlement.value.value, persisted);
      settleCount := settleCount + 1;
      lastError := false;
    }
  }
}
