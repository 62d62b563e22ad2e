/** What the methods of the relayer's objects do, as runs: a sync, a preparation and a whole tick are
    sequences of events that nothing overlaps, so what holds of every run holds of them. */
module TickLaws {
  import opened Results
  import opened Merkle
  import opened Protocol
  import opened SyncLaws
  import opened SettleLaws
  import opened Runs
  import opened EventScan
  import opened ApiExtensions

  // ----- what a scan finds -----

  /** Some event on the pages that may be read gives a commitment for index i. */
  ghost predicate Mentioned(events: seq<ChainEvent>, target: nat, i: nat) {
    exists e <- events :: Useful(e, target) && e.leafIndex.value == i
  }

  ghost predicate AllMentioned(events: seq<ChainEvent>, have: nat, target: nat) {
    forall i: nat :: have <= i < target ==> Mentioned(events, target, i)
  }

  lemma {:induction false} FirstForExact(events: seq<ChainEvent>, target: nat, i: nat)
    ensures FirstFor(events, target, i).Some? <==> Mentioned(events, target, i)
    ensures FirstFor(events, target, i).Some? ==>
      exists e <- events :: Useful(e, target) && e.leafIndex.value == i && e.commitment == FirstFor(events, target, i)
    decreases |events|
  {
    if events != [] {
      assert events == [events[0]] + events[1..];
      FirstForExact(events[1..], target, i);
      if Useful(events[0], target) && events[0].leafIndex.value == i { assert events[0] in events; }
    }
  }

  /** Every useful event on the pages tells the truth about a settled commitment. */
  predicate TruePages(total: seq<nat>, n: nat, pages: seq<Page>, maxPages: nat, target: nat) {
    n <= |total| && forall e <- FlattenPages(pages, maxPages) :: Useful(e, target) ==>
      e.leafIndex.value < n && e.commitment.value == total[e.leafIndex.value]
  }

  /** A scan of true pages finds only the truth, and finds all that is missing exactly when the pages
      it may read mention every missing leaf. */
  lemma ScanExact(total: seq<nat>, n: nat, pages: seq<Page>, maxPages: nat, target: nat, have: nat)
    requires TruePages(total, n, pages, maxPages, target)
    ensures
      var found := NotePages(map[], pages, maxPages, target);
      && TrueRecovery(total, found) && (forall i <- found :: i < n)
      && (Complete(have, target, found) <==> AllMentioned(FlattenPages(pages, maxPages), have, target))
  {
    var found, events := NotePages(map[], pages, maxPages, target), FlattenPages(pages, maxPages);
    NotePagesNotes(map[], pages, maxPages, target);
    forall i: nat
      ensures i in found <==> Mentioned(events, target, i)
      ensures i in found ==> i < n && found[i] == total[i]
    {
      FirstForExact(events, target, i);
      assert (if i in found then Some(found[i]) else None) == FirstFor(events, target, i);
    }
    assert Complete(have, target, found) <==> forall i: nat :: have <= i < target ==> i in found;
  }

  // ----- syncs and preparations -----

  function FoundOn(got: Reads, maxPages: nat, next: nat): map<nat, nat> {
    NotePages(map[], got.pages, maxPages, next)
  }

  /** The events of one sync, from the relayer state r. */
  function SyncEvents(h: Hash2, depth: nat, maxPages: nat, r: Relayer, id: nat, got: Reads): seq<Event> {
    if got.tree.None? || got.tree.value.Err? then []
    else
      var (next, root) := got.tree.value.value;
      var found := FoundOn(got, maxPages, next);
      match got.pendingBuffer
      case None => Alone(h, depth, r, id, Syncing, Snapshot(next, root, []), found)
      case Some(Err) => Alone(h, depth, r, id, BrokenSync, Snapshot(next, root, []), found)
      case Some(Ok(pending)) => Alone(h, depth, r, id, Syncing, Snapshot(next, root, pending), found)
  }

  /** The events of one preparation. */
  function PrepareEvents(h: Hash2, depth: nat, maxPages: nat, r: Relayer, id: nat, got: Reads): seq<Event> {
    if got.tree.None? || got.pendingBuffer.None? || got.tree.value.Err? || got.pendingBuffer.value.Err? then []
    else
      var (next, root) := got.tree.value.value;
      Alone(h, depth, r, id, Preparing, Snapshot(next, root, got.pendingBuffer.value.value), FoundOn(got, maxPages, next))
  }

  /** The events of settlePendingDeposits, up to its answer. */
  function SettleEvents(h: Hash2, depth: nat, maxPages: nat, r: Relayer, id: nat, first: Reads, second: Reads)
      : seq<Event>
  {
    SyncEvents(h, depth, maxPages, r, id, first)
      + PrepareEvents(h, depth, maxPages, SyncReads(r, first, maxPages), id, second)
  }

  lemma SyncReadsIsRun(h: Hash2, depth: nat, maxBatch: nat, maxPages: nat, w: World, id: nat, got: Reads)
    requires id !in w.tasks
    ensures Run(h, depth, maxBatch, w, SyncEvents(h, depth, maxPages, w.relayer, id, got))
         == w.(relayer := SyncReads(w.relayer, got, maxPages))
  {
    if got.tree.Some? && got.tree.value.Ok? {
      var (next, root) := got.tree.value.value;
      var found := FoundOn(got, maxPages, next);
      SyncAlone(h, depth, maxBatch, w, id, Snapshot(next, root, []), found);
      BrokenAlone(h, depth, maxBatch, w, id, Snapshot(next, root, []), found);
      if got.pendingBuffer.Some? && got.pendingBuffer.value.Ok? {
        SyncAlone(h, depth, maxBatch, w, id, Snapshot(next, root, got.pendingBuffer.value.value), found);
      }
    }
  }

  lemma PrepareReadsIsRun(h: Hash2, depth: nat, maxBatch: nat, maxPages: nat, w: World, id: nat, got: Reads)
    requires id !in w.tasks && w.inFlight.None?
    ensures
      var (v, out) := PrepareReads(h, depth, maxBatch, maxPages, w.relayer, got);
      Run(h, depth, maxBatch, w, PrepareEvents(h, depth, maxPages, w.relayer, id, got))
        == w.(relayer := v, inFlight := if out.Ok? then out.value else None)
  {
    if PrepareEvents(h, depth, maxPages, w.relayer, id, got) != [] {
      var (next, root) := got.tree.value.value;
      PrepareAlone(h, depth, maxBatch, w, id, Snapshot(next, root, got.pendingBuffer.value.value),
                   FoundOn(got, maxPages, next));
    }
  }

  /** settlePendingDeposits, while nothing overlaps it, is the run of its sync and its preparation. */
  lemma SettleReadsIsRun(h: Hash2, depth: nat, maxBatch: nat, maxPages: nat, w: World, id: nat, first: Reads,
                         second: Reads)
    requires id !in w.tasks && w.inFlight.None?
    ensures
      var (v, out) := SettleReads(h, depth, maxBatch, maxPages, w.relayer, first, second, true);
      Run(h, depth, maxBatch, w, SettleEvents(h, depth, maxPages, w.relayer, id, first, second))
        == w.(relayer := v, inFlight := if out.Ok? then out.value else None)
  {
    var synced := SyncReads(w.relayer, first, maxPages);
    SyncReadsIsRun(h, depth, maxBatch, maxPages, w, id, first);
    PrepareReadsIsRun(h, depth, maxBatch, maxPages, w.(relayer := synced), id, second);
    RunAppend(h, depth, maxBatch, w, SyncEvents(h, depth, maxPages, w.relayer, id, first),
              PrepareEvents(h, depth, maxPages, synced, id, second));
  }

  // ----- ticks -----

  /** The events of a tick: those of settlePendingDeposits, then the submission of what it put in
      flight lands or is dropped, as it is when the proof fails. */
  function TickEvents(h: Hash2, depth: nat, maxBatch: nat, maxPages: nat, r: Relayer, id: nat, first: Reads,
                      second: Reads, proofOk: bool, landed: bool, persisted: nat): seq<Event>
  {
    SettleEvents(h, depth, maxPages, r, id, first, second) +
      match SettleReads(h, depth, maxBatch, maxPages, r, first, second, true).1
      case Ok(Some(_)) => if proofOk && landed then [Land(persisted)] else [Drop]
      case _ => []
  }

  lemma SubmissionEnds(h: Hash2, depth: nat, maxBatch: nat, w: World, v: Relayer, st: Settlement, lands: bool,
                       persisted: nat)
    requires w.inFlight.None?
    ensures
      var log := v.log + Entries(st.startIndex, st.commitments)[..Min(persisted, |st.commitments|)];
      Step(h, depth, maxBatch, w.(relayer := v, inFlight := Some(st)), if lands then Land(persisted) else Drop)
        == if lands then Settled(w, st).(relayer := v.(log := log)) else w.(relayer := v)
  {}

  /** A tick, while nothing overlaps it, is that run: the relayer ends as the run leaves it, and the
      chain has settled what landed. */
  lemma TickIsRun(h: Hash2, depth: nat, maxBatch: nat, maxPages: nat, w: World, id: nat, first: Reads, second: Reads,
                  proofOk: bool, landed: bool, persisted: nat)
    requires id !in w.tasks && w.inFlight.None?
    ensures
      var (v, out) := TickReads(h, depth, maxBatch, maxPages, w.relayer, first, second, proofOk, landed, persisted);
      var w' := Run(h, depth, maxBatch, w,
                    TickEvents(h, depth, maxBatch, maxPages, w.relayer, id, first, second, proofOk, landed, persisted));
      w' == (match out case Ok(Some(st)) => Settled(w, st) case _ => w).(relayer := v)
  {
    var (v, out) := SettleReads(h, depth, maxBatch, maxPages, w.relayer, first, second, true);
    var settle := SettleEvents(h, depth, maxPages, w.relayer, id, first, second);
    SettleReadsIsRun(h, depth, maxBatch, maxPages, w, id, first, second);
    if out.Ok? && out.value.Some? {
      var lands := proofOk && landed;
      RunExtend(h, depth, maxBatch, w, settle, if lands then Land(persisted) else Drop);
      SubmissionEnds(h, depth, maxBatch, w, v, out.value.value, lands, persisted);
    } else {
      assert settle + [] == settle;
    }
  }

  /** The settlement that a preparation is asked for fails: after the recovery the roots still differ,
      or the batch does not fit. */
  ghost predicate CannotPrepare(h: Hash2, depth: nat, maxBatch: nat, r: Relayer, s: Snapshot, found: map<nat, nat>) {
    var r1 := if Root(h, depth, r.leaves) == s.root then r else Recover(r, s.next, found);
    Root(h, depth, r1.leaves) != s.root || !BatchFits(depth, maxBatch, r1.leaves, s)
  }

  /** How a tick ends: with nothing to settle exactly when an account is missing or nothing is
      pending; with an error exactly when an account does not parse, the roots differ, the batch does
      not fit, the proof fails or the submission does; otherwise with a settlement. */
  lemma TickOutcome(h: Hash2, depth: nat, maxBatch: nat, maxPages: nat, r: Relayer, first: Reads, second: Reads,
                    proofOk: bool, landed: bool, persisted: nat)
    requires maxBatch > 0
    ensures
      var out := TickReads(h, depth, maxBatch, maxPages, r, first, second, proofOk, landed, persisted).1;
      if second.tree.None? || second.pendingBuffer.None? then out == Ok(None)
      else if second.tree.value.Err? || second.pendingBuffer.value.Err? then out == Err
      else
        var (next, root) := second.tree.value.value;
        var s := Snapshot(next, root, second.pendingBuffer.value.value);
        && (out == Ok(None) <==> s.pending == [])
        && (out.Err? <==>
              (&& s.pending != []
               && (|| CannotPrepare(h, depth, maxBatch, SyncReads(r, first, maxPages), s,
                                    FoundOn(second, maxPages, next))
                   || !proofOk || !landed)))
  {
    if second.tree.Some? && second.tree.value.Ok? && second.pendingBuffer.Some? && second.pendingBuffer.value.Ok? {
      var (next, root) := second.tree.value.value;
      PrepareOutcome(h, depth, maxBatch, SyncReads(r, first, maxPages),
                     Snapshot(next, root, second.pendingBuffer.value.value), FoundOn(second, maxPages, next));
    }
  }

  /** What the accounts and pages answered was true of the chain at some moment. */
  predicate TrueReads(w: World, got: Reads, maxPages: nat) {
    got.tree.Some? && got.tree.value.Ok? ==>
      var (next, root) := got.tree.value.value;
      && TruePages(w.total, w.settled, got.pages, maxPages, next)
      && TrueSnapshot(w, Snapshot(next, root, []))
      && (got.pendingBuffer.Some? && got.pendingBuffer.value.Ok? ==>
            TrueSnapshot(w, Snapshot(next, root, got.pendingBuffer.value.value)))
  }

  lemma SyncIsPossible(h: Hash2, depth: nat, maxBatch: nat, maxPages: nat, w: World, id: nat, got: Reads)
    requires id !in w.tasks && TrueReads(w, got, maxPages)
    ensures Possible(h, depth, maxBatch, w, SyncEvents(h, depth, maxPages, w.relayer, id, got))
  {
    if got.tree.Some? && got.tree.value.Ok? {
      var (next, root) := got.tree.value.value;
      var found := FoundOn(got, maxPages, next);
      ScanExact(w.total, w.settled, got.pages, maxPages, next, 0);
      AlonePossible(h, depth, maxBatch, w, id, Syncing, Snapshot(next, root, []), found);
      AlonePossible(h, depth, maxBatch, w, id, BrokenSync, Snapshot(next, root, []), found);
      if got.pendingBuffer.Some? && got.pendingBuffer.value.Ok? {
        AlonePossible(h, depth, maxBatch, w, id, Syncing, Snapshot(next, root, got.pendingBuffer.value.value), found);
      }
    }
  }

  /** A preparation that nothing overlaps answers with a safe settlement, if with any. */
  lemma PrepareIsSafe(h: Hash2, depth: nat, maxBatch: nat, w: World, r: Relayer, s: Snapshot,
                      recovered: map<nat, nat>, st: Settlement)
    requires Sound(h, depth, w) && Bounded(depth, w.settled, r) && TrueSnapshot(w, s) && maxBatch > 0
    requires Prepare(h, depth, maxBatch, r, s, recovered).1 == Ok(Some(st))
    ensures
      var leaves := Prepare(h, depth, maxBatch, r, s, recovered).0.leaves;
      s.next == w.settled || |leaves| <= s.next ==> SafeSettlement(h, depth, w, leaves, s, st)
  {
    var r1 := if NeedsScan(h, depth, r, Preparing, s) then Recover(r, s.next, recovered) else r;
    assert Propose(h, depth, maxBatch, r1, s) == Prepare(h, depth, maxBatch, r, s, recovered);
    ProposedIsBuilt(h, depth, maxBatch, r1, s, st);
    BuiltHasRoom(h, depth, maxBatch, r1.leaves, s, st);
    RecoverIsBounded(depth, w.settled, r, s.next, recovered);
    if |r1.leaves| <= s.next { BuiltIsSafe(h, depth, maxBatch, w, r1.leaves, s, st); }
  }

  /** After any run, with true reads, settlePendingDeposits puts forward only safe settlements, as
      long as its second read is current or the tree it ends with is no longer than startIndex. */
  lemma SettlePendingIsSafe(h: Hash2, depth: nat, maxBatch: nat, maxPages: nat, es: seq<Event>, id: nat, first: Reads,
                            second: Reads, st: Settlement)
    requires Possible(h, depth, maxBatch, Init(h, depth), es) && maxBatch > 0
    requires var w := Run(h, depth, maxBatch, Init(h, depth), es);
      && id !in w.tasks && TrueReads(w, first, maxPages) && TrueReads(w, second, maxPages)
      && SettleReads(h, depth, maxBatch, maxPages, w.relayer, first, second, true).1 == Ok(Some(st))
    ensures
      var w := Run(h, depth, maxBatch, Init(h, depth), es);
      var v := SettleReads(h, depth, maxBatch, maxPages, w.relayer, first, second, true).0;
      var (next, root) := second.tree.value.value;
      next == w.settled || |v.leaves| <= next ==>
        SafeSettlement(h, depth, w, v.leaves, Snapshot(next, root, second.pendingBuffer.value.value), st)
  {
    var w := Run(h, depth, maxBatch, Init(h, depth), es);
    var sync := SyncEvents(h, depth, maxPages, w.relayer, id, first);
    var (next, root) := second.tree.value.value;
    SyncIsPossible(h, depth, maxBatch, maxPages, w, id, first);
    SyncReadsIsRun(h, depth, maxBatch, maxPages, w, id, first);
    RunAppend(h, depth, maxBatch, Init(h, depth), es, sync);
    RunIsSound(h, depth, maxBatch, es);
    RunIsBounded(h, depth, maxBatch, es + sync);
    PrepareIsSafe(h, depth, maxBatch, w, SyncReads(w.relayer, first, maxPages),
                  Snapshot(next, root, second.pendingBuffer.value.value), FoundOn(second, maxPages, next), st);
  }
}
