/** Whole runs of the chain, other sequencers and one relayer, whose syncs and preparations overlap
    at every point where they wait. */
module Runs {
  import opened Results
  import opened Merkle
  import opened SparseTree
  import opened TreeLaws
  import opened Protocol
  import opened SyncLaws
  import opened SettleLaws

  datatype Kind =
    | Syncing
    | BrokenSync      // a sync whose pending buffer does not parse
    | Preparing       // the part of settlePendingDeposits after its sync

  /** An operation that waits for its event scan, or has inserted what the scan found and waits to
      be resumed. Between two waits nothing else runs. */
  datatype Task = Task(kind: Kind, read: Snapshot, inserted: bool)

  datatype World = World(
    total: seq<nat>,                  // every commitment ever deposited, in order
    settled: nat,                     // how many of them are leaves of the on-chain tree
    roots: map<nat, nat>,             // the on-chain root recorded at each settled count reached
    accepted: seq<Settlement>,        // the settlements that the chain has accepted, in order
    relayer: Relayer,
    tasks: map<nat, Task>,            // operations under way
    inFlight: Option<Settlement>)     // what the sequencer is submitting

  datatype Event =
    | Deposit(commitment: nat)
    | SettledByOthers(st: Settlement)
    | Arrive(id: nat, kind: Kind, read: Snapshot)     // the replies to an operation's account reads
    | Scanned(id: nat, recovered: map<nat, nat>)      // its event scan ends
    | Resume(id: nat)
    | ScanFails(id: nat)                              // its event scan throws
    | Land(persisted: nat)            // the submission is confirmed and its first entries are logged
    | Drop                            // the submission fails
    | Restart

  function Init(h: Hash2, depth: nat): World {
    World([], 0, map[0 := Zero(h, depth)], [], Relayer([], Cursor(0, []), [], None, []), map[], None)
  }

  /** The chain accepts a batch only for its current root and next index and the first pending
      commitments, with a chained witness. */
  ghost predicate Accepts(h: Hash2, depth: nat, w: World, st: Settlement) {
    var n := w.settled + |st.commitments|;
    && st.startIndex == w.settled && n <= |w.total| && n <= Pow2(depth)
    && st.commitments != [] && st.commitments == w.total[w.settled..n]
    && w.settled in w.roots
    && ChainedWitness(h, depth, w.roots[w.settled], st.newRoot, w.settled, st.commitments, st.paths)
  }

  function Settled(w: World, st: Settlement): World {
    var n := w.settled + |st.commitments|;
    w.(settled := n, roots := w.roots[n := st.newRoot], accepted := w.accepted + [st])
  }

  /** A read of the two accounts at one moment of the chain's past or present. */
  predicate TrueSnapshot(w: World, s: Snapshot) {
    && s.next <= w.settled && s.next in w.roots && s.root == w.roots[s.next]
    && TrueCursor(w.total, Cursor(s.next, s.pending))
  }

  predicate TrueScan(w: World, recovered: map<nat, nat>) {
    TrueRecovery(w.total, recovered) && forall i <- recovered :: i < w.settled
  }

  predicate Waits(w: World, id: nat, inserted: bool) {
    id in w.tasks && w.tasks[id].inserted == inserted
  }

  /** What the environment can do. Scans may find any part of the truth, reads may be old. The
      sequencer prepares nothing while it submits. */
  ghost predicate Enabled(h: Hash2, depth: nat, w: World, e: Event) {
    match e
    case Deposit(_) => true
    case SettledByOthers(st) => Accepts(h, depth, w, st)
    case Arrive(id, kind, s) => id !in w.tasks && TrueSnapshot(w, s) && (kind.Preparing? ==> w.inFlight.None?)
    case Scanned(id, recovered) => Waits(w, id, false) && TrueScan(w, recovered)
    case Resume(id) => Waits(w, id, true)
    case ScanFails(id) => Waits(w, id, false)
    case Land(persisted) =>
      && w.inFlight.Some? && Accepts(h, depth, w, w.inFlight.value)
      && persisted <= |w.inFlight.value.commitments|
    case Drop => w.inFlight.Some?
    case Restart => true
  }

  /** An operation whose reads have arrived looks for missing leaves first. */
  function NeedsScan(h: Hash2, depth: nat, r: Relayer, kind: Kind, s: Snapshot): bool {
    if kind.Preparing? then s.pending != [] && Root(h, depth, r.leaves) != s.root
    else |r.leaves| < s.next
  }

  /** The rest of an operation, after its recovery stage. */
  function Finished(h: Hash2, depth: nat, maxBatch: nat, w: World, kind: Kind, s: Snapshot): World {
    match kind
    case Syncing => w.(relayer := Settle(w.relayer, s))
    case BrokenSync => w
    case Preparing =>
      var (r, out) := Propose(h, depth, maxBatch, w.relayer, s);
      w.(relayer := r, inFlight := if out.Ok? then out.value else None)
  }

  function Arrived(h: Hash2, depth: nat, maxBatch: nat, w: World, id: nat, kind: Kind, s: Snapshot): World {
    if NeedsScan(h, depth, w.relayer, kind, s) then w.(tasks := w.tasks[id := Task(kind, s, false)])
    else if !kind.Preparing? && |w.relayer.leaves| > s.next then
      Finished(h, depth, maxBatch, w.(relayer := Reset()), kind, s)
    else Finished(h, depth, maxBatch, w, kind, s)
  }

  function Step(h: Hash2, depth: nat, maxBatch: nat, w: World, e: Event): World {
    match e
    case Deposit(c) => w.(total := w.total + [c])
    case SettledByOthers(st) => Settled(w, st)
    case Arrive(id, kind, s) => Arrived(h, depth, maxBatch, w, id, kind, s)
    case Scanned(id, recovered) =>
      if id !in w.tasks then w
      else
        var t := w.tasks[id];
        w.(relayer := Recover(w.relayer, t.read.next, recovered), tasks := w.tasks[id := t.(inserted := true)])
    case Resume(id) =>
      if id !in w.tasks then w
      else
        var t := w.tasks[id];
        Finished(h, depth, maxBatch, w.(tasks := w.tasks - {id}), t.kind, t.read)
    case ScanFails(id) => w.(tasks := w.tasks - {id})
    case Land(persisted) =>
      if w.inFlight.None? then w
      else
        var st := w.inFlight.value;
        var es := Entries(st.startIndex, st.commitments);
        var r := w.relayer;
        Settled(w, st).(inFlight := None, relayer := r.(log := r.log + es[..Min(persisted, |es|)]))
    case Drop => w.(inFlight := None)
    case Restart => w.(relayer := Restarted(w.relayer), tasks := map[], inFlight := None)
  }

  function Run(h: Hash2, depth: nat, maxBatch: nat, w: World, es: seq<Event>): World
    decreases |es|
  {
    if es == [] then w else Step(h, depth, maxBatch, Run(h, depth, maxBatch, w, es[..|es| - 1]), es[|es| - 1])
  }

  ghost predicate Possible(h: Hash2, depth: nat, maxBatch: nat, w: World, es: seq<Event>)
    decreases |es|
  {
    es == [] ||
    (&& Possible(h, depth, maxBatch, w, es[..|es| - 1])
     && Enabled(h, depth, Run(h, depth, maxBatch, w, es[..|es| - 1]), es[|es| - 1]))
  }

  lemma RunExtend(h: Hash2, depth: nat, maxBatch: nat, w: World, es: seq<Event>, e: Event)
    ensures Run(h, depth, maxBatch, w, es + [e]) == Step(h, depth, maxBatch, Run(h, depth, maxBatch, w, es), e)
    ensures Possible(h, depth, maxBatch, w, es + [e]) <==>
      Possible(h, depth, maxBatch, w, es) && Enabled(h, depth, Run(h, depth, maxBatch, w, es), e)
  {
    assert (es + [e])[..|es|] == es;
  }

  lemma {:induction false} RunAppend(h: Hash2, depth: nat, maxBatch: nat, w: World, a: seq<Event>, b: seq<Event>)
    ensures Run(h, depth, maxBatch, w, a + b) == Run(h, depth, maxBatch, Run(h, depth, maxBatch, w, a), b)
    ensures Possible(h, depth, maxBatch, w, a + b) <==>
      Possible(h, depth, maxBatch, w, a) && Possible(h, depth, maxBatch, Run(h, depth, maxBatch, w, a), b)
    decreases |b|
  {
    if b == [] {
      assert a + b == a;
    } else {
      var front, e := b[..|b| - 1], b[|b| - 1];
      assert a + b == (a + front) + [e] && b == front + [e];
      RunAppend(h, depth, maxBatch, w, a, front);
      RunExtend(h, depth, maxBatch, w, a + front, e);
      RunExtend(h, depth, maxBatch, Run(h, depth, maxBatch, w, a), front, e);
    }
  }

  // ----- operations that nothing overlaps -----

  /** The events of one operation: the scan and what follows it only where it is needed. */
  function Alone(h: Hash2, depth: nat, r: Relayer, id: nat, kind: Kind, s: Snapshot, recovered: map<nat, nat>): seq<Event> {
    if NeedsScan(h, depth, r, kind, s) then [Arrive(id, kind, s), Scanned(id, recovered), Resume(id)]
    else [Arrive(id, kind, s)]
  }

  lemma RunThree(h: Hash2, depth: nat, maxBatch: nat, w: World, a: Event, b: Event, c: Event)
    ensures Run(h, depth, maxBatch, w, [a]) == Step(h, depth, maxBatch, w, a)
    ensures Run(h, depth, maxBatch, w, [a, b, c])
         == Step(h, depth, maxBatch, Step(h, depth, maxBatch, Step(h, depth, maxBatch, w, a), b), c)
  {
    RunExtend(h, depth, maxBatch, w, [], a);
    RunExtend(h, depth, maxBatch, w, [a], b);
    RunExtend(h, depth, maxBatch, w, [a, b], c);
    assert [] + [a] == [a] && [a] + [b] == [a, b] && [a, b] + [c] == [a, b, c];
  }

  lemma PossibleThree(h: Hash2, depth: nat, maxBatch: nat, w: World, a: Event, b: Event, c: Event)
    ensures Possible(h, depth, maxBatch, w, [a]) <==> Enabled(h, depth, w, a)
    ensures
      var w1 := Step(h, depth, maxBatch, w, a);
      var w2 := Step(h, depth, maxBatch, w1, b);
      Possible(h, depth, maxBatch, w, [a, b, c]) <==>
        Enabled(h, depth, w, a) && Enabled(h, depth, w1, b) && Enabled(h, depth, w2, c)
  {
    RunThree(h, depth, maxBatch, w, a, b, c);
    RunExtend(h, depth, maxBatch, w, [], a);
    RunExtend(h, depth, maxBatch, w, [a], b);
    RunExtend(h, depth, maxBatch, w, [a, b], c);
    assert [] + [a] == [a] && [a] + [b] == [a, b] && [a, b] + [c] == [a, b, c];
  }

  /** Any true read and scan can meet an operation that nothing overlaps. */
  lemma AlonePossible(h: Hash2, depth: nat, maxBatch: nat, w: World, id: nat, kind: Kind, s: Snapshot,
                      recovered: map<nat, nat>)
    requires id !in w.tasks && TrueSnapshot(w, s) && TrueScan(w, recovered)
    requires kind.Preparing? ==> w.inFlight.None?
    ensures Possible(h, depth, maxBatch, w, Alone(h, depth, w.relayer, id, kind, s, recovered))
  {
    PossibleThree(h, depth, maxBatch, w, Arrive(id, kind, s), Scanned(id, recovered), Resume(id));
  }

  /** A sync whose pending buffer does not parse is its recovery stage alone. */
  lemma BrokenAlone(h: Hash2, depth: nat, maxBatch: nat, w: World, id: nat, s: Snapshot, recovered: map<nat, nat>)
    requires id !in w.tasks
    ensures Run(h, depth, maxBatch, w, Alone(h, depth, w.relayer, id, BrokenSync, s, recovered))
         == w.(relayer := Recovered(w.relayer, s, recovered))
  {
    RunThree(h, depth, maxBatch, w, Arrive(id, BrokenSync, s), Scanned(id, recovered), Resume(id));
    assert w.tasks[id := Task(BrokenSync, s, false)][id := Task(BrokenSync, s, true)] - {id} == w.tasks;
  }

  /** A sync that nothing overlaps is the one step Sync. */
  lemma SyncAlone(h: Hash2, depth: nat, maxBatch: nat, w: World, id: nat, s: Snapshot, recovered: map<nat, nat>)
    requires id !in w.tasks
    ensures Run(h, depth, maxBatch, w, Alone(h, depth, w.relayer, id, Syncing, s, recovered))
         == w.(relayer := Sync(w.relayer, s, recovered))
  {
    RunThree(h, depth, maxBatch, w, Arrive(id, Syncing, s), Scanned(id, recovered), Resume(id));
    assert w.tasks[id := Task(Syncing, s, false)][id := Task(Syncing, s, true)] - {id} == w.tasks;
  }

  /** A preparation that nothing overlaps is the one step Prepare. */
  lemma PrepareAlone(h: Hash2, depth: nat, maxBatch: nat, w: World, id: nat, s: Snapshot, recovered: map<nat, nat>)
    requires id !in w.tasks
    ensures
      var (r, out) := Prepare(h, depth, maxBatch, w.relayer, s, recovered);
      Run(h, depth, maxBatch, w, Alone(h, depth, w.relayer, id, Preparing, s, recovered))
        == w.(relayer := r, inFlight := if out.Ok? then out.value else None)
  {
    RunThree(h, depth, maxBatch, w, Arrive(id, Preparing, s), Scanned(id, recovered), Resume(id));
    assert w.tasks[id := Task(Preparing, s, false)][id := Task(Preparing, s, true)] - {id} == w.tasks;
  }

  // ----- every run -----

  /** A settlement that the chain accepted on the way to k settled commitments carries a path that
      collides with the true one. */
  ghost predicate Tainted(h: Hash2, depth: nat, w: World, k: nat) {
    k <= |w.total| && exists st <- w.accepted :: TaintedBy(h, depth, w.total, st, k)
  }

  ghost predicate TaintedBy(h: Hash2, depth: nat, total: seq<nat>, st: Settlement, k: nat) {
    && st.startIndex + |st.commitments| <= k <= |total|
    && WitnessCollides(h, depth, total[..st.startIndex], st.commitments, st.paths)
  }

  lemma TaintStays(h: Hash2, depth: nat, w: World, w': World, k: nat, k': nat)
    requires Tainted(h, depth, w, k) && w.total <= w'.total && w.accepted <= w'.accepted && k <= k' <= |w'.total|
    ensures Tainted(h, depth, w', k')
  {
    var st :| st in w.accepted && TaintedBy(h, depth, w.total, st, k);
    assert w'.total[..st.startIndex] == w.total[..st.startIndex];
    assert TaintedBy(h, depth, w'.total, st, k');
  }

  /** The root recorded at k settled commitments is the root of those, or an accepted witness on
      the way there contains a collision. */
  ghost predicate RootIsTrue(h: Hash2, depth: nat, w: World, k: nat) {
    && k <= w.settled <= |w.total| && k in w.roots
    && (w.roots[k] == Root(h, depth, w.total[..k]) || Tainted(h, depth, w, k))
  }

  /** Every recorded root is true, every read in use was true when it was made, and the relayer's
      log names only settled commitments, each at its own index. */
  ghost predicate Sound(h: Hash2, depth: nat, w: World) {
    && w.settled <= |w.total| && w.settled <= Pow2(depth) && w.settled in w.roots
    && (forall k <- w.roots :: RootIsTrue(h, depth, w, k))
    && (forall id <- w.tasks :: TrueSnapshot(w, w.tasks[id].read))
    && TrueLog(w.total, w.settled, w.relayer.log)
  }

  /** The chain has moved on from w to w', keeping what it had. */
  ghost predicate Extends(w: World, w': World) {
    && w.total <= w'.total && w.settled <= w'.settled <= |w'.total| && w.accepted <= w'.accepted
    && forall k <- w.roots :: k in w'.roots && w'.roots[k] == w.roots[k]
  }

  lemma RootStaysTrue(h: Hash2, depth: nat, w: World, w': World, k: nat)
    requires RootIsTrue(h, depth, w, k) && Extends(w, w')
    ensures RootIsTrue(h, depth, w', k)
  {
    assert w'.total[..k] == w.total[..k];
    if Tainted(h, depth, w, k) { TaintStays(h, depth, w, w', k, k); }
  }

  lemma SnapshotStaysTrue(w: World, w': World, s: Snapshot)
    requires TrueSnapshot(w, s) && Extends(w, w')
    ensures TrueSnapshot(w', s)
  {
    var n := s.next + |s.pending|;
    assert w'.total[s.next..n] == w.total[s.next..n];
  }

  lemma SoundStays(h: Hash2, depth: nat, w: World, w': World)
    requires Sound(h, depth, w) && Extends(w, w') && w'.tasks == w.tasks
    ensures forall k <- w.roots :: RootIsTrue(h, depth, w', k)
    ensures forall id <- w'.tasks :: TrueSnapshot(w', w'.tasks[id].read)
    ensures TrueLog(w'.total, w'.settled, w.relayer.log)
  {
    forall k | k in w.roots ensures RootIsTrue(h, depth, w', k) {
      RootStaysTrue(h, depth, w, w', k);
    }
    forall id | id in w.tasks ensures TrueSnapshot(w', w.tasks[id].read) {
      SnapshotStaysTrue(w, w', w.tasks[id].read);
    }
  }

  lemma AcceptedRoot(h: Hash2, depth: nat, w: World, st: Settlement)
    requires Accepts(h, depth, w, st) && w.roots[w.settled] == Root(h, depth, w.total[..w.settled])
    ensures var n := w.settled + |st.commitments|;
      st.newRoot == Root(h, depth, w.total[..n]) || TaintedBy(h, depth, w.total, st, n)
  {
    WitnessBindsNewRoot(h, depth, st.newRoot, w.total[..w.settled], st.commitments, st.paths);
    assert w.total[..w.settled] + st.commitments == w.total[..w.settled + |st.commitments|];
  }

  lemma NewTaint(h: Hash2, depth: nat, w: World, st: Settlement)
    requires TaintedBy(h, depth, w.total, st, w.settled + |st.commitments|)
    ensures Tainted(h, depth, Settled(w, st), w.settled + |st.commitments|)
  {
    assert st in Settled(w, st).accepted;
  }

  /** A settlement that starts from a true root records a true root. */
  lemma NewRootIsTrue(h: Hash2, depth: nat, w: World, st: Settlement)
    requires RootIsTrue(h, depth, w, w.settled) && Accepts(h, depth, w, st)
    ensures RootIsTrue(h, depth, Settled(w, st), w.settled + |st.commitments|)
  {
    var w', n := Settled(w, st), w.settled + |st.commitments|;
    if Tainted(h, depth, w, w.settled) {
      TaintStays(h, depth, w, w', w.settled, n);
    } else {
      AcceptedRoot(h, depth, w, st);
      if TaintedBy(h, depth, w.total, st, n) { NewTaint(h, depth, w, st); }
    }
  }

  lemma SettledIsSound(h: Hash2, depth: nat, w: World, st: Settlement)
    requires Sound(h, depth, w) && Accepts(h, depth, w, st)
    ensures Sound(h, depth, Settled(w, st)) && Extends(w, Settled(w, st))
  {
    var w' := Settled(w, st);
    assert forall k <- w.roots :: RootIsTrue(h, depth, w, k) && k <= w.settled;
    SoundStays(h, depth, w, w');
    NewRootIsTrue(h, depth, w, st);
  }

  /** What the relayer does leaves the chain as it was. */
  lemma RelayerStepIsSound(h: Hash2, depth: nat, w: World, w': World)
    requires Sound(h, depth, w)
    requires w' == w.(relayer := w'.relayer, tasks := w'.tasks, inFlight := w'.inFlight)
    requires TrueLog(w.total, w.settled, w'.relayer.log)
    requires forall id <- w'.tasks :: TrueSnapshot(w, w'.tasks[id].read)
    ensures Sound(h, depth, w')
  {
    SoundStays(h, depth, w, w'.(tasks := w.tasks));
    forall k | k in w.roots ensures RootIsTrue(h, depth, w', k) {
      RootStaysTrue(h, depth, w, w', k);
    }
    forall id | id in w'.tasks ensures TrueSnapshot(w', w'.tasks[id].read) {
      SnapshotStaysTrue(w, w', w'.tasks[id].read);
    }
  }

  /** Logging part of a settled batch keeps a true log true. */
  lemma LandedLog(total: seq<nat>, n: nat, log: seq<LogEntry>, cs: seq<nat>, persisted: nat)
    requires TrueLog(total, n, log) && n + |cs| <= |total| && cs == total[n..n + |cs|] && persisted <= |cs|
    ensures TrueLog(total, n + |cs|, log + Entries(n, cs)[..persisted])
  {
    var es := Entries(n, cs)[..persisted];
    forall e | e in log + es ensures e.leafIndex < n + |cs| && e.commitment == total[e.leafIndex] {
      if e in es { var i :| 0 <= i < |es| && es[i] == e; }
    }
  }

  lemma LandIsSound(h: Hash2, depth: nat, maxBatch: nat, w: World, persisted: nat)
    requires Sound(h, depth, w) && Enabled(h, depth, w, Land(persisted))
    ensures Sound(h, depth, Step(h, depth, maxBatch, w, Land(persisted)))
  {
    var st := w.inFlight.value;
    SettledIsSound(h, depth, w, st);
    LandedLog(w.total, w.settled, w.relayer.log, st.commitments, persisted);
    RelayerStepIsSound(h, depth, Settled(w, st), Step(h, depth, maxBatch, w, Land(persisted)));
  }

  lemma StepIsSound(h: Hash2, depth: nat, maxBatch: nat, w: World, e: Event)
    requires Sound(h, depth, w) && Enabled(h, depth, w, e)
    ensures Sound(h, depth, Step(h, depth, maxBatch, w, e))
  {
    match e
    case Deposit(c) => SoundStays(h, depth, w, w.(total := w.total + [c]));
    case SettledByOthers(st) => SettledIsSound(h, depth, w, st);
    case Land(persisted) => LandIsSound(h, depth, maxBatch, w, persisted);
    case _ => RelayerStepIsSound(h, depth, w, Step(h, depth, maxBatch, w, e));
  }

  lemma {:induction false} RunIsSound(h: Hash2, depth: nat, maxBatch: nat, es: seq<Event>)
    requires Possible(h, depth, maxBatch, Init(h, depth), es)
    ensures Sound(h, depth, Run(h, depth, maxBatch, Init(h, depth), es))
    decreases |es|
  {
    if es == [] {
      EmptyNode(h, depth, 0);
    } else {
      RunIsSound(h, depth, maxBatch, es[..|es| - 1]);
      StepIsSound(h, depth, maxBatch, Run(h, depth, maxBatch, Init(h, depth), es[..|es| - 1]), es[|es| - 1]);
    }
  }

  // ----- settlement safety -----

  /** The settlement is for the first pending commitments of the read, the chain accepts it if the
      read is current, and its new root is the root of the settled leaves followed by them; or
      else the tree over `leaves`, which it was built on, collides with the tree of the settled
      leaves, or a witness that the chain accepted before collides with the true paths. */
  ghost predicate SafeSettlement(h: Hash2, depth: nat, w: World, leaves: seq<nat>, s: Snapshot, st: Settlement) {
    var n := s.next + |st.commitments|;
    && n <= |w.total| && st.commitments == w.total[s.next..n] && st.commitments != []
    && (s.next == w.settled ==> Accepts(h, depth, w, st))
    && (|| st.newRoot == Root(h, depth, w.total[..n])
        || TreesCollide(h, depth, leaves, w.total[..s.next])
        || Tainted(h, depth, w, s.next))
  }

  lemma BuiltIsSafe(h: Hash2, depth: nat, maxBatch: nat, w: World, leaves: seq<nat>, s: Snapshot, st: Settlement)
    requires Sound(h, depth, w) && TrueSnapshot(w, s) && maxBatch > 0
    requires Built(h, depth, maxBatch, leaves, s, st) && |leaves| <= s.next
    ensures SafeSettlement(h, depth, w, leaves, s, st)
  {
    BuiltWitness(h, depth, maxBatch, leaves, s, st);
    FirstPending(w.total, s, |st.commitments|);
    assert RootIsTrue(h, depth, w, s.next);
    if !Tainted(h, depth, w, s.next) {
      BuiltRootIsRight(h, depth, maxBatch, w.total, leaves, s, st);
    }
  }

  /** The operation of kind `kind` on read s ends in this event: it needs no scan, or is resumed. */
  predicate Ends(h: Hash2, depth: nat, w: World, e: Event, kind: Kind, s: Snapshot) {
    || (e.Arrive? && e.kind == kind && e.read == s && !NeedsScan(h, depth, w.relayer, kind, s))
    || (e.Resume? && e.id in w.tasks && w.tasks[e.id] == Task(kind, s, true))
  }

  /** A leaf list is no longer than the settled sequence, unless an overflowing batch has filled the
      tree. */
  predicate InBound(depth: nat, n: nat, leaves: seq<nat>) {
    |leaves| <= n || |leaves| == Pow2(depth)
  }

  predicate Bounded(depth: nat, n: nat, r: Relayer) {
    InBound(depth, n, r.leaves) && InBound(depth, n, r.savedLeaves)
  }

  lemma SettleIsBounded(depth: nat, n: nat, r: Relayer, s: Snapshot)
    requires Bounded(depth, n, r) && s.next <= n
    ensures Bounded(depth, n, Settle(r, s))
  {
    if |r.leaves| >= s.next { InferredSlice(r, s); }
  }

  lemma RecoverIsBounded(depth: nat, n: nat, r: Relayer, target: nat, recovered: map<nat, nat>)
    requires Bounded(depth, n, r) && target <= n
    ensures Bounded(depth, n, Recover(r, target, recovered))
  {}

  lemma ProposeIsBounded(h: Hash2, depth: nat, maxBatch: nat, n: nat, r: Relayer, s: Snapshot)
    requires Bounded(depth, n, r) && s.next <= n <= Pow2(depth)
    ensures Bounded(depth, n, Propose(h, depth, maxBatch, r, s).0)
  {}

  lemma FinishedIsBounded(h: Hash2, depth: nat, maxBatch: nat, w: World, kind: Kind, s: Snapshot)
    requires Bounded(depth, w.settled, w.relayer) && s.next <= w.settled <= Pow2(depth)
    ensures Bounded(depth, w.settled, Finished(h, depth, maxBatch, w, kind, s).relayer)
  {
    match kind
    case Syncing => SettleIsBounded(depth, w.settled, w.relayer, s);
    case BrokenSync =>
    case Preparing => ProposeIsBounded(h, depth, maxBatch, w.settled, w.relayer, s);
  }

  lemma StepIsBounded(h: Hash2, depth: nat, maxBatch: nat, w: World, e: Event)
    requires Sound(h, depth, w) && Enabled(h, depth, w, e) && Bounded(depth, w.settled, w.relayer)
    ensures var w' := Step(h, depth, maxBatch, w, e); Bounded(depth, w'.settled, w'.relayer)
  {
    match e
    case Arrive(id, kind, s) =>
      FinishedIsBounded(h, depth, maxBatch, w, kind, s);
      FinishedIsBounded(h, depth, maxBatch, w.(relayer := Reset()), kind, s);
    case Scanned(id, recovered) =>
      RecoverIsBounded(depth, w.settled, w.relayer, w.tasks[id].read.next, recovered);
    case Resume(id) =>
      FinishedIsBounded(h, depth, maxBatch, w.(tasks := w.tasks - {id}), w.tasks[id].kind, w.tasks[id].read);
    case Restart => ReplayLeaves(w.total, w.settled, w.relayer.log);
    case _ =>
  }

  /** In every run, with whatever stale reads, partial scans and restarts, the local tree and its
      saved copy stay within the settled count, short of a tree filled by an overflowing batch. */
  lemma {:induction false} RunIsBounded(h: Hash2, depth: nat, maxBatch: nat, es: seq<Event>)
    requires Possible(h, depth, maxBatch, Init(h, depth), es)
    ensures var w := Run(h, depth, maxBatch, Init(h, depth), es); Bounded(depth, w.settled, w.relayer)
    decreases |es|
  {
    if es != [] {
      RunIsSound(h, depth, maxBatch, es[..|es| - 1]);
      RunIsBounded(h, depth, maxBatch, es[..|es| - 1]);
      StepIsBounded(h, depth, maxBatch, Run(h, depth, maxBatch, Init(h, depth), es[..|es| - 1]), es[|es| - 1]);
    }
  }

  /** What a preparation puts in flight is safe, and says so in the world it leaves behind. */
  lemma PreparedIsSafe(h: Hash2, depth: nat, maxBatch: nat, w: World, e: Event, s: Snapshot)
    requires Sound(h, depth, w) && Enabled(h, depth, w, e) && Ends(h, depth, w, e, Preparing, s) && maxBatch > 0
    requires |w.relayer.leaves| <= s.next || |w.relayer.leaves| == Pow2(depth)
    ensures var w' := Step(h, depth, maxBatch, w, e);
      w'.inFlight.Some? ==> SafeSettlement(h, depth, w', w.relayer.leaves, s, w'.inFlight.value)
  {
    var w' := Step(h, depth, maxBatch, w, e);
    if w'.inFlight.Some? {
      var st := w'.inFlight.value;
      ProposedIsBuilt(h, depth, maxBatch, w.relayer, s, st);
      BuiltHasRoom(h, depth, maxBatch, w.relayer.leaves, s, st);
      StepIsSound(h, depth, maxBatch, w, e);
      BuiltIsSafe(h, depth, maxBatch, w', w.relayer.leaves, s, st);
    }
  }

  /** Settlement safety in every run, however the reads, scans, submissions and restarts went and
      whatever overlapped: what the sequencer is about to submit is right, short of a collision that
      can be pointed at, whenever the preparation's read is still current, or the local tree is no
      longer than startIndex. */
  lemma SettlementSafety(h: Hash2, depth: nat, maxBatch: nat, es: seq<Event>, e: Event, s: Snapshot)
    requires Possible(h, depth, maxBatch, Init(h, depth), es + [e]) && maxBatch > 0
    requires var w := Run(h, depth, maxBatch, Init(h, depth), es);
      Ends(h, depth, w, e, Preparing, s) && (s.next == w.settled || |w.relayer.leaves| <= s.next)
    ensures
      var leaves := Run(h, depth, maxBatch, Init(h, depth), es).relayer.leaves;
      var w' := Run(h, depth, maxBatch, Init(h, depth), es + [e]);
      w'.inFlight.Some? ==> SafeSettlement(h, depth, w', leaves, s, w'.inFlight.value)
  {
    assert (es + [e])[..|es|] == es;
    RunExtend(h, depth, maxBatch, Init(h, depth), es, e);
    RunIsSound(h, depth, maxBatch, es);
    RunIsBounded(h, depth, maxBatch, es);
    PreparedIsSafe(h, depth, maxBatch, Run(h, depth, maxBatch, Init(h, depth), es), e, s);
  }

  lemma LandedRoot(h: Hash2, depth: nat, maxBatch: nat, w: World, persisted: nat)
    requires Sound(h, depth, w) && Enabled(h, depth, w, Land(persisted))
    ensures
      var st := w.inFlight.value;
      var w' := Step(h, depth, maxBatch, w, Land(persisted));
      && w'.settled == st.startIndex + |st.commitments| <= |w'.total|
      && (st.newRoot == Root(h, depth, w'.total[..w'.settled]) || Tainted(h, depth, w', w'.settled))
  {
    var w' := Step(h, depth, maxBatch, w, Land(persisted));
    LandIsSound(h, depth, maxBatch, w, persisted);
    assert RootIsTrue(h, depth, w', w'.settled);
  }

  /** What lands is right in every run, whatever read and tree it was built on: the chain's new root
      is that of its settled leaves, short of a collision in an accepted witness. */
  lemma LandedIsRight(h: Hash2, depth: nat, maxBatch: nat, es: seq<Event>, persisted: nat)
    requires Possible(h, depth, maxBatch, Init(h, depth), es + [Land(persisted)])
    ensures
      var st := Run(h, depth, maxBatch, Init(h, depth), es).inFlight;
      var w' := Run(h, depth, maxBatch, Init(h, depth), es + [Land(persisted)]);
      && st.Some? && w'.settled == st.value.startIndex + |st.value.commitments| <= |w'.total|
      && (st.value.newRoot == Root(h, depth, w'.total[..w'.settled]) || Tainted(h, depth, w', w'.settled))
  {
    RunExtend(h, depth, maxBatch, Init(h, depth), es, Land(persisted));
    RunIsSound(h, depth, maxBatch, es);
    LandedRoot(h, depth, maxBatch, Run(h, depth, maxBatch, Init(h, depth), es), persisted);
  }

  // ----- a stale read on a longer tree -----

  lemma RunOne(h: Hash2, depth: nat, maxBatch: nat, es: seq<Event>, w: World, e: Event)
      returns (es': seq<Event>, w': World)
    requires Possible(h, depth, maxBatch, Init(h, depth), es) && w == Run(h, depth, maxBatch, Init(h, depth), es)
    requires Enabled(h, depth, w, e)
    ensures es' == es + [e] && w' == Step(h, depth, maxBatch, w, e)
    ensures Possible(h, depth, maxBatch, Init(h, depth), es') && w' == Run(h, depth, maxBatch, Init(h, depth), es')
  {
    RunExtend(h, depth, maxBatch, Init(h, depth), es, e);
    es', w' := es + [e], Step(h, depth, maxBatch, w, e);
  }

  lemma TwoDeposits(h: Hash2, depth: nat, maxBatch: nat, c: nat) returns (es: seq<Event>, w: World)
    ensures Possible(h, depth, maxBatch, Init(h, depth), es) && w == Run(h, depth, maxBatch, Init(h, depth), es)
    ensures w == Init(h, depth).(total := [0, c])
  {
    es, w := [], Init(h, depth);
    es, w := RunOne(h, depth, maxBatch, es, w, Deposit(0));
    es, w := RunOne(h, depth, maxBatch, es, w, Deposit(c));
  }

  /** A zero and c are deposited, and the zero is settled by others. */
  lemma ZeroSettled(h: Hash2, depth: nat, maxBatch: nat, c: nat) returns (es: seq<Event>, w: World)
    ensures Possible(h, depth, maxBatch, Init(h, depth), es) && w == Run(h, depth, maxBatch, Init(h, depth), es)
    ensures w.total == [0, c] && w.settled == 1 && w.tasks == map[] && w.inFlight == None
    ensures w.relayer == Init(h, depth).relayer
    ensures w.roots == map[0 := Zero(h, depth), 1 := Root(h, depth, [0])]
    ensures forall st <- w.accepted :: st.commitments != []
  {
    es, w := TwoDeposits(h, depth, maxBatch, c);
    var st := ZeroSettlement(h, depth, w, c);
    es, w := RunOne(h, depth, maxBatch, es, w, SettledByOthers(st));
  }

  lemma ZeroSettlement(h: Hash2, depth: nat, w: World, c: nat) returns (st: Settlement)
    requires w.total == [0, c] && w.settled == 0 && w.roots == map[0 := Zero(h, depth)]
    ensures st.startIndex == 0 && st.commitments == [0] && st.newRoot == Root(h, depth, [0])
    ensures Accepts(h, depth, w, st)
  {
    st := Settlement(0, [0], Root(h, depth, [0]), BatchPaths(h, depth, [], [0]));
    assert [] + [0] == [0];
    BatchPathsAreWitness(h, depth, [], [0]);
    EmptyNode(h, depth, 0);
  }

  /** And the relayer has recovered the zero. */
  lemma ZeroRecovered(h: Hash2, depth: nat, maxBatch: nat, c: nat) returns (es: seq<Event>, w: World)
    ensures Possible(h, depth, maxBatch, Init(h, depth), es) && w == Run(h, depth, maxBatch, Init(h, depth), es)
    ensures w.total == [0, c] && w.settled == 1 && w.tasks == map[] && w.inFlight == None
    ensures w.relayer.leaves == [0] && 0 in w.roots && w.roots[0] == Zero(h, depth)
    ensures forall st <- w.accepted :: st.commitments != []
  {
    es, w := ZeroSettled(h, depth, maxBatch, c);
    var s := Snapshot(1, Root(h, depth, [0]), [c]);
    assert [0, c][1..2] == [c];
    var sync := Alone(h, depth, w.relayer, 0, Syncing, s, map[0 := 0]);
    AlonePossible(h, depth, maxBatch, w, 0, Syncing, s, map[0 := 0]);
    SyncAlone(h, depth, maxBatch, w, 0, s, map[0 := 0]);
    RunAppend(h, depth, maxBatch, Init(h, depth), es, sync);
    ZeroFound(w.relayer, s, [0, c]);
    es, w := es + sync, w.(relayer := Sync(w.relayer, s, map[0 := 0]));
  }

  lemma ZeroFound(r: Relayer, s: Snapshot, total: seq<nat>)
    requires r.leaves == [] && r.cursor == Cursor(0, []) && s.next == 1 <= |total| && total[0] == 0
    ensures Sync(r, s, map[0 := 0]).leaves == [0]
  {
    assert 0 in map[0 := 0];
    SyncLeavesExact(total, r, s, map[0 := 0]);
  }

  /** Without both conditions the settlement can be wrong. A read from before a zero commitment was
      settled passes the root check against the longer local tree, and its batch, which begins with
      that zero, is then built one index too late. Its root is wrong, short of a collision between
      the two trees; but the chain has moved on and does not accept it. */
  lemma StaleReadMisleads(h: Hash2, depth: nat, maxBatch: nat, c: nat)
      returns (es: seq<Event>, e: Event, s: Snapshot)
    requires depth >= 2 && maxBatch >= 2 && c != 0
    ensures Possible(h, depth, maxBatch, Init(h, depth), es + [e])
    ensures Ends(h, depth, Run(h, depth, maxBatch, Init(h, depth), es), e, Preparing, s)
    ensures
      var w := Run(h, depth, maxBatch, Init(h, depth), es);
      var w' := Run(h, depth, maxBatch, Init(h, depth), es + [e]);
      && w'.inFlight.Some? && !Accepts(h, depth, w', w'.inFlight.value)
      && (SafeSettlement(h, depth, w', w.relayer.leaves, s, w'.inFlight.value) ==>
            TreesCollide(h, depth, [0, 0, c], [0, c]))
  {
    var w;
    es, w := ZeroRecovered(h, depth, maxBatch, c);
    s := Snapshot(0, Zero(h, depth), [0, c]);
    e := Arrive(1, Preparing, s);
    ZeroTreeRoot(h, depth);
    assert [0, c][0..2] == [0, c];
    var es', w' := RunOne(h, depth, maxBatch, es, w, e);
    StaleSettlement(h, depth, maxBatch, w, w', s, c);
  }

  lemma ZeroTreeRoot(h: Hash2, depth: nat)
    ensures Root(h, depth, [0]) == Zero(h, depth)
  {
    ZeroNode(h, [0], depth, 0);
  }

  lemma StaleSettlement(h: Hash2, depth: nat, maxBatch: nat, w: World, w': World, s: Snapshot, c: nat)
    requires depth >= 2 && maxBatch >= 2 && c != 0 && s == Snapshot(0, Zero(h, depth), [0, c])
    requires w.total == [0, c] && w.settled == 1 && w.relayer.leaves == [0]
    requires forall st <- w.accepted :: st.commitments != []
    requires w' == Step(h, depth, maxBatch, w, Arrive(1, Preparing, s))
    ensures w'.inFlight.Some? && !Accepts(h, depth, w', w'.inFlight.value)
    ensures SafeSettlement(h, depth, w', [0], s, w'.inFlight.value) ==> TreesCollide(h, depth, [0, 0, c], [0, c])
  {
    ZeroTreeRoot(h, depth);
    Pow2Mono4(depth);
    assert [0, c][..2] == [0, c] && [0] + [0, c] == [0, 0, c] && Pad([0], 0) == [0];
    var st := w'.inFlight.value;
    assert st.startIndex == 0 && st.commitments == [0, c] && st.newRoot == Root(h, depth, [0, 0, c]);
    assert !Tainted(h, depth, w', 0);
    AgreeingTrees(h, depth, [0], []);
    assert w'.total[..0] == [] && w'.total[..2] == [0, c];
    if Root(h, depth, [0, 0, c]) == Root(h, depth, [0, c]) {
      RootBinding(h, depth, [0, 0, c], [0, c]);
      assert Leaf([0, 0, c], 1) == 0 && Leaf([0, c], 1) == c;
    }
  }

  lemma Pow2Mono4(depth: nat)
    requires depth >= 2
    ensures Pow2(depth) >= 4
  {
    assert Pow2(depth) == 2 * (2 * Pow2(depth - 2));
  }

  // ----- clean runs -----

  /** The hypotheses under which the relayer stays right: no reply to a sync's reads that is older
      than the local tree, scans that find every leaf still missing when they end, room for the
      batch, and restarts from a log without gaps. */
  ghost predicate Clean(depth: nat, maxBatch: nat, w: World, e: Event) {
    match e
    case Arrive(_, kind, s) =>
      if kind.Preparing? then BatchFits(depth, maxBatch, w.relayer.leaves, s) else |w.relayer.leaves| <= s.next
    case Scanned(id, recovered) =>
      id in w.tasks ==> Complete(|w.relayer.leaves|, w.tasks[id].read.next, recovered)
    case Resume(id) =>
      id in w.tasks && w.tasks[id].kind.Preparing? ==>
        BatchFits(depth, maxBatch, w.relayer.leaves, w.tasks[id].read)
    case Restart => LogCovers(w.relayer.log)
    case _ => true
  }

  ghost predicate CleanRun(h: Hash2, depth: nat, maxBatch: nat, es: seq<Event>)
    decreases |es|
  {
    es == [] ||
    (&& CleanRun(h, depth, maxBatch, es[..|es| - 1])
     && Clean(depth, maxBatch, Run(h, depth, maxBatch, Init(h, depth), es[..|es| - 1]), es[|es| - 1]))
  }

  /** The relayer is right, and no operation past its recovery stage is ahead of the local tree. */
  ghost predicate Right(w: World) {
    && Good(w.total, w.settled, w.relayer)
    && forall id <- w.tasks :: w.tasks[id].inserted ==> w.tasks[id].read.next <= |w.relayer.leaves|
  }

  lemma GoodGrows(total: seq<nat>, total': seq<nat>, n: nat, n': nat, r: Relayer)
    requires Good(total, n, r) && total <= total' && n <= n' <= |total'|
    ensures Good(total', n', r)
  {
    forall c: Cursor | TrueCursor(total, c) ensures TrueCursor(total', c) {
      assert total'[c.next..c.next + |c.pending|] == total[c.next..c.next + |c.pending|];
    }
    assert r.leaves == total[..|r.leaves|] == total'[..|r.leaves|];
    assert r.savedLeaves == total[..|r.savedLeaves|] == total'[..|r.savedLeaves|];
  }

  /** The end of an operation on a tree that is not behind its read changes no leaf. */
  lemma FinishedIsRight(h: Hash2, depth: nat, maxBatch: nat, w: World, kind: Kind, s: Snapshot)
    requires Right(w) && TrueSnapshot(w, s)
    requires if kind.Preparing? then BatchFits(depth, maxBatch, w.relayer.leaves, s) else |w.relayer.leaves| >= s.next
    ensures Right(Finished(h, depth, maxBatch, w, kind, s))
    ensures Finished(h, depth, maxBatch, w, kind, s).relayer.leaves == w.relayer.leaves
  {
    match kind
    case Syncing => SettleKeepsGood(w.total, w.settled, w.relayer, s);
    case BrokenSync =>
    case Preparing => FittingProposal(h, depth, maxBatch, w.relayer, s);
  }

  lemma ScannedIsRight(h: Hash2, depth: nat, maxBatch: nat, w: World, id: nat, recovered: map<nat, nat>)
    requires Sound(h, depth, w) && Right(w)
    requires Enabled(h, depth, w, Scanned(id, recovered)) && Clean(depth, maxBatch, w, Scanned(id, recovered))
    ensures Right(Step(h, depth, maxBatch, w, Scanned(id, recovered)))
  {
    RecoverKeepsGood(w.total, w.settled, w.relayer, w.tasks[id].read.next, recovered);
  }

  lemma StepIsRight(h: Hash2, depth: nat, maxBatch: nat, w: World, e: Event)
    requires Sound(h, depth, w) && Right(w)
    requires Enabled(h, depth, w, e) && Clean(depth, maxBatch, w, e)
    ensures Right(Step(h, depth, maxBatch, w, e))
  {
    var w' := Step(h, depth, maxBatch, w, e);
    match e
    case Deposit(c) => GoodGrows(w.total, w'.total, w.settled, w.settled, w.relayer);
    case SettledByOthers(st) => GoodGrows(w.total, w.total, w.settled, w'.settled, w.relayer);
    case Arrive(id, kind, s) =>
      if !NeedsScan(h, depth, w.relayer, kind, s) { FinishedIsRight(h, depth, maxBatch, w, kind, s); }
    case Scanned(id, recovered) => ScannedIsRight(h, depth, maxBatch, w, id, recovered);
    case Resume(id) =>
      FinishedIsRight(h, depth, maxBatch, w.(tasks := w.tasks - {id}), w.tasks[id].kind, w.tasks[id].read);
    case ScanFails(id) =>
    case Land(_) => GoodGrows(w.total, w.total, w.settled, w'.settled, w.relayer);
    case Drop =>
    case Restart => RestartKeepsGood(w.total, w.settled, w.relayer);
  }

  lemma {:induction false} CleanRunIsRight(h: Hash2, depth: nat, maxBatch: nat, es: seq<Event>)
    requires Possible(h, depth, maxBatch, Init(h, depth), es) && CleanRun(h, depth, maxBatch, es)
    ensures Right(Run(h, depth, maxBatch, Init(h, depth), es))
    decreases |es|
  {
    if es != [] {
      var front := es[..|es| - 1];
      RunIsSound(h, depth, maxBatch, front);
      CleanRunIsRight(h, depth, maxBatch, front);
      StepIsRight(h, depth, maxBatch, Run(h, depth, maxBatch, Init(h, depth), front), es[|es| - 1]);
    }
  }

  /** Cursor and saved cursor are the read, and the local leaves are settled leaves that reach at
      least as far. */
  predicate StandsPast(w: World, s: Snapshot) {
    && s.next <= |w.relayer.leaves| <= w.settled <= |w.total|
    && w.relayer.leaves == w.total[..|w.relayer.leaves|]
    && w.relayer.cursor == Cursor(s.next, s.pending) && w.relayer.savedCursor == Some(w.relayer.cursor)
    && TrueCursor(w.total, w.relayer.cursor)
  }

  /** The relayer stands exactly at the read. */
  predicate StandsAt(w: World, s: Snapshot) {
    StandsPast(w, s) && w.relayer.leaves == w.total[..s.next]
  }

  lemma SyncEndIsRight(h: Hash2, depth: nat, maxBatch: nat, w: World, e: Event, s: Snapshot)
    requires Sound(h, depth, w) && Right(w)
    requires Enabled(h, depth, w, e) && Clean(depth, maxBatch, w, e) && Ends(h, depth, w, e, Syncing, s)
    ensures var w' := Step(h, depth, maxBatch, w, e);
      StandsPast(w', s) && w'.relayer.leaves == w.relayer.leaves
  {
    SettleKeepsGood(w.total, w.settled, w.relayer, s);
  }

  /** In every clean run, wherever syncs and preparations overlap, each sync ends with its read as
      cursor, on settled leaves that reach at least as far as the read; and it stands exactly at
      the read unless something that overlapped it had already gone further. */
  lemma CleanSync(h: Hash2, depth: nat, maxBatch: nat, es: seq<Event>, e: Event, s: Snapshot)
    requires Possible(h, depth, maxBatch, Init(h, depth), es + [e]) && CleanRun(h, depth, maxBatch, es + [e])
    requires Ends(h, depth, Run(h, depth, maxBatch, Init(h, depth), es), e, Syncing, s)
    ensures
      var w := Run(h, depth, maxBatch, Init(h, depth), es);
      var w' := Run(h, depth, maxBatch, Init(h, depth), es + [e]);
      StandsPast(w', s) && (StandsAt(w', s) <==> |w.relayer.leaves| == s.next)
  {
    assert (es + [e])[..|es|] == es;
    RunExtend(h, depth, maxBatch, Init(h, depth), es, e);
    RunIsSound(h, depth, maxBatch, es);
    CleanRunIsRight(h, depth, maxBatch, es);
    SyncEndIsRight(h, depth, maxBatch, Run(h, depth, maxBatch, Init(h, depth), es), e, s);
  }

  /** In every clean run a sync that nothing overlaps, from a read no older than the local tree and
      with a complete scan, leaves the relayer standing exactly at the read. */
  lemma CleanSyncAlone(h: Hash2, depth: nat, maxBatch: nat, es: seq<Event>, id: nat, s: Snapshot,
                       recovered: map<nat, nat>)
    requires Possible(h, depth, maxBatch, Init(h, depth), es) && CleanRun(h, depth, maxBatch, es)
    requires var w := Run(h, depth, maxBatch, Init(h, depth), es);
      && id !in w.tasks && TrueSnapshot(w, s) && TrueScan(w, recovered)
      && |w.relayer.leaves| <= s.next && Complete(|w.relayer.leaves|, s.next, recovered)
    ensures
      var w := Run(h, depth, maxBatch, Init(h, depth), es);
      StandsAt(Run(h, depth, maxBatch, w, Alone(h, depth, w.relayer, id, Syncing, s, recovered)), s)
  {
    var w := Run(h, depth, maxBatch, Init(h, depth), es);
    CleanRunIsRight(h, depth, maxBatch, es);
    SyncAlone(h, depth, maxBatch, w, id, s, recovered);
    SyncKeepsGood(w.total, w.settled, w.relayer, s, recovered);
  }

  lemma ArrivedProposal(h: Hash2, depth: nat, maxBatch: nat, w: World, id: nat, s: Snapshot, st: Settlement)
    requires Root(h, depth, w.relayer.leaves) == s.root
    requires Propose(h, depth, maxBatch, w.relayer, s) == (w.relayer, Ok(Some(st)))
    ensures Step(h, depth, maxBatch, w, Arrive(id, Preparing, s)).inFlight == Some(st)
  {}

  /** A relayer that stands at a read always settles the next batch of that read while it fits:
      the root check passes without a scan, and the new root is right. Only a recorded root that
      an accepted, colliding witness has made false can stop it. */
  lemma StandingSettles(h: Hash2, depth: nat, maxBatch: nat, w: World, id: nat, s: Snapshot)
    requires Sound(h, depth, w) && TrueSnapshot(w, s) && StandsAt(w, s)
    requires maxBatch > 0 && s.pending != [] && BatchFits(depth, maxBatch, w.relayer.leaves, s)
    ensures
      var st := Step(h, depth, maxBatch, w, Arrive(id, Preparing, s)).inFlight;
      || Tainted(h, depth, w, s.next)
      || (&& st.Some? && |st.value.commitments| == Min(|s.pending|, maxBatch)
          && SafeSettlement(h, depth, w, w.relayer.leaves, s, st.value)
          && st.value.newRoot == Root(h, depth, w.total[..s.next + |st.value.commitments|]))
  {
    assert RootIsTrue(h, depth, w, s.next);
    if !Tainted(h, depth, w, s.next) {
      var st := ProposeSucceeds(h, depth, maxBatch, w.total, w.relayer, s);
      BuiltIsSafe(h, depth, maxBatch, w, w.relayer.leaves, s, st);
      ArrivedProposal(h, depth, maxBatch, w, id, s, st);
    }
  }

  /** A reply older than the local tree is possible in any run: it was true once. A sync that
      receives it wipes tree, cursor, settled log and files, so that a restart finds nothing; and
      its cursor is false unless the read was of an empty tree or an empty buffer. */
  lemma LateReplyErases(h: Hash2, depth: nat, maxBatch: nat, w: World, id: nat, s: Snapshot)
    requires TrueSnapshot(w, s) && s.next < |w.relayer.leaves| && id !in w.tasks
    ensures Enabled(h, depth, w, Arrive(id, Syncing, s))
    ensures
      var w' := Step(h, depth, maxBatch, w, Arrive(id, Syncing, s));
      var c := Cursor(0, s.pending);
      && w' == w.(relayer := Relayer([], c, [], Some(c), []))
      && Step(h, depth, maxBatch, w', Restart).relayer == w'.relayer
      && (s.next == 0 || s.pending == [] ==> TrueCursor(w.total, c))
      && (Distinct(w.total) && TrueCursor(w.total, c) ==> s.next == 0 || s.pending == [])
  {
    OldReadErases(w.relayer, s, map[]);
    SyncCursorExact(w.total, w.relayer, s, map[]);
  }

  // ----- what a restart finds -----

  /** The saved cursor is the cursor; before the first save both are the start. */
  predicate CursorSaved(r: Relayer) {
    r.savedCursor == Some(r.cursor) || (r.savedCursor == None && r.cursor == Cursor(0, []))
  }

  lemma StepSavesCursor(h: Hash2, depth: nat, maxBatch: nat, w: World, e: Event)
    requires CursorSaved(w.relayer)
    ensures CursorSaved(Step(h, depth, maxBatch, w, e).relayer)
  {}

  /** What the preparation finishes fits the tree. */
  ghost predicate Fitting(depth: nat, maxBatch: nat, w: World, e: Event) {
    match e
    case Arrive(_, kind, s) => kind.Preparing? ==> BatchFits(depth, maxBatch, w.relayer.leaves, s)
    case Resume(id) =>
      id in w.tasks && w.tasks[id].kind.Preparing? ==>
        BatchFits(depth, maxBatch, w.relayer.leaves, w.tasks[id].read)
    case _ => true
  }

  ghost predicate FittingRun(h: Hash2, depth: nat, maxBatch: nat, es: seq<Event>)
    decreases |es|
  {
    es == [] ||
    (&& FittingRun(h, depth, maxBatch, es[..|es| - 1])
     && Fitting(depth, maxBatch, Run(h, depth, maxBatch, Init(h, depth), es[..|es| - 1]), es[|es| - 1]))
  }

  lemma FinishedSaves(h: Hash2, depth: nat, maxBatch: nat, w: World, kind: Kind, s: Snapshot)
    requires w.relayer.savedLeaves == w.relayer.leaves
    requires kind.Preparing? ==> BatchFits(depth, maxBatch, w.relayer.leaves, s)
    ensures var r := Finished(h, depth, maxBatch, w, kind, s).relayer; r.savedLeaves == r.leaves
  {
    if kind.Preparing? { FittingProposal(h, depth, maxBatch, w.relayer, s); }
  }

  /** Every event but a restart saves what it does to the tree. */
  lemma StepSavesLeaves(h: Hash2, depth: nat, maxBatch: nat, w: World, e: Event)
    requires w.relayer.savedLeaves == w.relayer.leaves && Fitting(depth, maxBatch, w, e)
    requires e.Restart? ==> w.relayer.log == []
    ensures var r := Step(h, depth, maxBatch, w, e).relayer; r.savedLeaves == r.leaves
  {
    match e
    case Arrive(id, kind, s) =>
      FinishedSaves(h, depth, maxBatch, w, kind, s);
      FinishedSaves(h, depth, maxBatch, w.(relayer := Reset()), kind, if kind.Preparing? then Snapshot(0, 0, []) else s);
    case Resume(id) =>
      if id in w.tasks {
        FinishedSaves(h, depth, maxBatch, w.(tasks := w.tasks - {id}), w.tasks[id].kind, w.tasks[id].read);
      }
    case _ =>
  }

  /** A log that an event leaves empty was empty before, or everything is. */
  lemma StepEmptiesLog(h: Hash2, depth: nat, maxBatch: nat, w: World, e: Event)
    ensures var r := Step(h, depth, maxBatch, w, e).relayer;
      r.log == [] ==> w.relayer.log == [] || (r.leaves == [] && r.savedLeaves == [])
  {
    if e.Arrive? && !e.kind.Preparing? && |w.relayer.leaves| > e.read.next {
      assert Inferred(Reset(), e.read) == [];
    }
  }

  /** What the files hold in every run in which each batch fits: the cursor; and the leaves, while
      the log is empty or no restart has happened. */
  lemma {:induction false} RunIsSaved(h: Hash2, depth: nat, maxBatch: nat, es: seq<Event>)
    requires FittingRun(h, depth, maxBatch, es)
    ensures
      var r := Run(h, depth, maxBatch, Init(h, depth), es).relayer;
      && CursorSaved(r) && (r.log == [] ==> r.savedLeaves == r.leaves)
      && ((forall e <- es :: !e.Restart?) ==> r.savedLeaves == r.leaves)
    decreases |es|
  {
    if es != [] {
      var front, e := es[..|es| - 1], es[|es| - 1];
      var w := Run(h, depth, maxBatch, Init(h, depth), front);
      assert e in es;
      RunIsSaved(h, depth, maxBatch, front);
      StepSavesCursor(h, depth, maxBatch, w, e);
      StepEmptiesLog(h, depth, maxBatch, w, e);
      if w.relayer.savedLeaves == w.relayer.leaves && (e.Restart? ==> w.relayer.log == []) {
        StepSavesLeaves(h, depth, maxBatch, w, e);
      }
    }
  }

  /** A restart loses nothing: the cursor in every run, and while the log is empty everything. */
  lemma RestartLosesNothing(h: Hash2, depth: nat, maxBatch: nat, es: seq<Event>)
    requires FittingRun(h, depth, maxBatch, es)
    ensures
      var w := Run(h, depth, maxBatch, Init(h, depth), es);
      var r := Step(h, depth, maxBatch, w, Restart).relayer;
      r.cursor == w.relayer.cursor && (w.relayer.log == [] ==> r == w.relayer)
  {
    RunIsSaved(h, depth, maxBatch, es);
  }

  // ----- a sequencer that settles alone -----

  /** The log of the first k commitments followed by the entries of the next ones. */
  lemma PrefixEntries(total: seq<nat>, k: nat, cs: seq<nat>)
    requires k + |cs| <= |total| && cs == total[k..k + |cs|]
    ensures Entries(0, total[..k]) + Entries(k, cs) == Entries(0, total[..k + |cs|])
  {
    var l, m, r := Entries(0, total[..k]), Entries(k, cs), Entries(0, total[..k + |cs|]);
    forall i | 0 <= i < |r| ensures (l + m)[i] == r[i] {
      assert r[i] == LogEntry(i, total[i]);
      if i < k { assert l[i] == r[i]; } else { assert m[i - k] == r[i]; }
    }
  }

  lemma {:induction false} ReplayEntries(cs: seq<nat>)
    ensures Replay(Entries(0, cs)) == cs && LogCovers(Entries(0, cs))
    decreases |cs|
  {
    if cs != [] {
      var front, es := cs[..|cs| - 1], Entries(0, cs);
      ReplayEntries(front);
      assert es[..|es| - 1] == Entries(0, front);
      assert Put(front, |front|, cs[|cs| - 1]) == cs;
      forall j: nat | j < |cs| ensures Logged(es, j) {
        assert es[j] in es;
      }
    }
  }

  /** Clean, except that nothing is asked of restarts; instead only this sequencer settles and
      every confirmed batch is logged whole. */
  ghost predicate OnlyUs(depth: nat, maxBatch: nat, w: World, e: Event) {
    match e
    case SettledByOthers(_) => false
    case Land(persisted) => w.inFlight.Some? && persisted == |w.inFlight.value.commitments|
    case Restart => true
    case _ => Clean(depth, maxBatch, w, e)
  }

  ghost predicate OnlyOurRun(h: Hash2, depth: nat, maxBatch: nat, es: seq<Event>)
    decreases |es|
  {
    es == [] ||
    (&& OnlyOurRun(h, depth, maxBatch, es[..|es| - 1])
     && OnlyUs(depth, maxBatch, Run(h, depth, maxBatch, Init(h, depth), es[..|es| - 1]), es[|es| - 1]))
  }

  lemma OnlyOurLand(h: Hash2, depth: nat, maxBatch: nat, w: World, persisted: nat)
    requires w.inFlight.Some? && Accepts(h, depth, w, w.inFlight.value)
    requires persisted == |w.inFlight.value.commitments|
    requires w.relayer.log == Entries(0, w.total[..w.settled])
    ensures var w' := Step(h, depth, maxBatch, w, Land(persisted));
      w'.settled <= |w'.total| && w'.relayer.log == Entries(0, w'.total[..w'.settled])
  {
    var st := w.inFlight.value;
    var es := Entries(st.startIndex, st.commitments);
    assert es[..Min(persisted, |es|)] == es;
    PrefixEntries(w.total, w.settled, st.commitments);
  }

  /** Nothing that a clean relayer does by itself, short of landing, touches its log. */
  lemma LogStays(h: Hash2, depth: nat, maxBatch: nat, w: World, e: Event)
    requires Enabled(h, depth, w, e) && Clean(depth, maxBatch, w, e)
    requires !e.Deposit? && !e.SettledByOthers? && !e.Land?
    ensures var w' := Step(h, depth, maxBatch, w, e);
      w'.relayer.log == w.relayer.log && w'.total == w.total && w'.settled == w.settled
  {}

  lemma OnlyOurStep(h: Hash2, depth: nat, maxBatch: nat, w: World, e: Event)
    requires Sound(h, depth, w) && Enabled(h, depth, w, e) && OnlyUs(depth, maxBatch, w, e)
    requires w.relayer.log == Entries(0, w.total[..w.settled])
    ensures Clean(depth, maxBatch, w, e)
    ensures var w' := Step(h, depth, maxBatch, w, e);
      w'.settled <= |w'.total| && w'.relayer.log == Entries(0, w'.total[..w'.settled])
  {
    match e
    case Deposit(c) => assert (w.total + [c])[..w.settled] == w.total[..w.settled];
    case Land(persisted) => OnlyOurLand(h, depth, maxBatch, w, persisted);
    case SettledByOthers(_) =>
    case Restart => ReplayEntries(w.total[..w.settled]);
    case _ => LogStays(h, depth, maxBatch, w, e);
  }

  /** When one sequencer settles alone and logs what it settles, the log is the settled sequence in
      order; so its restarts are clean, rebuild the settled tree exactly, and every property of
      clean runs holds without asking anything of them. */
  lemma {:induction false} OnlyOurRunIsClean(h: Hash2, depth: nat, maxBatch: nat, es: seq<Event>)
    requires Possible(h, depth, maxBatch, Init(h, depth), es) && OnlyOurRun(h, depth, maxBatch, es)
    ensures CleanRun(h, depth, maxBatch, es)
    ensures
      var w := Run(h, depth, maxBatch, Init(h, depth), es);
      && w.settled <= |w.total| && w.relayer.log == Entries(0, w.total[..w.settled])
      && Replay(w.relayer.log) == w.total[..w.settled]
      && (w.settled > 0 ==> Restarted(w.relayer).leaves == w.total[..w.settled])
    decreases |es|
  {
    var w := Run(h, depth, maxBatch, Init(h, depth), es);
    if es != [] {
      var front := es[..|es| - 1];
      OnlyOurRunIsClean(h, depth, maxBatch, front);
      RunIsSound(h, depth, maxBatch, front);
      OnlyOurStep(h, depth, maxBatch, Run(h, depth, maxBatch, Init(h, depth), front), es[|es| - 1]);
    }
    ReplayEntries(w.total[..w.settled]);
  }
}
