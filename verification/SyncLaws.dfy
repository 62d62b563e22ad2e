/** What one sync and one restart do to a relayer that was right before, and exactly when they
    keep it right. */
module SyncLaws {
  import opened Results
  import opened Merkle
  import opened Protocol

  /** The cursor and its pending list are a snapshot of the chain's commitment list. */
  predicate TrueCursor(total: seq<nat>, c: Cursor) {
    c.next + |c.pending| <= |total| && c.pending == total[c.next..c.next + |c.pending|]
  }

  predicate TrueRecovery(total: seq<nat>, recovered: map<nat, nat>) {
    forall i <- recovered :: i < |total| && recovered[i] == total[i]
  }

  predicate TrueLog(total: seq<nat>, n: nat, log: seq<LogEntry>) {
    n <= |total| && forall e <- log :: e.leafIndex < n && e.commitment == total[e.leafIndex]
  }

  /** Leaves the event scan had to find, and did. */
  predicate Complete(have: nat, target: nat, recovered: map<nat, nat>) {
    forall i :: have <= i < target ==> i in recovered
  }

  lemma PrefixByLeaf(s: seq<nat>, total: seq<nat>, n: nat)
    requires |s| == n <= |total|
    ensures s == total[..n] <==> forall j: nat :: j < n ==> Leaf(s, j) == total[j]
  {
    if forall j: nat :: j < n ==> Leaf(s, j) == total[j] {
      forall j | 0 <= j < n ensures s[j] == total[j] { assert Leaf(s, j) == total[j]; }
    } else {
      var j: nat :| j < n && Leaf(s, j) != total[j];
      assert s[j] != total[..n][j];
    }
  }

  predicate InRun(j: nat, from: nat, len: nat) {
    from <= j < from + len
  }

  /** Index i is right after the sync: it was there, the scan found it, the previous pending
      list covers it, or its commitment is zero like the padding. */
  predicate Covered(total: seq<nat>, r: Relayer, recovered: map<nat, nat>, i: nat)
    requires i < |total|
  {
    || i < |r.leaves|
    || i in recovered
    || InRun(i, r.cursor.next, |r.cursor.pending|)
    || total[i] == 0
  }

  lemma RecoveredLeaves(total: seq<nat>, r: Relayer, s: Snapshot, recovered: map<nat, nat>)
    requires r.leaves <= total && TrueRecovery(total, recovered) && |r.leaves| <= s.next <= |total|
    ensures Recovered(r, s, recovered).cursor == r.cursor
    ensures forall j: nat :: j < s.next ==>
      Leaf(Recovered(r, s, recovered).leaves, j) == if j < |r.leaves| || j in recovered then total[j] else 0
  {
    assert forall j: nat :: j < |r.leaves| ==> Leaf(r.leaves, j) == total[j];
  }

  /** The FIFO inference from a true cursor takes true commitments, and takes them all. */
  lemma InferredTrue(total: seq<nat>, r: Relayer, s: Snapshot)
    requires TrueCursor(total, r.cursor) && |r.leaves| >= s.next
    ensures var from, cs := StartCursor(r, s), Inferred(r, s);
      && from + |cs| <= |total| && (cs == [] || from + |cs| <= s.next)
      && (forall j :: from <= j < from + |cs| ==> cs[j - from] == total[j])
      && forall j: nat :: j < s.next ==>
           (InRun(j, from, |cs|) <==> InRun(j, r.cursor.next, |r.cursor.pending|))
  {
  }

  /** The inferred slice is the part of the cursor's list that lies below the read, for any cursor. */
  lemma InferredSlice(r: Relayer, s: Snapshot)
    requires |r.leaves| >= s.next
    ensures var from, cs := StartCursor(r, s), Inferred(r, s);
      && (cs == [] || from + |cs| <= s.next)
      && forall j: nat :: j < s.next ==>
           && (InRun(j, from, |cs|) <==> InRun(j, r.cursor.next, |r.cursor.pending|))
           && (InRun(j, from, |cs|) ==> cs[j - from] == r.cursor.pending[j - r.cursor.next])
  {}

  /** The value of leaf i after a caught-up sync: what the cursor's list says, if it reaches there;
      else what the tree held or the scan found; else zero. */
  function SyncedLeaf(total: seq<nat>, r: Relayer, recovered: map<nat, nat>, i: nat): nat
    requires i < |total|
  {
    if InRun(i, r.cursor.next, |r.cursor.pending|) then r.cursor.pending[i - r.cursor.next]
    else if i < |r.leaves| || i in recovered then total[i]
    else 0
  }

  /** The leaves after a sync that neither resets nor falls short, whatever its cursor holds. */
  lemma CaughtUpLeaves(total: seq<nat>, r: Relayer, s: Snapshot, recovered: map<nat, nat>)
    requires r.leaves <= total && TrueRecovery(total, recovered)
    requires |r.leaves| <= s.next <= |total|
    requires |Recovered(r, s, recovered).leaves| >= s.next
    ensures |Sync(r, s, recovered).leaves| == s.next
    ensures forall j: nat :: j < s.next ==>
      Leaf(Sync(r, s, recovered).leaves, j) == SyncedLeaf(total, r, recovered, j)
  {
    var r1, r2 := Recovered(r, s, recovered), Sync(r, s, recovered);
    var from, cs := StartCursor(r1, s), Inferred(r1, s);
    RecoveredLeaves(total, r, s, recovered);
    InferredSlice(r1, s);
    forall j: nat | j < s.next ensures Leaf(r2.leaves, j) == SyncedLeaf(total, r, recovered, j) {
      if InRun(j, from, |cs|) {
        assert Leaf(r2.leaves, j) == cs[j - from];
      } else {
        assert Leaf(r2.leaves, j) == Leaf(r1.leaves, j);
      }
    }
  }

  /** Every leaf below n that the cursor's list reaches is right in that list. */
  predicate CursorAgrees(total: seq<nat>, c: Cursor, n: nat)
    requires n <= |total|
  {
    forall i: nat :: i < n && InRun(i, c.next, |c.pending|) ==> c.pending[i - c.next] == total[i]
  }

  /** Every leaf the local tree lacks is covered. */
  predicate GapsCovered(total: seq<nat>, r: Relayer, recovered: map<nat, nat>, n: nat)
    requires n <= |total|
  {
    forall i: nat :: |r.leaves| <= i < n ==> Covered(total, r, recovered, i)
  }

  lemma LeavesAgree(total: seq<nat>, r: Relayer, recovered: map<nat, nat>, n: nat)
    requires n <= |total|
    ensures (forall i: nat :: i < n ==> SyncedLeaf(total, r, recovered, i) == total[i])
      <==> CursorAgrees(total, r.cursor, n) && GapsCovered(total, r, recovered, n)
  {
    if forall i: nat :: i < n ==> SyncedLeaf(total, r, recovered, i) == total[i] {
      forall i: nat | i < n ensures InRun(i, r.cursor.next, |r.cursor.pending|) ==> r.cursor.pending[i - r.cursor.next] == total[i] {
        assert SyncedLeaf(total, r, recovered, i) == total[i];
      }
      forall i: nat | |r.leaves| <= i < n ensures Covered(total, r, recovered, i) {
        assert SyncedLeaf(total, r, recovered, i) == total[i];
      }
    } else {
      var i: nat :| i < n && SyncedLeaf(total, r, recovered, i) != total[i];
      if |r.leaves| <= i && !InRun(i, r.cursor.next, |r.cursor.pending|) {
        assert !Covered(total, r, recovered, i);
      }
    }
  }

  lemma CaughtUpExact(total: seq<nat>, r: Relayer, s: Snapshot, recovered: map<nat, nat>)
    requires r.leaves <= total && TrueRecovery(total, recovered)
    requires |r.leaves| <= s.next <= |total|
    requires |Recovered(r, s, recovered).leaves| >= s.next
    ensures Sync(r, s, recovered).leaves == total[..s.next] <==>
      CursorAgrees(total, r.cursor, s.next) && GapsCovered(total, r, recovered, s.next)
  {
    CaughtUpLeaves(total, r, s, recovered);
    PrefixByLeaf(Sync(r, s, recovered).leaves, total, s.next);
    LeavesAgree(total, r, recovered, s.next);
  }

  /** A sync that resets or falls short infers nothing. */
  lemma NothingInferred(r: Relayer, s: Snapshot, recovered: map<nat, nat>)
    requires var r1 := Recovered(r, s, recovered); |r.leaves| > s.next || |r1.leaves| < s.next
    ensures Sync(r, s, recovered).leaves == Recovered(r, s, recovered).leaves
  {
    assert Inferred(Recovered(r, s, recovered), s) == [];
  }

  /** The recovery stage of a relayer that is behind catches up in length exactly when the scan
      found the last leaf. */
  lemma CatchesUp(r: Relayer, s: Snapshot, recovered: map<nat, nat>)
    requires |r.leaves| < s.next
    ensures |Recovered(r, s, recovered).leaves| >= s.next <==> s.next - 1 in recovered
  {}

  /** After one sync, with any cursor, the local leaves are the settled ones exactly when nothing is
      settled, or the tree had the right length or the scan found the last leaf, the cursor's list is
      right where it reaches, and every other gap is covered. A relayer that is ahead of the read is
      reset, and so right only for an empty pool. */
  lemma SyncLeavesExact(total: seq<nat>, r: Relayer, s: Snapshot, recovered: map<nat, nat>)
    requires r.leaves <= total && TrueRecovery(total, recovered) && s.next <= |total|
    ensures Sync(r, s, recovered).leaves == total[..s.next] <==>
      || s.next == 0
      || (&& (|r.leaves| == s.next || (|r.leaves| < s.next && s.next - 1 in recovered))
          && CursorAgrees(total, r.cursor, s.next) && GapsCovered(total, r, recovered, s.next))
  {
    if |r.leaves| > s.next {
      NothingInferred(r, s, recovered);
    } else if |r.leaves| == s.next {
      CaughtUpExact(total, r, s, recovered);
    } else {
      CatchesUp(r, s, recovered);
      if s.next - 1 in recovered {
        CaughtUpExact(total, r, s, recovered);
      } else {
        NothingInferred(r, s, recovered);
      }
    }
  }

  predicate Distinct(total: seq<nat>) {
    forall i, j :: 0 <= i < j < |total| ==> total[i] != total[j]
  }

  /** The cursor after a sync: the read, if the recovery stage caught up; otherwise the read's pending
      list at the old index, pulled back to the end of the local tree if it lay beyond the read. */
  lemma SyncedCursor(r: Relayer, s: Snapshot, recovered: map<nat, nat>)
    ensures
      var r1 := Recovered(r, s, recovered);
      var c := Sync(r, s, recovered).cursor;
      && c.pending == s.pending && Sync(r, s, recovered).savedCursor == Some(c)
      && c.next == if |r1.leaves| >= s.next then s.next
                   else if r1.cursor.next > s.next then |r1.leaves|
                   else r1.cursor.next
  {}

  /** The saved cursor is a true snapshot exactly when the recovery stage caught up, or there is
      nothing pending, or the held cursor stands at the read anyway: otherwise a fresh pending
      list is saved beside an old cursor. Only a repeated commitment could hide that. */
  lemma SyncCursorExact(total: seq<nat>, r: Relayer, s: Snapshot, recovered: map<nat, nat>)
    requires TrueCursor(total, Cursor(s.next, s.pending))
    ensures
      var r1 := Recovered(r, s, recovered);
      var atRead := |r1.leaves| >= s.next || s.pending == [] || r1.cursor.next == s.next;
      && (atRead ==> TrueCursor(total, Sync(r, s, recovered).cursor))
      && (Distinct(total) && TrueCursor(total, Sync(r, s, recovered).cursor) ==> atRead)
  {
    var from := StartCursor(Recovered(r, s, recovered), s);
    if Distinct(total) && s.pending != [] && from < s.next && from + |s.pending| <= |total| {
      assert s.pending[0] == total[s.next];
      assert total[from..from + |s.pending|][0] == total[from] != total[s.next];
    }
  }

  lemma HeldCursorReads()
    ensures TrueCursor([7, 8, 9], Cursor(1, [8, 9])) && TrueCursor([7, 8, 9], Cursor(2, [9]))
    ensures TrueRecovery([7, 8, 9], map[0 := 7, 1 := 8]) && Complete(0, 2, map[0 := 7, 1 := 8])
    ensures [8, 9] != [7, 8, 9][..2]
  {
    assert [7, 8, 9][1..3] == [8, 9] && [7, 8, 9][2..3] == [9] && [7, 8, 9][..2][0] == 7;
  }

  lemma FirstSync()
    ensures var r := Sync(Relayer([], Cursor(0, []), [], None, []), Snapshot(1, 0, [8, 9]), map[]);
      r.leaves == [] && r.cursor == Cursor(0, [8, 9])
  {}

  lemma SecondSync(r: Relayer)
    requires r.leaves == [] && r.cursor == Cursor(0, [8, 9])
    ensures Sync(r, Snapshot(2, 0, [9]), map[0 := 7, 1 := 8]).leaves == [8, 9]
  {
    var s, full := Snapshot(2, 0, [9]), map[0 := 7, 1 := 8];
    assert 0 in full && |Recovered(r, s, full).leaves| == 2;
    assert Inferred(Recovered(r, s, full), s) == [8, 9];
    var l := Sync(r, s, full).leaves;
    assert |l| == 2 && Leaf(l, 0) == 8 && Leaf(l, 1) == 9;
  }

  /** Saving a fresh pending list beside a held cursor does harm: after one scan that finds
      nothing and one that finds everything, the inference overwrites good leaves. */
  lemma HeldCursorCorrupts()
    ensures
      var total := [7, 8, 9];
      var r := Relayer([], Cursor(0, []), [], None, []);
      var s1, s2 := Snapshot(1, 0, [8, 9]), Snapshot(2, 0, [9]);
      var full := map[0 := 7, 1 := 8];
      && TrueCursor(total, Cursor(1, s1.pending)) && TrueCursor(total, Cursor(2, s2.pending))
      && TrueRecovery(total, full) && Complete(0, 2, full)
      && Sync(Sync(r, s1, map[]), s2, full).leaves == [8, 9] != total[..2]
  {
    HeldCursorReads();
    FirstSync();
    SecondSync(Sync(Relayer([], Cursor(0, []), [], None, []), Snapshot(1, 0, [8, 9]), map[]));
  }

  // ----- the relayer that is right -----

  /** Everything the relayer holds, in memory and on disk, is a true picture of the chain. */
  predicate Good(total: seq<nat>, n: nat, r: Relayer) {
    && n <= |total|
    && r.leaves <= total && |r.leaves| <= n
    && r.savedLeaves <= total && |r.savedLeaves| <= n
    && TrueCursor(total, r.cursor)
    && (r.savedCursor.Some? ==> TrueCursor(total, r.savedCursor.value))
  }

  lemma RecoverKeepsGood(total: seq<nat>, n: nat, r: Relayer, target: nat, recovered: map<nat, nat>)
    requires Good(total, n, r) && target <= n && TrueRecovery(total, recovered)
    requires Complete(|r.leaves|, target, recovered)
    ensures Good(total, n, Recover(r, target, recovered))
    ensures |r.leaves| <= target ==> Recover(r, target, recovered).leaves == total[..target]
    ensures |Recover(r, target, recovered).leaves| >= |r.leaves|
  {
    var l := InsertRecovered(r.leaves, recovered, target);
    forall j: nat | j < |l| ensures Leaf(l, j) == total[j] {
      assert j < |r.leaves| ==> Leaf(r.leaves, j) == total[j];
    }
    if |r.leaves| < target { assert target - 1 in recovered; }
    PrefixByLeaf(l, total, |l|);
  }

  /** The second half of a sync, on a tree that is not behind the read: all saved state stays true,
      whatever happened since the read, the inference changes no leaf, and the cursor becomes the
      read. */
  lemma SettleKeepsGood(total: seq<nat>, n: nat, r: Relayer, s: Snapshot)
    requires Good(total, n, r) && TrueCursor(total, Cursor(s.next, s.pending)) && |r.leaves| >= s.next
    ensures Good(total, n, Settle(r, s))
    ensures Settle(r, s).leaves == r.leaves && Settle(r, s).cursor == Cursor(s.next, s.pending)
  {
    var from, cs := StartCursor(r, s), Inferred(r, s);
    var l := Settle(r, s).leaves;
    InferredTrue(total, r, s);
    assert |l| == |r.leaves|;
    forall j | 0 <= j < |l| ensures l[j] == r.leaves[j] {
      assert Leaf(l, j) == l[j] && Leaf(r.leaves, j) == r.leaves[j] == total[j];
    }
  }

  /** A sync whose read is not behind the local tree and whose scan is complete keeps the relayer
      right and brings it exactly to the read. */
  lemma SyncKeepsGood(total: seq<nat>, n: nat, r: Relayer, s: Snapshot, recovered: map<nat, nat>)
    requires Good(total, n, r) && s.next <= n && TrueRecovery(total, recovered)
    requires TrueCursor(total, Cursor(s.next, s.pending))
    requires |r.leaves| <= s.next && Complete(|r.leaves|, s.next, recovered)
    ensures Good(total, n, Sync(r, s, recovered))
    ensures Sync(r, s, recovered).leaves == total[..s.next]
    ensures Sync(r, s, recovered).cursor == Cursor(s.next, s.pending)
  {
    RecoverKeepsGood(total, n, r, s.next, recovered);
    SettleKeepsGood(total, n, Recovered(r, s, recovered), s);
  }

  /** A read older than the local tree, such as a reply that arrives after a newer sync, empties
      tree, settled log and both files, and leaves the read's pending list beside a cursor at zero;
      nothing is left for a restart to rebuild from. */
  lemma OldReadErases(r: Relayer, s: Snapshot, recovered: map<nat, nat>)
    requires s.next < |r.leaves|
    ensures var c := Cursor(0, s.pending);
      && Sync(r, s, recovered) == Relayer([], c, [], Some(c), [])
      && Restarted(Sync(r, s, recovered)) == Sync(r, s, recovered)
  {
    assert Inferred(Reset(), s) == [];
  }

  // ----- restart -----

  predicate Logged(log: seq<LogEntry>, j: nat) {
    exists e <- log :: e.leafIndex == j
  }

  lemma {:induction false} ReplayLeaves(total: seq<nat>, n: nat, log: seq<LogEntry>)
    requires TrueLog(total, n, log)
    ensures forall j: nat :: j < |total| ==>
      Leaf(Replay(log), j) == if Logged(log, j) then total[j] else 0
    ensures |Replay(log)| <= n
    decreases |log|
  {
    if log != [] {
      var front, last := log[..|log| - 1], log[|log| - 1];
      assert log == front + [last];
      ReplayLeaves(total, n, front);
      forall j: nat | j < |total|
        ensures Leaf(Replay(log), j) == if Logged(log, j) then total[j] else 0
      {
        if j == last.leafIndex { assert last in log; }
      }
    }
  }

  /** Every index below the replayed length has a log entry. */
  predicate LogCovers(log: seq<LogEntry>) {
    forall j: nat :: j < |Replay(log)| ==> Logged(log, j)
  }

  /** Replaying a true log gives a prefix of the settled leaves exactly when its gaps, if any,
      hold zero commitments. */
  lemma ReplayExact(total: seq<nat>, n: nat, log: seq<LogEntry>)
    requires TrueLog(total, n, log)
    ensures |Replay(log)| <= n
    ensures Replay(log) <= total <==>
      forall j: nat :: j < |Replay(log)| ==> total[j] == 0 || Logged(log, j)
    ensures LogCovers(log) ==> Replay(log) <= total
  {
    ReplayLeaves(total, n, log);
    PrefixByLeaf(Replay(log), total, |Replay(log)|);
    if Replay(log) <= total {
      forall j: nat | j < |Replay(log)|
        ensures total[j] == 0 || Logged(log, j)
      {
        assert Leaf(Replay(log), j) == total[j];
      }
    }
  }

  lemma RestartKeepsGood(total: seq<nat>, n: nat, r: Relayer)
    requires Good(total, n, r) && TrueLog(total, n, r.log) && LogCovers(r.log)
    ensures Good(total, n, Restarted(r))
  {
    ReplayExact(total, n, r.log);
    ReplayLeaves(total, n, r.log);
  }
}
