/**
 * Whole runs of the state store: any mix of commits, crashes, rollbacks, reopenings
 * and removals of the snapshot database.
 */
module StateRuns {
  import opened StateStore
  import opened StateHistory

  datatype Op =
    | Committing(buffer: Buffer)
    | Crashing(buffer: Buffer)      // stopped between the snapshot batch and the state batch
    | RollingBack(n: int)
    | Reopening(maxCount: nat)
    | DroppingSnapshots

  function Next(t: Trace, op: Op): Trace
    requires t.history != []
  {
    match op
    case Committing(buffer) =>
      if Commit(t.store, buffer).Done? then Committed(t, buffer) else t.(store := Commit(t.store, buffer).store)
    case Crashing(buffer) => Crashed(t, buffer)
    case RollingBack(n) =>
      if Rollback(t.store, n).Done? && 0 <= n <= LastId(t) then RolledBack(t, n)
      else t.(store := Rollback(t.store, n).store)
    case Reopening(maxCount) => t.(store := Reopen(t.store, maxCount))
    case DroppingSnapshots => t.(store := DropSnapshots(t.store))
  }

  /** A fresh pair of databases, opened with a positive snapshot count. */
  function Fresh(maxCount: nat): Trace {
    Trace(Store(map[], map[], map[], 0, maxCount, 0, false), [map[]], 0)
  }

  function Run(maxCount: nat, ops: seq<Op>): (t: Trace)
    ensures t.history != []
  {
    if ops == [] then Fresh(maxCount) else Next(Run(maxCount, ops[..|ops| - 1]), ops[|ops| - 1])
  }

  /** Non-empty buffers that leave the bookkeeping key alone, and one snapshot count. */
  predicate Proper(maxCount: nat, op: Op) {
    match op
    case Committing(buffer) => buffer != map[] && LAST_KEY !in buffer
    case Crashing(buffer) => buffer != map[] && LAST_KEY !in buffer
    case Reopening(m) => m == maxCount
    case _ => true
  }

  /**
   * Every retained commit can be undone, and at most maxCount snapshots are retained, the
   * one ahead of the state database after a crash included.
   */
  ghost predicate RunInv(maxCount: nat, t: Trace) {
    && Inv(t) && t.store.maxCount == maxCount && t.store.counter >= LastId(t)
    && LastId(t) - t.floor <= maxCount && t.store.snapLast - t.floor <= maxCount
    && (forall id :: t.floor < id <= LastId(t) && id in t.store.news ==> Undoable(t.store.news[id], id))
  }

  lemma ReopenKeeps(t: Trace, maxCount: nat)
    requires Inv(t) && maxCount >= 1
    ensures var t' := t.(store := Reopen(t.store, maxCount));
            Inv(t') && t'.store.counter == LastId(t') && !t'.store.open
  {
    LastOfAt(t.store.db, t.history, LastId(t));
    hide AtCommit, CleanHistory, LastOf;
  }

  lemma DropKeeps(t: Trace)
    requires Inv(t)
    ensures Inv(t.(store := DropSnapshots(t.store)))
  {
    hide AtCommit, CleanHistory;
  }

  /** The snapshots a commit or a crash leaves are old ones, or the new buffer. */
  lemma NewsAfterCommit(maxCount: nat, t: Trace, buffer: Buffer, s: Store)
    requires RunInv(maxCount, t) && buffer != map[] && LAST_KEY !in buffer
    requires var s1 := t.store.(counter := s.counter, open := s.open);
             s == SnapshotCommit(s1, LastId(t) + 1, buffer).(db := s.db)
    ensures forall id :: NewFloor(t) < id <= LastId(t) + 1 && id in s.news ==> Undoable(s.news[id], id)
    ensures LastId(t) + 1 - NewFloor(t) <= maxCount
  {
    hide AtCommit, CleanHistory, Chained, OriginOf, SnapshotCommit;
    var s1 := t.store.(counter := s.counter, open := s.open);
    SnapshotCommitRange(t, s1, buffer);
    forall id | NewFloor(t) < id <= LastId(t) + 1 && id in s.news ensures Undoable(s.news[id], id) {
      if id <= LastId(t) {
        assert SameSnapshot(t.store, SnapshotCommit(s1, LastId(t) + 1, buffer), id);
      }
    }
  }

  /** The in-memory counter and flag are no part of the invariant. */
  lemma MemoryOnly(t: Trace, s: Store)
    requires Inv(t) && s == t.store.(counter := s.counter, open := s.open)
    ensures Inv(t.(store := s))
  {
    hide AtCommit, CleanHistory;
  }

  lemma CommittingKeeps(maxCount: nat, t: Trace, buffer: Buffer)
    requires RunInv(maxCount, t) && Proper(maxCount, Committing(buffer))
    ensures RunInv(maxCount, Next(t, Committing(buffer)))
  {
    hide AtCommit, CleanHistory, Chained, Contiguous, Undoable, Commit, SnapshotCommit;
    CommitIff(t, buffer);
    if Commit(t.store, buffer).Done? {
      CommitKeeps(t, buffer);
      CommitShape(t, buffer);
      var s1 := t.store.(counter := LastId(t) + 1, open := true);
      SnapshotCommitRangeOf(t, s1, buffer);
      var s' := SnapshotCommit(s1, LastId(t) + 1, buffer);
      NewsAfterCommit(maxCount, t, buffer, s');
    } else {
      MemoryOnly(t, Commit(t.store, buffer).store);
    }
  }

  lemma SnapshotCommitRangeOf(t: Trace, s: Store, buffer: Buffer)
    requires Inv(t) && s == t.store.(counter := s.counter, open := s.open)
    ensures var s' := SnapshotCommit(s, LastId(t) + 1, buffer);
            s' == s.(origin := s'.origin, news := s'.news, snapLast := LastId(t) + 1)
  {
  }

  lemma CrashingKeeps(maxCount: nat, t: Trace, buffer: Buffer)
    requires RunInv(maxCount, t) && Proper(maxCount, Crashing(buffer))
    ensures RunInv(maxCount, Next(t, Crashing(buffer)))
  {
    hide AtCommit, CleanHistory, Chained, Contiguous, Undoable, SnapshotCommit;
    CrashKeeps(t, buffer);
    LastOfAt(t.store.db, t.history, LastId(t));
    var s1 := t.store.(counter := t.store.counter + 1, open := true);
    SnapshotCommitRangeOf(t, s1, buffer);
    NewsAfterCommit(maxCount, t, buffer, SnapshotCommit(s1, LastId(t) + 1, buffer));
  }

  /** In a proper run a rollback within the window always completes. */
  lemma WindowSuffices(maxCount: nat, t: Trace, n: int)
    requires RunInv(maxCount, t)
    ensures Rollback(t.store, n).Done? <==> WithinWindow(t, n)
    ensures Rollback(t.store, n).Panicked? ==> Rollback(t.store, n).store == t.store
  {
    RollbackIff(t, n);
    RollbackCases(t, n);
    hide AtCommit, CleanHistory, Chained, Rollback, Undoable, UndoDown;
    if WithinWindow(t, n) {
      assert forall id :: LastId(t) - n < id <= LastId(t) ==> id in t.store.origin;
    }
  }

  lemma RollingBackKeeps(maxCount: nat, t: Trace, n: int)
    requires RunInv(maxCount, t)
    ensures RunInv(maxCount, Next(t, RollingBack(n)))
  {
    hide AtCommit, CleanHistory, Chained, Contiguous, Rollback, Undoable;
    WindowSuffices(maxCount, t, n);
    if Rollback(t.store, n).Done? {
      RollbackRestores(t, n);
      RollbackShape(t, n);
    }
  }

  lemma StepKeeps(maxCount: nat, t: Trace, op: Op)
    requires RunInv(maxCount, t) && Proper(maxCount, op)
    ensures RunInv(maxCount, Next(t, op))
  {
    match op
    case Committing(buffer) => CommittingKeeps(maxCount, t, buffer);
    case Crashing(buffer) => CrashingKeeps(maxCount, t, buffer);
    case RollingBack(n) => RollingBackKeeps(maxCount, t, n);
    case Reopening(m) => ReopenKeeps(t, m);
    case DroppingSnapshots => DropKeeps(t);
    hide Inv, Undoable, Commit, CrashedCommit, Rollback;
  }

  lemma {:induction false} RunKeeps(maxCount: nat, ops: seq<Op>)
    requires maxCount >= 1 && forall i :: 0 <= i < |ops| ==> Proper(maxCount, ops[i])
    ensures RunInv(maxCount, Run(maxCount, ops))
  {
    hide Next, Proper;
    if ops == [] {
      FreshHolds(maxCount);
    } else {
      RunKeeps(maxCount, ops[..|ops| - 1]);
      StepKeeps(maxCount, Run(maxCount, ops[..|ops| - 1]), ops[|ops| - 1]);
    }
  }

  lemma FreshHolds(maxCount: nat)
    requires maxCount >= 1
    ensures RunInv(maxCount, Fresh(maxCount))
  {
  }

  /**
   * After any proper run Rollback(n) completes exactly when n is at most the number
   * of retained snapshots (never more than maxCount) and the databases agree; it then
   * restores the user's data as it was n commits ago.
   */
  lemma RollbackInvertsHistory(maxCount: nat, ops: seq<Op>, n: int)
    requires maxCount >= 1 && forall i :: 0 <= i < |ops| ==> Proper(maxCount, ops[i])
    ensures var t := Run(maxCount, ops);
            var r := Rollback(t.store, n);
            && (r.Done? <==> n >= 1 && !t.store.open && Agreed(t) && n <= LastId(t) - t.floor)
            && LastId(t) - t.floor <= maxCount && t.store.snapLast - t.floor <= maxCount
            && (r.Panicked? ==> r.store == t.store)
            && (r.Done? ==> && Data(r.store.db) == t.history[LastId(t) - n]
                            && LastOf(r.store.db) == r.store.snapLast == LastId(t) - n)
  {
    hide Inv, Rollback, LastOf, Proper, Run, Undoable, Data;
    RunKeeps(maxCount, ops);
    var t := Run(maxCount, ops);
    WindowSuffices(maxCount, t, n);
    if Rollback(t.store, n).Done? {
      RollbackRestores(t, n);
    }
  }

  /** A transaction is still open, or the in-memory counter is past the last commit. */
  predicate Stuck(t: Trace) {
    t.store.open || t.store.counter > LastId(t)
  }

  /** In a stuck store a commit panics, whatever it writes, and only a reopening ends that. */
  lemma StuckStays(maxCount: nat, t: Trace, op: Op)
    requires RunInv(maxCount, t) && Stuck(t) && !op.Reopening?
    ensures RunInv(maxCount, Next(t, op)) && Stuck(Next(t, op))
    ensures op.Committing? ==> Commit(t.store, op.buffer).Panicked?
  {
    hide Inv, Undoable, Commit, CrashedCommit, Rollback;
    match op {
      case Committing(buffer) =>
        CommitIff(t, buffer);
        StuckMemory(maxCount, t, Commit(t.store, buffer).store);
      case Crashing(buffer) =>
        StuckCrash(t, buffer);
        StuckMemory(maxCount, t, CrashedCommit(t.store, buffer));
      case RollingBack(n) =>
        RollingBackKeeps(maxCount, t, n);
        WindowSuffices(maxCount, t, n);
        if Rollback(t.store, n).Done? {
          RollbackRestores(t, n);
        }
      case DroppingSnapshots => DropRun(maxCount, t);
    }
  }

  lemma StuckCrash(t: Trace, buffer: Buffer)
    requires Inv(t) && Stuck(t)
    ensures var s := CrashedCommit(t.store, buffer);
            && s == t.store.(counter := s.counter, open := s.open) && s.counter >= t.store.counter
            && (t.store.open ==> s.open)
            && Crashed(t, buffer) == t.(store := s)
  {
    LastOfAt(t.store.db, t.history, LastId(t));
    hide AtCommit, CleanHistory, Chained, Contiguous, LastOf, SnapshotCommit;
  }

  lemma StuckMemory(maxCount: nat, t: Trace, s: Store)
    requires RunInv(maxCount, t) && Stuck(t)
    requires s == t.store.(counter := s.counter, open := s.open) && s.counter >= t.store.counter
    requires t.store.open ==> s.open
    ensures RunInv(maxCount, t.(store := s)) && Stuck(t.(store := s))
  {
    MemoryOnly(t, s);
    hide Inv, Undoable;
  }

  lemma DropRun(maxCount: nat, t: Trace)
    requires RunInv(maxCount, t)
    ensures RunInv(maxCount, t.(store := DropSnapshots(t.store)))
  {
    DropKeeps(t);
    hide Inv, Undoable;
  }

  /** In a proper run a commit completes exactly if the store is not stuck. */
  lemma CommitsUnlessStuck(maxCount: nat, t: Trace, buffer: Buffer)
    requires RunInv(maxCount, t)
    ensures Commit(t.store, buffer).Done? <==> !Stuck(t)
  {
    hide Inv, Commit;
    CommitIff(t, buffer);
  }

  /**
   * The in-memory counter is not rolled back: in any run every commit after a completed
   * rollback panics until the store is reopened, whatever comes between.
   */
  lemma {:induction false} RollbackNeedsReopening(maxCount: nat, ops: seq<Op>, i: nat, j: nat)
    requires maxCount >= 1 && forall k :: 0 <= k < |ops| ==> Proper(maxCount, ops[k])
    requires i < j < |ops| && ops[i].RollingBack? && Rollback(Run(maxCount, ops[..i]).store, ops[i].n).Done?
    requires forall k :: i < k < j ==> !ops[k].Reopening?
    ensures Stuck(Run(maxCount, ops[..j]))
    ensures ops[j].Committing? ==> Commit(Run(maxCount, ops[..j]).store, ops[j].buffer).Panicked?
    decreases j
  {
    hide Proper, RunInv, Inv, Rollback, Commit, Next, Stuck;
    RunKeeps(maxCount, ops[..j - 1]);
    RunKeeps(maxCount, ops[..j]);
    assert ops[..j][..j - 1] == ops[..j - 1];
    var t := Run(maxCount, ops[..j - 1]);
    assert Run(maxCount, ops[..j]) == Next(t, ops[j - 1]);
    if i == j - 1 {
      RolledBackIsStuck(maxCount, t, ops[i].n);
    } else {
      RollbackNeedsReopening(maxCount, ops, i, j - 1);
      StuckStays(maxCount, t, ops[j - 1]);
    }
    if ops[j].Committing? {
      CommitsUnlessStuck(maxCount, Run(maxCount, ops[..j]), ops[j].buffer);
    }
  }

  lemma RolledBackIsStuck(maxCount: nat, t: Trace, n: int)
    requires RunInv(maxCount, t) && Rollback(t.store, n).Done?
    ensures Stuck(Next(t, RollingBack(n)))
  {
    hide Inv, Rollback;
    RollbackRestores(t, n);
  }

  lemma RunNext(maxCount: nat, ops: seq<Op>, op: Op)
    ensures Run(maxCount, ops + [op]) == Next(Run(maxCount, ops), op)
  {
    assert (ops + [op])[..|ops|] == ops;
  }

  // ----- runs that go wrong ---------------------------------------------------------------------

  /** One of the first commits: nothing is pruned, and the buffer joins the snapshots. */
  lemma EarlyCommit(maxCount: nat, t: Trace, buffer: Buffer)
    requires Inv(t) && t.store.maxCount == maxCount && LastId(t) + 1 <= maxCount && t.floor == 0
    requires !t.store.open && t.store.counter == LastId(t) && (LastId(t) > 0 ==> t.store.snapLast != 0)
    ensures var t' := Next(t, Committing(buffer));
            && Inv(t') && t'.store.maxCount == maxCount && LastId(t') == LastId(t) + 1 && t'.floor == 0
            && !t'.store.open && t'.store.counter == LastId(t') && Agreed(t')
            && t'.store.news == t.store.news[LastId(t') := buffer]
            && t'.history[..|t.history|] == t.history
  {
    hide Inv, Commit, SnapshotCommit, Expired;
    HistoryStarts(t);
    CommitIff(t, buffer);
    CommitKeeps(t, buffer);
    CommitShape(t, buffer);
    EarlySnapshot(t.store.(counter := LastId(t) + 1, open := true), LastId(t) + 1, buffer);
  }

  lemma HistoryStarts(t: Trace)
    requires Inv(t)
    ensures LastId(t) >= 0
  {
  }

  lemma EarlySnapshot(s: Store, id: int, buffer: Buffer)
    requires 1 <= id <= s.maxCount
    ensures var s' := SnapshotCommit(s, id, buffer);
            s'.news == s.news[id := buffer] && s'.maxCount == s.maxCount && s'.snapLast == id
  {
    assert Expired(s.origin, id - s.maxCount) == {};
    assert s.news - {} == s.news;
  }

  /** A commit, a rollback that completes, and a commit that panics. */
  lemma CommitPanicsAfterRollback(maxCount: nat, first: Buffer, second: Buffer)
    requires maxCount >= 1 && first != map[] && LAST_KEY !in first
    ensures var t1 := Run(maxCount, [Committing(first)]);
            var t2 := Run(maxCount, [Committing(first), RollingBack(1)]);
            && Rollback(t1.store, 1).Done? && Data(t2.store.db) == map[]
            && Commit(t2.store, second).Panicked?
  {
    hide Rollback, Commit, Inv, LastOf, Next, Run;
    var a, b, t0 := Committing(first), RollingBack(1), Fresh(maxCount);
    FreshHolds(maxCount);
    EarlyCommit(maxCount, t0, first);
    var t1 := Next(t0, a);
    assert t1.history[0] == t0.history[0];
    assert WithinWindow(t1, 1) && CanBeUndone(t1.store.news, 1);
    OneBack(t1, second);
    RunNext(maxCount, [], a);
    RunNext(maxCount, [a], b);
    RunNone(maxCount);
    assert [] + [a] == [a] && [a] + [b] == [a, b];
  }

  /** Rolling back an only commit, and committing again. */
  lemma OneBack(t: Trace, buffer: Buffer)
    requires Inv(t) && WithinWindow(t, 1) && CanBeUndone(t.store.news, LastId(t)) && t.store.counter == LastId(t)
    ensures Rollback(t.store, 1).Done?
    ensures var t' := Next(t, RollingBack(1));
            Data(t'.store.db) == t.history[LastId(t) - 1] && Commit(t'.store, buffer).Panicked?
  {
    hide Rollback, Commit, Inv, LastOf, Data;
    RollbackIff(t, 1);
    RollbackRestores(t, 1);
    CommitIff(RolledBack(t, 1), buffer);
  }

  /**
   * An empty commit between two others: rolling back all three panics with the state
   * database at the second commit and the snapshot database at the third.
   */
  lemma HalfWayIsReachable(maxCount: nat, first: Buffer, third: Buffer)
    requires maxCount >= 3
    requires first != map[] && LAST_KEY !in first && third != map[] && LAST_KEY !in third
    ensures var t := Run(maxCount, [Committing(first), Committing(map[]), Committing(third)]);
            var r := Rollback(t.store, 3);
            && r.Panicked? && LastOf(t.store.db) == t.store.snapLast == 3
            && LastOf(r.store.db) == 2 && r.store.snapLast == 3
            && StopsHalfWay(t, 3)
  {
    hide Inv, Commit, Rollback, LastOf, Next, Run, AtCommit;
    var a, b, c := Committing(first), Committing(map[]), Committing(third);
    var t0 := Fresh(maxCount);
    FreshHolds(maxCount);
    var t1 := Next(t0, a);
    EarlyCommit(maxCount, t0, first);
    var t2 := Next(t1, b);
    EarlyCommit(maxCount, t1, map[]);
    var t3 := Next(t2, c);
    EarlyCommit(maxCount, t2, third);
    assert !CanBeUndone(t3.store.news, 2) && StopsHalfWay(t3, 3);
    LastIsLast(t3);
    FailedRollback(t3, 3);
    var k :| StoppedAt(t3, 3, Rollback(t3.store, 3).store, k);
    assert k == 2;
    RunNext(maxCount, [], a);
    RunNext(maxCount, [a], b);
    RunNext(maxCount, [a, b], c);
    RunNone(maxCount);
    assert [] + [a] == [a] && [a] + [b] == [a, b] && [a, b] + [c] == [a, b, c];
  }

  lemma LastIsLast(t: Trace)
    requires Inv(t)
    ensures LastOf(t.store.db) == LastId(t)
  {
    LastOfAt(t.store.db, t.history, LastId(t));
  }

  lemma RunNone(maxCount: nat)
    ensures Run(maxCount, []) == Fresh(maxCount)
  {
  }

  /** Reopening resumes the commits. */
  lemma ReopeningResumes(t: Trace, buffer: Buffer, maxCount: nat)
    requires Inv(t) && maxCount >= 1
    ensures Commit(Reopen(t.store, maxCount), buffer).Done?
  {
    hide Inv, Commit, LastOf;
    ReopenKeeps(t, maxCount);
    CommitIff(t.(store := Reopen(t.store, maxCount)), buffer);
  }

  /**
   * Crash safety of Commit.  After the crash the state database is unchanged and every
   * rollback refuses without a change; reopening and committing the same ID, with
   * whatever data, re-establishes the invariant with the databases in agreement.
   */
  lemma CrashRecovery(t: Trace, lost: Buffer, buffer: Buffer, n: int, maxCount: nat)
    requires Inv(t) && !t.store.open && t.store.counter == LastId(t) && maxCount >= 1
    ensures var c := Crashed(t, lost);
            var r := c.(store := Reopen(c.store, maxCount));
            && c.store.db == t.store.db
            && Rollback(c.store, n) == Panicked(c.store)
            && Rollback(r.store, n) == Panicked(r.store)
            && Commit(r.store, buffer).Done?
            && Inv(Committed(r, buffer)) && Agreed(Committed(r, buffer))
            && Committed(r, buffer).history == t.history + [Written(t.history[LastId(t)], buffer - {LAST_KEY})]
  {
    hide AtCommit, CleanHistory, Contiguous, Chained, Rollback, Commit, LastOf, CrashedCommit;
    var c := Crashed(t, lost);
    var r := c.(store := Reopen(c.store, maxCount));
    CrashKeeps(t, lost);
    RollbackCases(c, n);
    ReopenKeeps(c, maxCount);
    RollbackCases(r, n);
    CommitIff(r, buffer);
    CommitKeeps(r, buffer);
  }

  /**
   * What a buffer must be for its commit to be undone: not empty, and if it writes the
   * bookkeeping key, then the very text the commit stores there.
   */
  lemma OneCommitUndone(t: Trace, buffer: Buffer)
    requires Inv(t) && Commit(t.store, buffer).Done?
    ensures Rollback(Commit(t.store, buffer).store, 1).Done?
       <==> buffer != map[] && (LAST_KEY in buffer ==> buffer[LAST_KEY] == Digits(LastId(t) + 1))
  {
    hide Inv, Rollback, Commit, Digits, SnapshotCommit;
    CommitKeeps(t, buffer);
    CommitShape(t, buffer);
    CommitFloor(t);
    var t' := Committed(t, buffer);
    RollbackIff(t', 1);
    BufferIsStored(t, buffer);
    assert AllUndoable(t', 1) <==> CanBeUndone(t'.store.news, LastId(t'));
  }

  lemma BufferIsStored(t: Trace, buffer: Buffer)
    requires Inv(t) && Commit(t.store, buffer).Done?
    ensures LastId(t) + 1 in Commit(t.store, buffer).store.news
    ensures Commit(t.store, buffer).store.news[LastId(t) + 1] == buffer
  {
    hide Commit, AtCommit, CleanHistory, Chained;
    CommitShape(t, buffer);
  }

  lemma CommitFloor(t: Trace)
    requires Inv(t)
    ensures NewFloor(t) <= LastId(t)
  {
  }
}
