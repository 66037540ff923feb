/**
 * The state store against its history: what every commit, rollback, reopening and
 * crash keeps, and that a rollback is the inverse of the commits it takes back.
 */
module StateHistory {
  import opened StateStore

  /** The user's data: everything but the bookkeeping key. */
  function Data(db: Db): Db {
    db - {LAST_KEY}
  }

  /** A database never stores an empty value. */
  predicate Clean(db: Db) {
    forall k :: k in db ==> db[k] != ""
  }

  /**
   * `history[i]` is the user's data after commit i, and (floor, snapLast] is the
   * range of retained snapshots.
   */
  datatype Trace = Trace(store: Store, history: seq<Db>, floor: nat)

  /** The snapshot of commit `id` leads from one state of the history to the next. */
  ghost predicate Linked(history: seq<Db>, id: int, o: Buffer, n: Buffer)
    requires 0 < id < |history|
  {
    && o.Keys == n.Keys
    && (forall k :: k in n && k != LAST_KEY ==> o[k] == Get(history[id - 1], k))
    && history[id] == Written(history[id - 1], n - {LAST_KEY})
  }

  /** The state database stands at commit `id` of the history. */
  ghost predicate AtCommit(db: Db, history: seq<Db>, id: int) {
    && 0 <= id < |history|
    && Data(db) == history[id]
    && (if LAST_KEY in db then db[LAST_KEY] == Digits(id) else id == 0)
  }

  /** The retained snapshots are exactly those of the IDs in (floor, snapLast]. */
  ghost predicate Contiguous(s: Store, floor: nat) {
    && (forall id :: id in s.origin <==> floor < id <= s.snapLast)
    && s.news.Keys == s.origin.Keys
  }

  ghost predicate Chained(s: Store, history: seq<Db>, floor: nat)
    requires Contiguous(s, floor)
  {
    forall id :: floor < id <= s.snapLast && id < |history| ==> Linked(history, id, s.origin[id], s.news[id])
  }

  predicate CleanHistory(history: seq<Db>) {
    forall i :: 0 <= i < |history| ==> Clean(history[i]) && LAST_KEY !in history[i]
  }

  /**
   * The store invariant.  The snapshot database is at the last commit, or one ahead
   * of it after a crash, or removed.
   */
  ghost predicate Inv(t: Trace) {
    var last := |t.history| - 1;
    && t.floor <= last
    && CleanHistory(t.history)
    && AtCommit(t.store.db, t.history, last)
    && (t.store.snapLast == last || t.store.snapLast == last + 1 || t.store.snapLast == 0)
    && Contiguous(t.store, t.floor)
    && Chained(t.store, t.history, t.floor)
    && t.store.maxCount >= 1
  }

  function LastId(t: Trace): int {
    |t.history| - 1
  }

  /** Both databases agree on the last ID. */
  predicate Agreed(t: Trace) {
    t.store.snapLast == LastId(t)
  }

  lemma LastOfAt(db: Db, history: seq<Db>, id: int)
    requires AtCommit(db, history, id)
    ensures LastOf(db) == id
  {
    ParseDigits(id);
    assert Parse("") == 0;
  }

  // ----- one commit -----------------------------------------------------------------------

  /** After a commit at most maxCount snapshots remain, the last ones. */
  function NewFloor(t: Trace): nat
    requires t.history != []
  {
    var oldest := LastId(t) + 1 - t.store.maxCount;
    if t.store.snapLast == 0 then LastId(t) else if oldest > t.floor then oldest else t.floor
  }

  /** Expired stops at the first missing ID, which is where the retained range starts. */
  lemma {:induction false} ExpiredRange(origin: map<int, Buffer>, floor: nat, top: int, id: int)
    requires forall i :: i in origin <==> floor < i <= top
    requires id <= top
    ensures forall i :: i in Expired(origin, id) <==> floor < i <= id
    decreases id
  {
    if id > 0 && id in origin {
      ExpiredRange(origin, floor, top, id - 1);
    }
  }

  lemma SnapshotCommitRange(t: Trace, s: Store, buffer: Buffer)
    requires |t.history| > 0 && Contiguous(t.store, t.floor) && t.floor <= LastId(t) && t.store.maxCount >= 1
    requires t.store.snapLast == LastId(t) || t.store.snapLast == LastId(t) + 1 || t.store.snapLast == 0
    requires s == t.store.(counter := s.counter, open := s.open)
    ensures var id := LastId(t) + 1;
            var s' := SnapshotCommit(s, id, buffer);
            && t.floor <= NewFloor(t) <= LastId(t)
            && Contiguous(s', NewFloor(t))
            && (forall i :: NewFloor(t) < i < id ==> SameSnapshot(t.store, s', i))
            && s'.origin[id] == OriginOf(t.store.db, buffer) && s'.news[id] == buffer
            && s' == s.(origin := s'.origin, news := s'.news, snapLast := id)
            && id - NewFloor(t) <= t.store.maxCount
  {
    hide Expired, OriginOf;
    KeptIds(t);
  }

  /** Pruning keeps exactly the retained IDs above the new floor. */
  lemma KeptIds(t: Trace)
    requires |t.history| > 0 && Contiguous(t.store, t.floor) && t.floor <= LastId(t) && t.store.maxCount >= 1
    requires t.store.snapLast == LastId(t) || t.store.snapLast == LastId(t) + 1 || t.store.snapLast == 0
    ensures t.floor <= NewFloor(t) <= LastId(t)
    ensures var gone := Expired(t.store.origin, LastId(t) + 1 - t.store.maxCount);
            forall i :: i in t.store.origin && i !in gone <==> NewFloor(t) < i <= t.store.snapLast
  {
    if t.store.snapLast != 0 {
      ExpiredRange(t.store.origin, t.floor, t.store.snapLast, LastId(t) + 1 - t.store.maxCount);
    }
    hide Expired;
  }

  predicate SameSnapshot(s: Store, s': Store, id: int) {
    && id in s.origin && id in s'.origin && s'.origin[id] == s.origin[id]
    && id in s.news && id in s'.news && s'.news[id] == s.news[id]
  }

  lemma ChainedFrame(s: Store, history: seq<Db>, floor: nat, s': Store, history': seq<Db>, floor': nat)
    requires Contiguous(s, floor) && Chained(s, history, floor) && Contiguous(s', floor')
    requires history <= history'
    requires forall i :: floor' < i <= s'.snapLast && i < |history| ==> SameSnapshot(s, s', i)
    requires forall i :: floor' < i <= s'.snapLast && |history| <= i < |history'| ==>
               Linked(history', i, s'.origin[i], s'.news[i])
    ensures Chained(s', history', floor')
  {
    forall i | floor' < i <= s'.snapLast && i < |history'| ensures Linked(history', i, s'.origin[i], s'.news[i]) {
      if i < |history| {
        assert SameSnapshot(s, s', i);
        assert Linked(history, i, s.origin[i], s.news[i]);
      }
    }
  }

  /** The trace after a crash between the two batches; the history does not grow. */
  function Crashed(t: Trace, buffer: Buffer): Trace
    requires t.history != []
  {
    Trace(CrashedCommit(t.store, buffer), t.history,
          if !t.store.open && CommitAccepted(t.store, t.store.counter + 1) then NewFloor(t) else t.floor)
  }

  /** A crash between the two batches leaves the state database where it was. */
  lemma CrashKeeps(t: Trace, buffer: Buffer)
    requires Inv(t)
    ensures Inv(Crashed(t, buffer)) && Crashed(t, buffer).store.db == t.store.db
    ensures !t.store.open && t.store.counter == LastId(t) ==> !Agreed(Crashed(t, buffer))
  {
    hide AtCommit, CleanHistory, LastOf, SnapshotCommit, SameSnapshot, OriginOf;
    LastOfAt(t.store.db, t.history, LastId(t));
    var s1 := t.store.(counter := t.store.counter + 1, open := true);
    SnapshotCommitRange(t, s1, buffer);
    var s := CrashedCommit(t.store, buffer);
    assert forall i :: t.floor < i <= t.store.snapLast ==> SameSnapshot(t.store, t.store, i) by {
      SameAsItself(t);
    }
    var t' := Crashed(t, buffer);
    assert Contiguous(s, t'.floor);
    SameDespiteDb(t.store, t.store, s1);
    hide Contiguous;
    ChainedFrame(t.store, t.history, t.floor, s, t.history, t'.floor);
  }

  lemma SameAsItself(t: Trace)
    requires Contiguous(t.store, t.floor)
    ensures forall i :: t.floor < i <= t.store.snapLast ==> SameSnapshot(t.store, t.store, i)
  {
  }

  lemma WrittenData(db: Db, buffer: Buffer, v: Bytes)
    requires v != ""
    ensures Data(Written(db, buffer[LAST_KEY := v])) == Written(Data(db), buffer - {LAST_KEY})
    ensures LAST_KEY in Written(db, buffer[LAST_KEY := v]) && Written(db, buffer[LAST_KEY := v])[LAST_KEY] == v
  {
  }

  function Committed(t: Trace, buffer: Buffer): Trace
    requires t.history != []
  {
    Trace(Commit(t.store, buffer).store, t.history + [Written(t.history[LastId(t)], buffer - {LAST_KEY})], NewFloor(t))
  }

  /**
   * A commit completes exactly when no transaction is open and the in-memory counter
   * stands at the last ID; otherwise neither database changes.
   */
  lemma CommitIff(t: Trace, buffer: Buffer)
    requires Inv(t)
    ensures Commit(t.store, buffer).Done? <==> !t.store.open && t.store.counter == LastId(t)
    ensures Commit(t.store, buffer).Panicked? ==>
              var s := Commit(t.store, buffer).store;
              && s == t.store.(counter := s.counter, open := s.open)
              && s.counter >= t.store.counter && (t.store.open ==> s.open)
  {
    LastOfAt(t.store.db, t.history, LastId(t));
    hide AtCommit, CleanHistory, LastOf, Contiguous, Chained, SnapshotCommit, StateCommit;
  }

  /**
   * In any store, whatever its history, a commit completes exactly if no transaction is
   * open, its ID follows the state database's last one, and it repeats or follows the
   * snapshot database's last one, if that has any.
   */
  lemma CommitCompletesIff(s: Store, buffer: Buffer)
    ensures Commit(s, buffer).Done? <==>
              && !s.open && s.counter == Parse(Get(s.db, LAST_KEY)) && s.counter >= 0
              && (s.snapLast == 0 || s.counter + 1 == s.snapLast || s.counter == s.snapLast)
  {
    hide Parse, SnapshotCommit, StateCommit;
  }

  lemma CommitShape(t: Trace, buffer: Buffer)
    requires Inv(t) && Commit(t.store, buffer).Done?
    ensures var id := LastId(t) + 1;
            var s1 := t.store.(counter := id, open := true);
            var s' := SnapshotCommit(s1, id, buffer);
            Commit(t.store, buffer).store == s'.(db := Written(s'.db, buffer[LAST_KEY := Digits(id)]), open := false)
  {
    CommitIff(t, buffer);
    hide AtCommit, CleanHistory, Contiguous, Chained, LastOf, SnapshotCommit, Written;
  }

  lemma SnapshotKeepsDb(s: Store, id: int, buffer: Buffer)
    ensures SnapshotCommit(s, id, buffer).db == s.db
  {
  }

  lemma CommitState(t: Trace, buffer: Buffer)
    requires Inv(t) && Commit(t.store, buffer).Done?
    ensures var t' := Committed(t, buffer);
            && CleanHistory(t'.history) && AtCommit(t'.store.db, t'.history, LastId(t'))
  {
    hide Contiguous, Chained, Digits, Commit, SnapshotCommit, Written;
    var id := LastId(t) + 1;
    CommitShape(t, buffer);
    SnapshotKeepsDb(t.store.(counter := id, open := true), id, buffer);
    ParseDigits(id);
    WrittenData(t.store.db, buffer, Digits(id));
    NextIsClean(t.history[LastId(t)], buffer);
  }

  lemma NextIsClean(db: Db, buffer: Buffer)
    requires LAST_KEY !in db && Clean(db)
    ensures Clean(Written(db, buffer - {LAST_KEY})) && LAST_KEY !in Written(db, buffer - {LAST_KEY})
  {
  }

  lemma CommitSnapshots(t: Trace, buffer: Buffer)
    requires Inv(t) && Commit(t.store, buffer).Done?
    ensures var t' := Committed(t, buffer);
            && Contiguous(t'.store, t'.floor) && Chained(t'.store, t'.history, t'.floor)
            && Agreed(t') && LastId(t') - t'.floor <= t'.store.maxCount
  {
    hide AtCommit, CleanHistory, LastOf, Commit, SnapshotCommit, Linked, Written, OriginOf, Digits, SameSnapshot;
    var id := LastId(t) + 1;
    var s1 := t.store.(counter := id, open := true);
    var t' := Committed(t, buffer);
    CommitShape(t, buffer);
    SnapshotCommitRange(t, s1, buffer);
    assert Contiguous(t'.store, t'.floor);
    NewLink(t.store.db, t.history, buffer);
    assert forall i :: t'.floor < i < id ==> SameSnapshot(t.store, t'.store, i) by {
      SameDespiteDb(t.store, SnapshotCommit(s1, id, buffer), t'.store);
    }
    hide Contiguous;
    ChainedFrame(t.store, t.history, t.floor, t'.store, t'.history, t'.floor);
  }

  lemma SameDespiteDb(s: Store, s': Store, s'': Store)
    requires s''.origin == s'.origin && s''.news == s'.news
    ensures forall i :: SameSnapshot(s, s', i) <==> SameSnapshot(s, s'', i)
  {
  }

  lemma NewLink(db: Db, history: seq<Db>, buffer: Buffer)
    requires AtCommit(db, history, |history| - 1)
    ensures var next := Written(history[|history| - 1], buffer - {LAST_KEY});
            Linked(history + [next], |history|, OriginOf(db, buffer), buffer)
  {
    forall k | k in buffer && k != LAST_KEY ensures Get(db, k) == Get(Data(db), k) {
    }
  }

  /** A commit adds one state to the history and leaves at most maxCount snapshots. */
  lemma CommitKeeps(t: Trace, buffer: Buffer)
    requires Inv(t) && Commit(t.store, buffer).Done?
    ensures var t' := Committed(t, buffer);
            && Inv(t') && Agreed(t') && t'.store.counter == LastId(t') && !t'.store.open
            && LastId(t') - t'.floor <= t'.store.maxCount
  {
    CommitIff(t, buffer);
    CommitState(t, buffer);
    CommitSnapshots(t, buffer);
    hide AtCommit, CleanHistory, LastOf, Contiguous, Chained, Written, Expired, OriginOf;
  }

  // ----- undoing commits ----------------------------------------------------------------------

  /** Writing back what was overwritten restores the database. */
  lemma UndoInverse(before: Db, o: Buffer, n: Buffer)
    requires Clean(before) && o.Keys == n.Keys && forall k :: k in n ==> o[k] == Get(before, k)
    ensures Written(Written(before, n), o) == before
  {
  }

  /** What a rollback checks of one snapshot, in terms of the buffer committed. */
  predicate Undoable(n: Buffer, id: nat) {
    n != map[] && (LAST_KEY in n ==> n[LAST_KEY] == Digits(id))
  }

  predicate CanBeUndone(news: map<int, Buffer>, id: int)
    requires id >= 0
  {
    id in news && Undoable(news[id], id)
  }

  lemma UndoOne(s: Store, history: seq<Db>, id: int)
    requires id > 0 && AtCommit(s.db, history, id) && id in s.origin && id in s.news
    requires Clean(history[id - 1]) && LAST_KEY !in history[id - 1]
    requires Linked(history, id, s.origin[id], s.news[id])
    ensures CanUndo(s, id) <==> Undoable(s.news[id], id)
    ensures CanUndo(s, id) ==> AtCommit(Undo(s, id).db, history, id - 1)
  {
    var o, n := s.origin[id], s.news[id];
    assert o == map[] <==> n == map[] by {
      assert o.Keys == {} <==> n.Keys == {};
    }
    forall k | k in n && k != LAST_KEY ensures Get(s.db, k) == n[k] {
      assert Get(Data(s.db), k) == Get(s.db, k);
    }
    WrittenData(s.db, o, Digits(id - 1));
    UndoInverse(history[id - 1], o - {LAST_KEY}, n - {LAST_KEY});
  }

  /** The newest commit in (target - 1, id] that cannot be undone; target - 1 when all can. */
  function Obstacle(news: map<int, Buffer>, id: int, target: nat): int
    requires target > 0
    decreases id - target
  {
    if id < target then target - 1
    else if CanBeUndone(news, id) then Obstacle(news, id - 1, target)
    else id
  }

  lemma AtCommitBounds(db: Db, history: seq<Db>, id: int)
    requires AtCommit(db, history, id)
    ensures 0 <= id < |history|
  {
  }

  lemma {:induction false} UndoRange(s: Store, history: seq<Db>, floor: nat, id: int, target: int)
    requires Contiguous(s, floor) && Chained(s, history, floor) && CleanHistory(history)
    requires id <= s.snapLast && floor < target && target - 1 <= id
    requires AtCommit(s.db, history, id)
    ensures var r := UndoDown(s, id, target);
            var k := Obstacle(s.news, id, target);
            && (r.Done? <==> k == target - 1)
            && r.store == s.(db := r.store.db)
            && target - 1 <= k <= id && AtCommit(r.store.db, history, k)
    decreases id - target
  {
    hide AtCommit, CanUndo, Undoable, Linked, Written, Clean;
    if id >= target {
      assert id in s.origin && 0 < id < |history| by {
        AtCommitBounds(s.db, history, id);
      }
      assert Clean(history[id - 1]);
      UndoOne(s, history, id);
      if CanUndo(s, id) {
        UndoRange(Undo(s, id), history, floor, id - 1, target);
      }
    }
  }

  /** Every one of the last n commits can be undone. */
  predicate AllUndoable(t: Trace, n: int)
    requires n <= LastId(t)
  {
    forall id :: LastId(t) - n < id <= LastId(t) ==> CanBeUndone(t.store.news, id)
  }

  lemma {:induction false} ObstacleFree(news: map<int, Buffer>, id: int, target: nat)
    requires target > 0
    ensures Obstacle(news, id, target) == target - 1
       <==> forall i :: target <= i <= id ==> CanBeUndone(news, i)
    decreases id - target
  {
    if id >= target {
      ObstacleFree(news, id - 1, target);
    }
  }

  /** No more snapshots are asked for than are retained, and the databases agree. */
  predicate WithinWindow(t: Trace, n: int) {
    n >= 1 && !t.store.open && Agreed(t) && n <= LastId(t) - t.floor
  }

  /** Outside the window nothing is written; inside, the loop runs from the last commit. */
  lemma RollbackCases(t: Trace, n: int)
    requires Inv(t)
    ensures !WithinWindow(t, n) ==> Rollback(t.store, n) == Panicked(t.store)
    ensures WithinWindow(t, n) ==>
              var last := LastId(t);
              var target := last - n + 1;
              && (t.store.news[target] == map[] ==> Rollback(t.store, n) == Panicked(t.store))
              && (t.store.news[target] != map[] ==>
                    match UndoDown(t.store, last, target)
                    case Panicked(s1) => Rollback(t.store, n) == Panicked(s1)
                    case Done(s1) => Rollback(t.store, n) == Done(Forget(s1, target, last)))
  {
    hide AtCommit, CleanHistory, LastOf, UndoDown, Forget, Chained;
    LastOfAt(t.store.db, t.history, LastId(t));
    if WithinWindow(t, n) {
      EmptyTogether(t, LastId(t) - n + 1);
    }
  }

  lemma EmptyTogether(t: Trace, id: int)
    requires Contiguous(t.store, t.floor) && Chained(t.store, t.history, t.floor)
    requires t.floor < id <= t.store.snapLast && id < |t.history|
    ensures id in t.store.origin && id in t.store.news
    ensures t.store.origin[id] == map[] <==> t.store.news[id] == map[]
  {
    assert id in t.store.origin;
    assert Linked(t.history, id, t.store.origin[id], t.store.news[id]);
    assert t.store.origin[id].Keys == t.store.news[id].Keys;
  }

  lemma NotEmpty(news: map<int, Buffer>, id: nat)
    requires CanBeUndone(news, id)
    ensures news[id] != map[]
  {
  }

  /**
   * Rollback(n) completes exactly when the two databases agree, n is at most the
   * number of retained snapshots and each of the last n buffers can be undone.
   */
  lemma RollbackIff(t: Trace, n: int)
    requires Inv(t)
    ensures Rollback(t.store, n).Done? <==> WithinWindow(t, n) && AllUndoable(t, n)
  {
    hide Rollback, AtCommit, CleanHistory, Chained, UndoDown, Obstacle, Undoable, LastOf;
    RollbackCases(t, n);
    if WithinWindow(t, n) {
      var last := LastId(t);
      UndoRange(t.store, t.history, t.floor, last, last - n + 1);
      ObstacleFree(t.store.news, last, last - n + 1);
      if CanBeUndone(t.store.news, last - n + 1) {
        NotEmpty(t.store.news, last - n + 1);
      }
    }
  }

  function RolledBack(t: Trace, n: nat): Trace
    requires n <= LastId(t)
  {
    Trace(Rollback(t.store, n).store, t.history[..LastId(t) - n + 1], t.floor)
  }

  /** A completed rollback is the inverse of the commits it takes back. */
  lemma RollbackRestores(t: Trace, n: int)
    requires Inv(t) && Rollback(t.store, n).Done?
    ensures 1 <= n <= LastId(t)
    ensures var t' := RolledBack(t, n);
            && Inv(t') && Agreed(t')
            && Data(t'.store.db) == t.history[LastId(t) - n]
            && LastOf(t'.store.db) == t'.store.snapLast == LastId(t) - n
            && t'.store.counter == t.store.counter && !t'.store.open
  {
    hide Rollback, AtCommit, CleanHistory, Contiguous, Chained, Without, LastOf;
    RollbackShape(t, n);
    var target := LastId(t) - n + 1;
    var t' := RolledBack(t, n);
    TruncatedHistory(t.history, t'.store.db, target);
    LastOfAt(t'.store.db, t'.history, target - 1);
    TruncatedChain(t, t', target);
  }

  lemma RollbackShape(t: Trace, n: int)
    requires Inv(t) && Rollback(t.store, n).Done?
    ensures WithinWindow(t, n)
    ensures var s := Rollback(t.store, n).store;
            var last := LastId(t);
            && AtCommit(s.db, t.history, last - n)
            && s == Forget(t.store.(db := s.db), last - n + 1, last)
  {
    hide Rollback, AtCommit, CleanHistory, Contiguous, Chained, UndoDown, Obstacle, Without;
    RollbackCases(t, n);
    UndoRange(t.store, t.history, t.floor, LastId(t), LastId(t) - n + 1);
  }

  lemma TruncatedHistory(history: seq<Db>, db: Db, target: int)
    requires 0 < target <= |history| && CleanHistory(history) && AtCommit(db, history, target - 1)
    ensures CleanHistory(history[..target]) && AtCommit(db, history[..target], target - 1)
    ensures Data(db) == history[target - 1]
  {
  }

  lemma TruncatedChain(t: Trace, t': Trace, target: int)
    requires Contiguous(t.store, t.floor) && Chained(t.store, t.history, t.floor) && t.floor < target <= |t.history|
    requires t'.history == t.history[..target] && t'.floor == t.floor && t'.store.snapLast == target - 1
    requires t'.store.origin == Without(t.store.origin, target, t.store.snapLast)
    requires t'.store.news == Without(t.store.news, target, t.store.snapLast)
    requires t.store.snapLast == |t.history| - 1
    ensures Contiguous(t'.store, t'.floor) && Chained(t'.store, t'.history, t'.floor)
  {
    forall i | t'.floor < i < target ensures Linked(t'.history, i, t'.store.origin[i], t'.store.news[i]) {
      assert Linked(t.history, i, t.store.origin[i], t.store.news[i]);
    }
  }

  /** Of the commits asked for the newest can be undone, another cannot, and the oldest is not empty. */
  predicate StopsHalfWay(t: Trace, n: int)
  {
    && WithinWindow(t, n)
    && CanBeUndone(t.store.news, LastId(t)) && !AllUndoable(t, n)
    && LastId(t) - n + 1 in t.store.news && t.store.news[LastId(t) - n + 1] != map[]
  }

  /** Every commit after k is undone and k is not: the databases disagree. */
  ghost predicate StoppedAt(t: Trace, n: int, s: Store, k: int) {
    && 0 <= LastId(t) - n < k < LastId(t)
    && !CanBeUndone(t.store.news, k)
    && (forall id :: k < id <= LastId(t) ==> CanBeUndone(t.store.news, id))
    && AtCommit(s.db, t.history, k) && LastOf(s.db) == k
    && s.snapLast == LastId(t)
  }

  lemma {:induction false} ObstacleIs(news: map<int, Buffer>, id: int, target: nat)
    requires target > 0 && target - 1 <= id
    ensures var k := Obstacle(news, id, target);
            && target - 1 <= k <= id
            && (k >= target ==> !CanBeUndone(news, k))
            && (forall i :: k < i <= id ==> CanBeUndone(news, i))
    decreases id - target
  {
    if id >= target && CanBeUndone(news, id) {
      ObstacleIs(news, id - 1, target);
    }
  }

  /** Where the newest commit cannot be undone nothing is written. */
  lemma FirstUndo(t: Trace, target: int)
    requires Inv(t) && Agreed(t) && t.floor < target <= LastId(t)
    requires !CanBeUndone(t.store.news, LastId(t))
    ensures UndoDown(t.store, LastId(t), target) == Panicked(t.store)
  {
    hide Undoable, AtCommit, Linked, Written, CanUndo, Clean, LastOf;
    var last := LastId(t);
    assert last in t.store.origin && last in t.store.news.Keys;
    assert Clean(t.history[last - 1]) && LAST_KEY !in t.history[last - 1];
    UndoOne(t.store, t.history, last);
  }

  /** The loop of a rollback that stops. */
  lemma LoopStops(t: Trace, n: int)
    requires Inv(t) && WithinWindow(t, n)
    requires UndoDown(t.store, LastId(t), LastId(t) - n + 1).Panicked?
    ensures var s := UndoDown(t.store, LastId(t), LastId(t) - n + 1).store;
            if CanBeUndone(t.store.news, LastId(t))
            then s.db != t.store.db && exists k :: StoppedAt(t, n, s, k)
            else s == t.store
  {
    hide Undoable, AtCommit, CleanHistory, Contiguous, Chained, UndoDown, Obstacle, CanBeUndone, LastOf;
    var last, target := LastId(t), LastId(t) - n + 1;
    var s, k := UndoDown(t.store, last, target).store, Obstacle(t.store.news, last, target);
    UndoRange(t.store, t.history, t.floor, last, target);
    ObstacleIs(t.store.news, last, target);
    LastOfAt(s.db, t.history, k);
    LastOfAt(t.store.db, t.history, last);
    if CanBeUndone(t.store.news, last) {
      assert StoppedAt(t, n, s, k);
    } else {
      FirstUndo(t, target);
    }
  }

  /**
   * A rollback that does not complete leaves the snapshot database as it is.  It has
   * written to the state database exactly if it could undo the newest commit but not all
   * of them; the state database then stands at the newest commit that cannot be undone,
   * and the two databases disagree.
   */
  lemma FailedRollback(t: Trace, n: int)
    requires Inv(t)
    ensures Rollback(t.store, n).Panicked? ==>
              Rollback(t.store, n).store == t.store.(db := Rollback(t.store, n).store.db)
    ensures Rollback(t.store, n).Panicked? && Rollback(t.store, n).store != t.store <==> StopsHalfWay(t, n)
    ensures StopsHalfWay(t, n) ==> exists k :: StoppedAt(t, n, Rollback(t.store, n).store, k)
  {
    hide Rollback, AtCommit, CleanHistory, Chained, Obstacle, UndoDown, StoppedAt, Undoable;
    RollbackCases(t, n);
    RollbackIff(t, n);
    if WithinWindow(t, n) {
      UndoRange(t.store, t.history, t.floor, LastId(t), LastId(t) - n + 1);
      if UndoDown(t.store, LastId(t), LastId(t) - n + 1).Panicked? {
        LoopStops(t, n);
      }
    }
  }
}
