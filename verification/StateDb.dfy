/**
 * The state store as objects: the database pair with its in-memory counter, the
 * block-level transaction and the transaction-level buffer.  A method whose checks
 * panic returns false (or null); what it wrote before that stays written.
 */
module StateDb {
  import opened StateStore
  import BufferBytes

  class StateDB {
    var db: Db
    var origin: map<int, Buffer>
    var news: map<int, Buffer>
    var snapLast: int
    var maxCount: nat
    var counter: int
    var open: bool

    function State(): Store
      reads this
    {
      Store(db, origin, news, snapLast, maxCount, counter, open)
    }

    /** New: opens the two databases found on disk. */
    constructor (disk: Store, maxCount: nat)
      ensures State() == Reopen(disk, maxCount)
    {
      db, origin, news, snapLast := disk.db, disk.origin, disk.news, disk.snapLast;
      this.maxCount := maxCount;
      counter := if LAST_KEY in disk.db then Parse(disk.db[LAST_KEY]) else 0;
      open := false;
    }

    method NewCommittableTransaction() returns (t: Transaction?)
      modifies this`counter, this`open
      ensures match Begin(old(State()))
              case Panicked(s) => t == null && State() == s
              case Done(s) => && t != null && fresh(t) && State() == s
                              && t.stateDB == this && t.id == counter && t.committable && t.buffer == map[]
    {
      if open {
        return null;
      }
      counter := counter + 1;
      open := true;
      t := new Transaction(this, counter, true);
    }

    // ----- commit: the snapshot side -------------------------------------------------

    /** checkMaxCount: walks down until an ID is missing. */
    method CheckMaxCount(id: int) returns (gone: set<int>)
      ensures gone == Expired(origin, id - maxCount)
    {
      gone := {};
      var i := id - maxCount;
      while i > 0 && i in origin
        invariant Expired(origin, id - maxCount) == gone + Expired(origin, i)
      {
        gone := gone + {i};
        i := i - 1;
      }
    }

    method SnapshotCommitted(id: int, originData: Buffer, newData: Buffer) returns (ok: bool)
      modifies this`origin, this`news, this`snapLast
      ensures ok == SnapshotAccepts(old(State()), id)
      ensures ok <==> old(snapLast) == 0 || id == old(snapLast) || id == old(snapLast) + 1
      ensures !ok ==> State() == old(State())
      ensures ok && originData == OriginOf(db, newData) ==> State() == SnapshotCommit(old(State()), id, newData)
    {
      if snapLast != 0 && id != snapLast + 1 && id != snapLast {
        return false;
      }
      var gone := CheckMaxCount(id);
      origin, news := origin - gone, news - gone;
      if maxCount != 0 {
        origin, news := origin[id := originData], news[id := newData];
      }
      snapLast := id;
      ok := true;
    }

    // ----- rollback ---------------------------------------------------------------------

    /** Compares the committed data with the database, key by key in any order. */
    method StillThere(data: Buffer) returns (ok: bool)
      ensures ok == Matches(db, data)
    {
      var left := data.Keys;
      while left != {}
        invariant left <= data.Keys
        invariant forall k :: k in data && k !in left ==> StateStore.Get(db, k) == data[k]
        decreases left
      {
        var k :| k in left;
        if StateStore.Get(db, k) != data[k] {
          return false;
        }
        left := left - {k};
      }
      ok := true;
    }

    method RollbackStateDb(id: int) returns (ok: bool)
      requires id > 0
      modifies this`db
      ensures ok == CanUndo(old(State()), id)
      ensures State() == if ok then Undo(old(State()), id) else old(State())
    {
      if id !in news || news[id] == map[] {
        return false;
      }
      ok := StillThere(news[id]);
      if !ok || id !in origin || origin[id] == map[] {
        return false;
      }
      db := Written(db, origin[id][LAST_KEY := Digits(id - 1)]);
    }

    method Rollback(n: int) returns (ok: bool)
      modifies this`db, this`origin, this`news, this`snapLast
      ensures ok == StateStore.Rollback(old(State()), n).Done?
      ensures State() == StateStore.Rollback(old(State()), n).store
    {
      hide CanUndo, Undo, LastOf, Without;
      if n <= 0 || open || snapLast != LastOf(db) || snapLast - n < 0 {
        return false;
      }
      var target := snapLast - n + 1;
      if target !in origin || origin[target] == map[] {
        return false;
      }
      var id := snapLast;
      ghost var before := State();
      while id >= target
        invariant target - 1 <= id <= snapLast
        invariant State() == before.(db := db)
        invariant UndoDown(before, snapLast, target) == UndoDown(State(), id, target)
      {
        ok := RollbackStateDb(id);
        if !ok {
          return;
        }
        id := id - 1;
      }
      origin, news := Without(origin, target, snapLast), Without(news, target, snapLast);
      snapLast := target - 1;
      ok := true;
    }
  }

  class Transaction {
    const stateDB: StateDB
    const id: int
    const committable: bool
    var buffer: Buffer

    constructor (stateDB: StateDB, id: int, committable: bool)
      ensures this.stateDB == stateDB && this.id == id && this.committable == committable && buffer == map[]
    {
      this.stateDB, this.id, this.committable, buffer := stateDB, id, committable, map[];
    }

    function View(k: Key): Bytes
      reads this, stateDB
    {
      if k in buffer then buffer[k] else StateStore.Get(stateDB.db, k)
    }

    method Get(k: Key) returns (v: Bytes)
      ensures v == View(k)
    {
      if k in buffer {
        return buffer[k];
      }
      v := StateStore.Get(stateDB.db, k);
    }

    method Set(k: Key, v: Bytes)
      modifies this
      ensures buffer == old(buffer)[k := v]
    {
      buffer := buffer[k := v];
    }

    method BatchSet(data: Buffer)
      modifies this
      ensures buffer == old(buffer) + data
    {
      var left := data.Keys;
      while left != {}
        invariant left <= data.Keys
        invariant buffer == old(buffer) + (data - left)
        decreases left
      {
        var k :| k in left;
        buffer := buffer[k := data[k]];
        left := left - {k};
      }
    }

    /** The loop of Commit: what is overwritten, and the batch for the state database. */
    method Overwritten() returns (originData: Buffer)
      ensures originData == OriginOf(stateDB.db, buffer)
    {
      originData := map[];
      var left := buffer.Keys;
      while left != {}
        invariant left <= buffer.Keys
        invariant originData == OriginOf(stateDB.db, buffer - left)
        decreases left
      {
        var k :| k in left;
        originData := originData[k := StateStore.Get(stateDB.db, k)];
        left := left - {k};
      }
    }

    method Commit() returns (ok: bool)
      modifies stateDB
      ensures ok == (committable && CommitAccepted(old(stateDB.State()), id))
      ensures stateDB.State() == if ok then CommitTransaction(old(stateDB.State()), id, buffer).store
                                 else old(stateDB.State())
    {
      if !committable || id <= 0 || id != LastOf(stateDB.db) + 1 {
        return false;
      }
      var originData := Overwritten();
      ok := stateDB.SnapshotCommitted(id, originData, buffer);
      if ok {
        stateDB.db := Written(stateDB.db, buffer[LAST_KEY := Digits(id)]);
        stateDB.open := false;
      }
    }

    method Rollback()
      modifies this
      ensures buffer == map[]
    {
      buffer := map[];
    }

    /** The bytes depend on the contents of the buffer only. */
    method GetBuffer() returns (bytes: Bytes)
      ensures forall keys :: BufferBytes.Sorting(keys, buffer.Keys) ==> bytes == BufferBytes.BytesOf(buffer, keys)
      ensures exists keys :: BufferBytes.Sorting(keys, buffer.Keys)
    {
      bytes := BufferBytes.Serialize(buffer);
    }
  }

  class Tx {
    const transaction: Transaction
    var buffer: Buffer

    constructor (transaction: Transaction)
      ensures this.transaction == transaction && buffer == map[]
    {
      this.transaction, buffer := transaction, map[];
    }

    method Get(k: Key) returns (v: Bytes)
      ensures v == StateStore.Get(buffer, k)
    {
      v := StateStore.Get(buffer, k);
    }

    method Set(k: Key, v: Bytes)
      modifies this
      ensures buffer == old(buffer)[k := v]
    {
      buffer := buffer[k := v];
    }

    method BatchSet(data: Buffer)
      modifies this
      ensures buffer == old(buffer) + data
    {
      var left := data.Keys;
      while left != {}
        invariant left <= data.Keys
        invariant buffer == old(buffer) + (data - left)
        decreases left
      {
        var k :| k in left;
        buffer := buffer[k := data[k]];
        left := left - {k};
      }
    }

    /** Merges into the block's buffer; the bytes returned are those of the write set. */
    method Commit() returns (bytes: Bytes, written: Buffer)
      modifies this, transaction
      ensures written == old(buffer) && buffer == map[]
      ensures transaction.buffer == old(transaction.buffer) + old(buffer)
      ensures forall keys :: BufferBytes.Sorting(keys, written.Keys) ==> bytes == BufferBytes.BytesOf(written, keys)
      ensures exists keys :: BufferBytes.Sorting(keys, written.Keys)
    {
      transaction.BatchSet(buffer);
      bytes := BufferBytes.Serialize(buffer);
      written := buffer;
      buffer := map[];
    }

    method Rollback()
      modifies this
      ensures buffer == map[]
    {
      buffer := map[];
    }
  }
}
