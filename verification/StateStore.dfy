/**
 * The versioned state store: a state database, and in a second database an undo log
 * with the overwritten and the new data of the last commits.  Both databases are
 * maps; stored JSON is its value.  A panic leaves the store as far as it was written.
 */
module StateStore {
  type Key = string
  type Bytes = string
  type Db = map<Key, Bytes>
  type Buffer = map<Key, Bytes>   // an empty value deletes the key

  const LAST_KEY: Key := "$last_transaction_id"

  // ----- numbers as stored text ------------------------------------------------------

  function Digits(n: nat): (s: Bytes)
    ensures s != ""
  {
    var digit := [('0' as int + n % 10) as char];
    if n < 10 then digit else Digits(n / 10) + digit
  }

  function Parse(s: Bytes): int {
    if s == "" then 0
    else 10 * Parse(s[..|s| - 1]) + s[|s| - 1] as int - '0' as int
  }

  lemma {:induction false} ParseDigits(n: nat)
    ensures Parse(Digits(n)) == n
  {
    var digit := [('0' as int + n % 10) as char];
    if n >= 10 {
      ParseDigits(n / 10);
      assert (Digits(n / 10) + digit)[..|Digits(n / 10)|] == Digits(n / 10);
    } else {
      assert digit[..0] == "";
    }
  }

  // ----- databases ---------------------------------------------------------------------

  function Get(db: Db, k: Key): Bytes {
    if k in db then db[k] else ""
  }

  /** A batch write: an empty value deletes. */
  function Written(db: Db, batch: Buffer): Db {
    map k | k in db.Keys + batch.Keys && (k in batch ==> batch[k] != "") :: if k in batch then batch[k] else db[k]
  }

  /** The stored transaction ID; zero when there is none. */
  function LastOf(db: Db): int {
    Parse(Get(db, LAST_KEY))
  }

  datatype Store = Store(
    db: Db,                       // the state database
    origin: map<int, Buffer>,     // "$<id>$origin_data" in the snapshot database
    news: map<int, Buffer>,       // "$<id>$new_data" in the snapshot database
    snapLast: int,                // last transaction ID in the snapshot database
    maxCount: nat,                // "$max_snapshot_count"
    counter: int,                 // lastCommittableTransactionID, in memory
    open: bool)                   // a committable transaction is not committed yet

  datatype Outcome = Done(store: Store) | Panicked(store: Store)

  // ----- commit ---------------------------------------------------------------------------

  /** checkMaxCount: the stored IDs from `id` down to the first that is missing. */
  function Expired(origin: map<int, Buffer>, id: int): (r: set<int>)
    ensures forall i :: i in r ==> 0 < i <= id && i in origin
    decreases id
  {
    if id <= 0 || id !in origin then {} else Expired(origin, id - 1) + {id}
  }

  function OriginOf(db: Db, buffer: Buffer): Buffer {
    map k | k in buffer :: Get(db, k)
  }

  predicate SnapshotAccepts(s: Store, id: int) {
    s.snapLast == 0 || id == s.snapLast + 1 || id == s.snapLast
  }

  /** snapshot.commit: one batch on the snapshot database. */
  function SnapshotCommit(s: Store, id: int, buffer: Buffer): Store {
    var gone := Expired(s.origin, id - s.maxCount);
    s.(origin := if s.maxCount == 0 then s.origin - gone else (s.origin - gone)[id := OriginOf(s.db, buffer)],
       news := if s.maxCount == 0 then s.news - gone else (s.news - gone)[id := buffer],
       snapLast := id)
  }

  function StateCommit(s: Store, id: nat, buffer: Buffer): Store {
    s.(db := Written(s.db, buffer[LAST_KEY := Digits(id)]), open := false)
  }

  predicate CommitAccepted(s: Store, id: int) {
    id == LastOf(s.db) + 1 && id > 0 && SnapshotAccepts(s, id)
  }

  /** Transaction.Commit. */
  function CommitTransaction(s: Store, id: int, buffer: Buffer): Outcome {
    if !CommitAccepted(s, id) then Panicked(s)
    else Done(StateCommit(SnapshotCommit(s, id, buffer), id, buffer))
  }

  /** NewCommittableTransaction. */
  function Begin(s: Store): Outcome {
    if s.open then Panicked(s) else Done(s.(counter := s.counter + 1, open := true))
  }

  /** Opening a transaction, filling it and committing it. */
  function Commit(s: Store, buffer: Buffer): Outcome {
    match Begin(s)
    case Panicked(_) => Panicked(s)
    case Done(s1) => CommitTransaction(s1, s1.counter, buffer)
  }

  /** The process dies after the snapshot batch and before the state batch. */
  function CrashedCommit(s: Store, buffer: Buffer): Store {
    match Begin(s)
    case Panicked(_) => s
    case Done(s1) => if CommitAccepted(s1, s1.counter) then SnapshotCommit(s1, s1.counter, buffer) else s1
  }

  /** New: only the databases survive; the counter is read back from the state database. */
  function Reopen(s: Store, maxCount: nat): Store {
    s.(maxCount := maxCount, counter := LastOf(s.db), open := false)
  }

  /** The snapshot database is removed while the store is closed. */
  function DropSnapshots(s: Store): Store {
    s.(origin := map[], news := map[], snapLast := 0)
  }

  // ----- rollback ----------------------------------------------------------------------------

  predicate Matches(db: Db, data: Buffer) {
    forall k :: k in data ==> Get(db, k) == data[k]
  }

  /** rollbackStateDB: None when it panics; it writes nothing then. */
  predicate CanUndo(s: Store, id: int) {
    && id in s.news && s.news[id] != map[]
    && Matches(s.db, s.news[id])
    && id in s.origin && s.origin[id] != map[]
  }

  function Undo(s: Store, id: int): Store
    requires id in s.origin && id > 0
  {
    s.(db := Written(s.db, s.origin[id][LAST_KEY := Digits(id - 1)]))
  }

  /** The descending loop of snapshot.rollback, one state batch for each ID. */
  function UndoDown(s: Store, id: int, target: int): Outcome
    requires target > 0
    decreases id - target
  {
    if id < target then Done(s)
    else if !CanUndo(s, id) then Panicked(s)
    else UndoDown(Undo(s, id), id - 1, target)
  }

  function Without(m: map<int, Buffer>, lo: int, hi: int): map<int, Buffer> {
    map i | i in m && !(lo <= i <= hi) :: m[i]
  }

  /** The closing batch on the snapshot database. */
  function Forget(s: Store, target: int, last: int): Store {
    s.(origin := Without(s.origin, target, last), news := Without(s.news, target, last), snapLast := target - 1)
  }

  /** StateDB.Rollback. */
  function Rollback(s: Store, n: int): Outcome {
    var last := s.snapLast;
    var target := last - n + 1;
    if n <= 0 || s.open || last != LastOf(s.db) || last - n < 0 then Panicked(s)
    else if target !in s.origin || s.origin[target] == map[] then Panicked(s)
    else
      match UndoDown(s, last, target)
      case Panicked(s1) => Panicked(s1)
      case Done(s1) =>
        Done(Forget(s1, target, last))
  }
}
