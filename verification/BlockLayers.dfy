/**
 * The layers over the database: transaction buffers over the block's buffer over the
 * committed state, and the account nonces that are written past the transaction
 * buffers.  The bookkeeping key of the store is not part of this view.
 */
module BlockLayers {
  import opened StateStore

  const UINT64 := 0x1_0000_0000_0000_0000

  /** The uint64 value of a sum, which wraps. */
  function Uint64(x: int): (r: nat)
    ensures r < UINT64
  {
    x % UINT64
  }

  datatype Block = Block(base: Db, buffer: Buffer, txs: map<int, Buffer>)

  datatype Op =
    | OpenTx(tx: int)                             // NewTx
    | Write(tx: int, data: Buffer)                // set, batchSet
    | CommitTx(tx: int)
    | RollbackTx(tx: int)
    | TakeNonce(tx: int, account: string, nonce: int)
    | BlockWrite(data: Buffer)                    // CommitTx2V1, Transaction.Set and BatchSet
    | CommitBlock                                 // and the next block begins

  function NonceKey(account: string): Key {
    "/account/ex/" + account + "/account"
  }

  function AccountKey(account: string): Key {
    "/account/ex/" + account
  }

  function BlockView(b: Block, k: Key): Bytes {
    if k in b.buffer then b.buffer[k] else Get(b.base, k)
  }

  /** get: an empty value in the transaction's buffer falls through to the block. */
  function View(b: Block, tx: int, k: Key): Bytes {
    if tx in b.txs && Get(b.txs[tx], k) != "" then Get(b.txs[tx], k) else BlockView(b, k)
  }

  function NonceOf(v: Bytes): int {
    Parse(v)
  }

  /** CheckAccountNonce, on wrapping numbers. */
  predicate NonceAccepted(b: Block, tx: int, account: string, nonce: int) {
    nonce == Uint64(NonceOf(View(b, tx, NonceKey(account))) + 1)
  }

  /** SetAccountNonce: on first use the nonce key is also listed under the account. */
  function NonceWrites(b: Block, tx: int, account: string, nonce: nat): Buffer {
    var listed := if View(b, tx, NonceKey(account)) == ""
                  then map[AccountKey(account) := View(b, tx, AccountKey(account)) + NonceKey(account)] else map[];
    listed[NonceKey(account) := Digits(nonce)]
  }

  predicate Accepts(b: Block, op: Op) {
    match op
    case OpenTx(tx) => true
    case Write(tx, _) => tx in b.txs
    case CommitTx(tx) => tx in b.txs
    case RollbackTx(tx) => tx in b.txs
    case TakeNonce(tx, account, nonce) => NonceAccepted(b, tx, account, nonce)
    case BlockWrite(_) => true
    case CommitBlock => true
  }

  /** An operation that is not accepted panics or returns an error; nothing is written. */
  function Step(b: Block, op: Op): Block {
    if !Accepts(b, op) then b
    else
      match op
      case OpenTx(tx) => b.(txs := b.txs[tx := map[]])
      case Write(tx, data) => b.(txs := b.txs[tx := b.txs[tx] + data])
      case CommitTx(tx) => b.(buffer := b.buffer + b.txs[tx], txs := b.txs[tx := map[]])
      case RollbackTx(tx) => b.(txs := b.txs[tx := map[]])
      case TakeNonce(tx, account, nonce) => b.(buffer := b.buffer + NonceWrites(b, tx, account, nonce))
      case BlockWrite(data) => b.(buffer := b.buffer + data)
      case CommitBlock => Block(Written(b.base, b.buffer), map[], map[])
  }

  function RunFrom(b: Block, ops: seq<Op>): Block {
    if ops == [] then b else Step(RunFrom(b, ops[..|ops| - 1]), ops[|ops| - 1])
  }

  function Run(base: Db, ops: seq<Op>): Block {
    RunFrom(Block(base, map[], map[]), ops)
  }

  // ----- what a run means ---------------------------------------------------------------

  /** The database as it would be if the block were committed now. */
  function Flat(b: Block): Db {
    Written(b.base, b.buffer)
  }

  /** What a transaction has written since it was last opened, committed or rolled back. */
  function Pending(ops: seq<Op>, tx: int): Buffer {
    if ops == [] then map[]
    else
      var earlier, last := ops[..|ops| - 1], ops[|ops| - 1];
      match last
      case Write(t, data) => if t == tx then Pending(earlier, tx) + data else Pending(earlier, tx)
      case OpenTx(t) => if t == tx then map[] else Pending(earlier, tx)
      case CommitTx(t) => if t == tx then map[] else Pending(earlier, tx)
      case RollbackTx(t) => if t == tx then map[] else Pending(earlier, tx)
      case TakeNonce(_, _, _) => Pending(earlier, tx)
      case BlockWrite(_) => Pending(earlier, tx)
      case CommitBlock => map[]
  }

  /**
   * The write sets that count, in order: each transaction's at its commit, each direct
   * write to the block and each accepted nonce at once.
   */
  function Log(base: Db, ops: seq<Op>): seq<Buffer> {
    if ops == [] then []
    else
      var earlier, last := ops[..|ops| - 1], ops[|ops| - 1];
      Log(base, earlier) + Logged(Run(base, earlier), earlier, last)
  }

  /** What the next operation adds to the log. */
  function Logged(b: Block, earlier: seq<Op>, op: Op): seq<Buffer> {
    match op
    case CommitTx(tx) => if tx in b.txs then [Pending(earlier, tx)] else []
    case TakeNonce(tx, account, nonce) =>
      if NonceAccepted(b, tx, account, nonce) then [NonceWrites(b, tx, account, nonce)] else []
    case BlockWrite(data) => [data]
    case _ => []
  }

  function Applied(base: Db, log: seq<Buffer>): Db {
    if log == [] then base else Written(Applied(base, log[..|log| - 1]), log[|log| - 1])
  }

  lemma WrittenTwice(db: Db, a: Buffer, b: Buffer)
    ensures Written(db, a + b) == Written(Written(db, a), b)
  {
  }

  lemma WrittenNothing(db: Db)
    ensures Written(db, map[]) == db
  {
  }

  lemma AppliedLast(base: Db, log: seq<Buffer>, b: Buffer)
    ensures Applied(base, log + [b]) == Written(Applied(base, log), b)
    ensures Applied(base, log + []) == Applied(base, log)
  {
    assert (log + [b])[..|log|] == log;
    assert log + [] == log;
  }

  /** A transaction is open from its opening to the end of the block, rolled back or not. */
  function Opened(ops: seq<Op>, tx: int): bool {
    if ops == [] then false
    else if ops[|ops| - 1] == OpenTx(tx) then true
    else !ops[|ops| - 1].CommitBlock? && Opened(ops[..|ops| - 1], tx)
  }

  lemma {:induction false} OpenIffOpened(base: Db, ops: seq<Op>, tx: int)
    ensures tx in Run(base, ops).txs <==> Opened(ops, tx)
  {
    hide Written, NonceWrites, NonceAccepted;
    if ops != [] {
      OpenIffOpened(base, ops[..|ops| - 1], tx);
    }
  }

  /** A transaction's buffer holds exactly what it has pending. */
  lemma {:induction false} BuffersArePending(base: Db, ops: seq<Op>, tx: int)
    ensures tx in Run(base, ops).txs ==> Run(base, ops).txs[tx] == Pending(ops, tx)
  {
    hide Step;
    if ops != [] {
      var n := |ops| - 1;
      BuffersArePending(base, ops[..n], tx);
      StepBuffer(Run(base, ops[..n]), ops[n], tx);
    }
  }

  /** What one operation does to a transaction's buffer. */
  lemma StepBuffer(b: Block, op: Op, tx: int)
    ensures tx in Step(b, op).txs ==>
              && (op != OpenTx(tx) ==> tx in b.txs)
              && Step(b, op).txs[tx] == match op
                                        case Write(t, data) => if t == tx then b.txs[tx] + data else b.txs[tx]
                                        case OpenTx(t) => if t == tx then map[] else b.txs[tx]
                                        case CommitTx(t) => if t == tx then map[] else b.txs[tx]
                                        case RollbackTx(t) => if t == tx then map[] else b.txs[tx]
                                        case _ => b.txs[tx]
    ensures op.CommitBlock? ==> Step(b, op).txs == map[]
  {
    hide Written, NonceWrites, NonceAccepted;
  }

  /**
   * Layer refinement: for any interleaving of transactions over any number of blocks,
   * the database is the base with the write sets of the log applied in order.
   */
  lemma {:induction false} LayersRefine(base: Db, ops: seq<Op>)
    ensures Flat(Run(base, ops)) == Applied(base, Log(base, ops))
  {
    hide Written, Step, Logged, Applied, Flat;
    if ops == [] {
      NothingApplied(base);
    } else {
      var n := |ops| - 1;
      LayersRefine(base, ops[..n]);
      var b := Run(base, ops[..n]);
      forall tx | tx in b.txs ensures b.txs[tx] == Pending(ops[..n], tx) {
        BuffersArePending(base, ops[..n], tx);
      }
      StepRefines(base, Log(base, ops[..n]), b, ops[..n], ops[n]);
    }
  }

  lemma NothingApplied(base: Db)
    ensures Flat(Block(base, map[], map[])) == Applied(base, [])
  {
    WrittenNothing(base);
  }

  lemma StepRefines(base: Db, log: seq<Buffer>, b: Block, earlier: seq<Op>, op: Op)
    requires Flat(b) == Applied(base, log)
    requires forall tx :: tx in b.txs ==> b.txs[tx] == Pending(earlier, tx)
    ensures Flat(Step(b, op)) == Applied(base, log + Logged(b, earlier, op))
  {
    hide Written, NonceWrites, NonceAccepted, Pending, Applied;
    AppliedLast(base, log, map[]);
    match op {
      case CommitTx(tx) =>
        if tx in b.txs {
          WrittenTwice(b.base, b.buffer, b.txs[tx]);
          AppliedLast(base, log, b.txs[tx]);
        }
      case TakeNonce(tx, account, nonce) =>
        if NonceAccepted(b, tx, account, nonce) {
          NonceIsNat(b, tx, account, nonce);
          var w := NonceWrites(b, tx, account, nonce);
          WrittenTwice(b.base, b.buffer, w);
          AppliedLast(base, log, w);
        }
      case BlockWrite(data) =>
        WrittenTwice(b.base, b.buffer, data);
        AppliedLast(base, log, data);
      case CommitBlock => WrittenNothing(Written(b.base, b.buffer));
      case _ =>
    }
  }

  lemma NonceIsNat(b: Block, tx: int, account: string, nonce: int)
    requires NonceAccepted(b, tx, account, nonce)
    ensures 0 <= nonce < UINT64
  {
  }

  /** What every transaction reads: its own value unless empty, or the log's. */
  lemma ReadsRefine(base: Db, ops: seq<Op>, tx: int, k: Key)
    ensures var own := if tx in Run(base, ops).txs then Get(Pending(ops, tx), k) else "";
            View(Run(base, ops), tx, k) == if own != "" then own else Get(Applied(base, Log(base, ops)), k)
  {
    BuffersArePending(base, ops, tx);
    LayersRefine(base, ops);
    hide Run, Pending, Log, Applied;
  }

  /**
   * After any run an open transaction reads back the last value it wrote to a key exactly
   * when that is not empty or the block shows nothing there: a deletion is not seen by the
   * transaction that made it.
   */
  lemma ReadBackIff(base: Db, ops: seq<Op>, tx: int, k: Key)
    requires tx in Run(base, ops).txs && k in Pending(ops, tx)
    ensures View(Run(base, ops), tx, k) == Pending(ops, tx)[k]
       <==> Pending(ops, tx)[k] != "" || Get(Applied(base, Log(base, ops)), k) == ""
  {
    ReadsRefine(base, ops, tx, k);
    hide Run, Pending, Log, Applied, View;
  }

  /** A transaction deletes a stored key and still reads the stored value. */
  lemma DeletionUnseen(base: Db, tx: int, k: Key)
    requires Get(base, k) != ""
    ensures View(Run(base, [OpenTx(tx), Write(tx, map[k := ""])]), tx, k) == base[k]
    ensures k !in Flat(Run(base, [OpenTx(tx), Write(tx, map[k := ""]), CommitTx(tx)]))
  {
    var ops := [OpenTx(tx), Write(tx, map[k := ""]), CommitTx(tx)];
    var start := Block(base, map[], map[]);
    assert ops[..2] == [OpenTx(tx), Write(tx, map[k := ""])] && ops[..2][..1] == ops[..1] && ops[..1][..0] == [];
    assert RunFrom(start, ops[..1]) == Step(RunFrom(start, []), OpenTx(tx));
    assert RunFrom(start, ops[..2]) == Step(RunFrom(start, ops[..1]), ops[1]);
    assert RunFrom(start, ops) == Step(RunFrom(start, ops[..2]), ops[2]);
    hide RunFrom;
  }

  // ----- rolling back -------------------------------------------------------------------

  /** The operations without the writes of one transaction. */
  function WithoutWrites(ops: seq<Op>, tx: int): seq<Op> {
    if ops == [] then []
    else
      var earlier, last := ops[..|ops| - 1], ops[|ops| - 1];
      WithoutWrites(earlier, tx) + if last.Write? && last.tx == tx then [] else [last]
  }

  /**
   * The operation is no commit of the transaction; nonces are taken through it for
   * accounts only whose keys, listed in `keys`, the transaction does not write.
   */
  predicate Uncommitted(op: Op, tx: int, keys: set<Key>) {
    match op
    case CommitTx(t) => t != tx
    case Write(t, data) => t == tx ==> data.Keys !! keys
    case TakeNonce(t, account, _) => t == tx ==> NonceKey(account) in keys && AccountKey(account) in keys
    case _ => true
  }

  /** The blocks differ in the transaction's buffer only, and there not at the keys. */
  ghost predicate SameBut(b: Block, c: Block, tx: int, keys: set<Key>) {
    && b.base == c.base && b.buffer == c.buffer && b.txs.Keys == c.txs.Keys
    && (forall t :: t in b.txs && t != tx ==> b.txs[t] == c.txs[t])
    && (tx in b.txs ==> forall k :: k in keys ==> Get(b.txs[tx], k) == Get(c.txs[tx], k))
  }

  lemma SameButNonce(b: Block, c: Block, tx: int, keys: set<Key>, op: Op)
    requires SameBut(b, c, tx, keys) && Uncommitted(op, tx, keys) && op.TakeNonce?
    ensures NonceAccepted(b, op.tx, op.account, op.nonce) <==> NonceAccepted(c, op.tx, op.account, op.nonce)
    ensures Accepts(b, op) ==>
              NonceWrites(b, op.tx, op.account, op.nonce) == NonceWrites(c, op.tx, op.account, op.nonce)
  {
    hide Digits, Parse, NonceKey, AccountKey;
    forall k | op.tx == tx ==> k in keys ensures View(b, op.tx, k) == View(c, op.tx, k) {
    }
  }

  lemma SameButStep(b: Block, c: Block, tx: int, keys: set<Key>, op: Op)
    requires SameBut(b, c, tx, keys) && Uncommitted(op, tx, keys)
    ensures SameBut(Step(b, op), Step(c, op), tx, keys)
    ensures op.Write? && op.tx == tx ==> SameBut(Step(b, op), c, tx, keys)
  {
    hide NonceAccepted, NonceWrites, Written, NonceKey, AccountKey, Get;
    match op
    case TakeNonce(_, _, _) => SameButNonce(b, c, tx, keys, op);
    case Write(t, data) => SameButWrite(b, c, tx, keys, t, data);
    case _ =>
  }

  lemma SameButWrite(b: Block, c: Block, tx: int, keys: set<Key>, t: int, data: Buffer)
    requires SameBut(b, c, tx, keys) && (t == tx ==> data.Keys !! keys)
    ensures SameBut(Step(b, Write(t, data)), Step(c, Write(t, data)), tx, keys)
    ensures t == tx ==> SameBut(Step(b, Write(t, data)), c, tx, keys)
  {
  }

  lemma {:induction false} WithoutWritesSame(b: Block, tx: int, ops: seq<Op>, keys: set<Key>)
    requires forall i :: 0 <= i < |ops| ==> Uncommitted(ops[i], tx, keys)
    ensures SameBut(RunFrom(b, ops), RunFrom(b, WithoutWrites(ops, tx)), tx, keys)
  {
    hide SameBut, Uncommitted, Step;
    if ops == [] {
      SameButSelf(b, tx, keys);
    } else {
      var n := |ops| - 1;
      WithoutWritesSame(b, tx, ops[..n], keys);
      var rest := WithoutWrites(ops[..n], tx);
      SameButStep(RunFrom(b, ops[..n]), RunFrom(b, rest), tx, keys, ops[n]);
      assert (rest + [ops[n]])[..|rest|] == rest;
      assert rest + [] == rest;
    }
  }

  lemma SameButSelf(b: Block, tx: int, keys: set<Key>)
    ensures SameBut(b, b, tx, keys)
  {
  }

  /**
   * Whatever other transactions, direct writes, nonces and block commits are interleaved
   * with it, a transaction that is rolled back leaves everything as it would be without
   * its writes.
   */
  lemma RolledBackIsGone(b: Block, tx: int, ops: seq<Op>, keys: set<Key>)
    requires forall i :: 0 <= i < |ops| ==> Uncommitted(ops[i], tx, keys)
    ensures Step(RunFrom(b, ops), RollbackTx(tx)) == Step(RunFrom(b, WithoutWrites(ops, tx)), RollbackTx(tx))
  {
    WithoutWritesSame(b, tx, ops, keys);
    SameOnceRolledBack(RunFrom(b, ops), RunFrom(b, WithoutWrites(ops, tx)), tx, keys);
  }

  lemma SameOnceRolledBack(c: Block, d: Block, tx: int, keys: set<Key>)
    requires SameBut(c, d, tx, keys)
    ensures Step(c, RollbackTx(tx)) == Step(d, RollbackTx(tx))
  {
    if tx in c.txs {
      var x, y := c.txs[tx := map[]], d.txs[tx := map[]];
      assert x.Keys == c.txs.Keys && y.Keys == d.txs.Keys;
      assert forall t :: t in x ==> x[t] == y[t];
      assert x == y;
    } else {
      assert forall t :: t in c.txs ==> t in c.txs.Keys;
      assert forall t :: t in c.txs <==> t in d.txs;
      assert forall t :: t in c.txs ==> c.txs[t] == d.txs[t];
      assert c.txs == d.txs;
    }
  }

  // ----- nonces -------------------------------------------------------------------------

  /** The nonces of an account that were accepted, in order. */
  function Nonces(base: Db, ops: seq<Op>, account: string): seq<int> {
    if ops == [] then []
    else
      var earlier, last := ops[..|ops| - 1], ops[|ops| - 1];
      Nonces(base, earlier, account) +
      if last.TakeNonce? && last.account == account && Accepts(Run(base, earlier), last) then [last.nonce] else []
  }

  /** Nothing but SetAccountNonce writes the account's nonce key. */
  predicate KeyReserved(op: Op, account: string) {
    match op
    case Write(_, data) => NonceKey(account) !in data
    case BlockWrite(data) => NonceKey(account) !in data
    case TakeNonce(_, other, _) => AccountKey(other) != NonceKey(account)
    case _ => true
  }

  lemma NonceKeysDiffer(a: string, b: string)
    requires a != b
    ensures NonceKey(a) != NonceKey(b)
  {
    var p, q := |"/account/ex/"|, |"/account"|;
    assert a == NonceKey(a)[p..|NonceKey(a)| - q];
    assert b == NonceKey(b)[p..|NonceKey(b)| - q];
  }

  /** What every layer shows of a nonce key that only SetAccountNonce writes. */
  predicate NonceStands(b: Block, account: string, v: Bytes) {
    && BlockView(b, NonceKey(account)) == v
    && (forall tx :: tx in b.txs ==> NonceKey(account) !in b.txs[tx])
    && (NonceKey(account) in b.buffer ==> v != "")
  }

  lemma NonceStep(b: Block, op: Op, account: string, v: Bytes)
    requires NonceStands(b, account, v) && KeyReserved(op, account)
    ensures var b' := Step(b, op);
            if op.TakeNonce? && op.account == account && Accepts(b, op)
            then 0 <= op.nonce < UINT64 && op.nonce == Uint64(Parse(v) + 1)
                 && NonceStands(b', account, Digits(op.nonce))
            else NonceStands(b', account, v)
  {
    hide Digits, NonceKey, AccountKey;
    match op {
      case TakeNonce(tx, other, nonce) =>
        if Accepts(b, op) {
          assert View(b, tx, NonceKey(account)) == v;
          if other != account {
            NonceKeysDiffer(other, account);
          }
        }
      case _ =>
    }
  }

  /**
   * An account's accepted nonces are consecutive, from one above the stored nonce
   * (from 1 when none is stored), modulo 2^64, over any interleaving of transactions,
   * rollbacks and blocks.
   */
  lemma {:induction false} NoncesAreConsecutive(base: Db, ops: seq<Op>, account: string)
    requires forall i :: 0 <= i < |ops| ==> KeyReserved(ops[i], account)
    requires 0 <= Parse(Get(base, NonceKey(account))) < UINT64
    ensures var n0 := Parse(Get(base, NonceKey(account)));
            var nonces := Nonces(base, ops, account);
            && (forall i :: 0 <= i < |nonces| ==> nonces[i] == Uint64(n0 + i + 1))
            && NonceStands(Run(base, ops), account,
                           if nonces == [] then Get(base, NonceKey(account)) else Digits(Uint64(n0 + |nonces|)))
  {
    hide Parse, Digits, Step, KeyReserved, NonceStands, Accepts, NonceKey, Run, Uint64;
    var n0 := Parse(Get(base, NonceKey(account)));
    if ops == [] {
      NonceAtStart(base, account);
      RunFirst(base);
    } else {
      var n := |ops| - 1;
      NoncesAreConsecutive(base, ops[..n], account);
      var before := Nonces(base, ops[..n], account);
      var v := if before == [] then Get(base, NonceKey(account)) else Digits(Uint64(n0 + |before|));
      NonceStep(Run(base, ops[..n]), ops[n], account, v);
      RunLast(base, ops);
      ParseDigits(Uint64(n0 + |before|));
      NextNonce(n0, |before|);
    }
  }

  lemma RunFirst(base: Db)
    ensures Run(base, []) == Block(base, map[], map[])
  {
  }

  lemma RunLast(base: Db, ops: seq<Op>)
    requires ops != []
    ensures Run(base, ops) == Step(Run(base, ops[..|ops| - 1]), ops[|ops| - 1])
  {
    hide Step;
  }

  /** The numbers of an account's nonces, spelled out. */
  lemma NoncesCount(base: Db, ops: seq<Op>, account: string, i: nat)
    requires forall j :: 0 <= j < |ops| ==> KeyReserved(ops[j], account)
    requires 0 <= Parse(Get(base, "/account/ex/" + account + "/account")) < 0x1_0000_0000_0000_0000
    requires i < |Nonces(base, ops, account)|
    ensures Nonces(base, ops, account)[i]
         == (Parse(Get(base, "/account/ex/" + account + "/account")) + i + 1) % 0x1_0000_0000_0000_0000
  {
    hide Parse, KeyReserved, Nonces, Run, NonceStands;
    NoncesAreConsecutive(base, ops, account);
  }

  lemma NonceAtStart(base: Db, account: string)
    ensures NonceStands(Block(base, map[], map[]), account, Get(base, NonceKey(account)))
  {
  }

  lemma NextNonce(n0: int, i: nat)
    requires 0 <= n0 < UINT64
    ensures Uint64(Uint64(n0 + i) + 1) == Uint64(n0 + i + 1)
    ensures Uint64(n0) == n0
  {
  }

  // ----- the keys of an account -------------------------------------------------------------

  /**
   * An accepted nonce stands in the block at once; on first use its key is added at the end
   * of the account's list of keys, which keeps its entries; nothing else changes.
   */
  lemma NonceIsListed(b: Block, tx: int, account: string, nonce: int, k: Key)
    requires NonceAccepted(b, tx, account, nonce)
    ensures var b' := Step(b, TakeNonce(tx, account, nonce));
            && b'.base == b.base && b'.txs == b.txs
            && Parse(BlockView(b', NonceKey(account))) == nonce
            && BlockView(b', k) ==
                 if k == NonceKey(account) then Digits(nonce)
                 else if k == AccountKey(account) && View(b, tx, NonceKey(account)) == ""
                 then View(b, tx, k) + NonceKey(account)
                 else BlockView(b, k)
  {
    hide NonceKey, AccountKey, Digits, Parse, View;
    NonceIsNat(b, tx, account, nonce);
    ParseDigits(nonce);
  }

  /** Nothing but SetAccountNonce writes the account's list of keys. */
  predicate ListReserved(op: Op, account: string) {
    match op
    case Write(_, data) => AccountKey(account) !in data
    case BlockWrite(data) => AccountKey(account) !in data
    case TakeNonce(_, other, _) => NonceKey(other) != AccountKey(account)
    case _ => true
  }

  predicate ListStands(b: Block, account: string, v: Bytes) {
    && BlockView(b, AccountKey(account)) == v
    && (forall tx :: tx in b.txs ==> AccountKey(account) !in b.txs[tx])
  }

  lemma AccountKeysDiffer(a: string, b: string)
    requires a != b
    ensures AccountKey(a) != AccountKey(b)
  {
    var p := |"/account/ex/"|;
    assert a == AccountKey(a)[p..] && b == AccountKey(b)[p..];
  }

  lemma ListStep(b: Block, op: Op, account: string, v: Bytes, nonce: Bytes)
    requires ListStands(b, account, v) && NonceStands(b, account, nonce) && ListReserved(op, account)
    ensures ListStands(Step(b, op), account,
                       if op.TakeNonce? && op.account == account && Accepts(b, op) && nonce == ""
                       then v + NonceKey(account) else v)
  {
    hide NonceKey, AccountKey, Digits, Parse, NonceAccepted;
    match op {
      case TakeNonce(tx, other, n) =>
        if NonceAccepted(b, tx, other, n) {
          assert View(b, tx, NonceKey(account)) == nonce && View(b, tx, AccountKey(account)) == v;
          NonceIsListed(b, tx, other, n, AccountKey(account));
          if other != account {
            AccountKeysDiffer(other, account);
          }
        }
      case _ =>
    }
  }

  /**
   * Over every run an account's nonce key is listed once, at the end of the list there was,
   * if a nonce was accepted and none stored before.
   */
  lemma {:induction false} NonceListedOnce(base: Db, ops: seq<Op>, account: string)
    requires forall i :: 0 <= i < |ops| ==> KeyReserved(ops[i], account) && ListReserved(ops[i], account)
    requires 0 <= Parse(Get(base, NonceKey(account))) < UINT64
    ensures var first := Nonces(base, ops, account) != [] && Get(base, NonceKey(account)) == "";
            ListStands(Run(base, ops), account,
                       Get(base, AccountKey(account)) + if first then NonceKey(account) else "")
  {
    hide Parse, Digits, Step, KeyReserved, ListReserved, NonceStands, ListStands, Accepts, NonceKey, AccountKey, Run, Uint64;
    if ops == [] {
      ListAtStart(base, account);
      RunFirst(base);
    } else {
      var n := |ops| - 1;
      NonceListedOnce(base, ops[..n], account);
      NoncesAreConsecutive(base, ops[..n], account);
      var before := Nonces(base, ops[..n], account);
      var n0, stored := Parse(Get(base, NonceKey(account))), Get(base, NonceKey(account));
      var nonce := if before == [] then stored else Digits(Uint64(n0 + |before|));
      var list := Get(base, AccountKey(account)) + if before != [] && stored == "" then NonceKey(account) else "";
      ListStep(Run(base, ops[..n]), ops[n], account, list, nonce);
      RunLast(base, ops);
      assert Get(base, AccountKey(account)) + "" == Get(base, AccountKey(account));
    }
  }

  lemma ListAtStart(base: Db, account: string)
    ensures ListStands(Block(base, map[], map[]), account, Get(base, AccountKey(account)) + "")
  {
  }
}
