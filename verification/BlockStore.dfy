/**
 * The block-level store as an object: one block transaction and the map of its
 * transaction buffers, as statedbhelper keeps them.
 */
module BlockStore {
  import opened StateStore
  import opened StateDb
  import opened BlockLayers

  class Trans {
    const block: Transaction
    var txMap: map<int, Tx>
    var lastTx: int

    constructor (block: Transaction)
      ensures this.block == block && txMap == map[] && Valid()
    {
      this.block, txMap, lastTx := block, map[], 0;
    }

    /** The buffers are objects of their own, one for each transaction. */
    ghost predicate Valid()
      reads this
    {
      && (forall i :: i in txMap ==> txMap[i].transaction == block && i <= lastTx)
      && (forall i, j :: i in txMap && j in txMap && i != j ==> txMap[i] != txMap[j])
    }

    function State(): Block
      reads this, block, block.stateDB, txMap.Values
    {
      Block(block.stateDB.db, block.buffer, map i | i in txMap :: txMap[i].buffer)
    }

    /** A change to one transaction's buffer leaves the others alone. */
    twostate lemma OnlyOne(id: int)
      requires txMap == old(txMap) && id in txMap
      requires forall i :: i in txMap && i != id ==> txMap[i].buffer == old(txMap[i].buffer)
      ensures State().txs == old(State()).txs[id := txMap[id].buffer]
    {
      var before, after := old(State()).txs, State().txs;
      assert before.Keys == txMap.Keys;
      forall i | i in txMap ensures after[i] == before[id := txMap[id].buffer][i] {
        assert before[i] == old(txMap[i].buffer);
        assert after[i] == txMap[i].buffer;
      }
    }

    twostate lemma OneMore(id: int, new tx: Tx)
      requires id !in old(txMap) && txMap == old(txMap)[id := tx] && tx.buffer == map[]
      requires block.buffer == old(block.buffer) && block.stateDB.db == old(block.stateDB.db)
      requires forall i :: i in old(txMap) ==> old(txMap)[i].buffer == old(txMap[i].buffer)
      ensures State() == Step(old(State()), OpenTx(id))
    {
      var before, after := old(State()).txs, State().txs;
      assert before.Keys == old(txMap).Keys;
      forall i | i in old(txMap) ensures after[i] == before[i] {
        assert before[i] == old(txMap[i].buffer);
        assert after[i] == txMap[i].buffer;
      }
      assert after == before[id := map[]];
    }

    method NewTx() returns (id: int)
      requires Valid()
      modifies this
      ensures Valid() && id !in old(txMap) && id in txMap && fresh(txMap[id])
      ensures State() == Step(old(State()), OpenTx(id))
      ensures txMap == old(txMap)[id := txMap[id]]
    {
      lastTx := lastTx + 1;
      id := lastTx;
      var tx := new Tx(block);
      txMap := txMap[id := tx];
      OneMore(id, tx);
    }

    method Get(id: int, k: Key) returns (v: Bytes)
      ensures v == View(State(), id, k)
    {
      if id in txMap {
        v := txMap[id].Get(k);
        if v != "" {
          return;
        }
      }
      v := block.Get(k);
    }

    method BatchSet(id: int, data: Buffer) returns (ok: bool)
      requires Valid()
      modifies txMap.Values
      ensures Valid() && ok == Accepts(old(State()), Write(id, data))
      ensures State() == Step(old(State()), Write(id, data))
    {
      ok := id in txMap;
      if ok {
        txMap[id].BatchSet(data);
        OnlyOne(id);
      }
    }

    method CommitTx(id: int) returns (ok: bool, bytes: Bytes, written: Buffer)
      requires Valid()
      modifies txMap.Values, block
      ensures Valid() && ok == Accepts(old(State()), BlockLayers.CommitTx(id))
      ensures State() == Step(old(State()), BlockLayers.CommitTx(id))
      ensures ok ==> id in old(State()).txs && written == old(State()).txs[id]
    {
      ok, bytes, written := id in txMap, "", map[];
      if ok {
        bytes, written := txMap[id].Commit();
        OnlyOne(id);
      }
    }

    method RollbackTx(id: int) returns (ok: bool)
      requires Valid()
      modifies txMap.Values
      ensures Valid() && ok == Accepts(old(State()), BlockLayers.RollbackTx(id))
      ensures State() == Step(old(State()), BlockLayers.RollbackTx(id))
    {
      ok := id in txMap;
      if ok {
        txMap[id].Rollback();
        OnlyOne(id);
      }
    }

    /** CommitTx2V1: a write set goes straight to the block's buffer. */
    method CommitTx2V1(data: Buffer)
      requires Valid()
      modifies block
      ensures Valid() && State() == Step(old(State()), BlockWrite(data))
    {
      block.BatchSet(data);
      OnlyBlock();
    }

    /**
     * The block's buffer reaches the database with the bookkeeping key; the block and its
     * transaction buffers are then dropped.  A commit that is not accepted panics.
     */
    method CommitBlock() returns (ok: bool)
      requires Valid()
      modifies this`txMap, block.stateDB
      ensures ok == (block.committable && CommitAccepted(old(block.stateDB.State()), block.id))
      ensures ok ==> txMap == map[] && block.stateDB.State() ==
                       CommitTransaction(old(block.stateDB.State()), block.id, old(block.buffer)).store
      ensures ok ==> var next := Step(old(State()), BlockLayers.CommitBlock);
                     Block(block.stateDB.db, map[], map[]) == next.(base := next.base[LAST_KEY := Digits(block.id)])
      ensures !ok ==> State() == old(State()) && block.stateDB.State() == old(block.stateDB.State())
    {
      ok := block.Commit();
      if ok {
        txMap := map[];
        WrittenWithId(old(block.stateDB.db), block.buffer, block.id);
      }
    }

    method CheckAccountNonce(id: int, account: string, nonce: int) returns (ok: bool)
      ensures ok == NonceAccepted(State(), id, account, nonce)
    {
      var v := Get(id, NonceKey(account));
      ok := nonce == Uint64(NonceOf(v) + 1);
    }

    method WriteNonce(id: int, account: string, nonce: nat)
      modifies block
      ensures block.buffer == old(block.buffer) + NonceWrites(old(State()), id, account, nonce)
    {
      hide Digits, NonceKey, AccountKey, View;
      var data := Get(id, NonceKey(account));
      var listed := Get(id, AccountKey(account));
      if data == "" {
        block.Set(AccountKey(account), listed + NonceKey(account));
      }
      block.Set(NonceKey(account), Digits(nonce));
    }

    /** A change to the block's buffer leaves the transaction buffers alone. */
    twostate lemma OnlyBlock()
      requires txMap == old(txMap) && block.stateDB.db == old(block.stateDB.db)
      requires forall i :: i in txMap ==> txMap[i].buffer == old(txMap[i].buffer)
      ensures State() == old(State()).(buffer := block.buffer)
    {
      var before, after := old(State()).txs, State().txs;
      assert before.Keys == txMap.Keys;
      forall i | i in txMap ensures after[i] == before[i] {
        assert before[i] == old(txMap[i].buffer);
        assert after[i] == txMap[i].buffer;
      }
      assert before == after;
    }

    /** The nonce goes to the block's buffer, past the transaction's own. */
    method SetAccountNonce(id: int, account: string, nonce: int) returns (ok: bool)
      requires Valid()
      modifies block
      ensures Valid() && ok == Accepts(old(State()), TakeNonce(id, account, nonce))
      ensures State() == Step(old(State()), TakeNonce(id, account, nonce))
    {
      hide NonceKey, NonceWrites, NonceOf, View;
      ok := CheckAccountNonce(id, account, nonce);
      if ok {
        WriteNonce(id, account, nonce);
        OnlyBlock();
      }
    }
  }

  lemma WrittenWithId(db: Db, buffer: Buffer, id: int)
    requires id > 0
    ensures Written(db, buffer[LAST_KEY := Digits(id)]) == Written(db, buffer)[LAST_KEY := Digits(id)]
  {
    ParseDigits(id);
  }
}
