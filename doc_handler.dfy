/**
  doc/TxHandler.java: a handler whose isValidTx is the one of
  method1/TxHandler.java, and whose handleTxs settles the transactions it
  has found mutually valid on a copy of the pool, removing each one's
  claims before adding its outputs, and then installs the copy as the
  handler's pool.
 */
module DocHandler {
  import opened Ledger
  import opened Settlement
  import opened Pool
  import Method1

  /** Commit one transaction as the loop body at lines 104-113 does: remove
      every claimed UTXO, then add output idx under (tx.hash, idx), idx
      counting from 0 in output order. */
  method CommitInputsThenOutputs(pool: UTXOPool, tx: Transaction)
    modifies pool
    ensures pool.H == RemoveThenAdd(old(pool.H), tx)
  {
    RemoveClaims(pool, tx);
    AddOutputs(pool, tx);
  }

  class TxHandler {
    var pool: UTXOPool
    const crypto: Crypto

    /** Keeps the caller's pool object itself: no copy is made. */
    constructor (utxoPool: UTXOPool, crypto: Crypto)
      ensures pool == utxoPool && this.crypto == crypto
    {
      pool := utxoPool;
      this.crypto := crypto;
    }

    method IsValidTx(tx: Transaction) returns (valid: bool)
      ensures valid == IsValid(crypto, pool.H, tx)
    {
      valid := Method1.ValidateTx(pool, crypto, tx);
    }

    /** The part of handleTxs that touches the pool: a copy of the pool is
        taken, the mutually valid transactions are committed to the copy
        in list order, and the copy replaces the pool. The pool object the
        handler held before is left as it was. */
    method CommitMutuallyValid(mValidTxns: seq<Transaction>)
      modifies this
      ensures fresh(pool)
      ensures pool.H == ApplyAllRemoveFirst(old(pool.H), mValidTxns)
      ensures old(pool).H == old(pool.H)
    {
      var tempPool := new UTXOPool.Copy(pool);
      var j := 0;
      while j < |mValidTxns|
        invariant 0 <= j <= |mValidTxns|
        invariant fresh(tempPool) && pool == old(pool) && pool.H == old(pool.H)
        invariant tempPool.H == ApplyAllRemoveFirst(old(pool.H), mValidTxns[..j])
      {
        var txn := mValidTxns[j];
        assert mValidTxns[..j + 1][..j] == mValidTxns[..j];
        CommitInputsThenOutputs(tempPool, txn);
        j := j + 1;
      }
      assert mValidTxns[..j] == mValidTxns;
      pool := tempPool;
    }
  }

  /** When the list is a valid chain from the pool and hashes identify
      transactions, committing inputs first gives the same pool as the
      add-then-remove settlement of the other variants. */
  lemma RemoveFirstMatchesChain(c: Crypto, p: PoolMap, txs: seq<Transaction>)
    requires ValidChain(c, p, txs) && FreshHashes(p, txs)
    ensures ApplyAllRemoveFirst(p, txs) == ApplyAll(p, txs)
  {
    forall j | 0 <= j < |txs| ensures Produced(txs[j]).Keys !! Consumed(txs[j]) {
      OwnOutputsUnclaimed(c, p, txs, j);
    }
    CommitOrdersAgreeOnChain(p, txs);
  }

  lemma OwnOutputsUnclaimed(c: Crypto, p: PoolMap, txs: seq<Transaction>, j: int)
    requires ValidChain(c, p, txs) && FreshHashes(p, txs) && 0 <= j < |txs|
    ensures Produced(txs[j]).Keys !! Consumed(txs[j])
  {
    var pre := txs[..j];
    ValidChainPrefix(c, p, txs, j);
    forall u | u in ApplyAll(p, pre) ensures u.txHash != txs[j].hash {
      KeysOrigin(p, pre, u);
      if u.txHash in HashesOf(pre) {
        var i :| 0 <= i < |pre| && pre[i].hash == u.txHash;
        assert txs[i].hash == u.txHash;
      }
    }
    ValidTxOrdersAgree(c, ApplyAll(p, pre), txs[j]);
  }
}
