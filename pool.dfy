/**
  The pool of unspent outputs, an object the handlers update in place, and
  the add-then-remove commit step that method1 and TxHandler2 run inline.
 */
module Pool {
  import opened Ledger

  class UTXOPool {
    /** The current map from unspent-output identifiers to outputs. */
    var H: PoolMap

    /** An empty pool. */
    constructor ()
      ensures H == map[]
    {
      H := map[];
    }

    /** A pool seeded from outside (a genesis transaction's outputs, say). */
    constructor Of(h: PoolMap)
      ensures H == h
    {
      H := h;
    }

    /** An independent copy: later changes to either pool leave the other alone. */
    constructor Copy(other: UTXOPool)
      ensures H == other.H
    {
      H := other.H;
    }

    /** Whether u is unspent: exactly when the lookup finds an output. */
    predicate Contains(u: UTXO): (b: bool)
      reads this
      ensures b <==> GetTxOutput(u).Some?
    {
      u in H
    }

    /** The output under u, or None where Java's lookup yields null. */
    function GetTxOutput(u: UTXO): (r: Option<Output>)
      reads this
      ensures r.Some? <==> u in H
      ensures r.Some? ==> r.value == H[u]
    {
      if u in H then Some(H[u]) else None
    }

    /** Insert or overwrite. */
    method AddUTXO(u: UTXO, o: Output)
      modifies this
      ensures H == old(H)[u := o]
    {
      H := H[u := o];
    }

    /** Delete, if present. */
    method RemoveUTXO(u: UTXO)
      modifies this
      ensures H == old(H) - {u}
    {
      H := H - {u};
    }
  }

  /** The loop over a transaction's outputs: adds (tx.hash, i) -> output i
      for every output position i, in order. */
  method AddOutputs(pool: UTXOPool, tx: Transaction)
    modifies pool
    ensures pool.H == old(pool.H) + Produced(tx)
  {
    ghost var h0 := pool.H;
    var i := 0;
    while i < |tx.outputs|
      invariant 0 <= i <= |tx.outputs|
      invariant pool.H == h0 + ProducedUpTo(tx, i)
    {
      ProducedUpToStep(h0, tx, i);
      pool.AddUTXO(UTXO(tx.hash, i), tx.outputs[i]);
      i := i + 1;
    }
  }

  /** The loop over a transaction's inputs: removes each input's claimed
      UTXO, in order. */
  method RemoveClaims(pool: UTXOPool, tx: Transaction)
    modifies pool
    ensures pool.H == old(pool.H) - Consumed(tx)
  {
    ghost var h0 := pool.H;
    var i := 0;
    while i < |tx.inputs|
      invariant 0 <= i <= |tx.inputs|
      invariant pool.H == h0 - ConsumedUpTo(tx, i)
    {
      var input := tx.inputs[i];
      ConsumedUpToStep(h0, tx, i);
      pool.RemoveUTXO(UTXO(input.prevTxHash, input.outputIndex));
      i := i + 1;
    }
  }

  /** Commit an accepted transaction as method1 and TxHandler2 do: add
      every output, then remove every claim. */
  method CommitOutputsThenInputs(pool: UTXOPool, tx: Transaction)
    modifies pool
    ensures pool.H == AddThenRemove(old(pool.H), tx)
  {
    AddOutputs(pool, tx);
    RemoveClaims(pool, tx);
  }
}
