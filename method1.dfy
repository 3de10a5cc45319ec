/**
  method1/TxHandler.java: a handler that owns a reference to the pool,
  validates a transaction with one pass over its inputs and a set of the
  claimed UTXOs, and settles a batch with a fixed-point loop that commits
  in place.
 */
module Method1 {
  import opened Ledger
  import opened Settlement
  import opened Pool

  /** The body of isValidTx, shared by method1/TxHandler.java and
      doc/TxHandler.java, whose texts are the same: true exactly when the
      five documented conditions hold against the pool; it changes
      nothing. */
  method ValidateTx(pool: UTXOPool, crypto: Crypto, tx: Transaction) returns (valid: bool)
    ensures valid == IsValid(crypto, pool.H, tx)
  {
    var utxoSet: set<UTXO> := {};
    var sumOfInputVals := 0;
    var sumOfOutputVals := 0;
    var i := 0;
    while i < |tx.inputs|
      invariant InputsChecked(crypto, pool.H, tx, i, utxoSet, sumOfInputVals)
    {
      var input := tx.inputs[i];
      var lastUTXO := UTXO(input.prevTxHash, input.outputIndex);
      // check 1: the claimed output is in the pool
      if !pool.Contains(lastUTXO) {
        return false;
      }
      var prevTx := pool.GetTxOutput(lastUTXO).value;
      // check 2: the signature is present and verifies
      if input.signature.None? || !crypto.verify(prevTx.address, crypto.rawDataToSign(tx, i), input.signature) {
        assert !SignatureValid(crypto, pool.H, tx, i);
        return false;
      }
      InputChecked(crypto, pool.H, tx, i, utxoSet, sumOfInputVals);
      utxoSet := utxoSet + {lastUTXO};
      sumOfInputVals := sumOfInputVals + prevTx.value;
      i := i + 1;
    }
    InputsAllChecked(crypto, pool.H, tx, utxoSet, sumOfInputVals);

    // check 3: as many distinct claims as inputs
    if |utxoSet| != |tx.inputs| {
      return false;
    }

    // check 4: no negative output; the sum is taken before the test
    var k := 0;
    while k < |tx.outputs|
      invariant OutputsChecked(tx, k, sumOfOutputVals)
    {
      var output := tx.outputs[k];
      sumOfOutputVals := sumOfOutputVals + output.value;
      if output.value < 0 {
        return false;
      }
      OutputChecked(tx, k, sumOfOutputVals - output.value);
      k := k + 1;
    }
    OutputsAllChecked(tx, sumOfOutputVals);

    // check 5: inputs cover outputs
    if sumOfInputVals < sumOfOutputVals {
      return false;
    }
    return true;
  }

  class TxHandler {
    var pool: UTXOPool
    const crypto: Crypto

    /** Keeps the caller's pool object itself: no copy is made. */
    constructor (utxoPool: UTXOPool, crypto: Crypto)
      ensures pool == utxoPool && this.crypto == crypto
    {
      pool := utxoPool;
      this.crypto := crypto;
    }

    function GetPool(): (p: UTXOPool)
      reads this
    {
      pool
    }

    /** Returns true exactly when the five documented conditions hold
        against the current pool; it changes nothing. */
    method IsValidTx(tx: Transaction) returns (valid: bool)
      ensures valid == IsValid(crypto, pool.H, tx)
    {
      valid := ValidateTx(pool, crypto, tx);
    }

    /** One iteration of the for-each loop of the settlement: position t
        is skipped when already accepted, and otherwise committed in place
        exactly when it is valid against the pool as it stands. */
    method Visit(possibleTxs: seq<Transaction>, t: nat, txVis: set<nat>, ghost order: seq<nat>, updated: bool)
      returns (txVis': set<nat>, ghost order': seq<nat>, updated': bool)
      modifies pool
      requires t < |possibleTxs|
      ensures ScanState(order', txVis', pool.H, updated')
           == VisitStep(crypto, possibleTxs, ScanState(order, txVis, old(pool.H), updated), t)
    {
      txVis', order', updated' := txVis, order, updated;
      var tx := possibleTxs[t];
      if t !in txVis {
        var ok := IsValidTx(tx);
        if ok {
          txVis' := txVis + {t};
          order' := order + [t];
          updated' := true;
          CommitOutputsThenInputs(pool, tx);
        }
      }
    }

    /** One pass of the while loop of the settlement: visits every position
        of the batch in order, starting with nothing updated. */
    method Scan(possibleTxs: seq<Transaction>, vis0: set<nat>, ghost order0: seq<nat>)
      returns (txVis: set<nat>, ghost order: seq<nat>, updated: bool)
      modifies pool
      ensures ScanState(order, txVis, pool.H, updated)
           == ScanUpTo(crypto, possibleTxs, ScanState(order0, vis0, old(pool.H), false), |possibleTxs|)
    {
      txVis, order, updated := vis0, order0, false;
      var t := 0;
      while t < |possibleTxs|
        invariant t <= |possibleTxs|
        invariant ScanState(order, txVis, pool.H, updated)
               == ScanUpTo(crypto, possibleTxs, ScanState(order0, vis0, old(pool.H), false), t)
      {
        txVis, order, updated := Visit(possibleTxs, t, txVis, order, updated);
        t := t + 1;
      }
    }

    /** Settles a batch: repeats the scan until a pass commits nothing, then
        lists the accepted transactions. `order` is the commit order
        (positions in the batch) and `picked` the order in which the
        accepted set is enumerated into the result. */
    method HandleTxs(possibleTxs: seq<Transaction>)
      returns (accepted: seq<Transaction>, ghost order: seq<nat>, ghost picked: seq<nat>)
      modifies pool
      ensures InRange(order, |possibleTxs|) && DistinctIdx(order)
      ensures ValidChain(crypto, old(pool.H), Pick(possibleTxs, order))
      ensures pool.H == ApplyAll(old(pool.H), Pick(possibleTxs, order))
      ensures forall i :: 0 <= i < |possibleTxs| && i !in order ==> !IsValid(crypto, pool.H, possibleTxs[i])
      ensures GreedyOrder(crypto, old(pool.H), possibleTxs, |possibleTxs|) <= order
      ensures InRange(picked, |possibleTxs|) && DistinctIdx(picked) && |picked| == |order|
      ensures forall k :: k in picked <==> k in order
      ensures accepted == Pick(possibleTxs, picked)
      ensures var r := Settle(crypto, possibleTxs, ScanState([], {}, old(pool.H), false));
        order == r.order && pool.H == r.pool && forall k :: k in r.vis <==> k in order
    {
      ghost var p0 := pool.H;
      var n := |possibleTxs|;
      var txVis: set<nat> := {};
      order := [];
      ghost var firstPass := true;
      ghost var settled := Settle(crypto, possibleTxs, ScanState([], {}, p0, false));
      while true
        invariant Committed(crypto, p0, possibleTxs, order, txVis, pool.H)
        invariant firstPass ==> order == []
        invariant !firstPass ==> GreedyOrder(crypto, p0, possibleTxs, n) <= order
        invariant VisInRange(txVis, n)
        invariant Settle(crypto, possibleTxs, ScanState(order, txVis, pool.H, false)) == settled
        decreases n - |txVis|
      {
        var updated;
        ghost var s0 := ScanState(order, txVis, pool.H, false);
        txVis, order, updated := Scan(possibleTxs, txVis, order);
        ScanInvariant(crypto, p0, possibleTxs, s0, firstPass, n);
        ScanGrows(crypto, possibleTxs, s0, n);
        if !updated {
          break;
        }
        firstPass := false;
      }

      accepted, picked := Enumerate(possibleTxs, txVis);
    }
  }
}
