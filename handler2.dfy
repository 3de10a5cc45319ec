/**
  TxHandler2.java: the same handler with a different validator. It rejects
  a repeated claim inside the input loop, using a scratch pool as the set
  of claims seen so far, and it hands each input's signature to the
  primitive without testing it for null first.
 */
module Handler2 {
  import opened Ledger
  import opened Settlement
  import opened Pool

  /** The first i inputs claim pooled outputs, their signatures are accepted
      by the primitive, no two of them claim the same UTXO, `seen` is
      keyed by exactly their claims, and `sumIn` is the value they bring. */
  ghost predicate InputsAccepted(c: Crypto, p: PoolMap, tx: Transaction, i: nat, seen: PoolMap, sumIn: int)
  {
    && i <= |tx.inputs|
    && (forall j :: 0 <= j < i ==> SignatureAccepted(c, p, tx, j))
    && Distinct(Claims(tx)[..i])
    && seen.Keys == Elements(Claims(tx)[..i])
    && sumIn == InputValue(p, tx.inputs[..i])
  }

  lemma InputAccepted(c: Crypto, p: PoolMap, tx: Transaction, i: nat, seen: PoolMap, sumIn: int)
    requires InputsAccepted(c, p, tx, i, seen, sumIn) && i < |tx.inputs|
    requires SignatureAccepted(c, p, tx, i) && ClaimOf(tx.inputs[i]) !in seen
    ensures var u := ClaimOf(tx.inputs[i]);
      InputsAccepted(c, p, tx, i + 1, seen[u := p[u]], sumIn + p[u].value)
  {
    var u := ClaimOf(tx.inputs[i]);
    var pre := Claims(tx)[..i];
    assert Claims(tx)[..i + 1] == pre + [u];
    assert tx.inputs[..i + 1][..i] == tx.inputs[..i];
    var next := Claims(tx)[..i + 1];
    forall a, b | 0 <= a < b < |next| ensures next[a] != next[b] {
      if b == i {
        assert pre[a] in Elements(pre);
      } else {
        assert pre[a] != pre[b];
      }
    }
  }

  /** A claim already seen is a claim made twice. */
  lemma RepeatedClaim(c: Crypto, p: PoolMap, tx: Transaction, i: nat, seen: PoolMap, sumIn: int)
    requires InputsAccepted(c, p, tx, i, seen, sumIn) && i < |tx.inputs|
    requires ClaimOf(tx.inputs[i]) in seen
    ensures !NoDoubleClaim(tx)
  {
    var pre := Claims(tx)[..i];
    var k :| 0 <= k < i && pre[k] == ClaimOf(tx.inputs[i]);
    assert Claims(tx)[k] == Claims(tx)[i];
  }

  lemma InputsAllAccepted(c: Crypto, p: PoolMap, tx: Transaction, seen: PoolMap, sumIn: int)
    requires InputsAccepted(c, p, tx, |tx.inputs|, seen, sumIn)
    ensures ClaimsInPool(p, tx) && NoDoubleClaim(tx)
    ensures forall i :: 0 <= i < |tx.inputs| ==> SignatureAccepted(c, p, tx, i)
    ensures sumIn == InputValue(p, tx.inputs)
  {
    assert Claims(tx)[..|tx.inputs|] == Claims(tx);
    assert tx.inputs[..|tx.inputs|] == tx.inputs;
    forall i | 0 <= i < |tx.inputs| ensures ClaimOf(tx.inputs[i]) in p {
      assert SignatureAccepted(c, p, tx, i);
    }
  }

  class TxHandler2 {
    var utxoPool: UTXOPool
    const crypto: Crypto

    /** Keeps the caller's pool object itself: no copy is made. */
    constructor (utxoPool: UTXOPool, crypto: Crypto)
      ensures this.utxoPool == utxoPool && this.crypto == crypto
    {
      this.utxoPool := utxoPool;
      this.crypto := crypto;
    }

    /** Returns true exactly when the five conditions hold with (2) read as
        whatever the primitive says about the signature, null included; so
        exactly the documented rule when the primitive rejects null. It
        changes nothing but a scratch pool of its own. */
    method IsValidTx(tx: Transaction) returns (valid: bool)
      ensures valid == IsValidUnguarded(crypto, utxoPool.H, tx)
      ensures RejectsAbsent(crypto) ==> valid == IsValid(crypto, utxoPool.H, tx)
    {
      var utxoSet := new UTXOPool();
      var pSum := 0;
      var sum := 0;
      var i := 0;
      while i < |tx.inputs|
        invariant fresh(utxoSet)
        invariant InputsAccepted(crypto, utxoPool.H, tx, i, utxoSet.H, pSum)
      {
        var input := tx.inputs[i];
        var u := UTXO(input.prevTxHash, input.outputIndex);
        var out := utxoPool.GetTxOutput(u);
        if !utxoPool.Contains(u) {
          return false;
        }
        if !crypto.verify(out.value.address, crypto.rawDataToSign(tx, i), input.signature) {
          assert !SignatureAccepted(crypto, utxoPool.H, tx, i) && !SignatureValid(crypto, utxoPool.H, tx, i);
          return false;
        }
        if utxoSet.Contains(u) {
          RepeatedClaim(crypto, utxoPool.H, tx, i, utxoSet.H, pSum);
          return false;
        }
        InputAccepted(crypto, utxoPool.H, tx, i, utxoSet.H, pSum);
        utxoSet.AddUTXO(u, out.value);
        pSum := pSum + out.value.value;
        i := i + 1;
      }
      InputsAllAccepted(crypto, utxoPool.H, tx, utxoSet.H, pSum);
      UnguardedDecided(tx);

      // the outputs: the test comes before the sum
      var k := 0;
      while k < |tx.outputs|
        invariant OutputsChecked(tx, k, sum)
      {
        var output := tx.outputs[k];
        if output.value < 0 {
          return false;
        }
        OutputChecked(tx, k, sum);
        sum := sum + output.value;
        k := k + 1;
      }
      OutputsAllChecked(tx, sum);

      if pSum < sum {
        return false;
      }
      return true;
    }

    /** What the input pass leaves open: (1) to (3) hold, so the
        transaction is valid exactly when (4) and (5) hold; and with a
        primitive that rejects null, the unguarded reading is the
        documented one. */
    lemma UnguardedDecided(tx: Transaction)
      requires ClaimsInPool(utxoPool.H, tx) && NoDoubleClaim(tx)
      requires forall i :: 0 <= i < |tx.inputs| ==> SignatureAccepted(crypto, utxoPool.H, tx, i)
      ensures IsValidUnguarded(crypto, utxoPool.H, tx) <==> OutputsNonNegative(tx) && Balanced(utxoPool.H, tx)
      ensures RejectsAbsent(crypto) ==> IsValid(crypto, utxoPool.H, tx) == IsValidUnguarded(crypto, utxoPool.H, tx)
    {
      if RejectsAbsent(crypto) {
        UnguardedAgrees(crypto, utxoPool.H, tx);
      }
    }

    /** One iteration of the for-each loop of handleTxs. */
    method Visit(possibleTxs: seq<Transaction>, t: nat, txVis: set<nat>, ghost order: seq<nat>, updated: bool)
      returns (txVis': set<nat>, ghost order': seq<nat>, updated': bool)
      modifies utxoPool
      requires t < |possibleTxs| && RejectsAbsent(crypto)
      ensures ScanState(order', txVis', utxoPool.H, updated')
           == VisitStep(crypto, possibleTxs, ScanState(order, txVis, old(utxoPool.H), updated), t)
    {
      txVis', order', updated' := txVis, order, updated;
      var tx := possibleTxs[t];
      if t !in txVis {
        var ok := IsValidTx(tx);
        if ok {
          txVis' := txVis + {t};
          order' := order + [t];
          updated' := true;
          CommitOutputsThenInputs(utxoPool, tx);
        }
      }
    }

    /** One pass of the while loop of handleTxs. */
    method Scan(possibleTxs: seq<Transaction>, vis0: set<nat>, ghost order0: seq<nat>)
      returns (txVis: set<nat>, ghost order: seq<nat>, updated: bool)
      modifies utxoPool
      requires RejectsAbsent(crypto)
      ensures ScanState(order, txVis, utxoPool.H, updated)
           == ScanUpTo(crypto, possibleTxs, ScanState(order0, vis0, old(utxoPool.H), false), |possibleTxs|)
    {
      txVis, order, updated := vis0, order0, false;
      var t := 0;
      while t < |possibleTxs|
        invariant t <= |possibleTxs|
        invariant ScanState(order, txVis, utxoPool.H, updated)
               == ScanUpTo(crypto, possibleTxs, ScanState(order0, vis0, old(utxoPool.H), false), t)
      {
        txVis, order, updated := Visit(possibleTxs, t, txVis, order, updated);
        t := t + 1;
      }
    }

    /** The settlement of method1/TxHandler.java, line for line, over this
        handler's validator; proved for a primitive that rejects null. */
    method HandleTxs(possibleTxs: seq<Transaction>)
      returns (accepted: seq<Transaction>, ghost order: seq<nat>, ghost picked: seq<nat>)
      modifies utxoPool
      requires RejectsAbsent(crypto)
      ensures InRange(order, |possibleTxs|) && DistinctIdx(order)
      ensures ValidChain(crypto, old(utxoPool.H), Pick(possibleTxs, order))
      ensures utxoPool.H == ApplyAll(old(utxoPool.H), Pick(possibleTxs, order))
      ensures forall i :: 0 <= i < |possibleTxs| && i !in order ==> !IsValid(crypto, utxoPool.H, possibleTxs[i])
      ensures GreedyOrder(crypto, old(utxoPool.H), possibleTxs, |possibleTxs|) <= order
      ensures InRange(picked, |possibleTxs|) && DistinctIdx(picked) && |picked| == |order|
      ensures forall k :: k in picked <==> k in order
      ensures accepted == Pick(possibleTxs, picked)
      ensures var r := Settle(crypto, possibleTxs, ScanState([], {}, old(utxoPool.H), false));
        order == r.order && utxoPool.H == r.pool && forall k :: k in r.vis <==> k in order
    {
      ghost var p0 := utxoPool.H;
      var n := |possibleTxs|;
      var txVis: set<nat> := {};
      order := [];
      ghost var firstPass := true;
      ghost var settled := Settle(crypto, possibleTxs, ScanState([], {}, p0, false));
      while true
        invariant Committed(crypto, p0, possibleTxs, order, txVis, utxoPool.H)
        invariant firstPass ==> order == []
        invariant !firstPass ==> GreedyOrder(crypto, p0, possibleTxs, n) <= order
        invariant VisInRange(txVis, n)
        invariant Settle(crypto, possibleTxs, ScanState(order, txVis, utxoPool.H, false)) == settled
        decreases n - |txVis|
      {
        var updated;
        ghost var s0 := ScanState(order, txVis, utxoPool.H, false);
        txVis, order, updated := Scan(possibleTxs, txVis, order);
        ScanInvariant(crypto, p0, possibleTxs, s0, firstPass, n);
        ScanGrows(crypto, possibleTxs, s0, n);
        if !updated {
          break;
        }
        firstPass := false;
      }

      accepted, picked := Enumerate(possibleTxs, txVis);
    }
  }
}
