/**
  Batch settlement: the sequence of transactions a handler commits, the pool
  that results, and what holds of any such sequence in which each
  transaction was valid against the pool left by the ones before it.
 */
module Settlement {
  import opened Ledger

  /** Every index names a position of a batch of length n. */
  ghost predicate InRange(idx: seq<nat>, n: int)
  {
    forall k :: 0 <= k < |idx| ==> idx[k] < n
  }

  /** No index occurs twice. */
  ghost predicate DistinctIdx(idx: seq<nat>)
  {
    forall j, k :: 0 <= j < k < |idx| ==> idx[j] != idx[k]
  }

  /** The transactions of a batch at the given positions, in that order. */
  function Pick(batch: seq<Transaction>, idx: seq<nat>): (r: seq<Transaction>)
    requires InRange(idx, |batch|)
    ensures |r| == |idx|
    ensures forall k :: 0 <= k < |idx| ==> r[k] == batch[idx[k]]
  {
    if idx == [] then [] else Pick(batch, idx[..|idx| - 1]) + [batch[idx[|idx| - 1]]]
  }

  /** The pool after committing txs in order with add-then-remove commits. */
  function ApplyAll(p: PoolMap, txs: seq<Transaction>): PoolMap
  {
    if txs == [] then p else AddThenRemove(ApplyAll(p, txs[..|txs| - 1]), txs[|txs| - 1])
  }

  /** The pool after committing txs in order with remove-then-add commits. */
  function ApplyAllRemoveFirst(p: PoolMap, txs: seq<Transaction>): PoolMap
  {
    if txs == [] then p else RemoveThenAdd(ApplyAllRemoveFirst(p, txs[..|txs| - 1]), txs[|txs| - 1])
  }

  /** Each transaction is valid against the pool the earlier ones leave. */
  ghost predicate ValidChain(c: Crypto, p: PoolMap, txs: seq<Transaction>)
  {
    txs == [] ||
    (ValidChain(c, p, txs[..|txs| - 1]) && IsValid(c, ApplyAll(p, txs[..|txs| - 1]), txs[|txs| - 1]))
  }

  /** The positions one scan of the first n transactions of a batch commits,
      starting from pool p with nothing accepted: each transaction, in batch
      order, is committed exactly when it is valid against the pool the
      transactions committed before it leave. */
  ghost function GreedyOrder(c: Crypto, p: PoolMap, batch: seq<Transaction>, n: nat): (o: seq<nat>)
    requires n <= |batch|
    ensures InRange(o, n)
    ensures forall j, k :: 0 <= j < k < |o| ==> o[j] < o[k]
    decreases n
  {
    if n == 0 then []
    else
      var o := GreedyOrder(c, p, batch, n - 1);
      if IsValid(c, ApplyAll(p, Pick(batch, o)), batch[n - 1]) then o + [n - 1] else o
  }

  /** All outputs the transactions create, keyed as their commits key them. */
  function AllProduced(txs: seq<Transaction>): PoolMap
  {
    if txs == [] then map[] else AllProduced(txs[..|txs| - 1]) + Produced(txs[|txs| - 1])
  }

  /** All UTXOs the transactions claim. */
  function AllConsumed(txs: seq<Transaction>): set<UTXO>
  {
    if txs == [] then {} else AllConsumed(txs[..|txs| - 1]) + Consumed(txs[|txs| - 1])
  }

  function HashesOf(txs: seq<Transaction>): set<Hash>
  {
    set j | 0 <= j < |txs| :: txs[j].hash
  }

  /** Hashes identify transactions: no two transactions share a hash, and
      no key of the starting pool carries the hash of one of them. */
  ghost predicate FreshHashes(p: PoolMap, txs: seq<Transaction>)
  {
    && (forall a, b :: 0 <= a < b < |txs| ==> txs[a].hash != txs[b].hash)
    && (forall u, a :: u in p && 0 <= a < |txs| ==> u.txHash != txs[a].hash)
  }

  // ---------------------------------------------------------------------
  // Unfolding one more commit
  // ---------------------------------------------------------------------

  lemma PickSnoc(batch: seq<Transaction>, idx: seq<nat>, t: nat)
    requires InRange(idx, |batch|) && t < |batch|
    ensures InRange(idx + [t], |batch|)
    ensures Pick(batch, idx + [t]) == Pick(batch, idx) + [batch[t]]
  {
    assert (idx + [t])[..|idx|] == idx;
  }

  lemma ChainSnoc(c: Crypto, p: PoolMap, txs: seq<Transaction>, tx: Transaction)
    ensures ApplyAll(p, txs + [tx]) == AddThenRemove(ApplyAll(p, txs), tx)
    ensures ValidChain(c, p, txs + [tx]) <==> ValidChain(c, p, txs) && IsValid(c, ApplyAll(p, txs), tx)
  {
    assert (txs + [tx])[..|txs|] == txs;
  }

  /** Every prefix of a valid chain is one, and the next transaction is
      valid against the pool that prefix leaves. */
  lemma {:induction false} ValidChainPrefix(c: Crypto, p: PoolMap, txs: seq<Transaction>, j: int)
    requires ValidChain(c, p, txs) && 0 <= j < |txs|
    ensures ValidChain(c, p, txs[..j]) && IsValid(c, ApplyAll(p, txs[..j]), txs[j])
    decreases |txs|
  {
    var n := |txs| - 1;
    if j < n {
      ValidChainPrefix(c, p, txs[..n], j);
      PrefixOfPrefix(txs, n, j);
    }
  }

  lemma PrefixOfPrefix(txs: seq<Transaction>, n: int, j: int)
    requires 0 <= j < n <= |txs|
    ensures txs[..n][..j] == txs[..j] && txs[..n][j] == txs[j]
  {
  }

  /** The state a settlement loop keeps: `vis` is the set of the positions in
      `order`, each accepted once, the accepted transactions form a valid
      chain from p0, and h is the pool that chain leaves. */
  ghost predicate Committed(c: Crypto, p0: PoolMap, batch: seq<Transaction>, order: seq<nat>, vis: set<nat>, h: PoolMap)
  {
    && InRange(order, |batch|) && DistinctIdx(order)
    && (forall k :: k in vis <==> k in order)
    && |vis| == |order| <= |batch|
    && ValidChain(c, p0, Pick(batch, order))
    && h == ApplyAll(p0, Pick(batch, order))
  }

  /** Committing one more valid, not yet accepted transaction keeps that state. */
  lemma CommitStep(c: Crypto, p0: PoolMap, batch: seq<Transaction>, order: seq<nat>, vis: set<nat>, h: PoolMap, t: nat)
    requires Committed(c, p0, batch, order, vis, h)
    requires t < |batch| && t !in vis && IsValid(c, h, batch[t])
    ensures Committed(c, p0, batch, order + [t], vis + {t}, AddThenRemove(h, batch[t]))
    ensures |vis + {t}| == |vis| + 1
  {
    PickSnoc(batch, order, t);
    ChainSnoc(c, p0, Pick(batch, order), batch[t]);
    RangeCard(vis + {t}, |batch|);
  }

  /** No transaction among the first t positions that is not yet accepted
      is valid against pool h. */
  ghost predicate Stuck(c: Crypto, batch: seq<Transaction>, vis: set<nat>, h: PoolMap, t: int)
    requires t <= |batch|
  {
    forall k :: 0 <= k < t && k !in vis ==> !IsValid(c, h, batch[k])
  }

  lemma StuckStep(c: Crypto, batch: seq<Transaction>, vis: set<nat>, h: PoolMap, t: nat)
    requires t < |batch| && Stuck(c, batch, vis, h, t)
    requires t in vis || !IsValid(c, h, batch[t])
    ensures Stuck(c, batch, vis, h, t + 1)
  {
  }

  /** One scan step from the greedy first pass: with nothing accepted before
      the scan, position t is not yet accepted, and committing it exactly
      when it is valid extends the greedy order. */
  lemma GreedyStep(c: Crypto, p0: PoolMap, batch: seq<Transaction>, order: seq<nat>, t: nat)
    requires t < |batch| && order == GreedyOrder(c, p0, batch, t)
    ensures t !in order
    ensures GreedyOrder(c, p0, batch, t + 1) ==
      if IsValid(c, ApplyAll(p0, Pick(batch, order)), batch[t]) then order + [t] else order
  {
  }

  /** The same step phrased against the pool the loop holds. */
  lemma FirstPassStep(c: Crypto, p0: PoolMap, batch: seq<Transaction>, order: seq<nat>, vis: set<nat>, h: PoolMap, t: nat)
    requires Committed(c, p0, batch, order, vis, h)
    requires t < |batch| && order == GreedyOrder(c, p0, batch, t)
    ensures t !in vis
    ensures IsValid(c, h, batch[t]) ==> GreedyOrder(c, p0, batch, t + 1) == order + [t]
    ensures !IsValid(c, h, batch[t]) ==> GreedyOrder(c, p0, batch, t + 1) == order
  {
    GreedyStep(c, p0, batch, order, t);
  }

  // ---------------------------------------------------------------------
  // One scan of a batch
  // ---------------------------------------------------------------------

  /** Where a scan of the batch stands: the accepted positions in commit
      order and as a set, the pool, and whether this scan accepted any. */
  datatype ScanState = ScanState(order: seq<nat>, vis: set<nat>, pool: PoolMap, updated: bool)

  /** The visit of position t: skipped when already accepted, otherwise
      committed exactly when valid against the pool as it stands. */
  ghost function VisitStep(c: Crypto, batch: seq<Transaction>, s: ScanState, t: nat): ScanState
    requires t < |batch|
  {
    if t in s.vis || !IsValid(c, s.pool, batch[t]) then s
    else ScanState(s.order + [t], s.vis + {t}, AddThenRemove(s.pool, batch[t]), true)
  }

  /** The state after visiting positions 0 .. t-1 in order. */
  ghost function ScanUpTo(c: Crypto, batch: seq<Transaction>, s0: ScanState, t: nat): ScanState
    requires t <= |batch|
    decreases t
  {
    if t == 0 then s0 else VisitStep(c, batch, ScanUpTo(c, batch, s0, t - 1), t - 1)
  }

  /** Every accepted position is a position of a batch of length n. */
  ghost predicate VisInRange(vis: set<nat>, n: int)
  {
    forall k :: k in vis ==> k < n
  }

  /** A scan only adds positions of the batch, and a scan that began with
      nothing updated and ends updated has added at least one. */
  lemma {:induction false} ScanGrows(c: Crypto, batch: seq<Transaction>, s0: ScanState, t: nat)
    requires t <= |batch| && VisInRange(s0.vis, |batch|)
    ensures var s := ScanUpTo(c, batch, s0, t);
      && VisInRange(s.vis, |batch|) && s0.vis <= s.vis && |s0.vis| <= |s.vis|
      && (s.updated ==> s0.updated || |s0.vis| < |s.vis|)
    decreases t
  {
    if t > 0 {
      ScanGrows(c, batch, s0, t - 1);
    }
  }

  /** The whole settlement loop: scans from s until a scan accepts nothing,
      each scan starting with nothing updated; the state it stops in. */
  ghost function Settle(c: Crypto, batch: seq<Transaction>, s: ScanState): (r: ScanState)
    requires !s.updated && VisInRange(s.vis, |batch|)
    ensures !r.updated && s.vis <= r.vis && s.order <= r.order
    ensures forall k :: 0 <= k < |batch| && k !in r.vis ==> !IsValid(c, r.pool, batch[k])
    decreases |batch| - |s.vis|
  {
    var s' := ScanUpTo(c, batch, s, |batch|);
    ScanGrows(c, batch, s, |batch|);
    RangeCard(s'.vis, |batch|);
    ScanOutcome(c, batch, s, |batch|);
    if !s'.updated then s' else Settle(c, batch, s'.(updated := false))
  }

  /** A scan only appends to the commit order, and one that ends with nothing
      updated changed nothing and found no unaccepted position valid. */
  lemma {:induction false} ScanOutcome(c: Crypto, batch: seq<Transaction>, s0: ScanState, t: nat)
    requires t <= |batch| && !s0.updated
    ensures var s := ScanUpTo(c, batch, s0, t);
      && s0.order <= s.order
      && (!s.updated ==> s == s0 && forall k :: 0 <= k < t && k !in s.vis ==> !IsValid(c, s.pool, batch[k]))
    decreases t
  {
    if t > 0 {
      ScanOutcome(c, batch, s0, t - 1);
    }
  }

  /** What holds t positions into a scan that began at s0: the scan has
      only added to the accepted positions, and what it has accepted was
      valid when committed; `updated` records whether it added any; a scan
      that has added nothing found no valid unaccepted position so far; and
      a first scan (one that began with nothing accepted) has accepted
      exactly the greedy order. */
  ghost predicate Scanning(c: Crypto, p0: PoolMap, batch: seq<Transaction>, s0: ScanState, firstPass: bool,
                           s: ScanState, t: nat)
    requires t <= |batch|
  {
    && Committed(c, p0, batch, s.order, s.vis, s.pool)
    && s0.order <= s.order
    && (s.updated ==> |s.vis| > |s0.vis|)
    && (!s.updated ==> s.order == s0.order && s.vis == s0.vis && Stuck(c, batch, s.vis, s.pool, t))
    && (firstPass ==> s.order == GreedyOrder(c, p0, batch, t))
  }

  /** The visit of position t - 1 keeps what Scanning says. */
  lemma VisitKeeps(c: Crypto, p0: PoolMap, batch: seq<Transaction>, s0: ScanState, firstPass: bool,
                   s: ScanState, t: nat)
    requires 0 < t <= |batch| && Scanning(c, p0, batch, s0, firstPass, s, t - 1)
    ensures Scanning(c, p0, batch, s0, firstPass, VisitStep(c, batch, s, t - 1), t)
  {
    var k := t - 1;
    if firstPass {
      FirstPassStep(c, p0, batch, s.order, s.vis, s.pool, k);
    }
    if k !in s.vis && IsValid(c, s.pool, batch[k]) {
      VisitCommits(c, p0, batch, s0, firstPass, s, t);
    } else if !s.updated {
      StuckStep(c, batch, s.vis, s.pool, k);
    }
  }

  lemma VisitCommits(c: Crypto, p0: PoolMap, batch: seq<Transaction>, s0: ScanState, firstPass: bool,
                     s: ScanState, t: nat)
    requires 0 < t <= |batch| && Scanning(c, p0, batch, s0, firstPass, s, t - 1)
    requires t - 1 !in s.vis && IsValid(c, s.pool, batch[t - 1])
    requires firstPass ==> GreedyOrder(c, p0, batch, t) == s.order + [t - 1]
    ensures Scanning(c, p0, batch, s0, firstPass, VisitStep(c, batch, s, t - 1), t)
  {
    CommitStep(c, p0, batch, s.order, s.vis, s.pool, t - 1);
  }

  /** Every scan keeps the settlement state, and its outcome is as Scanning says. */
  lemma {:induction false} ScanInvariant(c: Crypto, p0: PoolMap, batch: seq<Transaction>, s0: ScanState,
                                         firstPass: bool, t: nat)
    requires t <= |batch| && Committed(c, p0, batch, s0.order, s0.vis, s0.pool) && !s0.updated
    requires firstPass ==> s0.order == []
    ensures Scanning(c, p0, batch, s0, firstPass, ScanUpTo(c, batch, s0, t), t)
    decreases t
  {
    if t == 0 {
      assert Stuck(c, batch, s0.vis, s0.pool, 0);
    } else {
      ScanInvariant(c, p0, batch, s0, firstPass, t - 1);
      var s := ScanUpTo(c, batch, s0, t - 1);
      VisitKeeps(c, p0, batch, s0, firstPass, s, t);
    }
  }

  // ---------------------------------------------------------------------
  // The result array
  // ---------------------------------------------------------------------

  /** Lists the accepted transactions in an unspecified order, each once,
      as the iteration over the accepted HashSet does. */
  method Enumerate(batch: seq<Transaction>, txVis: set<nat>)
    returns (accepted: seq<Transaction>, ghost picked: seq<nat>)
    requires forall k :: k in txVis ==> k < |batch|
    ensures InRange(picked, |batch|) && DistinctIdx(picked) && |picked| == |txVis|
    ensures forall k :: k in picked <==> k in txVis
    ensures accepted == Pick(batch, picked)
  {
    accepted := [];
    picked := [];
    var rest := txVis;
    while rest != {}
      invariant rest <= txVis
      invariant forall k :: k in picked <==> k in txVis && k !in rest
      invariant InRange(picked, |batch|) && DistinctIdx(picked)
      invariant |picked| + |rest| == |txVis|
      invariant accepted == Pick(batch, picked)
      decreases |rest|
    {
      var k :| k in rest;
      PickSnoc(batch, picked, k);
      accepted := accepted + [batch[k]];
      picked := picked + [k];
      rest := rest - {k};
    }
  }

  // ---------------------------------------------------------------------
  // No double spend among accepted transactions
  // ---------------------------------------------------------------------

  /** A key of the pool left by a chain was in the starting pool or was
      created by a transaction of the chain. */
  lemma {:induction false} KeysOrigin(p: PoolMap, txs: seq<Transaction>, u: UTXO)
    requires u in ApplyAll(p, txs)
    ensures u in p || u.txHash in HashesOf(txs)
    decreases |txs|
  {
    if txs != [] {
      var n := |txs| - 1;
      if u in Produced(txs[n]) {
        ProducedKeys(txs[n], u);
      } else {
        KeysOrigin(p, txs[..n], u);
        if u.txHash in HashesOf(txs[..n]) {
          var j :| 0 <= j < n && txs[..n][j].hash == u.txHash;
          assert txs[j].hash == u.txHash;
        }
      }
    }
  }

  /** A UTXO the j-th transaction claims was in the starting pool or was
      created by a transaction before the j-th. */
  lemma ConsumedOrigin(c: Crypto, p: PoolMap, txs: seq<Transaction>, j: int, u: UTXO)
    requires ValidChain(c, p, txs) && 0 <= j < |txs| && u in Consumed(txs[j])
    ensures u in p || u.txHash in HashesOf(txs[..j])
  {
    ValidChainPrefix(c, p, txs, j);
    ConsumedClaims(txs[j], u);
    KeysOrigin(p, txs[..j], u);
  }

  /** Under fresh hashes, a UTXO once claimed by the chain is never in the pool again. */
  lemma SpentStaysSpent(c: Crypto, p: PoolMap, txs: seq<Transaction>, j: int, u: UTXO)
    requires ValidChain(c, p, txs) && FreshHashes(p, txs)
    requires 0 <= j < |txs| && u in Consumed(txs[j])
    ensures u !in ApplyAll(p, txs)
  {
    forall k | j < k < |txs| ensures u.txHash != txs[k].hash {
      NotRecreated(c, p, txs, j, k, u);
    }
    OutAfterClaim(p, txs, j, u);
  }

  /** Under fresh hashes, no later transaction of a chain creates a UTXO
      an earlier one claimed. */
  lemma NotRecreated(c: Crypto, p: PoolMap, txs: seq<Transaction>, j: int, k: int, u: UTXO)
    requires ValidChain(c, p, txs) && FreshHashes(p, txs)
    requires 0 <= j < k < |txs| && u in Consumed(txs[j])
    ensures u.txHash != txs[k].hash
  {
    ConsumedOrigin(c, p, txs, j, u);
    if u.txHash in HashesOf(txs[..j]) {
      var i :| 0 <= i < j && txs[..j][i].hash == u.txHash;
      assert txs[i].hash == u.txHash;
    }
  }

  /** A UTXO claimed at position j and not recreated after it is absent
      from the pool the whole sequence of commits leaves. */
  lemma {:induction false} OutAfterClaim(p: PoolMap, txs: seq<Transaction>, j: int, u: UTXO)
    requires 0 <= j < |txs| && u in Consumed(txs[j])
    requires forall k :: j < k < |txs| ==> u.txHash != txs[k].hash
    ensures u !in ApplyAll(p, txs)
    decreases |txs|
  {
    var n := |txs| - 1;
    var pre := txs[..n];
    AddThenRemoveDelta(ApplyAll(p, pre), txs[n], u);
    if j < n {
      assert pre[j] == txs[j];
      OutAfterClaim(p, pre, j, u);
      ProducedKeys(txs[n], u);
    }
  }

  /** No two accepted transactions claim the same UTXO (a "mutually valid"
      set), provided hashes identify transactions. */
  lemma NoDoubleSpend(c: Crypto, p: PoolMap, txs: seq<Transaction>)
    requires ValidChain(c, p, txs) && FreshHashes(p, txs)
    ensures forall j, k :: 0 <= j < k < |txs| ==> Consumed(txs[j]) !! Consumed(txs[k])
  {
    forall j, k | 0 <= j < k < |txs| ensures Consumed(txs[j]) !! Consumed(txs[k]) {
      forall u | u in Consumed(txs[j]) ensures u !in Consumed(txs[k]) {
        NotClaimedAgain(c, p, txs, j, k, u);
      }
    }
  }

  lemma NotClaimedAgain(c: Crypto, p: PoolMap, txs: seq<Transaction>, j: int, k: int, u: UTXO)
    requires ValidChain(c, p, txs) && FreshHashes(p, txs)
    requires 0 <= j < k < |txs| && u in Consumed(txs[j])
    ensures u !in Consumed(txs[k])
  {
    var pre := txs[..k];
    ValidChainPrefix(c, p, txs, k);
    assert FreshHashes(p, pre);
    assert pre[j] == txs[j];
    SpentStaysSpent(c, p, pre, j, u);
    ConsumedClaims(txs[k], u);
  }

  /** No later transaction of the chain creates a key an earlier one claimed. */
  lemma ProducedAvoidsConsumed(c: Crypto, p: PoolMap, txs: seq<Transaction>)
    requires ValidChain(c, p, txs) && FreshHashes(p, txs) && txs != []
    ensures Produced(txs[|txs| - 1]).Keys !! AllConsumed(txs[..|txs| - 1])
  {
    var n := |txs| - 1;
    forall u | u in AllConsumed(txs[..n]) ensures u !in Produced(txs[n]) {
      var j := AllConsumedWitness(txs[..n], u);
      assert txs[..n][j] == txs[j];
      ConsumedOrigin(c, p, txs, j, u);
      if u.txHash in HashesOf(txs[..j]) {
        var i :| 0 <= i < j && txs[..j][i].hash == u.txHash;
        assert txs[i].hash == u.txHash;
      }
      ProducedKeys(txs[n], u);
    }
  }

  lemma {:induction false} AllConsumedWitness(txs: seq<Transaction>, u: UTXO) returns (j: int)
    requires u in AllConsumed(txs)
    ensures 0 <= j < |txs| && u in Consumed(txs[j])
    decreases |txs|
  {
    var n := |txs| - 1;
    if u in Consumed(txs[n]) {
      j := n;
    } else {
      j := AllConsumedWitness(txs[..n], u);
      assert txs[..n][j] == txs[j];
    }
  }

  /** The pool after settlement is the starting pool with every created
      output added and every claimed UTXO removed. */
  lemma {:induction false} PoolDelta(c: Crypto, p: PoolMap, txs: seq<Transaction>)
    requires ValidChain(c, p, txs) && FreshHashes(p, txs)
    ensures ApplyAll(p, txs) == (p + AllProduced(txs)) - AllConsumed(txs)
    decreases |txs|
  {
    if txs != [] {
      var n := |txs| - 1;
      var pre := txs[..n];
      var tx := txs[n];
      assert FreshHashes(p, pre);
      PoolDelta(c, p, pre);
      ProducedAvoidsConsumed(c, p, txs);
      assert AllProduced(txs) == AllProduced(pre) + Produced(tx);
      assert AllConsumed(txs) == AllConsumed(pre) + Consumed(tx);
      DeltaStep(p, AllProduced(pre), AllConsumed(pre), Produced(tx), Consumed(tx));
    }
  }

  /** One more commit on top of an accumulated delta, as map algebra. */
  lemma DeltaStep(p: PoolMap, made: PoolMap, spent: set<UTXO>, made': PoolMap, spent': set<UTXO>)
    requires made'.Keys !! spent
    ensures ((p + made) - spent + made') - spent' == (p + (made + made')) - (spent + spent')
  {
    var l := ((p + made) - spent + made') - spent';
    var r := (p + (made + made')) - (spent + spent');
    forall u | u in l ensures u in r && l[u] == r[u] {
    }
    forall u | u in r ensures u in l {
    }
  }

  /** Conservation: every accepted transaction's outputs are non-negative and
      worth no more than the outputs it claimed, as the pool stood when it
      was committed. */
  lemma ChainConserves(c: Crypto, p: PoolMap, txs: seq<Transaction>)
    requires ValidChain(c, p, txs)
    ensures forall j :: 0 <= j < |txs| ==>
      OutputsNonNegative(txs[j]) &&
      OutputValue(txs[j].outputs) <= InputValue(ApplyAll(p, txs[..j]), txs[j].inputs)
  {
    forall j | 0 <= j < |txs|
      ensures OutputsNonNegative(txs[j])
      ensures OutputValue(txs[j].outputs) <= InputValue(ApplyAll(p, txs[..j]), txs[j].inputs)
    {
      ValidChainPrefix(c, p, txs, j);
    }
  }

  /** The two commit orders give the same pool when no transaction claims
      one of its own outputs. */
  lemma {:induction false} CommitOrdersAgreeOnChain(p: PoolMap, txs: seq<Transaction>)
    requires forall j :: 0 <= j < |txs| ==> Produced(txs[j]).Keys !! Consumed(txs[j])
    ensures ApplyAllRemoveFirst(p, txs) == ApplyAll(p, txs)
    decreases |txs|
  {
    if txs != [] {
      var n := |txs| - 1;
      CommitOrdersAgreeOnChain(p, txs[..n]);
      CommitOrdersAgree(ApplyAll(p, txs[..n]), txs[n]);
    }
  }

  /** Fresh hashes of a batch carry over to the transactions picked from it. */
  lemma PickFresh(p: PoolMap, batch: seq<Transaction>, idx: seq<nat>)
    requires FreshHashes(p, batch) && InRange(idx, |batch|) && DistinctIdx(idx)
    ensures FreshHashes(p, Pick(batch, idx))
  {
    var txs := Pick(batch, idx);
    forall a, b | 0 <= a < b < |txs| ensures txs[a].hash != txs[b].hash {
      if idx[a] < idx[b] {
      } else {
        assert idx[b] < idx[a];
      }
    }
  }

  /** What a settlement that commits a valid chain of distinct batch
      positions guarantees when hashes identify transactions: the accepted
      transactions are mutually valid (no UTXO is claimed twice among them)
      and the pool changed by exactly their outputs and claims. */
  lemma SettledBatch(c: Crypto, p0: PoolMap, batch: seq<Transaction>, order: seq<nat>)
    requires FreshHashes(p0, batch) && InRange(order, |batch|) && DistinctIdx(order)
    requires ValidChain(c, p0, Pick(batch, order))
    ensures var txs := Pick(batch, order);
      && (forall j, k :: 0 <= j < k < |txs| ==> Consumed(txs[j]) !! Consumed(txs[k]))
      && ApplyAll(p0, txs) == (p0 + AllProduced(txs)) - AllConsumed(txs)
  {
    var txs := Pick(batch, order);
    PickFresh(p0, batch, order);
    NoDoubleSpend(c, p0, txs);
    PoolDelta(c, p0, txs);
  }

  /** A set of positions of a batch of length n has at most n elements. */
  lemma {:induction false} RangeCard(s: set<nat>, n: nat)
    requires forall k :: k in s ==> k < n
    ensures |s| <= n
    decreases n
  {
    if n > 0 {
      RangeCard(s - {n - 1}, n - 1);
    } else {
      assert s == {};
    }
  }
}
