/**
  Small batches settled by method1's handler from a pool built for the
  occasion: a spend that comes before or after the transaction it depends
  on, and two transactions that claim the same output.
 */
module Scenarios {
  import opened Ledger
  import opened Settlement
  import opened Pool
  import Method1

  /** b spends an output that a creates, and comes first in the batch: the
      first scan rejects b and accepts a, the second accepts b. */
  method DependencyChaining(c: Crypto, p0: PoolMap, a: Transaction, b: Transaction)
    returns (accepted: seq<Transaction>)
    requires IsValid(c, p0, a) && !IsValid(c, p0, b) && IsValid(c, AddThenRemove(p0, a), b)
    ensures |accepted| == 2 && multiset(accepted) == multiset{a, b}
  {
    var pool := new UTXOPool.Of(p0);
    var handler := new Method1.TxHandler(pool, c);
    var batch := [b, a];
    ghost var order, picked;
    accepted, order, picked := handler.HandleTxs(batch);
    ghost var h := pool.H;
    assert 0 !in order ==> !IsValid(c, h, batch[0]);
    assert 0 in order && 1 in order by {
      ChainedOutcome(c, p0, a, b, h, order);
    }
    BothPicked(batch, order, picked);
  }

  /** The same pair listed creator first: the first scan accepts both. */
  method DependencyInOrder(c: Crypto, p0: PoolMap, a: Transaction, b: Transaction)
    returns (accepted: seq<Transaction>)
    requires IsValid(c, p0, a) && IsValid(c, AddThenRemove(p0, a), b)
    ensures |accepted| == 2 && multiset(accepted) == multiset{b, a}
  {
    var pool := new UTXOPool.Of(p0);
    var handler := new Method1.TxHandler(pool, c);
    var batch := [a, b];
    ghost var order, picked;
    accepted, order, picked := handler.HandleTxs(batch);
    assert 0 in order && 1 in order by {
      InOrderOutcome(c, p0, a, b, order);
    }
    BothPicked(batch, order, picked);
  }

  /** On [a, b] the first scan already commits both positions. */
  lemma InOrderOutcome(c: Crypto, p0: PoolMap, a: Transaction, b: Transaction, order: seq<nat>)
    requires IsValid(c, p0, a) && IsValid(c, AddThenRemove(p0, a), b)
    requires GreedyOrder(c, p0, [a, b], 2) <= order
    ensures 0 in order && 1 in order
  {
    InOrderFirstPass(c, p0, a, b);
    assert order[0] == 0 && order[1] == 1;
  }

  lemma InOrderFirstPass(c: Crypto, p0: PoolMap, a: Transaction, b: Transaction)
    requires IsValid(c, p0, a) && IsValid(c, AddThenRemove(p0, a), b)
    ensures GreedyOrder(c, p0, [a, b], 2) == [0, 1]
  {
    BothInFirstPass(c, p0, [a, b]);
  }

  /** A batch of two whose second transaction is valid once the first is
      committed has both committed by the first scan. */
  lemma BothInFirstPass(c: Crypto, p0: PoolMap, batch: seq<Transaction>)
    requires |batch| == 2 && IsValid(c, p0, batch[0]) && IsValid(c, AddThenRemove(p0, batch[0]), batch[1])
    ensures GreedyOrder(c, p0, batch, 2) == [0, 1]
  {
    var o1 := GreedyOrder(c, p0, batch, 1);
    assert o1 == [0] by {
      FirstCommitted(c, p0, batch);
    }
    assert ApplyAll(p0, Pick(batch, o1)) == AddThenRemove(p0, batch[0]) by {
      OnlyOne(p0, batch, 0);
    }
    GreedyStep(c, p0, batch, o1, 1);
  }

  /** A first transaction valid against the pool opens the first scan. */
  lemma FirstCommitted(c: Crypto, p0: PoolMap, batch: seq<Transaction>)
    requires |batch| >= 1 && IsValid(c, p0, batch[0])
    ensures GreedyOrder(c, p0, batch, 1) == [0]
  {
    assert Pick(batch, []) == [];
  }

  /** The only commit order the settlement's contract leaves possible on
      [b, a]: a in the first scan, b in the second. */
  lemma ChainedOutcome(c: Crypto, p0: PoolMap, a: Transaction, b: Transaction, h: PoolMap,
                       order: seq<nat>)
    requires IsValid(c, p0, a) && !IsValid(c, p0, b) && IsValid(c, AddThenRemove(p0, a), b)
    requires InRange(order, 2) && DistinctIdx(order)
    requires h == ApplyAll(p0, Pick([b, a], order))
    requires 0 !in order ==> !IsValid(c, h, b)
    requires GreedyOrder(c, p0, [b, a], 2) <= order
    ensures order == [1, 0]
  {
    ChainedFirstPass(c, p0, a, b);
    ChainedOrder(c, p0, a, b, order, h);
  }

  /** The first scan of [b, a] commits a alone. */
  lemma ChainedFirstPass(c: Crypto, p0: PoolMap, a: Transaction, b: Transaction)
    requires IsValid(c, p0, a) && !IsValid(c, p0, b)
    ensures GreedyOrder(c, p0, [b, a], 2) == [1]
  {
    var batch := [b, a];
    assert Pick(batch, []) == [];
    assert GreedyOrder(c, p0, batch, 1) == [];
  }

  /** The only commit order that starts with the first scan's and leaves
      nothing valid behind: b is committed after a. */
  lemma ChainedOrder(c: Crypto, p0: PoolMap, a: Transaction, b: Transaction, order: seq<nat>, h: PoolMap)
    requires IsValid(c, AddThenRemove(p0, a), b)
    requires InRange(order, 2) && DistinctIdx(order) && [1] <= order
    requires h == ApplyAll(p0, Pick([b, a], order))
    requires 0 !in order ==> !IsValid(c, h, b)
    ensures order == [1, 0]
  {
    TwoPositions(order);
    if 0 !in order {
      assert order == [1];
      AcceptedAlone(c, p0, [b, a], 1, b, h);
    }
  }

  /** Committing only position t leaves the pool of that one commit. */
  lemma AcceptedAlone(c: Crypto, p0: PoolMap, batch: seq<Transaction>, t: nat, x: Transaction, h: PoolMap)
    requires t < |batch| && h == ApplyAll(p0, Pick(batch, [t]))
    ensures IsValid(c, h, x) == IsValid(c, AddThenRemove(p0, batch[t]), x)
  {
    OnlyOne(p0, batch, t);
  }

  /** Enumerating both positions of a batch of two, in either order, gives
      its two elements. */
  lemma BothPicked(batch: seq<Transaction>, order: seq<nat>, picked: seq<nat>)
    requires |batch| == 2 && 0 in order && 1 in order
    requires InRange(picked, 2) && DistinctIdx(picked)
    requires forall k :: k in picked <==> k in order
    ensures |Pick(batch, picked)| == 2 && multiset(Pick(batch, picked)) == multiset{batch[1], batch[0]}
  {
    var r := Pick(batch, picked);
    assert |picked| == 2 by {
      TwoPositions(picked);
    }
    assert r == [r[0], r[1]];
    assert {r[0], r[1]} == {batch[0], batch[1]} by {
      assert picked[0] != picked[1];
    }
    assert r[0] != r[1] ==> multiset(r) == multiset{batch[1], batch[0]};
  }

  /** The orders of distinct positions in a batch of two. */
  lemma TwoPositions(order: seq<nat>)
    requires InRange(order, 2) && DistinctIdx(order)
    ensures order == [] || order == [0] || order == [1] || order == [0, 1] || order == [1, 0]
  {
    if |order| > 2 {
      assert order[2] != order[0] && order[2] != order[1];
    }
  }

  /** Committing one position of a batch is one commit. */
  lemma OnlyOne(p0: PoolMap, batch: seq<Transaction>, t: nat)
    requires t < |batch|
    ensures ApplyAll(p0, Pick(batch, [t])) == AddThenRemove(p0, batch[t])
  {
    var tx := batch[t];
    assert Pick(batch, [t]) == [tx] by {
      assert [t][..0] == [];
    }
    assert ApplyAll(p0, [tx]) == AddThenRemove(ApplyAll(p0, []), tx) by {
      assert [tx][..0] == [];
    }
  }

  /** a and b claim the same output and are each valid against the pool:
      the one that comes first is accepted and the other is not. */
  method ConflictFirstWins(c: Crypto, p0: PoolMap, a: Transaction, b: Transaction, u: UTXO)
    returns (accepted: seq<Transaction>)
    requires IsValid(c, p0, a) && IsValid(c, p0, b)
    requires u in Consumed(a) && u in Consumed(b)
    ensures accepted == [a]
  {
    var pool := new UTXOPool.Of(p0);
    var handler := new Method1.TxHandler(pool, c);
    var batch := [a, b];
    ghost var order, picked;
    accepted, order, picked := handler.HandleTxs(batch);
    ConflictOutcome(c, p0, a, b, u, order, picked);
  }

  /** What the settlement's contract leaves possible on [a, b]: a alone is
      committed and returned. */
  lemma ConflictOutcome(c: Crypto, p0: PoolMap, a: Transaction, b: Transaction, u: UTXO,
                        order: seq<nat>, picked: seq<nat>)
    requires IsValid(c, p0, a)
    requires u in Consumed(a) && u in Consumed(b)
    requires InRange(order, 2) && DistinctIdx(order)
    requires ValidChain(c, p0, Pick([a, b], order))
    requires GreedyOrder(c, p0, [a, b], 2) <= order
    requires InRange(picked, 2) && |picked| == |order|
    requires forall k :: k in picked <==> k in order
    ensures order == [0] && Pick([a, b], picked) == [a]
  {
    assert [0] <= order by {
      ConflictFirstPass(c, p0, a, b, u);
    }
    assert order == [0] by {
      ConflictOrder(c, p0, a, b, u, order);
    }
    FirstPicked([a, b], order, picked);
  }

  /** Enumerating position 0 alone gives the first element. */
  lemma FirstPicked(batch: seq<Transaction>, order: seq<nat>, picked: seq<nat>)
    requires |batch| == 2 && order == [0]
    requires InRange(picked, 2) && |picked| == |order|
    requires forall k :: k in picked <==> k in order
    ensures Pick(batch, picked) == [batch[0]]
  {
    assert picked[0] in order;
    assert picked == [0];
    assert [0][..0] == [];
  }

  /** The first scan of [a, b] commits a alone. */
  lemma ConflictFirstPass(c: Crypto, p0: PoolMap, a: Transaction, b: Transaction, u: UTXO)
    requires IsValid(c, p0, a)
    requires u in Consumed(a) && u in Consumed(b)
    ensures GreedyOrder(c, p0, [a, b], 2) == [0]
  {
    var batch := [a, b];
    assert Pick(batch, []) == [];
    assert GreedyOrder(c, p0, batch, 1) == [0];
    OnlyOne(p0, batch, 0);
    SpentBlocks(c, p0, a, b, u);
  }

  /** The only commit order that starts with the first scan's and is a
      valid chain: a alone. */
  lemma ConflictOrder(c: Crypto, p0: PoolMap, a: Transaction, b: Transaction, u: UTXO, order: seq<nat>)
    requires u in Consumed(a) && u in Consumed(b)
    requires InRange(order, 2) && DistinctIdx(order) && [0] <= order
    requires ValidChain(c, p0, Pick([a, b], order))
    ensures order == [0]
  {
    TwoPositions(order);
    if order == [0, 1] {
      SpentBlocks(c, p0, a, b, u);
      assert false;
    }
  }

  /** Once a has spent u, nothing else that claims u is valid. */
  lemma SpentBlocks(c: Crypto, p0: PoolMap, a: Transaction, b: Transaction, u: UTXO)
    requires u in Consumed(a) && u in Consumed(b)
    ensures !IsValid(c, AddThenRemove(p0, a), b)
  {
    AddThenRemoveDelta(p0, a, u);
    ConsumedClaims(b, u);
    var i :| 0 <= i < |b.inputs| && ClaimOf(b.inputs[i]) == u;
    assert !ClaimsInPool(AddThenRemove(p0, a), b);
  }
}
