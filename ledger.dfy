/**
  The entities of the ScroogeCoin ledger and the single-transaction validity
  rule that every handler variant implements.

  A transaction spends unspent outputs (UTXOs) of earlier transactions and
  creates new outputs. The pool maps each unspent output's identifier to the
  output itself. Amounts are integers (fixed point), signatures and hashes
  are opaque byte strings, and the two cryptographic collaborators (signature
  verification and the per-input message to sign) are supplied as functions.
 */
module Ledger {

  datatype Option<T> = None | Some(value: T)

  type Bytes = seq<bv8>

  /** A transaction hash: computed elsewhere, only ever used as a key. */
  type Hash = Bytes

  /** An owner's public key, used only to check signatures. */
  type Address = Bytes

  /** Identifier of an unspent output: the producing transaction's hash and
      the output's position in that transaction. */
  datatype UTXO = UTXO(txHash: Hash, index: int)

  datatype Output = Output(value: int, address: Address)

  /** A claim on an earlier output; `signature` is None where Java has null. */
  datatype Input = Input(prevTxHash: Hash, outputIndex: int, signature: Option<Bytes>)

  datatype Transaction = Transaction(hash: Hash, inputs: seq<Input>, outputs: seq<Output>)

  /** The cryptographic collaborators: `verify(address, message, signature)`
      and `rawDataToSign(tx, i)`, the message that input i must sign. */
  datatype Crypto = Crypto(
    verify: (Address, Bytes, Option<Bytes>) -> bool,
    rawDataToSign: (Transaction, nat) -> Bytes)

  /** The boundary contract of the signature primitive: an absent
      signature never verifies. */
  ghost predicate RejectsAbsent(c: Crypto)
  {
    forall a: Address, m: Bytes :: !c.verify(a, m, None)
  }

  type PoolMap = map<UTXO, Output>

  /** The UTXO an input claims. */
  function ClaimOf(input: Input): UTXO
  {
    UTXO(input.prevTxHash, input.outputIndex)
  }

  /** The UTXOs claimed by a transaction, in input order. */
  function Claims(tx: Transaction): seq<UTXO>
  {
    seq(|tx.inputs|, i requires 0 <= i < |tx.inputs| => ClaimOf(tx.inputs[i]))
  }

  function Elements(s: seq<UTXO>): set<UTXO>
  {
    set u | u in s
  }

  ghost predicate Distinct(s: seq<UTXO>)
  {
    forall i, j :: 0 <= i < j < |s| ==> s[i] != s[j]
  }

  // ---------------------------------------------------------------------
  // The five conditions of isValidTx's documentation
  // ---------------------------------------------------------------------

  /** (1) Every claimed output is in the pool. */
  ghost predicate ClaimsInPool(p: PoolMap, tx: Transaction)
  {
    forall i :: 0 <= i < |tx.inputs| ==> ClaimOf(tx.inputs[i]) in p
  }

  /** (2), for input i: a signature is present and verifies against the
      owner of the claimed output over the message for position i. */
  ghost predicate SignatureValid(c: Crypto, p: PoolMap, tx: Transaction, i: int)
    requires 0 <= i < |tx.inputs|
  {
    var u := ClaimOf(tx.inputs[i]);
    u in p && tx.inputs[i].signature.Some? &&
    c.verify(p[u].address, c.rawDataToSign(tx, i), tx.inputs[i].signature)
  }

  /** (2) The signature of every input is valid. */
  ghost predicate SignaturesValid(c: Crypto, p: PoolMap, tx: Transaction)
  {
    forall i :: 0 <= i < |tx.inputs| ==> SignatureValid(c, p, tx, i)
  }

  /** (3) No UTXO is claimed twice by the transaction. */
  ghost predicate NoDoubleClaim(tx: Transaction)
  {
    Distinct(Claims(tx))
  }

  /** (4) No output value is negative (zero is allowed). */
  ghost predicate OutputsNonNegative(tx: Transaction)
  {
    forall i :: 0 <= i < |tx.outputs| ==> tx.outputs[i].value >= 0
  }

  /** The value of a pooled output; an absent one contributes nothing. */
  function ValueAt(p: PoolMap, u: UTXO): int
  {
    if u in p then p[u].value else 0
  }

  /** The total value of the outputs the inputs claim, accumulated in input order. */
  function InputValue(p: PoolMap, inputs: seq<Input>): int
  {
    if inputs == [] then 0
    else InputValue(p, inputs[..|inputs| - 1]) + ValueAt(p, ClaimOf(inputs[|inputs| - 1]))
  }

  /** The total value of a transaction's outputs, accumulated in output order. */
  function OutputValue(outputs: seq<Output>): int
  {
    if outputs == [] then 0
    else OutputValue(outputs[..|outputs| - 1]) + outputs[|outputs| - 1].value
  }

  /** (5) The inputs are worth at least as much as the outputs. */
  ghost predicate Balanced(p: PoolMap, tx: Transaction)
  {
    InputValue(p, tx.inputs) >= OutputValue(tx.outputs)
  }

  /** A transaction is valid against a pool exactly when all five hold. */
  ghost predicate IsValid(c: Crypto, p: PoolMap, tx: Transaction)
  {
    && ClaimsInPool(p, tx)
    && SignaturesValid(c, p, tx)
    && NoDoubleClaim(tx)
    && OutputsNonNegative(tx)
    && Balanced(p, tx)
  }

  /** Condition (2) as a validator that hands a null signature straight to
      the primitive computes it: whatever `verify` says about it. */
  ghost predicate SignatureAccepted(c: Crypto, p: PoolMap, tx: Transaction, i: int)
    requires 0 <= i < |tx.inputs|
  {
    var u := ClaimOf(tx.inputs[i]);
    u in p && c.verify(p[u].address, c.rawDataToSign(tx, i), tx.inputs[i].signature)
  }

  /** The five conditions with (2) read as SignatureAccepted. */
  ghost predicate IsValidUnguarded(c: Crypto, p: PoolMap, tx: Transaction)
  {
    && ClaimsInPool(p, tx)
    && (forall i :: 0 <= i < |tx.inputs| ==> SignatureAccepted(c, p, tx, i))
    && NoDoubleClaim(tx)
    && OutputsNonNegative(tx)
    && Balanced(p, tx)
  }

  /** Without the null guard the validator agrees with the documented rule
      exactly when the primitive rejects absent signatures. */
  lemma UnguardedAgrees(c: Crypto, p: PoolMap, tx: Transaction)
    requires RejectsAbsent(c)
    ensures IsValidUnguarded(c, p, tx) == IsValid(c, p, tx)
  {
    forall i | 0 <= i < |tx.inputs|
      ensures SignatureAccepted(c, p, tx, i) == SignatureValid(c, p, tx, i)
    {
      var u := ClaimOf(tx.inputs[i]);
      if u in p && tx.inputs[i].signature.None? {
        assert !c.verify(p[u].address, c.rawDataToSign(tx, 0 + i), None);
      }
    }
  }

  /** ... and where the primitive accepts a null signature, the unguarded
      validator accepts a transaction the documented rule rejects. */
  lemma UnguardedAdmitsNull(c: Crypto, p: PoolMap, tx: Transaction)
    requires IsValidUnguarded(c, p, tx)
    requires exists i :: 0 <= i < |tx.inputs| && tx.inputs[i].signature.None?
    ensures !IsValid(c, p, tx)
  {
    var i :| 0 <= i < |tx.inputs| && tx.inputs[i].signature.None?;
    assert !SignatureValid(c, p, tx, i);
  }

  /** Both directions together: the unguarded and the documented verdicts
      differ exactly when the unguarded rule accepts a transaction that has a
      null signature. */
  lemma UnguardedDiffersExactly(c: Crypto, p: PoolMap, tx: Transaction)
    ensures IsValid(c, p, tx) != IsValidUnguarded(c, p, tx) <==>
      IsValidUnguarded(c, p, tx) && exists i :: 0 <= i < |tx.inputs| && tx.inputs[i].signature.None?
  {
    forall i | 0 <= i < |tx.inputs| ensures SignatureValid(c, p, tx, i) ==> SignatureAccepted(c, p, tx, i) {
    }
    if IsValidUnguarded(c, p, tx) && forall i :: 0 <= i < |tx.inputs| ==> tx.inputs[i].signature.Some? {
      forall i | 0 <= i < |tx.inputs| ensures SignatureValid(c, p, tx, i) {
        assert SignatureAccepted(c, p, tx, i);
      }
    }
    if IsValidUnguarded(c, p, tx) && exists i :: 0 <= i < |tx.inputs| && tx.inputs[i].signature.None? {
      UnguardedAdmitsNull(c, p, tx);
    }
  }

  /** Counting the distinct claims detects a repeated claim: the set of
      claimed UTXOs has as many elements as there are inputs exactly when no
      UTXO is claimed twice. */
  lemma {:induction false} ElementsCard(s: seq<UTXO>)
    ensures |Elements(s)| <= |s|
    ensures |Elements(s)| == |s| <==> Distinct(s)
  {
    if s != [] {
      var n := |s| - 1;
      var pre := s[..n];
      ElementsCard(pre);
      assert s == pre + [s[n]];
      DistinctSnoc(pre, s[n]);
      assert Elements(s) == Elements(pre) + {s[n]};
      if s[n] !in Elements(pre) {
        assert |Elements(s)| == |Elements(pre)| + 1;
      }
    }
  }

  /** One more claim keeps the claims distinct exactly when it is new. */
  lemma DistinctSnoc(pre: seq<UTXO>, x: UTXO)
    ensures Distinct(pre + [x]) <==> Distinct(pre) && x !in Elements(pre)
  {
    var s := pre + [x];
    var n := |pre|;
    if Distinct(s) {
      forall i, j | 0 <= i < j < n ensures pre[i] != pre[j] {
        assert s[i] == pre[i] && s[j] == pre[j];
      }
      forall k | 0 <= k < n ensures pre[k] != x {
        assert s[k] == pre[k] && s[n] == x;
      }
    }
    if Distinct(pre) && x !in Elements(pre) {
      forall i, j | 0 <= i < j < |s| ensures s[i] != s[j] {
        if j == n {
          assert pre[i] in Elements(pre);
        } else {
          assert pre[i] != pre[j];
        }
      }
    }
  }

  // ---------------------------------------------------------------------
  // A validator's pass over the inputs, then over the outputs
  // ---------------------------------------------------------------------

  /** The first i inputs pass checks (1) and (2); `claimed` is the set of
      their claims and `sumIn` the value they bring. */
  ghost predicate InputsChecked(c: Crypto, p: PoolMap, tx: Transaction, i: nat, claimed: set<UTXO>, sumIn: int)
  {
    && i <= |tx.inputs|
    && (forall j :: 0 <= j < i ==> SignatureValid(c, p, tx, j))
    && claimed == Elements(Claims(tx)[..i])
    && sumIn == InputValue(p, tx.inputs[..i])
  }

  lemma InputChecked(c: Crypto, p: PoolMap, tx: Transaction, i: nat, claimed: set<UTXO>, sumIn: int)
    requires InputsChecked(c, p, tx, i, claimed, sumIn) && i < |tx.inputs|
    requires SignatureValid(c, p, tx, i)
    ensures InputsChecked(c, p, tx, i + 1, claimed + {ClaimOf(tx.inputs[i])}, sumIn + p[ClaimOf(tx.inputs[i])].value)
  {
    assert Claims(tx)[..i + 1] == Claims(tx)[..i] + [ClaimOf(tx.inputs[i])];
    assert tx.inputs[..i + 1][..i] == tx.inputs[..i];
  }

  /** After the whole pass: (1) and (2) hold, (3) holds exactly when the set
      of claims is as large as the input list, and sumIn is the input value. */
  lemma InputsAllChecked(c: Crypto, p: PoolMap, tx: Transaction, claimed: set<UTXO>, sumIn: int)
    requires InputsChecked(c, p, tx, |tx.inputs|, claimed, sumIn)
    ensures ClaimsInPool(p, tx) && SignaturesValid(c, p, tx)
    ensures NoDoubleClaim(tx) <==> |claimed| == |tx.inputs|
    ensures sumIn == InputValue(p, tx.inputs)
  {
    assert Claims(tx)[..|tx.inputs|] == Claims(tx);
    assert tx.inputs[..|tx.inputs|] == tx.inputs;
    ElementsCard(Claims(tx));
    forall i | 0 <= i < |tx.inputs| ensures ClaimOf(tx.inputs[i]) in p {
      assert SignatureValid(c, p, tx, i);
    }
  }

  /** The first k outputs are non-negative and sumOut is their value. */
  ghost predicate OutputsChecked(tx: Transaction, k: nat, sumOut: int)
  {
    && k <= |tx.outputs|
    && (forall j :: 0 <= j < k ==> tx.outputs[j].value >= 0)
    && sumOut == OutputValue(tx.outputs[..k])
  }

  lemma OutputChecked(tx: Transaction, k: nat, sumOut: int)
    requires OutputsChecked(tx, k, sumOut) && k < |tx.outputs| && tx.outputs[k].value >= 0
    ensures OutputsChecked(tx, k + 1, sumOut + tx.outputs[k].value)
  {
    assert tx.outputs[..k + 1][..k] == tx.outputs[..k];
  }

  lemma OutputsAllChecked(tx: Transaction, sumOut: int)
    requires OutputsChecked(tx, |tx.outputs|, sumOut)
    ensures OutputsNonNegative(tx) && sumOut == OutputValue(tx.outputs)
  {
    assert tx.outputs[..|tx.outputs|] == tx.outputs;
  }

  // ---------------------------------------------------------------------
  // Committing one transaction to a pool
  // ---------------------------------------------------------------------

  /** The UTXOs claimed by the first n inputs. */
  function ConsumedUpTo(tx: Transaction, n: int): set<UTXO>
  {
    set i | 0 <= i < n && i < |tx.inputs| :: ClaimOf(tx.inputs[i])
  }

  function Consumed(tx: Transaction): set<UTXO>
  {
    ConsumedUpTo(tx, |tx.inputs|)
  }

  /** The first n outputs, keyed by (tx.hash, position). */
  function ProducedUpTo(tx: Transaction, n: int): PoolMap
  {
    map i | 0 <= i < n && i < |tx.outputs| :: UTXO(tx.hash, i) := tx.outputs[i]
  }

  function Produced(tx: Transaction): PoolMap
  {
    ProducedUpTo(tx, |tx.outputs|)
  }

  /** One more produced output, one more key: the step of the commit loop over outputs. */
  lemma ProducedUpToStep(p: PoolMap, tx: Transaction, i: int)
    requires 0 <= i < |tx.outputs|
    ensures (p + ProducedUpTo(tx, i))[UTXO(tx.hash, i) := tx.outputs[i]] == p + ProducedUpTo(tx, i + 1)
  {
    ProducedUpToSnoc(tx, i);
  }

  lemma ProducedUpToSnoc(tx: Transaction, i: int)
    requires 0 <= i < |tx.outputs|
    ensures ProducedUpTo(tx, i)[UTXO(tx.hash, i) := tx.outputs[i]] == ProducedUpTo(tx, i + 1)
  {
    var l := ProducedUpTo(tx, i)[UTXO(tx.hash, i) := tx.outputs[i]];
    var r := ProducedUpTo(tx, i + 1);
    forall u | u in r ensures u in l && l[u] == r[u] {
      ProducedUpToKeys(tx, i + 1, u);
      ProducedUpToKeys(tx, i, u);
    }
    forall u | u in l ensures u in r {
      ProducedUpToKeys(tx, i + 1, u);
      ProducedUpToKeys(tx, i, u);
    }
  }

  lemma ProducedUpToKeys(tx: Transaction, n: int, u: UTXO)
    ensures u in ProducedUpTo(tx, n) <==> u.txHash == tx.hash && 0 <= u.index < n && u.index < |tx.outputs|
    ensures u in ProducedUpTo(tx, n) ==> ProducedUpTo(tx, n)[u] == tx.outputs[u.index]
  {
    if u.txHash == tx.hash && 0 <= u.index < n && u.index < |tx.outputs| {
      assert UTXO(tx.hash, u.index) == u;
    }
  }

  /** One more input, one more removed claim: the step of the commit loop over inputs. */
  lemma ConsumedUpToStep(p: PoolMap, tx: Transaction, i: int)
    requires 0 <= i < |tx.inputs|
    ensures (p - ConsumedUpTo(tx, i)) - {ClaimOf(tx.inputs[i])} == p - ConsumedUpTo(tx, i + 1)
  {
    assert ConsumedUpTo(tx, i + 1) == ConsumedUpTo(tx, i) + {ClaimOf(tx.inputs[i])};
  }

  /** Commit as method1 and TxHandler2 do it: add the outputs, then remove the claims. */
  function AddThenRemove(p: PoolMap, tx: Transaction): PoolMap
  {
    (p + Produced(tx)) - Consumed(tx)
  }

  /** Commit as doc/TxHandler.java does it: remove the claims, then add the outputs. */
  function RemoveThenAdd(p: PoolMap, tx: Transaction): PoolMap
  {
    (p - Consumed(tx)) + Produced(tx)
  }

  /** The keys a commit creates are exactly (tx.hash, i) for the output positions i. */
  lemma ProducedKeys(tx: Transaction, u: UTXO)
    ensures u in Produced(tx) <==> u.txHash == tx.hash && 0 <= u.index < |tx.outputs|
    ensures u in Produced(tx) ==> Produced(tx)[u] == tx.outputs[u.index]
  {
    ProducedUpToKeys(tx, |tx.outputs|, u);
  }

  /** The keys a commit spends are exactly the claims of the inputs. */
  lemma ConsumedClaims(tx: Transaction, u: UTXO)
    ensures u in Consumed(tx) <==> exists i :: 0 <= i < |tx.inputs| && ClaimOf(tx.inputs[i]) == u
  {
  }

  /** The exact pool change of an add-then-remove commit, key by key. */
  lemma AddThenRemoveDelta(p: PoolMap, tx: Transaction, u: UTXO)
    ensures u in Consumed(tx) ==> u !in AddThenRemove(p, tx)
    ensures u !in Consumed(tx) && u in Produced(tx) ==>
      u in AddThenRemove(p, tx) && AddThenRemove(p, tx)[u] == tx.outputs[u.index]
    ensures u !in Consumed(tx) && u !in Produced(tx) ==>
      (u in AddThenRemove(p, tx) <==> u in p) &&
      (u in p ==> AddThenRemove(p, tx)[u] == p[u])
  {
    ProducedKeys(tx, u);
  }

  /** The exact pool change of a remove-then-add commit, key by key: every
      produced key is present afterwards, even if the transaction also claims it. */
  lemma RemoveThenAddDelta(p: PoolMap, tx: Transaction, u: UTXO)
    ensures u in Produced(tx) ==>
      u in RemoveThenAdd(p, tx) && RemoveThenAdd(p, tx)[u] == tx.outputs[u.index]
    ensures u in Consumed(tx) && u !in Produced(tx) ==> u !in RemoveThenAdd(p, tx)
    ensures u !in Consumed(tx) && u !in Produced(tx) ==>
      (u in RemoveThenAdd(p, tx) <==> u in p) &&
      (u in p ==> RemoveThenAdd(p, tx)[u] == p[u])
  {
    ProducedKeys(tx, u);
  }

  /** The two commit orders agree unless a transaction claims one of its own outputs. */
  lemma CommitOrdersAgree(p: PoolMap, tx: Transaction)
    requires Produced(tx).Keys !! Consumed(tx)
    ensures AddThenRemove(p, tx) == RemoveThenAdd(p, tx)
  {
  }

  /** ... and where it does, they disagree on that key. */
  lemma CommitOrdersDiffer(p: PoolMap, tx: Transaction, u: UTXO)
    requires u in Produced(tx) && u in Consumed(tx)
    ensures u !in AddThenRemove(p, tx) && u in RemoveThenAdd(p, tx)
  {
  }

  /** A transaction valid against a pool none of whose keys carries its
      hash cannot claim its own outputs, so both commit orders agree on it. */
  lemma ValidTxOrdersAgree(c: Crypto, p: PoolMap, tx: Transaction)
    requires IsValid(c, p, tx)
    requires forall u :: u in p ==> u.txHash != tx.hash
    ensures Produced(tx).Keys !! Consumed(tx)
    ensures AddThenRemove(p, tx) == RemoveThenAdd(p, tx)
  {
    forall u | u in Consumed(tx) ensures u !in Produced(tx) {
      ConsumedClaims(tx, u);
      ProducedKeys(tx, u);
    }
  }
}
