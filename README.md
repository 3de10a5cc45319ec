# ScroogeCoin transaction handlers, modelled in Dafny

ScroogeCoin keeps a ledger as a pool of unspent transaction outputs (UTXOs).
Each UTXO is a pair (transaction hash, output index) that maps to an output
(value, owner address). The repository holds three versions of a transaction
handler over that pool. Each has two operations:

- `isValidTx` checks one transaction against the pool. The five documented
  conditions are: (1) every claimed output is in the pool, (2) every input's
  signature verifies, (3) no UTXO is claimed twice, (4) no output value is
  negative, (5) the inputs are worth at least the outputs.
- `handleTxs` settles a batch. It returns a mutually valid set of
  transactions and updates the pool to match.

The versions:

- `method1/TxHandler.java`. It validates with one pass over the inputs and a
  set of the claimed UTXOs. It settles with a fixed-point loop: it keeps
  scanning the batch until a scan accepts nothing. Each accepted transaction
  is committed in place, outputs first and claims second.
- `TxHandler2.java`. The validator is different. It rejects a repeated claim
  inside the input loop, using a scratch pool as the seen-set. It passes each
  signature to the primitive without testing for null first. The settlement
  loop is the same as method1's.
- `doc/TxHandler.java`. The validator is the same text as method1's. Its
  settlement commits a list of mutually valid transactions to a copy of the
  pool, each claim removed before its outputs are added. The copy then
  replaces the handler's pool.

Files and modules:

- `ledger.dfy` (module `Ledger`). The values and the five checks as
  predicates (`IsValid`). TxHandler2's reading of check (2)
  (`IsValidUnguarded`). The invariants of the validators' loops. The two
  single-transaction commits, `AddThenRemove` and `RemoveThenAdd`, and their
  exact key-by-key effect.
- `pool.dfy` (module `Pool`). The pool as a class whose map field the
  handlers update in place. The commit loops over a transaction's outputs
  and inputs, as methods on it.
- `settlement.dfy` (module `Settlement`). The functional specification of the
  settlement loop:
  - `VisitStep` and `ScanUpTo` describe one visit and one scan;
  - `GreedyOrder` is what the first scan accepts;
  - `ValidChain` and `ApplyAll` describe the commit sequence and the pool it
    leaves;
  - `Settle` repeats scans until one accepts nothing: the whole loop.
  The module also holds what any such commit sequence satisfies: no double
  spend, the exact pool delta, and conservation.
- `method1.dfy`, `handler2.dfy`, `doc_handler.dfy`. One class per handler. The
  validators and settlement loops are imperative methods proved against the
  functions above.
- `amounts.dfy` (module `Amounts`). Checks (4) and (5) over Java `double`
  amounts reduced to whole numbers and NaN. It records the NaN finding
  below. It also proves that the `int` amounts used elsewhere are the
  corrected rule.
- `scenarios.dfy`. Small batches settled by method1's handler, with the outcome proved:
  - a spend listed before the transaction that creates its input is accepted
    on the second scan;
  - listed after it, both are accepted by the first scan;
  - of two transactions claiming the same UTXO, only the first is accepted.

Modelling choices:

- The signature primitive and `getRawDataToSign` are the two fields of a
  `Crypto` value handed to each handler.
- A Java `null` signature is `None`. `RejectsAbsent(c)` says the primitive
  rejects it.
- Amounts are mathematical integers. `amounts.dfy` alone also models NaN.
- In all three Java files, the constructor stores the caller's pool object
  itself, although the doc comment asks for a copy. The model's constructors
  alias in the same way. The method1 and TxHandler2 handlers then commit to
  that object, so the caller's pool changes. The doc handler commits to a
  copy and swaps it in, so the caller's pool is left as it was.

## Model

| member | source | states |
|---|---|---|
| Method1.ValidateTx | src/main/java/science/mengxin/java/btc/scroogecoin/method1/TxHandler.java:39-80 | the validator's loops return true exactly when the five documented conditions hold against the pool (`IsValid`), covering every early `return false` |
| Method1.TxHandler.IsValidTx | src/main/java/science/mengxin/java/btc/scroogecoin/method1/TxHandler.java:39-80 | returns true exactly when the transaction satisfies the five conditions against the handler's current pool |
| Ledger.InputsAllChecked | src/main/java/science/mengxin/java/btc/scroogecoin/method1/TxHandler.java:44-66 | after a full input pass, (1) and (2) hold, "set size equals input count" holds exactly when no UTXO is claimed twice, and the running sum is the inputs' pooled value |
| Ledger.ElementsCard | src/main/java/science/mengxin/java/btc/scroogecoin/method1/TxHandler.java:58-66 | the set of claims never outnumbers the inputs, and has as many elements exactly when the claims are pairwise distinct, so the size test decides condition (3) |
| Ledger.OutputsAllChecked | src/main/java/science/mengxin/java/btc/scroogecoin/method1/TxHandler.java:69-73 | a pass over all outputs that finds none negative leaves all of them non-negative and the sum equal to their total value |
| Ledger.UnguardedAgrees | src/main/java/science/mengxin/java/btc/scroogecoin/TxHandler2.java:34-45 | if the primitive rejects a null signature, dropping the null guard changes no verdict: the unguarded rule equals the documented one |
| Ledger.UnguardedAdmitsNull | src/main/java/science/mengxin/java/btc/scroogecoin/TxHandler2.java:39 | a transaction with a null signature that passes the unguarded rule fails the documented one |
| Ledger.UnguardedDiffersExactly | src/main/java/science/mengxin/java/btc/scroogecoin/TxHandler2.java:39 | the unguarded and documented verdicts differ exactly when the unguarded rule passes a transaction that has a null signature, in both directions |
| Handler2.TxHandler2.IsValidTx | src/main/java/science/mengxin/java/btc/scroogecoin/TxHandler2.java:28-59 | returns exactly the unguarded five-condition verdict, and with a null-rejecting primitive exactly the documented verdict, which is method1's |
| Handler2.InputAccepted | src/main/java/science/mengxin/java/btc/scroogecoin/TxHandler2.java:39-44 | an input whose claim is pooled, whose signature the primitive accepts and whose claim is not yet in the scratch pool extends the checked prefix: claims still distinct, scratch keys still exactly the claims, sum still their value |
| Handler2.RepeatedClaim | src/main/java/science/mengxin/java/btc/scroogecoin/TxHandler2.java:39-40 | finding the claim already in the scratch pool means the transaction claims a UTXO twice, so returning false is right |
| Handler2.InputsAllAccepted | src/main/java/science/mengxin/java/btc/scroogecoin/TxHandler2.java:34-45 | after a full input pass, (1) and (3) hold, every signature is accepted by the primitive and the sum is the inputs' pooled value |
| Handler2.TxHandler2.UnguardedDecided | src/main/java/science/mengxin/java/btc/scroogecoin/TxHandler2.java:47-58 | once the input pass succeeds, the verdict depends only on (4) and (5), and equals the documented one for a null-rejecting primitive |
| Pool.UTXOPool.constructor | src/main/java/science/mengxin/java/btc/scroogecoin/TxHandler2.java:30 | a new pool, used as the scratch set of claims seen, starts empty |
| Pool.UTXOPool.GetTxOutput | src/main/java/science/mengxin/java/btc/scroogecoin/TxHandler2.java:37 | the lookup yields an output exactly when the key is in the pool (null otherwise), and that output is the one stored |
| Pool.UTXOPool.Contains | src/main/java/science/mengxin/java/btc/scroogecoin/method1/TxHandler.java:48 | a UTXO is in the pool exactly when the lookup finds an output for it (also used at TxHandler2.java:39 and doc/TxHandler.java:35) |
| Pool.UTXOPool.AddUTXO | src/main/java/science/mengxin/java/btc/scroogecoin/method1/TxHandler.java:102 | inserting sets the key to the output and leaves every other key alone (also used at TxHandler2.java:43,80 and doc/TxHandler.java:111) |
| Pool.UTXOPool.RemoveUTXO | src/main/java/science/mengxin/java/btc/scroogecoin/method1/TxHandler.java:108 | removing deletes the key if present and leaves every other key alone (also used at TxHandler2.java:86 and doc/TxHandler.java:106) |
| Pool.UTXOPool.Copy | doc/TxHandler.java:75 | the copy starts with the same map as the original; later updates to either leave the other alone, because they are separate objects |
| Pool.AddOutputs | src/main/java/science/mengxin/java/btc/scroogecoin/method1/TxHandler.java:100-103 | the output loop adds exactly (hash, i) -> output i for each output position i and leaves every other key alone |
| Pool.RemoveClaims | src/main/java/science/mengxin/java/btc/scroogecoin/method1/TxHandler.java:105-109 | the input loop removes exactly the claimed UTXOs and leaves every other key alone |
| Pool.CommitOutputsThenInputs | src/main/java/science/mengxin/java/btc/scroogecoin/method1/TxHandler.java:99-109 | committing a transaction changes the pool to the add-then-remove result: created outputs added, then claims removed |
| Ledger.AddThenRemoveDelta | src/main/java/science/mengxin/java/btc/scroogecoin/method1/TxHandler.java:99-109 | key by key: a claimed key is absent afterwards, an unclaimed created key holds the new output, and every other key is unchanged |
| Ledger.RemoveThenAddDelta | doc/TxHandler.java:103-113 | key by key for the doc order: every created key is present with its output even if also claimed, a claimed key that is not created is gone, and every other key is unchanged |
| Ledger.ProducedKeys | src/main/java/science/mengxin/java/btc/scroogecoin/method1/TxHandler.java:100-103 | a commit creates exactly the keys (tx.hash, i) for output positions i, each holding output i |
| Ledger.CommitOrdersDiffer | doc/TxHandler.java:103-113 | a transaction that claims one of its own outputs gets different pools from the two commit orders: add-then-remove drops the key, remove-then-add keeps it |
| Ledger.CommitOrdersAgree | doc/TxHandler.java:103-113 | otherwise the two commit orders give the same pool |
| Ledger.ValidTxOrdersAgree | doc/TxHandler.java:103-113 | a transaction valid against a pool where no key carries its hash cannot claim its own outputs, so both commit orders agree on it |
| Settlement.Pick | src/main/java/science/mengxin/java/btc/scroogecoin/method1/TxHandler.java:114-117 | the transactions at the given batch positions, in that order, one per position |
| Settlement.GreedyOrder | src/main/java/science/mengxin/java/btc/scroogecoin/method1/TxHandler.java:93-111 | the positions the first scan commits are in range and strictly increasing |
| Settlement.CommitStep | src/main/java/science/mengxin/java/btc/scroogecoin/method1/TxHandler.java:95-109 | accepting one more not-yet-accepted position that is valid against the current pool keeps the settlement state and grows txVis by one |
| Settlement.ValidChainPrefix | src/main/java/science/mengxin/java/btc/scroogecoin/method1/TxHandler.java:96 | every prefix of the commit sequence is itself valid, and each accepted transaction was valid against the pool its predecessors left |
| Settlement.ScanInvariant | src/main/java/science/mengxin/java/btc/scroogecoin/method1/TxHandler.java:92-113 | each scan keeps the settlement state and only adds to txVis; a scan that sets `updated` grew txVis; a scan that did not left every unaccepted transaction invalid; the first scan is exactly the greedy order |
| Settlement.Enumerate | src/main/java/science/mengxin/java/btc/scroogecoin/method1/TxHandler.java:114-118 | the result array holds exactly the txVis elements, each once, in some order of the set |
| Method1.TxHandler.Visit | src/main/java/science/mengxin/java/btc/scroogecoin/method1/TxHandler.java:95-110 | one loop iteration: an accepted position is skipped; otherwise it is committed in place and recorded exactly when valid against the pool as it stands |
| Method1.TxHandler.Scan | src/main/java/science/mengxin/java/btc/scroogecoin/method1/TxHandler.java:93-111 | one pass of the while loop visits every position in batch order, starting with `updated` false |
| Handler2.TxHandler2.Visit | src/main/java/science/mengxin/java/btc/scroogecoin/TxHandler2.java:72-88 | one loop iteration: an accepted position is skipped; otherwise it is committed in place add-then-remove and recorded exactly when valid against the pool as it stands, for a primitive that rejects null (`RejectsAbsent`) |
| Handler2.TxHandler2.Scan | src/main/java/science/mengxin/java/btc/scroogecoin/TxHandler2.java:70-91 | one pass of the while loop visits every position in batch order, starting with `updated` false, for a primitive that rejects null (`RejectsAbsent`) |
| Settlement.Settle | src/main/java/science/mengxin/java/btc/scroogecoin/method1/TxHandler.java:92-113 | the loop ends with no scan update, having only added to the accepted positions and the commit order, and no unaccepted transaction is valid against the final pool |
| Settlement.ScanGrows | src/main/java/science/mengxin/java/btc/scroogecoin/method1/TxHandler.java:93-111 | a scan only adds batch positions to txVis, and a scan that sets `updated` grew txVis, so the while loop terminates |
| Settlement.ScanOutcome | src/main/java/science/mengxin/java/btc/scroogecoin/method1/TxHandler.java:112 | a scan that sets nothing changes nothing, so the loop stops exactly at a state no scan changes |
| Method1.TxHandler.HandleTxs | src/main/java/science/mengxin/java/btc/scroogecoin/method1/TxHandler.java:88-119 | terminates; commits a chain of distinct positions, each valid when committed; the pool is that chain's cumulative commit; nothing left out is valid against the final pool (the fixed point); the first scan's greedy order leads; the commit order and final pool are exactly those of `Settle`, the scan repeated until nothing is accepted; the result lists exactly the accepted transactions |
| Method1.TxHandler.constructor | src/main/java/science/mengxin/java/btc/scroogecoin/method1/TxHandler.java:26-28 | the handler keeps the caller's pool object itself, not a copy |
| Handler2.TxHandler2.HandleTxs | src/main/java/science/mengxin/java/btc/scroogecoin/TxHandler2.java:66-97 | the same settlement guarantees as method1's, exact outcome `Settle` included, for a primitive that rejects null |
| Handler2.TxHandler2.constructor | src/main/java/science/mengxin/java/btc/scroogecoin/TxHandler2.java:14-17 | the handler keeps the caller's pool object itself, not a copy |
| Settlement.SpentStaysSpent | src/main/java/science/mengxin/java/btc/scroogecoin/method1/TxHandler.java:104-109 | under unique hashes, a UTXO claimed by any accepted transaction is absent from the final pool |
| Settlement.NoDoubleSpend | src/main/java/science/mengxin/java/btc/scroogecoin/method1/TxHandler.java:83-86 | under unique hashes, no two accepted transactions claim the same UTXO: the accepted set is mutually valid |
| Settlement.PoolDelta | src/main/java/science/mengxin/java/btc/scroogecoin/method1/TxHandler.java:83-86 | under unique hashes, the final pool is the starting pool plus every accepted output minus every accepted claim |
| Settlement.SettledBatch | src/main/java/science/mengxin/java/btc/scroogecoin/method1/TxHandler.java:83-119 | for the commit sequence HandleTxs reports, both of the above hold when the batch's hashes are unique and new to the pool |
| Settlement.ChainConserves | src/main/java/science/mengxin/java/btc/scroogecoin/method1/TxHandler.java:68-77 | every accepted transaction has non-negative outputs worth no more than what it claimed from the pool it was committed against |
| Settlement.CommitOrdersAgreeOnChain | doc/TxHandler.java:103-114 | if no transaction claims its own outputs, committing a list inputs-first gives the same pool as committing it outputs-first |
| Settlement.RangeCard | src/main/java/science/mengxin/java/btc/scroogecoin/method1/TxHandler.java:90-113 | txVis never outnumbers the batch, which bounds the fixed-point loop |
| DocHandler.TxHandler.IsValidTx | doc/TxHandler.java:26-67 | the doc validator, the same text as method1's, returns exactly the five-condition verdict |
| DocHandler.CommitInputsThenOutputs | doc/TxHandler.java:104-113 | one iteration of the doc commit loop changes the pool to the remove-then-add result |
| DocHandler.TxHandler.CommitMutuallyValid | doc/TxHandler.java:75-116 | the pool is copied, the list is committed remove-then-add in list order to the copy only, and the copy becomes the handler's pool; the pool object held before is unchanged |
| DocHandler.TxHandler.constructor | doc/TxHandler.java:13-15 | the handler keeps the caller's pool object itself, not a copy |
| DocHandler.RemoveFirstMatchesChain | doc/TxHandler.java:103-116 | for a valid chain with unique hashes, the doc commit order gives the same pool as method1's |
| Scenarios.DependencyChaining | src/main/java/science/mengxin/java/btc/scroogecoin/method1/TxHandler.java:91-113 | a spend listed before the transaction that creates its input is rejected by the first scan and accepted by the second, so both are returned |
| Scenarios.DependencyInOrder | src/main/java/science/mengxin/java/btc/scroogecoin/method1/TxHandler.java:92-113 | a spend listed after the transaction that creates its input is accepted with it, and both are returned |
| Scenarios.InOrderOutcome | src/main/java/science/mengxin/java/btc/scroogecoin/method1/TxHandler.java:93-111 | on that batch, the contract forces both positions into the commit order |
| Scenarios.BothInFirstPass | src/main/java/science/mengxin/java/btc/scroogecoin/method1/TxHandler.java:93-111 | a first scan over a batch of two commits both when the second is valid once the first is committed |
| Scenarios.ChainedOutcome | src/main/java/science/mengxin/java/btc/scroogecoin/method1/TxHandler.java:91-113 | on that batch, the settlement contract allows one commit order only: the creator, then the spend |
| Scenarios.ConflictFirstWins | src/main/java/science/mengxin/java/btc/scroogecoin/method1/TxHandler.java:94-109 | of two individually valid transactions that claim the same UTXO, the first in the batch is accepted and the second is not |
| Scenarios.ConflictOutcome | src/main/java/science/mengxin/java/btc/scroogecoin/method1/TxHandler.java:94-109 | on that batch, the settlement contract allows one outcome only: position 0 committed and returned |
| Scenarios.SpentBlocks | src/main/java/science/mengxin/java/btc/scroogecoin/method1/TxHandler.java:104-109 | once one transaction has claimed a UTXO, any other transaction claiming it is invalid against the resulting pool |
| Amounts.AmountSum | src/main/java/science/mengxin/java/btc/scroogecoin/method1/TxHandler.java:69-73 | the output loop's running sum is NaN exactly when some output is NaN |
| Amounts.NaNOutputPasses | src/main/java/science/mengxin/java/btc/scroogecoin/method1/TxHandler.java:68-77 | as written, a transaction with a NaN output passes checks (4) and (5) even though its other output is worth more than its inputs |
| Amounts.NaNInputPasses | src/main/java/science/mengxin/java/btc/scroogecoin/method1/TxHandler.java:75-77 | as written, spending a UTXO worth NaN passes check (5) whatever the outputs are worth |
| Amounts.AsWrittenOnNumbers | src/main/java/science/mengxin/java/btc/scroogecoin/method1/TxHandler.java:68-77 | on numeric amounts, the checks as written and as intended agree |
| Amounts.CorrectedRejectsNaN | src/main/java/science/mengxin/java/btc/scroogecoin/method1/TxHandler.java:68-77 | the intended checks reject a NaN output or input sum |
| Amounts.CorrectedIsLedgerRule | src/main/java/science/mengxin/java/btc/scroogecoin/method1/TxHandler.java:68-77 | the intended checks on a transaction's outputs and pooled input value are exactly conditions (4) and (5) of `Ledger.IsValid` |

## Left out

- Values are `int`, not Java `double`. Rounding and infinities in the sums are not modelled. NaN is not modelled either, except in `amounts.dfy`. As written, the source accepts NaN amounts, which breaks conservation (see Findings). So Settlement.ChainConserves holds for the corrected rule, not for a NaN-valued source run.
- `Crypto.verifySignature`, `getRawDataToSign` and `getHash` are not modelled. The first two are the fields of `Crypto`. The third is the `hash` field of `Transaction`.
- The internals of `UTXOPool`, `UTXO` and `Transaction` (hashing, `equals`, array copies) are not part of this model.
  - The pool is a map.
  - Its copy constructor copies the map's value.
- doc/TxHandler.java lines 76-101 and 117-133 are left out. They call `isValidTxV2`, `ThreeState` and `checkIfMutuallyValid`, which are not part of this model, and they recurse into `handleTxs`. Only the copy at line 75, the commit loop at 103-114 and the replacement at 116 are modelled.
- The iteration order of `HashSet` is not modelled. `Settlement.Enumerate` may list the accepted set in any order.
- Method1.TxHandler.HandleTxs keys txVis by batch position. The source keys it by `Transaction` equality, whose definition is not part of this model. The two agree when the batch holds no transaction twice.
- Handler2.TxHandler2.Visit: requires a primitive that rejects a null signature (`RejectsAbsent`), because it states the visit through `IsValid`.
- Handler2.TxHandler2.Scan: requires `RejectsAbsent` for the same reason as Visit.
- Handler2.TxHandler2.HandleTxs keys txVis by batch position. The source keys it by `Transaction` equality, as method1 does. The two agree when the batch holds no transaction twice.
- Handler2.TxHandler2.HandleTxs: proved only for a primitive that rejects a null signature (`RejectsAbsent`). Without that, its validator is `IsValidUnguarded`, and `Ledger.UnguardedDiffersExactly` shows exactly where the two differ.
- Settlement.NoDoubleSpend, Settlement.PoolDelta, Settlement.SpentStaysSpent and DocHandler.RemoveFirstMatchesChain hold only under `FreshHashes`. That assumption says batch hashes are unique and no pool key already carries one of them.
- Method1.TxHandler.GetPool is a plain accessor with no contract.
- Settlement.ChainConserves is stated per transaction. A total over the whole pool (final value at most the starting value minus fees) is not stated.
- `MaxFeeTxHandler` is not part of this model; only its test is in the repository.

## Findings

| source | as written | input that shows it | evidently intended | confidence | as-written member | corrected member |
|---|---|---|---|---|---|---|
| src/main/java/science/mengxin/java/btc/scroogecoin/method1/TxHandler.java:68-77 (also TxHandler2.java:47-56, doc/TxHandler.java:55-64) | checks (4) and (5) use `<` on `double`. Every comparison with NaN is false, so a NaN output passes (4) and makes the output sum NaN, and then (5) passes as well | a transaction with inputs worth 0 and outputs NaN and 5 | reject any NaN amount; accept only non-negative outputs worth no more than the inputs | not executed | Amounts.NaNOutputPasses | Amounts.CorrectedIsLedgerRule |
