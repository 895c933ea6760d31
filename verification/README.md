# UTXO transaction handler — a Dafny model

This project models the acceptance logic of a UTXO ledger (`TxHandler`).
The ledger keeps a pool of unspent transaction outputs. Each entry maps a
reference `(prevTxHash, outputIndex)` to an output `(address, value)`.

- `isValidTx` decides whether one transaction may be accepted against the
  current pool. It checks five conditions: every claimed output is in the
  pool, every input's signature verifies, no output is claimed twice,
  no output value is negative, and the claimed value covers the output
  value.
- `handleTxs` settles a batch of candidates in one greedy pass, in the
  order given. Each candidate is checked against the pool as it stands.
  A valid one is committed at once by `handleTx`: its claimed entries are
  removed, and output `i` is added under `(tx.hash, i)`.

Files and modules:

- `ledger.dfy` (`Ledger`): the data model. It holds `UTXO`, `Input`,
  `Output`, `Tx`, the pool as a `map<UTXO, Output>`, and a `Crypto` value
  carrying the two cryptographic collaborators as function parameters.
- `validation.dfy` (`Validation`): the five conditions as the declarative
  predicate `ValidTx`, and `IsValidTx`, the scan `isValidTx` performs.
- `settlement.dfy` (`Settlement`): `Commit` (the pool after one commit),
  `HandleTx` (the two commit loops), `Settle` (the greedy pass as a
  recursive fold), `HandleTxs` (the batch loop), and `Replay`, the
  reference meaning of "a mutually valid sequence". `SettleReplays`
  connects `Settle` to `Replay`.
- `batch.dfy` (`Batch`): the batch properties. It covers double spends
  between candidates, chained spends in forward and reverse order, and
  "no output spent twice across a batch" when candidate hashes are fresh
  and pairwise distinct. That assumption also excludes a candidate listed
  twice, and `RepeatedCandidateSpendsTwice` shows the double spend such a
  batch allows.
- `conservation.dfy` (`Conservation`): the pool's total value. A valid
  commit with a fresh hash lowers it by exactly the fee. Against a pool of
  non-negative values, any valid commit lowers it by at least the fee, so
  a batch never creates value, whatever the candidates' hashes.

The handler's only state is the pool. Here it is an immutable map value:
settling takes a pool and returns the new one.

## Model

| member | source | states |
|---|---|---|
| Validation.IsValidTx | hw1/TxHandler.java:18-53 | The scan returns true exactly when `ValidTx` holds, i.e. all five conditions hold. It returns false when some claim is missing from the pool, when two inputs claim the same output (even if the pool holds it and the signatures verify), when some signature fails against the claimed output's address and that input's signable bytes, or when some output value is negative. True implies claimed value ≥ output value. |
| Validation.ScanInputs | hw1/TxHandler.java:28-44 | The input loop succeeds exactly when conditions (1) to (3) hold: every claim is in the pool, every signature verifies, and no claim repeats. On success its running sum is the claimed value. |
| Validation.ScanOutputs | hw1/TxHandler.java:45-50 | The output loop succeeds exactly when no output value is negative. On success its running sum is the output value. |
| Validation.FailedConditionRejects | hw1/TxHandler.java:27-52 | Each failed condition alone makes `ValidTx` false, and `ValidTx` implies the claimed value covers the output value. |
| Validation.ZeroValueOutputAllowed | hw1/TxHandler.java:46-48 | Shown on a transaction with no inputs and one output: it is accepted when that output's value is exactly 0 and rejected when it is -1. For every transaction, `ScanOutputs` shows that zero-valued outputs pass and negative ones fail. |
| Settlement.Commit | hw1/TxHandler.java:70-83 | Keys after the commit are exactly the new `(tx.hash, i)` references plus the old entries the tx did not claim. Output `i` sits under `(tx.hash, i)`. Every other entry keeps its value. When no input names the tx's own hash, no claimed entry remains. |
| Settlement.HandleTx | hw1/TxHandler.java:70-83 | The two loops (remove each input's claim, then add each output under `(tx.hash, i)`) compute exactly `Commit`. |
| Settlement.SettleReplays | hw1/TxHandler.java:55-68 | The transactions the greedy pass `Settle` accepts are a subsequence of the candidates, in their original order. Replaying them from the starting pool succeeds: each is valid against the pool left by the accepted ones before it. The replay ends in exactly the final pool. |
| Settlement.HandleTxs | hw1/TxHandler.java:60-68 | The batch loop returns exactly the accepted list and final pool of the recursive fold `Settle`. The accepted list is a subsequence of the input, in order. Replaying it from the starting pool succeeds, each element valid against the pool produced by the earlier accepted ones, and ends in the returned pool. |
| Batch.DoubleSpendFirstWins | hw1/TxHandler.java:62-66 | Suppose candidates A and B both claim pool entry u, A is valid, and A's outputs do not include u. Then settling [A, B] accepts only A, and the pool is the pool after A alone. |
| Batch.ChainedSpendAccepted | hw1/TxHandler.java:62-66 | If A is valid and B is valid once A is committed (as when B spends an output of A), settling [A, B] accepts both, and the pool is the result of committing A and then B. |
| Batch.ChainedClaimsInPool | hw1/TxHandler.java:37-41 | After A is committed, every claim of B is in the pool exactly when each claim is an output of A or a pool entry A did not spend. A claim on an output of A finds that output, whose address B's signature is checked against. |
| Batch.ChainedSpendPool | hw1/TxHandler.java:70-81 | After committing A and then B, every output of B is in the pool under `(B.hash, i)`. The output of A that B spent is gone. Every entry A spent is gone unless A or B re-created it. |
| Batch.ReverseChainRejected | hw1/TxHandler.java:62-66 | Suppose B claims an output of A that is not yet in the pool, and A is valid. Then settling [B, A] rejects B and accepts only A. There is no reordering or backtracking. |
| Batch.ClaimsComeFromPoolOrBatch | hw1/TxHandler.java:62-81 | Every entry claimed by an accepted candidate was in the starting pool or carries the hash of some candidate of the batch. |
| Batch.ClaimsComeFromEarlierAccepted | hw1/TxHandler.java:62-81 | Every entry claimed by an accepted transaction was in the starting pool or is an output of a transaction accepted before it. |
| Batch.SettleNoDoubleSpend | hw1/TxHandler.java:55-68 | Suppose no candidate's hash is already in the pool and no two candidates share a hash, so no candidate is listed twice or already committed. Then no two accepted transactions claim a common entry. |
| Batch.RepeatedCandidateSpendsTwice | hw1/TxHandler.java:62-81 | With a verifier that accepts everything, the batch [gen, x, gen, y] is accepted whole. Here gen creates (g, 0), and x and y both claim it, because the second copy of gen re-creates it. The batch is not `FreshHashes`, so this is the case `SettleNoDoubleSpend` excludes. |
| Batch.MutuallyValidBatchAccepted | hw1/TxHandler.java:62-66 | If the candidates are mutually valid in the order given, all of them are accepted and the final pool is the replayed pool. |
| Batch.SettleKeepsValuesNonNegative | hw1/TxHandler.java:46-81 | If every pool value is non-negative before settling, every value is still non-negative after it. |
| Conservation.CommitValue | hw1/TxHandler.java:70-83 | Take a valid tx whose hash is new to the pool. Committing it changes the pool's total value by exactly output value minus claimed value. So the commit never increases the total. |
| Conservation.CommitValueAtMost | hw1/TxHandler.java:70-83 | Committing a valid transaction against a pool of non-negative values lowers the total by at least claimed value minus output value, with no assumption on hashes. So the commit never increases the total. |
| Conservation.SettleCreatesNoValue | hw1/TxHandler.java:55-68 | If candidate hashes are fresh and pairwise distinct, the pool after settling a batch holds no more total value than the starting pool. |
| Conservation.SettleNeverCreatesValue | hw1/TxHandler.java:55-83 | If every starting pool value is non-negative, the pool after settling any batch holds no more total value than the starting pool. This holds with repeated or resubmitted candidates too. |

## Left out

- Values are exact integers, not `double`. The source sums `double`s and compares them exactly. Rounding can make it accept or reject differently at the margins, and non-finite values (NaN, ±Infinity) behave differently again: a NaN output passes the `< 0` test and then makes the final `>=` comparison false. The model reproduces neither.
- `Crypto.verifySignature` and `Transaction.getRawDataToSign` are foreign cryptography and encoding. They are the two function fields of a `Crypto` value passed to every operation that validates (`IsValidTx`, `Settle`, `HandleTxs` and the lemmas about them), so every result holds for any verifier and any signable encoding. `Commit` and `HandleTx` do not validate and take no `Crypto`.
- `Transaction.getHash()` is a given field of `Tx`. No assumption about hashes is made globally. Hash facts appear only as explicit hypotheses on the lemmas that need them: `FreshHashes` for a batch, a single hash inequality for a pair, or, in `CommitValue`, that no pool entry already carries the committed transaction's hash. `FreshHashes` says more than collision freedom: no candidate's hash is in the pool, and no two candidates share a hash.
- The `UTXOPool`, `UTXO` and `Transaction` classes are not part of this model. The pool is a Dafny map and `UTXO` is a structural pair. Removing an absent entry is taken to be a no-op, and adding an existing key overwrites it.
- The `TxHandler` constructor's defensive copy of the pool has no member. Pools are immutable values here, so the caller's pool cannot change when settling produces a new one.
- `isValidTx` leaving the pool unmodified has no member either. `IsValidTx` takes the pool as an immutable value and returns only a boolean.
- The conversions between Java arrays and lists in `handleTxs` are plumbing and are not modelled.
- Output indices are unbounded integers. The source's `int` loop counter could only wrap with more than 2^31 outputs.
- Batch.SettleNoDoubleSpend: promises nothing for a batch that lists a transaction twice or resubmits one already committed. The handler accepts such a batch. A repeat re-creates the outputs it made the first time, and two spenders can then both claim one of them, as `RepeatedCandidateSpendsTwice` proves.
- Conservation.SettleCreatesNoValue: assumes fresh, pairwise distinct hashes, so it excludes repeated and resubmitted candidates. `SettleNeverCreatesValue` covers those cases without any hash assumption, provided the starting pool's values are non-negative. With a negative entry and no hash assumption, a commit that overwrites that entry does raise the total.
