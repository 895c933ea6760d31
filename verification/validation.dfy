/** Transaction validity against the current pool: the five conditions as
    a declarative predicate, and the single-pass scan that decides them. */
module Validation {
  import opened Ledger

  /** (1) Every output `tx` claims is in the pool. */
  predicate ClaimsInPool(pool: Pool, tx: Tx) {
    forall i :: 0 <= i < |tx.inputs| ==> Claim(tx.inputs[i]) in pool
  }

  /** (2) Every input's signature verifies under the key of the output it
      claims, over that input's signable bytes. Only meaningful for inputs
      whose claim is in the pool. */
  predicate SignaturesValid(crypto: Crypto, pool: Pool, tx: Tx) {
    forall i :: 0 <= i < |tx.inputs| && Claim(tx.inputs[i]) in pool ==>
      crypto.verifySignature(pool[Claim(tx.inputs[i])].address,
                             crypto.rawDataToSign(tx, i),
                             tx.inputs[i].signature)
  }

  /** (3) No unspent output is claimed twice by `tx`. */
  predicate NoDoubleClaim(tx: Tx) {
    forall i, j :: 0 <= i < j < |tx.inputs| ==> Claim(tx.inputs[i]) != Claim(tx.inputs[j])
  }

  /** (4) No output value is negative; zero is allowed. */
  predicate OutputsNonNegative(tx: Tx) {
    forall k :: 0 <= k < |tx.outputs| ==> tx.outputs[k].value >= 0
  }

  /** The total value of the pool entries that `inputs` claim. */
  function ClaimedValue(pool: Pool, inputs: seq<Input>): int
    requires forall i :: 0 <= i < |inputs| ==> Claim(inputs[i]) in pool
  {
    if |inputs| == 0 then 0
    else ClaimedValue(pool, inputs[..|inputs| - 1]) + pool[Claim(inputs[|inputs| - 1])].value
  }

  /** The total value of `outputs`. */
  function OutputValue(outputs: seq<Output>): int {
    if |outputs| == 0 then 0
    else OutputValue(outputs[..|outputs| - 1]) + outputs[|outputs| - 1].value
  }

  /** (5) The claimed value covers the output value; any excess is a fee. */
  predicate Conserves(pool: Pool, tx: Tx)
    requires ClaimsInPool(pool, tx)
  {
    ClaimedValue(pool, tx.inputs) >= OutputValue(tx.outputs)
  }

  /** The transaction is acceptable against `pool`: all five conditions. */
  predicate ValidTx(crypto: Crypto, pool: Pool, tx: Tx) {
    && ClaimsInPool(pool, tx)
    && SignaturesValid(crypto, pool, tx)
    && NoDoubleClaim(tx)
    && OutputsNonNegative(tx)
    && Conserves(pool, tx)
  }

  /** The validity check as `isValidTx` performs it: the inputs in order,
      each checked for a repeated claim, presence in the pool and
      signature; then the outputs in order, each checked for sign; finally
      the two sums compared. It returns false at the first failure, and
      its verdict is exactly `ValidTx`. */
  method IsValidTx(crypto: Crypto, pool: Pool, tx: Tx) returns (valid: bool)
    ensures valid <==> ValidTx(crypto, pool, tx)
    ensures (exists i :: 0 <= i < |tx.inputs| && Claim(tx.inputs[i]) !in pool) ==> !valid
    ensures (exists i, j :: 0 <= i < j < |tx.inputs| && Claim(tx.inputs[i]) == Claim(tx.inputs[j])) ==> !valid
    ensures (exists i :: 0 <= i < |tx.inputs| && Claim(tx.inputs[i]) in pool &&
               !crypto.verifySignature(pool[Claim(tx.inputs[i])].address,
                                       crypto.rawDataToSign(tx, i),
                                       tx.inputs[i].signature)) ==> !valid
    ensures (exists k :: 0 <= k < |tx.outputs| && tx.outputs[k].value < 0) ==> !valid
    ensures valid ==> ClaimedValue(pool, tx.inputs) >= OutputValue(tx.outputs)
  {
    FailedConditionRejects(crypto, pool, tx);
    var inputsOk, inSum := ScanInputs(crypto, pool, tx);
    if !inputsOk {
      return false;
    }
    var outputsOk, outSum := ScanOutputs(tx);
    if !outputsOk {
      return false;
    }
    return inSum >= outSum;
  }

  /** The input loop of `IsValidTx`: for each input in order, reject a claim
      already seen, a claim not in the pool, or a signature that does not
      verify; otherwise add the claimed value. It succeeds exactly when
      conditions (1) to (3) hold, and then returns the claimed value. */
  method ScanInputs(crypto: Crypto, pool: Pool, tx: Tx) returns (ok: bool, inSum: int)
    ensures ok <==> ClaimsInPool(pool, tx) && SignaturesValid(crypto, pool, tx) && NoDoubleClaim(tx)
    ensures ok ==> ClaimsInPool(pool, tx) && inSum == ClaimedValue(pool, tx.inputs)
  {
    var seen: set<UTXO> := {};
    inSum := 0;
    var i := 0;
    while i < |tx.inputs|
      invariant 0 <= i <= |tx.inputs|
      invariant seen == ClaimedUpTo(tx, i)
      invariant forall k :: 0 <= k < i ==> Claim(tx.inputs[k]) in pool
      invariant forall k :: 0 <= k < i ==>
        crypto.verifySignature(pool[Claim(tx.inputs[k])].address,
                               crypto.rawDataToSign(tx, k),
                               tx.inputs[k].signature)
      invariant forall k, l :: 0 <= k < l < i ==> Claim(tx.inputs[k]) != Claim(tx.inputs[l])
      invariant inSum == ClaimedValue(pool, tx.inputs[..i])
    {
      var u := Claim(tx.inputs[i]);
      if u in seen {
        RepeatedClaimRejects(tx, i);
        return false, 0;
      }
      ClaimedUpToStep(tx, i);
      seen := seen + {u};
      if u !in pool {
        assert !ClaimsInPool(pool, tx);
        return false, 0;
      }
      var prevOut := pool[u];
      if !crypto.verifySignature(prevOut.address, crypto.rawDataToSign(tx, i), tx.inputs[i].signature) {
        assert !SignaturesValid(crypto, pool, tx);
        return false, 0;
      }
      ClaimedValueStep(pool, tx.inputs, i);
      inSum := inSum + prevOut.value;
      i := i + 1;
    }
    assert tx.inputs[..i] == tx.inputs;
    return true, inSum;
  }

  /** The output loop of `IsValidTx`: reject a negative value, otherwise add
      it. It succeeds exactly when condition (4) holds, and then returns
      the output value. */
  method ScanOutputs(tx: Tx) returns (ok: bool, outSum: int)
    ensures ok <==> OutputsNonNegative(tx)
    ensures ok ==> outSum == OutputValue(tx.outputs)
  {
    outSum := 0;
    var k := 0;
    while k < |tx.outputs|
      invariant 0 <= k <= |tx.outputs|
      invariant forall l :: 0 <= l < k ==> tx.outputs[l].value >= 0
      invariant outSum == OutputValue(tx.outputs[..k])
    {
      if tx.outputs[k].value < 0 {
        return false, 0;
      }
      assert tx.outputs[..k + 1][..k] == tx.outputs[..k];
      outSum := outSum + tx.outputs[k].value;
      k := k + 1;
    }
    assert tx.outputs[..k] == tx.outputs;
    return true, outSum;
  }

  /** An input whose claim an earlier input already made breaks (3). */
  lemma RepeatedClaimRejects(tx: Tx, i: nat)
    requires i < |tx.inputs| && Claim(tx.inputs[i]) in ClaimedUpTo(tx, i)
    ensures !NoDoubleClaim(tx)
  {
    var k :| 0 <= k < i && Claim(tx.inputs[k]) == Claim(tx.inputs[i]);
  }

  lemma ClaimedValueStep(pool: Pool, inputs: seq<Input>, k: nat)
    requires k < |inputs|
    requires forall i :: 0 <= i < k + 1 ==> Claim(inputs[i]) in pool
    ensures ClaimedValue(pool, inputs[..k + 1]) ==
      ClaimedValue(pool, inputs[..k]) + pool[Claim(inputs[k])].value
  {
    assert inputs[..k + 1][..k] == inputs[..k];
  }

  /** Each failed condition alone makes a transaction invalid, and a valid
      one claims at least as much value as it pays out. */
  lemma FailedConditionRejects(crypto: Crypto, pool: Pool, tx: Tx)
    ensures (exists i :: 0 <= i < |tx.inputs| && Claim(tx.inputs[i]) !in pool) ==> !ValidTx(crypto, pool, tx)
    ensures (exists i, j :: 0 <= i < j < |tx.inputs| && Claim(tx.inputs[i]) == Claim(tx.inputs[j])) ==>
      !ValidTx(crypto, pool, tx)
    ensures (exists i :: 0 <= i < |tx.inputs| && Claim(tx.inputs[i]) in pool &&
               !crypto.verifySignature(pool[Claim(tx.inputs[i])].address,
                                       crypto.rawDataToSign(tx, i),
                                       tx.inputs[i].signature)) ==> !ValidTx(crypto, pool, tx)
    ensures (exists k :: 0 <= k < |tx.outputs| && tx.outputs[k].value < 0) ==> !ValidTx(crypto, pool, tx)
    ensures ValidTx(crypto, pool, tx) ==> ClaimedValue(pool, tx.inputs) >= OutputValue(tx.outputs)
  {
  }

  /** A zero-valued output is allowed (it burns value); a negative one is
      not. Shown on a transaction with no inputs and one output. */
  lemma ZeroValueOutputAllowed(crypto: Crypto, pool: Pool, h: Hash, owner: PublicKey)
    ensures ValidTx(crypto, pool, Tx(h, [], [Output(owner, 0)]))
    ensures !ValidTx(crypto, pool, Tx(h, [], [Output(owner, -1)]))
  {
    assert [Output(owner, 0)][..0] == [];
  }
}
