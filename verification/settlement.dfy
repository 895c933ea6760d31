/** Committing one accepted transaction to the pool, and settling a batch
    of candidates in one greedy pass in the caller's order. */
module Settlement {
  import opened Ledger
  import opened Validation

  /** The pool after committing `tx`: every claimed entry removed, then
      output `i` added under `(tx.hash, i)` for every output index. */
  function Commit(pool: Pool, tx: Tx): (p: Pool)
    ensures forall u :: u in p <==> ProducedBy(tx, u) || (u in pool && u !in Consumed(tx))
    ensures forall i :: 0 <= i < |tx.outputs| ==>
      UTXO(tx.hash, i) in p && p[UTXO(tx.hash, i)] == tx.outputs[i]
    ensures forall u :: u in pool && u !in Consumed(tx) && !ProducedBy(tx, u) ==> p[u] == pool[u]
    ensures (forall i :: 0 <= i < |tx.inputs| ==> tx.inputs[i].prevTxHash != tx.hash) ==>
      Consumed(tx) !! p.Keys
  {
    (pool - Consumed(tx)) + Produced(tx)
  }

  /** The commit as two passes: remove each input's claim from the pool,
      then add each output under `(tx.hash, i)`. Callers check validity
      first; the commit itself does not depend on it. */
  method HandleTx(pool: Pool, tx: Tx) returns (p: Pool)
    ensures p == Commit(pool, tx)
  {
    p := pool;
    var i := 0;
    while i < |tx.inputs|
      invariant 0 <= i <= |tx.inputs|
      invariant p == pool - ClaimedUpTo(tx, i)
    {
      ClaimedUpToStep(tx, i);
      p := p - {Claim(tx.inputs[i])};
      i := i + 1;
    }
    ghost var removed := p;
    var j := 0;
    while j < |tx.outputs|
      invariant 0 <= j <= |tx.outputs|
      invariant p == removed + ProducedUpTo(tx, j)
    {
      ProducedUpToStep(removed, tx, j);
      p := p[UTXO(tx.hash, j) := tx.outputs[j]];
      j := j + 1;
    }
    ClaimedUpToAll(tx);
    ProducedUpToAll(tx);
  }

  /** The entries of the first `j` outputs of `tx`. */
  function ProducedUpTo(tx: Tx, j: nat): Pool
    requires j <= |tx.outputs|
  {
    map k | 0 <= k < j :: UTXO(tx.hash, k) := tx.outputs[k]
  }

  lemma ProducedUpToExtend(tx: Tx, j: nat)
    requires 0 < j <= |tx.outputs|
    ensures UTXO(tx.hash, j - 1) !in ProducedUpTo(tx, j - 1)
    ensures ProducedUpTo(tx, j) == ProducedUpTo(tx, j - 1)[UTXO(tx.hash, j - 1) := tx.outputs[j - 1]]
  {
  }

  lemma ProducedUpToAll(tx: Tx)
    ensures ProducedUpTo(tx, |tx.outputs|) == Produced(tx)
  {
  }

  lemma ProducedUpToStep(base: Pool, tx: Tx, j: nat)
    requires j < |tx.outputs|
    ensures (base + ProducedUpTo(tx, j))[UTXO(tx.hash, j) := tx.outputs[j]] == base + ProducedUpTo(tx, j + 1)
  {
    ProducedUpToExtend(tx, j + 1);
  }

  /** The outcome of settling a batch: the accepted transactions in
      acceptance order, and the pool they leave behind. */
  datatype Outcome = Outcome(accepted: seq<Tx>, pool: Pool)

  /** True when `sub` is `s` with some elements dropped, order kept. */
  predicate IsSubsequence(sub: seq<Tx>, s: seq<Tx>)
    decreases |s|
  {
    || |sub| == 0
    || (&& |s| > 0
        && (|| IsSubsequence(sub, s[1..])
            || (sub[0] == s[0] && IsSubsequence(sub[1..], s[1..]))))
  }

  datatype Option<T> = None | Some(value: T)

  /** Commits `txs` one after another, each required to be valid against
      the pool left by those before it; `None` if one is not. This is the
      reference meaning of "a mutually valid sequence of transactions". */
  function Replay(crypto: Crypto, pool: Pool, txs: seq<Tx>): Option<Pool>
    decreases |txs|
  {
    if |txs| == 0 then Some(pool)
    else if ValidTx(crypto, pool, txs[0]) then Replay(crypto, Commit(pool, txs[0]), txs[1..])
    else None
  }

  /** The greedy pass over the candidates in the order given: each is
      checked against the pool as it stands, committed at once if valid,
      dropped silently if not. */
  function Settle(crypto: Crypto, pool: Pool, txs: seq<Tx>): Outcome
    decreases |txs|
  {
    if |txs| == 0 then Outcome([], pool)
    else if ValidTx(crypto, pool, txs[0]) then
      var rest := Settle(crypto, Commit(pool, txs[0]), txs[1..]);
      Outcome([txs[0]] + rest.accepted, rest.pool)
    else
      Settle(crypto, pool, txs[1..])
  }

  /** The transactions `Settle` accepts are a subsequence of the
      candidates, and replaying them from the starting pool succeeds and
      yields exactly the final pool: they are mutually valid. */
  lemma {:induction false} SettleReplays(crypto: Crypto, pool: Pool, txs: seq<Tx>)
    ensures IsSubsequence(Settle(crypto, pool, txs).accepted, txs)
    ensures Replay(crypto, pool, Settle(crypto, pool, txs).accepted) == Some(Settle(crypto, pool, txs).pool)
    decreases |txs|
  {
    if |txs| > 0 {
      if ValidTx(crypto, pool, txs[0]) {
        var next := Commit(pool, txs[0]);
        SettleReplays(crypto, next, txs[1..]);
        var rest := Settle(crypto, next, txs[1..]);
        assert ([txs[0]] + rest.accepted)[1..] == rest.accepted;
      } else {
        SettleReplays(crypto, pool, txs[1..]);
      }
    }
  }

  /** The outcome `r` with `acc` accepted in front of it. */
  function After(acc: seq<Tx>, r: Outcome): Outcome {
    Outcome(acc + r.accepted, r.pool)
  }

  /** One step of `Settle` over a non-empty suffix of the candidates, with
      the transactions accepted so far in front. */
  lemma SettleAdvance(crypto: Crypto, acc: seq<Tx>, pool: Pool, txs: seq<Tx>, n: nat)
    requires n < |txs|
    ensures ValidTx(crypto, pool, txs[n]) ==>
      After(acc, Settle(crypto, pool, txs[n..])) ==
        After(acc + [txs[n]], Settle(crypto, Commit(pool, txs[n]), txs[n + 1..]))
    ensures !ValidTx(crypto, pool, txs[n]) ==>
      After(acc, Settle(crypto, pool, txs[n..])) == After(acc, Settle(crypto, pool, txs[n + 1..]))
  {
    SettleSuffix(crypto, pool, txs, n);
    if ValidTx(crypto, pool, txs[n]) {
      AfterCons(acc, txs[n], Settle(crypto, Commit(pool, txs[n]), txs[n + 1..]));
    }
  }

  lemma AfterCons(acc: seq<Tx>, t: Tx, r: Outcome)
    ensures After(acc, Outcome([t] + r.accepted, r.pool)) == After(acc + [t], r)
  {
    assert acc + ([t] + r.accepted) == (acc + [t]) + r.accepted;
  }

  /** `Settle` over the suffix starting at `n`, unfolded once. */
  lemma SettleSuffix(crypto: Crypto, pool: Pool, txs: seq<Tx>, n: nat)
    requires n < |txs|
    ensures ValidTx(crypto, pool, txs[n]) ==>
      var rest := Settle(crypto, Commit(pool, txs[n]), txs[n + 1..]);
      Settle(crypto, pool, txs[n..]) == Outcome([txs[n]] + rest.accepted, rest.pool)
    ensures !ValidTx(crypto, pool, txs[n]) ==>
      Settle(crypto, pool, txs[n..]) == Settle(crypto, pool, txs[n + 1..])
  {
    assert txs[n..][1..] == txs[n + 1..];
  }

  /** The batch handler as a loop over the candidates, validating each
      against the current pool and committing the valid ones. It returns
      the accepted transactions and the final pool, which are those of
      `Settle`: a mutually valid subsequence of the candidates and the
      pool that replaying them leaves. */
  method HandleTxs(crypto: Crypto, pool: Pool, possibleTxs: seq<Tx>) returns (accepted: seq<Tx>, finalPool: Pool)
    ensures Outcome(accepted, finalPool) == Settle(crypto, pool, possibleTxs)
    ensures IsSubsequence(accepted, possibleTxs)
    ensures Replay(crypto, pool, accepted) == Some(finalPool)
  {
    accepted := [];
    finalPool := pool;
    var n := 0;
    assert possibleTxs[0..] == possibleTxs;
    assert After([], Settle(crypto, pool, possibleTxs)) == Settle(crypto, pool, possibleTxs);
    while n < |possibleTxs|
      invariant 0 <= n <= |possibleTxs|
      invariant Settle(crypto, pool, possibleTxs) == After(accepted, Settle(crypto, finalPool, possibleTxs[n..]))
    {
      var tx := possibleTxs[n];
      SettleAdvance(crypto, accepted, finalPool, possibleTxs, n);
      var valid := IsValidTx(crypto, finalPool, tx);
      if valid {
        finalPool := HandleTx(finalPool, tx);
        accepted := accepted + [tx];
      }
      n := n + 1;
    }
    SettleDone(crypto, pool, possibleTxs, accepted, finalPool);
  }

  /** Once the loop has passed every candidate, what it accumulated is
      the outcome of `Settle`. */
  lemma SettleDone(crypto: Crypto, pool: Pool, txs: seq<Tx>, accepted: seq<Tx>, finalPool: Pool)
    requires Settle(crypto, pool, txs) == After(accepted, Settle(crypto, finalPool, txs[|txs|..]))
    ensures Outcome(accepted, finalPool) == Settle(crypto, pool, txs)
    ensures IsSubsequence(accepted, txs)
    ensures Replay(crypto, pool, accepted) == Some(finalPool)
  {
    assert txs[|txs|..] == [];
    assert accepted + [] == accepted;
    SettleReplays(crypto, pool, txs);
  }
}
