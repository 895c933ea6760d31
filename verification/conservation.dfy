/** Value conservation at the level of the whole pool: committing a valid
    transaction lowers the pool's total by exactly the fee (claimed value
    minus output value), so settling a batch never creates value. */
module Conservation {
  import opened Ledger
  import opened Validation
  import opened Settlement
  import opened Batch

  /** Some entry of a non-empty pool. */
  ghost function Pick(m: Pool): (u: UTXO)
    requires |m| != 0
    ensures u in m
  {
    assert m.Keys != {};
    var u :| u in m; u
  }

  /** The total value held by the pool. */
  ghost function PoolValue(m: Pool): int
    decreases |m|
  {
    if |m| == 0 then 0
    else
      var u := Pick(m);
      RemoveShrinks(m, u);
      m[u].value + PoolValue(m - {u})
  }

  lemma RemoveShrinks(m: Pool, u: UTXO)
    requires u in m
    ensures |m - {u}| == |m| - 1
  {
    assert (m - {u}).Keys == m.Keys - {u};
  }

  lemma RemoveCommutes(m: Pool, u: UTXO, v: UTXO)
    ensures m - {v} - {u} == m - {u} - {v}
  {
  }

  /** The total splits off any one entry, whichever `PoolValue` picked. */
  lemma {:induction false} PoolValueRemove(m: Pool, u: UTXO)
    requires u in m
    ensures PoolValue(m) == m[u].value + PoolValue(m - {u})
    decreases |m|
  {
    RemoveShrinks(m, u);
    var v := Pick(m);
    if v != u {
      RemoveShrinks(m, v);
      assert u in m - {v};
      PoolValueRemove(m - {v}, u);
      assert v in m - {u};
      PoolValueRemove(m - {u}, v);
      RemoveCommutes(m, u, v);
    }
  }

  /** Removing the entries a transaction claims lowers the total by the
      claimed value, provided every claim is present and none repeats. */
  lemma {:induction false} RemoveClaimsValue(pool: Pool, tx: Tx, n: nat)
    requires n <= |tx.inputs|
    requires ClaimsInPool(pool, tx) && NoDoubleClaim(tx)
    ensures PoolValue(pool - ClaimedUpTo(tx, n)) + ClaimedValue(pool, tx.inputs[..n]) == PoolValue(pool)
  {
    if n == 0 {
      NothingClaimed(pool, tx);
    } else {
      RemoveClaimsValue(pool, tx, n - 1);
      RemoveOneClaim(pool, tx, n);
    }
  }

  lemma NothingClaimed(pool: Pool, tx: Tx)
    ensures PoolValue(pool - ClaimedUpTo(tx, 0)) + ClaimedValue(pool, tx.inputs[..0]) == PoolValue(pool)
  {
    assert pool - ClaimedUpTo(tx, 0) == pool;
    assert tx.inputs[..0] == [];
  }

  /** Removing claim `n - 1`, not claimed before it, moves its value
      from the pool's total to the claimed total. */
  lemma RemoveOneClaim(pool: Pool, tx: Tx, n: nat)
    requires 0 < n <= |tx.inputs|
    requires ClaimsInPool(pool, tx) && NoDoubleClaim(tx)
    ensures PoolValue(pool - ClaimedUpTo(tx, n)) + ClaimedValue(pool, tx.inputs[..n]) ==
      PoolValue(pool - ClaimedUpTo(tx, n - 1)) + ClaimedValue(pool, tx.inputs[..n - 1])
  {
    var k := n - 1;
    var c := Claim(tx.inputs[k]);
    var earlier := ClaimedUpTo(tx, k);
    assert c !in earlier by {
      forall l | 0 <= l < k ensures Claim(tx.inputs[l]) != c { }
    }
    assert ClaimedUpTo(tx, n) == earlier + {c} by {
      ClaimedUpToStep(tx, k);
    }
    RemoveOneValue(pool, earlier, c);
    ClaimedValueStep(pool, tx.inputs, k);
  }

  /** Removing one more present entry lowers the total by its value. */
  lemma RemoveOneValue(pool: Pool, earlier: set<UTXO>, c: UTXO)
    requires c in pool && c !in earlier
    ensures PoolValue(pool - (earlier + {c})) + pool[c].value == PoolValue(pool - earlier)
  {
    var before := pool - earlier;
    assert c in before;
    PoolValueRemove(before, c);
    RemoveTwice(pool, earlier, c);
  }

  lemma RemoveTwice(m: Pool, s: set<UTXO>, c: UTXO)
    ensures (m - s) - {c} == m - (s + {c})
  {
  }

  lemma AddThenRemove(base: Pool, added: Pool, u: UTXO, v: Output)
    requires u !in base && u !in added
    ensures (base + added[u := v]) - {u} == base + added
  {
  }

  /** Adding a transaction's outputs under its hash raises the total by
      the output value, provided no entry already carries that hash. */
  lemma {:induction false} AddOutputsValue(base: Pool, tx: Tx, j: nat)
    requires j <= |tx.outputs|
    requires forall u :: u in base ==> u.prevTxHash != tx.hash
    ensures PoolValue(base + ProducedUpTo(tx, j)) == PoolValue(base) + OutputValue(tx.outputs[..j])
  {
    if j == 0 {
      NothingProduced(base, tx);
    } else {
      AddOutputsValue(base, tx, j - 1);
      AddOneOutput(base, tx, j);
    }
  }

  lemma NothingProduced(base: Pool, tx: Tx)
    ensures PoolValue(base + ProducedUpTo(tx, 0)) == PoolValue(base) + OutputValue(tx.outputs[..0])
  {
    assert base + ProducedUpTo(tx, 0) == base;
    assert tx.outputs[..0] == [];
  }

  /** Adding output `j - 1` under its new key raises the total by its value. */
  lemma AddOneOutput(base: Pool, tx: Tx, j: nat)
    requires 0 < j <= |tx.outputs|
    requires forall u :: u in base ==> u.prevTxHash != tx.hash
    ensures PoolValue(base + ProducedUpTo(tx, j)) - OutputValue(tx.outputs[..j]) ==
      PoolValue(base + ProducedUpTo(tx, j - 1)) - OutputValue(tx.outputs[..j - 1])
  {
    var k := j - 1;
    var u := UTXO(tx.hash, k);
    var earlier := ProducedUpTo(tx, k);
    ProducedUpToExtend(tx, j);
    assert u !in base;
    var after := base + earlier[u := tx.outputs[k]];
    assert u in after && after[u] == tx.outputs[k];
    PoolValueRemove(after, u);
    AddThenRemove(base, earlier, u, tx.outputs[k]);
    OutputValueStep(tx.outputs, j);
  }

  lemma OutputValueStep(outputs: seq<Output>, j: nat)
    requires 0 < j <= |outputs|
    ensures OutputValue(outputs[..j]) == OutputValue(outputs[..j - 1]) + outputs[j - 1].value
  {
    assert outputs[..j][..j - 1] == outputs[..j - 1];
  }

  lemma RemoveAllClaimsValue(pool: Pool, tx: Tx)
    requires ClaimsInPool(pool, tx) && NoDoubleClaim(tx)
    ensures PoolValue(pool - Consumed(tx)) + ClaimedValue(pool, tx.inputs) == PoolValue(pool)
  {
    RemoveClaimsValue(pool, tx, |tx.inputs|);
    ClaimedUpToAll(tx);
    assert tx.inputs[..|tx.inputs|] == tx.inputs;
  }

  lemma AddAllOutputsValue(base: Pool, tx: Tx)
    requires forall u :: u in base ==> u.prevTxHash != tx.hash
    ensures PoolValue(base + Produced(tx)) == PoolValue(base) + OutputValue(tx.outputs)
  {
    AddOutputsValue(base, tx, |tx.outputs|);
    assert tx.outputs[..|tx.outputs|] == tx.outputs;
    ProducedUpToAll(tx);
  }

  /** Committing a valid transaction whose hash is new to the pool changes
      the pool's total by exactly output value minus claimed value, so it
      never raises it. */
  lemma CommitValue(crypto: Crypto, pool: Pool, tx: Tx)
    requires ValidTx(crypto, pool, tx)
    requires forall u :: u in pool ==> u.prevTxHash != tx.hash
    ensures PoolValue(Commit(pool, tx)) ==
      PoolValue(pool) - ClaimedValue(pool, tx.inputs) + OutputValue(tx.outputs)
    ensures PoolValue(Commit(pool, tx)) <= PoolValue(pool)
  {
    var removed := pool - Consumed(tx);
    RemoveAllClaimsValue(pool, tx);
    AddAllOutputsValue(removed, tx);
    assert Commit(pool, tx) == removed + Produced(tx);
  }

  /** Under fresh, pairwise distinct hashes, the pool left by settling a
      batch holds no more value than the pool it started from. */
  lemma {:induction false} SettleCreatesNoValue(crypto: Crypto, pool: Pool, txs: seq<Tx>)
    requires FreshHashes(pool, txs)
    ensures PoolValue(Settle(crypto, pool, txs).pool) <= PoolValue(pool)
    decreases |txs|
  {
    if |txs| > 0 {
      var t := txs[0];
      FreshHashesTail(pool, txs);
      if ValidTx(crypto, pool, t) {
        CommitValue(crypto, pool, t);
        FreshHashesAfterCommit(crypto, pool, txs);
        SettleCreatesNoValue(crypto, Commit(pool, t), txs[1..]);
      } else {
        SettleCreatesNoValue(crypto, pool, txs[1..]);
      }
    }
  }

  /** Every entry of the pool has a non-negative value. */
  predicate ValuesNonNegative(m: Pool) {
    forall u :: u in m ==> m[u].value >= 0
  }

  /** Putting `o` under `u` leaves the total of the other entries plus `o`. */
  lemma PoolValueUpdate(m: Pool, u: UTXO, o: Output)
    ensures PoolValue(m[u := o]) == o.value + PoolValue(m - {u})
  {
    var updated := m[u := o];
    PoolValueRemove(updated, u);
    assert updated - {u} == m - {u};
  }

  /** Putting `o` under `u` raises the total by at most `o`'s value when
      the entry it may overwrite is not negative. */
  lemma PoolValueUpdateAtMost(m: Pool, u: UTXO, o: Output)
    requires ValuesNonNegative(m)
    ensures PoolValue(m[u := o]) <= PoolValue(m) + o.value
  {
    PoolValueUpdate(m, u, o);
    if u in m {
      PoolValueRemove(m, u);
    } else {
      assert m - {u} == m;
    }
  }

  /** Adding output `j - 1` raises the total by at most its value, even
      when its key is already taken. */
  lemma AddOneOutputAtMost(base: Pool, tx: Tx, j: nat)
    requires 0 < j <= |tx.outputs|
    requires ValuesNonNegative(base) && OutputsNonNegative(tx)
    ensures PoolValue(base + ProducedUpTo(tx, j)) - OutputValue(tx.outputs[..j]) <=
      PoolValue(base + ProducedUpTo(tx, j - 1)) - OutputValue(tx.outputs[..j - 1])
  {
    var k := j - 1;
    var u := UTXO(tx.hash, k);
    var m := base + ProducedUpTo(tx, k);
    ProducedUpToExtend(tx, j);
    assert base + ProducedUpTo(tx, j) == m[u := tx.outputs[k]];
    assert ValuesNonNegative(m) by {
      forall v | v in m ensures m[v].value >= 0 {
        if v !in base {
          var i :| 0 <= i < k && v == UTXO(tx.hash, i);
        }
      }
    }
    PoolValueUpdateAtMost(m, u, tx.outputs[k]);
    OutputValueStep(tx.outputs, j);
  }

  /** Adding a transaction's first `j` outputs raises the total by at most
      their value, whatever keys the pool already holds. */
  lemma {:induction false} AddOutputsAtMost(base: Pool, tx: Tx, j: nat)
    requires j <= |tx.outputs|
    requires ValuesNonNegative(base) && OutputsNonNegative(tx)
    ensures PoolValue(base + ProducedUpTo(tx, j)) <= PoolValue(base) + OutputValue(tx.outputs[..j])
  {
    if j == 0 {
      NothingProduced(base, tx);
    } else {
      AddOutputsAtMost(base, tx, j - 1);
      AddOneOutputAtMost(base, tx, j);
    }
  }

  /** Committing a valid transaction against a pool of non-negative values
      lowers the total by at least the fee, with no assumption on hashes:
      an output that overwrites an entry only loses that entry's value. */
  lemma CommitValueAtMost(crypto: Crypto, pool: Pool, tx: Tx)
    requires ValidTx(crypto, pool, tx) && ValuesNonNegative(pool)
    ensures PoolValue(Commit(pool, tx)) <=
      PoolValue(pool) - ClaimedValue(pool, tx.inputs) + OutputValue(tx.outputs)
    ensures PoolValue(Commit(pool, tx)) <= PoolValue(pool)
  {
    var removed := pool - Consumed(tx);
    RemoveKeepsValuesNonNegative(pool, Consumed(tx));
    AddAllOutputsAtMost(removed, tx);
    CommitSplit(crypto, pool, tx);
  }

  lemma RemoveKeepsValuesNonNegative(pool: Pool, s: set<UTXO>)
    requires ValuesNonNegative(pool)
    ensures ValuesNonNegative(pool - s)
  {
  }

  /** A valid commit removes exactly the claimed value and then adds the
      outputs. */
  lemma CommitSplit(crypto: Crypto, pool: Pool, tx: Tx)
    requires ValidTx(crypto, pool, tx)
    ensures PoolValue(pool - Consumed(tx)) + ClaimedValue(pool, tx.inputs) == PoolValue(pool)
    ensures Commit(pool, tx) == (pool - Consumed(tx)) + Produced(tx)
  {
    RemoveAllClaimsValue(pool, tx);
  }

  lemma AddAllOutputsAtMost(base: Pool, tx: Tx)
    requires ValuesNonNegative(base) && OutputsNonNegative(tx)
    ensures PoolValue(base + Produced(tx)) <= PoolValue(base) + OutputValue(tx.outputs)
  {
    AddOutputsAtMost(base, tx, |tx.outputs|);
    assert tx.outputs[..|tx.outputs|] == tx.outputs;
    ProducedUpToAll(tx);
  }

  /** Committing a valid transaction keeps every value non-negative. */
  lemma CommitKeepsValuesNonNegative(crypto: Crypto, pool: Pool, tx: Tx)
    requires ValidTx(crypto, pool, tx) && ValuesNonNegative(pool)
    ensures ValuesNonNegative(Commit(pool, tx))
  {
    var next := Commit(pool, tx);
    forall u | u in next ensures next[u].value >= 0 {
      if ProducedBy(tx, u) {
        assert u == UTXO(tx.hash, u.index);
      }
    }
  }

  /** Settling a batch against a pool of non-negative values never raises
      the pool's total, whatever the candidates' hashes: a candidate listed
      twice, or one already committed, cannot create value either. */
  lemma {:induction false} SettleNeverCreatesValue(crypto: Crypto, pool: Pool, txs: seq<Tx>)
    requires ValuesNonNegative(pool)
    ensures PoolValue(Settle(crypto, pool, txs).pool) <= PoolValue(pool)
    decreases |txs|
  {
    if |txs| > 0 {
      var t := txs[0];
      if ValidTx(crypto, pool, t) {
        CommitValueAtMost(crypto, pool, t);
        CommitKeepsValuesNonNegative(crypto, pool, t);
        SettleNeverCreatesValue(crypto, Commit(pool, t), txs[1..]);
      } else {
        SettleNeverCreatesValue(crypto, pool, txs[1..]);
      }
    }
  }
}
