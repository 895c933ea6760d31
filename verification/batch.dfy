/** What a settled batch guarantees: conflicting spends resolved in favour
    of the earlier candidate, chained spends accepted in forward order and
    rejected in reverse order, no unspent output spent twice across the
    batch, and no candidate dropped from a batch that is already mutually
    valid. */
module Batch {
  import opened Ledger
  import opened Validation
  import opened Settlement

  /** Two candidates claim the same pool entry `u`; the first is valid.
      Only the first is accepted, and the pool shows only its effect.
      (`A` must not re-create `u` under its own hash.) */
  lemma DoubleSpendFirstWins(crypto: Crypto, pool: Pool, a: Tx, b: Tx, u: UTXO)
    requires ValidTx(crypto, pool, a)
    requires u in Consumed(a) && u in Consumed(b)
    requires !ProducedBy(a, u)
    ensures Settle(crypto, pool, [a, b]) == Outcome([a], Commit(pool, a))
  {
    var i :| 0 <= i < |b.inputs| && Claim(b.inputs[i]) == u;
    var next := Commit(pool, a);
    assert u !in next;
    assert Settle(crypto, next, [b]) == Outcome([], next) by {
      assert !ValidTx(crypto, next, b);
      assert [b][1..] == [];
    }
    assert [a, b][1..] == [b];
    assert [a] + [] == [a];
  }

  /** `B` is valid once `A` is committed, typically because it spends an
      output of `A` (`ChainedClaimsInPool` says when its claims are then
      present). Submitted as [A, B], both are accepted, and the pool is
      the one left by committing `A` and then `B`. */
  lemma ChainedSpendAccepted(crypto: Crypto, pool: Pool, a: Tx, b: Tx)
    requires ValidTx(crypto, pool, a)
    requires ValidTx(crypto, Commit(pool, a), b)
    ensures Settle(crypto, pool, [a, b]) == Outcome([a, b], Commit(Commit(pool, a), b))
  {
    var afterA := Commit(pool, a);
    var afterB := Commit(afterA, b);
    assert Replay(crypto, afterB, []) == Some(afterB);
    assert Replay(crypto, afterA, [b]) == Some(afterB) by {
      assert [b][1..] == [];
    }
    assert Replay(crypto, pool, [a, b]) == Some(afterB) by {
      assert [a, b][1..] == [b];
    }
    MutuallyValidBatchAccepted(crypto, pool, [a, b]);
  }

  /** After `A` is committed, every claim of `B` is present exactly when
      each one is an output of `A` or a pool entry `A` did not spend; a
      claim on an output of `A` then names that output, whose address
      `B`'s signature is checked against. */
  lemma ChainedClaimsInPool(pool: Pool, a: Tx, b: Tx)
    ensures ClaimsInPool(Commit(pool, a), b) <==>
      forall i :: 0 <= i < |b.inputs| ==>
        ProducedBy(a, Claim(b.inputs[i])) || (Claim(b.inputs[i]) in pool && Claim(b.inputs[i]) !in Consumed(a))
    ensures forall i :: 0 <= i < |b.inputs| && ProducedBy(a, Claim(b.inputs[i])) ==>
      Claim(b.inputs[i]) in Commit(pool, a) &&
      Commit(pool, a)[Claim(b.inputs[i])] == a.outputs[b.inputs[i].outputIndex]
  {
  }

  /** The pool left by the chained pair [A, B]: it holds every output of
      `B`, not the output of `A` that `B` spent, and none of the entries
      `A` spent unless `B` re-created them. */
  lemma ChainedSpendPool(pool: Pool, a: Tx, b: Tx, k: int)
    requires UTXO(a.hash, k) in Consumed(b)
    requires b.hash != a.hash
    ensures forall i :: 0 <= i < |b.outputs| ==>
      UTXO(b.hash, i) in Commit(Commit(pool, a), b) &&
      Commit(Commit(pool, a), b)[UTXO(b.hash, i)] == b.outputs[i]
    ensures UTXO(a.hash, k) !in Commit(Commit(pool, a), b)
    ensures forall u :: u in Consumed(a) && !ProducedBy(a, u) && !ProducedBy(b, u) ==>
      u !in Commit(Commit(pool, a), b)
  {
    assert !ProducedBy(b, UTXO(a.hash, k));
  }

  /** `B` spends an output of `A` that is not yet in the pool. Submitted
      as [B, A], `B` is rejected and only `A` is accepted: the pass does
      not reorder or go back. */
  lemma ReverseChainRejected(crypto: Crypto, pool: Pool, a: Tx, b: Tx, k: int)
    requires ValidTx(crypto, pool, a)
    requires UTXO(a.hash, k) in Consumed(b)
    requires UTXO(a.hash, k) !in pool
    ensures Settle(crypto, pool, [b, a]) == Outcome([a], Commit(pool, a))
  {
    var next := Commit(pool, a);
    assert !ValidTx(crypto, pool, b);
    assert Settle(crypto, pool, [a]) == Outcome([a], next) by {
      assert [a][1..] == [];
      assert Settle(crypto, next, []) == Outcome([], next);
      assert [a] + [] == [a];
    }
    assert [b, a][1..] == [a];
  }

  /** The hashes of a batch of candidates. */
  function HashesOf(txs: seq<Tx>): set<Hash> {
    set t | t in txs :: t.hash
  }

  /** Fresh, pairwise distinct hashes: no candidate's hash is the hash of
      an entry already in the pool, and no two candidates share a hash.
      This is more than collision freedom: it also excludes a candidate
      listed twice and a candidate that is already committed
      (`RepeatedCandidateSpendsTwice` shows why). */
  predicate FreshHashes(pool: Pool, txs: seq<Tx>) {
    && (forall k, u :: 0 <= k < |txs| && u in pool ==> u.prevTxHash != txs[k].hash)
    && (forall i, j :: 0 <= i < j < |txs| ==> txs[i].hash != txs[j].hash)
  }

  lemma FreshHashesTail(pool: Pool, txs: seq<Tx>)
    requires |txs| > 0 && FreshHashes(pool, txs)
    ensures FreshHashes(pool, txs[1..])
  {
  }

  /** Committing the first candidate keeps the rest fresh: the
      entries it adds carry its own hash, which no later candidate has. */
  lemma FreshHashesAfterCommit(crypto: Crypto, pool: Pool, txs: seq<Tx>)
    requires |txs| > 0 && FreshHashes(pool, txs)
    ensures FreshHashes(Commit(pool, txs[0]), txs[1..])
  {
    var next := Commit(pool, txs[0]);
    forall k, u | 0 <= k < |txs[1..]| && u in next
      ensures u.prevTxHash != txs[1..][k].hash
    {
      if u !in pool {
        assert ProducedBy(txs[0], u);
        assert txs[1..][k] == txs[k + 1];
      }
    }
  }

  /** Every entry an accepted candidate claims was in the starting pool
      or carries the hash of some candidate of the batch. */
  lemma {:induction false} ClaimsComeFromPoolOrBatch(crypto: Crypto, pool: Pool, txs: seq<Tx>)
    ensures forall k, u ::
      (0 <= k < |Settle(crypto, pool, txs).accepted| && u in Consumed(Settle(crypto, pool, txs).accepted[k])) ==>
      u in pool || u.prevTxHash in HashesOf(txs)
    decreases |txs|
  {
    if |txs| > 0 {
      var t := txs[0];
      assert HashesOf(txs[1..]) <= HashesOf(txs) by {
        forall t' | t' in txs[1..] ensures t' in txs { }
      }
      if ValidTx(crypto, pool, t) {
        var next := Commit(pool, t);
        ClaimsComeFromPoolOrBatch(crypto, next, txs[1..]);
        var rest := Settle(crypto, next, txs[1..]).accepted;
        assert Settle(crypto, pool, txs).accepted == [t] + rest;
        forall k, u | 0 <= k < |[t] + rest| && u in Consumed(([t] + rest)[k])
          ensures u in pool || u.prevTxHash in HashesOf(txs)
        {
          if k == 0 {
            var i :| 0 <= i < |t.inputs| && Claim(t.inputs[i]) == u;
          } else {
            assert ([t] + rest)[k] == rest[k - 1];
            if u in next && !(u in pool) {
              assert ProducedBy(t, u);
            }
          }
        }
      } else {
        ClaimsComeFromPoolOrBatch(crypto, pool, txs[1..]);
      }
    }
  }

  /** Entry `u` is an output of one of the first `k` transactions of `acc`. */
  predicate CreatedBefore(acc: seq<Tx>, k: int, u: UTXO) {
    exists m :: 0 <= m < k && m < |acc| && ProducedBy(acc[m], u)
  }

  /** The life of a pool entry across a batch: every entry an accepted
      transaction claims was in the starting pool or is an output of a
      transaction accepted before it. */
  lemma {:induction false} ClaimsComeFromEarlierAccepted(crypto: Crypto, pool: Pool, txs: seq<Tx>)
    ensures forall k, u ::
      (0 <= k < |Settle(crypto, pool, txs).accepted| && u in Consumed(Settle(crypto, pool, txs).accepted[k])) ==>
      u in pool || CreatedBefore(Settle(crypto, pool, txs).accepted, k, u)
    decreases |txs|
  {
    if |txs| > 0 {
      var t := txs[0];
      if ValidTx(crypto, pool, t) {
        var next := Commit(pool, t);
        ClaimsComeFromEarlierAccepted(crypto, next, txs[1..]);
        var rest := Settle(crypto, next, txs[1..]).accepted;
        assert Settle(crypto, pool, txs).accepted == [t] + rest;
        ClaimsOfCons(pool, t, rest);
      } else {
        ClaimsComeFromEarlierAccepted(crypto, pool, txs[1..]);
      }
    }
  }

  /** Accepting `t` in front of `rest` keeps the life-of-an-entry
      property: `t`'s own claims were in the pool, and what `rest`
      found after `t` was in the pool before it or created by `t`. */
  lemma ClaimsOfCons(pool: Pool, t: Tx, rest: seq<Tx>)
    requires ClaimsInPool(pool, t)
    requires forall k, u :: 0 <= k < |rest| && u in Consumed(rest[k]) ==>
      u in Commit(pool, t) || CreatedBefore(rest, k, u)
    ensures forall k, u :: 0 <= k < |[t] + rest| && u in Consumed(([t] + rest)[k]) ==>
      u in pool || CreatedBefore([t] + rest, k, u)
  {
    var acc := [t] + rest;
    forall k, u | 0 <= k < |acc| && u in Consumed(acc[k])
      ensures u in pool || CreatedBefore(acc, k, u)
    {
      if k == 0 {
        var i :| 0 <= i < |t.inputs| && Claim(t.inputs[i]) == u;
      } else {
        assert acc[k] == rest[k - 1];
        ClaimFromRest(pool, t, rest, k - 1, u);
      }
    }
  }

  /** A claim of `rest[k]` that was in the pool after committing `t`, or
      that an earlier element of `rest` created, was in the pool before
      `t` or was created by an earlier element of `[t] + rest`. */
  lemma ClaimFromRest(pool: Pool, t: Tx, rest: seq<Tx>, k: nat, u: UTXO)
    requires k < |rest|
    requires u in Commit(pool, t) || CreatedBefore(rest, k, u)
    ensures u in pool || CreatedBefore([t] + rest, k + 1, u)
  {
    var acc := [t] + rest;
    if u in Commit(pool, t) && u !in pool {
      assert ProducedBy(acc[0], u);
    } else if u !in pool {
      var m :| 0 <= m < k && m < |rest| && ProducedBy(rest[m], u);
      assert acc[m + 1] == rest[m];
    }
  }

  /** Under fresh, pairwise distinct hashes, no two accepted candidates
      claim a common entry: an unspent output is spent at most once across
      the batch. */
  lemma {:induction false} SettleNoDoubleSpend(crypto: Crypto, pool: Pool, txs: seq<Tx>)
    requires FreshHashes(pool, txs)
    ensures forall i, j :: 0 <= i < j < |Settle(crypto, pool, txs).accepted| ==>
      Consumed(Settle(crypto, pool, txs).accepted[i]) !! Consumed(Settle(crypto, pool, txs).accepted[j])
    decreases |txs|
  {
    if |txs| > 0 {
      var t := txs[0];
      FreshHashesTail(pool, txs);
      if ValidTx(crypto, pool, t) {
        var next := Commit(pool, t);
        FreshHashesAfterCommit(crypto, pool, txs);
        SettleNoDoubleSpend(crypto, next, txs[1..]);
        ClaimsComeFromPoolOrBatch(crypto, next, txs[1..]);
        var rest := Settle(crypto, next, txs[1..]).accepted;
        var acc := [t] + rest;
        assert Settle(crypto, pool, txs).accepted == acc;
        forall i, j | 0 <= i < j < |acc|
          ensures Consumed(acc[i]) !! Consumed(acc[j])
        {
          assert acc[j] == rest[j - 1];
          if i == 0 {
            FirstClaimsNotReclaimed(crypto, pool, txs, rest[j - 1]);
          } else {
            assert acc[i] == rest[i - 1];
          }
        }
      } else {
        SettleNoDoubleSpend(crypto, pool, txs[1..]);
      }
    }
  }

  /** What an accepted first candidate claims, no later accepted
      candidate claims: the claimed entries were in the pool, are gone
      after the commit, and no later candidate re-creates them. */
  lemma FirstClaimsNotReclaimed(crypto: Crypto, pool: Pool, txs: seq<Tx>, later: Tx)
    requires |txs| > 0 && FreshHashes(pool, txs) && ValidTx(crypto, pool, txs[0])
    requires forall u :: u in Consumed(later) ==>
      u in Commit(pool, txs[0]) || u.prevTxHash in HashesOf(txs[1..])
    ensures Consumed(txs[0]) !! Consumed(later)
  {
    var t := txs[0];
    var next := Commit(pool, t);
    forall u | u in Consumed(t)
      ensures u !in Consumed(later)
    {
      var m :| 0 <= m < |t.inputs| && Claim(t.inputs[m]) == u;
      assert u in pool;
      assert u.prevTxHash !in HashesOf(txs[1..]) by {
        forall t' | t' in txs[1..] ensures t'.hash != u.prevTxHash {
          var k' :| 0 <= k' < |txs[1..]| && txs[1..][k'] == t';
          assert txs[k' + 1] == t';
        }
      }
      assert !ProducedBy(t, u);
      assert u !in next;
    }
  }

  /** A batch that is already mutually valid in the order given is
      accepted whole: the greedy pass drops nothing from it. */
  lemma {:induction false} MutuallyValidBatchAccepted(crypto: Crypto, pool: Pool, txs: seq<Tx>)
    requires Replay(crypto, pool, txs).Some?
    ensures Settle(crypto, pool, txs) == Outcome(txs, Replay(crypto, pool, txs).value)
    decreases |txs|
  {
    if |txs| > 0 {
      var next := Commit(pool, txs[0]);
      assert ValidTx(crypto, pool, txs[0]);
      assert Replay(crypto, pool, txs) == Replay(crypto, next, txs[1..]);
      MutuallyValidBatchAccepted(crypto, next, txs[1..]);
      assert Settle(crypto, pool, txs) == Outcome([txs[0]] + txs[1..], Settle(crypto, next, txs[1..]).pool);
      assert [txs[0]] + txs[1..] == txs;
    }
  }

  /** Settling keeps every pool value non-negative: the entries it adds
      are outputs of valid candidates. */
  lemma {:induction false} SettleKeepsValuesNonNegative(crypto: Crypto, pool: Pool, txs: seq<Tx>)
    requires forall u :: u in pool ==> pool[u].value >= 0
    ensures forall u :: u in Settle(crypto, pool, txs).pool ==> Settle(crypto, pool, txs).pool[u].value >= 0
    decreases |txs|
  {
    if |txs| > 0 {
      var t := txs[0];
      if ValidTx(crypto, pool, t) {
        var next := Commit(pool, t);
        forall u | u in next ensures next[u].value >= 0 {
          if ProducedBy(t, u) {
            assert u == UTXO(t.hash, u.index);
          }
        }
        SettleKeepsValuesNonNegative(crypto, next, txs[1..]);
      } else {
        SettleKeepsValuesNonNegative(crypto, pool, txs[1..]);
      }
    }
  }

  /** A verifier that accepts every signature. */
  function AcceptAll(): Crypto {
    Crypto((key: PublicKey, msg: Bytes, sig: Signature) => true, (t: Tx, i: int) => [])
  }

  /** A transaction that only spends the one entry of a one-entry pool
      leaves the pool empty. */
  lemma SpendOnlyEntry(g: Hash, owner: PublicKey, t: Tx)
    requires |t.inputs| == 1 && Claim(t.inputs[0]) == UTXO(g, 0) && t.outputs == []
    ensures Commit(map[UTXO(g, 0) := Output(owner, 0)], t) == map[]
  {
    assert Consumed(t) == {UTXO(g, 0)};
    assert Produced(t) == map[];
  }

  /** Why `SettleNoDoubleSpend` needs fresh hashes and not only
      collision-free ones: a candidate listed twice re-creates the output
      it created the first time, so two different spenders of that output
      are both accepted. Here `gen` creates output `(g, 0)`, `x` spends it,
      `gen` re-creates it, and `y` spends it again. */
  lemma RepeatedCandidateSpendsTwice(g: Hash, owner: PublicKey, sig: Signature, hx: Hash, hy: Hash)
    ensures var gen := Tx(g, [], [Output(owner, 0)]);
      var x := Tx(hx, [Input(g, 0, sig)], []);
      var y := Tx(hy, [Input(g, 0, sig)], []);
      && Settle(AcceptAll(), map[], [gen, x, gen, y]).accepted == [gen, x, gen, y]
      && UTXO(g, 0) in Consumed(x) * Consumed(y)
      && !FreshHashes(map[], [gen, x, gen, y])
  {
    var gen := Tx(g, [], [Output(owner, 0)]);
    var x := Tx(hx, [Input(g, 0, sig)], []);
    var y := Tx(hy, [Input(g, 0, sig)], []);
    var txs := [gen, x, gen, y];
    RepeatedCandidateReplays(gen, x, y, owner, g);
    MutuallyValidBatchAccepted(AcceptAll(), map[], txs);
    assert txs[0].hash == txs[2].hash;
  }

  /** The batch [gen, x, gen, y] of `RepeatedCandidateSpendsTwice` is
      mutually valid: each candidate is valid after those before it. */
  lemma RepeatedCandidateReplays(gen: Tx, x: Tx, y: Tx, owner: PublicKey, g: Hash)
    requires gen == Tx(g, [], [Output(owner, 0)])
    requires |x.inputs| == 1 && Claim(x.inputs[0]) == UTXO(g, 0) && x.outputs == []
    requires |y.inputs| == 1 && Claim(y.inputs[0]) == UTXO(g, 0) && y.outputs == []
    ensures Replay(AcceptAll(), map[], [gen, x, gen, y]) == Some(map[])
  {
    var crypto := AcceptAll();
    var empty: Pool := map[];
    var created := Commit(empty, gen);
    assert created == map[UTXO(g, 0) := Output(owner, 0)];
    SpendOnlyEntry(g, owner, x);
    SpendOnlyEntry(g, owner, y);
    assert ValidTx(crypto, empty, gen) by {
      assert gen.outputs[..0] == [];
    }
    assert ValidTx(crypto, created, x) && ValidTx(crypto, created, y) by {
      assert x.inputs[..0] == [] && y.inputs[..0] == [];
    }
    assert Replay(crypto, created, [y]) == Some(empty) by {
      assert [y][1..] == [];
    }
    assert Replay(crypto, empty, [gen, y]) == Some(empty) by {
      assert [gen, y][1..] == [y];
    }
    assert Replay(crypto, created, [x, gen, y]) == Some(empty) by {
      assert [x, gen, y][1..] == [gen, y];
    }
    assert [gen, x, gen, y][1..] == [x, gen, y];
  }
}
