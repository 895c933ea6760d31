/** The data model of the UTXO ledger: unspent-output references, inputs,
    outputs, transactions, the pool of unspent outputs, and the two
    cryptographic collaborators the ledger consults but does not define. */
module Ledger {

  type Bytes = seq<bv8>

  /** A transaction's identity hash; supplied with the transaction. */
  type Hash = Bytes

  /** An encoded public key, the owner of an output. */
  type PublicKey = Bytes

  type Signature = Bytes

  /** A reference to output `index` of the transaction whose hash is
      `prevTxHash`. Equality is structural over the pair. */
  datatype UTXO = UTXO(prevTxHash: Hash, index: int)

  /** An output: `value` coins payable to the owner of `address`.
      Values are exact integers (see the README on floating point). */
  datatype Output = Output(address: PublicKey, value: int)

  /** An input claims output `outputIndex` of transaction `prevTxHash`
      and carries the owner's signature over the spending transaction. */
  datatype Input = Input(prevTxHash: Hash, outputIndex: int, signature: Signature)

  /** A transaction. Its `hash` is given, not computed. */
  datatype Tx = Tx(hash: Hash, inputs: seq<Input>, outputs: seq<Output>)

  /** The pool of currently spendable outputs. */
  type Pool = map<UTXO, Output>

  /** The cryptographic collaborators, taken as parameters:
      `verifySignature(key, message, signature)` and
      `rawDataToSign(tx, i)`, the bytes input `i` of `tx` signs. */
  datatype Crypto = Crypto(
    verifySignature: (PublicKey, Bytes, Signature) -> bool,
    rawDataToSign: (Tx, int) -> Bytes)

  /** The unspent output an input claims. */
  function Claim(inp: Input): (u: UTXO)
    ensures u.prevTxHash == inp.prevTxHash && u.index == inp.outputIndex
  {
    UTXO(inp.prevTxHash, inp.outputIndex)
  }

  /** Every unspent output claimed by some input of `tx`. */
  function Consumed(tx: Tx): (s: set<UTXO>)
    ensures forall i :: 0 <= i < |tx.inputs| ==> Claim(tx.inputs[i]) in s
    ensures forall u :: u in s ==> exists i :: 0 <= i < |tx.inputs| && Claim(tx.inputs[i]) == u
  {
    set i | 0 <= i < |tx.inputs| :: Claim(tx.inputs[i])
  }

  /** True when `u` names one of the outputs `tx` creates. */
  predicate ProducedBy(tx: Tx, u: UTXO) {
    u.prevTxHash == tx.hash && 0 <= u.index < |tx.outputs|
  }

  /** The pool entries `tx` creates: output `i` under `(tx.hash, i)`. */
  function Produced(tx: Tx): (m: Pool)
    ensures forall u :: u in m <==> ProducedBy(tx, u)
    ensures forall i :: 0 <= i < |tx.outputs| ==> UTXO(tx.hash, i) in m && m[UTXO(tx.hash, i)] == tx.outputs[i]
  {
    map i | 0 <= i < |tx.outputs| :: UTXO(tx.hash, i) := tx.outputs[i]
  }

  /** The claims of the first `i` inputs of `tx`. */
  function ClaimedUpTo(tx: Tx, i: nat): set<UTXO>
    requires i <= |tx.inputs|
  {
    set k | 0 <= k < i :: Claim(tx.inputs[k])
  }

  lemma ClaimedUpToStep(tx: Tx, i: nat)
    requires i < |tx.inputs|
    ensures ClaimedUpTo(tx, i + 1) == ClaimedUpTo(tx, i) + {Claim(tx.inputs[i])}
  {
  }

  lemma ClaimedUpToAll(tx: Tx)
    ensures ClaimedUpTo(tx, |tx.inputs|) == Consumed(tx)
  {
  }
}
