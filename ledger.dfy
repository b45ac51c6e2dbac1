/** The values a node stores and exchanges with its peers — transactions and
    blocks — and the library primitives the node delegates to (hashing and URL
    parsing), which the model leaves uninterpreted. */
module Ledger {

  datatype Option<+T> = None | Some(value: T)

  /** A transfer queued by `new_transaction`; no field is validated. */
  datatype Transaction = Transaction(sender: string, recipient: string, amount: int)

  /** The `previous_hash` field of a block. Blocks sealed after the genesis block
      carry a hex digest of their predecessor; the genesis block carries the
      integer sentinel 1, which is not a string at all. */
  datatype PrevHash = Digest(hex: string) | Number(n: int)

  /** A block as `new_block` builds it. The timestamp is whatever the clock
      returned when the block was sealed. */
  datatype Block = Block(
    index: int,
    timestamp: real,
    transactions: seq<Transaction>,
    proof: int,
    previousHash: PrevHash)

  /** The library functions the node calls, as uninterpreted functions:
      - hashBlock: the SHA-256 hex digest of the block's key-sorted JSON text
        (the static method `hash`);
      - sha256Hex: the SHA-256 hex digest of a text (used by `valid_proof`);
      - netloc: the network-location part of an address as `urlparse` finds it. */
  datatype Primitives = Primitives(
    hashBlock: Block -> string,
    sha256Hex: string -> string,
    netloc: string -> string)

  /** The value a block stores as `previous_hash` when it follows `b`. */
  function LinkTo(p: Primitives, b: Block): PrevHash {
    Digest(p.hashBlock(b))
  }

  /** Python truthiness of the optional `previous_hash` argument of `new_block`:
      None, the empty string and the number 0 are false. */
  predicate Truthy(h: Option<PrevHash>) {
    match h
    case None => false
    case Some(Digest(s)) => s != ""
    case Some(Number(n)) => n != 0
  }

  /** The argument is truthy exactly when it is present and is neither the
      empty digest text nor the number 0; the genesis sentinel is truthy. */
  lemma TruthyIff(h: Option<PrevHash>)
    ensures Truthy(h) <==> h.Some? && h.value != Digest("") && h.value != Number(0)
    ensures Truthy(Some(GenesisPreviousHash))
  {
  }

  /** The genesis block's proof and previous-hash sentinel. */
  const GenesisProof: int := 100
  const GenesisPreviousHash: PrevHash := Number(1)
}
