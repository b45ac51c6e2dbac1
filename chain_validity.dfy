/** What `valid_chain` accepts: every block after the first names the hash of its
    predecessor and carries a proof that solves the puzzle set by its
    predecessor's proof. The first block itself is never checked; its hash and
    proof are inputs to the second block's checks. */
module ChainValidity {
  import opened Ledger
  import opened ProofOfWork

  /** `next` may follow `prev`: hash-link continuity and proof-of-work continuity. */
  predicate Linked(p: Primitives, prev: Block, next: Block) {
    && next.previousHash == LinkTo(p, prev)
    && ValidProof(p.sha256Hex, prev.proof, next.proof)
  }

  /** The specification of `valid_chain`. */
  predicate IsValidChain(p: Primitives, chain: seq<Block>) {
    forall i :: 1 <= i < |chain| ==> Linked(p, chain[i - 1], chain[i])
  }

  /** Block indices count from 1: position i holds index i + 1. */
  predicate IndexedFromOne(chain: seq<Block>) {
    forall i :: 0 <= i < |chain| ==> chain[i].index == i + 1
  }

  /** The block `new_block` appends to `chain` when no previous hash is supplied. */
  function Successor(p: Primitives, chain: seq<Block>, timestamp: real, transactions: seq<Transaction>, proof: int): (b: Block)
    requires chain != []
  {
    Block(|chain| + 1, timestamp, transactions, proof, LinkTo(p, chain[|chain| - 1]))
  }

  /** Whatever its contents, a one-block chain is valid: the genesis block is
      accepted unchecked. */
  lemma AnyGenesisIsValid(p: Primitives, genesis: Block)
    ensures IsValidChain(p, [genesis])
  {
  }

  /** Appending a block keeps a chain valid exactly when the block links to the
      old last block. */
  lemma {:induction false} ExtendIff(p: Primitives, chain: seq<Block>, b: Block)
    requires chain != []
    ensures IsValidChain(p, chain + [b]) <==> IsValidChain(p, chain) && Linked(p, chain[|chain| - 1], b)
  {
    var c := chain + [b];
    if IsValidChain(p, c) {
      forall i | 1 <= i < |chain| ensures Linked(p, chain[i - 1], chain[i]) {
        assert c[i - 1] == chain[i - 1] && c[i] == chain[i];
      }
      assert Linked(p, c[|chain| - 1], c[|chain|]);
    }
    if IsValidChain(p, chain) && Linked(p, chain[|chain| - 1], b) {
      forall i | 1 <= i < |c| ensures Linked(p, c[i - 1], c[i]) {
        if i < |chain| {
          assert c[i - 1] == chain[i - 1] && c[i] == chain[i];
        }
      }
    }
  }

  /** Sealing a block the way `/mine` does — no previous hash supplied and a proof
      that solves the last block's puzzle — keeps a valid chain valid and keeps
      indices counting from 1. */
  lemma MiningKeepsChainValid(p: Primitives, chain: seq<Block>, timestamp: real, transactions: seq<Transaction>, proof: int)
    requires chain != []
    requires ValidProof(p.sha256Hex, chain[|chain| - 1].proof, proof)
    ensures IsValidChain(p, chain) ==> IsValidChain(p, chain + [Successor(p, chain, timestamp, transactions, proof)])
    ensures IndexedFromOne(chain) ==> IndexedFromOne(chain + [Successor(p, chain, timestamp, transactions, proof)])
  {
  }

  /** In a valid chain, replacing block i by b gives a valid chain exactly when b
      links to the block before it (if any) and the block after it (if any)
      links to b. */
  lemma ReplaceIff(p: Primitives, chain: seq<Block>, i: nat, b: Block)
    requires IsValidChain(p, chain) && i < |chain|
    ensures IsValidChain(p, chain[i := b]) <==>
      && (i == 0 || Linked(p, chain[i - 1], b))
      && (i == |chain| - 1 || Linked(p, b, chain[i + 1]))
  {
    var c := chain[i := b];
    if IsValidChain(p, c) {
      if i > 0 {
        assert Linked(p, c[i - 1], c[i]);
      }
      if i < |chain| - 1 {
        assert Linked(p, c[i], c[i + 1]);
      }
    }
    if (i == 0 || Linked(p, chain[i - 1], b)) && (i == |chain| - 1 || Linked(p, b, chain[i + 1])) {
      forall j | 1 <= j < |c| ensures Linked(p, c[j - 1], c[j]) {
        if j != i && j - 1 != i {
          assert Linked(p, chain[j - 1], chain[j]);
        }
      }
    }
  }

  /** Tampering with the previous hash of any block but the first is always detected. */
  lemma TamperedPreviousHashIsRejected(p: Primitives, chain: seq<Block>, i: nat, h: PrevHash)
    requires IsValidChain(p, chain) && 1 <= i < |chain| && h != chain[i].previousHash
    ensures !IsValidChain(p, chain[i := chain[i].(previousHash := h)])
  {
    ReplaceIff(p, chain, i, chain[i].(previousHash := h));
  }

  /** Tampering with the proof of block i goes undetected exactly when the new
      proof still solves the puzzle of the block before it, and — unless the block
      is the last one — the block's hash is unchanged and the next proof still
      solves the new one's puzzle. */
  lemma TamperedProofVerdict(p: Primitives, chain: seq<Block>, i: nat, q: int)
    requires IsValidChain(p, chain) && i < |chain|
    ensures var t := chain[i].(proof := q);
      IsValidChain(p, chain[i := t]) <==>
      && (i == 0 || ValidProof(p.sha256Hex, chain[i - 1].proof, q))
      && (i == |chain| - 1 || (p.hashBlock(t) == p.hashBlock(chain[i]) && ValidProof(p.sha256Hex, q, chain[i + 1].proof)))
  {
    var t := chain[i].(proof := q);
    ReplaceIff(p, chain, i, t);
    if i < |chain| - 1 {
      assert Linked(p, chain[i], chain[i + 1]);
    }
  }
}
