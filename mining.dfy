/** How the HTTP layer drives the object: the call sequence of the `/mine`
    route, and a node's first round (start, submit one transaction, mine). */
module Mining {
  import opened Ledger
  import opened ProofOfWork
  import opened ChainValidity
  import Node

  /** The mining reward: one unit from the sentinel sender "0". */
  const RewardSender: string := "0"
  const RewardAmount: int := 1

  /** `/mine`: solve the last block's puzzle, queue the reward for this node and
      seal the block with no previous hash supplied, so that it links to the old
      last block. A valid chain stays valid and indices keep counting from 1. */
  method Mine(bc: Node.Blockchain, nodeIdentifier: string, timestamp: real) returns (block: Block)
    requires bc.Valid()
    requires exists q: nat :: ValidProof(bc.lib.sha256Hex, bc.LastBlock().proof, q)
    modifies bc
    ensures bc.Valid()
    ensures bc.chain == old(bc.chain) + [block]
    ensures block.index == |old(bc.chain)| + 1
    ensures block.transactions == old(bc.currentTransactions) + [Transaction(RewardSender, nodeIdentifier, RewardAmount)]
    ensures block.previousHash == LinkTo(bc.lib, old(bc.LastBlock()))
    ensures ValidProof(bc.lib.sha256Hex, old(bc.LastBlock()).proof, block.proof)
    ensures forall q :: 0 <= q < block.proof ==> !ValidProof(bc.lib.sha256Hex, old(bc.LastBlock()).proof, q)
    ensures bc.currentTransactions == [] && bc.nodes == old(bc.nodes)
    ensures old(IsValidChain(bc.lib, bc.chain)) ==> IsValidChain(bc.lib, bc.chain)
    ensures old(IndexedFromOne(bc.chain)) ==> IndexedFromOne(bc.chain)
  {
    var lastBlock := bc.LastBlock();
    var proof := bc.ProofOfWork(lastBlock.proof);
    var _ := bc.NewTransaction(RewardSender, nodeIdentifier, RewardAmount);
    block := bc.NewBlock(proof, None, timestamp);
  }

  /** A fresh node that accepts one transaction and then mines holds two blocks:
      the second has index 2, holds the transaction followed by the reward, and
      names the hash of the genesis block. */
  method FirstRound(lib: Primitives, genesisTime: real, tx: Transaction, nodeIdentifier: string, mineTime: real)
    returns (bc: Node.Blockchain)
    requires exists q: nat :: ValidProof(lib.sha256Hex, GenesisProof, q)
    ensures |bc.chain| == 2 && bc.chain[1].index == 2
    ensures bc.chain[1].transactions == [tx, Transaction(RewardSender, nodeIdentifier, RewardAmount)]
    ensures bc.chain[1].previousHash == LinkTo(lib, bc.chain[0])
    ensures IsValidChain(lib, bc.chain) && IndexedFromOne(bc.chain)
    ensures bc.currentTransactions == []
  {
    bc := new Node.Blockchain(lib, genesisTime);
    var index := bc.NewTransaction(tx.sender, tx.recipient, tx.amount);
    assert index == 2;
    var _ := Mine(bc, nodeIdentifier, mineTime);
  }
}
