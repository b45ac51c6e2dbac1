/** The `Blockchain` object one node keeps: its chain, its buffer of pending
    transactions and its set of peers, with the operations that change them. */
module Node {
  import opened Ledger
  import opened ProofOfWork
  import opened ChainValidity
  import opened ForkChoice

  class Blockchain {
    /** The hashing and URL-parsing library functions the object calls. */
    const lib: Primitives

    var chain: seq<Block>
    var currentTransactions: seq<Transaction>
    var nodes: set<string>

    /** The object invariant: after construction the chain is never empty, so
        `last_block` is always defined. */
    ghost predicate Valid()
      reads this
    {
      chain != []
    }

    /** `__init__`: no pending transactions, no peers, and a genesis block with
        proof 100 and previous hash 1, sealed at `genesisTime`. */
    constructor (lib: Primitives, genesisTime: real)
      ensures Valid() && this.lib == lib
      ensures chain == [Block(1, genesisTime, [], GenesisProof, GenesisPreviousHash)]
      ensures currentTransactions == [] && nodes == {}
      ensures IndexedFromOne(chain) && IsValidChain(lib, chain)
    {
      this.lib := lib;
      chain := [];
      currentTransactions := [];
      nodes := {};
      new;
      var _ := NewBlock(GenesisProof, Some(GenesisPreviousHash), genesisTime);
    }

    /** `last_block`: the most recently appended block. */
    function LastBlock(): (b: Block)
      reads this
      requires Valid()
      ensures chain == chain[..|chain| - 1] + [b]
    {
      chain[|chain| - 1]
    }

    /** `register_node`: adds the address's network location to the peer set;
        registering a location already present changes nothing. */
    method RegisterNode(address: string)
      requires Valid()
      modifies this`nodes
      ensures Valid()
      ensures nodes == old(nodes) + {lib.netloc(address)}
      ensures lib.netloc(address) in old(nodes) ==> nodes == old(nodes)
    {
      nodes := nodes + {lib.netloc(address)};
    }

    /** `valid_chain`, which indexes `chain[0]` and so needs a non-empty chain. */
    method ValidChain(candidate: seq<Block>) returns (valid: bool)
      requires candidate != []
      ensures valid == IsValidChain(lib, candidate)
    {
      var lastBlock := candidate[0];
      var currentIndex := 1;
      while currentIndex < |candidate|
        invariant 1 <= currentIndex <= |candidate|
        invariant lastBlock == candidate[currentIndex - 1]
        invariant forall i :: 1 <= i < currentIndex ==> Linked(lib, candidate[i - 1], candidate[i])
      {
        var block := candidate[currentIndex];
        if block.previousHash != LinkTo(lib, lastBlock) {
          return false;
        }
        if !ValidProof(lib.sha256Hex, lastBlock.proof, block.proof) {
          return false;
        }
        lastBlock := block;
        currentIndex := currentIndex + 1;
      }
      return true;
    }

    /** `resolve_conflicts`. `peers` is the order in which the peer set is
        iterated and `fetch` is the answer each peer gives to a request for its
        chain. The result is the Python return value, or the exception raised;
        on an exception the chain is left as it was. */
    method ResolveConflicts(peers: seq<string>, fetch: string -> PeerReply) returns (outcome: Result<bool>)
      requires Valid()
      requires |peers| == |nodes| && (set n | n in peers) == nodes
      modifies this`chain
      ensures Valid()
      ensures var s := Scan(lib, old(|chain|), Fetched(peers, fetch));
        && (s.Err? ==> outcome == Err(s.failure) && chain == old(chain))
        && (s.Ok? ==> outcome == Ok(s.value.newChain.Some?))
        && (s.Ok? && s.value.newChain.Some? ==> chain == s.value.newChain.value)
        && (s.Ok? && s.value.newChain.None? ==> chain == old(chain))
    {
      ghost var replies := Fetched(peers, fetch);
      var maxLength := |chain|;
      var newChain: Option<seq<Block>> := None;
      var i := 0;
      while i < |peers|
        invariant 0 <= i <= |peers|
        invariant Scan(lib, |chain|, replies[..i]) == Ok(Candidate(maxLength, newChain))
        invariant newChain.Some? ==> newChain.value != []
        invariant chain == old(chain)
      {
        assert replies[..i + 1][..i] == replies[..i];
        var response := fetch(peers[i]);
        match response
        case ConnectionFailed =>
          RaisedStaysRaised(lib, |chain|, replies, i + 1);
          return Err(ConnectionError);
        case Reply(status, length, peerChain) =>
          if status == 200 && length > maxLength {
            if peerChain == [] {
              RaisedStaysRaised(lib, |chain|, replies, i + 1);
              return Err(IndexError);
            }
            var valid := ValidChain(peerChain);
            if valid {
              maxLength := length;
              newChain := Some(peerChain);
            }
          }
        i := i + 1;
      }
      assert replies[..i] == replies;
      if newChain.Some? {
        chain := newChain.value;
        return Ok(true);
      }
      return Ok(false);
    }

    /** `new_block`: seals the pending transactions into a block with index
        `len(chain) + 1`, appends it and empties the buffer. The previous hash is
        the supplied value when it is truthy and otherwise the hash of the old
        last block (which must then exist). */
    method NewBlock(proof: int, previousHash: Option<PrevHash>, timestamp: real) returns (block: Block)
      requires Truthy(previousHash) || chain != []
      modifies this`chain, this`currentTransactions
      ensures block.index == |old(chain)| + 1
      ensures block.timestamp == timestamp && block.proof == proof
      ensures block.transactions == old(currentTransactions)
      ensures Truthy(previousHash) ==> block.previousHash == previousHash.value
      ensures !Truthy(previousHash) ==> block.previousHash == LinkTo(lib, old(chain)[|old(chain)| - 1])
      ensures !Truthy(previousHash) ==> block == Successor(lib, old(chain), timestamp, old(currentTransactions), proof)
      ensures chain == old(chain) + [block] && currentTransactions == []
      ensures Valid()
      ensures old(IndexedFromOne(chain)) ==> IndexedFromOne(chain)
      ensures (&& old(IsValidChain(lib, chain))
               && !Truthy(previousHash)
               && ValidProof(lib.sha256Hex, old(chain)[|old(chain)| - 1].proof, proof))
        ==> IsValidChain(lib, chain)
    {
      var link := if Truthy(previousHash) then previousHash.value else LinkTo(lib, chain[|chain| - 1]);
      block := Block(|chain| + 1, timestamp, currentTransactions, proof, link);
      if !Truthy(previousHash) && ValidProof(lib.sha256Hex, chain[|chain| - 1].proof, proof) {
        MiningKeepsChainValid(lib, chain, timestamp, currentTransactions, proof);
      }
      currentTransactions := [];
      chain := chain + [block];
    }

    /** `new_transaction`: appends the transfer to the pending buffer and returns
        the index of the block that will hold it. */
    method NewTransaction(sender: string, recipient: string, amount: int) returns (index: int)
      requires Valid()
      modifies this`currentTransactions
      ensures Valid()
      ensures currentTransactions == old(currentTransactions) + [Transaction(sender, recipient, amount)]
      ensures index == LastBlock().index + 1
      ensures IndexedFromOne(chain) ==> index == |chain| + 1
    {
      currentTransactions := currentTransactions + [Transaction(sender, recipient, amount)];
      return LastBlock().index + 1;
    }

    /** `proof_of_work`: the least non-negative proof that solves the puzzle set
        by `lastProof`. The search is unbounded in the source; here it is given
        that some solution exists, which bounds it. */
    method ProofOfWork(lastProof: int) returns (proof: int)
      requires exists q: nat :: ValidProof(lib.sha256Hex, lastProof, q)
      ensures proof >= 0 && ValidProof(lib.sha256Hex, lastProof, proof)
      ensures forall q :: 0 <= q < proof ==> !ValidProof(lib.sha256Hex, lastProof, q)
    {
      ghost var solution: nat :| ValidProof(lib.sha256Hex, lastProof, solution);
      proof := 0;
      while !ValidProof(lib.sha256Hex, lastProof, proof)
        invariant 0 <= proof <= solution
        invariant forall q :: 0 <= q < proof ==> !ValidProof(lib.sha256Hex, lastProof, q)
        decreases solution - proof
      {
        proof := proof + 1;
      }
    }
  }
}
