# A verified model of the `Blockchain` class of blockchain_py

blockchain_py is a toy proof-of-work ledger node. Its `Blockchain` class keeps
an append-only chain of blocks and a buffer of pending transactions. It mines by
searching for a proof that solves a hash puzzle posed by the previous proof. It
checks chains received from peers and adopts the longest valid one.

This project models that class in Dafny and proves what it promises.

- `ledger.dfy` (module `Ledger`): transactions, blocks, the `previous_hash`
  field (a hex digest, or the integer sentinel 1 in the genesis block), Python
  truthiness of `new_block`'s optional argument, and the library primitives the
  class calls.
- `proof_of_work.dfy` (module `ProofOfWork`): `valid_proof`. It hashes the
  decimal texts of the two proofs written back to back and asks for four leading
  `'0'` characters. Python's `str()` of an integer is modelled, and
  reading its digits back gives the number.
- `chain_validity.dfy` (module `ChainValidity`): the predicate `valid_chain`
  decides, and what it catches and misses.
- `fork_choice.dfy` (module `ForkChoice`): the `resolve_conflicts` loop as a
  fold over the peers' replies, and a characterisation of the chain it picks.
- `node.dfy` (module `Node`): the class itself, with fields `chain`,
  `currentTransactions` and `nodes`, methods with loops where the source has
  loops, and a `Valid()` invariant: the chain is never empty.
- `mining.dfy` (module `Mining`): the call sequence of the `/mine` route, and a
  node's first round.

The class takes SHA-256-over-JSON, SHA-256-over-text and `urlparse(...).netloc`
as function-valued parameters (`Ledger.Primitives`). Every theorem therefore
holds for any hash function, and nothing relies on collision resistance.

## Behaviour worth knowing

- `resolve_conflicts` does not guard `requests.get` (blockchain.py:71). One
  unreachable peer makes the whole call raise, and the chain stays as it was
  (`ForkChoice.ScanFailsOnUnreachablePeer`, `ForkChoice.RaisedStaysRaised`).
- `valid_chain` reads `chain[0]` (blockchain.py:44). A peer that answers 200
  with an empty chain and a reported length above the best so far makes it raise
  `IndexError`, modelled as `Err(IndexError)` (`Node.Blockchain.ResolveConflicts`).
- The test at blockchain.py:77 compares the peer's own `length` field, never
  `len(chain)`. A peer reporting 5 blocks and sending one valid block replaces a
  3-block local chain (`ForkChoice.ReportedLengthIsTrusted`).
- The checks at blockchain.py:51-55 start at the second block, so the first
  block itself is never checked (`ChainValidity.AnyGenesisIsValid`). Its hash
  and proof are still inputs to the second block's checks (blockchain.py:51,
  54). A changed previous hash at any later position is always rejected
  (`ChainValidity.TamperedPreviousHashIsRejected`). A changed proof is rejected
  except under the exact condition `ChainValidity.TamperedProofVerdict` states.

## Model

| member | source | states |
|---|---|---|
| `ProofOfWork.NatText` | blockchain.py:132 | The decimal text of a natural number is non-empty, all digits, and starts with '0' only for 0 |
| `ProofOfWork.IntText` | blockchain.py:132 | The f-string text of an integer starts with '-' exactly when the integer is negative |
| `ProofOfWork.ValidProofIff` | blockchain.py:130-134 | A proof passes valid_proof exactly when the hash of the two decimal texts written together is "0000" followed by anything; a digest shorter than four characters never passes |
| `ProofOfWork.NatTextRoundTrip` | blockchain.py:132 | Reading the decimal digits back gives the original number |
| `ProofOfWork.ConcatenatedGuessIsAmbiguous` | blockchain.py:130-134 | The guess has no separator, so (1, 23) and (12, 3) get the same verdict under any hash |
| `Ledger.TruthyIff` | blockchain.py:94 | The `or` keeps the supplied previous hash exactly when it is present and is neither the empty string nor 0; the genesis sentinel 1 is kept |
| `ChainValidity.AnyGenesisIsValid` | blockchain.py:44-48 | A one-block chain is valid whatever its block holds: the first block itself is never checked |
| `ChainValidity.ExtendIff` | blockchain.py:48-58 | Appending a block keeps a chain valid if and only if the chain was valid and the block links to the old last block |
| `ChainValidity.MiningKeepsChainValid` | blockchain.py:88-98 | A block sealed with no supplied previous hash and a proof solving the last block's puzzle keeps a valid chain valid and indices equal to position + 1 |
| `ChainValidity.ReplaceIff` | blockchain.py:48-58 | Replacing one block of a valid chain keeps it valid if and only if the new block links to its neighbours on both sides |
| `ChainValidity.TamperedPreviousHashIsRejected` | blockchain.py:51-52 | Changing the previous hash of any block after the first makes a valid chain invalid |
| `ChainValidity.TamperedProofVerdict` | blockchain.py:51-55 | Changing one block's proof goes undetected if and only if the new proof passes valid_proof after the previous block's proof, and (unless it is the last block) the block's hash is unchanged and the next proof passes valid_proof after the new proof |
| `ForkChoice.StepIff` | blockchain.py:70-79 | One pass of the loop raises exactly on a failed connection or on a 200 answer with an empty chain reporting more than the best length; otherwise it adopts the reply exactly when it answered 200 with a valid non-empty chain reporting more than the best length, and never lowers the best length |
| `ForkChoice.ScanChoosesFirstLongestValid` | blockchain.py:64-85 | If no exception is raised, the best length is the maximum of the local length and every eligible reported length. A chain is adopted only above the local length. The adopted chain belongs to the first eligible peer that reports the best length |
| `ForkChoice.ScanReplacesIff` | blockchain.py:77-85 | If no exception is raised, the result is true if and only if some peer answering 200 with a non-empty valid chain reports more blocks than the local chain |
| `ForkChoice.RaisedStaysRaised` | blockchain.py:70-77 | Once a peer's reply raises, the result is that exception whatever the remaining peers answer |
| `ForkChoice.ScanSucceedsOnWellFormedReplies` | blockchain.py:70-79 | Nothing is raised when every peer answers and every 200 answer carries a non-empty chain |
| `ForkChoice.ScanFailsOnUnreachablePeer` | blockchain.py:71 | One unreachable peer makes the whole resolution raise |
| `ForkChoice.LongerValidChainIsAdopted` | blockchain.py:77-83 | A valid chain reported as 5 blocks replaces a 3-block local chain |
| `ForkChoice.LongerInvalidChainIsIgnored` | blockchain.py:77-85 | An invalid chain reported as 5 blocks leaves a 3-block local chain |
| `ForkChoice.NoLongerPeerKeepsLocalChain` | blockchain.py:77-85 | When every peer answers with a length no greater than the local one, nothing is adopted and nothing is raised, whatever the chains hold |
| `ForkChoice.ReportedLengthIsTrusted` | blockchain.py:74-79 | A peer reporting 5 blocks while sending one genesis block replaces a 3-block chain |
| `Node.Blockchain.constructor` | blockchain.py:27-33 | The new object has no pending transactions and no peers. Its chain is a single genesis block with index 1, proof 100 and previous hash 1, and that chain is valid |
| `Node.Blockchain.LastBlock` | blockchain.py:118-120 | The result is the block that was appended last |
| `Node.Blockchain.RegisterNode` | blockchain.py:35-39 | The peer set gains exactly the address's network location; registering a location already present changes nothing; the invariant is kept |
| `Node.Blockchain.ValidChain` | blockchain.py:41-60 | The loop's verdict equals IsValidChain: every block after the first names its predecessor's hash and solves its predecessor's puzzle |
| `Node.Blockchain.ResolveConflicts` | blockchain.py:64-85 | The outcome and the new chain are those of the fold over the peers' replies. On an exception the chain is unchanged, and the chain is never empty afterwards |
| `Node.Blockchain.NewBlock` | blockchain.py:88-99 | Exactly one block is appended, with index len + 1, the pending transactions in order, the given proof, and the supplied previous hash if truthy, else the old last block's hash (then the block is `ChainValidity.Successor` of the old chain). Pending becomes empty. Indices from 1 and (on the mining path) validity are preserved |
| `Node.Blockchain.NewTransaction` | blockchain.py:101-110 | Exactly one transaction is appended to pending, the chain is unchanged and the invariant is kept. The result is the last block's index + 1, which is len(chain) + 1 when indices count from 1 |
| `Node.Blockchain.ProofOfWork` | blockchain.py:122-127 | The result is the least non-negative proof that passes valid_proof after the given proof |
| `Mining.Mine` | blockchain.py:164-175 | The sealed block holds the pending transactions followed by the reward ("0" to the node, amount 1). It links to the old last block and carries the least solving proof. Pending is emptied and the peers are unchanged. Validity and indexing are preserved |
| `Mining.FirstRound` | blockchain.py:27-175 | Start, submit one transaction and mine: two blocks, the second with index 2, holding [transaction, reward], linked to the genesis block's hash, and the chain is valid |

## Left out

- SHA-256, `json.dumps(sort_keys=True)` and `.hexdigest()` (blockchain.py:115-116, 132-133) are library calls. They are uninterpreted parameters (`hashBlock`, `sha256Hex`). Collision resistance is not modelled.
- `urlparse` (blockchain.py:38) is the uninterpreted parameter `netloc`. In Python a bare `host:port` address has an empty network location. The model neither shows nor contradicts that.
- `time()` (blockchain.py:91) is a clock read. The timestamp is a parameter of `NewBlock` and of the constructor.
- `requests.get` and `response.json()` (blockchain.py:71-75) are network I/O. Each peer's reply is the value of a `fetch` function. Malformed JSON (`ValueError`) and missing keys (`KeyError`) are not modelled. Nor is a `length` that is not an integer: a string or `None` raises `TypeError` at the comparison on line 77, and a float is compared like a number and can become `max_length`. In the model `length` is an `int`.
- Set iteration order (blockchain.py:70) is unspecified in Python. It is the caller-given listing `peers`.
- Field types are fixed: `amount`, `index` and `proof` are integers, `sender` and `recipient` are strings, `timestamp` is a real, `transactions` is a list of transactions, and `previous_hash` is a digest string or an integer. Python accepts any JSON value there, including floats for `amount`.
- Node.Blockchain.ProofOfWork: requires that some solution exists. This bounds the search, which the source leaves unbounded. `print(proof)` is left out.
- Node.Blockchain.ValidChain: requires a non-empty chain, where Python raises `IndexError`. `ResolveConflicts` models that exception as `Err(IndexError)`.
- Node.Blockchain.NewBlock and Node.Blockchain.LastBlock: require a non-empty chain (for `new_block`, unless the supplied previous hash is truthy), where Python raises `IndexError` on `self.chain[-1]` (blockchain.py:94, 120). No reachable behaviour is lost: `__init__` passes the truthy value 1 (blockchain.py:33), and afterwards the chain is never empty.
- List aliasing: `new_block` stores the pending list object itself and then rebinds the field to a fresh list, so sharing is never visible. The model uses values.
- The Flask routes, the argparse/`app.run` entry point, the `uuid4` node identifier (a parameter of `Mine`) and concurrency between HTTP handlers are HTTP, CLI and process plumbing and are out of scope.
