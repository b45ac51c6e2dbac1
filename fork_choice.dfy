/** The fork-choice rule of `resolve_conflicts`, as a function of the replies the
    peers gave, in the order the peer set was iterated. A candidate replaces the
    best so far only when its peer answered 200, its REPORTED length is strictly
    greater than the best length so far, and its chain passes `valid_chain`. */
module ForkChoice {
  import opened Ledger
  import opened ChainValidity

  /** What `requests.get(f'http://{node}/chain')` produced: a response with its
      status code and decoded `length` and `chain`, or a failed connection (which
      raises out of `resolve_conflicts`). */
  datatype PeerReply = Reply(status: int, length: int, chain: seq<Block>) | ConnectionFailed

  /** The exceptions that escape `resolve_conflicts`. */
  datatype Failure =
    | ConnectionError  // raised by requests.get
    | IndexError       // raised by valid_chain evaluating chain[0] on an empty chain

  datatype Result<+T> = Ok(value: T) | Err(failure: Failure)

  /** The loop state: `max_length` and `new_chain`. */
  datatype Candidate = Candidate(maxLength: int, newChain: Option<seq<Block>>)

  /** A peer answer that `resolve_conflicts` would accept if it were long enough. */
  predicate Eligible(p: Primitives, r: PeerReply) {
    r.Reply? && r.status == 200 && r.chain != [] && IsValidChain(p, r.chain)
  }

  /** One iteration of the loop over peers. */
  function Step(p: Primitives, c: Candidate, r: PeerReply): Result<Candidate> {
    match r
    case ConnectionFailed => Err(ConnectionError)
    case Reply(status, length, chain) =>
      if status == 200 && length > c.maxLength then
        if chain == [] then Err(IndexError)
        else if IsValidChain(p, chain) then Ok(Candidate(length, Some(chain)))
        else Ok(c)
      else Ok(c)
  }

  /** The state after the loop has processed `replies`, starting from the local
      chain's length; an exception stops the loop. */
  function Scan(p: Primitives, localLength: int, replies: seq<PeerReply>): Result<Candidate>
    decreases |replies|
  {
    if replies == [] then Ok(Candidate(localLength, None))
    else
      match Scan(p, localLength, replies[..|replies| - 1])
      case Err(f) => Err(f)
      case Ok(c) => Step(p, c, replies[|replies| - 1])
  }

  /** One iteration, characterised: it raises exactly on a failed connection or
      on a 200 answer with an empty chain whose reported length beats the best so
      far; otherwise it adopts the reply exactly when the reply is eligible and
      reports more than the best so far, and else leaves the candidate alone. */
  lemma StepIff(p: Primitives, c: Candidate, r: PeerReply)
    ensures Step(p, c, r).Err? <==>
      r.ConnectionFailed? || (r.status == 200 && r.length > c.maxLength && r.chain == [])
    ensures Step(p, c, r).Err? && r.ConnectionFailed? ==> Step(p, c, r).failure == ConnectionError
    ensures Step(p, c, r).Err? && r.Reply? ==> Step(p, c, r).failure == IndexError
    ensures Eligible(p, r) && r.length > c.maxLength ==> Step(p, c, r) == Ok(Candidate(r.length, Some(r.chain)))
    ensures Step(p, c, r).Ok? && !(Eligible(p, r) && r.length > c.maxLength) ==> Step(p, c, r) == Ok(c)
    ensures Step(p, c, r).Ok? ==> Step(p, c, r).value.maxLength >= c.maxLength
  {
  }

  /** The replies of `peers`, in order. */
  function Fetched(peers: seq<string>, fetch: string -> PeerReply): (rs: seq<PeerReply>)
  {
    seq(|peers|, i requires 0 <= i < |peers| => fetch(peers[i]))
  }

  /** reply k is the first eligible reply reaching length `m`, and every eligible
      reply before it is shorter. */
  predicate FirstLongest(p: Primitives, replies: seq<PeerReply>, k: int, m: int) {
    && 0 <= k < |replies|
    && Eligible(p, replies[k])
    && replies[k].length == m
    && forall j :: 0 <= j < k && Eligible(p, replies[j]) ==> replies[j].length < m
  }

  /** The fork-choice characterisation. When the scan finishes without an
      exception: the best length is the local length or the longest eligible
      reported length, whichever is larger; a chain is adopted exactly when some
      eligible peer reports more than the local length; and the adopted chain is
      that of the first eligible peer reporting the best length. */
  lemma {:induction false} ScanChoosesFirstLongestValid(p: Primitives, localLength: int, replies: seq<PeerReply>, c: Candidate)
    requires Scan(p, localLength, replies) == Ok(c)
    ensures c.maxLength >= localLength
    ensures forall i :: 0 <= i < |replies| && Eligible(p, replies[i]) ==> replies[i].length <= c.maxLength
    ensures c.newChain.None? ==> c.maxLength == localLength
    ensures c.newChain.Some? ==>
      && c.maxLength > localLength
      && exists k :: FirstLongest(p, replies, k, c.maxLength) && replies[k].chain == c.newChain.value
    decreases |replies|
  {
    if replies != [] {
      var n := |replies| - 1;
      var front, last := replies[..n], replies[n];
      assert forall i :: 0 <= i < n ==> front[i] == replies[i];
      var c0 :| Scan(p, localLength, front) == Ok(c0) && Step(p, c0, last) == Ok(c);
      ScanChoosesFirstLongestValid(p, localLength, front, c0);
      if c != c0 {
        assert FirstLongest(p, replies, n, c.maxLength);
      } else if c.newChain.Some? {
        var k :| FirstLongest(p, front, k, c.maxLength) && front[k].chain == c.newChain.value;
        assert FirstLongest(p, replies, k, c.maxLength);
      }
    }
  }

  /** `resolve_conflicts` returns true exactly when some eligible peer reports a
      length greater than the local chain's. */
  lemma ScanReplacesIff(p: Primitives, localLength: int, replies: seq<PeerReply>, c: Candidate)
    requires Scan(p, localLength, replies) == Ok(c)
    ensures c.newChain.Some? <==>
      exists i :: 0 <= i < |replies| && Eligible(p, replies[i]) && replies[i].length > localLength
  {
    ScanChoosesFirstLongestValid(p, localLength, replies, c);
    if c.newChain.Some? {
      var k :| FirstLongest(p, replies, k, c.maxLength) && replies[k].chain == c.newChain.value;
      assert Eligible(p, replies[k]) && replies[k].length > localLength;
    }
  }

  /** Once the loop has raised, the remaining peers do not matter. */
  lemma {:induction false} RaisedStaysRaised(p: Primitives, localLength: int, replies: seq<PeerReply>, n: nat)
    requires n <= |replies| && Scan(p, localLength, replies[..n]).Err?
    ensures Scan(p, localLength, replies) == Scan(p, localLength, replies[..n])
    decreases |replies| - n
  {
    if n == |replies| {
      assert replies[..n] == replies;
    } else {
      var next := replies[..n + 1];
      assert next[..n] == replies[..n];
      RaisedStaysRaised(p, localLength, replies, n + 1);
    }
  }

  /** The scan raises nothing when every peer answers and every 200 answer carries
      a non-empty chain. */
  lemma {:induction false} ScanSucceedsOnWellFormedReplies(p: Primitives, localLength: int, replies: seq<PeerReply>)
    requires forall i :: 0 <= i < |replies| ==> replies[i].Reply? && (replies[i].status == 200 ==> replies[i].chain != [])
    ensures Scan(p, localLength, replies).Ok?
    decreases |replies|
  {
    if replies != [] {
      var front := replies[..|replies| - 1];
      assert forall i :: 0 <= i < |front| ==> front[i] == replies[i];
      ScanSucceedsOnWellFormedReplies(p, localLength, front);
    }
  }

  /** A peer that cannot be reached makes the whole scan raise. */
  lemma {:induction false} ScanFailsOnUnreachablePeer(p: Primitives, localLength: int, replies: seq<PeerReply>, i: nat)
    requires i < |replies| && replies[i].ConnectionFailed?
    ensures Scan(p, localLength, replies).Err?
    decreases |replies|
  {
    var front := replies[..|replies| - 1];
    if i < |replies| - 1 {
      assert front[i] == replies[i];
      ScanFailsOnUnreachablePeer(p, localLength, front, i);
    }
  }

  /** A 200 answer reporting 5 blocks with a valid chain replaces a 3-block chain. */
  lemma LongerValidChainIsAdopted(p: Primitives, chain: seq<Block>)
    requires chain != [] && IsValidChain(p, chain)
    ensures Scan(p, 3, [Reply(200, 5, chain)]) == Ok(Candidate(5, Some(chain)))
  {
  }

  /** The same answer with an invalid chain is ignored. */
  lemma LongerInvalidChainIsIgnored(p: Primitives, chain: seq<Block>)
    requires chain != [] && !IsValidChain(p, chain)
    ensures Scan(p, 3, [Reply(200, 5, chain)]) == Ok(Candidate(3, None))
  {
  }

  /** When every peer answers with a length no greater than the local one,
      nothing is adopted and nothing is raised, whatever the chains hold. */
  lemma {:induction false} NoLongerPeerKeepsLocalChain(p: Primitives, localLength: int, replies: seq<PeerReply>)
    requires forall i :: 0 <= i < |replies| ==> replies[i].Reply? && replies[i].length <= localLength
    ensures Scan(p, localLength, replies) == Ok(Candidate(localLength, None))
    decreases |replies|
  {
    if replies != [] {
      var front := replies[..|replies| - 1];
      assert forall i :: 0 <= i < |front| ==> front[i] == replies[i];
      NoLongerPeerKeepsLocalChain(p, localLength, front);
    }
  }

  /** The reported length, not the chain's own length, is compared: a peer that
      overstates its length can replace a three-block chain by a one-block one. */
  lemma ReportedLengthIsTrusted(p: Primitives, genesis: Block)
    ensures Scan(p, 3, [Reply(200, 5, [genesis])]) == Ok(Candidate(5, Some([genesis])))
  {
  }
}
