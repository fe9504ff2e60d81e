/**
 * The BFT round bookkeeping of rhc/src/consensus.rs.
 *
 * Each async handler is one sequential update of a node's state. Outgoing
 * messages are appended to `outbox`, the model of the unbounded channel.
 * A send fails once the receiver is dropped; the model assumes the receiver
 * stays alive, so every send succeeds. Signing, hashing and BLS aggregation are not
 * modelled: the node's own share for a round is the parameter `ownShare`, the
 * library's aggregation answer is `aggregation`, and the decoding complaint
 * for a received share is `decodeError`. The timestamps messages carry are
 * left out. Rounds are unbounded naturals (the source's `u64`).
 */
module RhcConsensus {
  import opened Wrappers
  import opened RhcBase
  import opened RhcCrypto

  /** `ConsensusProposal`, less its timestamp. */
  datatype Proposal = Proposal(round: nat, value: seq<Byte>, proposer: NodeId)

  /** `ThresholdShare`, less its timestamp. */
  datatype Share = Share(round: nat, nodeId: NodeId, share: Signature)

  /** `CommitProof`, less its timestamp. */
  datatype CommitProof = CommitProof(round: nat, value: seq<Byte>, aggregatedSignature: Signature, signers: seq<NodeId>)

  /** The consensus variants of `Message`. */
  datatype Message = Propose(proposal: Proposal) | ThresholdShare(share: Share) | Commit(commit: CommitProof)

  /** The state of one `BftConsensus`: the round counter, the three per-round maps and the messages sent. */
  datatype Node = Node(
    round: nat,
    proposals: map<nat, Proposal>,
    shares: map<nat, Shares>,
    commits: map<nat, CommitProof>,
    outbox: seq<Message>)

  const Fresh := Node(0, map[], map[], map[], [])

  function Max(a: nat, b: nat): nat { if a >= b then a else b }

  /** The minimum threshold the constructor demands: 2f+1 as ⌊2n/3⌋+1. */
  function MinThreshold(totalNodes: nat): nat
  {
    totalNodes * 2 / 3 + 1
  }

  /** The aggregator of a round, created empty on first use. */
  function SharesOf(s: Node, round: nat): Shares
  {
    if round in s.shares then s.shares[round] else map[]
  }

  /** `try_aggregate(round)`. */
  function TryAggregateStep(s: Node, threshold: nat, round: nat, aggregation: AggregationOutcome): (Result<(), Error>, Node)
  {
    if round !in s.shares then (Err(Other("No shares for round")), s)
    else if !ThresholdReached(s.shares[round], threshold) then (Ok(()), s)
    else if round in s.commits then (Ok(()), s)
    else if round !in s.proposals then (Err(Other("Proposal not found")), s)
    else
      var signature := AggregateOutcome(s.shares[round], threshold, aggregation);
      if signature.Err? then (Err(signature.error), s)
      else
        var c := CommitProof(round, s.proposals[round].value, signature.value, []);
        (Ok(()), s.(commits := s.commits[round := c], outbox := s.outbox + [Commit(c)], round := Max(s.round, round)))
  }

  /** `sign_proposal(round)`: record and send this node's share, then try to aggregate. */
  function SignStep(s: Node, nodeId: NodeId, threshold: nat, round: nat, ownShare: seq<Byte>, aggregation: AggregationOutcome): (Result<(), Error>, Node)
  {
    if round !in s.proposals then (Err(Other("Proposal not found")), s)
    else
      var share := Share(round, nodeId, Bls(ownShare));
      var s1 := s.(shares := s.shares[round := AddShareOutcome(SharesOf(s, round), nodeId, share.share, None).1],
                   outbox := s.outbox + [ThresholdShare(share)]);
      TryAggregateStep(s1, threshold, round, aggregation)
  }

  /** `propose(value)`: open the next round with this node's proposal, send it and sign it. */
  function ProposeStep(s: Node, nodeId: NodeId, threshold: nat, value: seq<Byte>, ownShare: seq<Byte>, aggregation: AggregationOutcome): (Result<(), Error>, Node)
  {
    var round := s.round + 1;
    var p := Proposal(round, value, nodeId);
    var s1 := s.(round := round, proposals := s.proposals[round := p], outbox := s.outbox + [Propose(p)]);
    SignStep(s1, nodeId, threshold, round, ownShare, aggregation)
  }

  /** `handle_proposal(proposal)`: ignore rounds not above the current one, else store and sign. */
  function HandleProposalStep(s: Node, nodeId: NodeId, threshold: nat, p: Proposal, ownShare: seq<Byte>, aggregation: AggregationOutcome): (Result<(), Error>, Node)
  {
    if p.round <= s.round then (Ok(()), s)
    else SignStep(s.(proposals := s.proposals[p.round := p]), nodeId, threshold, p.round, ownShare, aggregation)
  }

  /**
   * `handle_share(share)`: ignore shares for rounds without a proposal; the
   * round's aggregator is created before the share is checked, so it exists
   * even when the share is refused.
   */
  function HandleShareStep(s: Node, threshold: nat, sh: Share, decodeError: Option<string>, aggregation: AggregationOutcome): (Result<(), Error>, Node)
  {
    if sh.round !in s.proposals then (Ok(()), s)
    else
      var (r, updated) := AddShareOutcome(SharesOf(s, sh.round), sh.nodeId, sh.share, decodeError);
      var s1 := s.(shares := s.shares[sh.round := updated]);
      if r.Err? then (r, s1)
      else TryAggregateStep(s1, threshold, sh.round, aggregation)
  }

  /** `handle_commit(commit)`: store the commit, unchecked, and raise the round to it. */
  function HandleCommitStep(s: Node, c: CommitProof): Node
  {
    s.(commits := s.commits[c.round := c], round := Max(s.round, c.round))
  }

  /** `get_committed_value(round)`. */
  function CommittedValue(s: Node, round: nat): Option<seq<Byte>>
  {
    if round in s.commits then Some(s.commits[round].value) else None
  }

  /** `s'` keeps every commit of `s` as it was. */
  predicate KeepsCommits(s: Node, s': Node)
  {
    forall r :: r in s.commits ==> r in s'.commits && s'.commits[r] == s.commits[r]
  }

  /**
   * `try_aggregate` is a no-op below the threshold or once the round is
   * committed. Otherwise, with the proposal stored and the signature
   * aggregated, it stores one commit carrying the proposal's value, sends
   * exactly that commit, and raises the round to it. It never changes an
   * existing commit and never lowers the round.
   */
  lemma TryAggregateEffect(s: Node, threshold: nat, round: nat, aggregation: AggregationOutcome)
    ensures var (r, s') := TryAggregateStep(s, threshold, round, aggregation);
            (round in s.shares && (!ThresholdReached(s.shares[round], threshold) || round in s.commits) ==> r.Ok? && s' == s) &&
            (r.Err? ==> s' == s) &&
            KeepsCommits(s, s') && s'.round >= s.round &&
            (s' != s ==>
               round !in s.commits && round in s.proposals && round in s.shares &&
               ThresholdReached(s.shares[round], threshold) && aggregation.Aggregated? &&
               s'.commits == s.commits[round := CommitProof(round, s.proposals[round].value, Bls(aggregation.bytes), [])] &&
               s'.outbox == s.outbox + [Commit(s'.commits[round])] &&
               s'.round == Max(s.round, round) &&
               s'.proposals == s.proposals && s'.shares == s.shares)
    ensures var (r, s') := TryAggregateStep(s, threshold, round, aggregation);
            round in s.shares && ThresholdReached(s.shares[round], threshold) && round !in s.commits &&
            round in s.proposals && aggregation.Aggregated? ==>
              r.Ok? && CommittedValue(s', round) == Some(s.proposals[round].value)
  {
    if round in s.shares && ThresholdReached(s.shares[round], threshold) {
      AggregateGuard(s.shares[round], threshold, aggregation);
    }
  }

  /**
   * `sign_proposal` sends this node's share for the round and records it in
   * the round's aggregator; it keeps every commit and never lowers the round.
   */
  lemma SignEffect(s: Node, nodeId: NodeId, threshold: nat, round: nat, ownShare: seq<Byte>, aggregation: AggregationOutcome)
    ensures var (r, s') := SignStep(s, nodeId, threshold, round, ownShare, aggregation);
            KeepsCommits(s, s') && s'.round >= s.round && s'.proposals == s.proposals &&
            (round !in s.proposals ==> r == Err(Other("Proposal not found")) && s' == s) &&
            (round in s.proposals ==>
               round in s'.shares && nodeId in s'.shares[round] &&
               |s'.outbox| >= |s.outbox| + 1 && s'.outbox[..|s.outbox| + 1] == s.outbox + [ThresholdShare(Share(round, nodeId, Bls(ownShare)))])
  {
    if round in s.proposals {
      var share := Share(round, nodeId, Bls(ownShare));
      var s1 := s.(shares := s.shares[round := AddShareOutcome(SharesOf(s, round), nodeId, share.share, None).1],
                   outbox := s.outbox + [ThresholdShare(share)]);
      TryAggregateEffect(s1, threshold, round, aggregation);
      var s' := TryAggregateStep(s1, threshold, round, aggregation).1;
      assert s'.outbox[..|s.outbox| + 1] == s1.outbox by {
        assert s'.outbox == s1.outbox || exists m :: s'.outbox == s1.outbox + [m];
      }
    }
  }

  /**
   * `propose` raises the round by exactly one, stores this node's proposal
   * under it, sends the proposal and then this node's share, and keeps every
   * earlier commit.
   */
  lemma ProposeEffect(s: Node, nodeId: NodeId, threshold: nat, value: seq<Byte>, ownShare: seq<Byte>, aggregation: AggregationOutcome)
    ensures var (r, s') := ProposeStep(s, nodeId, threshold, value, ownShare, aggregation);
            var p := Proposal(s.round + 1, value, nodeId);
            s'.round == s.round + 1 && s'.proposals == s.proposals[s.round + 1 := p] &&
            KeepsCommits(s, s') &&
            |s'.outbox| >= |s.outbox| + 2 &&
            s'.outbox[..|s.outbox| + 2] == s.outbox + [Propose(p), ThresholdShare(Share(s.round + 1, nodeId, Bls(ownShare)))]
  {
    var round := s.round + 1;
    var p := Proposal(round, value, nodeId);
    var s1 := s.(round := round, proposals := s.proposals[round := p], outbox := s.outbox + [Propose(p)]);
    var sh := ThresholdShare(Share(round, nodeId, Bls(ownShare)));
    assert ProposeStep(s, nodeId, threshold, value, ownShare, aggregation) == SignStep(s1, nodeId, threshold, round, ownShare, aggregation);
    SignEffect(s1, nodeId, threshold, round, ownShare, aggregation);
    assert |s1.outbox| + 1 == |s.outbox| + 2 && s1.outbox + [sh] == s.outbox + [Propose(p), sh];
  }

  /**
   * A proposal for a round not above the current one is ignored; a later one
   * is stored and signed. Either way no commit changes and the round does not
   * go down.
   */
  lemma HandleProposalEffect(s: Node, nodeId: NodeId, threshold: nat, p: Proposal, ownShare: seq<Byte>, aggregation: AggregationOutcome)
    ensures var (r, s') := HandleProposalStep(s, nodeId, threshold, p, ownShare, aggregation);
            (p.round <= s.round ==> r.Ok? && s' == s) &&
            (p.round > s.round ==> s'.proposals == s.proposals[p.round := p] && p.round in s'.shares && nodeId in s'.shares[p.round]) &&
            KeepsCommits(s, s') && s'.round >= s.round
  {
    if p.round > s.round {
      SignEffect(s.(proposals := s.proposals[p.round := p]), nodeId, threshold, p.round, ownShare, aggregation);
    }
  }

  /**
   * A share for a round without a proposal is ignored. A refused share
   * changes nothing but the creation of the round's aggregator. No commit
   * changes and the round does not go down.
   */
  lemma HandleShareEffect(s: Node, threshold: nat, sh: Share, decodeError: Option<string>, aggregation: AggregationOutcome)
    ensures var (r, s') := HandleShareStep(s, threshold, sh, decodeError, aggregation);
            (sh.round !in s.proposals ==> r.Ok? && s' == s) &&
            (sh.round in s.proposals && (!sh.share.Bls? || decodeError.Some?) ==>
               r.Err? && r.error.Crypto? && s' == s.(shares := s.shares[sh.round := SharesOf(s, sh.round)])) &&
            (sh.round in s.proposals && sh.share.Bls? && decodeError.None? ==>
               sh.round in s'.shares && sh.nodeId in s'.shares[sh.round]) &&
            KeepsCommits(s, s') && s'.round >= s.round
  {
    if sh.round in s.proposals {
      AddShareEffect(SharesOf(s, sh.round), sh.nodeId, sh.share, decodeError);
      var (r, updated) := AddShareOutcome(SharesOf(s, sh.round), sh.nodeId, sh.share, decodeError);
      TryAggregateEffect(s.(shares := s.shares[sh.round := updated]), threshold, sh.round, aggregation);
    }
  }

  /**
   * `handle_commit` stores any commit it is given, replacing what was stored
   * for that round, and never lowers the round.
   */
  lemma HandleCommitEffect(s: Node, c: CommitProof)
    ensures CommittedValue(HandleCommitStep(s, c), c.round) == Some(c.value)
    ensures HandleCommitStep(s, c).round == Max(s.round, c.round) >= s.round
    ensures forall r :: r != c.round ==> CommittedValue(HandleCommitStep(s, c), r) == CommittedValue(s, r)
  {
  }

  /** Two share messages in a row, as one node handles them. */
  function HandleTwoShares(s: Node, threshold: nat, a: Share, b: Share, aggregation: AggregationOutcome): Node
  {
    HandleShareStep(HandleShareStep(s, threshold, a, None, aggregation).1, threshold, b, None, aggregation).1
  }

  /** A first proposal from a fresh node, below a threshold of 2 or more, holds only its own share. */
  lemma FirstProposal(nodeId: NodeId, threshold: nat, value: seq<Byte>, ownShare: seq<Byte>, aggregation: AggregationOutcome)
    requires threshold >= 2
    ensures var n := ProposeStep(Fresh, nodeId, threshold, value, ownShare, aggregation).1;
            n.proposals == map[1 := Proposal(1, value, nodeId)] && n.shares == map[1 := map[nodeId := ownShare]] && n.commits == map[]
  {
  }

  /**
   * Two further shares from two other nodes reach a threshold of 3 and commit
   * the stored proposal's value, whichever value those nodes signed.
   */
  lemma TwoSharesCommit(n: Node, a: NodeId, sa: seq<Byte>, b: Share, c: Share, value: seq<Byte>, agg: seq<Byte>)
    requires n.proposals == map[1 := Proposal(1, value, a)] && n.shares == map[1 := map[a := sa]] && n.commits == map[]
    requires b.round == 1 && c.round == 1 && b.share.Bls? && c.share.Bls?
    requires a != b.nodeId && b.nodeId != c.nodeId && a != c.nodeId
    ensures CommittedValue(HandleTwoShares(n, 3, b, c, Aggregated(agg)), 1) == Some(value)
  {
    var m := HandleShareStep(n, 3, b, None, Aggregated(agg)).1;
    assert m.shares[1] == map[a := sa, b.nodeId := b.share.bytes] && m.commits == map[] && m.proposals == n.proposals;
    var all := map[a := sa, b.nodeId := b.share.bytes, c.nodeId := c.share.bytes];
    assert |all| == 3;
    TryAggregateEffect(m.(shares := m.shares[1 := all]), 3, 1, Aggregated(agg));
  }

  /**
   * The agreement the tests of rhc/tests/formal_verification.rs expect fails
   * as written. With four nodes and threshold 3, node 1 proposes X and node 2
   * proposes Y, both for round 1; node 3 receives only X and signs it. Node 1
   * then counts the shares of nodes 2 and 3 and commits X, while node 2
   * counts the shares of nodes 1 and 3 and commits Y: shares are collected
   * per round, whatever value they were made for, and no node misbehaved.
   */
  lemma RoundKeyedSharesConflict(x: seq<Byte>, y: seq<Byte>, s1: seq<Byte>, s2: seq<Byte>, s3: seq<Byte>, agg: seq<Byte>)
    requires x != y
    ensures var a := Aggregated(agg);
            var n1 := ProposeStep(Fresh, 1, 3, x, s1, a).1;
            var n2 := ProposeStep(Fresh, 2, 3, y, s2, a).1;
            var n3 := HandleProposalStep(Fresh, 3, 3, Proposal(1, x, 1), s3, a).1;
            var share1, share2, share3 := Share(1, 1, Bls(s1)), Share(1, 2, Bls(s2)), Share(1, 3, Bls(s3));
            MinThreshold(4) == 3 &&
            n3.outbox == [ThresholdShare(share3)] &&
            CommittedValue(HandleTwoShares(n1, 3, share2, share3, a), 1) == Some(x) &&
            CommittedValue(HandleTwoShares(n2, 3, share1, share3, a), 1) == Some(y)
  {
    var a := Aggregated(agg);
    FirstProposal(1, 3, x, s1, a);
    FirstProposal(2, 3, y, s2, a);
    TwoSharesCommit(ProposeStep(Fresh, 1, 3, x, s1, a).1, 1, s1, Share(1, 2, Bls(s2)), Share(1, 3, Bls(s3)), x, agg);
    TwoSharesCommit(ProposeStep(Fresh, 2, 3, y, s2, a).1, 2, s2, Share(1, 1, Bls(s1)), Share(1, 3, Bls(s3)), y, agg);
  }

  /**
   * The corrected rule: shares are collected per round and value, and a node
   * commits a value only with threshold-many shares for exactly that value.
   * `signed[h]` is the set of (round, value) pairs node h made a share for.
   */
  ghost predicate Justified(signed: map<NodeId, set<(nat, seq<Byte>)>>, signers: set<NodeId>, threshold: nat, round: nat, value: seq<Byte>)
  {
    |signers| >= threshold && forall h :: h in signers ==> h in signed && (round, value) in signed[h]
  }

  /** An honest node makes shares for at most one value per round. */
  ghost predicate SignsOncePerRound(signed: map<NodeId, set<(nat, seq<Byte>)>>, h: NodeId)
  {
    h in signed ==> forall r, v, w :: (r, v) in signed[h] && (r, w) in signed[h] ==> v == w
  }

  lemma {:induction false} SubsetCard<T>(a: set<T>, b: set<T>)
    requires a <= b
    ensures |a| <= |b|
    decreases |b|
  {
    if b != {} {
      var x :| x in b;
      SubsetCard(a - {x}, b - {x});
    }
  }

  /**
   * Quorum intersection: with threshold at least ⌊2n/3⌋+1 and fewer than n/3
   * faulty nodes among n, two sets of at least threshold nodes share an
   * honest node.
   */
  lemma QuorumsShareHonestNode(nodes: set<NodeId>, faulty: set<NodeId>, threshold: nat, sx: set<NodeId>, sy: set<NodeId>)
    requires threshold >= MinThreshold(|nodes|) && faulty <= nodes && 3 * |faulty| < |nodes|
    requires sx <= nodes && sy <= nodes && |sx| >= threshold && |sy| >= threshold
    ensures exists h :: h in sx && h in sy && h !in faulty
  {
    SubsetCard(sx + sy, nodes);
    assert |sx + sy| + |sx * sy| == |sx| + |sy|;
    assert |sx * sy| > |faulty|;
    if sx * sy <= faulty {
      SubsetCard(sx * sy, faulty);
    }
    var h :| h in sx * sy && h !in faulty;
  }

  /**
   * Under the corrected rule, two commits for the same round agree: their
   * signer sets share an honest node, which made a share for one value only.
   */
  lemma ValueKeyedCommitsAgree(nodes: set<NodeId>, faulty: set<NodeId>, signed: map<NodeId, set<(nat, seq<Byte>)>>,
                               threshold: nat, round: nat, sx: set<NodeId>, x: seq<Byte>, sy: set<NodeId>, y: seq<Byte>)
    requires threshold >= MinThreshold(|nodes|) && faulty <= nodes && 3 * |faulty| < |nodes|
    requires forall h :: h in nodes && h !in faulty ==> SignsOncePerRound(signed, h)
    requires sx <= nodes && sy <= nodes
    requires Justified(signed, sx, threshold, round, x) && Justified(signed, sy, threshold, round, y)
    ensures x == y
  {
    QuorumsShareHonestNode(nodes, faulty, threshold, sx, sy);
    var h :| h in sx && h in sy && h !in faulty;
    assert (round, x) in signed[h] && (round, y) in signed[h];
  }

  /** The shares of a node under the corrected rule: one aggregator per (round, value). */
  type ValueShares = map<(nat, seq<Byte>), Shares>

  /**
   * The corrected `try_aggregate(round)`: the threshold is counted only among
   * the shares made for the stored proposal's value.
   */
  function CorrectedTryAggregate(s: Node, valueShares: ValueShares, threshold: nat, round: nat, aggregation: AggregationOutcome): (Result<(), Error>, Node)
  {
    if round !in s.proposals then (Err(Other("Proposal not found")), s)
    else
      var key := (round, s.proposals[round].value);
      if key !in valueShares || !ThresholdReached(valueShares[key], threshold) || round in s.commits then (Ok(()), s)
      else
        var signature := AggregateOutcome(valueShares[key], threshold, aggregation);
        if signature.Err? then (Err(signature.error), s)
        else
          var c := CommitProof(round, s.proposals[round].value, signature.value, []);
          (Ok(()), s.(commits := s.commits[round := c], outbox := s.outbox + [Commit(c)], round := Max(s.round, round)))
  }

  /**
   * A corrected commit is justified by the nodes whose shares for its round
   * and value were collected, when each collected share was made by its node.
   */
  lemma CorrectedCommitJustified(s: Node, valueShares: ValueShares, signed: map<NodeId, set<(nat, seq<Byte>)>>,
                                 threshold: nat, round: nat, aggregation: AggregationOutcome)
    requires forall k, h :: k in valueShares && h in valueShares[k] ==> h in signed && k in signed[h]
    requires round !in s.commits
    ensures var s' := CorrectedTryAggregate(s, valueShares, threshold, round, aggregation).1;
            round in s'.commits ==>
              (round, s'.commits[round].value) in valueShares &&
              Justified(signed, valueShares[(round, s'.commits[round].value)].Keys, threshold, round, s'.commits[round].value)
    ensures KeepsCommits(s, CorrectedTryAggregate(s, valueShares, threshold, round, aggregation).1)
  {
  }

  /** `BftConsensus`. */
  class BftConsensus {
    const nodeId: NodeId
    const threshold: nat
    const totalNodes: nat
    var round: nat
    var proposals: map<nat, Proposal>
    var shares: map<nat, Shares>
    var commits: map<nat, CommitProof>
    var outbox: seq<Message>

    function State(): Node
      reads this
    {
      Node(round, proposals, shares, commits, outbox)
    }

    /** `new`: panics unless the threshold is at least 2f+1. */
    constructor (nodeId: NodeId, threshold: nat, totalNodes: nat)
      requires threshold >= MinThreshold(totalNodes)
      ensures this.nodeId == nodeId && this.threshold == threshold && this.totalNodes == totalNodes
      ensures State() == Fresh
    {
      this.nodeId := nodeId;
      this.threshold := threshold;
      this.totalNodes := totalNodes;
      round := 0;
      proposals := map[];
      shares := map[];
      commits := map[];
      outbox := [];
    }

    /** `propose(value)`. */
    method Propose(value: seq<Byte>, ownShare: seq<Byte>, aggregation: AggregationOutcome) returns (r: Result<(), Error>)
      modifies this
      ensures (r, State()) == ProposeStep(old(State()), nodeId, threshold, value, ownShare, aggregation)
    {
      round := round + 1;
      var proposal := Proposal(round, value, nodeId);
      proposals := proposals[round := proposal];
      outbox := outbox + [Message.Propose(proposal)];
      r := SignProposal(round, ownShare, aggregation);
    }

    /** `handle_proposal(proposal)`. */
    method HandleProposal(proposal: Proposal, ownShare: seq<Byte>, aggregation: AggregationOutcome) returns (r: Result<(), Error>)
      modifies this
      ensures (r, State()) == HandleProposalStep(old(State()), nodeId, threshold, proposal, ownShare, aggregation)
    {
      if proposal.round <= round {
        return Ok(());
      }
      proposals := proposals[proposal.round := proposal];
      r := SignProposal(proposal.round, ownShare, aggregation);
    }

    /** `sign_proposal(round)`. */
    method SignProposal(r0: nat, ownShare: seq<Byte>, aggregation: AggregationOutcome) returns (r: Result<(), Error>)
      modifies this
      ensures (r, State()) == SignStep(old(State()), nodeId, threshold, r0, ownShare, aggregation)
    {
      if r0 !in proposals {
        return Err(Other("Proposal not found"));
      }
      var share := Share(r0, nodeId, Bls(ownShare));
      var aggregator := if r0 in shares then shares[r0] else map[];
      shares := shares[r0 := aggregator[nodeId := ownShare]];
      outbox := outbox + [ThresholdShare(share)];
      r := TryAggregate(r0, aggregation);
    }

    /** `handle_share(share)`. */
    method HandleShare(share: Share, decodeError: Option<string>, aggregation: AggregationOutcome) returns (r: Result<(), Error>)
      modifies this
      ensures (r, State()) == HandleShareStep(old(State()), threshold, share, decodeError, aggregation)
    {
      if share.round !in proposals {
        return Ok(());
      }
      var aggregator := if share.round in shares then shares[share.round] else map[];
      var added := AddShareOutcome(aggregator, share.nodeId, share.share, decodeError);
      shares := shares[share.round := added.1];
      if added.0.Err? {
        return added.0;
      }
      r := TryAggregate(share.round, aggregation);
    }

    /** `try_aggregate(round)`. */
    method TryAggregate(r0: nat, aggregation: AggregationOutcome) returns (r: Result<(), Error>)
      modifies this
      ensures (r, State()) == TryAggregateStep(old(State()), threshold, r0, aggregation)
    {
      if r0 !in shares {
        return Err(Other("No shares for round"));
      }
      var aggregator := shares[r0];
      if |aggregator| < threshold {
        return Ok(());
      }
      if r0 in commits {
        return Ok(());
      }
      if r0 !in proposals {
        return Err(Other("Proposal not found"));
      }
      var signature := AggregateOutcome(aggregator, threshold, aggregation);
      if signature.Err? {
        return Err(signature.error);
      }
      var commit := CommitProof(r0, proposals[r0].value, signature.value, []);
      commits := commits[r0 := commit];
      outbox := outbox + [Commit(commit)];
      if r0 > round {
        round := r0;
      }
      r := Ok(());
    }

    /** `handle_commit(commit)`: always `Ok`. */
    method HandleCommit(commit: CommitProof) returns (r: Result<(), Error>)
      modifies this
      ensures r == Ok(()) && State() == HandleCommitStep(old(State()), commit)
    {
      commits := commits[commit.round := commit];
      if commit.round > round {
        round := commit.round;
      }
      r := Ok(());
    }

    /** `get_committed_value(round)`. */
    function GetCommittedValue(r0: nat): (v: Option<seq<Byte>>)
      reads this
      ensures v == CommittedValue(State(), r0)
    {
      if r0 in commits then Some(commits[r0].value) else None
    }

    /** `current_round()`. */
    function CurrentRound(): nat
      reads this
    {
      round
    }
  }
}
