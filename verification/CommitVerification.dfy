/** Checking commits received from another validator: a chain of commits by digest, the last of
    which a quorum has voted for. */
module CommitVerification {
  import opened Committees
  import opened Blocks
  import opened BlockVerifier
  import opened StakeAggregators
  import opened CommitRanges

  datatype ChainedCommit = ChainedCommit(index: nat, previousDigest: nat, leader: BlockRef, blocks: seq<BlockRef>)

  type Hash = ChainedCommit -> nat

  datatype CommitsError =
    | UnexpectedStartCommit(start: nat, commit: ChainedCommit)
    | UnexpectedCommitSequence(prev: ChainedCommit, curr: ChainedCommit)
    | NoCommitReceived
    | InvalidBlock(error: VerifyError)
    | NotEnoughCommitVotes(stake: nat)

  datatype CommitsVerdict = Verified(commits: seq<ChainedCommit>) | Refused(error: CommitsError)

  /** Commits with consecutive indices, each naming the digest of the one before it. */
  ghost predicate IsChain(hash: Hash, commits: seq<ChainedCommit>, start: nat) {
    && (forall i :: 0 <= i < |commits| ==> commits[i].index == start + i)
    && (forall i :: 0 < i < |commits| ==> commits[i].previousDigest == hash(commits[i - 1]))
  }

  /** Authors of the blocks that vote for a commit. */
  ghost function VotersFor(blocks: seq<Block>, commit: CommitRef): set<Authority> {
    set b | b in blocks && commit in b.commitVotes :: b.author
  }

  ghost predicate IsCertified(c: Committee, hash: Hash, commits: seq<ChainedCommit>, votes: seq<Block>) {
    && commits != []
    && var last := commits[|commits| - 1];
       c.IsQuorum(VotersFor(votes, CommitRef(last.index, hash(last))))
  }

  function Smaller(a: nat, b: nat): nat {
    if a <= b then a else b
  }

  /** Accepts the commits of the range exactly when they form a chain from its start, as does the
      first commit past its end, all vote blocks are well formed, and the last commit is certified. */
  method VerifyCommits(c: Committee, genesis: set<BlockRef>, hash: Hash, range: CommitRange,
                       received: seq<ChainedCommit>, votes: seq<Block>)
    returns (v: CommitsVerdict)
    requires c.quorumThreshold > 0 && range.IsNonEmpty()
    ensures v.Verified? <==>
              && IsChain(hash, received[..Smaller(|received|, range.Size() + 1)], range.start)
              && (forall b :: b in votes ==> WellFormed(c, genesis, b))
              && IsCertified(c, hash, received[..Smaller(|received|, range.Size())], votes)
    ensures v.Verified? ==> v.commits == received[..Smaller(|received|, range.Size())]
  {
    hide WellFormed, VotersFor;
    var commits, error := TakeChain(hash, range, received);
    if error.Some? {
      return Refused(error.value);
    }
    if commits == [] {
      return Refused(NoCommitReceived);
    }
    var last := commits[|commits| - 1];
    var stake, reached, blockError := CountVotes(c, genesis, votes, CommitRef(last.index, hash(last)));
    if blockError.Some? {
      return Refused(blockError.value);
    }
    if !reached {
      return Refused(NotEnoughCommitVotes(stake));
    }
    v := Verified(commits);
  }

  method TakeChain(hash: Hash, range: CommitRange, received: seq<ChainedCommit>)
    returns (commits: seq<ChainedCommit>, error: Option<CommitsError>)
    requires range.IsNonEmpty()
    ensures error.None? <==> IsChain(hash, received[..Smaller(|received|, range.Size() + 1)], range.start)
    ensures error.None? ==> commits == received[..Smaller(|received|, range.Size())]
  {
    commits, error := [], None;
    for i := 0 to |received|
      invariant i <= range.Size() && commits == received[..i]
      invariant IsChain(hash, received[..i], range.start)
    {
      var commit := received[i];
      var n := Smaller(|received|, range.Size() + 1);
      assert received[..n][i] == commit && (i > 0 ==> received[..n][i - 1] == received[i - 1]);
      if commits == [] {
        if commit.index != range.start {
          return commits, Some(UnexpectedStartCommit(range.start, commit));
        }
      } else {
        var prev := commits[|commits| - 1];
        if commit.index != prev.index + 1 || commit.previousDigest != hash(prev) {
          return commits, Some(UnexpectedCommitSequence(prev, commit));
        }
      }
      ChainGrows(hash, received, range.start, i);
      if commit.index > range.End() {
        return;
      }
      commits := commits + [commit];
    }
    assert received[..|received|] == received;
  }

  lemma ChainGrows(hash: Hash, received: seq<ChainedCommit>, start: nat, i: nat)
    requires i < |received| && IsChain(hash, received[..i], start)
    requires received[i].index == start + i && (i > 0 ==> received[i].previousDigest == hash(received[i - 1]))
    ensures IsChain(hash, received[..i + 1], start)
  {
    var longer := received[..i + 1];
    forall k | 0 < k < |longer|
      ensures longer[k].previousDigest == hash(longer[k - 1])
    {
      if k < i {
        assert received[..i][k].previousDigest == hash(received[..i][k - 1]);
      }
    }
  }

  method CountVotes(c: Committee, genesis: set<BlockRef>, votes: seq<Block>, commit: CommitRef)
    returns (stake: nat, reached: bool, error: Option<CommitsError>)
    requires c.quorumThreshold > 0
    ensures error.None? <==> forall b :: b in votes ==> WellFormed(c, genesis, b)
    ensures error.None? ==>
              stake == c.StakeOf(VotersFor(votes, commit)) && (reached <==> c.IsQuorum(VotersFor(votes, commit)))
  {
    var aggregator := new StakeAggregator(c);
    for i := 0 to |votes|
      invariant aggregator.Valid() && fresh(aggregator) && aggregator.committee == c
      invariant forall b :: b in votes[..i] ==> WellFormed(c, genesis, b)
      invariant aggregator.votes == VotersFor(votes[..i], commit)
    {
      var b := votes[i];
      var verdict := VerifyBlock(c, genesis, b);
      assert b in votes;
      if verdict.Fail? {
        return 0, false, Some(InvalidBlock(verdict.error));
      }
      assert votes[..i + 1] == votes[..i] + [b];
      if commit in b.commitVotes {
        var _ := aggregator.Add(b.author);
      }
    }
    assert votes[..|votes|] == votes;
    reached := aggregator.ReachedThreshold();
    stake, error := aggregator.stake, None;
  }

  // ----- certified commits are the agreed ones

  ghost predicate IsInjective(hash: Hash) {
    forall a, b :: hash(a) == hash(b) ==> a == b
  }

  /** Honest authors vote only for commits of the agreed chain. */
  ghost predicate VotesForChain(byzantine: set<Authority>, hash: Hash, chain: seq<ChainedCommit>, votes: seq<Block>) {
    forall b, v :: b in votes && b.author !in byzantine && v in b.commitVotes ==> IsInChain(hash, chain, v)
  }

  ghost predicate IsInChain(hash: Hash, chain: seq<ChainedCommit>, v: CommitRef) {
    exists i :: 0 <= i < |chain| && v == CommitRef(chain[i].index, hash(chain[i]))
  }

  ghost function LastRef(hash: Hash, commits: seq<ChainedCommit>): CommitRef
    requires commits != []
  {
    var last := commits[|commits| - 1];
    CommitRef(last.index, hash(last))
  }

  /** Some honest author votes for the last of certified commits. */
  lemma HonestVoteExists(c: Committee, byzantine: set<Authority>, hash: Hash, commits: seq<ChainedCommit>,
                         votes: seq<Block>)
    returns (b: Block)
    requires c.ToleratesFaults(byzantine) && IsCertified(c, hash, commits, votes)
    ensures b in votes && b.author !in byzantine && LastRef(hash, commits) in b.commitVotes
  {
    var h := QuorumHasMember(c, byzantine, VotersFor(votes, LastRef(hash, commits)));
    b :| b in votes && LastRef(hash, commits) in b.commitVotes && b.author == h;
  }

  /** When the last of chained commits is in a chain, all of them are. */
  lemma ChainIsVouchedFor(hash: Hash, chain: seq<ChainedCommit>, commits: seq<ChainedCommit>, start: nat)
    requires IsInjective(hash) && IsChain(hash, chain, 1)
    requires start > 0 && commits != [] && IsChain(hash, commits, start)
    requires IsInChain(hash, chain, LastRef(hash, commits))
    ensures start - 1 + |commits| <= |chain| && commits == chain[start - 1..start - 1 + |commits|]
  {
    var last := commits[|commits| - 1];
    var i :| 0 <= i < |chain| && LastRef(hash, commits) == CommitRef(chain[i].index, hash(chain[i]));
    assert chain[i] == last;
    forall k | 0 <= k < |commits|
      ensures commits[k] == chain[start - 1 + k]
    {
      ChainsMatch(hash, chain, commits, start, k);
    }
  }

  /** One vote of an honest author for the last commit vouches for all of them. */
  lemma CertifiedCommitsAreAgreed(c: Committee, byzantine: set<Authority>, hash: Hash, chain: seq<ChainedCommit>,
                                  commits: seq<ChainedCommit>, start: nat, votes: seq<Block>)
    requires c.ToleratesFaults(byzantine) && IsInjective(hash)
    requires IsChain(hash, chain, 1) && VotesForChain(byzantine, hash, chain, votes)
    requires start > 0 && IsChain(hash, commits, start) && IsCertified(c, hash, commits, votes)
    ensures start - 1 + |commits| <= |chain| && commits == chain[start - 1..start - 1 + |commits|]
  {
    var b := HonestVoteExists(c, byzantine, hash, commits, votes);
    ChainIsVouchedFor(hash, chain, commits, start);
  }

  lemma {:induction false} ChainsMatch(hash: Hash, chain: seq<ChainedCommit>, commits: seq<ChainedCommit>, start: nat,
                                       k: nat)
    requires IsInjective(hash) && IsChain(hash, chain, 1) && IsChain(hash, commits, start)
    requires start > 0 && k < |commits| && start - 1 + |commits| <= |chain|
    requires commits[|commits| - 1] == chain[start - 1 + |commits| - 1]
    ensures commits[k] == chain[start - 1 + k]
    decreases |commits| - k
  {
    if k + 1 < |commits| {
      ChainsMatch(hash, chain, commits, start, k + 1);
      assert commits[k + 1].previousDigest == hash(commits[k + 1 - 1]);
      assert chain[start + k].previousDigest == hash(chain[start + k - 1]);
    }
  }
}
