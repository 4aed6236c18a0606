/** Scores of authorities for supporting and being supported around one committed leader. */
module LeaderScores {
  import opened Committees
  import opened Blocks
  import opened FinalizerState

  /** Blocks of the leader round in a commit. */
  function LeaderRefs(commit: CommittedSubDag): set<BlockRef> {
    set b | b in commit.blocks && b.round == commit.leader.round :: b.Ref()
  }

  /** Commits up to and including the first one with a leader above the round. */
  function UntilLeaderAbove(commits: seq<CommittedSubDag>, round: Round): seq<CommittedSubDag> {
    if commits == [] then []
    else if commits[0].leader.round > round then [commits[0]]
    else [commits[0]] + UntilLeaderAbove(commits[1..], round)
  }

  /** All blocks of a round in the commits, in order. */
  function BlocksAt(commits: seq<CommittedSubDag>, round: Round): seq<Block> {
    if commits == [] then []
    else BlocksAt(commits[..|commits| - 1], round) + AtRound(commits[|commits| - 1].blocks, round)
  }

  function AtRound(blocks: seq<Block>, round: Round): seq<Block> {
    if blocks == [] then []
    else
      var n := |blocks| - 1;
      AtRound(blocks[..n], round) + if blocks[n].round == round then [blocks[n]] else []
  }

  function ByAuthor(blocks: seq<Block>, a: Authority): seq<Block> {
    if blocks == [] then []
    else
      var n := |blocks| - 1;
      ByAuthor(blocks[..n], a) + if blocks[n].author == a then [blocks[n]] else []
  }

  /** Authors of the leader blocks that a block links to. */
  ghost function VotedFor(vote: Block, leaders: set<BlockRef>): set<Authority> {
    set r | r in vote.ancestors && r in leaders :: r.author
  }

  /** Authors of the blocks that link to a block. */
  ghost function CertifiedBy(blocks: seq<Block>, r: BlockRef): set<Authority> {
    set b | b in blocks && r in b.ancestors :: b.author
  }

  /** The score of one authority: the product of what its only vote supports and of what supports
      that vote. */
  ghost function ScoreOf(c: Committee, leaders: set<BlockRef>, votes: seq<Block>, certificates: seq<Block>,
                         a: Authority): nat
  {
    var own := ByAuthor(votes, a);
    if |own| != 1 then 0
    else c.StakeOf(VotedFor(own[0], leaders)) * c.StakeOf(CertifiedBy(certificates, own[0].Ref()))
  }

  /** The scores that a commit earns, told from the three commits after it. */
  ghost function Score(c: Committee, commit: CommittedSubDag, later: seq<CommittedSubDag>, a: Authority): nat {
    var r := commit.leader.round;
    ScoreOf(c, LeaderRefs(commit), BlocksAt(UntilLeaderAbove(later, r + 1), r + 1),
            BlocksAt(UntilLeaderAbove(later, r + 2), r + 2), a)
  }

  /** A commit is made of blocks of the committee, among them its leader. */
  ghost predicate IsScorable(c: Committee, commit: CommittedSubDag) {
    && commit.leader in LeaderRefs(commit)
    && (forall b :: b in commit.blocks ==> c.IsMember(b.author))
  }

  // ----- collecting blocks

  /** The scan stops on a commit above the round whenever there is one. */
  lemma {:induction false} ScanEndsAbove(commits: seq<CommittedSubDag>, round: Round)
    requires commits != [] && commits[|commits| - 1].leader.round > round
    ensures UntilLeaderAbove(commits, round) != []
    ensures var scan := UntilLeaderAbove(commits, round);
            scan[|scan| - 1].leader.round > round && scan <= commits
    ensures forall i :: 0 <= i < |UntilLeaderAbove(commits, round)| - 1 ==> commits[i].leader.round <= round
  {
    if commits[0].leader.round <= round {
      ScanEndsAbove(commits[1..], round);
    }
  }

  method ScanUntilLeaderAbove(commits: seq<CommittedSubDag>, round: Round) returns (scan: seq<CommittedSubDag>)
    requires commits != [] && commits[|commits| - 1].leader.round > round
    ensures scan == UntilLeaderAbove(commits, round)
    ensures scan != [] && scan[|scan| - 1].leader.round > round
  {
    hide UntilLeaderAbove;
    scan := [];
    for i := 0 to |commits|
      invariant scan == commits[..i] && forall k :: 0 <= k < i ==> commits[k].leader.round <= round
    {
      scan := scan + [commits[i]];
      assert scan == commits[..i + 1];
      if commits[i].leader.round > round {
        ScanIsPrefix(commits, round, i);
        return;
      }
    }
  }

  lemma {:induction false} ScanIsPrefix(commits: seq<CommittedSubDag>, round: Round, i: nat)
    requires i < |commits| && commits[i].leader.round > round
    requires forall k :: 0 <= k < i ==> commits[k].leader.round <= round
    ensures UntilLeaderAbove(commits, round) == commits[..i + 1]
  {
    if i == 0 {
      assert commits[..1] == [commits[0]];
    } else {
      ScanIsPrefix(commits[1..], round, i - 1);
      assert commits[..i + 1] == [commits[0]] + commits[1..][..i];
    }
  }

  method CollectBlocks(commits: seq<CommittedSubDag>, round: Round) returns (blocks: seq<Block>)
    ensures blocks == BlocksAt(commits, round)
  {
    blocks := [];
    for i := 0 to |commits|
      invariant blocks == BlocksAt(commits[..i], round)
    {
      var commit := commits[i];
      assert commits[..i + 1][..i] == commits[..i];
      for j := 0 to |commit.blocks|
        invariant blocks == BlocksAt(commits[..i], round) + AtRound(commit.blocks[..j], round)
      {
        assert commit.blocks[..j + 1][..j] == commit.blocks[..j];
        if commit.blocks[j].round == round {
          blocks := blocks + [commit.blocks[j]];
        }
      }
      assert commit.blocks[..|commit.blocks|] == commit.blocks;
    }
    assert commits[..|commits|] == commits;
  }

  method GroupByAuthor(blocks: seq<Block>) returns (groups: map<Authority, seq<Block>>)
    ensures forall a :: a in groups <==> ByAuthor(blocks, a) != []
    ensures forall a :: a in groups ==> groups[a] == ByAuthor(blocks, a)
  {
    groups := map[];
    for i := 0 to |blocks|
      invariant forall a :: a in groups <==> ByAuthor(blocks[..i], a) != []
      invariant forall a :: a in groups ==> groups[a] == ByAuthor(blocks[..i], a)
    {
      var b := blocks[i];
      assert blocks[..i + 1][..i] == blocks[..i];
      var before := if b.author in groups then groups[b.author] else [];
      groups := groups[b.author := before + [b]];
    }
    assert blocks[..|blocks|] == blocks;
  }

  lemma {:induction false} ByAuthorIsOwn(blocks: seq<Block>, a: Authority)
    ensures forall b :: b in ByAuthor(blocks, a) <==> b in blocks && b.author == a
  {
    if blocks == [] {
    } else {
      ByAuthorIsOwn(blocks[..|blocks| - 1], a);
      assert blocks == blocks[..|blocks| - 1] + [blocks[|blocks| - 1]];
    }
  }

  lemma {:induction false} BlocksAtIsFromCommits(commits: seq<CommittedSubDag>, round: Round)
    ensures forall b :: b in BlocksAt(commits, round) ==>
              b.round == round && exists k :: 0 <= k < |commits| && b in commits[k].blocks
  {
    if commits == [] {
    } else {
      var n := |commits| - 1;
      BlocksAtIsFromCommits(commits[..n], round);
      AtRoundIsFromBlocks(commits[n].blocks, round);
      forall b | b in BlocksAt(commits, round)
        ensures b.round == round && exists k :: 0 <= k < |commits| && b in commits[k].blocks
      {
        if b in BlocksAt(commits[..n], round) {
          var k :| 0 <= k < n && b in commits[..n][k].blocks;
          assert b in commits[k].blocks;
        }
      }
    }
  }

  lemma {:induction false} AtRoundIsFromBlocks(blocks: seq<Block>, round: Round)
    ensures forall b :: b in AtRound(blocks, round) ==> b in blocks && b.round == round
  {
    if blocks == [] {
    } else {
      AtRoundIsFromBlocks(blocks[..|blocks| - 1], round);
    }
  }

  // ----- stakes

  method StakeVotedFor(c: Committee, vote: Block, leaders: set<BlockRef>) returns (stake: nat)
    requires forall r :: r in leaders ==> c.IsMember(r.author)
    ensures stake == c.StakeOf(VotedFor(vote, leaders))
  {
    var authors: set<Authority> := {};
    stake := 0;
    StakeEmpty(c);
    for i := 0 to |vote.ancestors|
      invariant authors == set r | r in vote.ancestors[..i] && r in leaders :: r.author
      invariant stake == c.StakeOf(authors)
    {
      assert vote.ancestors[..i + 1] == vote.ancestors[..i] + [vote.ancestors[i]];
      var r := vote.ancestors[i];
      if r in leaders {
        StakeInsert(c, authors, r.author);
        stake := stake + if r.author in authors then 0 else c.Stake(r.author);
        authors := authors + {r.author};
      }
    }
    assert vote.ancestors[..|vote.ancestors|] == vote.ancestors;
    assert authors == VotedFor(vote, leaders);
  }

  method StakeCertifying(c: Committee, blocks: seq<Block>, r: BlockRef) returns (stake: nat)
    requires forall b :: b in blocks ==> c.IsMember(b.author)
    ensures stake == c.StakeOf(CertifiedBy(blocks, r))
  {
    var authors: set<Authority> := {};
    stake := 0;
    StakeEmpty(c);
    for i := 0 to |blocks|
      invariant authors == set b | b in blocks[..i] && r in b.ancestors :: b.author
      invariant stake == c.StakeOf(authors)
    {
      assert blocks[..i + 1] == blocks[..i] + [blocks[i]];
      var b := blocks[i];
      if r in b.ancestors {
        StakeInsert(c, authors, b.author);
        stake := stake + if b.author in authors then 0 else c.Stake(b.author);
        authors := authors + {b.author};
      }
    }
    assert blocks[..|blocks|] == blocks;
    assert authors == CertifiedBy(blocks, r);
  }

  // ----- the stake of leader blocks, each block counted

  ghost function RefsOf(refs: set<BlockRef>, a: Authority): set<BlockRef> {
    set r | r in refs && r.author == a
  }

  ghost function RefStakesUpto(c: Committee, refs: set<BlockRef>, n: nat): nat
    requires n <= c.Size()
  {
    if n == 0 then 0 else RefStakesUpto(c, refs, n - 1) + c.stakes[n - 1] * |RefsOf(refs, n - 1)|
  }

  /** Stake of the authors of some blocks, once for each block. */
  ghost function RefStakes(c: Committee, refs: set<BlockRef>): nat {
    RefStakesUpto(c, refs, c.Size())
  }

  lemma {:induction false} RefStakesEmpty(c: Committee, n: nat)
    requires n <= c.Size()
    ensures RefStakesUpto(c, {}, n) == 0
  {
    if n == 0 {
    } else {
      RefStakesEmpty(c, n - 1);
      assert RefsOf({}, n - 1) == {};
    }
  }

  lemma {:induction false} RefStakesInsert(c: Committee, refs: set<BlockRef>, r: BlockRef, n: nat)
    requires n <= c.Size() && r !in refs
    ensures RefStakesUpto(c, refs + {r}, n)
         == RefStakesUpto(c, refs, n) + if r.author < n then c.stakes[r.author] else 0
  {
    if n == 0 {
    } else {
      RefStakesInsert(c, refs, r, n - 1);
      if r.author == n - 1 {
        assert RefsOf(refs + {r}, n - 1) == RefsOf(refs, n - 1) + {r};
        OneMore(c.stakes[n - 1], |RefsOf(refs, n - 1)|);
      } else {
        assert RefsOf(refs + {r}, n - 1) == RefsOf(refs, n - 1);
      }
    }
  }

  lemma OneMore(x: nat, n: nat)
    ensures x * (n + 1) == x * n + x
  {
  }

  /** Counting an author once gives no more than counting it with each of its blocks. */
  lemma {:induction false} AuthorStakeIsAtMost(c: Committee, refs: set<BlockRef>, authors: set<Authority>, n: nat)
    requires n <= c.Size() && forall a :: a in authors ==> RefsOf(refs, a) != {}
    ensures SumUpto(c.stakes, authors, n) <= RefStakesUpto(c, refs, n)
  {
    if n == 0 {
    } else {
      AuthorStakeIsAtMost(c, refs, authors, n - 1);
      if n - 1 in authors {
        assert |RefsOf(refs, n - 1)| >= 1;
        AtLeastOnce(c.stakes[n - 1], |RefsOf(refs, n - 1)|);
      }
    }
  }

  lemma AtLeastOnce(x: nat, n: nat)
    requires n >= 1
    ensures x <= x * n
  {
  }

  method StakesOfRefs(c: Committee, refs: set<BlockRef>) returns (stakes: nat)
    requires forall r :: r in refs ==> c.IsMember(r.author)
    ensures stakes == RefStakes(c, refs)
  {
    stakes := 0;
    var remaining := refs;
    ghost var done: set<BlockRef> := {};
    RefStakesEmpty(c, c.Size());
    while remaining != {}
      invariant done + remaining == refs && done !! remaining
      invariant stakes == RefStakes(c, done)
      decreases |remaining|
    {
      var r := First(remaining);
      RefStakesInsert(c, done, r, c.Size());
      stakes := stakes + c.Stake(r.author);
      remaining, done := remaining - {r}, done + {r};
    }
    assert done == refs;
  }

  // ----- the entry of a commit

  datatype ScoresEntry = ScoresEntry(commitIndex: nat, scores: seq<nat>, numLeaders: nat, leaderStakes: nat)

  ghost predicate IsEntry(c: Committee, commit: CommittedSubDag, later: seq<CommittedSubDag>, e: ScoresEntry) {
    && e.commitIndex == commit.index
    && |e.scores| == c.Size()
    && (forall a :: 0 <= a < c.Size() ==> e.scores[a] == Score(c, commit, later, a))
    && e.numLeaders == |LeaderRefs(commit)|
    && e.leaderStakes == RefStakes(c, LeaderRefs(commit))
  }

  lemma EntryIsUnique(c: Committee, commit: CommittedSubDag, later: seq<CommittedSubDag>, e: ScoresEntry,
                      e': ScoresEntry)
    requires IsEntry(c, commit, later, e) && IsEntry(c, commit, later, e')
    ensures e == e'
  {
    assert e.scores == e'.scores;
  }

  /** No score exceeds the stake of the leaders times the total stake. */
  lemma ScoreIsBounded(c: Committee, commit: CommittedSubDag, later: seq<CommittedSubDag>, a: Authority)
    ensures Score(c, commit, later, a) <= RefStakes(c, LeaderRefs(commit)) * c.TotalStake()
  {
    var r := commit.leader.round;
    var leaders := LeaderRefs(commit);
    var votes := BlocksAt(UntilLeaderAbove(later, r + 1), r + 1);
    var certificates := BlocksAt(UntilLeaderAbove(later, r + 2), r + 2);
    var own := ByAuthor(votes, a);
    if |own| == 1 {
      var voted, certified := VotedFor(own[0], leaders), CertifiedBy(certificates, own[0].Ref());
      forall x | x in voted
        ensures RefsOf(leaders, x) != {}
      {
        var y :| y in own[0].ancestors && y in leaders && y.author == x;
        assert y in RefsOf(leaders, x);
      }
      AuthorStakeIsAtMost(c, leaders, voted, c.Size());
      StakeAtMostTotal(c, certified);
      ProductIsMonotone(c.StakeOf(voted), RefStakes(c, leaders), c.StakeOf(certified), c.TotalStake());
    } else {
      ProductIsMonotone(0, RefStakes(c, leaders), 0, c.TotalStake());
    }
  }

  lemma ProductIsMonotone(x: nat, x': nat, y: nat, y': nat)
    requires x <= x' && y <= y'
    ensures x * y <= x' * y'
  {
    calc {
      x * y;
    <= { assert x * (y' - y) >= 0; }
      x * y';
    <= { assert (x' - x) * y' >= 0; }
      x' * y';
    }
  }

  /** Scores one commit from the three that follow it. The scans always end above their round. */
  method ScoreCommit(c: Committee, commit: CommittedSubDag, later: seq<CommittedSubDag>) returns (e: ScoresEntry)
    requires IsScorable(c, commit) && forall k :: 0 <= k < |later| ==> IsScorable(c, later[k])
    requires |later| == 3 && commit.leader.round < later[0].leader.round < later[1].leader.round < later[2].leader.round
    ensures IsEntry(c, commit, later, e)
  {
    hide BlocksAt, UntilLeaderAbove, ByAuthor, RefStakes;
    var r := commit.leader.round;
    var leaders := LeaderRefs(commit);
    var votingCommits := ScanUntilLeaderAbove(later, r + 1);
    var certifyingCommits := ScanUntilLeaderAbove(later, r + 2);
    var votes := CollectBlocks(votingCommits, r + 1);
    var groups := GroupByAuthor(votes);
    var certificates := CollectBlocks(certifyingCommits, r + 2);
    CollectedAreMembers(c, later, r + 2, r + 2);
    var scores := seq(c.Size(), _ => 0);
    for a := 0 to c.Size()
      invariant |scores| == c.Size()
      invariant forall x :: 0 <= x < a ==> scores[x] == ScoreOf(c, leaders, votes, certificates, x)
      invariant forall x :: a <= x < c.Size() ==> scores[x] == 0
    {
      if a in groups && |groups[a]| == 1 {
        var votedFor := StakeVotedFor(c, groups[a][0], leaders);
        if votedFor != 0 {
          var certifiedBy := StakeCertifying(c, certificates, groups[a][0].Ref());
          scores := scores[a := votedFor * certifiedBy];
        }
      }
    }
    var stakes := StakesOfRefs(c, leaders);
    e := ScoresEntry(commit.index, scores, |leaders|, stakes);
  }

  lemma CollectedAreMembers(c: Committee, later: seq<CommittedSubDag>, upper: Round, round: Round)
    requires forall k :: 0 <= k < |later| ==> IsScorable(c, later[k])
    requires later != [] && later[|later| - 1].leader.round > upper
    ensures forall b :: b in BlocksAt(UntilLeaderAbove(later, upper), round) ==> c.IsMember(b.author)
  {
    var scan := UntilLeaderAbove(later, upper);
    ScanEndsAbove(later, upper);
    BlocksAtIsFromCommits(scan, round);
    hide BlocksAt, UntilLeaderAbove;
    forall b | b in BlocksAt(scan, round)
      ensures c.IsMember(b.author)
    {
      var k :| 0 <= k < |scan| && b in scan[k].blocks;
      assert scan[k] == later[k];
    }
  }
}
