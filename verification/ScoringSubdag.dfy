/** Votes for committed leaders and how widely they are supported, collected block by block. */
module ScoringSubdags {
  import opened Committees
  import opened Blocks
  import opened BlockVerifier
  import opened VoteTraversal
  import opened FinalizerState
  import opened CommitRanges

  // ----- meaning

  /** A link to a block of the round below. */
  predicate IsStrongLink(b: Block, a: BlockRef) {
    a in b.ancestors && a.round + 1 == b.round
  }

  /** A block that strongly links to a leader votes for it. */
  ghost predicate IsVote(leaders: set<BlockRef>, b: Block) {
    exists a :: IsStrongLink(b, a) && a in leaders
  }

  /** Authors of the blocks that strongly link to a block. */
  ghost function Supporters(blocks: set<Block>, v: BlockRef): set<Authority> {
    set b | b in blocks && IsStrongLink(b, v) :: b.author
  }

  ghost function VoteRefs(leaders: set<BlockRef>, blocks: set<Block>): set<BlockRef> {
    set b | b in blocks && IsVote(leaders, b) :: b.Ref()
  }

  /** The votes recorded are exactly the votes among the blocks, each with its supporters. */
  ghost predicate AreVotes(c: Committee, leaders: set<BlockRef>, blocks: set<Block>, votes: map<BlockRef, Tally>) {
    && votes.Keys == VoteRefs(leaders, blocks)
    && forall v :: v in votes ==> votes[v].Valid(c) && votes[v].votes == Supporters(blocks, v)
  }

  /** A block comes after everything it links to, and only once. */
  ghost predicate CanAdd(c: Committee, blocks: set<Block>, b: Block) {
    && c.IsMember(b.author) && b.round > 0 && DistinctAuthors(b.ancestors)
    && (forall x :: x in blocks ==> x.Ref() != b.Ref() && b.Ref() !in x.ancestors)
    && b.Ref() !in b.ancestors
  }

  /** At most one leader per round. */
  ghost predicate OneLeaderPerRound(leaders: set<BlockRef>) {
    forall l, m :: l in leaders && m in leaders && l.round == m.round ==> l == m
  }

  ghost function Before(list: seq<Block>, i: nat): set<Block>
    requires i <= |list|
  {
    set j | 0 <= j < i :: list[j]
  }

  /** What a sub-dag has to be like: it follows the previous one, its leader is in a new round that no
      block has linked to, and its blocks come in causal order. */
  ghost predicate CanAddSubdag(c: Committee, range: Option<CommitRange>, leaders: set<BlockRef>, blocks: set<Block>,
                               subdag: CommittedSubDag)
  {
    && (range.Some? ==> range.value.endExclusive <= subdag.index + 1)
    && (forall l :: l in leaders ==> l.round != subdag.leader.round)
    && (forall x :: x in blocks ==> subdag.leader !in x.ancestors)
    && forall i :: 0 <= i < |subdag.blocks| ==> CanAdd(c, blocks + Before(subdag.blocks, i), subdag.blocks[i])
  }

  // ----- one block

  /** The part of the work on a block that is done after some of its ancestors. */
  ghost predicate IsPartial(c: Committee, leaders: set<BlockRef>, blocks: set<Block>, b: Block, i: nat,
                            votes: map<BlockRef, Tally>)
    requires i <= |b.ancestors|
  {
    && votes.Keys == VoteRefs(leaders, blocks) + (if VotesWithin(leaders, b, i) then {b.Ref()} else {})
    && forall v :: v in votes ==> votes[v].Valid(c) && votes[v].votes == SupportersWithin(blocks, b, i, v)
  }

  ghost predicate VotesWithin(leaders: set<BlockRef>, b: Block, i: nat)
    requires i <= |b.ancestors|
  {
    exists k :: 0 <= k < i && b.ancestors[k].round + 1 == b.round && b.ancestors[k] in leaders
  }

  ghost function SupportersWithin(blocks: set<Block>, b: Block, i: nat, v: BlockRef): set<Authority>
    requires i <= |b.ancestors|
  {
    Supporters(blocks, v) + if v in b.ancestors[..i] && v.round + 1 == b.round then {b.author} else {}
  }

  lemma PartialStart(c: Committee, leaders: set<BlockRef>, blocks: set<Block>, b: Block, votes: map<BlockRef, Tally>)
    requires AreVotes(c, leaders, blocks, votes)
    ensures IsPartial(c, leaders, blocks, b, 0, votes)
  {
    forall v | v in votes
      ensures SupportersWithin(blocks, b, 0, v) == Supporters(blocks, v)
    {
    }
    hide Supporters, VoteRefs;
  }

  lemma PartialEnd(c: Committee, leaders: set<BlockRef>, blocks: set<Block>, b: Block, votes: map<BlockRef, Tally>)
    requires IsPartial(c, leaders, blocks, b, |b.ancestors|, votes)
    ensures AreVotes(c, leaders, blocks + {b}, votes)
  {
    assert b.ancestors[..|b.ancestors|] == b.ancestors;
    assert IsVote(leaders, b) <==> VotesWithin(leaders, b, |b.ancestors|) by {
      if IsVote(leaders, b) {
        var a :| IsStrongLink(b, a) && a in leaders;
        var k :| 0 <= k < |b.ancestors| && b.ancestors[k] == a;
      }
      if VotesWithin(leaders, b, |b.ancestors|) {
        var k :| 0 <= k < |b.ancestors| && b.ancestors[k].round + 1 == b.round && b.ancestors[k] in leaders;
        assert IsStrongLink(b, b.ancestors[k]);
      }
    }
    hide IsVote;
    assert VoteRefs(leaders, blocks + {b}) == VoteRefs(leaders, blocks) + if IsVote(leaders, b) then {b.Ref()} else {};
    forall v | v in votes
      ensures Supporters(blocks + {b}, v) == SupportersWithin(blocks, b, |b.ancestors|, v)
    {
    }
    hide Supporters, VoteRefs;
  }

  /** A weak link changes nothing. */
  lemma WeakLink(c: Committee, leaders: set<BlockRef>, blocks: set<Block>, b: Block, i: nat,
                 votes: map<BlockRef, Tally>)
    requires i < |b.ancestors| && b.ancestors[i].round + 1 != b.round && IsPartial(c, leaders, blocks, b, i, votes)
    ensures IsPartial(c, leaders, blocks, b, i + 1, votes)
  {
    assert b.ancestors[..i + 1] == b.ancestors[..i] + [b.ancestors[i]];
    assert VotesWithin(leaders, b, i + 1) <==> VotesWithin(leaders, b, i);
    hide Supporters, VoteRefs;
  }

  /** A strong link to a leader makes the block a vote, which it has not been before. */
  lemma NotYetAVote(c: Committee, leaders: set<BlockRef>, blocks: set<Block>, b: Block, i: nat,
                    votes: map<BlockRef, Tally>)
    requires i < |b.ancestors| && b.ancestors[i].round + 1 == b.round && b.ancestors[i] in leaders
    requires IsPartial(c, leaders, blocks, b, i, votes) && CanAdd(c, blocks, b) && OneLeaderPerRound(leaders)
    ensures b.Ref() !in votes
  {
    assert !VotesWithin(leaders, b, i);
  }

  lemma StrongLink(c: Committee, leaders: set<BlockRef>, blocks: set<Block>, b: Block, i: nat,
                   votes: map<BlockRef, Tally>, votes': map<BlockRef, Tally>)
    requires i < |b.ancestors| && b.ancestors[i].round + 1 == b.round && CanAdd(c, blocks, b)
    requires IsPartial(c, leaders, blocks, b, i, votes)
    requires var a := b.ancestors[i];
             var voted := if a in leaders then votes[b.Ref() := Tally({}, 0)] else votes;
             votes' == if a in voted then voted[a := voted[a].Add(c, b.author)] else voted
    requires b.ancestors[i] in leaders ==> b.Ref() !in votes
    ensures IsPartial(c, leaders, blocks, b, i + 1, votes')
  {
    hide VotesWithin, SupportersWithin, VoteRefs;
    var a := b.ancestors[i];
    assert a in b.ancestors;
    NextVotesWithin(leaders, b, i);
    forall v | v in votes'
      ensures votes'[v].Valid(c) && votes'[v].votes == SupportersWithin(blocks, b, i + 1, v)
    {
      NextSupporters(blocks, b, i, v);
      if v == b.Ref() {
        NobodySupports(blocks, b, i + 1);
        NobodySupports(blocks, b, i);
        StakeEmpty(c);
        assert votes'[v] == (if v in votes then votes[v] else Tally({}, 0));
      } else if v == a {
        TallyAdd(votes[v], c, b.author);
        assert votes'[v] == votes[v].Add(c, b.author);
      } else {
        assert votes'[v] == votes[v];
      }
    }
  }

  lemma NextSupporters(blocks: set<Block>, b: Block, i: nat, v: BlockRef)
    requires i < |b.ancestors| && b.ancestors[i].round + 1 == b.round
    ensures SupportersWithin(blocks, b, i + 1, v)
         == SupportersWithin(blocks, b, i, v) + if v == b.ancestors[i] then {b.author} else {}
  {
    assert b.ancestors[..i + 1] == b.ancestors[..i] + [b.ancestors[i]];
    hide Supporters;
  }

  lemma NextVotesWithin(leaders: set<BlockRef>, b: Block, i: nat)
    requires i < |b.ancestors| && b.ancestors[i].round + 1 == b.round
    ensures VotesWithin(leaders, b, i + 1) <==> VotesWithin(leaders, b, i) || b.ancestors[i] in leaders
  {
  }

  /** A block that is new has no supporters. */
  lemma NobodySupports(blocks: set<Block>, b: Block, i: nat)
    requires i <= |b.ancestors| && b.Ref() !in b.ancestors && forall x :: x in blocks ==> b.Ref() !in x.ancestors
    ensures SupportersWithin(blocks, b, i, b.Ref()) == {}
  {
  }

  // ----- scores

  /** Stake of the supporters of the votes of an authority, summed over its votes. */
  ghost function VoteScore(c: Committee, blocks: set<Block>, votes: set<BlockRef>, a: Authority): nat {
    if votes == {} then 0
    else
      var v :| v in votes;
      (if v.author == a then c.StakeOf(Supporters(blocks, v)) else 0) + VoteScore(c, blocks, votes - {v}, a)
  }

  lemma {:induction false} VoteScoreRemove(c: Committee, blocks: set<Block>, votes: set<BlockRef>, v: BlockRef,
                                           a: Authority)
    requires v in votes
    ensures VoteScore(c, blocks, votes, a)
         == (if v.author == a then c.StakeOf(Supporters(blocks, v)) else 0) + VoteScore(c, blocks, votes - {v}, a)
    decreases |votes|
  {
    hide Supporters;
    var u :| u in votes && VoteScore(c, blocks, votes, a)
                        == (if u.author == a then c.StakeOf(Supporters(blocks, u)) else 0)
                         + VoteScore(c, blocks, votes - {u}, a);
    if u == v {
    } else {
      VoteScoreRemove(c, blocks, votes - {u}, v, a);
      VoteScoreRemove(c, blocks, votes - {v}, u, a);
      assert votes - {u} - {v} == votes - {v} - {u};
    }
  }

  lemma VoteScoreAdd(c: Committee, blocks: set<Block>, votes: set<BlockRef>, v: BlockRef, a: Authority)
    requires v !in votes
    ensures VoteScore(c, blocks, votes + {v}, a)
         == VoteScore(c, blocks, votes, a) + if v.author == a then c.StakeOf(Supporters(blocks, v)) else 0
  {
    VoteScoreRemove(c, blocks, votes + {v}, v, a);
    assert votes + {v} - {v} == votes;
  }

  ghost predicate AreScores(c: Committee, blocks: set<Block>, votes: set<BlockRef>, scores: seq<nat>) {
    |scores| == c.Size() && forall a :: 0 <= a < |scores| ==> scores[a] == VoteScore(c, blocks, votes, a)
  }

  lemma NoVotesNoScore(c: Committee, blocks: set<Block>, scores: seq<nat>)
    requires |scores| == c.Size() && forall a :: 0 <= a < |scores| ==> scores[a] == 0
    ensures AreScores(c, blocks, {}, scores)
  {
  }

  lemma VoteScoresAdd(c: Committee, blocks: set<Block>, votes: set<BlockRef>, scores: seq<nat>, v: BlockRef)
    requires AreScores(c, blocks, votes, scores) && v !in votes && c.IsMember(v.author)
    ensures AreScores(c, blocks, votes + {v}, scores[v.author := scores[v.author] + c.StakeOf(Supporters(blocks, v))])
  {
    hide VoteScore;
    forall a | 0 <= a < |scores|
      ensures VoteScore(c, blocks, votes + {v}, a)
           == VoteScore(c, blocks, votes, a) + if v.author == a then c.StakeOf(Supporters(blocks, v)) else 0
    {
      VoteScoreAdd(c, blocks, votes, v, a);
    }
  }

  lemma VotesAreSupport(c: Committee, leaders: set<BlockRef>, blocks: set<Block>, votes: map<BlockRef, Tally>)
    requires AreVotes(c, leaders, blocks, votes) && forall b :: b in blocks ==> c.IsMember(b.author)
    ensures votes.Keys == VoteRefs(leaders, blocks)
    ensures forall v :: v in votes ==> c.IsMember(v.author) && votes[v].stake == c.StakeOf(Supporters(blocks, v))
  {
  }

  // ----- the class

  class ScoringSubdag {
    const committee: Committee

    var commitRange: Option<CommitRange>
    var leaders: set<BlockRef>
    var votes: map<BlockRef, Tally>

    // The blocks seen since the last clearing.
    ghost var blocks: set<Block>

    ghost predicate Valid()
      reads this
    {
      && AreVotes(committee, leaders, blocks, votes)
      && OneLeaderPerRound(leaders)
      && (forall b :: b in blocks ==> committee.IsMember(b.author))
    }

    constructor (committee: Committee)
      ensures Valid() && this.committee == committee && blocks == {} && commitRange == None && leaders == {}
    {
      this.committee := committee;
      commitRange, leaders, votes, blocks := None, {}, map[], {};
    }

    /** Adds one sub-dag. No vote is ever recorded twice. */
    method AddSubdag(subdag: CommittedSubDag)
      requires Valid() && CanAddSubdag(committee, commitRange, leaders, blocks, subdag)
      modifies this
      ensures Valid() && leaders == old(leaders) + {subdag.leader}
      ensures blocks == old(blocks) + (set b | b in subdag.blocks)
      ensures commitRange == Some(if old(commitRange).None? then CommitRange.Inclusive(subdag.index, subdag.index)
                                  else old(commitRange).value.ExtendTo(subdag.index))
    {
      hide AreVotes, CanAdd;
      commitRange := Some(if commitRange.None? then CommitRange.Inclusive(subdag.index, subdag.index)
                          else commitRange.value.ExtendTo(subdag.index));
      NewLeaderChangesNothing(committee, leaders, blocks, votes, subdag.leader);
      leaders := leaders + {subdag.leader};
      ghost var blocks0 := blocks;
      for i := 0 to |subdag.blocks|
        invariant Valid() && leaders == old(leaders) + {subdag.leader}
        invariant blocks == blocks0 + Before(subdag.blocks, i)
        invariant commitRange == Some(if old(commitRange).None? then CommitRange.Inclusive(subdag.index, subdag.index)
                                      else old(commitRange).value.ExtendTo(subdag.index))
      {
        AddBlock(subdag.blocks[i]);
      }
    }

    method AddBlock(b: Block)
      requires Valid() && CanAdd(committee, blocks, b)
      modifies this`votes, this`blocks
      ensures Valid() && blocks == old(blocks) + {b}
    {
      hide AreVotes, CanAdd, IsPartial;
      PartialStart(committee, leaders, blocks, b, votes);
      for i := 0 to |b.ancestors|
        invariant IsPartial(committee, leaders, blocks, b, i, votes) && blocks == old(blocks)
      {
        var a := b.ancestors[i];
        if a.round + 1 != b.round {
          WeakLink(committee, leaders, blocks, b, i, votes);
          continue;
        }
        ghost var votes0 := votes;
        if a in leaders {
          NotYetAVote(committee, leaders, blocks, b, i, votes);
          assert b.Ref() !in votes;
          votes := votes[b.Ref() := Tally({}, 0)];
        }
        if a in votes {
          IsMemberOf(committee, blocks, b);
          votes := votes[a := votes[a].Add(committee, b.author)];
        }
        IsMemberOf(committee, blocks, b);
        StrongLink(committee, leaders, blocks, b, i, votes0, votes);
      }
      PartialEnd(committee, leaders, blocks, b, votes);
      IsMemberOf(committee, blocks, b);
      blocks := blocks + {b};
    }

    /** The score of an authority is the stake behind its votes, added up. */
    method DistributedVotesScores() returns (scores: seq<nat>)
      requires Valid()
      ensures AreScores(committee, blocks, VoteRefs(leaders, blocks), scores)
    {
      hide AreVotes, AreScores, VoteRefs, Supporters, OneLeaderPerRound, BlockRef.Less;
      VotesAreSupport(committee, leaders, blocks, votes);
      scores := seq(committee.Size(), _ => 0);
      NoVotesNoScore(committee, blocks, scores);
      var remaining := votes.Keys;
      ghost var done: set<BlockRef> := {};
      while remaining != {}
        invariant done + remaining == votes.Keys && done !! remaining && |scores| == committee.Size()
        invariant AreScores(committee, blocks, done, scores)
        decreases |remaining|
      {
        var v := First(remaining);
        VoteScoresAdd(committee, blocks, done, scores, v);
        scores := scores[v.author := scores[v.author] + votes[v].stake];
        remaining, done := remaining - {v}, done + {v};
      }
      assert done == votes.Keys;
    }

    method Clear()
      modifies this
      ensures Valid() && blocks == {} && leaders == {} && commitRange == None
    {
      commitRange, leaders, votes, blocks := None, {}, map[], {};
    }
  }

  lemma IsMemberOf(c: Committee, blocks: set<Block>, b: Block)
    requires CanAdd(c, blocks, b)
    ensures c.IsMember(b.author)
  {
  }

  /** No block so far links to the new leader, so it makes none of them a vote. */
  lemma NewLeaderChangesNothing(c: Committee, leaders: set<BlockRef>, blocks: set<Block>, votes: map<BlockRef, Tally>,
                                leader: BlockRef)
    requires AreVotes(c, leaders, blocks, votes) && forall x :: x in blocks ==> leader !in x.ancestors
    ensures AreVotes(c, leaders + {leader}, blocks, votes)
  {
    forall b | b in blocks
      ensures IsVote(leaders + {leader}, b) <==> IsVote(leaders, b)
    {
      if IsVote(leaders + {leader}, b) {
        var a :| IsStrongLink(b, a) && a in leaders + {leader};
        assert a in leaders;
      }
      if IsVote(leaders, b) {
        var a :| IsStrongLink(b, a) && a in leaders;
        assert a in leaders + {leader};
      }
    }
    hide IsVote;
  }
}
