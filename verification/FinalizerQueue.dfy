/** The queue of pending commits of the finalizer together with its block map, as values. */
module FinalizerQueue {
  import opened Committees
  import opened Blocks
  import opened BlockIndex
  import opened VoteTraversal
  import opened FinalizerLinks
  import opened FinalizerState

  /** Rounds after which a commit must be settled; also the length of a wave. */
  const INDIRECT_REJECT_DEPTH: Round := 3

  type Queue = seq<CommitState>

  /** Consecutive commits with non-decreasing leader rounds. */
  ghost predicate Sequenced(queue: Queue) {
    forall k, l :: 0 <= k < l < |queue| ==>
      && queue[l].commit.index == queue[k].commit.index + (l - k)
      && queue[k].commit.leader.round <= queue[l].commit.leader.round
  }

  ghost predicate StatesFit(queue: Queue) {
    forall k :: 0 <= k < |queue| ==>
      StateFits(queue[k]) && queue[k].commit.blocks != [] && DistinctRefs(queue[k].commit.blocks)
  }

  /** A commit that has not been through direct finalization is less than a wave behind the last. */
  ghost predicate UnprocessedIsRecent(queue: Queue) {
    forall k :: 0 <= k < |queue| && queue[k].pendingBlocks != map[] ==>
      queue[k].commit.leader.round + INDIRECT_REJECT_DEPTH > queue[|queue| - 1].commit.leader.round
  }

  /** Every buffered commit is less than a wave behind the last. */
  ghost predicate IsBounded(queue: Queue) {
    forall k :: 0 <= k < |queue| ==>
      queue[k].commit.leader.round + INDIRECT_REJECT_DEPTH > queue[|queue| - 1].commit.leader.round
  }

  /** The map holds exactly the blocks of the first n commits of the queue. */
  ghost predicate Mapped(blocks: BlockMap, queue: Queue, n: nat)
    requires n <= |queue|
  {
    && (forall k, b :: 0 <= k < n && b in queue[k].commit.blocks ==> IsMappedAs(blocks, b, queue[k].commit.index))
    && (forall r :: r in blocks ==> exists k :: 0 <= k < n && Holds(queue[k].commit, blocks[r]))
  }

  ghost predicate IsMappedAs(blocks: BlockMap, b: Block, index: nat) {
    b.Ref() in blocks && blocks[b.Ref()].block == b && blocks[b.Ref()].commitIndex == index
  }

  ghost predicate Holds(commit: CommittedSubDag, entry: BlockState) {
    entry.commitIndex == commit.index && entry.block in commit.blocks
  }

  // ----- leaving the queue

  function Emit(s: CommitState): CommittedSubDag {
    s.commit.(rejectedTransactions := s.commit.rejectedTransactions + s.rejectedTransactions)
  }

  /** The blocks removed with the first commit are exactly those filed under its index. */
  lemma PopRemovesCommit(c: Committee, blocks: BlockMap, queue: Queue, n: nat)
    requires 0 < n <= |queue| && Mapped(blocks, queue, n) && Sequenced(queue) && EntriesFit(c, blocks)
    ensures blocks - Refs(queue[0].commit.blocks) == WithoutCommit(blocks, queue[0].commit.index)
    ensures forall r :: r in blocks ==> blocks[r].commitIndex >= queue[0].commit.index
  {
    hide IsCommittable, RejectVotes;
    var first := queue[0].commit;
    forall r | r in blocks
      ensures r in Refs(first.blocks) <==> blocks[r].commitIndex == first.index
      ensures blocks[r].commitIndex >= first.index
    {
      var k :| 0 <= k < n && Holds(queue[k].commit, blocks[r]);
      if r in Refs(first.blocks) {
        var b :| b in first.blocks && b.Ref() == r;
        assert IsMappedAs(blocks, b, first.index);
      }
    }
    assert (blocks - Refs(first.blocks)).Keys == WithoutCommit(blocks, first.index).Keys;
  }

  lemma PopKeepsMapped(c: Committee, blocks: BlockMap, queue: Queue, n: nat)
    requires 0 < n <= |queue| && Mapped(blocks, queue, n) && Sequenced(queue) && EntriesFit(c, blocks)
    ensures Mapped(blocks - Refs(queue[0].commit.blocks), queue[1..], n - 1)
  {
    PopRemovesCommit(c, blocks, queue, n);
    hide IsCommittable, RejectVotes, EntriesFit;
    var blocks', queue' := WithoutCommit(blocks, queue[0].commit.index), queue[1..];
    forall k, b | 0 <= k < n - 1 && b in queue'[k].commit.blocks
      ensures IsMappedAs(blocks', b, queue'[k].commit.index)
    {
      assert IsMappedAs(blocks, b, queue[k + 1].commit.index);
    }
    forall r | r in blocks'
      ensures exists k :: 0 <= k < n - 1 && Holds(queue'[k].commit, blocks'[r])
    {
      var k :| 0 <= k < n && Holds(queue[k].commit, blocks[r]);
      assert k > 0;
      assert Holds(queue'[k - 1].commit, blocks'[r]);
    }
  }

  /** One commit leaves the front of the queue; the last commit may not be mapped yet. */
  lemma PopKeepsAll(c: Committee, blocks: BlockMap, queue: Queue, n: nat)
    requires queue != [] && n <= |queue| && Mapped(blocks, queue, n) && Linked(c, blocks, {})
    requires Sequenced(queue) && StatesFit(queue) && UnprocessedIsRecent(queue)
    ensures var n' := if n > 0 then n - 1 else 0;
            var blocks' := blocks - Refs(queue[0].commit.blocks);
            Mapped(blocks', queue[1..], n') && Linked(c, blocks', {})
    ensures Sequenced(queue[1..]) && StatesFit(queue[1..]) && UnprocessedIsRecent(queue[1..])
  {
    hide IsCommittable, RejectVotes, ChildrenFit, CommitsFit, OriginsFit, StateFits, DistinctRefs;
    if n > 0 {
      PopRemovesCommit(c, blocks, queue, n);
      PopKeepsMapped(c, blocks, queue, n);
      RemoveKeepsLinked(c, blocks, queue[0].commit.index);
    } else {
      assert blocks == map[];
      assert blocks - Refs(queue[0].commit.blocks) == blocks;
    }
  }

  // ----- entering the queue

  /** What is required of the next commit: it follows the queue, its blocks are verified and new,
      and no buffered block descends from one of them. */
  ghost predicate CanFollow(c: Committee, blocks: BlockMap, queue: Queue, commit: CommittedSubDag) {
    && commit.blocks != [] && DistinctRefs(commit.blocks)
    && (forall b :: b in commit.blocks ==> IsCommittable(c, b) && b.Ref() !in blocks)
    && (forall b, x :: b in commit.blocks && x in blocks ==> b.Ref() !in blocks[x].block.ancestors)
    && (queue != [] ==>
          && commit.index == queue[|queue| - 1].commit.index + 1
          && commit.leader.round >= queue[|queue| - 1].commit.leader.round)
  }

  lemma PushKeepsQueue(c: Committee, blocks: BlockMap, queue: Queue, commit: CommittedSubDag)
    requires Sequenced(queue) && StatesFit(queue) && Mapped(blocks, queue, |queue|)
    requires CanFollow(c, blocks, queue, commit)
    ensures var queue' := queue + [NewCommitState(commit)];
            Sequenced(queue') && StatesFit(queue') && Mapped(blocks, queue', |queue|)
  {
    hide IsCommittable, StateFits, DistinctRefs;
    NewStateFits(commit);
    var queue' := queue + [NewCommitState(commit)];
    forall r | r in blocks
      ensures exists k :: 0 <= k < |queue| && Holds(queue'[k].commit, blocks[r])
    {
      var k :| 0 <= k < |queue| && Holds(queue[k].commit, blocks[r]);
      assert Holds(queue'[k].commit, blocks[r]);
    }
  }

  // ----- the queries of indirect finalization

  function GcRounds(queue: Queue, gcDepth: nat): seq<(nat, Round)> {
    seq(|queue|, k requires 0 <= k < |queue| => (queue[k].commit.index, GcRound(queue[k].commit.leader.round, gcDepth)))
  }

  /** Every lookup of a traversal for a block of the first commit is in range. */
  lemma QueriesAreValid(c: Committee, blocks: BlockMap, queue: Queue, gcDepth: nat, r: BlockRef)
    requires queue != [] && Sequenced(queue) && Mapped(blocks, queue, |queue|) && Linked(c, blocks, {})
    requires r in Refs(queue[0].commit.blocks) && c.quorumThreshold > 0
    ensures Query(c, blocks, GcRounds(queue, gcDepth), r).Valid()
  {
    LinkedIsWellLinked(c, blocks);
    GcRoundsFit(queue, gcDepth);
    IndicesFit(blocks, queue, r);
    hide Linked, WellLinked, Mapped, Sequenced, GcRoundsFrom, Refs;
  }

  lemma GcRoundsFit(queue: Queue, gcDepth: nat)
    requires queue != [] && Sequenced(queue)
    ensures GcRoundsFrom(GcRounds(queue, gcDepth), queue[0].commit.index)
  {
    var gcRounds := GcRounds(queue, gcDepth);
    forall k | 0 <= k < |gcRounds|
      ensures gcRounds[k].0 == queue[0].commit.index + k
    {
    }
    forall k, l | 0 <= k <= l < |gcRounds|
      ensures gcRounds[k].1 <= gcRounds[l].1
    {
    }
  }

  lemma IndicesFit(blocks: BlockMap, queue: Queue, r: BlockRef)
    requires queue != [] && Sequenced(queue) && Mapped(blocks, queue, |queue|) && r in Refs(queue[0].commit.blocks)
    ensures r in blocks && blocks[r].commitIndex == queue[0].commit.index
    ensures forall x :: x in blocks ==> blocks[x].commitIndex <= queue[0].commit.index + |queue|
  {
    var b :| b in queue[0].commit.blocks && b.Ref() == r;
    assert IsMappedAs(blocks, b, queue[0].commit.index);
    forall x | x in blocks
      ensures blocks[x].commitIndex <= queue[0].commit.index + |queue|
    {
      var k :| 0 <= k < |queue| && Holds(queue[k].commit, blocks[x]);
    }
  }

  // ----- changing a commit of the queue

  lemma UpdateKeepsMapped(blocks: BlockMap, queue: Queue, n: nat, i: nat, s: CommitState)
    requires i < |queue| && n <= |queue| && s.commit == queue[i].commit && Mapped(blocks, queue, n)
    ensures Mapped(blocks, queue[i := s], n)
  {
    var queue' := queue[i := s];
    forall r | r in blocks
      ensures exists k :: 0 <= k < n && Holds(queue'[k].commit, blocks[r])
    {
      var k :| 0 <= k < n && Holds(queue[k].commit, blocks[r]);
      assert Holds(queue'[k].commit, blocks[r]);
    }
    forall k, b | 0 <= k < n && b in queue'[k].commit.blocks
      ensures IsMappedAs(blocks, b, queue'[k].commit.index)
    {
      assert b in queue[k].commit.blocks;
    }
  }

  /** Changing only what is pending in a commit keeps the queue in shape. */
  lemma UpdateKeepsQueue(blocks: BlockMap, queue: Queue, n: nat, i: nat, s: CommitState)
    requires i < |queue| && n <= |queue| && s.commit == queue[i].commit && StateFits(s)
    requires Sequenced(queue) && StatesFit(queue) && Mapped(blocks, queue, n)
    ensures Sequenced(queue[i := s]) && StatesFit(queue[i := s]) && Mapped(blocks, queue[i := s], n)
  {
    hide StateFits, DistinctRefs, Mapped;
    UpdateKeepsMapped(blocks, queue, n, i, s);
  }

  /** At most three commits stay buffered when leader rounds strictly increase. */
  lemma {:induction false} BoundedQueueIsShort(queue: Queue)
    requires IsBounded(queue) && queue != []
    requires forall k, l :: 0 <= k < l < |queue| ==> queue[k].commit.leader.round < queue[l].commit.leader.round
    ensures |queue| <= INDIRECT_REJECT_DEPTH
  {
    RoundsAdvance(queue, |queue| - 1);
  }

  lemma {:induction false} RoundsAdvance(queue: Queue, k: nat)
    requires k < |queue|
    requires forall k, l :: 0 <= k < l < |queue| ==> queue[k].commit.leader.round < queue[l].commit.leader.round
    ensures queue[k].commit.leader.round >= queue[0].commit.leader.round + k
  {
    if k == 0 {
    } else {
      RoundsAdvance(queue, k - 1);
    }
  }
}
