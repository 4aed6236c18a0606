/** Why each transaction of a commit is finalized or rejected. */
module FinalizerFates {
  import opened Committees
  import opened Blocks
  import opened VoteTraversal
  import opened FinalizerLinks
  import opened FinalizerState
  import opened FinalizerQueue

  // ----- the two kinds of steps

  /** A commit is as before, or has been through direct finalization: it was decided locally, or
      the last commit is at least a wave later. */
  ghost predicate DirectStepOf(c: Committee, gcDepth: nat, stakes: RejectStakes, queue: Queue, k: nat, s': CommitState)
    requires k < |queue|
  {
    var s := queue[k];
    || s' == s
    || (&& s.pendingBlocks != map[] && s.pendingBlocks.Keys <= stakes.Keys
        && (|| s.commit.decidedWithLocalBlocks
            || s.commit.leader.round + INDIRECT_REJECT_DEPTH <= queue[|queue| - 1].commit.leader.round)
        && s'.commit == s.commit && s'.pendingBlocks == map[]
        && DirectOutcome(c, GcRound(s.commit.leader.round + INDIRECT_REJECT_DEPTH, gcDepth), stakes, s.pendingBlocks,
                         s.pendingBlocks.Keys, s'.pendingTransactions, s'.rejectedTransactions))
  }

  /** The last commit is at least a wave after the first. */
  predicate IsExpired(queue: Queue)
    requires queue != []
  {
    queue[0].commit.leader.round + INDIRECT_REJECT_DEPTH <= queue[|queue| - 1].commit.leader.round
  }

  /** The first commit after indirect finalization against the buffered blocks. */
  ghost predicate IndirectStepOf(c: Committee, gcDepth: nat, blocks: BlockMap, stakes: RejectStakes, queue: Queue,
                                 s': CommitState)
    requires queue != []
  {
    var x := Context(c, blocks, GcRounds(queue, gcDepth));
    && queue[0].pendingTransactions.Keys <= stakes.Keys
    && x.Covers(queue[0].pendingTransactions.Keys)
    && FinalOutcome(x, stakes, IsExpired(queue), queue[0], s')
  }

  // ----- reasons

  /** What the decisions of one call go by: the reject stakes as read for direct and, later, for indirect finalization,
      and all commits so far. */
  datatype Rules = Rules(
    committee: Committee,
    gcDepth: nat,
    stakes: RejectStakes,
    late: RejectStakes,
    received: seq<CommittedSubDag>)

  /** Only the last commit may be a wave after another. */
  ghost predicate IsBoundedButLast(queue: Queue) {
    forall i, j :: 0 <= i <= j < |queue| - 1 ==>
      queue[j].commit.leader.round < queue[i].commit.leader.round + INDIRECT_REJECT_DEPTH
  }

  /** The queue holds received commits from the k-th on, and the map holds their blocks. */
  ghost predicate IsBufferAt(x: Rules, k: nat, queue: Queue, blocks: BlockMap) {
    && queue != [] && k + |queue| <= |x.received|
    && (forall i :: 0 <= i < |queue| ==> queue[i].commit == x.received[k + i])
    && Sequenced(queue) && IsBoundedButLast(queue)
    && Mapped(blocks, queue, |queue|) && Linked(x.committee, blocks, {})
  }

  /** A buffer that starts with the commit, and in which the votes on a block can be counted. */
  ghost predicate CanCount(x: Rules, commit: CommittedSubDag, r: BlockRef, k: nat, queue: Queue, blocks: BlockMap) {
    && IsBufferAt(x, k, queue, blocks) && queue[0].commit == commit
    && Query(x.committee, blocks, GcRounds(queue, x.gcDepth), r).Valid()
  }

  ghost predicate IsAcceptedIn(x: Rules, commit: CommittedSubDag, r: BlockRef, t: nat, k: nat, queue: Queue,
                               blocks: BlockMap)
  {
    && CanCount(x, commit, r, k, queue, blocks)
    && Query(x.committee, blocks, GcRounds(queue, x.gcDepth), r).IsAccepted(t)
  }

  ghost predicate IsMissedIn(x: Rules, commit: CommittedSubDag, r: BlockRef, t: nat, k: nat, queue: Queue,
                             blocks: BlockMap)
  {
    && CanCount(x, commit, r, k, queue, blocks) && IsExpired(queue)
    && !Query(x.committee, blocks, GcRounds(queue, x.gcDepth), r).IsAccepted(t)
  }

  /** A quorum rejects the transaction, or a wave has passed without a quorum of accepts. */
  ghost predicate MayReject(x: Rules, commit: CommittedSubDag, r: BlockRef, t: nat) {
    || (r in x.stakes && IsRejectedByQuorum(x.committee, x.stakes, r, t))
    || (r in x.late && IsRejectedByQuorum(x.committee, x.late, r, t))
    || exists k, queue, blocks :: IsMissedIn(x, commit, r, t, k, queue, blocks)
  }

  /** Nobody is known to reject the transaction, its votes are not garbage collected, and the commit was decided
      locally or a wave has passed. */
  ghost predicate MayFinalizeDirectly(x: Rules, commit: CommittedSubDag, r: BlockRef, t: nat) {
    && r in x.stakes && t !in x.stakes[r] && r.round > GcRound(commit.leader.round + INDIRECT_REJECT_DEPTH, x.gcDepth)
    && x.received != []
    && (|| commit.decidedWithLocalBlocks
        || commit.leader.round + INDIRECT_REJECT_DEPTH <= x.received[|x.received| - 1].leader.round)
  }

  /** The transaction can be finalized directly, or there is a quorum of accepts. */
  ghost predicate MayFinalize(x: Rules, commit: CommittedSubDag, r: BlockRef, t: nat) {
    || MayFinalizeDirectly(x, commit, r, t)
    || exists k, queue, blocks :: IsAcceptedIn(x, commit, r, t, k, queue, blocks)
  }

  /** The round at or below which votes on a commit may be garbage collected. */
  function VoteGcRound(gcDepth: nat, commit: CommittedSubDag): Round {
    GcRound(commit.leader.round + INDIRECT_REJECT_DEPTH, gcDepth)
  }

  /** The transaction is part of the block, or at least all votes on the block are at hand. */
  ghost predicate IsDecidable(gcDepth: nat, commit: CommittedSubDag, r: BlockRef, t: nat) {
    && r in NumTransactions(commit.blocks)
    && (t < NumTransactions(commit.blocks)[r] || r.round > VoteGcRound(gcDepth, commit))
  }

  /** Reject votes on the transaction are looked at. */
  ghost predicate IsLookedAt(gcDepth: nat, commit: CommittedSubDag, r: BlockRef, t: nat) {
    && r in NumTransactions(commit.blocks)
    && (t < NumTransactions(commit.blocks)[r]
        || !OutsideGcBound(r, NumTransactions(commit.blocks)[r], VoteGcRound(gcDepth, commit)))
  }

  /** The transaction is not decided yet. */
  ghost predicate IsUndecided(gcDepth: nat, s: CommitState, r: BlockRef, t: nat) {
    if s.pendingBlocks != map[] then IsDecidable(gcDepth, s.commit, r, t)
    else Has(s.pendingTransactions, r, t)
  }

  /** Every decision between the two states has a reason. */
  ghost predicate IsJustified(x: Rules, s: CommitState, s': CommitState) {
    && (forall r, t :: Has(s'.rejectedTransactions, r, t) && !Has(s.rejectedTransactions, r, t) ==>
          MayReject(x, s.commit, r, t))
    && (forall r, t :: IsUndecided(x.gcDepth, s, r, t) && !IsUndecided(x.gcDepth, s', r, t) ==>
          Has(s'.rejectedTransactions, r, t) || MayFinalize(x, s.commit, r, t))
  }

  /** What is pending or rejected was so before, or is looked at for the first time. */
  ghost predicate IsTraceable(x: Rules, s: CommitState, s': CommitState) {
    && (NoEmptyEntry(s.rejectedTransactions) ==> NoEmptyEntry(s'.rejectedTransactions))
    && forall r, t :: Has(s'.pendingTransactions, r, t) || Has(s'.rejectedTransactions, r, t) ==>
         || Has(s.pendingTransactions, r, t) || Has(s.rejectedTransactions, r, t)
         || (s.pendingBlocks != map[] && IsLookedAt(x.gcDepth, s.commit, r, t))
  }

  /** A commit only moves forward: a decided transaction is never pending again, a rejected one stays
      rejected, and every decision has a reason. */
  ghost predicate Progresses(x: Rules, s: CommitState, s': CommitState) {
    && s'.commit == s.commit
    && (s.pendingBlocks == map[] ==> s'.pendingBlocks == map[])
    && (forall r, t :: s.pendingBlocks == map[] && IsUndecided(x.gcDepth, s', r, t) ==> IsUndecided(x.gcDepth, s, r, t))
    && (forall r, t :: Has(s.rejectedTransactions, r, t) ==> Has(s'.rejectedTransactions, r, t))
    && IsJustified(x, s, s') && IsTraceable(x, s, s')
  }

  lemma ProgressIsTransitive(x: Rules, s: CommitState, s': CommitState, s'': CommitState)
    requires Progresses(x, s, s') && Progresses(x, s', s'')
    ensures Progresses(x, s, s'')
  {
    hide MayReject, MayFinalize, Has, IsUndecided, IsLookedAt, NoEmptyEntry;
  }

  lemma NoChangeProgresses(x: Rules, s: CommitState)
    ensures Progresses(x, s, s)
  {
    hide MayReject, MayFinalize, IsLookedAt, IsDecidable;
  }

  /** Direct finalization gives reasons. */
  lemma DirectStepProgresses(x: Rules, queue: Queue, k: nat, s': CommitState)
    requires k < |queue| && StateFits(queue[k]) && DirectStepOf(x.committee, x.gcDepth, x.stakes, queue, k, s')
    requires x.received != [] && queue[|queue| - 1].commit == x.received[|x.received| - 1]
    ensures Progresses(x, queue[k], s')
  {
    var s := queue[k];
    if s' == s {
      NoChangeProgresses(x, s);
    } else {
      DirectFinalization(x, s, s');
      DirectRejection(x, s, s');
      hide MayReject, MayFinalize, DirectOutcome, IsDecidable, IsLookedAt;
      assert forall r, t :: !Has(s.rejectedTransactions, r, t);
    }
  }

  lemma DirectFinalization(x: Rules, s: CommitState, s': CommitState)
    requires StateFits(s) && s.pendingBlocks != map[] && s'.pendingBlocks == map[]
    requires s.pendingBlocks.Keys <= x.stakes.Keys
    requires x.received != []
    requires || s.commit.decidedWithLocalBlocks
             || s.commit.leader.round + INDIRECT_REJECT_DEPTH <= x.received[|x.received| - 1].leader.round
    requires DirectOutcome(x.committee, VoteGcRound(x.gcDepth, s.commit), x.stakes, s.pendingBlocks,
                           s.pendingBlocks.Keys, s'.pendingTransactions, s'.rejectedTransactions)
    ensures forall r, t :: IsUndecided(x.gcDepth, s, r, t) && !IsUndecided(x.gcDepth, s', r, t) ==>
              Has(s'.rejectedTransactions, r, t) || MayFinalize(x, s.commit, r, t)
  {
    var g := VoteGcRound(x.gcDepth, s.commit);
    forall r, t | IsUndecided(x.gcDepth, s, r, t) && !IsUndecided(x.gcDepth, s', r, t)
                && !Has(s'.rejectedTransactions, r, t)
      ensures MayFinalizeDirectly(x, s.commit, r, t)
    {
      assert !StaysPending(x.committee, g, x.stakes, r, s.pendingBlocks[r], t);
      assert !IsRejectedDirectly(x.committee, g, x.stakes, r, s.pendingBlocks[r], t);
    }
  }

  lemma DirectRejection(x: Rules, s: CommitState, s': CommitState)
    requires StateFits(s) && s.pendingBlocks != map[] && s.pendingBlocks.Keys <= x.stakes.Keys
    requires DirectOutcome(x.committee, VoteGcRound(x.gcDepth, s.commit), x.stakes, s.pendingBlocks,
                           s.pendingBlocks.Keys, s'.pendingTransactions, s'.rejectedTransactions)
    ensures forall r, t :: Has(s'.rejectedTransactions, r, t) ==> MayReject(x, s.commit, r, t)
    ensures forall r, t :: Has(s'.pendingTransactions, r, t) || Has(s'.rejectedTransactions, r, t) ==>
              IsLookedAt(x.gcDepth, s.commit, r, t)
    ensures NoEmptyEntry(s'.rejectedTransactions)
  {
    var g := VoteGcRound(x.gcDepth, s.commit);
    forall r, t | Has(s'.rejectedTransactions, r, t)
      ensures MayReject(x, s.commit, r, t)
    {
      assert IsRejectedDirectly(x.committee, g, x.stakes, r, s.pendingBlocks[r], t);
    }
  }

  /** Indirect finalization gives reasons. */
  lemma IndirectStepProgresses(x: Rules, k: nat, queue: Queue, blocks: BlockMap, s': CommitState)
    requires queue != [] && IsBufferAt(x, k, queue, blocks) && queue[0].pendingBlocks == map[]
    requires IndirectStepOf(x.committee, x.gcDepth, blocks, x.late, queue, s')
    ensures Progresses(x, queue[0], s')
  {
    hide IsBufferAt, Query.Valid, Query.IsAccepted, IsExpired, GcRounds;
    var s := queue[0];
    var ctx := Context(x.committee, blocks, GcRounds(queue, x.gcDepth));
    forall r, t | Has(s.pendingTransactions, r, t)
      ensures CanCount(x, s.commit, r, k, queue, blocks) && r in x.late
    {
      assert ctx.For(r).Valid();
    }
    forall r, t | Has(s'.rejectedTransactions, r, t) && !Has(s.rejectedTransactions, r, t)
      ensures MayReject(x, s.commit, r, t)
    {
      if !IsRejectedByQuorum(x.committee, x.late, r, t) {
        assert IsMissedIn(x, s.commit, r, t, k, queue, blocks);
      }
    }
    forall r, t | IsUndecided(x.gcDepth, s, r, t) && !IsUndecided(x.gcDepth, s', r, t)
                && !Has(s'.rejectedTransactions, r, t)
      ensures MayFinalize(x, s.commit, r, t)
    {
      assert IsAcceptedIn(x, s.commit, r, t, k, queue, blocks);
    }
    hide MayReject, MayFinalize, CanCount, IsLookedAt, IsDecidable;
  }
}
