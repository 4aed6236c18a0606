/** The finalizer at work: it takes commits from the linearizer, reads reject votes from the vote tracker, and lets the
    tracker drop what finalized commits no longer need. */
module FinalizerTask {
  import opened Blocks
  import opened Dags
  import opened BlockIndex
  import opened VoteTraversal
  import opened FinalizerLinks
  import opened FinalizerState
  import opened FinalizerQueue
  import opened FinalizerFates
  import opened CommitFinalizers
  import opened FinalizerHistory
  import opened Linearizers
  import opened CommitPipeline
  import opened VoteTrackers

  /** Every block of the buffered commits has an entry. */
  ghost predicate HasEntries(votes: Votes, queue: Queue) {
    forall k, b :: 0 <= k < |queue| && b in queue[k].commit.blocks ==> b.Ref() in votes
  }

  /** The round up to which the last commit that came out lets the tracker drop votes. */
  ghost function GcAfter(emitted: seq<CommittedSubDag>, gcDepth: nat): Round {
    if emitted == [] then 0 else GcRound(emitted[|emitted| - 1].leader.round, gcDepth)
  }

  /** The finalizer has taken the commits of the leaders in order, and the tracker keeps what it still has to look
      up. */
  ghost predicate InStep(w: World, leaders: seq<BlockRef>, f: CommitFinalizer, tracker: TransactionVoteTracker)
    reads f, tracker
  {
    && f.Valid() && tracker.Valid() && f.committee == tracker.committee == w.committee
    && AreCommits(w, f.gcDepth, leaders, f.received)
    && HasEntries(tracker.votes, f.pending) && tracker.gcRound == GcAfter(f.emitted, f.gcDepth)
  }

  /** The next commit of the linearizer. The tracker has counted its blocks, unless it has dropped them. */
  ghost predicate IsNext(w: World, leaders: seq<BlockRef>, f: CommitFinalizer, tracker: TransactionVoteTracker,
                         commit: CommittedSubDag)
    reads f, tracker
  {
    && AreCommits(w, f.gcDepth, leaders, f.received + [commit])
    && forall b :: b in commit.blocks && b.round > tracker.gcRound ==> b.Ref() in tracker.votes
  }

  /** The reject stakes of all buffered blocks. No lookup fails. */
  method ReadStakes(tracker: TransactionVoteTracker, queue: Queue) returns (stakes: RejectStakes)
    requires tracker.Valid() && HasEntries(tracker.votes, queue)
    ensures AreTrackedStakes(tracker.committee, tracker.processed, tracker.processed, tracker.gcRound, stakes)
    ensures KnowsVotes(stakes, queue)
  {
    hide TransactionVoteTracker.Valid, IsTrackedStake;
    stakes := map[];
    for k := 0 to |queue|
      invariant AreTrackedStakes(tracker.committee, tracker.processed, tracker.processed, tracker.gcRound, stakes)
      invariant forall l, b :: 0 <= l < k && b in queue[l].commit.blocks ==> b.Ref() in stakes
    {
      var blocks := queue[k].commit.blocks;
      for i := 0 to |blocks|
        invariant AreTrackedStakes(tracker.committee, tracker.processed, tracker.processed, tracker.gcRound, stakes)
        invariant forall l, b :: 0 <= l < k && b in queue[l].commit.blocks ==> b.Ref() in stakes
        invariant forall j :: 0 <= j < i ==> blocks[j].Ref() in stakes
      {
        var found := tracker.GetRejectVotes(blocks[i].Ref());
        assert IsReadBetween(tracker.committee, tracker.processed, tracker.processed, blocks[i].Ref(), found.value);
        stakes := stakes[blocks[i].Ref() := found.value];
      }
    }
  }

  /** Blocks arrive and their votes are counted. */
  method CountArrivals(tracker: TransactionVoteTracker, arriving: seq<Block>)
    requires tracker.Valid() && forall b :: b in arriving ==> tracker.committee.IsMember(b.author)
    modifies tracker
    ensures tracker.Valid() && tracker.gcRound == old(tracker.gcRound)
    ensures old(tracker.processed) <= tracker.processed <= old(tracker.processed) + (set b | b in arriving)
    ensures old(tracker.votes).Keys <= tracker.votes.Keys
  {
    hide TransactionVoteTracker.Valid;
    for i := 0 to |arriving|
      invariant tracker.Valid() && tracker.gcRound == old(tracker.gcRound)
      invariant old(tracker.processed) <= tracker.processed <= old(tracker.processed) + (set b | b in arriving)
      invariant old(tracker.votes).Keys <= tracker.votes.Keys
    {
      assert arriving[i] in arriving;
      tracker.AddVotedBlock(arriving[i]);
    }
  }

  /** One turn: the next commit is processed, and the tracker drops what the commits that come out leave behind. What
      is still buffered keeps its entries, so no lookup ever fails. Blocks may arrive between the lookups. */
  method Run(ghost w: World, ghost leaders: seq<BlockRef>, f: CommitFinalizer, tracker: TransactionVoteTracker,
             commit: CommittedSubDag, arriving: seq<Block>)
    returns (finalized: seq<CommittedSubDag>, ghost call: Call)
    requires w.Valid() && InStep(w, leaders, f, tracker) && IsNext(w, leaders, f, tracker, commit)
    requires forall b :: b in arriving ==> tracker.committee.IsMember(b.author)
    modifies f, tracker
    ensures InStep(w, leaders, f, tracker)
    ensures old(tracker.processed) <= tracker.processed <= old(tracker.processed) + (set b | b in arriving)
    ensures f.received == old(f.received) + [commit] && f.emitted == old(f.emitted) + finalized
    ensures call.rules.committee == f.committee && call.rules.gcDepth == f.gcDepth && call.rules.received == f.received
    ensures IsCall(call) && Follows(old(f.received), old(f.pending), call) && call.finalized == finalized
    ensures call.after == f.pending
    ensures AreTrackedStakes(f.committee, old(tracker.processed), tracker.processed, old(tracker.gcRound),
                             call.rules.stakes)
    ensures AreTrackedStakes(f.committee, old(tracker.processed), tracker.processed, old(tracker.gcRound),
                             call.rules.late)
  {
    hide AreCommits, HasEntries, CanFollow, KnowsVotes, AreTrackedStakes, QueueProgresses, AreReceived, NewCommitState,
         GcAfter, CommitFinalizer.Valid, TransactionVoteTracker.Valid;
    ghost var gcDepth, queue0, processed := f.gcDepth, f.pending + [NewCommitState(commit)], tracker.processed;
    FinalizerFacts(f);
    NextCanFollow(w, gcDepth, leaders, f.received, f.emitted, f.pending, f.blocks, commit);
    NextHasEntries(w, gcDepth, leaders, f.received, f.emitted, f.pending, commit, tracker.votes, tracker.gcRound);
    var stakes := ReadStakes(tracker, f.pending + [NewCommitState(commit)]);
    ghost var votes := tracker.votes;
    CountArrivals(tracker, arriving);
    MoreEntries(votes, tracker.votes, queue0);
    var late := ReadStakes(tracker, f.pending + [NewCommitState(commit)]);
    ReadsInMore(f.committee, processed, processed, processed, tracker.processed, tracker.gcRound, stakes);
    ReadsInMore(f.committee, tracker.processed, tracker.processed, processed, tracker.processed, tracker.gcRound, late);
    finalized := f.ProcessCommit(commit, stakes, late);
    call := Call(Rules(f.committee, gcDepth, stakes, late, f.received), queue0, finalized, f.pending);
    CallIsCall(call, old(f.received), old(f.emitted), old(f.pending), commit);
    FinalizerFacts(f);
    StillHasEntries(call.rules, tracker.votes, queue0, finalized, f.pending);
    GcAfterIs(w, gcDepth, leaders, old(f.received), old(f.emitted), old(f.pending));
    GcAfterIs(w, gcDepth, leaders, f.received, f.emitted, f.pending);
    if finalized != [] {
      GcMovesOn(w, gcDepth, leaders, f.received, old(f.emitted), f.emitted, f.pending);
      var round := GcRound(finalized[|finalized| - 1].leader.round, f.gcDepth);
      LastEmitted(old(f.emitted), finalized, gcDepth);
      votes := tracker.votes;
      tracker.UpdateGcRound(round);
      KeptEntries(w, gcDepth, leaders, f.received, f.emitted, f.pending, votes, tracker.votes, round);
    } else {
      assert old(f.emitted) + finalized == old(f.emitted);
    }
  }

  lemma MoreEntries(votes: Votes, votes': Votes, queue: Queue)
    requires HasEntries(votes, queue) && votes.Keys <= votes'.Keys
    ensures HasEntries(votes', queue)
  {
  }

  lemma {:induction false} FinalizerFacts(f: CommitFinalizer)
    requires f.Valid()
    ensures Accounted(f.received, f.emitted, f.pending)
    ensures Mapped(f.blocks, f.pending, |f.pending|) && EntriesFit(f.committee, f.blocks)
    ensures f.lastProcessed == (if f.received == [] then None else Some(f.received[|f.received| - 1].index))
  {
    hide Accounted, Mapped, EntriesFit, Sequenced, StatesFit, IsBounded;
  }

  lemma NextCanFollow(w: World, gcDepth: nat, leaders: seq<BlockRef>, received: seq<CommittedSubDag>,
                      emitted: seq<CommittedSubDag>, queue: Queue, blocks: BlockMap, commit: CommittedSubDag)
    requires w.Valid() && AreCommits(w, gcDepth, leaders, received + [commit]) && Accounted(received, emitted, queue)
    requires Mapped(blocks, queue, |queue|) && EntriesFit(w.committee, blocks)
    ensures CanFollow(w.committee, blocks, queue, commit)
    ensures received != [] ==> commit.index == received[|received| - 1].index + 1
    ensures AreCommits(w, gcDepth, leaders, received)
  {
    hide World.Valid, Mapped, EntriesFit, InSubDag, InOrder, SortedBySlot, DistinctRefs, CanFollow, AreLeaders;
    var commits := received + [commit];
    CommitsCanFollow(w, gcDepth, leaders, commits, |emitted|, queue, blocks);
    assert IsSubDag(w, gcDepth, leaders, |received|, commits[|received|]);
    forall k | 0 <= k < |received|
      ensures IsSubDag(w, gcDepth, leaders, k, received[k])
    {
      assert received[k] == commits[k];
    }
  }

  /** What came out last determines the round up to which votes may be dropped. */
  lemma GcAfterIs(w: World, gcDepth: nat, leaders: seq<BlockRef>, received: seq<CommittedSubDag>,
                  emitted: seq<CommittedSubDag>, queue: Queue)
    requires AreCommits(w, gcDepth, leaders, received) && Accounted(received, emitted, queue)
    ensures |emitted| <= |leaders| && GcAfter(emitted, gcDepth) == GcBefore(leaders, gcDepth, |emitted|)
  {
    hide InSubDag, InOrder, SortedBySlot, DistinctRefs;
    if emitted != [] {
      assert IsSubDag(w, gcDepth, leaders, |emitted| - 1, received[|emitted| - 1]);
    }
  }

  /** Blocks of a commit are above the garbage collection round of all commits before it. */
  lemma CommittedIsAbove(w: World, gcDepth: nat, leaders: seq<BlockRef>, commits: seq<CommittedSubDag>, k: nat, n: nat,
                         b: Block)
    requires AreCommits(w, gcDepth, leaders, commits) && n <= k < |commits| && b in commits[k].blocks
    ensures b.round > GcBefore(leaders, gcDepth, n)
  {
    hide InOrder, SortedBySlot, DistinctRefs, Reaches, IsCommittedBefore;
    assert IsSubDag(w, gcDepth, leaders, k, commits[k]);
    assert b.Ref() in Refs(commits[k].blocks);
    GcBeforeIsMonotone(w, gcDepth, leaders, n, k);
  }

  lemma NextHasEntries(w: World, gcDepth: nat, leaders: seq<BlockRef>, received: seq<CommittedSubDag>,
                       emitted: seq<CommittedSubDag>, queue: Queue, commit: CommittedSubDag, votes: Votes,
                       gcRound: Round)
    requires AreCommits(w, gcDepth, leaders, received + [commit]) && AreCommits(w, gcDepth, leaders, received)
    requires Accounted(received, emitted, queue) && HasEntries(votes, queue) && gcRound == GcAfter(emitted, gcDepth)
    requires forall b :: b in commit.blocks && b.round > gcRound ==> b.Ref() in votes
    ensures HasEntries(votes, queue + [NewCommitState(commit)])
  {
    hide AreCommits, NumTransactions;
    GcAfterIs(w, gcDepth, leaders, received, emitted, queue);
    forall b | b in commit.blocks
      ensures b.Ref() in votes
    {
      CommittedIsAbove(w, gcDepth, leaders, received + [commit], |received|, |emitted|, b);
    }
  }

  lemma CallIsCall(x: Call, received: seq<CommittedSubDag>, emitted: seq<CommittedSubDag>, queue: Queue,
                   commit: CommittedSubDag)
    requires x.rules.received == received + [commit] && x.before == queue + [NewCommitState(commit)]
    requires Accounted(received, emitted, queue)
    requires AreReceived(x.rules, |emitted|, x.before) && QueueProgresses(x.rules, x.before, x.finalized, x.after)
    ensures IsCall(x) && Follows(received, queue, x)
  {
    hide QueueProgresses, NewCommitState;
    assert x.rules.received[..|received|] == received;
  }

  lemma StillHasEntries(x: Rules, votes: Votes, queue0: Queue, finalized: seq<CommittedSubDag>, queue: Queue)
    requires HasEntries(votes, queue0) && QueueProgresses(x, queue0, finalized, queue)
    ensures HasEntries(votes, queue)
  {
    hide IsSettledAs, IsTraceable, IsJustified, IsUndecided;
    forall k, b | 0 <= k < |queue| && b in queue[k].commit.blocks
      ensures b.Ref() in votes
    {
      assert Progresses(x, queue0[|finalized| + k], queue[k]);
      assert b in queue0[|finalized| + k].commit.blocks;
    }
  }

  lemma GcMovesOn(w: World, gcDepth: nat, leaders: seq<BlockRef>, received: seq<CommittedSubDag>,
                  emitted: seq<CommittedSubDag>, emitted': seq<CommittedSubDag>, queue: Queue)
    requires AreCommits(w, gcDepth, leaders, received) && Accounted(received, emitted', queue)
    requires |emitted| <= |emitted'|
    requires GcAfter(emitted, gcDepth) == GcBefore(leaders, gcDepth, |emitted|)
    ensures GcAfter(emitted, gcDepth) <= GcAfter(emitted', gcDepth)
  {
    GcAfterIs(w, gcDepth, leaders, received, emitted', queue);
    GcBeforeIsMonotone(w, gcDepth, leaders, |emitted|, |emitted'|);
  }

  lemma LastEmitted(emitted: seq<CommittedSubDag>, finalized: seq<CommittedSubDag>, gcDepth: nat)
    requires finalized != []
    ensures GcAfter(emitted + finalized, gcDepth) == GcRound(finalized[|finalized| - 1].leader.round, gcDepth)
  {
  }

  lemma KeptEntries(w: World, gcDepth: nat, leaders: seq<BlockRef>, received: seq<CommittedSubDag>,
                    emitted: seq<CommittedSubDag>, queue: Queue, votes: Votes, votes': Votes, round: Round)
    requires AreCommits(w, gcDepth, leaders, received) && Accounted(received, emitted, queue)
    requires round == GcAfter(emitted, gcDepth)
    requires HasEntries(votes, queue) && forall r: BlockRef :: r in votes && r.round > round ==> r in votes'
    ensures HasEntries(votes', queue)
  {
    hide AreCommits;
    GcAfterIs(w, gcDepth, leaders, received, emitted, queue);
    forall k, b | 0 <= k < |queue| && b in queue[k].commit.blocks
      ensures b.Ref() in votes'
    {
      CommittedIsAbove(w, gcDepth, leaders, received, |emitted| + k, |emitted|, b);
    }
  }
}
