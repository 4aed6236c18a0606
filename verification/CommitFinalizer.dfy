/** Buffers commits in order and emits them once every transaction is finalized or rejected. */
module CommitFinalizers {
  import opened Committees
  import opened Blocks
  import opened BlockIndex
  import opened BlockManagers
  import opened VoteTraversal
  import opened FinalizerLinks
  import opened FinalizerState
  import opened FinalizerQueue
  import opened FinalizerFates

  class CommitFinalizer {
    const committee: Committee
    const gcDepth: nat

    var lastProcessed: Option<nat>
    var pending: Queue
    var blocks: BlockMap

    // All commits taken in, and all commits given out.
    ghost var received: seq<CommittedSubDag>
    ghost var emitted: seq<CommittedSubDag>

    ghost predicate Valid()
      reads this
    {
      && committee.quorumThreshold > 0
      && Sequenced(pending) && StatesFit(pending) && IsBounded(pending)
      && Mapped(blocks, pending, |pending|) && Linked(committee, blocks, {})
      && lastProcessed == (if received == [] then None else Some(received[|received| - 1].index))
      && Accounted(received, emitted, pending)
    }

    constructor (committee: Committee, gcDepth: nat)
      requires committee.quorumThreshold > 0
      ensures Valid() && this.committee == committee && this.gcDepth == gcDepth
      ensures received == [] && emitted == []
    {
      this.committee, this.gcDepth := committee, gcDepth;
      lastProcessed, pending, blocks, received, emitted := None, [], map[], [], [];
    }

    // ----- direct finalization

    /** Runs direct finalization on the buffered commits, in order, up to the first remote commit
        that is less than a wave old. */
    method FinalizeDirectly(stakes: RejectStakes, ghost n: nat)
      requires pending != [] && n <= |pending|
      requires Sequenced(pending) && StatesFit(pending) && Mapped(blocks, pending, n)
      requires KnowsVotes(stakes, pending)
      modifies this`pending
      ensures |pending| == |old(pending)|
      ensures Sequenced(pending) && StatesFit(pending) && Mapped(blocks, pending, n)
      ensures UnprocessedIsRecent(pending)
      ensures forall k :: 0 <= k < |pending| ==> DirectStepOf(committee, gcDepth, stakes, old(pending), k, pending[k])
    {
      hide Sequenced, StatesFit, Mapped, StateFits, DirectOutcome;
      var last := pending[|pending| - 1].commit.leader.round;
      for i := 0 to |pending|
        invariant |pending| == |old(pending)|
        invariant Sequenced(pending) && StatesFit(pending) && Mapped(blocks, pending, n)
        invariant forall k :: 0 <= k < i ==> pending[k].pendingBlocks == map[]
        invariant forall k :: i <= k < |pending| ==> pending[k] == old(pending)[k]
        invariant forall k :: 0 <= k < |pending| ==> pending[k].commit == old(pending)[k].commit
        invariant forall k :: 0 <= k < |pending| ==>
                    DirectStepOf(committee, gcDepth, stakes, old(pending), k, pending[k])
      {
        var s := pending[i];
        if s.pendingBlocks != map[] {
          if !s.commit.decidedWithLocalBlocks && s.commit.leader.round + INDIRECT_REJECT_DEPTH > last {
            RestIsRecent(pending, i);
            return;
          }
          StateAt(pending, stakes, old(pending), i);
          var voteGcRound := GcRound(s.commit.leader.round + INDIRECT_REJECT_DEPTH, gcDepth);
          var s' := DirectlyFinalize(s, committee, voteGcRound, stakes);
          UpdateKeepsQueue(blocks, pending, n, i, s');
          pending := pending[i := s'];
        }
      }
    }

    // ----- leaving the queue

    /** Removes the finalized commits at the front of the queue, with their blocks. */
    method PopFinalizedCommits(ghost n: nat) returns (finalized: seq<CommittedSubDag>, ghost n': nat)
      requires n <= |pending| && Mapped(blocks, pending, n) && Linked(committee, blocks, {})
      requires Sequenced(pending) && StatesFit(pending) && UnprocessedIsRecent(pending)
      modifies this`pending, this`blocks
      ensures |finalized| <= |old(pending)| && pending == old(pending)[|finalized|..]
      ensures forall i :: 0 <= i < |finalized| ==> old(pending)[i].IsDone() && finalized[i] == Emit(old(pending)[i])
      ensures pending != [] ==> !pending[0].IsDone()
      ensures n' == (if n >= |finalized| then n - |finalized| else 0) && n' <= |pending|
      ensures Mapped(blocks, pending, n') && Linked(committee, blocks, {})
      ensures Sequenced(pending) && StatesFit(pending) && UnprocessedIsRecent(pending)
      ensures forall r :: r in blocks ==> r in old(blocks) && blocks[r] == old(blocks)[r]
    {
      hide Sequenced, StatesFit, UnprocessedIsRecent, Mapped, Linked, Emit, Refs;
      finalized, n' := [], n;
      while pending != [] && pending[0].IsDone()
        invariant |finalized| <= |old(pending)| && pending == old(pending)[|finalized|..]
        invariant forall i :: 0 <= i < |finalized| ==> old(pending)[i].IsDone() && finalized[i] == Emit(old(pending)[i])
        invariant n' == (if n >= |finalized| then n - |finalized| else 0) && n' <= |pending|
        invariant Mapped(blocks, pending, n') && Linked(committee, blocks, {})
        invariant Sequenced(pending) && StatesFit(pending) && UnprocessedIsRecent(pending)
        invariant forall r :: r in blocks ==> r in old(blocks) && blocks[r] == old(blocks)[r]
        decreases |pending|
      {
        PopKeepsAll(committee, blocks, pending, n');
        finalized := finalized + [Emit(pending[0])];
        blocks := blocks - Refs(pending[0].commit.blocks);
        pending := pending[1..];
        n' := if n' > 0 then n' - 1 else 0;
      }
    }

    // ----- linking the blocks of the last commit

    /** Gives every block of the last commit an entry and links its ancestors to it, lowest rounds
        first. */
    method LinkBlocksInLastCommit()
      requires pending != [] && Mapped(blocks, pending, |pending| - 1) && Linked(committee, blocks, {})
      requires Sequenced(pending)
      requires CanFollow(committee, blocks, pending[..|pending| - 1], pending[|pending| - 1].commit)
      modifies this`blocks
      ensures Mapped(blocks, pending, |pending|)
      ensures Linked(committee, blocks, Refs(pending[|pending| - 1].commit.blocks))
    {
      hide Linked, Mapped, Sequenced, CanFollow, SortedByRound, Refs, LinkBlock;
      var commit := pending[|pending| - 1].commit;
      var sorted := SortByRound(commit.blocks);
      ghost var blocks0 := blocks;
      LinkingStart(committee, blocks, commit);
      for i := 0 to |sorted|
        invariant Linked(committee, blocks, Refs(sorted[..i]))
        invariant Linking(blocks0, blocks, sorted, i, commit.index)
      {
        CanLinkNext(committee, blocks0, pending, commit, blocks, sorted, i);
        LinkKeepsLinked(committee, blocks, sorted[i], commit.index, Refs(sorted[..i]));
        LinkingStep(committee, blocks0, blocks, sorted, i, commit.index);
        blocks := LinkBlock(blocks, sorted[i], commit.index);
      }
      LinkingEnd(committee, blocks0, blocks, pending, sorted);
    }

    /** Records a block with all its origin ancestors that are buffered. */
    method RecordOrigin(x: BlockRef, ghost excluded: set<BlockRef>)
      requires Linked(committee, blocks, excluded) && x in blocks && x in excluded
      modifies this`blocks
      ensures old(blocks)[x].block.ancestors != []
      ensures blocks == RecordFrom(old(blocks), x, old(blocks)[x].block.ancestors[0])
      ensures Linked(committee, blocks, excluded - {x})
    {
      ghost var blocks0 := blocks;
      RecordKeepsLinked(committee, blocks0, x, excluded);
      hide OwnReaches, OriginsFit, RecordFrom, RejectVotes;
      var origin := blocks[x].block.ancestors[0];
      assert origin in blocks[x].block.ancestors;
      while origin.author == x.author && origin in blocks
        invariant origin.author == x.author
        invariant EntriesFit(committee, blocks) && ChildrenFit(blocks) && CommitsFit(blocks)
        invariant RecordFrom(blocks, x, origin) == RecordFrom(blocks0, x, blocks0[x].block.ancestors[0])
        decreases origin.round
      {
        RecordStep(committee, blocks, x, origin);
        OriginOf(committee, blocks, origin);
        PushKeepsEntries(committee, blocks, origin, x);
        var next := blocks[origin].block.ancestors[0];
        blocks := blocks[origin := blocks[origin].(originDescendants := blocks[origin].originDescendants + [x])];
        origin := next;
      }
      RecordNothing(blocks, x, origin);
    }

    /** Records every block of the last commit with its buffered origin ancestors. */
    method AppendOriginDescendants()
      requires pending != [] && Mapped(blocks, pending, |pending|)
      requires Linked(committee, blocks, Refs(pending[|pending| - 1].commit.blocks))
      requires DistinctRefs(pending[|pending| - 1].commit.blocks)
      modifies this`blocks
      ensures Mapped(blocks, pending, |pending|) && Linked(committee, blocks, {})
    {
      hide Linked, Mapped, RecordFrom, SortedByRound;
      var commit := pending[|pending| - 1].commit;
      var sorted := SortByRound(commit.blocks);
      SameRefs(commit.blocks, sorted);
      DistinctSorted(commit.blocks, sorted);
      ghost var excluded := Refs(sorted);
      for i := 0 to |sorted|
        invariant Mapped(blocks, pending, |pending|) && Linked(committee, blocks, excluded)
        invariant excluded == Refs(sorted[i..])
      {
        var x := sorted[i].Ref();
        NextToRecord(blocks, pending, sorted, i);
        ghost var blocks1 := blocks;
        RecordOrigin(x, excluded);
        RecordKeepsMapped(blocks1, blocks, x, blocks1[x].block.ancestors[0], pending);
        excluded := excluded - {x};
      }
      assert sorted[|sorted|..] == [];
      assert Refs([]) == {};
    }

    // ----- indirect finalization

    /** Decides what can be decided about the first commit from the votes in the buffered blocks. */
    method IndirectlyFinalizeFirst(stakes: RejectStakes)
      requires committee.quorumThreshold > 0 && pending != [] && pending[0].pendingBlocks == map[]
      requires Sequenced(pending) && StatesFit(pending) && UnprocessedIsRecent(pending)
      requires Mapped(blocks, pending, |pending|) && Linked(committee, blocks, {})
      requires KnowsVotes(stakes, pending)
      modifies this`pending
      ensures |pending| == |old(pending)| && pending[1..] == old(pending)[1..]
      ensures pending[0].commit == old(pending)[0].commit
      ensures Sequenced(pending) && StatesFit(pending) && UnprocessedIsRecent(pending)
      ensures Mapped(blocks, pending, |pending|)
      ensures IndirectStepOf(committee, gcDepth, blocks, stakes, old(pending), pending[0])
      ensures IsExpired(old(pending)) ==> pending[0].IsDone()
    {
      FirstIsCovered(committee, blocks, pending, gcDepth, stakes);
      hide Sequenced, StatesFit, Mapped, Linked, StateFits, KnowsVotes, FinalOutcome, Context.Covers;
      var x := Context(committee, blocks, GcRounds(pending, gcDepth));
      var s := IndirectlyFinalize(x, stakes, IsExpired(pending), pending[0]);
      OutcomeKeepsCommit(x, stakes, IsExpired(pending), pending[0], s);
      UpdateKeepsQueue(blocks, pending, |pending|, 0, s);
      pending := pending[0 := s];
    }

    /** Repeats indirect finalization from the front of the queue, as long as commits come out. */
    method FinalizeIndirectly(late: RejectStakes, ghost x: Rules, ghost base: nat, ghost queue0: Queue,
                              ghost finalized0: seq<CommittedSubDag>)
      returns (finalized: seq<CommittedSubDag>)
      requires committee.quorumThreshold > 0
      requires x.committee == committee && x.gcDepth == gcDepth && x.late == late && AreReceived(x, base, queue0)
      requires IsBoundedButLast(queue0)
      requires Mapped(blocks, pending, |pending|) && Linked(committee, blocks, {})
      requires Sequenced(pending) && StatesFit(pending) && UnprocessedIsRecent(pending)
      requires KnowsVotes(late, queue0) && QueueProgresses(x, queue0, finalized0, pending)
      modifies this`pending, this`blocks
      ensures Mapped(blocks, pending, |pending|) && Linked(committee, blocks, {})
      ensures Sequenced(pending) && StatesFit(pending) && IsBounded(pending)
      ensures QueueProgresses(x, queue0, finalized0 + finalized, pending)
    {
      hide Sequenced, StatesFit, UnprocessedIsRecent, IsBounded, Mapped, Linked, KnowsVotes, QueueProgresses,
           IndirectStepOf, AreReceived, CommitState.IsDone, IsBufferAt, Progresses, IsBoundedButLast;
      finalized := [];
      assert finalized0 + finalized == finalized0;
      while |pending| > 1
        invariant Mapped(blocks, pending, |pending|) && Linked(committee, blocks, {})
        invariant Sequenced(pending) && StatesFit(pending) && UnprocessedIsRecent(pending)
        invariant QueueProgresses(x, queue0, finalized0 + finalized, pending)
        decreases |pending|
      {
        if pending[0].pendingBlocks != map[] {
          break;
        }
        ghost var done := finalized0 + finalized;
        StillKnowsVotes(x, queue0, done, pending);
        StillReceived(x, base, queue0, done, pending, blocks);
        ghost var queue2 := pending;
        IndirectlyFinalizeFirst(late);
        IndirectStepProgresses(x, base + |done|, queue2, blocks, pending[0]);
        FirstProgresses(x, queue0, done, queue2, pending);
        queue2 := pending;
        var more, _ := PopFinalizedCommits(|pending|);
        PoppedProgresses(x, queue0, done, queue2, more, pending);
        assert finalized0 + finalized + more == finalized0 + (finalized + more);
        finalized := finalized + more;
        if more == [] {
          break;
        }
      }
      BoundFollows(pending);
    }

    // ----- the whole step

    /** Takes in the next commit and gives out the commits that are settled now. Reject stakes are read for direct and
        again for indirect finalization; they may have grown in between. */
    method ProcessCommit(commit: CommittedSubDag, stakes: RejectStakes, late: RejectStakes)
      returns (finalized: seq<CommittedSubDag>)
      requires Valid() && CanFollow(committee, blocks, pending, commit)
      requires lastProcessed.Some? ==> commit.index == lastProcessed.value + 1
      requires KnowsVotes(stakes, pending + [NewCommitState(commit)])
      requires KnowsVotes(late, pending + [NewCommitState(commit)])
      modifies this
      ensures Valid() && lastProcessed == Some(commit.index)
      ensures received == old(received) + [commit] && emitted == old(emitted) + finalized
      ensures QueueProgresses(Rules(committee, gcDepth, stakes, late, received),
                              old(pending) + [NewCommitState(commit)], finalized, pending)
      ensures AreReceived(Rules(committee, gcDepth, stakes, late, received), |old(emitted)|,
                          old(pending) + [NewCommitState(commit)])
      ensures LeadersAdvance(received) ==> |pending| <= INDIRECT_REJECT_DEPTH
    {
      hide Sequenced, StatesFit, UnprocessedIsRecent, IsBounded, Mapped, Linked, KnowsVotes, CanFollow, QueueProgresses,
           LeadersAdvance, Accounted, AreReceived, NewCommitState, DirectStepOf, Emit, IsBoundedButLast;
      ghost var blocks0, queue0 := blocks, pending + [NewCommitState(commit)];
      ghost var x := Rules(committee, gcDepth, stakes, late, received + [commit]);
      ghost var base := |emitted|;
      AllReceived(x, received, emitted, pending, commit);
      lastProcessed := Some(commit.index);
      PushKeepsQueue(committee, blocks, pending, commit);
      PushKeepsBound(pending, commit);
      pending := pending + [NewCommitState(commit)];
      FinalizeDirectly(stakes, |pending| - 1);
      DirectQueueProgresses(x, queue0, pending);
      ghost var queue1 := pending;
      ghost var n;
      finalized, n := PopFinalizedCommits(|pending| - 1);
      PoppedProgresses(x, queue0, [], queue1, finalized, pending);
      assert [] + finalized == finalized;
      if pending != [] {
        StillFollows(committee, x, blocks0, old(pending), queue1, |finalized|, blocks, commit);
        LinkBlocksInLastCommit();
        LastIsDistinct(pending);
        AppendOriginDescendants();
        var more := FinalizeIndirectly(late, x, base, queue0, finalized);
        finalized := finalized + more;
      } else {
        BoundFollows(pending);
      }
      received, emitted := received + [commit], emitted + finalized;
      AccountsFor(x, old(received), old(emitted), old(pending), commit, finalized, pending);
      BufferIsShort(received, emitted, pending);
    }
  }

  /** State of the map while the sorted blocks of a commit are linked one by one. */
  ghost predicate Linking(blocks0: BlockMap, blocks: BlockMap, sorted: seq<Block>, i: nat, index: nat)
    requires i <= |sorted|
  {
    && (forall r :: r in blocks0 ==>
          r in blocks && blocks[r].block == blocks0[r].block && blocks[r].commitIndex == blocks0[r].commitIndex)
    && (forall j :: 0 <= j < i ==> IsMappedAs(blocks, sorted[j], index))
    && (forall r :: r in blocks ==> r in blocks0 || IsAmong(sorted, i, r))
  }

  ghost predicate IsAmong(sorted: seq<Block>, i: nat, r: BlockRef)
    requires i <= |sorted|
  {
    exists j :: 0 <= j < i && sorted[j].Ref() == r
  }

  lemma LinkingStart(c: Committee, blocks: BlockMap, commit: CommittedSubDag)
    ensures forall sorted :: Refs(sorted[..0]) == {} && Linking(blocks, blocks, sorted, 0, commit.index)
  {
  }

  lemma CanLinkNext(c: Committee, blocks0: BlockMap, queue: Queue, commit: CommittedSubDag, blocks: BlockMap,
                    sorted: seq<Block>, i: nat)
    requires queue != [] && commit == queue[|queue| - 1].commit
    requires Mapped(blocks0, queue, |queue| - 1) && Sequenced(queue)
    requires CanFollow(c, blocks0, queue[..|queue| - 1], commit)
    requires multiset(sorted) == multiset(commit.blocks) && SortedByRound(sorted) && i < |sorted|
    requires Linking(blocks0, blocks, sorted, i, commit.index)
    ensures CanLink(c, blocks, sorted[i], commit.index)
  {
    SameRefs(commit.blocks, sorted);
    DistinctSorted(commit.blocks, sorted);
    var b := sorted[i];
    assert b in commit.blocks;
    forall x | x in blocks
      ensures b.Ref() !in blocks[x].block.ancestors && blocks[x].commitIndex <= commit.index
    {
      if x in blocks0 {
        var k :| 0 <= k < |queue| - 1 && Holds(queue[k].commit, blocks0[x]);
      } else {
        assert IsAmong(sorted, i, x);
        var j :| 0 <= j < i && sorted[j].Ref() == x;
        assert IsMappedAs(blocks, sorted[j], commit.index);
        assert sorted[j] in commit.blocks && IsCommittable(c, sorted[j]);
      }
    }
  }

  lemma LinkingStep(c: Committee, blocks0: BlockMap, blocks: BlockMap, sorted: seq<Block>, i: nat, index: nat)
    requires i < |sorted| && Linking(blocks0, blocks, sorted, i, index) && CanLink(c, blocks, sorted[i], index)
    ensures Linking(blocks0, LinkBlock(blocks, sorted[i], index), sorted, i + 1, index)
    ensures Refs(sorted[..i + 1]) == Refs(sorted[..i]) + {sorted[i].Ref()}
  {
    hide IsCommittable, RejectVotes, IsAmong, Refs, LinkBlock;
    LinkBlockEntries(blocks, sorted[i], index);
    NextRefs(sorted, i);
    var blocks' := LinkBlock(blocks, sorted[i], index);
    forall r | r in blocks'
      ensures r in blocks0 || IsAmong(sorted, i + 1, r)
    {
      NextIsAmong(sorted, i, r);
    }
  }

  /** Linking keeps what is in the map and adds the block. */
  lemma LinkBlockEntries(blocks: BlockMap, b: Block, index: nat)
    requires b.Ref() !in blocks
    ensures var blocks' := LinkBlock(blocks, b, index);
            && IsMappedAs(blocks', b, index)
            && blocks'.Keys == blocks.Keys + {b.Ref()}
            && (forall r :: r in blocks ==>
                  blocks'[r].block == blocks[r].block && blocks'[r].commitIndex == blocks[r].commitIndex)
  {
    hide RejectVotes;
  }

  lemma NextRefs(sorted: seq<Block>, i: nat)
    requires i < |sorted|
    ensures Refs(sorted[..i + 1]) == Refs(sorted[..i]) + {sorted[i].Ref()}
  {
    assert sorted[..i + 1] == sorted[..i] + [sorted[i]];
    RefsAppend(sorted[..i], [sorted[i]]);
    assert Refs([sorted[i]]) == {sorted[i].Ref()};
  }

  lemma NextIsAmong(sorted: seq<Block>, i: nat, r: BlockRef)
    requires i < |sorted|
    ensures IsAmong(sorted, i + 1, r) <==> IsAmong(sorted, i, r) || r == sorted[i].Ref()
  {
    if IsAmong(sorted, i, r) {
      var j :| 0 <= j < i && sorted[j].Ref() == r;
    }
  }

  lemma LinkingEnd(c: Committee, blocks0: BlockMap, blocks: BlockMap, queue: Queue, sorted: seq<Block>)
    requires queue != [] && Mapped(blocks0, queue, |queue| - 1)
    requires multiset(sorted) == multiset(queue[|queue| - 1].commit.blocks)
    requires Linking(blocks0, blocks, sorted, |sorted|, queue[|queue| - 1].commit.index)
    ensures Mapped(blocks, queue, |queue|)
    ensures Refs(sorted[..|sorted|]) == Refs(queue[|queue| - 1].commit.blocks)
  {
    var n := |queue| - 1;
    assert sorted[..|sorted|] == sorted;
    SameRefs(queue[n].commit.blocks, sorted);
    forall k, b | 0 <= k < |queue| && b in queue[k].commit.blocks
      ensures IsMappedAs(blocks, b, queue[k].commit.index)
    {
      if k < n {
        assert IsMappedAs(blocks0, b, queue[k].commit.index);
      } else {
        assert b in sorted;
      }
    }
    forall r | r in blocks
      ensures exists k :: 0 <= k < |queue| && Holds(queue[k].commit, blocks[r])
    {
      if r in blocks0 {
        var k :| 0 <= k < n && Holds(queue[k].commit, blocks0[r]);
        assert Holds(queue[k].commit, blocks[r]);
      } else {
        assert IsAmong(sorted, |sorted|, r);
        var j :| 0 <= j < |sorted| && sorted[j].Ref() == r;
        assert sorted[j] in sorted;
        assert Holds(queue[n].commit, blocks[r]);
      }
    }
  }

  lemma OriginOf(c: Committee, blocks: BlockMap, x: BlockRef)
    requires EntriesFit(c, blocks) && x in blocks
    ensures blocks[x].block.ancestors != []
    ensures blocks[x].block.ancestors[0].author == x.author && blocks[x].block.ancestors[0].round < x.round
  {
    assert blocks[x].block.Ref() == x;
    assert blocks[x].block.ancestors[0] in blocks[x].block.ancestors;
  }

  lemma PushKeepsEntries(c: Committee, blocks: BlockMap, y: BlockRef, x: BlockRef)
    requires EntriesFit(c, blocks) && ChildrenFit(blocks) && CommitsFit(blocks) && y in blocks
    ensures var blocks' := blocks[y := blocks[y].(originDescendants := blocks[y].originDescendants + [x])];
            EntriesFit(c, blocks') && ChildrenFit(blocks') && CommitsFit(blocks')
  {
    var blocks' := blocks[y := blocks[y].(originDescendants := blocks[y].originDescendants + [x])];
    forall r | r in blocks
      ensures exists od :: blocks'[r] == blocks[r].(originDescendants := od)
    {
      assert blocks'[r] == blocks[r].(originDescendants := blocks'[r].originDescendants);
    }
    RecordKeepsEntries(c, blocks, blocks');
  }

  lemma NextToRecord(blocks: BlockMap, queue: Queue, sorted: seq<Block>, i: nat)
    requires queue != [] && Mapped(blocks, queue, |queue|) && i < |sorted| && DistinctRefs(sorted)
    requires forall b :: b in sorted <==> b in queue[|queue| - 1].commit.blocks
    ensures sorted[i].Ref() in blocks && sorted[i].Ref() in Refs(sorted[i..])
    ensures Refs(sorted[i + 1..]) == Refs(sorted[i..]) - {sorted[i].Ref()}
  {
    assert sorted[i] in sorted;
    assert IsMappedAs(blocks, sorted[i], queue[|queue| - 1].commit.index);
    assert sorted[i..] == [sorted[i]] + sorted[i + 1..];
    RefsAppend([sorted[i]], sorted[i + 1..]);
    assert Refs([sorted[i]]) == {sorted[i].Ref()};
    assert sorted[i].Ref() !in Refs(sorted[i + 1..]);
  }

  lemma RecordKeepsMapped(blocks: BlockMap, blocks': BlockMap, x: BlockRef, y: BlockRef, queue: Queue)
    requires blocks' == RecordFrom(blocks, x, y) && Mapped(blocks, queue, |queue|)
    ensures Mapped(blocks', queue, |queue|)
  {
    hide OwnReaches;
    forall r | r in blocks'
      ensures exists k :: 0 <= k < |queue| && Holds(queue[k].commit, blocks'[r])
    {
      var k :| 0 <= k < |queue| && Holds(queue[k].commit, blocks[r]);
      assert Holds(queue[k].commit, blocks'[r]);
    }
    forall k, b | 0 <= k < |queue| && b in queue[k].commit.blocks
      ensures IsMappedAs(blocks', b, queue[k].commit.index)
    {
      assert IsMappedAs(blocks, b, queue[k].commit.index);
    }
  }

  /** Commits come out in the order they came in: emitted ones first, then the buffered ones. */
  ghost predicate Accounted(received: seq<CommittedSubDag>, emitted: seq<CommittedSubDag>, queue: Queue) {
    && |received| == |emitted| + |queue|
    && (forall i :: 0 <= i < |emitted| ==>
          emitted[i] == received[i].(rejectedTransactions := emitted[i].rejectedTransactions))
    && (forall k :: 0 <= k < |queue| ==> queue[k].commit == received[|emitted| + k])
  }

  ghost predicate LeadersAdvance(commits: seq<CommittedSubDag>) {
    forall i, j :: 0 <= i < j < |commits| ==> commits[i].leader.round < commits[j].leader.round
  }

  /** With leaders in ever higher rounds, at most three commits are buffered. */
  lemma BufferIsShort(received: seq<CommittedSubDag>, emitted: seq<CommittedSubDag>, queue: Queue)
    requires Accounted(received, emitted, queue) && IsBounded(queue)
    ensures LeadersAdvance(received) ==> |queue| <= INDIRECT_REJECT_DEPTH
  {
    if LeadersAdvance(received) && queue != [] {
      BoundedQueueIsShort(queue);
    }
  }

  ghost predicate KnowsVotes(stakes: RejectStakes, queue: Queue) {
    forall k, b :: 0 <= k < |queue| && b in queue[k].commit.blocks ==> b.Ref() in stakes
  }

  /** The emitted commit is the buffered one, with every transaction decided for a reason. */
  ghost predicate IsSettledAs(x: Rules, s: CommitState, e: CommittedSubDag) {
    exists s' :: Progresses(x, s, s') && s'.IsDone() && e == Emit(s')
  }

  /** The queue has given out some commits from its front, settled, and the rest has only moved
      forward. */
  ghost predicate QueueProgresses(x: Rules, queue0: Queue, finalized: seq<CommittedSubDag>, queue: Queue) {
    && |queue0| == |finalized| + |queue|
    && (forall i :: 0 <= i < |finalized| ==> IsSettledAs(x, queue0[i], finalized[i]))
    && (forall k :: 0 <= k < |queue| ==> Progresses(x, queue0[|finalized| + k], queue[k]))
  }

  /** The queue holds the received commits from a position on. */
  ghost predicate AreReceived(x: Rules, base: nat, queue: Queue) {
    && base + |queue| == |x.received|
    && forall k :: 0 <= k < |queue| ==> queue[k].commit == x.received[base + k]
  }

  lemma AllReceived(x: Rules, received: seq<CommittedSubDag>, emitted: seq<CommittedSubDag>, queue: Queue,
                    commit: CommittedSubDag)
    requires Accounted(received, emitted, queue) && x.received == received + [commit]
    ensures AreReceived(x, |emitted|, queue + [NewCommitState(commit)]) && NewCommitState(commit).commit == commit
  {
    hide NumTransactions;
  }

  lemma StillReceived(x: Rules, base: nat, queue0: Queue, finalized: seq<CommittedSubDag>, queue: Queue,
                      blocks: BlockMap)
    requires AreReceived(x, base, queue0) && QueueProgresses(x, queue0, finalized, queue) && queue != []
    requires IsBoundedButLast(queue0) && Sequenced(queue) && Mapped(blocks, queue, |queue|)
    requires Linked(x.committee, blocks, {})
    ensures IsBufferAt(x, base + |finalized|, queue, blocks)
  {
    hide IsSettledAs, IsTraceable, IsJustified, IsUndecided, Sequenced, Mapped, Linked;
    forall k | 0 <= k < |queue|
      ensures queue[k].commit == x.received[base + |finalized| + k] && queue[k].commit == queue0[|finalized| + k].commit
    {
      assert Progresses(x, queue0[|finalized| + k], queue[k]);
    }
  }

  /** After the next commit is added, only it can be a wave after a buffered one. */
  lemma PushKeepsBound(queue: Queue, commit: CommittedSubDag)
    requires Sequenced(queue) && IsBounded(queue)
    ensures IsBoundedButLast(queue + [NewCommitState(commit)])
  {
    hide NumTransactions;
  }

  lemma FirstIsCovered(c: Committee, blocks: BlockMap, queue: Queue, gcDepth: nat, stakes: RejectStakes)
    requires c.quorumThreshold > 0 && queue != [] && Sequenced(queue) && StatesFit(queue)
    requires Mapped(blocks, queue, |queue|) && Linked(c, blocks, {}) && KnowsVotes(stakes, queue)
    ensures StateFits(queue[0]) && queue[0].pendingTransactions.Keys <= stakes.Keys
    ensures Context(c, blocks, GcRounds(queue, gcDepth)).Covers(queue[0].pendingTransactions.Keys)
  {
    hide Sequenced, Mapped, Linked, GcRounds, Query.Valid;
    forall r | r in queue[0].pendingTransactions.Keys
      ensures Query(c, blocks, GcRounds(queue, gcDepth), r).Valid() && r in stakes
    {
      QueriesAreValid(c, blocks, queue, gcDepth, r);
    }
  }

  lemma OutcomeKeepsCommit(x: Context, stakes: RejectStakes, expired: bool, s: CommitState, s': CommitState)
    requires s.pendingTransactions.Keys <= stakes.Keys && x.Covers(s.pendingTransactions.Keys)
    requires FinalOutcome(x, stakes, expired, s, s')
    ensures s'.commit == s.commit && s'.pendingBlocks == s.pendingBlocks
  {
    hide Context.Covers, Query.IsAccepted;
  }

  lemma DirectQueueProgresses(x: Rules, queue0: Queue, queue: Queue)
    requires 0 < |queue0| == |queue| && StatesFit(queue0)
    requires x.received != [] && queue0[|queue0| - 1].commit == x.received[|x.received| - 1]
    requires forall k :: 0 <= k < |queue| ==> DirectStepOf(x.committee, x.gcDepth, x.stakes, queue0, k, queue[k])
    ensures QueueProgresses(x, queue0, [], queue)
  {
    hide DirectStepOf, Progresses;
    forall k | 0 <= k < |queue|
      ensures Progresses(x, queue0[k], queue[k])
    {
      DirectStepProgresses(x, queue0, k, queue[k]);
    }
  }

  lemma FirstProgresses(x: Rules, queue0: Queue, finalized: seq<CommittedSubDag>, queue: Queue, queue': Queue)
    requires queue != [] && QueueProgresses(x, queue0, finalized, queue)
    requires |queue'| == |queue| && queue'[1..] == queue[1..] && Progresses(x, queue[0], queue'[0])
    ensures QueueProgresses(x, queue0, finalized, queue')
  {
    hide IsSettledAs, Progresses;
    ProgressIsTransitive(x, queue0[|finalized|], queue[0], queue'[0]);
    forall k | 1 <= k < |queue'|
      ensures queue'[k] == queue[k]
    {
      assert queue'[k] == queue'[1..][k - 1];
    }
  }

  lemma PoppedProgresses(x: Rules, queue0: Queue, finalized: seq<CommittedSubDag>, queue: Queue,
                         more: seq<CommittedSubDag>, queue': Queue)
    requires QueueProgresses(x, queue0, finalized, queue)
    requires |more| <= |queue| && queue' == queue[|more|..]
    requires forall i :: 0 <= i < |more| ==> queue[i].IsDone() && more[i] == Emit(queue[i])
    ensures QueueProgresses(x, queue0, finalized + more, queue')
  {
    hide Progresses, Emit, CommitState.IsDone;
    var all := finalized + more;
    forall i | 0 <= i < |all|
      ensures IsSettledAs(x, queue0[i], all[i])
    {
      if i >= |finalized| {
        var k := i - |finalized|;
        assert Progresses(x, queue0[|finalized| + k], queue[k]) && queue[k].IsDone() && more[k] == Emit(queue[k]);
      }
    }
  }

  /** The next commit still follows when commits have left the front of the queue. */
  lemma StillFollows(c: Committee, x: Rules, blocks0: BlockMap, queue: Queue, queue1: Queue, dropped: nat,
                     blocks: BlockMap, commit: CommittedSubDag)
    requires QueueProgresses(x, queue + [NewCommitState(commit)], [], queue1) && dropped < |queue1|
    requires CanFollow(c, blocks0, queue, commit)
    requires forall r :: r in blocks ==> r in blocks0 && blocks[r] == blocks0[r]
    ensures var left := queue1[dropped..];
            left[|left| - 1].commit == commit && CanFollow(c, blocks, left[..|left| - 1], commit)
  {
    hide IsCommittable, DistinctRefs, IsSettledAs, NumTransactions, IsJustified, IsUndecided;
    var queue0, left := queue + [NewCommitState(commit)], queue1[dropped..];
    assert Progresses(x, queue0[|queue0| - 1], queue1[|queue1| - 1]);
    var rest := left[..|left| - 1];
    if rest != [] {
      assert rest[|rest| - 1] == queue1[|queue1| - 2];
      assert Progresses(x, queue0[|queue0| - 2], queue1[|queue1| - 2]);
    }
  }

  lemma LastIsDistinct(queue: Queue)
    requires StatesFit(queue) && queue != []
    ensures DistinctRefs(queue[|queue| - 1].commit.blocks)
  {
  }

  lemma StillKnowsVotes(x: Rules, queue0: Queue, finalized: seq<CommittedSubDag>, queue: Queue)
    requires KnowsVotes(x.late, queue0) && QueueProgresses(x, queue0, finalized, queue)
    ensures KnowsVotes(x.late, queue)
  {
    hide IsSettledAs, IsTraceable, IsJustified, IsUndecided;
    forall k, b | 0 <= k < |queue| && b in queue[k].commit.blocks
      ensures b.Ref() in x.late
    {
      assert Progresses(x, queue0[|finalized| + k], queue[k]);
      assert b in queue0[|finalized| + k].commit.blocks;
    }
  }

  /** When indirect finalization stops, the first commit is less than a wave behind the last. */
  lemma BoundFollows(queue: Queue)
    requires Sequenced(queue) && UnprocessedIsRecent(queue)
    requires |queue| <= 1 || queue[0].pendingBlocks != map[] || !IsExpired(queue)
    ensures IsBounded(queue)
  {
  }

  lemma AccountsFor(x: Rules, received: seq<CommittedSubDag>, emitted: seq<CommittedSubDag>, queue: Queue,
                    commit: CommittedSubDag, finalized: seq<CommittedSubDag>, queue': Queue)
    requires Accounted(received, emitted, queue)
    requires QueueProgresses(x, queue + [NewCommitState(commit)], finalized, queue')
    ensures Accounted(received + [commit], emitted + finalized, queue')
  {
    hide NumTransactions, IsSettledAs, IsTraceable, IsJustified, IsUndecided;
    var queue0 := queue + [NewCommitState(commit)];
    forall k | 0 <= k < |queue0|
      ensures queue0[k].commit == (received + [commit])[|emitted| + k]
    {
    }
    forall i | 0 <= i < |finalized|
      ensures finalized[i] == queue0[i].commit.(rejectedTransactions := finalized[i].rejectedTransactions)
    {
      SettledKeepsCommit(x, queue0[i], finalized[i]);
    }
    forall k | 0 <= k < |queue'|
      ensures queue'[k].commit == (received + [commit])[|emitted| + |finalized| + k]
    {
      assert Progresses(x, queue0[|finalized| + k], queue'[k]);
    }
  }

  lemma SettledKeepsCommit(x: Rules, s: CommitState, e: CommittedSubDag)
    requires IsSettledAs(x, s, e)
    ensures e == s.commit.(rejectedTransactions := e.rejectedTransactions)
  {
    hide Has, IsJustified, IsUndecided;
    var s' :| Progresses(x, s, s') && s'.IsDone() && e == Emit(s');
  }

  lemma RestIsRecent(queue: Queue, i: nat)
    requires Sequenced(queue) && i < |queue|
    requires forall k :: 0 <= k < i ==> queue[k].pendingBlocks == map[]
    requires queue[i].commit.leader.round + INDIRECT_REJECT_DEPTH > queue[|queue| - 1].commit.leader.round
    ensures UnprocessedIsRecent(queue)
  {
  }

  lemma StateAt(queue: Queue, stakes: RejectStakes, queue0: Queue, i: nat)
    requires StatesFit(queue) && i < |queue| == |queue0| && queue[i] == queue0[i] && KnowsVotes(stakes, queue0)
    requires queue[i].pendingBlocks != map[]
    ensures StateFits(queue[i]) && queue[i].pendingBlocks.Keys <= stakes.Keys
  {
    NumTransactionsKeys(queue[i].commit.blocks);
  }
}
