/** The votes on a committed block that the commits after it bring, told from the causal history. */
module CommittedVotes {
  import opened Committees
  import opened Blocks
  import opened BlockVerifier
  import opened Dags
  import opened CommitRule
  import opened BlockIndex
  import opened VoteTraversal
  import opened FinalizerLinks
  import opened FinalizerState
  import opened FinalizerQueue
  import opened Linearizers
  import opened CommitPipeline

  /** The m-th commit is the first one at least a wave after the c-th. */
  ghost predicate IsFirstWaveAfter(leaders: seq<BlockRef>, c: nat, m: nat) {
    && c < m < |leaders|
    && leaders[m].round >= leaders[c].round + WAVE_LENGTH
    && forall k :: 0 <= k < m ==> leaders[k].round < leaders[c].round + WAVE_LENGTH
  }

  // ----- between two commits

  /** A block of the c-th commit that is not garbage collected before the m-th. */
  ghost predicate IsVotedOn(w: World, gcDepth: nat, leaders: seq<BlockRef>, c: nat, m: nat, b: BlockRef) {
    && AreLeaders(w, leaders) && c <= m < |leaders|
    && InSubDag(w, gcDepth, leaders, c, b) && b.round > GcBefore(leaders, gcDepth, m)
  }

  ghost predicate IsAbove(w: World, x: BlockRef, b: BlockRef) {
    x != b && Reaches(w.blocks, x, b)
  }

  /** What lies between the block and the m-th leader is committed between the two. */
  lemma CommittedBetween(w: World, gcDepth: nat, leaders: seq<BlockRef>, c: nat, m: nat, b: BlockRef, y: BlockRef)
    returns (j: nat)
    requires IsVotedOn(w, gcDepth, leaders, c, m, b)
    requires Reaches(w.blocks, leaders[m], y) && Reaches(w.blocks, y, b)
    ensures c <= j <= m && InSubDag(w, gcDepth, leaders, j, y)
  {
    ReachesDescends(w.blocks, y, b);
    hide InSubDag, Reaches;
    assert Includes(w, gcDepth, leaders, m, y);
    j := HistoryIsCommitted(w, gcDepth, leaders, m, y);
    HistoryIsNotLater(w, gcDepth, leaders, y, j, b, c);
  }

  /** What one validator keeps when it settles the c-th commit. */
  ghost predicate IsBuffer(w: World, gcDepth: nat, leaders: seq<BlockRef>, commits: seq<CommittedSubDag>, c: nat,
                           m: nat, queue: Queue, blocks: BlockMap)
  {
    && AreCommits(w, gcDepth, leaders, commits)
    && IsWindow(commits, c, queue) && c <= m < c + |queue|
    && Mapped(blocks, queue, |queue|) && Linked(w.committee, blocks, {})
  }

  lemma IsBuffered(w: World, gcDepth: nat, leaders: seq<BlockRef>, commits: seq<CommittedSubDag>, c: nat, m: nat,
                   queue: Queue, blocks: BlockMap, j: nat, y: BlockRef)
    requires IsBuffer(w, gcDepth, leaders, commits, c, m, queue, blocks)
    requires c <= j <= m && j < |leaders| && InSubDag(w, gcDepth, leaders, j, y)
    ensures y in blocks && y in w.blocks && blocks[y].block == w.blocks[y] && blocks[y].commitIndex == j + 1
  {
    hide Linked, InSubDag, AreLeaders, SortedBySlot, Holds;
    assert IsSubDag(w, gcDepth, leaders, j, commits[j]);
    assert y in Refs(commits[j].blocks);
    var x :| x in commits[j].blocks && x.Ref() == y;
    assert x in queue[j - c].commit.blocks;
    assert IsMappedAs(blocks, x, queue[j - c].commit.index);
  }

  /** Causal history in the world is what the links of the buffer say. */
  lemma {:induction false} AboveDescends(w: World, gcDepth: nat, leaders: seq<BlockRef>, commits: seq<CommittedSubDag>,
                                         c: nat, m: nat, queue: Queue, blocks: BlockMap, b: BlockRef, y: BlockRef)
    requires IsBuffer(w, gcDepth, leaders, commits, c, m, queue, blocks) && IsVotedOn(w, gcDepth, leaders, c, m, b)
    requires Reaches(w.blocks, leaders[m], y) && IsAbove(w, y, b)
    ensures y in blocks && Descends(blocks, b, y)
    decreases y.round
  {
    var a :| a in w.blocks[y].ancestors && a.round < y.round && Reaches(w.blocks, a, b);
    hide IsBuffer, IsVotedOn;
    var i := BufferedAbove(w, gcDepth, leaders, commits, c, m, queue, blocks, b, y);
    StepReaches(w.blocks, y, a);
    ReachesTransitive(w.blocks, leaders[m], y, a);
    var j := BufferedAbove(w, gcDepth, leaders, commits, c, m, queue, blocks, b, a);
    if a == b {
    } else {
      AboveDescends(w, gcDepth, leaders, commits, c, m, queue, blocks, b, a);
    }
    assert y in blocks[a].children;
  }

  lemma BufferedAbove(w: World, gcDepth: nat, leaders: seq<BlockRef>, commits: seq<CommittedSubDag>, c: nat, m: nat,
                      queue: Queue, blocks: BlockMap, b: BlockRef, y: BlockRef) returns (j: nat)
    requires IsBuffer(w, gcDepth, leaders, commits, c, m, queue, blocks) && IsVotedOn(w, gcDepth, leaders, c, m, b)
    requires Reaches(w.blocks, leaders[m], y) && Reaches(w.blocks, y, b)
    ensures c <= j <= m && y in blocks && y in w.blocks && blocks[y].block == w.blocks[y]
    ensures blocks[y].commitIndex == j + 1
    ensures ChildrenFit(blocks)
  {
    hide InSubDag, Reaches, Mapped, EntriesFit, ChildrenFit, CommitsFit, OriginsFit;
    j := CommittedBetween(w, gcDepth, leaders, c, m, b, y);
    IsBuffered(w, gcDepth, leaders, commits, c, m, queue, blocks, j, y);
  }

  lemma {:induction false} DescendantIsAbove(w: World, gcDepth: nat, leaders: seq<BlockRef>,
                                             commits: seq<CommittedSubDag>, c: nat, m: nat, queue: Queue,
                                             blocks: BlockMap, b: BlockRef, y: BlockRef)
    requires w.Valid() && IsBuffer(w, gcDepth, leaders, commits, c, m, queue, blocks)
    requires Descends(blocks, b, y)
    ensures IsAbove(w, y, b) && b.round < y.round
    decreases y.round
  {
    var a :| a in blocks && a.round < y.round && y in blocks[a].children && (a == b || Descends(blocks, b, a));
    ChildLinks(w, gcDepth, leaders, commits, c, m, queue, blocks, a, y);
    hide IsBuffer, World.Valid;
    ReachesItself(w, b);
    if a == b {
    } else {
      DescendantIsAbove(w, gcDepth, leaders, commits, c, m, queue, blocks, b, a);
    }
    ReachesTransitive(w.blocks, y, a, b);
  }

  lemma ChildLinks(w: World, gcDepth: nat, leaders: seq<BlockRef>, commits: seq<CommittedSubDag>, c: nat, m: nat,
                   queue: Queue, blocks: BlockMap, a: BlockRef, y: BlockRef)
    requires w.Valid() && IsBuffer(w, gcDepth, leaders, commits, c, m, queue, blocks)
    requires a in blocks && y in blocks[a].children
    ensures Reaches(w.blocks, y, a)
  {
    hide World.Valid, Reaches, Mapped, CommitsFit, OriginsFit, InSubDag, IsCommittable, RejectVotes, AreCommits,
         IsWindow;
    var j := EntryFrom(w, gcDepth, leaders, commits, c, queue, blocks, y);
    assert blocks[y].block.Ref() == y;
    AncestorIsReached(w, y, a);
  }

  // ----- the first block of an author that votes

  /** Down the own chain of `v` to its lowest block above `b`. */
  lemma {:induction false} FirstAbove(w: World, v: BlockRef, b: BlockRef) returns (f: BlockRef)
    requires w.Valid() && v in w.blocks && IsAbove(w, v, b)
    ensures f in w.blocks && f.author == v.author && Reaches(w.blocks, v, f) && IsAbove(w, f, b)
    ensures w.blocks[f].ancestors != [] && !IsAbove(w, w.blocks[f].ancestors[0], b)
    decreases v.round
  {
    var p := OwnAncestor(w, v, b);
    if IsAbove(w, p, b) {
      assert p in w.blocks;
      f := FirstAbove(w, p, b);
      hide World.Valid;
      ReachesTransitive(w.blocks, v, p, f);
    } else {
      f := v;
      ReachesItself(w, v);
    }
  }

  lemma OwnAncestor(w: World, v: BlockRef, b: BlockRef) returns (p: BlockRef)
    requires w.Valid() && v in w.blocks && IsAbove(w, v, b)
    ensures w.blocks[v].ancestors != [] && p == w.blocks[v].ancestors[0]
    ensures p.author == v.author && p.round < v.round && Reaches(w.blocks, v, p)
  {
    ReachesDescends(w.blocks, v, b);
    hide Reaches;
    assert WellFormed(w.committee, w.genesis, w.blocks[v]);
    p := w.blocks[v].ancestors[0];
    assert p in w.blocks[v].ancestors;
    AncestorIsReached(w, v, p);
  }

  /** Own chains in the buffer are own chains in the world. */
  lemma {:induction false} OwnChainReaches(w: World, gcDepth: nat, leaders: seq<BlockRef>,
                                           commits: seq<CommittedSubDag>, c: nat, m: nat, queue: Queue,
                                           blocks: BlockMap, x: BlockRef, y: BlockRef)
    requires w.Valid() && IsBuffer(w, gcDepth, leaders, commits, c, m, queue, blocks)
    requires x in blocks && OwnReaches(blocks, x, y)
    ensures Reaches(w.blocks, x, y)
    decreases x.round
  {
    if x == y {
    } else {
      var p := blocks[x].block.ancestors[0];
      OwnLinks(w, gcDepth, leaders, commits, c, m, queue, blocks, x);
      OwnChainReaches(w, gcDepth, leaders, commits, c, m, queue, blocks, p, y);
      hide World.Valid, IsBuffer;
      ReachesTransitive(w.blocks, x, p, y);
    }
  }

  lemma OwnLinks(w: World, gcDepth: nat, leaders: seq<BlockRef>, commits: seq<CommittedSubDag>, c: nat, m: nat,
                 queue: Queue, blocks: BlockMap, x: BlockRef)
    requires w.Valid() && IsBuffer(w, gcDepth, leaders, commits, c, m, queue, blocks)
    requires x in blocks && blocks[x].block.ancestors != []
    ensures x in w.blocks && w.blocks[x] == blocks[x].block
    ensures Reaches(w.blocks, x, blocks[x].block.ancestors[0])
  {
    hide World.Valid, Reaches, Mapped, ChildrenFit, CommitsFit, OriginsFit, InSubDag, IsCommittable, RejectVotes,
         AreCommits, IsWindow;
    var j := EntryFrom(w, gcDepth, leaders, commits, c, queue, blocks, x);
    assert blocks[x].block.Ref() == x;
    assert blocks[x].block.ancestors[0] in blocks[x].block.ancestors;
    AncestorIsReached(w, x, blocks[x].block.ancestors[0]);
  }

  /** No earlier block of the same origin votes. */
  lemma FirstAboveIsFirst(w: World, gcDepth: nat, leaders: seq<BlockRef>, commits: seq<CommittedSubDag>, c: nat, m: nat,
                          queue: Queue, blocks: BlockMap, b: BlockRef, f: BlockRef, y: BlockRef)
    requires w.Valid() && IsBuffer(w, gcDepth, leaders, commits, c, m, queue, blocks)
    requires f in blocks && f in w.blocks && w.blocks[f].ancestors != [] && !IsAbove(w, w.blocks[f].ancestors[0], b)
    requires y in blocks && Descends(blocks, b, y)
    ensures f !in blocks[y].originDescendants
  {
    if f in blocks[y].originDescendants {
      OriginIsOnChain(w, gcDepth, leaders, commits, c, m, queue, blocks, f, y);
      OwnLinks(w, gcDepth, leaders, commits, c, m, queue, blocks, f);
      var p := blocks[f].block.ancestors[0];
      OwnChainReaches(w, gcDepth, leaders, commits, c, m, queue, blocks, p, y);
      DescendantIsAbove(w, gcDepth, leaders, commits, c, m, queue, blocks, b, y);
      ReachesTransitive(w.blocks, p, y, b);
      ReachesDescends(w.blocks, p, y);
      assert false;
    }
  }

  lemma OriginIsOnChain(w: World, gcDepth: nat, leaders: seq<BlockRef>, commits: seq<CommittedSubDag>, c: nat, m: nat,
                        queue: Queue, blocks: BlockMap, f: BlockRef, y: BlockRef)
    requires IsBuffer(w, gcDepth, leaders, commits, c, m, queue, blocks)
    requires y in blocks && f in blocks[y].originDescendants
    ensures f in blocks && f != y && blocks[f].block.ancestors != []
    ensures blocks[f].block.ancestors[0] in blocks && OwnReaches(blocks, blocks[f].block.ancestors[0], y)
  {
    assert OwnReaches(blocks, f, y);
  }

  // ----- counting the vote

  lemma AcceptedBy(q: Query, f: BlockRef, t: nat)
    requires q.Valid() && f in q.blocks && q.Votes(f) && t !in q.Rejects(f)
    ensures f.author in q.Acceptors(t)
  {
    hide Query.Valid, Query.Votes, Query.Rejects;
  }

  lemma FirstAboveVotes(w: World, gcDepth: nat, leaders: seq<BlockRef>, commits: seq<CommittedSubDag>, c: nat, m: nat,
                        queue: Queue, blocks: BlockMap, b: BlockRef, f: BlockRef)
    requires w.Valid() && IsBuffer(w, gcDepth, leaders, commits, c, m, queue, blocks)
    requires IsVotedOn(w, gcDepth, leaders, c, m, b)
    requires Query(w.committee, blocks, GcRounds(queue, gcDepth), b).Valid()
    requires f in w.blocks && Reaches(w.blocks, leaders[m], f) && IsAbove(w, f, b)
    requires w.blocks[f].ancestors != [] && !IsAbove(w, w.blocks[f].ancestors[0], b)
    ensures f in blocks && blocks[f].block == w.blocks[f]
    ensures Query(w.committee, blocks, GcRounds(queue, gcDepth), b).Votes(f)
  {
    hide World.Valid, IsBuffer, IsVotedOn, Reaches, Query.Valid, Descends, GcRounds, Query.IsGced, ChildrenFit;
    var q := Query(w.committee, blocks, GcRounds(queue, gcDepth), b);
    AboveDescends(w, gcDepth, leaders, commits, c, m, queue, blocks, b, f);
    var j := BufferedAbove(w, gcDepth, leaders, commits, c, m, queue, blocks, b, f);
    NotGced(w, gcDepth, leaders, commits, c, m, queue, blocks, b, f, j);
    forall y | y in blocks && q.IsDescendant(y)
      ensures f !in blocks[y].originDescendants
    {
      FirstAboveIsFirst(w, gcDepth, leaders, commits, c, m, queue, blocks, b, f, y);
    }
  }

  /** Votes up to the m-th commit are not garbage collected. */
  lemma NotGced(w: World, gcDepth: nat, leaders: seq<BlockRef>, commits: seq<CommittedSubDag>, c: nat, m: nat,
                queue: Queue, blocks: BlockMap, b: BlockRef, f: BlockRef, j: nat)
    requires IsBuffer(w, gcDepth, leaders, commits, c, m, queue, blocks) && IsVotedOn(w, gcDepth, leaders, c, m, b)
    requires Query(w.committee, blocks, GcRounds(queue, gcDepth), b).Valid()
    requires f in blocks && blocks[f].commitIndex == j + 1 && c <= j <= m
    ensures blocks[b].commitIndex == c + 1
    ensures !Query(w.committee, blocks, GcRounds(queue, gcDepth), b).IsGced(f)
  {
    hide Mapped, Linked, InSubDag, SortedBySlot, WellLinked, InOrder;
    IsBuffered(w, gcDepth, leaders, commits, c, m, queue, blocks, c, b);
    if j > c {
      assert queue[j - 1 - c].commit == commits[j - 1];
      assert IsSubDag(w, gcDepth, leaders, j - 1, commits[j - 1]);
      GcBeforeIsMonotone(w, gcDepth, leaders, j, m);
    }
  }

  lemma VotesAsRecorded(w: World, gcDepth: nat, leaders: seq<BlockRef>, commits: seq<CommittedSubDag>, c: nat, m: nat,
                        queue: Queue, blocks: BlockMap, f: BlockRef)
    requires IsBuffer(w, gcDepth, leaders, commits, c, m, queue, blocks) && f in blocks
    ensures blocks[f].rejectVotes == RejectVotes(blocks[f].block.transactionVotes)
  {
    hide Mapped, ChildrenFit, CommitsFit, OriginsFit, InSubDag, IsCommittable, RejectVotes, AreCommits, IsWindow;
  }

  // ----- what counts as a vote, in terms of the causal history

  /** The block is above the other one, and the block before it on its own chain is not. */
  ghost predicate IsFirstAbove(w: World, f: BlockRef, b: BlockRef) {
    f in w.blocks && IsAbove(w, f, b) && w.blocks[f].ancestors != [] && !IsAbove(w, w.blocks[f].ancestors[0], b)
  }

  /** A block whose vote counts is the first above the pending one on its own chain, and the pending block was not
      garbage collected when it was committed. */
  lemma VoterIsFirstAbove(w: World, gcDepth: nat, leaders: seq<BlockRef>, commits: seq<CommittedSubDag>, c: nat, n: nat,
                          queue: Queue, blocks: BlockMap, b: BlockRef, f: BlockRef) returns (j: nat)
    requires w.Valid() && IsBuffer(w, gcDepth, leaders, commits, c, n, queue, blocks)
    requires c < |leaders| && InSubDag(w, gcDepth, leaders, c, b)
    requires Query(w.committee, blocks, GcRounds(queue, gcDepth), b).Valid()
    requires f in blocks && Query(w.committee, blocks, GcRounds(queue, gcDepth), b).Votes(f)
    ensures c <= j < c + |queue| && j < |leaders| && IsVotedOn(w, gcDepth, leaders, c, j, b)
    ensures Reaches(w.blocks, leaders[j], f)
    ensures IsFirstAbove(w, f, b) && blocks[f].block == w.blocks[f]
  {
    j := VoterIsCommitted(w, gcDepth, leaders, commits, c, n, queue, blocks, b, f);
    hide World.Valid, Reaches, Query.Valid, GcRounds, IsVotedOn, InSubDag;
    DescendantIsAbove(w, gcDepth, leaders, commits, c, n, queue, blocks, b, f);
    var p := OwnAncestor(w, f, b);
    if IsAbove(w, p, b) {
      ReachesTransitive(w.blocks, leaders[j], f, p);
      AboveDescends(w, gcDepth, leaders, commits, c, j, queue, blocks, b, p);
      IsOriginDescendant(w.committee, blocks, f, p);
    }
  }

  lemma VoterIsCommitted(w: World, gcDepth: nat, leaders: seq<BlockRef>, commits: seq<CommittedSubDag>, c: nat, n: nat,
                         queue: Queue, blocks: BlockMap, b: BlockRef, f: BlockRef) returns (j: nat)
    requires IsBuffer(w, gcDepth, leaders, commits, c, n, queue, blocks)
    requires c < |leaders| && InSubDag(w, gcDepth, leaders, c, b)
    requires Query(w.committee, blocks, GcRounds(queue, gcDepth), b).Valid()
    requires f in blocks && Query(w.committee, blocks, GcRounds(queue, gcDepth), b).IsFresh(f)
    ensures c <= j < c + |queue| && j < |leaders| && IsVotedOn(w, gcDepth, leaders, c, j, b)
    ensures Reaches(w.blocks, leaders[j], f)
    ensures f in w.blocks && blocks[f].block == w.blocks[f]
    ensures IsBuffer(w, gcDepth, leaders, commits, c, j, queue, blocks)
  {
    hide Mapped, InSubDag, SortedBySlot, WellLinked, InOrder, Reaches, ChildrenFit, CommitsFit, OriginsFit,
         IsCommittable, RejectVotes;
    j := EntryFrom(w, gcDepth, leaders, commits, c, queue, blocks, f);
    IsBuffered(w, gcDepth, leaders, commits, c, n, queue, blocks, c, b);
    SubDagIsIncluded(w, gcDepth, leaders, c, b);
    SubDagIsIncluded(w, gcDepth, leaders, j, f);
    if j > c {
      assert queue[j - 1 - c].commit == commits[j - 1];
      assert IsSubDag(w, gcDepth, leaders, j - 1, commits[j - 1]);
    }
  }

  lemma SubDagIsIncluded(w: World, gcDepth: nat, leaders: seq<BlockRef>, k: nat, r: BlockRef)
    requires k < |leaders| && InSubDag(w, gcDepth, leaders, k, r)
    ensures Reaches(w.blocks, leaders[k], r) && r.round > GcBefore(leaders, gcDepth, k)
  {
  }

  lemma IsOriginDescendant(c: Committee, blocks: BlockMap, f: BlockRef, p: BlockRef)
    requires Linked(c, blocks, {}) && f in blocks && p in blocks && p.round < f.round
    requires blocks[f].block.ancestors != [] && blocks[f].block.ancestors[0] == p
    ensures f in blocks[p].originDescendants
  {
    assert OwnReaches(blocks, f, p);
  }
}
