/** Linearized commits are what every later stage asks for. */
module CommitPipeline {
  import opened Blocks
  import opened BlockVerifier
  import opened Dags
  import opened BlockIndex
  import opened VoteTraversal
  import opened FinalizerLinks
  import opened FinalizerState
  import opened FinalizerQueue
  import opened CommitRule
  import opened UniversalCommitter
  import opened CommitRuns
  import opened Linearizers
  import opened CommitRanges
  import opened LeaderScores
  import opened LeaderSchedulesV3
  import opened ScoringSubdags

  /** The commits of the first leaders, in order. */
  ghost predicate AreCommits(w: World, gcDepth: nat, leaders: seq<BlockRef>, commits: seq<CommittedSubDag>) {
    && AreLeaders(w, leaders) && |commits| <= |leaders|
    && forall k :: 0 <= k < |commits| ==> IsSubDag(w, gcDepth, leaders, k, commits[k])
  }

  /** The queue holds the commits from the c-th on. */
  ghost predicate IsWindow(commits: seq<CommittedSubDag>, c: nat, queue: Queue) {
    && c + |queue| <= |commits|
    && forall k :: 0 <= k < |queue| ==> queue[k].commit == commits[c + k]
  }

  // ----- the finalizer

  /** The commits of the linearizer, in order, are what the finalizer asks for. */
  lemma CommitsCanFollow(w: World, gcDepth: nat, leaders: seq<BlockRef>, commits: seq<CommittedSubDag>, c: nat,
                         queue: Queue, blocks: BlockMap)
    requires w.Valid() && AreCommits(w, gcDepth, leaders, commits)
    requires IsWindow(commits, c, queue) && c + |queue| < |commits|
    requires Mapped(blocks, queue, |queue|) && EntriesFit(w.committee, blocks)
    ensures CanFollow(w.committee, blocks, queue, commits[c + |queue|])
  {
    hide World.Valid, Reaches, InSubDag, SortedBySlot, InOrder;
    var k := c + |queue|;
    var commit := commits[k];
    assert IsSubDag(w, gcDepth, leaders, k, commit);
    LeaderIsCommitted(w, gcDepth, leaders, k, commit);
    forall b | b in commit.blocks
      ensures IsCommittable(w.committee, b) && b.Ref() !in blocks
    {
      assert b.Ref() in Refs(commit.blocks);
      SubDagIsCommittable(w, gcDepth, leaders, k, b.Ref());
      if b.Ref() in blocks {
        var j := EntryFrom(w, gcDepth, leaders, commits, c, queue, blocks, b.Ref());
        CommittedOnce(w, gcDepth, leaders, j, k, b.Ref());
      }
    }
    forall b, x | b in commit.blocks && x in blocks
      ensures b.Ref() !in blocks[x].block.ancestors
    {
      assert b.Ref() in Refs(commit.blocks);
      if b.Ref() in blocks[x].block.ancestors {
        var j := EntryFrom(w, gcDepth, leaders, commits, c, queue, blocks, x);
        AncestorIsReached(w, blocks[x].block.Ref(), b.Ref());
        HistoryIsNotLater(w, gcDepth, leaders, blocks[x].block.Ref(), j, b.Ref(), k);
      }
    }
    if queue != [] {
      assert queue[|queue| - 1].commit == commits[k - 1];
      assert IsSubDag(w, gcDepth, leaders, k - 1, commits[k - 1]);
    }
  }

  lemma LeaderIsInSubDag(w: World, gcDepth: nat, leaders: seq<BlockRef>, k: nat)
    requires AreLeaders(w, leaders) && k < |leaders|
    ensures InSubDag(w, gcDepth, leaders, k, leaders[k])
  {
    LeaderIsNew(w, gcDepth, leaders[..k], leaders[k]);
    CommittedBeforeIsLocal(w, gcDepth, leaders, k, leaders[k]);
    ReachesItself(w, leaders[k]);
  }

  lemma LeaderIsCommitted(w: World, gcDepth: nat, leaders: seq<BlockRef>, k: nat, commit: CommittedSubDag)
    requires AreLeaders(w, leaders) && k < |leaders| && IsSubDag(w, gcDepth, leaders, k, commit)
    ensures commit.blocks != []
  {
    LeaderIsInSubDag(w, gcDepth, leaders, k);
    assert leaders[k] in Refs(commit.blocks);
  }

  lemma CommittedBeforeIsLocal(w: World, gcDepth: nat, leaders: seq<BlockRef>, k: nat, r: BlockRef)
    requires k <= |leaders|
    ensures IsCommittedBefore(w, gcDepth, leaders, k, r) <==> IsCommittedBefore(w, gcDepth, leaders[..k], k, r)
  {
    forall j | 0 <= j < k
      ensures Includes(w, gcDepth, leaders, j, r) <==> Includes(w, gcDepth, leaders[..k], j, r)
    {
    }
    hide Includes;
  }

  lemma SubDagIsCommittable(w: World, gcDepth: nat, leaders: seq<BlockRef>, k: nat, r: BlockRef)
    requires w.Valid() && k < |leaders| && InSubDag(w, gcDepth, leaders, k, r) && r in w.blocks
    ensures IsCommittable(w.committee, w.blocks[r])
  {
    hide Reaches, IsCommittedBefore;
    assert WellFormed(w.committee, w.genesis, w.blocks[r]);
  }

  /** A mapped entry comes from a commit of the window. */
  lemma EntryFrom(w: World, gcDepth: nat, leaders: seq<BlockRef>, commits: seq<CommittedSubDag>, c: nat, queue: Queue,
                  blocks: BlockMap, x: BlockRef) returns (j: nat)
    requires AreCommits(w, gcDepth, leaders, commits) && IsWindow(commits, c, queue) && Mapped(blocks, queue, |queue|)
    requires x in blocks
    ensures c <= j < c + |queue| && blocks[x].commitIndex == j + 1
    ensures InSubDag(w, gcDepth, leaders, j, blocks[x].block.Ref())
    ensures blocks[x].block.Ref() in w.blocks && w.blocks[blocks[x].block.Ref()] == blocks[x].block
  {
    hide InSubDag, SortedBySlot, IsMappedAs, AreLeaders;
    var k :| 0 <= k < |queue| && Holds(queue[k].commit, blocks[x]);
    j := c + k;
    assert IsSubDag(w, gcDepth, leaders, j, commits[j]);
    assert blocks[x].block in commits[j].blocks;
    assert blocks[x].block.Ref() in Refs(commits[j].blocks);
  }

  // ----- leader scores

  /** The sliding window of scores gets numbered commits with ever higher leaders. */
  lemma CommitsAreHistory(w: World, gcDepth: nat, leaders: seq<BlockRef>, commits: seq<CommittedSubDag>, cfg: Config)
    requires w.Valid() && AreCommits(w, gcDepth, leaders, commits) && cfg.committee == w.committee
    ensures IsHistory(cfg, commits)
  {
    hide World.Valid, InSubDag, SortedBySlot;
    forall i | 0 <= i < |commits|
      ensures commits[i].index == i + 1 && commits[i].leader == leaders[i] && IsScorable(cfg.committee, commits[i])
    {
      assert IsSubDag(w, gcDepth, leaders, i, commits[i]);
      LeaderIsIn(w, gcDepth, leaders, i, commits[i]);
      forall b | b in commits[i].blocks
        ensures cfg.committee.IsMember(b.author)
      {
        assert b.Ref() in Refs(commits[i].blocks);
        SubDagIsCommittable(w, gcDepth, leaders, i, b.Ref());
      }
    }
    hide IsScorable;
  }

  lemma LeaderIsIn(w: World, gcDepth: nat, leaders: seq<BlockRef>, k: nat, commit: CommittedSubDag)
    requires AreLeaders(w, leaders) && k < |leaders| && IsSubDag(w, gcDepth, leaders, k, commit)
    ensures commit.leader in LeaderRefs(commit)
  {
    LeaderIsInSubDag(w, gcDepth, leaders, k);
    hide InSubDag;
    assert leaders[k] in Refs(commit.blocks);
    var b :| b in commit.blocks && b.Ref() == leaders[k];
  }

  // ----- votes for committed leaders

  /** What has been scored when the commits from `from` up to, not including, the k-th one are in. */
  ghost predicate IsScoredUpto(commits: seq<CommittedSubDag>, from: nat, k: nat, range: Option<CommitRange>,
                               leaders: set<BlockRef>, blocks: set<Block>)
    requires from <= k <= |commits|
  {
    && range == (if from == k then None else Some(CommitRange.Inclusive(from + 1, k)))
    && (forall l :: l in leaders ==> exists j :: from <= j < k && commits[j].leader == l)
    && (forall b :: b in blocks ==> exists j :: from <= j < k && b in commits[j].blocks)
  }

  /** The next commit can be scored: its leader is in a new round that no block has linked to, and its
      blocks come in causal order. */
  lemma CommitCanBeScored(w: World, gcDepth: nat, leaders: seq<BlockRef>, commits: seq<CommittedSubDag>, from: nat,
                          k: nat, range: Option<CommitRange>, scored: set<BlockRef>, blocks: set<Block>)
    requires w.Valid() && AreCommits(w, gcDepth, leaders, commits) && from <= k < |commits|
    requires IsScoredUpto(commits, from, k, range, scored, blocks)
    ensures CanAddSubdag(w.committee, range, scored, blocks, commits[k])
  {
    hide World.Valid, InSubDag, SortedBySlot, CanAdd;
    var commit := commits[k];
    assert IsSubDag(w, gcDepth, leaders, k, commit);
    forall l | l in scored
      ensures l.round != commit.leader.round
    {
      var j :| from <= j < k && commits[j].leader == l;
      assert IsSubDag(w, gcDepth, leaders, j, commits[j]);
    }
    forall x | x in blocks
      ensures commit.leader !in x.ancestors
    {
      var j :| from <= j < k && x in commits[j].blocks;
      NoLinkBack(w, gcDepth, leaders, commits, j, x, k, leaders[k]);
    }
    forall i | 0 <= i < |commit.blocks|
      ensures CanAdd(w.committee, blocks + Before(commit.blocks, i), commit.blocks[i])
    {
      NextCanBeAdded(w, gcDepth, leaders, commits, from, k, range, scored, blocks, i);
    }
  }

  /** A committed block does not link to one that is committed later. */
  lemma NoLinkBack(w: World, gcDepth: nat, leaders: seq<BlockRef>, commits: seq<CommittedSubDag>, j: nat, x: Block,
                   k: nat, r: BlockRef)
    requires w.Valid() && AreCommits(w, gcDepth, leaders, commits) && j < k < |commits| && x in commits[j].blocks
    requires InSubDag(w, gcDepth, leaders, k, r) || r == leaders[k]
    ensures r !in x.ancestors && x.Ref() != r
  {
    hide World.Valid, SortedBySlot, Reaches, IsCommittedBefore;
    LeaderIsInSubDag(w, gcDepth, leaders, k);
    hide InSubDag;
    assert IsSubDag(w, gcDepth, leaders, j, commits[j]);
    assert x.Ref() in Refs(commits[j].blocks);
    if r == x.Ref() {
      CommittedOnce(w, gcDepth, leaders, j, k, r);
    }
    if r in x.ancestors {
      AncestorIsReached(w, x.Ref(), r);
      HistoryIsNotLater(w, gcDepth, leaders, x.Ref(), j, r, k);
    }
  }

  lemma NextCanBeAdded(w: World, gcDepth: nat, leaders: seq<BlockRef>, commits: seq<CommittedSubDag>, from: nat, k: nat,
                       range: Option<CommitRange>, scored: set<BlockRef>, blocks: set<Block>, i: nat)
    requires w.Valid() && AreCommits(w, gcDepth, leaders, commits) && from <= k < |commits|
    requires IsScoredUpto(commits, from, k, range, scored, blocks) && i < |commits[k].blocks|
    ensures CanAdd(w.committee, blocks + Before(commits[k].blocks, i), commits[k].blocks[i])
  {
    hide World.Valid, InSubDag, AreCommits, WellFormed;
    var commit, b := commits[k], commits[k].blocks[i];
    BlockOfCommit(w, gcDepth, leaders, commits, k, i);
    forall x | x in blocks + Before(commit.blocks, i)
      ensures x.Ref() != b.Ref() && b.Ref() !in x.ancestors
    {
      if x in blocks {
        var j :| from <= j < k && x in commits[j].blocks;
        NoLinkBack(w, gcDepth, leaders, commits, j, x, k, b.Ref());
      } else {
        var j :| 0 <= j < i && commit.blocks[j] == x;
        EarlierInCommit(w, gcDepth, leaders, commits, k, j, i);
      }
    }
    IsAddable(w, b);
  }

  lemma IsAddable(w: World, b: Block)
    requires WellFormed(w.committee, w.genesis, b)
    ensures w.committee.IsMember(b.author) && b.round > 0 && DistinctAuthors(b.ancestors) && b.Ref() !in b.ancestors
  {
  }

  lemma BlockOfCommit(w: World, gcDepth: nat, leaders: seq<BlockRef>, commits: seq<CommittedSubDag>, k: nat, i: nat)
    requires w.Valid() && AreCommits(w, gcDepth, leaders, commits) && k < |commits| && i < |commits[k].blocks|
    ensures var b := commits[k].blocks[i];
            InSubDag(w, gcDepth, leaders, k, b.Ref()) && WellFormed(w.committee, w.genesis, b)
  {
    hide World.Valid, InSubDag, WellFormed, InOrder, SortedBySlot, AreLeaders;
    assert IsSubDag(w, gcDepth, leaders, k, commits[k]);
    var b := commits[k].blocks[i];
    assert b in commits[k].blocks && b.Ref() in Refs(commits[k].blocks);
    SubDagIsWellFormed(w, gcDepth, leaders, k, b.Ref());
  }

  /** Within a commit blocks come after what they link to. */
  lemma EarlierInCommit(w: World, gcDepth: nat, leaders: seq<BlockRef>, commits: seq<CommittedSubDag>, k: nat, j: nat,
                        i: nat)
    requires w.Valid() && AreCommits(w, gcDepth, leaders, commits) && k < |commits| && j < i < |commits[k].blocks|
    ensures var x, b := commits[k].blocks[j], commits[k].blocks[i];
            x.Ref() != b.Ref() && b.Ref() !in x.ancestors
  {
    hide World.Valid, InSubDag, InOrder, AreLeaders;
    assert IsSubDag(w, gcDepth, leaders, k, commits[k]);
    var x, b := commits[k].blocks[j], commits[k].blocks[i];
    BlockOfCommit(w, gcDepth, leaders, commits, k, j);
    assert NotAfter(x, b);
  }

  lemma SubDagIsWellFormed(w: World, gcDepth: nat, leaders: seq<BlockRef>, k: nat, r: BlockRef)
    requires w.Valid() && k < |leaders| && InSubDag(w, gcDepth, leaders, k, r) && r in w.blocks
    ensures WellFormed(w.committee, w.genesis, w.blocks[r])
  {
    hide Reaches, IsCommittedBefore;
  }

  // ----- from decided leaders to commits

  /** Decided leaders can be linearized: they are in ever higher rounds. */
  lemma {:induction false} CommittedLeadersAreLeaders(w: World, e: Protocol, decided: seq<LeaderStatus>)
    requires e.Valid() && Backed(w, e, decided)
    ensures AreLeaders(w, CommittedLeaders(decided))
    ensures forall l :: l in CommittedLeaders(decided) ==> l.round <= |decided|
  {
    hide World.Valid, World.HasView, StatusAt;
    if decided == [] {
    } else {
      var n := |decided| - 1;
      BackedPrefix(w, e, decided, n);
      CommittedLeadersAreLeaders(w, e, decided[..n]);
      if decided[n].Commit? {
        DecidedLeaderIsOfRound(w, e, decided, n);
      }
      hide Backed;
    }
  }

  /** A sub-dag depends on the leaders up to its own only. */
  lemma SubDagIsLocal(w: World, gcDepth: nat, leaders: seq<BlockRef>, leaders': seq<BlockRef>, k: nat,
                      commit: CommittedSubDag)
    requires k < |leaders| && leaders <= leaders'
    ensures IsSubDag(w, gcDepth, leaders', k, commit) <==> IsSubDag(w, gcDepth, leaders, k, commit)
  {
    forall r
      ensures InSubDag(w, gcDepth, leaders', k, r) <==> InSubDag(w, gcDepth, leaders, k, r)
      ensures IsCommittedBefore(w, gcDepth, leaders', k, r) <==> IsCommittedBefore(w, gcDepth, leaders, k, r)
    {
      forall j | 0 <= j <= k
        ensures Includes(w, gcDepth, leaders, j, r) <==> Includes(w, gcDepth, leaders', j, r)
      {
      }
      hide Includes;
    }
    hide InSubDag, IsCommittedBefore, Traversal, SlotSorted;
    assert CommittedBefore(w, gcDepth, leaders', k) == CommittedBefore(w, gcDepth, leaders, k);
  }

  /** In every run, any two validators commit the same blocks in the same order under the same commit index. */
  lemma RunsCommitTheSameBlocks(w: World, e: Protocol, gcDepth: nat, run: seq<seq<Validator>>, t1: nat, i: nat, t2: nat,
                                j: nat, k: nat, one: CommittedSubDag, other: CommittedSubDag)
    requires e.Valid() && IsRun(w, e, run)
    requires t1 < |run| && i < |run[t1]| && t2 < |run| && j < |run[t2]|
    requires k < |CommittedLeaders(run[t1][i].decided)| && k < |CommittedLeaders(run[t2][j].decided)|
    requires IsSubDag(w, gcDepth, CommittedLeaders(run[t1][i].decided), k, one)
    requires IsSubDag(w, gcDepth, CommittedLeaders(run[t2][j].decided), k, other)
    ensures one.leader == other.leader && one.blocks == other.blocks
  {
    hide World.Valid, World.HasView, IsSubDag, IsRun;
    RunsAreConsistent(w, e, run, t1, i, t2, j);
    var a, b := run[t1][i].decided, run[t2][j].decided;
    if a <= b {
      CommittedLeadersGrow(b, |a|);
      assert b[..|a|] == a;
      SubDagIsLocal(w, gcDepth, CommittedLeaders(a), CommittedLeaders(b), k, one);
      SubDagsAgree(w, gcDepth, CommittedLeaders(b), k, one, other);
    } else {
      CommittedLeadersGrow(a, |b|);
      assert a[..|b|] == b;
      SubDagIsLocal(w, gcDepth, CommittedLeaders(b), CommittedLeaders(a), k, other);
      SubDagsAgree(w, gcDepth, CommittedLeaders(a), k, one, other);
    }
  }
}
