/** How block acceptance and the commit rule fit together: what the block manager has accepted is a view of
    the world, and linearized commits bring the history that it asks for. */
module AcceptedViews {
  import opened Blocks
  import opened BlockIndex
  import opened BlockManagers
  import opened Dags
  import opened FinalizerState
  import opened Linearizers
  import opened CommitPipeline

  /** Between calls the accepted blocks are a view on which leaders can be decided. */
  lemma {:induction false} AcceptedIsView(w: World, m: BlockManager, highestAcceptedRound: Round)
    requires m.Valid() && m.ClosedAbove(m.gcRound)
    requires forall r :: r in m.received ==> r in w.blocks && w.blocks[r] == m.received[r]
    requires forall r :: r in m.dag ==> r.round <= highestAcceptedRound
    ensures w.HasView(DagState(m.dag, m.gcRound, highestAcceptedRound))
  {
    hide Consistent, Missing, DagIsVerified;
  }

  /** The blocks of the commits at the positions `from` up to, not including, `to`. */
  ghost predicate AreBlocksOf(commits: seq<CommittedSubDag>, from: nat, to: nat, blocks: seq<Block>)
    requires from <= to <= |commits|
  {
    forall b :: b in blocks <==> exists k :: from <= k < to && b in commits[k].blocks
  }

  ghost predicate AreAccepted(commits: seq<CommittedSubDag>, n: nat, accepted: set<BlockRef>)
    requires n <= |commits|
  {
    forall k :: 0 <= k < n ==> Refs(commits[k].blocks) <= accepted
  }

  /** Commits that follow the accepted ones bring their history along, above the garbage collection round
      at which the last of them is linearized. */
  lemma CommitsBringHistory(w: World, gcDepth: nat, leaders: seq<BlockRef>, commits: seq<CommittedSubDag>, from: nat,
                            to: nat, genesis: set<BlockRef>, accepted: set<BlockRef>, blocks: seq<Block>)
    requires w.Valid() && AreCommits(w, gcDepth, leaders, commits) && from < to <= |commits|
    requires AreAccepted(commits, from, accepted) && AreBlocksOf(commits, from, to, blocks)
    ensures BringsHistory(genesis, accepted, GcBefore(leaders, gcDepth, to - 1), blocks)
  {
    hide World.Valid, IsSubDag, AreLeaders, GcBefore;
    forall b, a | b in blocks && a in b.ancestors && a.round > GcBefore(leaders, gcDepth, to - 1)
      ensures a in accepted + Refs(blocks)
    {
      var k :| from <= k < to && b in commits[k].blocks;
      var j := AncestorIsCommitted(w, gcDepth, leaders, commits, k, to - 1, b, a);
      if j >= from {
        var x :| x in commits[j].blocks && x.Ref() == a;
        assert x in blocks;
      }
    }
  }

  /** An ancestor of a committed block is committed not later, unless it is too old. */
  lemma AncestorIsCommitted(w: World, gcDepth: nat, leaders: seq<BlockRef>, commits: seq<CommittedSubDag>, k: nat,
                            last: nat, b: Block, a: BlockRef) returns (j: nat)
    requires w.Valid() && AreCommits(w, gcDepth, leaders, commits) && k <= last < |commits|
    requires b in commits[k].blocks && a in b.ancestors && a.round > GcBefore(leaders, gcDepth, last)
    ensures j <= k && a in Refs(commits[j].blocks)
  {
    hide World.Valid, SortedBySlot, InOrder, Reaches, IsCommittedBefore;
    assert IsSubDag(w, gcDepth, leaders, k, commits[k]);
    assert b.Ref() in Refs(commits[k].blocks);
    GcBeforeIsMonotone(w, gcDepth, leaders, k, last);
    AncestorIsReached(w, b.Ref(), a);
    ReachesTransitive(w.blocks, leaders[k], b.Ref(), a);
    j := HistoryIsCommitted(w, gcDepth, leaders, k, a);
    assert IsSubDag(w, gcDepth, leaders, j, commits[j]);
  }
}
