/** The block DAG: what all blocks ever verified look like, the part of it a
    validator holds, and causal history. */
module Dags {
  import opened Committees
  import opened Blocks
  import opened BlockVerifier

  /** The part of a validator's block store that the protocol reads. */
  datatype DagState = DagState(
    blocks: map<BlockRef, Block>,
    gcRound: Round,
    highestAcceptedRound: Round)

  /** Everything that is common to all validators: the committee, the genesis blocks and
      the set of all blocks that ever passed verification anywhere. */
  datatype World = World(
    committee: Committee,
    genesis: set<BlockRef>,
    blocks: map<BlockRef, Block>,
    byzantine: set<Authority>)
  {
    /** Every block of the world is indexed by its own reference and well formed, the
        Byzantine stake is tolerated, and an honest authority has one block per round. */
    ghost predicate Valid() {
      && committee.ToleratesFaults(byzantine)
      && IndexedByRef(blocks)
      && (forall r :: r in blocks && r.round > 0 ==> WellFormed(committee, genesis, blocks[r]))
      && (forall r :: r in blocks && r.round == GENESIS_ROUND ==> blocks[r].ancestors == [])
      && (forall r, s :: r in blocks && s in blocks && InSameHonestSlot(r, s) ==> r == s)
    }

    predicate InSameHonestSlot(r: BlockRef, s: BlockRef) {
      r.Slot() == s.Slot() && r.author !in byzantine
    }

    /** A validator's view: some blocks of the world, with the history above its garbage
        collection round complete. */
    ghost predicate HasView(d: DagState) {
      && d.blocks.Keys <= blocks.Keys
      && (forall r :: r in d.blocks ==> d.blocks[r] == blocks[r])
      && ClosedAbove(d.blocks, d.gcRound)
      && (forall r :: r in d.blocks ==> r.round <= d.highestAcceptedRound)
    }
  }

  ghost predicate IndexedByRef(blocks: map<BlockRef, Block>) {
    forall r :: r in blocks ==> blocks[r].Ref() == r
  }

  ghost predicate ClosedAbove(blocks: map<BlockRef, Block>, gcRound: Round) {
    forall r, a :: r in blocks && a in blocks[r].ancestors && a.round > gcRound ==> a in blocks
  }

  /** `to` is `from` or lies in its causal history. */
  ghost predicate Reaches(blocks: map<BlockRef, Block>, from: BlockRef, to: BlockRef)
    decreases from.round
  {
    || from == to
    || (from in blocks && exists a :: a in blocks[from].ancestors && a.round < from.round && Reaches(blocks, a, to))
  }

  lemma {:induction false} ReachesDescends(blocks: map<BlockRef, Block>, from: BlockRef, to: BlockRef)
    requires Reaches(blocks, from, to)
    ensures from == to || to.round < from.round
    decreases from.round
  {
    if from == to {
    } else {
      var a :| a in blocks[from].ancestors && a.round < from.round && Reaches(blocks, a, to);
      ReachesDescends(blocks, a, to);
    }
  }

  lemma {:induction false} ReachesTransitive(blocks: map<BlockRef, Block>, x: BlockRef, y: BlockRef, z: BlockRef)
    requires Reaches(blocks, x, y) && Reaches(blocks, y, z)
    ensures Reaches(blocks, x, z)
    decreases x.round
  {
    if x == y {
    } else {
      var a :| a in blocks[x].ancestors && a.round < x.round && Reaches(blocks, a, y);
      ReachesTransitive(blocks, a, y, z);
    }
  }

  lemma ViewIsOfWorld(w: World, d: DagState, r: BlockRef)
    requires w.HasView(d) && r in d.blocks
    ensures r in w.blocks && w.blocks[r] == d.blocks[r]
  {
  }

  /** Causal history above the garbage collection round is the same in a view and in the world. */
  lemma {:induction false} ViewReaches(w: World, d: DagState, from: BlockRef, to: BlockRef)
    requires w.Valid() && w.HasView(d)
    requires from in d.blocks && to.round > d.gcRound
    ensures Reaches(w.blocks, from, to) <==> Reaches(d.blocks, from, to)
    ensures Reaches(w.blocks, from, to) ==> to in d.blocks
    decreases from.round
  {
    assert d.blocks[from] == w.blocks[from];
    forall a | a in w.blocks[from].ancestors && a.round < from.round && a.round >= to.round
      ensures Reaches(w.blocks, a, to) <==> Reaches(d.blocks, a, to)
      ensures Reaches(w.blocks, a, to) ==> to in d.blocks
    {
      ViewReaches(w, d, a, to);
    }
    if Reaches(w.blocks, from, to) && from != to {
      var a :| a in w.blocks[from].ancestors && a.round < from.round && Reaches(w.blocks, a, to);
      ReachesDescends(w.blocks, a, to);
    }
    if Reaches(d.blocks, from, to) && from != to {
      var a :| a in d.blocks[from].ancestors && a.round < from.round && Reaches(d.blocks, a, to);
      ReachesDescends(d.blocks, a, to);
    }
  }

  /** Authors of the blocks at a round in the causal history of a block. */
  ghost function HistoryAuthors(w: World, from: BlockRef, round: Round): set<Authority> {
    set r | r in w.blocks && r.round == round && Reaches(w.blocks, from, r) :: r.author
  }

  /** Every block has a quorum of authors in its causal history at each round below it, as
      far as the history is complete: the parent quorum repeats all the way down. */
  lemma {:induction false} HistoryHasQuorum(w: World, d: DagState, from: BlockRef, round: Round)
    requires w.Valid() && w.HasView(d)
    requires from in d.blocks && from.round > round > d.gcRound
    ensures w.committee.IsQuorum(HistoryAuthors(w, from, round))
    decreases from.round
  {
    var b := w.blocks[from];
    var parents := ParentAuthors(b);
    if from.round == round + 1 {
      forall x | x in parents
        ensures x in HistoryAuthors(w, from, round)
      {
        var a :| a in b.ancestors && a.round + 1 == b.round && a.author == x;
        assert a in d.blocks && Reaches(w.blocks, a, a);
      }
      StakeMonotone(w.committee, parents, HistoryAuthors(w, from, round));
    } else {
      var h := QuorumHasMember(w.committee, w.byzantine, parents);
      var a :| a in b.ancestors && a.round + 1 == b.round && a.author == h;
      assert a in d.blocks;
      HistoryHasQuorum(w, d, a, round);
      forall x | x in HistoryAuthors(w, a, round)
        ensures x in HistoryAuthors(w, from, round)
      {
        var r :| r in w.blocks && r.round == round && Reaches(w.blocks, a, r) && r.author == x;
        assert Reaches(w.blocks, from, r);
      }
      StakeMonotone(w.committee, HistoryAuthors(w, a, round), HistoryAuthors(w, from, round));
    }
  }
}
