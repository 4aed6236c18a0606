/** Why agreement on rejects leaves out blocks without transactions whose votes may be garbage collected: a vote can
    name an index that the block does not have, and whether it is ever looked at depends on when it is seen. */
module UncoveredBlocks {
  import opened Committees
  import opened FourAuthorities
  import opened Blocks
  import opened VoteTraversal
  import opened FinalizerState
  import opened FinalizerFates

  const Empty := Block(5, 1, 0, [BlockRef(4, 1, 0)], 0, [], [])
  const Leader := BlockRef(20, 0, 0)
  const Commit := CommittedSubDag(1, Leader, [Empty], true, map[])

  const Unseen: RejectStakes := map[Empty.Ref() := map[]]
  const Seen: RejectStakes := map[Empty.Ref() := map[7 := 1]]

  /** The buffer holds no vote on the block. */
  const NoVotes := Context(Four, map[Empty.Ref() := BlockState(Empty, {}, map[], [], 1)], [(1, 10)])

  lemma NoVoteIsCounted()
    ensures NoVotes.For(Empty.Ref()).Valid() && !NoVotes.For(Empty.Ref()).IsAccepted(7)
  {
    var q := NoVotes.For(Empty.Ref());
    assert q.Valid();
    assert q.Acceptors(7) == {};
    StakeEmpty(Four);
  }

  /** Who has not seen the vote settles the commit without rejects; who has seen it keeps the index pending, and rejects
      it when the commit expires. */
  lemma RejectsCanDiffer()
    ensures var s, g := NewCommitState(Commit), VoteGcRound(10, Commit);
            var pending := CommitState(Commit, map[], map[Empty.Ref() := {7}], map[]);
            var rejected := CommitState(Commit, map[], map[], map[Empty.Ref() := {7}]);
            && s.pendingBlocks == map[Empty.Ref() := 0] && Empty.round <= g
            && DirectOutcome(Four, g, Unseen, s.pendingBlocks, s.pendingBlocks.Keys, map[], map[])
            && DirectOutcome(Four, g, Seen, s.pendingBlocks, s.pendingBlocks.Keys, pending.pendingTransactions, map[])
            && NoVotes.Covers(pending.pendingTransactions.Keys) && FinalOutcome(NoVotes, Seen, true, pending, rejected)
  {
    NoVoteIsCounted();
    hide Query.Valid, Query.IsAccepted;
    assert Commit.blocks[..0] == [];
    assert NumTransactions(Commit.blocks) == map[Empty.Ref() := 0];
  }
}
