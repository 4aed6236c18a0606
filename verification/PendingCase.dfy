/** Pending transactions among four authorities: one is accepted by a quorum of later blocks, one is left until its
    commit expires. */
module PendingCase {
  import opened Committees
  import opened FourAuthorities
  import opened Blocks
  import opened VoteTraversal
  import opened FinalizerState
  import opened FinalizerFates

  const Pending := Block(5, 1, 0, [BlockRef(4, 1, 0)], 2, [], [])
  const Leader := BlockRef(6, 0, 0)
  const Commit := CommittedSubDag(1, Leader, [Pending], true, map[])

  /** Authority 3 rejects the first transaction; authorities 2 and 3 reject the second. */
  const Stakes: RejectStakes := map[Pending.Ref() := map[0 := 1, 1 := 2]]

  function VoterRef(a: Authority): BlockRef {
    BlockRef(6, a, 0)
  }

  function RejectedBy(a: Authority): map<BlockRef, set<nat>> {
    if a == 3 then map[Pending.Ref() := {0, 1}] else if a == 2 then map[Pending.Ref() := {1}] else map[]
  }

  /** A block of the next commit that votes on the pending one. */
  function Voter(a: Authority): BlockState {
    BlockState(Block(6, a, 0, [BlockRef(5, a, 0), Pending.Ref()], 0, [], []), {}, RejectedBy(a), [], 2)
  }

  function Buffer(): BlockMap {
    var voters := {VoterRef(0), VoterRef(1), VoterRef(2), VoterRef(3)};
    map[Pending.Ref() := BlockState(Pending, voters, map[], [VoterRef(1)], 1),
        VoterRef(0) := Voter(0), VoterRef(1) := Voter(1), VoterRef(2) := Voter(2), VoterRef(3) := Voter(3)]
  }

  function Votes(): Context {
    Context(Four, Buffer(), [(1, 4)])
  }

  function VoteQuery(): Query {
    Votes().For(Pending.Ref())
  }

  lemma BufferHolds(x: BlockRef)
    ensures x in Buffer() <==> x == Pending.Ref() || (x.author < 4 && x == VoterRef(x.author))
    ensures x in Buffer() && x != Pending.Ref() ==> Buffer()[x] == Voter(x.author)
    ensures Pending.Ref() in Buffer() && Buffer()[Pending.Ref()].commitIndex == 1
    ensures x in Buffer()[Pending.Ref()].children <==> x.author < 4 && x == VoterRef(x.author)
    ensures x in Buffer()[Pending.Ref()].originDescendants <==> x == VoterRef(1)
  {
  }

  lemma VotesAreValid()
    ensures VoteQuery().Valid()
  {
    hide Buffer;
    var q := VoteQuery();
    BufferHolds(Pending.Ref());
    forall x | x in q.blocks
      ensures q.committee.IsMember(x.author) && q.blocks[x].commitIndex <= 2
      ensures forall y :: y in q.blocks[x].children || y in q.blocks[x].originDescendants ==> IsLater(q.blocks, x, y)
      ensures forall y :: y in q.blocks[x].originDescendants ==> y in q.blocks && q.blocks[y].originDescendants == []
    {
      BufferHolds(x);
      forall y | y in q.blocks[x].children || y in q.blocks[x].originDescendants
        ensures IsLater(q.blocks, x, y)
        ensures y in q.blocks && q.blocks[y].originDescendants == []
      {
        BufferHolds(y);
      }
    }
  }

  /** All four vote, and nobody else. */
  lemma VotersVote(x: BlockRef)
    ensures VoteQuery().Valid()
    ensures VoteQuery().Votes(x) <==> x.author < 4 && x == VoterRef(x.author)
  {
    hide Buffer, Query.Valid;
    VotesAreValid();
    var q := VoteQuery();
    BufferHolds(x);
    if q.IsDescendant(x) {
      DescendantsAreLater(q, x);
    }
    if x.author < 4 && x == VoterRef(x.author) {
      assert Descends(q.blocks, Pending.Ref(), x);
      forall y | y in q.blocks && q.IsDescendant(y)
        ensures x !in q.blocks[y].originDescendants
      {
        DescendantsAreLater(q, y);
        BufferHolds(y);
      }
    }
  }

  lemma AcceptorsAre(t: nat, a: Authority)
    requires t < 2
    ensures VoteQuery().Valid()
    ensures a in VoteQuery().Acceptors(t) <==> a < 3 - t
  {
    hide Buffer, Query.Valid, Query.Votes;
    VotersVote(VoterRef(a));
    BufferHolds(VoterRef(a));
    var q := VoteQuery();
    if a in q.Acceptors(t) {
      var x :| x in q.blocks && q.Votes(x) && t !in q.Rejects(x) && x.author == a;
      VotersVote(x);
    }
  }

  /** The first transaction has a quorum of accepts, the second one has not. */
  lemma OnlyFirstIsAccepted()
    ensures VoteQuery().Valid()
    ensures VoteQuery().IsAccepted(0) && !VoteQuery().IsAccepted(1)
  {
    hide Query.Acceptors, Query.Valid, VoteQuery, Committee.IsQuorum;
    VotesAreValid();
    forall a: Authority
      ensures a in VoteQuery().Acceptors(0) <==> a < 3
      ensures a in VoteQuery().Acceptors(1) <==> a < 2
    {
      AcceptorsAre(0, a);
      AcceptorsAre(1, a);
    }
    QuorumIsThree(VoteQuery().Acceptors(0));
    QuorumIsThree(VoteQuery().Acceptors(1));
    IsOfFour();
  }

  lemma IsOfFour()
    ensures VoteQuery().committee == Four
  {
  }

  /** Both transactions stay pending at first. The later blocks then settle the first one, and the second one is
      rejected when its commit expires. */
  lemma PendingIsSettled()
    ensures var s := NewCommitState(Commit);
            var pending := CommitState(Commit, map[], map[Pending.Ref() := {0, 1}], map[]);
            var left := CommitState(Commit, map[], map[Pending.Ref() := {1}], map[]);
            var settled := CommitState(Commit, map[], map[], map[Pending.Ref() := {1}]);
            && s.pendingBlocks == map[Pending.Ref() := 2]
            && DirectOutcome(Four, VoteGcRound(10, Commit), Stakes, s.pendingBlocks, s.pendingBlocks.Keys,
                             pending.pendingTransactions, map[])
            && Votes().Covers({Pending.Ref()})
            && FinalOutcome(Votes(), Stakes, false, pending, left)
            && FinalOutcome(Votes(), Stakes, true, left, settled)
  {
    hide Query.Valid, Query.IsAccepted, Buffer;
    OnlyFirstIsAccepted();
    assert Commit.blocks[..0] == [];
    assert NumTransactions(Commit.blocks) == map[Pending.Ref() := 2];
  }
}
