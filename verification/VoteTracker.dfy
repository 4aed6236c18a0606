/** Reject votes on transactions, aggregated from the blocks a validator has received. */
module VoteTrackers {
  import opened Committees
  import opened Blocks
  import opened VoteTraversal
  import opened FinalizerState

  /** What is known about one block: whether it was received, and who rejects its transactions. */
  datatype VoteInfo = VoteInfo(received: bool, rejects: map<nat, Tally>)

  type Votes = map<BlockRef, VoteInfo>

  function Info(votes: Votes, r: BlockRef): VoteInfo {
    if r in votes then votes[r] else VoteInfo(false, map[])
  }

  /** The lists of votes reject the transaction. */
  ghost predicate RejectsIn(votes: seq<TransactionVotes>, r: BlockRef, t: nat) {
    exists v :: v in votes && v.blockRef == r && t in v.rejects
  }

  /** Authors of the blocks that reject the transaction. */
  ghost function Rejecters(blocks: set<Block>, r: BlockRef, t: nat): set<Authority> {
    set b | b in blocks && RejectsIn(b.transactionVotes, r, t) :: b.author
  }

  /** The same, with part of the votes of one more author. */
  ghost function RejectersWith(blocks: set<Block>, votes: seq<TransactionVotes>, a: Authority, r: BlockRef,
                               t: nat): set<Authority>
  {
    Rejecters(blocks, r, t) + if RejectsIn(votes, r, t) then {a} else {}
  }

  lemma RejectersWithBlock(blocks: set<Block>, b: Block, r: BlockRef, t: nat)
    ensures RejectersWith(blocks, b.transactionVotes, b.author, r, t) == Rejecters(blocks + {b}, r, t)
  {
  }

  /** The tallies of a block name the rejecters of each of its transactions, with their stake. */
  ghost predicate Counts(c: Committee, rejects: map<nat, Tally>, blocks: set<Block>, votes: seq<TransactionVotes>,
                         a: Authority, r: BlockRef)
  {
    forall t: nat ::
      && (t in rejects <==> RejectersWith(blocks, votes, a, r, t) != {})
      && (t in rejects ==> rejects[t].Valid(c) && rejects[t].votes == RejectersWith(blocks, votes, a, r, t))
  }

  ghost predicate CountsAll(c: Committee, votes: Votes, gcRound: Round, blocks: set<Block>,
                            extra: seq<TransactionVotes>, a: Authority)
  {
    forall r: BlockRef :: r.round > gcRound ==> Counts(c, Info(votes, r).rejects, blocks, extra, a, r)
  }

  /** One author is added to the tally of each of the transactions. */
  function AddRejects(c: Committee, rejects: map<nat, Tally>, ts: set<nat>, a: Authority): map<nat, Tally>
    requires c.IsMember(a)
  {
    map t | t in rejects.Keys + ts ::
      if t !in ts then rejects[t]
      else (if t in rejects then rejects[t] else Tally({}, 0)).Add(c, a)
  }

  lemma RejectsInNext(votes: seq<TransactionVotes>, i: nat, r: BlockRef, t: nat)
    requires i < |votes|
    ensures RejectsIn(votes[..i + 1], r, t) <==>
              RejectsIn(votes[..i], r, t) || (votes[i].blockRef == r && t in votes[i].rejects)
  {
    assert votes[..i + 1] == votes[..i] + [votes[i]];
  }

  lemma AddRejectsCounts(c: Committee, rejects: map<nat, Tally>, blocks: set<Block>, votes: seq<TransactionVotes>,
                         i: nat, a: Authority)
    requires c.IsMember(a) && i < |votes| && Counts(c, rejects, blocks, votes[..i], a, votes[i].blockRef)
    ensures Counts(c, AddRejects(c, rejects, votes[i].rejects, a), blocks, votes[..i + 1], a, votes[i].blockRef)
  {
    hide Rejecters, RejectsIn, Tally.Valid, Tally.Add;
    StakeOfNobody(c);
    var r := votes[i].blockRef;
    forall t: nat
      ensures RejectersWith(blocks, votes[..i + 1], a, r, t)
           == RejectersWith(blocks, votes[..i], a, r, t) + if t in votes[i].rejects then {a} else {}
    {
      RejectsInNext(votes, i, r, t);
    }
    hide RejectersWith;
    forall t: nat | t in votes[i].rejects
      ensures AddRejects(c, rejects, votes[i].rejects, a)[t].Valid(c)
      ensures AddRejects(c, rejects, votes[i].rejects, a)[t].votes == RejectersWith(blocks, votes[..i + 1], a, r, t)
    {
      TallyAdd(if t in rejects then rejects[t] else Tally({}, 0), c, a);
    }
  }

  lemma StakeOfNobody(c: Committee)
    ensures Tally({}, 0).Valid(c)
  {
    StakeEmpty(c);
  }

  lemma OthersStillCount(c: Committee, rejects: map<nat, Tally>, blocks: set<Block>, votes: seq<TransactionVotes>,
                         i: nat, a: Authority, r: BlockRef)
    requires i < |votes| && r != votes[i].blockRef && Counts(c, rejects, blocks, votes[..i], a, r)
    ensures Counts(c, rejects, blocks, votes[..i + 1], a, r)
  {
    hide Rejecters, RejectsIn, Tally.Valid;
    forall t: nat
      ensures RejectersWith(blocks, votes[..i + 1], a, r, t) == RejectersWith(blocks, votes[..i], a, r, t)
    {
      RejectsInNext(votes, i, r, t);
    }
  }

  /** The stakes of a block are those of the authors that reject its transactions in the blocks seen. */
  ghost predicate IsTrackedStake(c: Committee, seen: set<Block>, r: BlockRef, stakes: map<nat, nat>) {
    && (forall t: nat :: t in stakes <==> Rejecters(seen, r, t) != {})
    && (forall t: nat :: t in stakes ==> stakes[t] == c.StakeOf(Rejecters(seen, r, t)))
  }

  /** Each entry was read at some time since the first blocks were counted, and before more than the last ones were. */
  ghost predicate AreTrackedStakes(c: Committee, since: set<Block>, upto: set<Block>, gcRound: Round,
                                   stakes: RejectStakes)
  {
    forall r :: r in stakes ==> r.round > gcRound && IsReadBetween(c, since, upto, r, stakes[r])
  }

  ghost predicate IsReadBetween(c: Committee, since: set<Block>, upto: set<Block>, r: BlockRef, stakes: map<nat, nat>) {
    exists seen :: since <= seen <= upto && IsTrackedStake(c, seen, r, stakes)
  }

  lemma ReadsInMore(c: Committee, since: set<Block>, upto: set<Block>, since': set<Block>, upto': set<Block>,
                    gcRound: Round, stakes: RejectStakes)
    requires AreTrackedStakes(c, since, upto, gcRound, stakes) && since' <= since && upto <= upto'
    ensures AreTrackedStakes(c, since', upto', gcRound, stakes)
  {
    hide IsTrackedStake;
    forall r | r in stakes
      ensures IsReadBetween(c, since', upto', r, stakes[r])
    {
      var seen :| since <= seen <= upto && IsTrackedStake(c, seen, r, stakes[r]);
    }
  }

  class TransactionVoteTracker {
    const committee: Committee

    var votes: Votes
    var gcRound: Round

    // The blocks whose votes have been counted.
    ghost var processed: set<Block>

    ghost predicate Valid()
      reads this
    {
      && (forall r :: r in votes ==> r.round > gcRound)
      && (forall b :: b in processed && b.round > gcRound ==> Info(votes, b.Ref()).received)
      && CountsAll(committee, votes, gcRound, processed, [], 0)
    }

    constructor (committee: Committee)
      ensures Valid() && processed == {} && gcRound == GENESIS_ROUND && this.committee == committee
    {
      this.committee := committee;
      votes, gcRound, processed := map[], GENESIS_ROUND, {};
    }

    /** Counts the reject votes of a block, once. */
    method AddVotedBlock(b: Block)
      requires Valid() && committee.IsMember(b.author)
      modifies this`votes, this`processed
      ensures Valid()
      ensures processed == if b.round > gcRound && !Info(old(votes), b.Ref()).received then old(processed) + {b}
                else old(processed)
      ensures b.round > gcRound ==> Info(votes, b.Ref()).received
      ensures old(votes).Keys <= votes.Keys
    {
      hide CountsAll;
      if b.round <= gcRound || Info(votes, b.Ref()).received {
        return;
      }
      votes := votes[b.Ref() := Info(votes, b.Ref()).(received := true)];
      ReceiptKeepsCounts(committee, old(votes), votes, gcRound, processed, b);
      for i := 0 to |b.transactionVotes|
        invariant processed == old(processed)
        invariant CountsAll(committee, votes, gcRound, processed, b.transactionVotes[..i], b.author)
        invariant forall r :: r in votes ==> r.round > gcRound
        invariant old(votes).Keys <= votes.Keys
        invariant forall r :: Info(old(votes), r).received || r == b.Ref() ==> Info(votes, r).received
      {
        var v := b.transactionVotes[i];
        ghost var votes1 := votes;
        if v.blockRef.round > gcRound {
          var info := Info(votes, v.blockRef);
          votes := votes[v.blockRef := info.(rejects := AddRejects(committee, info.rejects, v.rejects, b.author))];
        }
        NextVoteCounts(committee, votes1, votes, gcRound, processed, b, i);
      }
      assert b.transactionVotes[..|b.transactionVotes|] == b.transactionVotes;
      AllVotesCount(committee, votes, gcRound, processed, b);
      processed := processed + {b};
    }

    /** Drops what is at or below a round. The counts stay exact unless the round goes back. */
    method UpdateGcRound(round: Round)
      requires Valid()
      modifies this`votes, this`gcRound
      ensures gcRound == round && (old(gcRound) <= round ==> Valid())
      ensures forall r: BlockRef :: r in votes <==> r in old(votes) && r.round > round
      ensures forall r: BlockRef :: r in votes ==> votes[r] == old(votes)[r]
    {
      hide CountsAll;
      gcRound := round;
      while votes.Keys != {}
        invariant gcRound == round && votes.Keys <= old(votes).Keys
        invariant forall r: BlockRef :: r in old(votes) && r.round > round ==> r in votes
        invariant forall r: BlockRef :: r in votes ==> votes[r] == old(votes)[r]
        decreases |votes.Keys|
      {
        var r := First(votes.Keys);
        if r.round > gcRound {
          break;
        }
        assert (votes - {r}).Keys == votes.Keys - {r};
        votes := votes - {r};
      }
      if old(gcRound) <= round {
        FewerStillCount(committee, old(votes), old(gcRound), round, processed);
        SameInfoCounts(committee, old(votes), votes, round, processed);
      }
    }

    /** Stake behind the rejects of each transaction of a block. A transaction that nobody rejects
        is not listed. */
    method GetRejectVotes(r: BlockRef) returns (stakes: Option<map<nat, nat>>)
      requires Valid()
      ensures stakes.None? <==> r !in votes
      ensures stakes.Some? ==> r.round > gcRound && IsTrackedStake(committee, processed, r, stakes.value)
    {
      if r !in votes {
        return None;
      }
      CountsAt(committee, votes, gcRound, processed, r, 0);
      stakes := Some(map t | t in votes[r].rejects :: votes[r].rejects[t].stake);
    }
  }

  lemma FewerStillCount(c: Committee, votes: Votes, gcRound: Round, round: Round, blocks: set<Block>)
    requires CountsAll(c, votes, gcRound, blocks, [], 0) && round >= gcRound
    ensures CountsAll(c, votes, round, blocks, [], 0)
  {
    hide Counts;
  }

  lemma SameInfoCounts(c: Committee, votes: Votes, votes': Votes, round: Round, blocks: set<Block>)
    requires CountsAll(c, votes, round, blocks, [], 0)
    requires forall r: BlockRef :: r.round > round ==> Info(votes', r) == Info(votes, r)
    ensures CountsAll(c, votes', round, blocks, [], 0)
  {
    hide Counts, Info;
  }

  lemma CountsAt(c: Committee, votes: Votes, gcRound: Round, blocks: set<Block>, r: BlockRef, a: Authority)
    requires CountsAll(c, votes, gcRound, blocks, [], a) && r.round > gcRound
    ensures forall t: nat :: t in Info(votes, r).rejects <==> Rejecters(blocks, r, t) != {}
    ensures forall t: nat :: t in Info(votes, r).rejects ==>
              Info(votes, r).rejects[t].stake == c.StakeOf(Rejecters(blocks, r, t))
  {
    assert forall t: nat :: RejectersWith(blocks, [], a, r, t) == Rejecters(blocks, r, t);
    hide Rejecters, RejectersWith;
  }

  lemma ReceiptKeepsCounts(c: Committee, votes: Votes, votes': Votes, gcRound: Round, blocks: set<Block>, b: Block)
    requires CountsAll(c, votes, gcRound, blocks, [], 0)
    requires votes' == votes[b.Ref() := Info(votes, b.Ref()).(received := true)]
    ensures CountsAll(c, votes', gcRound, blocks, b.transactionVotes[..0], b.author)
  {
    assert b.transactionVotes[..0] == [];
    forall r: BlockRef, t: nat
      ensures RejectersWith(blocks, [], 0, r, t) == RejectersWith(blocks, [], b.author, r, t)
    {
    }
    hide RejectersWith, Tally.Valid;
  }

  lemma NextVoteCounts(c: Committee, votes: Votes, votes': Votes, gcRound: Round, blocks: set<Block>, b: Block, i: nat)
    requires c.IsMember(b.author) && i < |b.transactionVotes|
    requires CountsAll(c, votes, gcRound, blocks, b.transactionVotes[..i], b.author)
    requires var v := b.transactionVotes[i];
             votes' == if v.blockRef.round <= gcRound then votes
                       else votes[v.blockRef :=
                         Info(votes, v.blockRef).(rejects :=
                           AddRejects(c, Info(votes, v.blockRef).rejects, v.rejects, b.author))]
    ensures CountsAll(c, votes', gcRound, blocks, b.transactionVotes[..i + 1], b.author)
  {
    hide Counts, AddRejects;
    var v := b.transactionVotes[i];
    forall r: BlockRef | r.round > gcRound
      ensures Counts(c, Info(votes', r).rejects, blocks, b.transactionVotes[..i + 1], b.author, r)
    {
      if r == v.blockRef {
        AddRejectsCounts(c, Info(votes, r).rejects, blocks, b.transactionVotes, i, b.author);
      } else {
        OthersStillCount(c, Info(votes, r).rejects, blocks, b.transactionVotes, i, b.author, r);
      }
    }
  }

  lemma AllVotesCount(c: Committee, votes: Votes, gcRound: Round, blocks: set<Block>, b: Block)
    requires CountsAll(c, votes, gcRound, blocks, b.transactionVotes, b.author)
    ensures CountsAll(c, votes, gcRound, blocks + {b}, [], 0)
  {
    forall r: BlockRef | r.round > gcRound
      ensures Counts(c, Info(votes, r).rejects, blocks + {b}, [], 0, r)
    {
      forall t: nat
        ensures RejectersWith(blocks + {b}, [], 0, r, t) == RejectersWith(blocks, b.transactionVotes, b.author, r, t)
      {
        RejectersWithBlock(blocks, b, r, t);
      }
      assert Counts(c, Info(votes, r).rejects, blocks, b.transactionVotes, b.author, r);
      hide RejectersWith, Tally.Valid;
    }
  }
}
