/** Accumulates the stake of distinct voters. */
module StakeAggregators {
  import opened Committees

  class StakeAggregator {
    const committee: Committee
    var votes: set<Authority>
    var stake: nat

    ghost predicate Valid()
      reads this
    {
      stake == committee.StakeOf(votes)
    }

    constructor (committee: Committee)
      ensures Valid() && this.committee == committee && votes == {}
    {
      this.committee := committee;
      votes, stake := {}, 0;
      new;
      StakeEmpty(committee);
    }

    /** Adds a vote, counted once per authority; true when the votes reach a quorum. */
    method Add(vote: Authority) returns (reached: bool)
      requires Valid() && committee.IsMember(vote)
      modifies this
      ensures Valid() && votes == old(votes) + {vote}
      ensures reached <==> committee.IsQuorum(votes)
    {
      StakeInsert(committee, votes, vote);
      if vote !in votes {
        votes := votes + {vote};
        stake := stake + committee.Stake(vote);
      }
      assert votes == old(votes) + {vote};
      reached := stake >= committee.quorumThreshold;
    }

    method ReachedThreshold() returns (reached: bool)
      requires Valid()
      ensures reached <==> committee.IsQuorum(votes)
    {
      reached := stake >= committee.quorumThreshold;
    }
  }
}
