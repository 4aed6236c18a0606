/** The value that a quorum of authorities reaches: sort by value, add up stake until a quorum. */
module QuorumStatistics {
  import opened Committees
  import opened Blocks
  import opened Ranking

  function UpToSize(n: nat): (list: seq<Authority>)
    ensures |list| == n && forall i :: 0 <= i < n ==> list[i] == i
  {
    if n == 0 then [] else UpToSize(n - 1) + [n - 1]
  }

  lemma AllAreEveryone(c: Committee)
    ensures IsEveryone(c, UpToSize(c.Size()))
  {
    var list := UpToSize(c.Size());
    forall a: Authority
      ensures a in list <==> c.IsMember(a)
    {
      assert c.IsMember(a) ==> list[a] == a;
    }
  }

  /** Authorities whose value is at least, or at most, some bound. */
  ghost function AtLeast(values: seq<nat>, bound: nat): set<Authority> {
    set a: Authority | 0 <= a < |values| && values[a] >= bound
  }

  ghost function AtMost(values: seq<nat>, bound: nat): set<Authority> {
    set a: Authority | 0 <= a < |values| && values[a] <= bound
  }

  /** The first position at which the authorities so far hold a quorum. */
  method FindQuorum(c: Committee, list: seq<Authority>) returns (k: nat)
    requires AreMembers(c, list) && c.quorumThreshold > 0
    ensures k <= |list| && StakeSum(c, list[..k]) < c.quorumThreshold
    ensures k < |list| ==> StakeSum(c, list[..k + 1]) >= c.quorumThreshold
  {
    var stake := 0;
    assert list[..0] == [];
    k := 0;
    while k < |list|
      invariant k <= |list| && stake == StakeSum(c, list[..k]) < c.quorumThreshold
    {
      StakeSumNext(c, list, k);
      stake := stake + c.Stake(list[k]);
      if stake >= c.quorumThreshold {
        return;
      }
      k := k + 1;
    }
  }

  lemma PrefixStake(c: Committee, list: seq<Authority>, k: nat)
    requires IsEveryone(c, list) && AreMembers(c, list) && k <= |list|
    ensures StakeSum(c, list[..k]) == c.StakeOf(AuthoritySet(list[..k]))
  {
    StakeSumOfDistinct(c, list[..k]);
  }

  /** From the top: a quorum has reached the result, and no quorum has reached anything higher. */
  method HighestOfQuorum(c: Committee, values: seq<nat>) returns (v: nat)
    requires |values| == c.Size() && c.quorumThreshold > 0
    ensures v > 0 ==> c.IsQuorum(AtLeast(values, v))
    ensures forall w :: w > v ==> !c.IsQuorum(AtLeast(values, w))
  {
    AllAreEveryone(c);
    RankedIsEveryone(c, values, UpToSize(c.Size()));
    var ranked := Ranked(values, UpToSize(c.Size()));
    hide Ranked;
    var k := FindQuorum(c, ranked);
    v := if k < |ranked| then values[ranked[k]] else 0;
    if k < |ranked| {
      PrefixStake(c, ranked, k + 1);
      forall a | a in AuthoritySet(ranked[..k + 1])
        ensures a in AtLeast(values, v)
      {
        var i :| 0 <= i < k + 1 && ranked[..k + 1][i] == a;
      }
      StakeMonotone(c, AuthoritySet(ranked[..k + 1]), AtLeast(values, v));
    }
    forall w | w > v
      ensures !c.IsQuorum(AtLeast(values, w))
    {
      HigherIsEarlier(c, values, ranked, k, w);
    }
  }

  lemma HigherIsEarlier(c: Committee, values: seq<nat>, ranked: seq<Authority>, k: nat, w: nat)
    requires |values| == c.Size() && IsEveryone(c, ranked) && AreMembers(c, ranked) && AreScored(values, ranked)
    requires Descends(values, ranked) && k <= |ranked| && (k < |ranked| ==> values[ranked[k]] < w)
    requires StakeSum(c, ranked[..k]) < c.quorumThreshold
    ensures !c.IsQuorum(AtLeast(values, w))
  {
    forall a | a in AtLeast(values, w)
      ensures a in AuthoritySet(ranked[..k])
    {
      assert c.IsMember(a);
      var i :| 0 <= i < |ranked| && ranked[i] == a;
      assert i < k;
      assert ranked[..k][i] == a;
    }
    PrefixStake(c, ranked, k);
    StakeMonotone(c, AtLeast(values, w), AuthoritySet(ranked[..k]));
  }

  /** From the bottom: a quorum is at or below the result, and no quorum is below anything lower. */
  method LowestOfQuorum(c: Committee, values: seq<nat>) returns (v: nat)
    requires |values| == c.Size() && c.quorumThreshold > 0
    ensures c.TotalStake() >= c.quorumThreshold ==> c.IsQuorum(AtMost(values, v))
    ensures forall w :: 0 <= w < v ==> !c.IsQuorum(AtMost(values, w))
    ensures c.TotalStake() < c.quorumThreshold ==> v == 0
  {
    AllAreEveryone(c);
    RankedIsEveryone(c, values, UpToSize(c.Size()));
    var descending := Ranked(values, UpToSize(c.Size()));
    hide Ranked;
    var ranked := Backwards(c, values, descending);
    StakeSumOfEveryone(c, ranked);
    var k := FindQuorum(c, ranked);
    if k == |ranked| {
      assert ranked[..k] == ranked;
      return 0;
    }
    v := values[ranked[k]];
    PrefixStake(c, ranked, k + 1);
    forall a | a in AuthoritySet(ranked[..k + 1])
      ensures a in AtMost(values, v)
    {
      var i :| 0 <= i < k + 1 && ranked[..k + 1][i] == a;
    }
    StakeMonotone(c, AuthoritySet(ranked[..k + 1]), AtMost(values, v));
    StakeSumSplit(c, ranked, k + 1);
    forall w | 0 <= w < v
      ensures !c.IsQuorum(AtMost(values, w))
    {
      LowerIsEarlier(c, values, ranked, k, w);
    }
  }

  ghost predicate Ascends(values: seq<nat>, ranked: seq<Authority>)
    requires AreScored(values, ranked)
  {
    forall i, j :: 0 <= i < j < |ranked| ==> values[ranked[i]] <= values[ranked[j]]
  }

  method Backwards(c: Committee, values: seq<nat>, list: seq<Authority>) returns (r: seq<Authority>)
    requires IsEveryone(c, list) && AreScored(values, list) && Descends(values, list)
    ensures IsEveryone(c, r) && AreMembers(c, r) && AreScored(values, r) && Ascends(values, r)
  {
    r := seq(|list|, i requires 0 <= i < |list| => list[|list| - 1 - i]);
    forall a: Authority
      ensures a in r <==> a in list
    {
      if a in list {
        var i :| 0 <= i < |list| && list[i] == a;
        assert r[|list| - 1 - i] == a;
      }
    }
  }

  lemma LowerIsEarlier(c: Committee, values: seq<nat>, ranked: seq<Authority>, k: nat, w: nat)
    requires |values| == c.Size() && IsEveryone(c, ranked) && AreMembers(c, ranked) && AreScored(values, ranked)
    requires Ascends(values, ranked) && k < |ranked| && values[ranked[k]] > w
    requires StakeSum(c, ranked[..k]) < c.quorumThreshold
    ensures !c.IsQuorum(AtMost(values, w))
  {
    forall a | a in AtMost(values, w)
      ensures a in AuthoritySet(ranked[..k])
    {
      assert c.IsMember(a);
      var i :| 0 <= i < |ranked| && ranked[i] == a;
      assert i < k;
      assert ranked[..k][i] == a;
    }
    PrefixStake(c, ranked, k);
    StakeMonotone(c, AtMost(values, w), AuthoritySet(ranked[..k]));
  }

  // ----- commit votes

  /** The highest commit each authority has voted for. */
  class CommitVoteMonitor {
    const committee: Committee
    var highestVoted: seq<nat>

    // The blocks observed.
    ghost var observed: set<Block>

    ghost predicate Valid()
      reads this
    {
      && committee.quorumThreshold > 0 && |highestVoted| == committee.Size()
      && forall a :: 0 <= a < |highestVoted| ==> IsHighestVote(observed, a, highestVoted[a])
    }

    constructor (committee: Committee)
      requires committee.quorumThreshold > 0
      ensures Valid() && this.committee == committee && observed == {}
    {
      this.committee := committee;
      highestVoted, observed := seq(committee.Size(), _ => 0), {};
    }

    method ObserveBlock(b: Block)
      requires Valid() && committee.IsMember(b.author)
      modifies this
      ensures Valid() && observed == old(observed) + {b}
    {
      ghost var before := highestVoted[b.author];
      for i := 0 to |b.commitVotes|
        invariant |highestVoted| == |old(highestVoted)| && observed == old(observed)
        invariant forall a :: 0 <= a < |highestVoted| && a != b.author ==> highestVoted[a] == old(highestVoted)[a]
        invariant highestVoted[b.author] >= before
        invariant forall k :: 0 <= k < i ==> b.commitVotes[k].index <= highestVoted[b.author]
        invariant || highestVoted[b.author] == before
                  || exists k :: 0 <= k < i && b.commitVotes[k].index == highestVoted[b.author]
      {
        if b.commitVotes[i].index > highestVoted[b.author] {
          highestVoted := highestVoted[b.author := b.commitVotes[i].index];
        }
      }
      HighestVoteGrows(observed, b, before, highestVoted[b.author]);
      observed := observed + {b};
      forall a | 0 <= a < |highestVoted| && a != b.author
        ensures IsHighestVote(observed, a, highestVoted[a])
      {
        OthersVoteNothing(old(observed), b, a, highestVoted[a]);
      }
    }

    /** The largest index that a quorum has voted for, counting a vote for a commit as a vote for all
        commits before it. */
    method QuorumCommitIndex() returns (index: nat)
      requires Valid()
      ensures index > 0 ==> committee.IsQuorum(VotedFrom(committee, observed, index))
      ensures forall w :: w > index ==> !committee.IsQuorum(VotedFrom(committee, observed, w))
    {
      index := HighestOfQuorum(committee, highestVoted);
      forall w: nat | w > 0
        ensures VotedFrom(committee, observed, w) == AtLeast(highestVoted, w)
      {
        VotedFromIsAtLeast(committee, observed, highestVoted, w);
      }
    }
  }

  ghost predicate HasVoted(observed: set<Block>, a: Authority, index: nat) {
    exists b, v :: b in observed && b.author == a && v in b.commitVotes && v.index == index
  }

  ghost predicate IsHighestVote(observed: set<Block>, a: Authority, index: nat) {
    && (index == 0 || HasVoted(observed, a, index))
    && forall i: nat :: HasVoted(observed, a, i) ==> i <= index
  }

  /** Authorities that have voted for the commit or a later one. */
  ghost function VotedFrom(c: Committee, observed: set<Block>, index: nat): set<Authority> {
    set a: Authority | 0 <= a < c.Size() && HasVotedFrom(observed, a, index)
  }

  ghost predicate HasVotedFrom(observed: set<Block>, a: Authority, index: nat) {
    exists i :: i >= index && HasVoted(observed, a, i)
  }

  lemma VotedFromIsAtLeast(c: Committee, observed: set<Block>, highest: seq<nat>, w: nat)
    requires |highest| == c.Size() && w > 0
    requires forall a :: 0 <= a < |highest| ==> IsHighestVote(observed, a, highest[a])
    ensures VotedFrom(c, observed, w) == AtLeast(highest, w)
  {
    hide HasVoted;
    forall a: Authority | 0 <= a < c.Size()
      ensures HasVotedFrom(observed, a, w) <==> highest[a] >= w
    {
      assert IsHighestVote(observed, a, highest[a]);
    }
  }

  lemma HighestVoteGrows(observed: set<Block>, b: Block, before: nat, after: nat)
    requires IsHighestVote(observed, b.author, before) && after >= before
    requires forall k :: 0 <= k < |b.commitVotes| ==> b.commitVotes[k].index <= after
    requires after == before || exists k :: 0 <= k < |b.commitVotes| && b.commitVotes[k].index == after
    ensures IsHighestVote(observed + {b}, b.author, after)
  {
    if after != before {
      var k :| 0 <= k < |b.commitVotes| && b.commitVotes[k].index == after;
      assert b.commitVotes[k] in b.commitVotes && b in observed + {b};
    } else if after != 0 {
      var x, v :| x in observed && x.author == b.author && v in x.commitVotes && v.index == after;
      assert x in observed + {b};
    }
    forall i: nat | HasVoted(observed + {b}, b.author, i)
      ensures i <= after
    {
      var x, v :| x in observed + {b} && x.author == b.author && v in x.commitVotes && v.index == i;
      if x in observed {
        assert HasVoted(observed, b.author, i);
      }
    }
  }

  lemma OthersVoteNothing(observed: set<Block>, b: Block, a: Authority, index: nat)
    requires a != b.author && IsHighestVote(observed, a, index)
    ensures IsHighestVote(observed + {b}, a, index)
  {
    if index != 0 {
      var x, v :| x in observed && x.author == a && v in x.commitVotes && v.index == index;
      assert x in observed + {b};
    }
    forall i: nat | HasVoted(observed + {b}, a, i)
      ensures i <= index
    {
      var x, v :| x in observed + {b} && x.author == a && v in x.commitVotes && v.index == i;
      assert HasVoted(observed, a, i);
    }
  }
}
