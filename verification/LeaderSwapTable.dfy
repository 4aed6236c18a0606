/** Replacing the authorities with the worst scores by those with the best ones as leaders. */
module LeaderSwapTables {
  import opened Committees
  import opened Blocks
  import opened Ranking

  /** Largest share of stake, in percent, that may be swapped. */
  const MAX_SWAP_STAKE_THRESHOLD: nat := 33

  datatype LeaderSwapTable = LeaderSwapTable(goodNodes: seq<Authority>, badNodes: seq<Authority>)

  function Cutoff(c: Committee, threshold: nat): nat {
    threshold * SumOfStakes(c.stakes) / 100
  }

  function Reversed(list: seq<Authority>): (r: seq<Authority>)
    ensures |r| == |list| && forall i :: 0 <= i < |r| ==> r[i] == list[|list| - 1 - i]
  {
    if list == [] then [] else Reversed(list[1..]) + [list[0]]
  }

  /** The longest run of authorities from the front whose stake is within the cutoff. */
  ghost predicate AreFirstNodes(c: Committee, list: seq<Authority>, cutoff: nat, first: seq<Authority>)
    requires AreMembers(c, list)
  {
    && first <= list
    && StakeSum(c, first) <= cutoff
    && (|first| < |list| ==> StakeSum(c, list[..|first| + 1]) > cutoff)
  }

  method RetrieveFirstNodes(c: Committee, list: seq<Authority>, threshold: nat) returns (first: seq<Authority>)
    requires AreMembers(c, list)
    ensures AreFirstNodes(c, list, Cutoff(c, threshold), first)
  {
    first := [];
    var stake := 0;
    for i := 0 to |list|
      invariant first == list[..i] && stake == StakeSum(c, first) <= Cutoff(c, threshold)
    {
      StakeSumNext(c, list, i);
      stake := stake + c.Stake(list[i]);
      if stake > Cutoff(c, threshold) {
        break;
      }
      first := first + [list[i]];
      assert first == list[..i + 1];
    }
  }

  /** What a table is, given the ranking of the authorities by score. */
  ghost predicate IsTable(c: Committee, threshold: nat, ranked: seq<Authority>, table: LeaderSwapTable) {
    && IsEveryone(c, ranked) && AreMembers(c, ranked) && AreMembers(c, Reversed(ranked))
    && AreFirstNodes(c, ranked, Cutoff(c, threshold), table.goodNodes)
    && AreFirstNodes(c, Reversed(ranked), Cutoff(c, threshold), table.badNodes)
  }

  method NewTable(c: Committee, threshold: nat, scores: seq<nat>, shuffled: seq<Authority>)
    returns (table: LeaderSwapTable)
    requires threshold <= MAX_SWAP_STAKE_THRESHOLD
    requires scores != [] ==> |scores| == c.Size() && IsEveryone(c, shuffled)
    ensures scores == [] ==> table == LeaderSwapTable([], [])
    ensures scores != [] ==> AreScored(scores, shuffled) && IsTable(c, threshold, Ranked(scores, shuffled), table)
  {
    if scores == [] {
      return LeaderSwapTable([], []);
    }
    RankedIsEveryone(c, scores, shuffled);
    var ranked := Ranked(scores, shuffled);
    hide Ranked;
    ReversedAreMembers(c, ranked);
    var good := RetrieveFirstNodes(c, ranked, threshold);
    var bad := RetrieveFirstNodes(c, Reversed(ranked), threshold);
    table := LeaderSwapTable(good, bad);
  }

  lemma ReversedAreMembers(c: Committee, ranked: seq<Authority>)
    requires AreMembers(c, ranked)
    ensures AreMembers(c, Reversed(ranked))
  {
    var r := Reversed(ranked);
    forall a | a in r
      ensures c.IsMember(a)
    {
      var i :| 0 <= i < |r| && r[i] == a;
      assert ranked[|ranked| - 1 - i] in ranked;
    }
  }

  // ----- good and bad nodes

  /** Up to a third of the stake on each side, no authority is both good and bad. */
  lemma GoodAndBadAreDisjoint(c: Committee, threshold: nat, ranked: seq<Authority>, table: LeaderSwapTable)
    requires threshold <= MAX_SWAP_STAKE_THRESHOLD && c.TotalStake() > 0 && IsTable(c, threshold, ranked, table)
    ensures |table.goodNodes| + |table.badNodes| <= |ranked|
    ensures forall a :: a in table.goodNodes ==> a !in table.badNodes
  {
    var n, g, b := |ranked|, |table.goodNodes|, |table.badNodes|;
    BadAreLast(c, threshold, ranked, table);
    if g + b > n {
      TooManyNodes(c, threshold, ranked, table);
    }
    forall i, j | 0 <= i < g && 0 <= j < b
      ensures table.goodNodes[i] != table.badNodes[j]
    {
      assert table.goodNodes[i] == ranked[i] && table.badNodes[j] == ranked[n - 1 - j];
    }
  }

  /** The bad nodes are the last ones of the ranking. */
  lemma BadAreLast(c: Committee, threshold: nat, ranked: seq<Authority>, table: LeaderSwapTable)
    requires IsTable(c, threshold, ranked, table)
    ensures |table.badNodes| <= |ranked|
    ensures StakeSum(c, ranked[|ranked| - |table.badNodes|..]) <= Cutoff(c, threshold)
  {
    var b := |table.badNodes|;
    var last := ranked[|ranked| - b..];
    assert table.badNodes == Reversed(last);
    StakeSumReversed(c, last);
  }

  lemma {:induction false} StakeSumReversed(c: Committee, list: seq<Authority>)
    requires AreMembers(c, list)
    ensures AreMembers(c, Reversed(list)) && StakeSum(c, Reversed(list)) == StakeSum(c, list)
  {
    ReversedAreMembers(c, list);
    if list == [] {
    } else {
      var rest := Reversed(list[1..]);
      StakeSumReversed(c, list[1..]);
      StakeSumSplit(c, Reversed(list), |rest|);
      assert Reversed(list)[..|rest|] == rest && Reversed(list)[|rest|..] == [list[0]];
      assert [list[0]][1..] == [];
    }
  }

  lemma TooManyNodes(c: Committee, threshold: nat, ranked: seq<Authority>, table: LeaderSwapTable)
    requires threshold <= MAX_SWAP_STAKE_THRESHOLD && c.TotalStake() > 0 && IsTable(c, threshold, ranked, table)
    requires |table.badNodes| <= |ranked| && StakeSum(c, ranked[|ranked| - |table.badNodes|..]) <= Cutoff(c, threshold)
    ensures |table.goodNodes| + |table.badNodes| <= |ranked|
  {
    var n, g, b := |ranked|, |table.goodNodes|, |table.badNodes|;
    if g + b > n {
      StakeSumOfEveryone(c, ranked);
      TotalStakeIsSum(c);
      StakeSumSplit(c, ranked, n - b);
      StakeSumSplit(c, table.goodNodes, n - b);
      assert table.goodNodes[..n - b] == ranked[..n - b];
      TwoThirdsAreLess(threshold, c.TotalStake());
    }
  }

  lemma TwoThirdsAreLess(threshold: nat, total: nat)
    requires threshold <= MAX_SWAP_STAKE_THRESHOLD && total > 0
    ensures 2 * (threshold * total / 100) < total
  {
    assert threshold * total <= 33 * total by {
      assert (33 - threshold) * total >= 0;
    }
  }

  /** The first nodes of a list are there exactly when its head fits into the cutoff. */
  lemma FirstNodeExists(c: Committee, list: seq<Authority>, cutoff: nat, first: seq<Authority>)
    requires AreMembers(c, list) && list != [] && AreFirstNodes(c, list, cutoff, first)
    ensures c.IsMember(list[0])
    ensures first != [] <==> c.Stake(list[0]) <= cutoff
  {
    assert list[0] in list;
    assert list[..1] == [list[0]];
    assert list[..1][1..] == [];
    if first != [] {
      StakeSumSplit(c, first, 1);
      assert first[..1] == list[..1];
    }
  }

  /** There is a good node exactly when the best ranked authority fits into the cutoff, and a bad node exactly when the
      worst ranked one does. */
  lemma GoodNodeExists(c: Committee, threshold: nat, ranked: seq<Authority>, table: LeaderSwapTable)
    requires IsTable(c, threshold, ranked, table) && ranked != []
    ensures c.IsMember(ranked[0]) && c.IsMember(ranked[|ranked| - 1])
    ensures table.goodNodes != [] <==> c.Stake(ranked[0]) <= Cutoff(c, threshold)
    ensures table.badNodes != [] <==> c.Stake(ranked[|ranked| - 1]) <= Cutoff(c, threshold)
  {
    FirstNodeExists(c, ranked, Cutoff(c, threshold), table.goodNodes);
    FirstNodeExists(c, Reversed(ranked), Cutoff(c, threshold), table.badNodes);
  }

  // ----- electing

  datatype Swap = Keep | SwapWith(leader: Authority) | NoGoodNode

  /** Which good node replaces a bad leader depends on the round only. */
  type Choice = (Round, nat) -> nat

  function SwapLeader(table: LeaderSwapTable, choice: Choice, leader: Authority, round: Round): Swap
    requires forall r, n :: n > 0 ==> choice(r, n) < n
  {
    if leader !in table.badNodes then Keep
    else if table.goodNodes == [] then NoGoodNode
    else SwapWith(table.goodNodes[choice(round, |table.goodNodes|)])
  }

  function ElectLeader(table: LeaderSwapTable, choice: Choice, leader: Authority, round: Round): Option<Authority>
    requires forall r, n :: n > 0 ==> choice(r, n) < n
  {
    match SwapLeader(table, choice, leader, round)
    case Keep => Some(leader)
    case SwapWith(other) => Some(other)
    case NoGoodNode => None
  }

  /** An election succeeds for every leader exactly when the worst ranked authority exceeds the cutoff or the best
      ranked one does not. */
  lemma ElectionSucceeds(c: Committee, threshold: nat, ranked: seq<Authority>, table: LeaderSwapTable, choice: Choice,
                         round: Round)
    requires IsTable(c, threshold, ranked, table) && ranked != []
    requires forall r, n :: n > 0 ==> choice(r, n) < n
    ensures c.IsMember(ranked[0]) && c.IsMember(ranked[|ranked| - 1])
    ensures (forall leader: Authority :: ElectLeader(table, choice, leader, round).Some?)
       <==> c.Stake(ranked[|ranked| - 1]) > Cutoff(c, threshold) || c.Stake(ranked[0]) <= Cutoff(c, threshold)
  {
    GoodNodeExists(c, threshold, ranked, table);
    if table.badNodes != [] && table.goodNodes == [] {
      assert ElectLeader(table, choice, table.badNodes[0], round).None?;
    }
  }

  /** Nobody with too much stake means that everybody who is elected is not bad. */
  lemma NoElectedLeaderIsBad(c: Committee, threshold: nat, ranked: seq<Authority>, table: LeaderSwapTable,
                             choice: Choice, leader: Authority, round: Round)
    requires threshold <= MAX_SWAP_STAKE_THRESHOLD && c.TotalStake() > 0 && IsTable(c, threshold, ranked, table)
    requires forall r, n :: n > 0 ==> choice(r, n) < n
    requires forall a :: 0 <= a < c.Size() ==> c.stakes[a] <= Cutoff(c, threshold)
    requires c.IsMember(leader)
    ensures ElectLeader(table, choice, leader, round).Some?
    ensures ElectLeader(table, choice, leader, round).value !in table.badNodes
    ensures c.IsMember(ElectLeader(table, choice, leader, round).value)
  {
    GoodAndBadAreDisjoint(c, threshold, ranked, table);
    assert leader in ranked;
    GoodNodeExists(c, threshold, ranked, table);
    forall a | a in table.goodNodes
      ensures a in ranked
    {
    }
  }

  /** With one authority above the cutoff, a bad leader may find nobody to swap with: seven of ten
      parts of the stake are with the best ranked authority, and the three others are bad. */
  lemma SwapCanFindNobody(choice: Choice, round: Round)
    requires forall r, n :: n > 0 ==> choice(r, n) < n
    ensures var c, table := Committee([7, 1, 1, 1], 7), LeaderSwapTable([], [3, 2, 1]);
            && c.TotalStake() > 0 && IsTable(c, MAX_SWAP_STAKE_THRESHOLD, [0, 1, 2, 3], table)
            && ElectLeader(table, choice, 3, round) == None
  {
    var c, ranked := Committee([7, 1, 1, 1], 7), [0, 1, 2, 3];
    assert Reversed(ranked) == [3, 2, 1, 0];
    ExampleStakes(c);
    TotalStakeIsSum(c);
    assert ranked[..1] == [0] && Reversed(ranked)[..4] == [3, 2, 1, 0];
  }

  lemma ExampleStakes(c: Committee)
    requires c.stakes == [7, 1, 1, 1]
    ensures SumOfStakes(c.stakes) == 10 && Cutoff(c, MAX_SWAP_STAKE_THRESHOLD) == 3
    ensures StakeSum(c, [0]) == 7 && StakeSum(c, [3, 2, 1]) == 3 && StakeSum(c, [3, 2, 1, 0]) == 10
  {
    var s := c.stakes;
    assert s[..1][..0] == [] && s[..2][..1] == s[..1] && s[..3][..2] == s[..2];
    assert SumOfStakes(s[..1]) == 7;
    assert SumOfStakes(s[..2]) == 8;
    assert SumOfStakes(s[..3]) == 9;
    var all: seq<Authority> := [3, 2, 1, 0];
    assert all[1..][1..] == all[2..] && all[2..][1..] == all[3..] && all[3..] == [0] && [0][1..] == [];
    assert StakeSum(c, all[3..]) == 7;
    assert StakeSum(c, all[2..]) == 8;
    assert StakeSum(c, all[1..]) == 9;
    var bad: seq<Authority> := [3, 2, 1];
    assert bad[1..][1..] == bad[2..] && bad[2..] == [1] && [1][1..] == [];
    assert StakeSum(c, bad[2..]) == 1;
    assert StakeSum(c, bad[1..]) == 2;
  }
}
