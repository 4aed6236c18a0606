/** A committee of four authorities with equal stake, of which three are a quorum. */
module FourAuthorities {
  import opened Committees

  const Four := Committee([1, 1, 1, 1], 3)

  lemma QuorumIsThree(s: set<Authority>)
    ensures var low := (if 0 in s then 1 else 0) + (if 1 in s then 1 else 0);
            var high := (if 2 in s then 1 else 0) + (if 3 in s then 1 else 0);
            Four.IsQuorum(s) <==> low + high >= 3
  {
    var stakes := [1, 1, 1, 1];
    assert SumUpto(stakes, s, 1) == SumUpto(stakes, s, 0) + if 0 in s then 1 else 0;
    assert SumUpto(stakes, s, 2) == SumUpto(stakes, s, 1) + if 1 in s then 1 else 0;
    assert SumUpto(stakes, s, 3) == SumUpto(stakes, s, 2) + if 2 in s then 1 else 0;
    assert SumUpto(stakes, s, 4) == SumUpto(stakes, s, 3) + if 3 in s then 1 else 0;
  }

  lemma FaultsAreTolerated()
    ensures Four.ToleratesFaults({})
  {
    var stakes, s := [1, 1, 1, 1], Four.AllMembers();
    assert Four.IsMember(0) && Four.IsMember(1) && Four.IsMember(2) && Four.IsMember(3);
    assert SumUpto(stakes, s, 1) == SumUpto(stakes, s, 0) + 1;
    assert SumUpto(stakes, s, 2) == SumUpto(stakes, s, 1) + 1;
    assert SumUpto(stakes, s, 3) == SumUpto(stakes, s, 2) + 1;
    assert SumUpto(stakes, s, 4) == SumUpto(stakes, s, 3) + 1;
    StakeEmpty(Four);
  }
}
