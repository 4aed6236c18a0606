/** The committee of an epoch: authorities are indices, each with a stake, and a
    quorum is a set of authorities whose stake reaches the quorum threshold. */
module Committees {
  import opened Division

  type Authority = nat

  datatype Committee = Committee(stakes: seq<nat>, quorumThreshold: nat) {

    function Size(): nat {
      |stakes|
    }

    predicate IsMember(a: Authority) {
      a < |stakes|
    }

    function Stake(a: Authority): nat
      requires IsMember(a)
    {
      stakes[a]
    }

    ghost function TotalStake(): nat {
      StakeOf(AllMembers())
    }

    ghost function AllMembers(): set<Authority> {
      set a: Authority | 0 <= a < |stakes| && IsMember(a)
    }

    /** Stake held by the members of `s`, each counted once. */
    ghost function StakeOf(s: set<Authority>): nat {
      SumUpto(stakes, s, |stakes|)
    }

    ghost predicate IsQuorum(s: set<Authority>) {
      StakeOf(s) >= quorumThreshold
    }

    /** The fault assumption: two quorums overlap in more than the Byzantine stake. */
    ghost predicate ToleratesFaults(byzantine: set<Authority>) {
      2 * quorumThreshold > TotalStake() + StakeOf(byzantine)
    }
  }

  ghost function SumUpto(stakes: seq<nat>, s: set<Authority>, n: nat): nat
    requires n <= |stakes|
  {
    if n == 0 then 0
    else SumUpto(stakes, s, n - 1) + (if n - 1 in s then stakes[n - 1] else 0)
  }

  /** The classic committee: tolerate f faults when the total stake is 3f+1. */
  ghost function ClassicCommittee(stakes: seq<nat>): Committee
    requires Committee(stakes, 0).TotalStake() > 0
  {
    var total := Committee(stakes, 0).TotalStake();
    Committee(stakes, total - FaultTolerance(total))
  }

  function FaultTolerance(totalStake: nat): nat
    requires totalStake > 0
  {
    (totalStake - 1) / 3
  }

  lemma ClassicCommitteeToleratesFaults(stakes: seq<nat>, byzantine: set<Authority>)
    requires Committee(stakes, 0).TotalStake() > 0
    requires Committee(stakes, 0).StakeOf(byzantine) <= FaultTolerance(Committee(stakes, 0).TotalStake())
    ensures ClassicCommittee(stakes).ToleratesFaults(byzantine)
    ensures 0 < ClassicCommittee(stakes).quorumThreshold <= ClassicCommittee(stakes).TotalStake()
  {
    var c := ClassicCommittee(stakes);
    assert c.AllMembers() == Committee(stakes, 0).AllMembers();
  }

  /** Fault budgets scaled from nominal values to the actual total stake. */
  function Scaled(nominal: nat, totalStake: nat, base: nat): nat
    requires totalStake > 0 && base > 0
  {
    nominal * (totalStake - 1) / base
  }

  /** The hybrid committee: malicious and crash faults have separate budgets. */
  ghost function HybridCommittee(stakes: seq<nat>, malicious: nat, crash: nat): Committee
    requires Committee(stakes, 0).TotalStake() > 0
  {
    var total, base := Committee(stakes, 0).TotalStake(), 5 * malicious + 3 * crash;
    if base == 0 then Committee(stakes, total)
    else
      BudgetsFit(malicious, crash, total);
      Committee(stakes, total - Scaled(malicious, total, base) - Scaled(crash, total, base))
  }

  lemma BudgetsFit(malicious: nat, crash: nat, total: nat)
    requires total > 0 && 5 * malicious + 3 * crash > 0
    ensures var base := 5 * malicious + 3 * crash;
            5 * Scaled(malicious, total, base) + 3 * Scaled(crash, total, base) + 1 <= total
  {
    var base := 5 * malicious + 3 * crash;
    var f, c := Scaled(malicious, total, base), Scaled(crash, total, base);
    QuotientTimes(malicious * (total - 1), base);
    QuotientTimes(crash * (total - 1), base);
    assert (5 * f + 3 * c) * base <= (total - 1) * base by {
      assert 5 * (malicious * (total - 1)) + 3 * (crash * (total - 1)) == (total - 1) * base;
    }
    if 5 * f + 3 * c > total - 1 {
      MultiplesAreApart(base, total - 1, 5 * f + 3 * c);
    }
  }

  lemma QuotientTimes(n: nat, d: nat)
    requires d > 0
    ensures n / d * d <= n
  {
    assert n == n / d * d + n % d;
  }

  /** Quorums of the hybrid committee overlap in more than the malicious budget, and the two assertions
      on its thresholds hold for all budgets. */
  lemma HybridCommitteeToleratesFaults(stakes: seq<nat>, malicious: nat, crash: nat, byzantine: set<Authority>)
    requires Committee(stakes, 0).TotalStake() > 0
    requires var total, base := Committee(stakes, 0).TotalStake(), 5 * malicious + 3 * crash;
             Committee(stakes, 0).StakeOf(byzantine) <= if base == 0 then 0 else Scaled(malicious, total, base)
    ensures HybridCommittee(stakes, malicious, crash).ToleratesFaults(byzantine)
    ensures var total, base := Committee(stakes, 0).TotalStake(), 5 * malicious + 3 * crash;
            var f := if base == 0 then 0 else Scaled(malicious, total, base);
            var certification := 2 * f + (if base == 0 then 0 else Scaled(crash, total, base)) + 1;
            var quorum := HybridCommittee(stakes, malicious, crash).quorumThreshold;
            certification + quorum >= total + f + 1 && 2 * quorum >= total + f + certification
  {
    var c := HybridCommittee(stakes, malicious, crash);
    assert c.AllMembers() == Committee(stakes, 0).AllMembers();
    if 5 * malicious + 3 * crash > 0 {
      BudgetsFit(malicious, crash, Committee(stakes, 0).TotalStake());
    }
  }

  lemma {:induction false} SumUptoUnion(stakes: seq<nat>, a: set<Authority>, b: set<Authority>, n: nat)
    requires n <= |stakes|
    ensures SumUpto(stakes, a, n) + SumUpto(stakes, b, n)
         == SumUpto(stakes, a + b, n) + SumUpto(stakes, a * b, n)
  {
    if n == 0 {
    } else {
      SumUptoUnion(stakes, a, b, n - 1);
    }
  }

  lemma {:induction false} SumUptoMonotone(stakes: seq<nat>, a: set<Authority>, b: set<Authority>, n: nat)
    requires n <= |stakes|
    requires forall x :: x in a && x < n ==> x in b
    ensures SumUpto(stakes, a, n) <= SumUpto(stakes, b, n)
  {
    if n == 0 {
    } else {
      SumUptoMonotone(stakes, a, b, n - 1);
    }
  }

  lemma {:induction false} SumUptoInsert(stakes: seq<nat>, s: set<Authority>, x: Authority, n: nat)
    requires n <= |stakes|
    requires x !in s
    ensures SumUpto(stakes, s + {x}, n) == SumUpto(stakes, s, n) + (if x < n then stakes[x] else 0)
  {
    if n == 0 {
    } else {
      SumUptoInsert(stakes, s, x, n - 1);
    }
  }

  lemma StakeMonotone(c: Committee, a: set<Authority>, b: set<Authority>)
    requires a <= b
    ensures c.StakeOf(a) <= c.StakeOf(b)
  {
    SumUptoMonotone(c.stakes, a, b, |c.stakes|);
  }

  lemma StakeAtMostTotal(c: Committee, a: set<Authority>)
    ensures c.StakeOf(a) <= c.TotalStake()
  {
    SumUptoMonotone(c.stakes, a, c.AllMembers(), |c.stakes|);
  }

  lemma StakeInsert(c: Committee, s: set<Authority>, x: Authority)
    requires c.IsMember(x)
    ensures c.StakeOf(s + {x}) == c.StakeOf(s) + (if x in s then 0 else c.Stake(x))
  {
    if x in s {
      assert s + {x} == s;
    } else {
      SumUptoInsert(c.stakes, s, x, |c.stakes|);
    }
  }

  lemma {:induction false} SumUptoEmpty(stakes: seq<nat>, n: nat)
    requires n <= |stakes|
    ensures SumUpto(stakes, {}, n) == 0
  {
    if n == 0 {
    } else {
      SumUptoEmpty(stakes, n - 1);
    }
  }

  lemma StakeEmpty(c: Committee)
    ensures c.StakeOf({}) == 0
  {
    SumUptoEmpty(c.stakes, |c.stakes|);
  }

  lemma StakeUnion(c: Committee, a: set<Authority>, b: set<Authority>)
    ensures c.StakeOf(a) + c.StakeOf(b) == c.StakeOf(a + b) + c.StakeOf(a * b)
  {
    SumUptoUnion(c.stakes, a, b, |c.stakes|);
  }

  /** Two quorums share an authority that is not Byzantine. */
  lemma QuorumsShareHonest(c: Committee, byzantine: set<Authority>, a: set<Authority>, b: set<Authority>)
    returns (h: Authority)
    requires c.ToleratesFaults(byzantine)
    requires c.IsQuorum(a) && c.IsQuorum(b)
    ensures h in a && h in b && h !in byzantine && c.IsMember(h)
  {
    StakeUnion(c, a, b);
    StakeAtMostTotal(c, a + b);
    assert c.StakeOf(a * b) > c.StakeOf(byzantine);
    if forall x :: x in a * b && x < |c.stakes| ==> x in byzantine {
      SumUptoMonotone(c.stakes, a * b, byzantine, |c.stakes|);
      assert false;
    }
    h :| h in a * b && h < |c.stakes| && h !in byzantine;
  }

  /** A quorum has an honest member. */
  lemma QuorumHasMember(c: Committee, byzantine: set<Authority>, a: set<Authority>)
    returns (h: Authority)
    requires c.ToleratesFaults(byzantine)
    requires c.IsQuorum(a)
    ensures h in a && h !in byzantine && c.IsMember(h)
  {
    h := QuorumsShareHonest(c, byzantine, a, a);
  }

  // ----- stake of lists of authorities

  predicate AreMembers(c: Committee, list: seq<Authority>) {
    forall a :: a in list ==> c.IsMember(a)
  }

  predicate AreDistinct(list: seq<Authority>) {
    forall i, j :: 0 <= i < j < |list| ==> list[i] != list[j]
  }

  function StakeSum(c: Committee, list: seq<Authority>): nat
    requires AreMembers(c, list)
  {
    if list == [] then 0 else c.Stake(list[0]) + StakeSum(c, list[1..])
  }

  ghost function AuthoritySet(list: seq<Authority>): set<Authority> {
    set a | a in list
  }

  /** Every authority once, in some order. */
  ghost predicate IsEveryone(c: Committee, list: seq<Authority>) {
    AreDistinct(list) && forall a :: a in list <==> c.IsMember(a)
  }

  lemma {:induction false} StakeSumOfDistinct(c: Committee, list: seq<Authority>)
    requires AreMembers(c, list) && AreDistinct(list)
    ensures StakeSum(c, list) == c.StakeOf(AuthoritySet(list))
  {
    if list == [] {
      StakeEmpty(c);
      assert AuthoritySet(list) == {};
    } else {
      StakeSumOfDistinct(c, list[1..]);
      assert AuthoritySet(list) == AuthoritySet(list[1..]) + {list[0]};
      StakeInsert(c, AuthoritySet(list[1..]), list[0]);
      assert list[0] !in list[1..];
    }
  }

  lemma {:induction false} StakeSumSplit(c: Committee, list: seq<Authority>, n: nat)
    requires AreMembers(c, list) && n <= |list|
    ensures StakeSum(c, list) == StakeSum(c, list[..n]) + StakeSum(c, list[n..])
  {
    if n == 0 {
      assert list[..0] == [] && list[0..] == list;
    } else {
      StakeSumSplit(c, list[1..], n - 1);
      assert list[..n][1..] == list[1..][..n - 1];
      assert list[1..][n - 1..] == list[n..];
    }
  }

  lemma StakeSumNext(c: Committee, list: seq<Authority>, i: nat)
    requires AreMembers(c, list) && i < |list|
    ensures StakeSum(c, list[..i + 1]) == StakeSum(c, list[..i]) + c.Stake(list[i])
  {
    StakeSumSplit(c, list[..i + 1], i);
    assert list[..i + 1][..i] == list[..i] && list[..i + 1][i..] == [list[i]];
    assert [list[i]][1..] == [];
  }

  lemma {:induction false} StakeSumOfEveryone(c: Committee, list: seq<Authority>)
    requires IsEveryone(c, list)
    ensures StakeSum(c, list) == c.TotalStake()
  {
    StakeSumOfDistinct(c, list);
    assert AuthoritySet(list) == c.AllMembers();
  }

  /** The total stake, added up in order. */
  function SumOfStakes(stakes: seq<nat>): nat {
    if stakes == [] then 0 else SumOfStakes(stakes[..|stakes| - 1]) + stakes[|stakes| - 1]
  }

  lemma {:induction false} SumOfStakesIsTotal(c: Committee, n: nat)
    requires n <= |c.stakes|
    ensures SumOfStakes(c.stakes[..n]) == SumUpto(c.stakes, c.AllMembers(), n)
  {
    if n == 0 {
    } else {
      SumOfStakesIsTotal(c, n - 1);
      assert c.stakes[..n][..n - 1] == c.stakes[..n - 1];
      assert c.IsMember(n - 1);
    }
  }

  lemma TotalStakeIsSum(c: Committee)
    ensures SumOfStakes(c.stakes) == c.TotalStake()
  {
    SumOfStakesIsTotal(c, |c.stakes|);
    assert c.stakes[..|c.stakes|] == c.stakes;
  }
}
