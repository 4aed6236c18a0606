/** Which authorities are left out as ancestors of new blocks: those that propagate badly, up to a
    limit of stake, each decision locked for a while. */
module Ancestors {
  import opened Committees
  import opened Blocks
  import opened QuorumStatistics

  const STATE_LOCK_CLOCK_ROUNDS: nat := 450
  const SCORE_EXCLUSION_THRESHOLD_PERCENTAGE: nat := 20

  datatype AncestorState = Include | Exclude(score: nat)

  datatype AncestorInfo = AncestorInfo(state: AncestorState, lockUntilRound: Round) {
    predicate IsLocked(clock: Round) {
      lockUntilRound >= clock
    }
  }

  type Infos = seq<AncestorInfo>

  ghost function Excluded(infos: Infos): set<Authority> {
    set a: Authority | 0 <= a < |infos| && infos[a].state.Exclude?
  }

  /** The lowest and highest round of an authority's blocks that a quorum has accepted. */
  type QuorumRound = (Round, Round)

  /** What an update goes by. */
  datatype Signals = Signals(scores: seq<nat>, highRounds: seq<Round>, networkRound: Round, clock: Round) {

    function LowScore(): nat {
      Highest(scores) * SCORE_EXCLUSION_THRESHOLD_PERCENTAGE / 100
    }

    predicate MayInclude(infos: Infos, a: Authority)
      requires a < |infos| && a < |scores| <= |highRounds|
    {
      && !infos[a].IsLocked(clock) && infos[a].state.Exclude?
      && (scores[a] > LowScore() || highRounds[a] >= networkRound)
    }

    predicate MayExclude(infos: Infos, a: Authority)
      requires a < |infos| && a < |scores|
    {
      !infos[a].IsLocked(clock) && infos[a].state.Include? && scores[a] <= LowScore()
    }
  }

  function Highest(scores: seq<nat>): (h: nat)
    ensures forall i :: 0 <= i < |scores| ==> scores[i] <= h
    ensures scores != [] ==> h in scores
  {
    if scores == [] then 0
    else
      var rest := Highest(scores[..|scores| - 1]);
      var last := scores[|scores| - 1];
      if last >= rest then last else rest
  }

  // ----- what an update may do to each authority

  ghost predicate IsUpdated(c: Committee, s: Signals, infos: Infos, infos': Infos, threshold: nat)
    requires |infos| == |infos'| == c.Size() && |s.scores| <= |infos| && |s.scores| <= |s.highRounds|
  {
    forall a :: 0 <= a < |infos| ==> IsUpdatedAt(c, s, infos, infos', threshold, a)
  }

  /** Excluded authorities that come before another one: those excluded already, and those with a score
      that is not better. */
  ghost function Ahead(s: Signals, candidates: set<Authority>, infos': Infos, a: Authority): set<Authority>
    requires a < |s.scores| && forall x :: x in candidates ==> x < |s.scores|
  {
    set x | x in Excluded(infos') && (x !in candidates || s.scores[x] <= s.scores[a])
  }

  ghost function Candidates(s: Signals, infos: Infos): set<Authority>
    requires |s.scores| <= |infos|
  {
    set a: Authority | 0 <= a < |s.scores| && s.MayExclude(infos, a)
  }

  /** Locked authorities stay as they are. Others are included when they may be, and excluded when they
      may be and the limit allows it after those with no better score. A change locks. */
  ghost predicate IsUpdatedAt(c: Committee, s: Signals, infos: Infos, infos': Infos, threshold: nat, a: Authority)
    requires a < |infos| == |infos'| == c.Size() && |s.scores| <= |infos| && |s.scores| <= |s.highRounds|
  {
    if a < |s.scores| && s.MayInclude(infos, a) then
      infos'[a] == AncestorInfo(Include, s.clock + STATE_LOCK_CLOCK_ROUNDS)
    else if a < |s.scores| && s.MayExclude(infos, a) then
      || infos'[a] == AncestorInfo(Exclude(s.scores[a]), s.clock + STATE_LOCK_CLOCK_ROUNDS)
      || (infos'[a] == infos[a] && c.StakeOf(Ahead(s, Candidates(s, infos), infos', a)) + c.Stake(a) > threshold)
    else
      infos'[a] == infos[a]
  }

  lemma LockedIsUnchanged(c: Committee, s: Signals, infos: Infos, infos': Infos, threshold: nat, a: Authority)
    requires |infos| == |infos'| == c.Size() && |s.scores| <= |infos| && |s.scores| <= |s.highRounds| && a < |infos|
    requires IsUpdated(c, s, infos, infos', threshold) && infos[a].IsLocked(s.clock)
    ensures infos'[a] == infos[a]
  {
    assert IsUpdatedAt(c, s, infos, infos', threshold, a);
  }

  lemma ExcludeAdds(c: Committee, infos: Infos, a: Authority, info: AncestorInfo)
    requires |infos| == c.Size() && a < |infos| && infos[a].state.Include? && info.state.Exclude?
    ensures c.StakeOf(Excluded(infos[a := info])) == c.StakeOf(Excluded(infos)) + c.Stake(a)
  {
    assert Excluded(infos[a := info]) == Excluded(infos) + {a};
    StakeInsert(c, Excluded(infos), a);
  }

  lemma IncludeRemoves(c: Committee, infos: Infos, a: Authority, info: AncestorInfo)
    requires |infos| == c.Size() && a < |infos| && infos[a].state.Exclude? && info.state.Include?
    ensures c.StakeOf(Excluded(infos)) == c.StakeOf(Excluded(infos[a := info])) + c.Stake(a)
  {
    assert Excluded(infos) == Excluded(infos[a := info]) + {a};
    StakeInsert(c, Excluded(infos[a := info]), a);
  }

  class AncestorStateManager {
    const committee: Committee
    const excludedStakeThreshold: nat

    var infos: Infos
    var totalExcludedStake: nat
    var propagationScores: seq<nat>

    ghost predicate Valid()
      reads this
    {
      && committee.quorumThreshold > 0
      && |infos| == committee.Size() && |propagationScores| <= |infos|
      && totalExcludedStake == committee.StakeOf(Excluded(infos)) <= excludedStakeThreshold
    }

    constructor (committee: Committee, badNodesStakeThreshold: nat)
      requires committee.quorumThreshold > 0
      ensures Valid() && this.committee == committee && totalExcludedStake == 0
      ensures excludedStakeThreshold == 2 * badNodesStakeThreshold / 3 * committee.TotalStake() / 100
    {
      this.committee := committee;
      excludedStakeThreshold := 2 * badNodesStakeThreshold / 3 * SumOfStakes(committee.stakes) / 100;
      infos := seq(committee.Size(), _ => AncestorInfo(Include, 0));
      totalExcludedStake, propagationScores := 0, [];
      new;
      TotalStakeIsSum(committee);
      StakeEmpty(committee);
      assert Excluded(infos) == {};
    }

    method SetPropagationScores(scores: seq<nat>)
      requires Valid() && |scores| <= committee.Size()
      modifies this`propagationScores
      ensures Valid() && propagationScores == scores
    {
      propagationScores := scores;
    }

    /** The excluded stake stays what it says it is, and within its limit. */
    method UpdateAllAncestorsState(acceptedQuorumRounds: seq<QuorumRound>, clock: Round)
      requires Valid() && |acceptedQuorumRounds| == committee.Size()
      modifies this`infos, this`totalExcludedStake
      ensures Valid()
      ensures exists s: Signals ::
                && s.scores == propagationScores && s.clock == clock
                && IsNetworkRound(committee, acceptedQuorumRounds, s)
                && IsUpdated(committee, s, old(infos), infos, excludedStakeThreshold)
    {
      var highRounds :=
        seq(|acceptedQuorumRounds|, i requires 0 <= i < |acceptedQuorumRounds| => acceptedQuorumRounds[i].1);
      var networkRound := LowestOfQuorum(committee, highRounds);
      var s := Signals(propagationScores, highRounds, networkRound, clock);
      assert IsNetworkRound(committee, acceptedQuorumRounds, s);
      hide IsNetworkRound;
      var toInclude, toExclude := Collect(s);
      ApplyIncludes(s, toInclude);
      var sorted := SortByScore(s.scores, toExclude);
      ghost var candidates := Candidates(s, old(infos));
      assert forall a: Authority :: a in sorted <==> a in candidates;
      ApplyExcludes(s, candidates, sorted);
      forall a | 0 <= a < |infos|
        ensures IsUpdatedAt(committee, s, old(infos), infos, excludedStakeThreshold, a)
      {
        assert a < |s.scores| ==> (a in toInclude <==> s.MayInclude(old(infos), a));
        assert a < |s.scores| ==> (a in toExclude <==> s.MayExclude(old(infos), a));
      }
    }

    /** The authorities that may change, told from the state before any of them does. */
    method Collect(s: Signals) returns (toInclude: seq<Authority>, toExclude: seq<Authority>)
      requires |s.scores| <= |infos| && |s.scores| <= |s.highRounds|
      ensures AreDistinct(toInclude) && AreDistinct(toExclude)
      ensures forall a: Authority :: a in toInclude <==> a < |s.scores| && s.MayInclude(infos, a)
      ensures forall a: Authority :: a in toExclude <==> a < |s.scores| && s.MayExclude(infos, a)
    {
      toInclude, toExclude := [], [];
      for i := 0 to |s.scores|
        invariant AreDistinct(toInclude) && AreDistinct(toExclude)
        invariant forall a: Authority :: a in toInclude <==> a < i && s.MayInclude(infos, a)
        invariant forall a: Authority :: a in toExclude <==> a < i && s.MayExclude(infos, a)
      {
        assert i !in toInclude && i !in toExclude;
        if s.MayExclude(infos, i) {
          toExclude := toExclude + [i];
        } else if s.MayInclude(infos, i) {
          toInclude := toInclude + [i];
        }
      }
    }

    /** Moves one authority to the other state. Nothing else is ever asked for, and there is always
        enough excluded stake to subtract from. */
    method ApplyStateChange(a: Authority, state: AncestorState, clock: Round)
      requires |infos| == committee.Size() && a < |infos| && totalExcludedStake == committee.StakeOf(Excluded(infos))
      requires infos[a].state.Exclude? <==> state.Include?
      modifies this`infos, this`totalExcludedStake
      ensures infos == old(infos)[a := AncestorInfo(state, clock + STATE_LOCK_CLOCK_ROUNDS)]
      ensures totalExcludedStake == committee.StakeOf(Excluded(infos))
      ensures totalExcludedStake == if state.Include? then old(totalExcludedStake) - committee.Stake(a)
                                    else old(totalExcludedStake) + committee.Stake(a)
    {
      var info := AncestorInfo(state, clock + STATE_LOCK_CLOCK_ROUNDS);
      if state.Include? {
        IncludeRemoves(committee, infos, a, info);
        totalExcludedStake := totalExcludedStake - committee.Stake(a);
      } else {
        ExcludeAdds(committee, infos, a, info);
        totalExcludedStake := totalExcludedStake + committee.Stake(a);
      }
      infos := infos[a := info];
    }

    method ApplyIncludes(s: Signals, list: seq<Authority>)
      requires Valid() && AreDistinct(list) && |s.scores| <= |infos| && |s.scores| <= |s.highRounds|
      requires forall a: Authority :: a in list ==> a < |infos| && infos[a].state.Exclude?
      modifies this`infos, this`totalExcludedStake
      ensures Valid()
      ensures forall a :: 0 <= a < |infos| ==>
                infos[a] == if a in list then AncestorInfo(Include, s.clock + STATE_LOCK_CLOCK_ROUNDS)
                  else old(infos)[a]
    {
      for i := 0 to |list|
        invariant Valid()
        invariant forall a :: 0 <= a < |infos| ==>
                    infos[a] == if a in list[..i] then AncestorInfo(Include, s.clock + STATE_LOCK_CLOCK_ROUNDS)
                      else old(infos)[a]
      {
        assert list[i] in list && list[i] !in list[..i];
        assert list[..i + 1] == list[..i] + [list[i]];
        ApplyStateChange(list[i], Include, s.clock);
      }
      assert list[..|list|] == list;
    }

    /** Excludes authorities from the worst score on, as long as their stake fits. */
    method ApplyExcludes(s: Signals, ghost candidates: set<Authority>, sorted: seq<Authority>)
      requires Valid() && AreDistinct(sorted) && IsSortedByScore(s.scores, sorted)
      requires forall a: Authority :: a in sorted <==> a in candidates
      requires forall a :: a in candidates ==> a < |infos| && a < |s.scores| && infos[a].state.Include?
      modifies this`infos, this`totalExcludedStake
      ensures Valid()
      ensures forall a :: 0 <= a < |infos| ==>
                if a in candidates then
                  IsExcludedOrFull(committee, s, candidates, old(infos), infos, excludedStakeThreshold, a)
                else infos[a] == old(infos)[a]
    {
      hide IsExcludedOrFull;
      for i := 0 to |sorted|
        invariant Valid()
        invariant forall a :: 0 <= a < |infos| && a !in sorted[..i] ==> infos[a] == old(infos)[a]
        invariant forall a :: 0 <= a < |infos| && a in sorted[..i] ==>
                    a in candidates
                    && IsExcludedOrFull(committee, s, candidates, old(infos), infos, excludedStakeThreshold, a)
      {
        var a := sorted[i];
        assert a in sorted && a !in sorted[..i];
        assert sorted[..i + 1] == sorted[..i] + [a];
        ghost var infos0 := infos;
        if totalExcludedStake + committee.Stake(a) <= excludedStakeThreshold {
          ApplyStateChange(a, Exclude(s.scores[a]), s.clock);
          AfterExclusion(committee, s, candidates, sorted, old(infos), infos0, infos, excludedStakeThreshold, i);
        } else {
          ThereIsNoRoom(committee, s, candidates, sorted, old(infos), infos, excludedStakeThreshold, i);
        }
      }
      assert sorted[..|sorted|] == sorted;
    }
  }

  ghost predicate IsExcludedOrFull(c: Committee, s: Signals, candidates: set<Authority>, infos: Infos, infos': Infos,
                                   threshold: nat, a: Authority)
    requires a in candidates && a < |infos| == |infos'| == c.Size() && forall x :: x in candidates ==> x < |s.scores|
  {
    || infos'[a] == AncestorInfo(Exclude(s.scores[a]), s.clock + STATE_LOCK_CLOCK_ROUNDS)
    || (infos'[a] == infos[a] && c.StakeOf(Ahead(s, candidates, infos', a)) + c.Stake(a) > threshold)
  }

  ghost predicate IsSortedByScore(scores: seq<nat>, sorted: seq<Authority>) {
    && (forall i :: 0 <= i < |sorted| ==> sorted[i] < |scores|)
    && (forall i, j :: 0 <= i < j < |sorted| ==> scores[sorted[i]] <= scores[sorted[j]])
  }

  /** One more exclusion makes room for nobody. */
  lemma AfterExclusion(c: Committee, s: Signals, candidates: set<Authority>, sorted: seq<Authority>, infos0: Infos,
                       infos: Infos, infos': Infos, threshold: nat, i: nat)
    requires i < |sorted| && AreDistinct(sorted) && (forall a: Authority :: a in sorted <==> a in candidates)
    requires |infos0| == |infos| == |infos'| == c.Size()
    requires forall a :: a in candidates ==> a < |infos| && a < |s.scores|
    requires sorted[i] < |infos| && sorted[i] < |s.scores|
    requires infos' == infos[sorted[i] := AncestorInfo(Exclude(s.scores[sorted[i]]), s.clock + STATE_LOCK_CLOCK_ROUNDS)]
    requires forall a :: 0 <= a < |infos| && a in sorted[..i] ==>
               a in candidates && IsExcludedOrFull(c, s, candidates, infos0, infos, threshold, a)
    ensures forall a :: 0 <= a < |infos| && a in sorted[..i + 1] ==>
               a in candidates && IsExcludedOrFull(c, s, candidates, infos0, infos', threshold, a)
  {
    assert sorted[..i + 1] == sorted[..i] + [sorted[i]];
    forall a | 0 <= a < |infos| && a in sorted[..i]
      ensures a in candidates && IsExcludedOrFull(c, s, candidates, infos0, infos', threshold, a)
    {
      assert a != sorted[i];
      assert Ahead(s, candidates, infos, a) <= Ahead(s, candidates, infos', a);
      StakeMonotone(c, Ahead(s, candidates, infos, a), Ahead(s, candidates, infos', a));
    }
  }

  /** Everybody excluded so far comes before the next one. */
  lemma ThereIsNoRoom(c: Committee, s: Signals, candidates: set<Authority>, sorted: seq<Authority>, infos0: Infos,
                      infos: Infos, threshold: nat, i: nat)
    requires i < |sorted| && AreDistinct(sorted) && (forall a: Authority :: a in sorted <==> a in candidates)
    requires IsSortedByScore(s.scores, sorted)
    requires |infos0| == |infos| == c.Size()
    requires forall a :: a in candidates ==> a < |infos| && a < |s.scores| && infos0[a].state.Include?
    requires forall a :: 0 <= a < |infos| && a !in sorted[..i] ==> infos[a] == infos0[a]
    requires sorted[i] < |infos| && c.StakeOf(Excluded(infos)) + c.Stake(sorted[i]) > threshold
    ensures sorted[i] in candidates && IsExcludedOrFull(c, s, candidates, infos0, infos, threshold, sorted[i])
  {
    var a := sorted[i];
    assert a in sorted;
    forall x | x in Excluded(infos)
      ensures x in Ahead(s, candidates, infos, a)
    {
      if x in candidates {
        assert x in sorted[..i];
        var k :| 0 <= k < i && sorted[..i][k] == x;
        assert sorted[k] == x;
      }
    }
    assert Ahead(s, candidates, infos, a) == Excluded(infos);
  }

  /** The network round is the lowest round that a quorum of authorities does not exceed. */
  ghost predicate IsNetworkRound(c: Committee, rounds: seq<QuorumRound>, s: Signals) {
    && |s.highRounds| == |rounds| && (forall i :: 0 <= i < |rounds| ==> s.highRounds[i] == rounds[i].1)
    && (c.TotalStake() >= c.quorumThreshold ==> c.IsQuorum(AtMost(s.highRounds, s.networkRound)))
    && (forall w :: 0 <= w < s.networkRound ==> !c.IsQuorum(AtMost(s.highRounds, w)))
  }

  /** Worst scores first. */
  method SortByScore(scores: seq<nat>, list: seq<Authority>) returns (sorted: seq<Authority>)
    requires AreDistinct(list) && forall a: Authority :: a in list ==> a < |scores|
    ensures AreDistinct(sorted) && forall a: Authority :: a in sorted <==> a in list
    ensures IsSortedByScore(scores, sorted)
  {
    sorted := [];
    for n := 0 to |list|
      invariant AreDistinct(sorted) && forall a: Authority :: a in sorted <==> a in list[..n]
      invariant IsSortedByScore(scores, sorted)
    {
      var a := list[n];
      assert a in list && a !in list[..n];
      assert list[..n + 1] == list[..n] + [a];
      sorted := InsertByScore(scores, sorted, a);
    }
    assert list[..|list|] == list;
  }

  method InsertByScore(scores: seq<nat>, sorted: seq<Authority>, a: Authority) returns (sorted': seq<Authority>)
    requires AreDistinct(sorted) && IsSortedByScore(scores, sorted) && a < |scores| && a !in sorted
    ensures AreDistinct(sorted') && IsSortedByScore(scores, sorted')
    ensures forall x: Authority :: x in sorted' <==> x in sorted || x == a
  {
    var k := |sorted|;
    while k > 0 && scores[sorted[k - 1]] > scores[a]
      invariant 0 <= k <= |sorted|
      invariant forall i :: k <= i < |sorted| ==> scores[sorted[i]] > scores[a]
    {
      k := k - 1;
    }
    sorted' := sorted[..k] + [a] + sorted[k..];
    InsertedElements(sorted, a, k);
    InsertedIsSorted(scores, sorted, a, k);
  }

  lemma InsertedElements(sorted: seq<Authority>, a: Authority, k: nat)
    requires AreDistinct(sorted) && k <= |sorted| && a !in sorted
    ensures AreDistinct(sorted[..k] + [a] + sorted[k..])
    ensures forall x: Authority :: x in sorted[..k] + [a] + sorted[k..] <==> x in sorted || x == a
  {
    assert sorted == sorted[..k] + sorted[k..];
  }

  lemma InsertedIsSorted(scores: seq<nat>, sorted: seq<Authority>, a: Authority, k: nat)
    requires IsSortedByScore(scores, sorted) && a < |scores| && k <= |sorted|
    requires k > 0 ==> scores[sorted[k - 1]] <= scores[a]
    requires forall i :: k <= i < |sorted| ==> scores[sorted[i]] > scores[a]
    ensures IsSortedByScore(scores, sorted[..k] + [a] + sorted[k..])
  {
    forall i | 0 <= i < k
      ensures scores[sorted[i]] <= scores[a]
    {
      assert i < k - 1 ==> scores[sorted[i]] <= scores[sorted[k - 1]];
    }
  }
}
