/** The sliding window of leader scores, the leaders it allows, and its recovery by replay. */
module LeaderSchedulesV3 {
  import opened Division
  import opened Committees
  import opened Blocks
  import opened FinalizerState
  import opened LeaderScores
  import opened Ranking

  const MAX_PENDING_COMMITS: nat := 3

  /** The order of authorities with equal scores is shuffled with the last commit as seed. */
  datatype Config = Config(
    committee: Committee,
    window: nat,
    interval: nat,
    badStakeThreshold: nat,
    shuffle: Option<CommittedSubDag> -> seq<Authority>)
  {
    ghost predicate Valid() {
      && window > 0 && interval > 0
      && forall seed :: IsEveryone(committee, shuffle(seed))
    }

    /** Stake that may be excluded. */
    function Cutoff(): nat {
      badStakeThreshold * SumOfStakes(committee.stakes) / 100
    }
  }

  datatype NextSchedule = NextSchedule(nextCommitIndex: nat, minNextLeaderRound: Round, allowedLeaders: seq<Authority>)

  // ----- allowed leaders

  ghost function RankedBy(cfg: Config, scores: seq<nat>, seed: Option<CommittedSubDag>): (ranked: seq<Authority>)
    requires cfg.Valid() && |scores| == cfg.committee.Size()
    ensures IsEveryone(cfg.committee, ranked) && AreMembers(cfg.committee, ranked)
    ensures AreScored(scores, ranked) && Descends(scores, ranked)
  {
    RankedIsEveryone(cfg.committee, scores, cfg.shuffle(seed));
    Ranked(scores, cfg.shuffle(seed))
  }

  /** The allowed leaders are the best ones: all but as many of the worst as fit into the cutoff. */
  ghost predicate AreAllowed(cfg: Config, scores: seq<nat>, seed: Option<CommittedSubDag>, allowed: seq<Authority>)
    requires cfg.Valid() && |scores| == cfg.committee.Size()
  {
    var ranked := RankedBy(cfg, scores, seed);
    && allowed <= ranked
    && StakeSum(cfg.committee, ranked[|allowed|..]) <= cfg.Cutoff()
    && (allowed != [] ==> StakeSum(cfg.committee, ranked[|allowed| - 1..]) > cfg.Cutoff())
  }

  lemma AllowedAreUnique(cfg: Config, scores: seq<nat>, seed: Option<CommittedSubDag>, one: seq<Authority>,
                         other: seq<Authority>)
    requires cfg.Valid() && |scores| == cfg.committee.Size()
    requires AreAllowed(cfg, scores, seed, one) && AreAllowed(cfg, scores, seed, other)
    ensures one == other
  {
    if |one| < |other| {
      ShorterIsNotAllowed(cfg, scores, seed, one, other);
    } else if |other| < |one| {
      ShorterIsNotAllowed(cfg, scores, seed, other, one);
    }
  }

  lemma ShorterIsNotAllowed(cfg: Config, scores: seq<nat>, seed: Option<CommittedSubDag>, shorter: seq<Authority>,
                            longer: seq<Authority>)
    requires cfg.Valid() && |scores| == cfg.committee.Size()
    requires AreAllowed(cfg, scores, seed, longer) && |shorter| < |longer|
    ensures !AreAllowed(cfg, scores, seed, shorter)
  {
    hide RankedBy;
    var ranked := RankedBy(cfg, scores, seed);
    var rest := ranked[|shorter|..];
    StakeSumSplit(cfg.committee, rest, |longer| - 1 - |shorter|);
    assert rest[|longer| - 1 - |shorter|..] == ranked[|longer| - 1..];
  }

  /** What the allowed leaders are good for: who is excluded has no better score than who is allowed,
      the excluded stake is within the threshold, and below a threshold of 100 somebody is allowed. */
  lemma AllowedLeadersAreGood(cfg: Config, scores: seq<nat>, seed: Option<CommittedSubDag>, allowed: seq<Authority>)
    requires cfg.Valid() && |scores| == cfg.committee.Size() && AreAllowed(cfg, scores, seed, allowed)
    ensures forall a, b :: 0 <= a < |scores| && 0 <= b < |scores| && a in allowed && b !in allowed ==>
              scores[a] >= scores[b]
    ensures cfg.committee.StakeOf(cfg.committee.AllMembers() - AuthoritySet(allowed)) <= cfg.Cutoff()
    ensures cfg.badStakeThreshold < 100 && cfg.committee.TotalStake() > 0 ==> allowed != []
  {
    hide RankedBy;
    var c, ranked := cfg.committee, RankedBy(cfg, scores, seed);
    var excluded := ranked[|allowed|..];
    assert ranked == allowed + excluded;
    ExcludedAreTheRest(c, ranked, allowed, excluded);
    BestComeFirst(c, scores, ranked, allowed, excluded);
    hide Descends, AreScored, IsEveryone;
    StakeSumOfDistinct(c, excluded);
    StakeSumOfEveryone(c, ranked);
    TotalStakeIsSum(c);
    if allowed == [] && cfg.badStakeThreshold < 100 && c.TotalStake() > 0 {
      assert excluded == ranked;
      CutoffIsBelowTotal(cfg.badStakeThreshold, c.TotalStake());
    }
  }

  lemma CutoffIsBelowTotal(threshold: nat, total: nat)
    requires threshold < 100 && total > 0
    ensures threshold * total / 100 < total
  {
    assert (100 - threshold) * total > 0;
  }

  lemma BestComeFirst(c: Committee, scores: seq<nat>, ranked: seq<Authority>, allowed: seq<Authority>,
                      excluded: seq<Authority>)
    requires IsEveryone(c, ranked) && ranked == allowed + excluded && |scores| == c.Size()
    requires AreScored(scores, ranked) && Descends(scores, ranked)
    ensures AreDistinct(excluded) && AreMembers(c, excluded)
    ensures forall a, b :: 0 <= a < |scores| && 0 <= b < |scores| && a in allowed && b !in allowed ==>
              scores[a] >= scores[b]
  {
    forall a, b | 0 <= a < |scores| && 0 <= b < |scores| && a in allowed && b !in allowed
      ensures scores[a] >= scores[b]
    {
      assert c.IsMember(b);
      assert b in ranked;
      var i :| 0 <= i < |allowed| && allowed[i] == a;
      var j :| 0 <= j < |excluded| && excluded[j] == b;
      assert ranked[i] == a && ranked[|allowed| + j] == b;
    }
    forall i, j | 0 <= i < j < |excluded|
      ensures excluded[i] != excluded[j]
    {
      assert excluded[i] == ranked[|allowed| + i] && excluded[j] == ranked[|allowed| + j];
    }
    forall a | a in excluded
      ensures a in ranked
    {
    }
  }

  lemma ExcludedAreTheRest(c: Committee, ranked: seq<Authority>, allowed: seq<Authority>, excluded: seq<Authority>)
    requires IsEveryone(c, ranked) && ranked == allowed + excluded
    ensures AuthoritySet(excluded) == c.AllMembers() - AuthoritySet(allowed)
  {
    forall i, j | 0 <= i < |allowed| && 0 <= j < |excluded|
      ensures allowed[i] != excluded[j]
    {
      assert allowed[i] == ranked[i] && excluded[j] == ranked[|allowed| + j];
    }
    forall a: Authority
      ensures a in excluded <==> c.IsMember(a) && a !in allowed
    {
      assert a in ranked <==> a in allowed || a in excluded;
    }
  }

  method SelectAllowedLeaders(cfg: Config, scores: seq<nat>, seed: Option<CommittedSubDag>)
    returns (allowed: seq<Authority>)
    requires cfg.Valid() && |scores| == cfg.committee.Size()
    ensures AreAllowed(cfg, scores, seed, allowed)
  {
    RankedIsEveryone(cfg.committee, scores, cfg.shuffle(seed));
    var ranked := Ranked(scores, cfg.shuffle(seed));
    assert ranked == RankedBy(cfg, scores, seed);
    hide Ranked, RankedBy, Descends, AreScored;
    var badStake, cutoff := 0, cfg.Cutoff();
    allowed := ranked;
    assert ranked[|ranked|..] == [];
    while allowed != []
      invariant |allowed| <= |ranked| && allowed == ranked[..|allowed|]
      invariant badStake == StakeSum(cfg.committee, ranked[|allowed|..]) <= cutoff
    {
      var n := |allowed| - 1;
      var stake := cfg.committee.Stake(allowed[n]);
      assert ranked[n..][1..] == ranked[n + 1..] && ranked[n..][0] == allowed[n];
      if badStake + stake > cutoff {
        break;
      }
      badStake := badStake + stake;
      allowed := allowed[..n];
    }
  }

  // ----- the state that belongs to a history

  /** Commits numbered from one, with ever higher leader rounds. */
  ghost predicate IsHistory(cfg: Config, h: seq<CommittedSubDag>) {
    && (forall i :: 0 <= i < |h| ==> h[i].index == i + 1 && IsScorable(cfg.committee, h[i]))
    && (forall i, j :: 0 <= i < j < |h| ==> h[i].leader.round < h[j].leader.round)
  }

  /** Index of the oldest commit whose arrival has an entry in the window, when commits have been
      processed from `first` on. */
  function OldestScoring(cfg: Config, first: nat, n: nat): nat {
    if first + MAX_PENDING_COMMITS >= n + 1 - cfg.window then first + MAX_PENDING_COMMITS else n + 1 - cfg.window
  }

  /** The entries of the window: one for the arrival of each commit from the oldest on. */
  ghost predicate AreEntries(cfg: Config, h: seq<CommittedSubDag>, first: nat, entries: seq<ScoresEntry>)
    requires first > 0
  {
    var oldest := OldestScoring(cfg, first, |h|);
    && |entries| == (if oldest <= |h| then |h| + 1 - oldest else 0)
    && forall k :: 0 <= k < |entries| ==> IsEntryFor(cfg, h, oldest + k, entries[k])
  }

  /** The arrival of a commit scores the third commit before it. */
  ghost predicate IsEntryFor(cfg: Config, h: seq<CommittedSubDag>, i: nat, e: ScoresEntry) {
    && 4 <= i <= |h|
    && IsEntry(cfg.committee, h[i - 4], h[i - 3..i], e)
  }

  /** Score of one authority summed over entries. */
  function SumScores(entries: seq<ScoresEntry>, a: Authority): nat
    requires forall e :: e in entries ==> a < |e.scores|
  {
    if entries == [] then 0 else entries[0].scores[a] + SumScores(entries[1..], a)
  }

  function SumNumLeaders(entries: seq<ScoresEntry>): nat {
    if entries == [] then 0 else entries[0].numLeaders + SumNumLeaders(entries[1..])
  }

  function SumLeaderStakes(entries: seq<ScoresEntry>): nat {
    if entries == [] then 0 else entries[0].leaderStakes + SumLeaderStakes(entries[1..])
  }

  ghost predicate AreSized(cfg: Config, entries: seq<ScoresEntry>) {
    forall e :: e in entries ==> |e.scores| == cfg.committee.Size()
  }

  /** The totals are what adding up the window from scratch gives. */
  ghost predicate AreTotals(cfg: Config, entries: seq<ScoresEntry>, totals: seq<nat>) {
    && AreSized(cfg, entries)
    && |totals| == cfg.committee.Size()
    && forall a :: 0 <= a < |totals| ==> totals[a] == SumScores(entries, a)
  }

  lemma {:induction false} SumScoresAppend(entries: seq<ScoresEntry>, e: ScoresEntry, a: Authority)
    requires a < |e.scores| && forall x :: x in entries ==> a < |x.scores|
    ensures SumScores(entries + [e], a) == SumScores(entries, a) + e.scores[a]
  {
    if entries == [] {
    } else {
      SumScoresAppend(entries[1..], e, a);
      assert (entries + [e])[1..] == entries[1..] + [e];
    }
  }

  lemma {:induction false} SumLeadersAppend(entries: seq<ScoresEntry>, e: ScoresEntry)
    ensures SumNumLeaders(entries + [e]) == SumNumLeaders(entries) + e.numLeaders
    ensures SumLeaderStakes(entries + [e]) == SumLeaderStakes(entries) + e.leaderStakes
  {
    if entries == [] {
    } else {
      SumLeadersAppend(entries[1..], e);
      assert (entries + [e])[1..] == entries[1..] + [e];
    }
  }

  /** No total exceeds the stake of the leaders in the window times the total stake. */
  lemma {:induction false} TotalIsBounded(cfg: Config, h: seq<CommittedSubDag>, from: nat, entries: seq<ScoresEntry>,
                                          a: Authority)
    requires AreSized(cfg, entries) && cfg.committee.IsMember(a)
    requires forall k :: 0 <= k < |entries| ==> IsEntryFor(cfg, h, from + k, entries[k])
    ensures SumScores(entries, a) <= SumLeaderStakes(entries) * cfg.committee.TotalStake()
    decreases |entries|
  {
    hide IsEntryFor;
    if entries == [] {
    } else {
      var rest := entries[1..];
      forall k | 0 <= k < |rest|
        ensures IsEntryFor(cfg, h, from + 1 + k, rest[k])
      {
        assert rest[k] == entries[k + 1];
        assert IsEntryFor(cfg, h, from + (k + 1), entries[k + 1]);
      }
      TotalIsBounded(cfg, h, from + 1, rest, a);
      assert IsEntryFor(cfg, h, from + 0, entries[0]);
      EntryIsBounded(cfg, h, from, entries[0], a);
      Distributes(entries[0].leaderStakes, SumLeaderStakes(rest), cfg.committee.TotalStake());
    }
  }

  lemma EntryIsBounded(cfg: Config, h: seq<CommittedSubDag>, i: nat, e: ScoresEntry, a: Authority)
    requires IsEntryFor(cfg, h, i, e) && cfg.committee.IsMember(a)
    ensures a < |e.scores| && e.scores[a] <= e.leaderStakes * cfg.committee.TotalStake()
  {
    ScoreIsBounded(cfg.committee, h[i - 4], h[i - 3..i], a);
  }

  lemma Distributes(x: nat, y: nat, z: nat)
    ensures (x + y) * z == x * z + y * z
  {
  }

  /** The last boundary at which the allowed leaders were chosen. */
  function LastBoundary(cfg: Config, n: nat): nat
    requires cfg.interval > 0
  {
    n / cfg.interval * cfg.interval
  }

  /** The allowed leaders belong to the window at the last boundary, or to no commits at all. */
  ghost predicate AreAllowedAfter(cfg: Config, h: seq<CommittedSubDag>, first: nat, allowed: seq<Authority>)
    requires cfg.Valid() && first > 0
  {
    var b := LastBoundary(cfg, |h|);
    if first <= b <= |h| then
      exists entries, totals :: IsChosenAt(cfg, h[..b], first, entries, totals, allowed)
    else
      AreAllowed(cfg, Zeros(cfg), None, allowed)
  }

  ghost predicate IsChosenAt(cfg: Config, h: seq<CommittedSubDag>, first: nat, entries: seq<ScoresEntry>,
                             totals: seq<nat>, allowed: seq<Authority>)
    requires cfg.Valid() && first > 0 && h != []
  {
    && AreEntries(cfg, h, first, entries) && AreTotals(cfg, entries, totals)
    && AreAllowed(cfg, totals, Some(h[|h| - 1]), allowed)
  }

  function Zeros(cfg: Config): (zeros: seq<nat>)
    ensures |zeros| == cfg.committee.Size()
  {
    seq(cfg.committee.Size(), _ => 0)
  }

  /** Everything the schedule keeps. */
  datatype State = State(
    pending: seq<CommittedSubDag>,
    entries: seq<ScoresEntry>,
    totals: seq<nat>,
    totalNumLeaders: nat,
    totalLeaderStakes: nat,
    current: NextSchedule)

  /** The state after the commits from `first` to the end of the history have been processed. */
  ghost predicate IsStateAfter(cfg: Config, h: seq<CommittedSubDag>, first: nat, s: State)
    requires cfg.Valid()
  {
    && 0 < first <= |h| + 1 && IsHistory(cfg, h)
    && s.pending == h[OldestPending(first, |h|)..]
    && AreEntries(cfg, h, first, s.entries)
    && AreTotals(cfg, s.entries, s.totals)
    && s.totalNumLeaders == SumNumLeaders(s.entries)
    && s.totalLeaderStakes == SumLeaderStakes(s.entries)
    && s.current.nextCommitIndex == (if s.pending == [] then 1 else |h| + 1)
    && s.current.minNextLeaderRound == (if s.pending == [] then 1 else h[|h| - 1].leader.round + 1)
    && AreAllowedAfter(cfg, h, first, s.current.allowedLeaders)
  }

  /** Position of the oldest pending commit. */
  function OldestPending(first: nat, n: nat): (k: nat)
    requires 0 < first <= n + 1
    ensures k <= n
  {
    if n >= first + MAX_PENDING_COMMITS then n - MAX_PENDING_COMMITS else first - 1
  }

  // ----- one commit later

  lemma PendingAfter(first: nat, h: seq<CommittedSubDag>, c: CommittedSubDag)
    requires 0 < first <= |h| + 1
    ensures var pending, pending' := h[OldestPending(first, |h|)..], (h + [c])[OldestPending(first, |h| + 1)..];
            && |pending| <= MAX_PENDING_COMMITS
            && (|pending| < MAX_PENDING_COMMITS ==> pending' == pending + [c])
            && (|pending| == MAX_PENDING_COMMITS ==>
                  && |h| >= first + 2 && pending == h[|h| - 3..]
                  && pending' == pending[1..] + [c])
  {
  }

  lemma EntryForIsStable(cfg: Config, h: seq<CommittedSubDag>, c: CommittedSubDag, i: nat, e: ScoresEntry)
    requires IsEntryFor(cfg, h, i, e)
    ensures IsEntryFor(cfg, h + [c], i, e)
  {
    assert (h + [c])[i - 3..i] == h[i - 3..i];
  }

  /** During the first three commits nothing is scored. */
  lemma WarmupEntries(cfg: Config, h: seq<CommittedSubDag>, first: nat, entries: seq<ScoresEntry>, c: CommittedSubDag)
    requires 0 < first && |h| < first + 2 && AreEntries(cfg, h, first, entries)
    ensures AreEntries(cfg, h + [c], first, entries)
  {
  }

  /** The window moves on by one entry: the oldest one leaves when the window is full. */
  lemma EntriesAfter(cfg: Config, h: seq<CommittedSubDag>, first: nat, entries: seq<ScoresEntry>, c: CommittedSubDag,
                     e: ScoresEntry)
    requires cfg.window > 0 && 0 < first && |h| >= first + 2 && AreEntries(cfg, h, first, entries)
    requires IsEntryFor(cfg, h + [c], |h| + 1, e)
    ensures |entries| <= cfg.window
    ensures AreEntries(cfg, h + [c], first, (if |entries| == cfg.window then entries[1..] else entries) + [e])
  {
    hide IsEntryFor;
    var h' := h + [c];
    var kept := if |entries| == cfg.window then entries[1..] else entries;
    var entries' := kept + [e];
    var oldest, oldest' := OldestScoring(cfg, first, |h|), OldestScoring(cfg, first, |h'|);
    forall k | 0 <= k < |entries'|
      ensures IsEntryFor(cfg, h', oldest' + k, entries'[k])
    {
      if k < |kept| {
        var l := if |entries| == cfg.window then k + 1 else k;
        assert entries'[k] == entries[l];
        assert IsEntryFor(cfg, h, oldest + l, entries[l]);
        EntryForIsStable(cfg, h, c, oldest + l, entries[l]);
      }
    }
  }

  lemma AllowedAfterBoundary(cfg: Config, h: seq<CommittedSubDag>, first: nat, entries: seq<ScoresEntry>,
                             totals: seq<nat>, allowed: seq<Authority>)
    requires cfg.Valid() && 0 < first <= |h| && |h| % cfg.interval == 0
    requires IsChosenAt(cfg, h, first, entries, totals, allowed)
    ensures AreAllowedAfter(cfg, h, first, allowed)
  {
    hide IsChosenAt;
    assert LastBoundary(cfg, |h|) == |h|;
    assert h[..|h|] == h;
  }

  lemma AllowedOffBoundary(cfg: Config, h: seq<CommittedSubDag>, first: nat, c: CommittedSubDag,
                           allowed: seq<Authority>)
    requires cfg.Valid() && 0 < first <= |h| + 1 && (|h| + 1) % cfg.interval != 0
    requires AreAllowedAfter(cfg, h, first, allowed)
    ensures AreAllowedAfter(cfg, h + [c], first, allowed)
  {
    hide IsChosenAt, AreAllowed;
    QuotientIsStable(|h|, cfg.interval);
    var b := LastBoundary(cfg, |h|);
    MultipleBelow(|h|, cfg.interval);
    assert (h + [c])[..b] == h[..b];
  }

  // ----- the class

  class LeaderScheduleV3 {
    const cfg: Config

    var pending: seq<CommittedSubDag>
    var entries: seq<ScoresEntry>
    var totals: seq<nat>
    var totalNumLeaders: nat
    var totalLeaderStakes: nat
    var current: NextSchedule

    // All commits so far, and the index of the first one that was processed here.
    ghost var history: seq<CommittedSubDag>
    ghost var first: nat

    ghost function Now(): State
      reads this
    {
      State(pending, entries, totals, totalNumLeaders, totalLeaderStakes, current)
    }

    ghost predicate Valid()
      reads this
    {
      cfg.Valid() && IsStateAfter(cfg, history, first, Now())
    }

    /** A schedule that starts empty after some commits it will never see. */
    constructor (cfg: Config, ghost history: seq<CommittedSubDag>)
      requires cfg.Valid() && IsHistory(cfg, history)
      ensures Valid() && this.cfg == cfg && this.history == history && first == |history| + 1
    {
      hide AreAllowed;
      var allowed := SelectAllowedLeaders(cfg, Zeros(cfg), None);
      this.cfg := cfg;
      pending, entries, totals := [], [], Zeros(cfg);
      totalNumLeaders, totalLeaderStakes := 0, 0;
      current := NextSchedule(1, 1, allowed);
      this.history, first := history, |history| + 1;
      MultipleBelow(|history|, cfg.interval);
    }

    /** Takes a commit into the window. Subtraction never goes below zero. */
    method AddCommit(c: CommittedSubDag)
      requires Valid() && IsHistory(cfg, history + [c])
      modifies this
      ensures Valid() && history == old(history) + [c] && first == old(first)
      ensures forall a :: 0 <= a < |totals| ==> totals[a] <= totalLeaderStakes * cfg.committee.TotalStake()
    {
      hide IsHistory, AreEntries, AreTotals, AreAllowedAfter, SumNumLeaders, SumLeaderStakes;
      PendingAfter(first, history, c);
      if |pending| < MAX_PENDING_COMMITS {
        WarmupEntries(cfg, history, first, entries, c);
        pending := pending + [c];
      } else {
        ScoreOldest(c);
        pending := pending[1..] + [c];
      }
      Refresh(c);
      history := history + [c];
      TotalsAreBounded(cfg, history, first, entries, totals);
    }

    /** Scores the oldest pending commit when the third commit after it has come. */
    method ScoreOldest(c: CommittedSubDag)
      requires cfg.Valid() && IsHistory(cfg, history + [c])
      requires first > 0 && |history| >= first + 2 && pending == history[|history| - 3..]
      requires AreEntries(cfg, history, first, entries) && AreTotals(cfg, entries, totals)
      requires totalNumLeaders == SumNumLeaders(entries) && totalLeaderStakes == SumLeaderStakes(entries)
      modifies this`entries, this`totals, this`totalNumLeaders, this`totalLeaderStakes
      ensures AreEntries(cfg, history + [c], first, entries) && AreTotals(cfg, entries, totals)
      ensures totalNumLeaders == SumNumLeaders(entries) && totalLeaderStakes == SumLeaderStakes(entries)
    {
      hide IsHistory, AreEntries, AreTotals, SumNumLeaders, SumLeaderStakes, IsEntry, IsEntryFor, IsScorable;
      CanScore(cfg, history, pending, c);
      var e := ScoreCommit(cfg.committee, pending[0], pending[1..] + [c]);
      IsScored(cfg, history, pending, c, e);
      EntriesAfter(cfg, history, first, entries, c, e);
      Evict();
      Push(e);
    }

    /** Makes room for one more entry. */
    method Evict()
      requires cfg.Valid() && |entries| <= cfg.window && AreTotals(cfg, entries, totals)
      requires totalNumLeaders == SumNumLeaders(entries) && totalLeaderStakes == SumLeaderStakes(entries)
      modifies this`entries, this`totals, this`totalNumLeaders, this`totalLeaderStakes
      ensures entries == if |old(entries)| == cfg.window then old(entries)[1..] else old(entries)
      ensures AreTotals(cfg, entries, totals)
      ensures totalNumLeaders == SumNumLeaders(entries) && totalLeaderStakes == SumLeaderStakes(entries)
    {
      while |entries| >= cfg.window
        invariant entries == old(entries) || (|old(entries)| == cfg.window && entries == old(entries)[1..])
        invariant AreTotals(cfg, entries, totals)
        invariant totalNumLeaders == SumNumLeaders(entries) && totalLeaderStakes == SumLeaderStakes(entries)
        decreases |entries|
      {
        var evicted := entries[0];
        assert evicted in entries;
        var totals' := totals;
        for i := 0 to |evicted.scores|
          invariant |totals'| == |totals| == cfg.committee.Size()
          invariant forall a :: 0 <= a < i ==> totals'[a] == totals[a] - evicted.scores[a]
          invariant forall a :: i <= a < |totals'| ==> totals'[a] == totals[a]
        {
          assert totals[i] == SumScores(entries, i) == evicted.scores[i] + SumScores(entries[1..], i);
          totals' := totals'[i := totals'[i] - evicted.scores[i]];
        }
        totals := totals';
        totalNumLeaders := totalNumLeaders - evicted.numLeaders;
        totalLeaderStakes := totalLeaderStakes - evicted.leaderStakes;
        entries := entries[1..];
      }
    }

    method Push(e: ScoresEntry)
      requires AreTotals(cfg, entries, totals) && |e.scores| == cfg.committee.Size()
      requires totalNumLeaders == SumNumLeaders(entries) && totalLeaderStakes == SumLeaderStakes(entries)
      modifies this`entries, this`totals, this`totalNumLeaders, this`totalLeaderStakes
      ensures entries == old(entries) + [e] && AreTotals(cfg, entries, totals)
      ensures totalNumLeaders == SumNumLeaders(entries) && totalLeaderStakes == SumLeaderStakes(entries)
    {
      var totals' := totals;
      for i := 0 to |e.scores|
        invariant |totals'| == |totals| == cfg.committee.Size()
        invariant forall a :: 0 <= a < i ==> totals'[a] == totals[a] + e.scores[a]
        invariant forall a :: i <= a < |totals'| ==> totals'[a] == totals[a]
      {
        totals' := totals'[i := totals'[i] + e.scores[i]];
      }
      forall a | 0 <= a < |totals|
        ensures SumScores(entries + [e], a) == SumScores(entries, a) + e.scores[a]
      {
        SumScoresAppend(entries, e, a);
      }
      SumLeadersAppend(entries, e);
      totals := totals';
      totalNumLeaders := totalNumLeaders + e.numLeaders;
      totalLeaderStakes := totalLeaderStakes + e.leaderStakes;
      entries := entries + [e];
    }

    /** The leaders change only when the number of commits is a multiple of the interval. */
    method Refresh(ghost c: CommittedSubDag)
      requires cfg.Valid() && 0 < first <= |history| + 1 && IsHistory(cfg, history + [c])
      requires pending != [] && pending[|pending| - 1] == c
      requires AreEntries(cfg, history + [c], first, entries) && AreTotals(cfg, entries, totals)
      requires AreAllowedAfter(cfg, history, first, current.allowedLeaders)
      modifies this`current
      ensures current.nextCommitIndex == |history| + 2 && current.minNextLeaderRound == c.leader.round + 1
      ensures AreAllowedAfter(cfg, history + [c], first, current.allowedLeaders)
    {
      hide AreEntries, AreAllowedAfter, AreAllowed;
      assert c.index == |history| + 1 by {
        assert (history + [c])[|history|] == c;
      }
      var last := pending[|pending| - 1];
      if last.index % cfg.interval == 0 {
        var allowed := SelectAllowedLeaders(cfg, totals, Some(last));
        ghost var h := history + [c];
        assert h[|h| - 1] == last;
        assert IsChosenAt(cfg, h, first, entries, totals, allowed);
        AllowedAfterBoundary(cfg, h, first, entries, totals, allowed);
        current := NextSchedule(last.index + 1, last.leader.round + 1, allowed);
      } else {
        AllowedOffBoundary(cfg, history, first, c, current.allowedLeaders);
        current := current.(nextCommitIndex := last.index + 1, minNextLeaderRound := last.leader.round + 1);
      }
    }
  }

  lemma CanScore(cfg: Config, h: seq<CommittedSubDag>, pending: seq<CommittedSubDag>, c: CommittedSubDag)
    requires IsHistory(cfg, h + [c]) && |h| >= 3 && pending == h[|h| - 3..]
    ensures var later := pending[1..] + [c];
            && IsScorable(cfg.committee, pending[0])
            && (forall k :: 0 <= k < |later| ==> IsScorable(cfg.committee, later[k]))
            && |later| == 3
            && pending[0].leader.round < later[0].leader.round < later[1].leader.round < later[2].leader.round
  {
    hide IsScorable;
    var h', n, later := h + [c], |h|, pending[1..] + [c];
    assert pending[0] == h'[n - 3] && later[0] == h'[n - 2] && later[1] == h'[n - 1] && later[2] == h'[n];
  }

  lemma IsScored(cfg: Config, h: seq<CommittedSubDag>, pending: seq<CommittedSubDag>, c: CommittedSubDag,
                 e: ScoresEntry)
    requires |h| >= 3 && pending == h[|h| - 3..] && IsEntry(cfg.committee, pending[0], pending[1..] + [c], e)
    ensures IsEntryFor(cfg, h + [c], |h| + 1, e) && |e.scores| == cfg.committee.Size()
  {
    hide Score, RefStakes;
    var h', n := h + [c], |h|;
    assert h'[n - 2..n + 1] == pending[1..] + [c];
  }

  lemma TotalsAreBounded(cfg: Config, h: seq<CommittedSubDag>, first: nat, entries: seq<ScoresEntry>, totals: seq<nat>)
    requires first > 0 && AreEntries(cfg, h, first, entries) && AreTotals(cfg, entries, totals)
    ensures forall a :: 0 <= a < |totals| ==> totals[a] <= SumLeaderStakes(entries) * cfg.committee.TotalStake()
  {
    hide IsEntryFor, SumLeaderStakes, SumScores;
    forall a | 0 <= a < |totals|
      ensures totals[a] <= SumLeaderStakes(entries) * cfg.committee.TotalStake()
    {
      TotalIsBounded(cfg, h, OldestScoring(cfg, first, |h|), entries, a);
    }
  }

  // ----- recovery

  /** The first commit to replay so that the window is complete when the current leaders are chosen. */
  function ReplayStart(cfg: Config, n: nat): (start: nat)
    requires cfg.interval > 0
    ensures start > 0
  {
    var update := LastBoundary(cfg, n) + 1;
    if update > cfg.window + MAX_PENDING_COMMITS then update - (cfg.window + MAX_PENDING_COMMITS) else 1
  }

  lemma {:induction false} EntriesAreUnique(cfg: Config, h: seq<CommittedSubDag>, first: nat, first': nat,
                                            entries: seq<ScoresEntry>, entries': seq<ScoresEntry>)
    requires 0 < first && 0 < first' && OldestScoring(cfg, first, |h|) == OldestScoring(cfg, first', |h|)
    requires AreEntries(cfg, h, first, entries) && AreEntries(cfg, h, first', entries')
    ensures entries == entries'
  {
    hide IsEntry;
    var oldest := OldestScoring(cfg, first, |h|);
    forall k | 0 <= k < |entries|
      ensures entries[k] == entries'[k]
    {
      assert IsEntryFor(cfg, h, oldest + k, entries[k]) && IsEntryFor(cfg, h, oldest + k, entries'[k]);
      EntryIsUnique(cfg.committee, h[oldest + k - 4], h[oldest + k - 3..oldest + k], entries[k], entries'[k]);
    }
  }

  lemma TotalsAreUnique(cfg: Config, entries: seq<ScoresEntry>, totals: seq<nat>, totals': seq<nat>)
    requires AreTotals(cfg, entries, totals) && AreTotals(cfg, entries, totals')
    ensures totals == totals'
  {
  }

  lemma ChosenAreUnique(cfg: Config, h: seq<CommittedSubDag>, first: nat, first': nat, allowed: seq<Authority>,
                        allowed': seq<Authority>, entries: seq<ScoresEntry>, totals: seq<nat>,
                        entries': seq<ScoresEntry>, totals': seq<nat>)
    requires cfg.Valid() && 0 < first && 0 < first' && h != []
    requires OldestScoring(cfg, first, |h|) == OldestScoring(cfg, first', |h|)
    requires IsChosenAt(cfg, h, first, entries, totals, allowed)
    requires IsChosenAt(cfg, h, first', entries', totals', allowed')
    ensures allowed == allowed'
  {
    hide AreEntries, AreAllowed;
    EntriesAreUnique(cfg, h, first, first', entries, entries');
    TotalsAreUnique(cfg, entries, totals, totals');
    AllowedAreUnique(cfg, totals, Some(h[|h| - 1]), allowed, allowed');
  }

  lemma AllowedAfterAreUnique(cfg: Config, h: seq<CommittedSubDag>, first: nat, first': nat, allowed: seq<Authority>,
                              allowed': seq<Authority>)
    requires cfg.Valid() && 0 < first && 0 < first'
    requires AreAllowedAfter(cfg, h, first, allowed) && AreAllowedAfter(cfg, h, first', allowed')
    requires var b := LastBoundary(cfg, |h|);
             || first == first'
             || (first <= b <= |h| && first' <= b && OldestScoring(cfg, first, b) == OldestScoring(cfg, first', b))
    ensures allowed == allowed'
  {
    hide AreAllowed, IsChosenAt;
    var b := LastBoundary(cfg, |h|);
    if first <= b <= |h| {
      var entries, totals :| IsChosenAt(cfg, h[..b], first, entries, totals, allowed);
      var entries', totals' :| IsChosenAt(cfg, h[..b], first', entries', totals', allowed');
      ChosenAreUnique(cfg, h[..b], first, first', allowed, allowed', entries, totals, entries', totals');
    } else {
      AllowedAreUnique(cfg, Zeros(cfg), None, allowed, allowed');
    }
  }

  /** Replaying the last commits only, from where `ReplayStart` says, gives exactly the state of a
      validator that has processed every commit. */
  lemma RecoveryEqualsLive(cfg: Config, h: seq<CommittedSubDag>, live: State, recovered: State)
    requires cfg.Valid() && h != []
    requires IsStateAfter(cfg, h, 1, live) && IsStateAfter(cfg, h, ReplayStart(cfg, |h|), recovered)
    ensures live == recovered
  {
    hide AreEntries, AreTotals, AreAllowedAfter, IsHistory, LastBoundary;
    ReplayCoversWindow(cfg, |h|);
    var start := ReplayStart(cfg, |h|);
    EntriesAreUnique(cfg, h, 1, start, live.entries, recovered.entries);
    TotalsAreUnique(cfg, live.entries, live.totals, recovered.totals);
    AllowedAfterAreUnique(cfg, h, 1, start, live.current.allowedLeaders, recovered.current.allowedLeaders);
  }

  lemma ReplayCoversWindow(cfg: Config, n: nat)
    requires cfg.Valid() && n > 0
    ensures var b, start := LastBoundary(cfg, n), ReplayStart(cfg, n);
            && b <= n && start <= n
            && OldestPending(start, n) == OldestPending(1, n)
            && OldestScoring(cfg, 1, n) == OldestScoring(cfg, start, n)
            && (start == 1 || (1 <= b && start <= b && OldestScoring(cfg, 1, b) == OldestScoring(cfg, start, b)))
  {
    MultipleBelow(n, cfg.interval);
  }

  /** Recovery from stored commits. */
  method FromStore(cfg: Config, h: seq<CommittedSubDag>) returns (schedule: LeaderScheduleV3)
    requires cfg.Valid() && IsHistory(cfg, h)
    ensures schedule.Valid() && schedule.cfg == cfg && schedule.history == h
    ensures schedule.first == if h == [] then 1 else ReplayStart(cfg, |h|)
    ensures forall live :: IsStateAfter(cfg, h, 1, live) && h != [] ==> schedule.Now() == live
  {
    hide IsStateAfter, LastBoundary;
    if h == [] {
      schedule := new LeaderScheduleV3(cfg, []);
      return;
    }
    ReplayCoversWindow(cfg, |h|);
    var start := ReplayStart(cfg, |h|);
    schedule := new LeaderScheduleV3(cfg, h[..start - 1]);
    for i := start - 1 to |h|
      invariant schedule.Valid() && fresh(schedule) && schedule.cfg == cfg && schedule.first == start
      invariant schedule.history == h[..i]
    {
      assert h[..i] + [h[i]] == h[..i + 1];
      schedule.AddCommit(h[i]);
    }
    assert h[..|h|] == h;
    forall live | IsStateAfter(cfg, h, 1, live)
      ensures schedule.Now() == live
    {
      RecoveryEqualsLive(cfg, h, live, schedule.Now());
    }
  }
}
