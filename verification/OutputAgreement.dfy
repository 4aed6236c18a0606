/** The whole pipeline of many validators: what one of them outputs under a commit index, with the transactions it
    rejects, every other one outputs as well. */
module OutputAgreement {
  import opened Committees
  import opened Blocks
  import opened Dags
  import opened CommitRule
  import opened UniversalCommitter
  import opened CommitRuns
  import opened BlockIndex
  import opened VoteTraversal
  import opened FinalizerState
  import opened FinalizerQueue
  import opened FinalizerLinks
  import opened FinalizerFates
  import opened FinalizerHistory
  import opened Linearizers
  import opened CommitPipeline
  import opened CommittedVotes
  import opened LeaderCertificates
  import opened VoteTrackers
  import opened OptimisticFinalization

  // ----- where the input of a finalizer comes from

  /** A point of a run at which a finalizer is called, with the blocks whose votes have been counted by then and the
      round up to which the counts have been dropped. */
  datatype Moment = Moment(time: nat, seen: set<Block>, gcRound: Round)

  /** The view from which the c-th commit is linearized. */
  ghost predicate IsLinearizedFrom(w: World, gcDepth: nat, leaders: seq<BlockRef>, c: nat, d: DagState)
    requires c < |leaders|
  {
    w.HasView(d) && leaders[c] in d.blocks && d.gcRound <= GcBefore(leaders, gcDepth, c)
  }

  /** The validator linearized the c-th commit, and has counted the votes in the view. */
  ghost predicate LinearizesAt(w: World, gcDepth: nat, run: seq<seq<Validator>>, p: nat, m: Moment,
                               leaders: seq<BlockRef>, c: nat, t: nat)
    requires c < |leaders|
  {
    && t <= m.time && t < |run| && p < |run[t]|
    && IsLinearizedFrom(w, gcDepth, leaders, c, run[t][p].dag) && IsCounted(run[t][p].dag, m.seen, m.gcRound)
  }

  ghost predicate IsLinearized(w: World, gcDepth: nat, run: seq<seq<Validator>>, p: nat, m: Moment,
                               leaders: seq<BlockRef>, c: nat)
    requires c < |leaders|
  {
    exists t: nat :: LinearizesAt(w, gcDepth, run, p, m, leaders, c, t)
  }

  /** The validator decided the leader on its own view, above the garbage collection round of its last commit, and has
      counted the votes in the view. */
  ghost predicate DecidesAt(w: World, e: Protocol, gcDepth: nat, run: seq<seq<Validator>>, p: nat, m: Moment,
                            leader: BlockRef, t: nat)
    requires e.Valid()
  {
    && t < m.time && t + 1 < |run| && p < |run[t]| && p < |run[t + 1]|
    && DecideLocally(w, e, run[t][p], run[t + 1][p])
    && |run[t][p].decided| <= |run[t + 1][p].decided|
    && LeaderStatus.Commit(leader) in run[t + 1][p].decided[|run[t][p].decided|..]
    && run[t][p].dag.gcRound <= GcRound(LastCommitted(run[t][p].decided), gcDepth)
    && IsCounted(run[t][p].dag, m.seen, m.gcRound)
  }

  ghost predicate IsDecidedLocally(w: World, e: Protocol, gcDepth: nat, run: seq<seq<Validator>>, p: nat, m: Moment,
                                   leader: BlockRef)
    requires e.Valid()
  {
    exists t: nat :: DecidesAt(w, e, gcDepth, run, p, m, leader, t)
  }

  /** All reject votes were read at some time since the call began. */
  ghost predicate AreReads(w: World, m: Moment, x: Rules) {
    && AreTrackedStakes(w.committee, m.seen, w.blocks.Values, m.gcRound, x.stakes)
    && AreTrackedStakes(w.committee, m.seen, w.blocks.Values, m.gcRound, x.late)
  }

  /** What the finalizer goes by: counted reject votes, and the commits of the leaders, each linearized by the
      validator, and marked as local only if it decided the leader on its own view. */
  ghost predicate GoesBy(w: World, e: Protocol, gcDepth: nat, run: seq<seq<Validator>>, p: nat, m: Moment,
                         leaders: seq<BlockRef>, x: Rules)
    requires e.Valid()
  {
    && x.committee == w.committee && x.gcDepth == gcDepth
    && AreReads(w, m, x)
    && AreCommits(w, gcDepth, leaders, x.received)
    && (forall c :: 0 <= c < |x.received| ==> IsLinearized(w, gcDepth, run, p, m, leaders, c))
    && (forall c :: 0 <= c < |x.received| && x.received[c].decidedWithLocalBlocks ==>
          IsDecidedLocally(w, e, gcDepth, run, p, m, leaders[c]))
  }

  ghost predicate IsInput(w: World, e: Protocol, gcDepth: nat, run: seq<seq<Validator>>, p: nat, m: Moment, x: Rules)
    requires e.Valid()
  {
    && m.time < |run| && p < |run[m.time]|
    && GoesBy(w, e, gcDepth, run, p, m, CommittedLeaders(run[m.time][p].decided), x)
    && forall c :: 0 <= c < |x.received| ==> x.received[c].rejectedTransactions == map[]
  }

  /** More leaders do not change what an earlier call went by. */
  lemma GoesByMore(w: World, e: Protocol, gcDepth: nat, run: seq<seq<Validator>>, p: nat, m: Moment,
                   leaders: seq<BlockRef>, leaders': seq<BlockRef>, x: Rules)
    requires e.Valid() && GoesBy(w, e, gcDepth, run, p, m, leaders, x) && leaders <= leaders' && AreLeaders(w, leaders')
    ensures GoesBy(w, e, gcDepth, run, p, m, leaders', x)
  {
    hide IsSubDag, IsDecidedLocally, AreReads, AreLeaders, World.HasView;
    forall c | 0 <= c < |x.received|
      ensures IsSubDag(w, gcDepth, leaders', c, x.received[c]) && IsLinearized(w, gcDepth, run, p, m, leaders', c)
      ensures leaders'[c] == leaders[c]
    {
      SubDagIsLocal(w, gcDepth, leaders, leaders', c, x.received[c]);
      assert IsLinearized(w, gcDepth, run, p, m, leaders, c);
      var t: nat :| LinearizesAt(w, gcDepth, run, p, m, leaders, c, t);
      assert GcBefore(leaders', gcDepth, c) == GcBefore(leaders, gcDepth, c);
      assert LinearizesAt(w, gcDepth, run, p, m, leaders', c, t);
    }
  }

  // ----- what the validator knows when it finalizes directly

  /** The view that backs a local decision backs it in every agreed sequence of decisions. */
  lemma DecisionIsBacked(w: World, e: Protocol, gcDepth: nat, run: seq<seq<Validator>>, p: nat, m: Moment,
                         decided: seq<LeaderStatus>, i: nat, t: nat)
    requires e.Valid() && IsRun(w, e, run) && Backed(w, e, decided) && i < |decided| && decided[i].Commit?
    requires DecidesAt(w, e, gcDepth, run, p, m, decided[i].block, t)
    ensures BackedBy(w, e, decided, i, run[t][p].dag, LastDecidable(run[t][p].dag))
    ensures |run[t][p].decided| <= i
  {
    hide World.Valid, World.HasView, IsRun, IsCounted, Backed, StatusAt, Outcome, LastCommitted, LastDecidable;
    var v, all := run[t][p], run[t + 1][p].decided;
    var k :| 0 <= k < |all[|v.decided|..]| && all[|v.decided|..][k] == LeaderStatus.Commit(decided[i].block);
    var n := |v.decided| + k;
    RunsAreBacked(w, e, run, t + 1);
    DecidedLeaderIsOfRound(w, e, all, n);
    DecidedLeaderIsOfRound(w, e, decided, i);
    assert n == i;
    LocalDecisionIsBacked(w, e, v, i);
    SamePrefix(w, e, all, decided, i);
  }

  lemma SamePrefix(w: World, e: Protocol, a: seq<LeaderStatus>, b: seq<LeaderStatus>, i: nat)
    requires e.Valid() && Backed(w, e, a) && Backed(w, e, b) && i < |a| && i < |b|
    ensures a[..i] == b[..i] && a[i] == b[i]
  {
    if |a| <= |b| {
      BackedAgree(w, e, a, b);
    } else {
      BackedAgree(w, e, b, a);
    }
  }

  /** Garbage collection rounds follow the leaders. */
  lemma GcRoundIsMonotone(a: Round, b: Round, gcDepth: nat)
    requires a <= b
    ensures GcRound(a, gcDepth) <= GcRound(b, gcDepth)
  {
  }

  lemma NothingRejected(w: World, m: Moment, x: Rules, d: DagState, b: BlockRef, t: nat)
    requires AreReads(w, m, x) && IsCounted(d, m.seen, m.gcRound)
    requires b in x.stakes && t !in x.stakes[b]
    ensures NoRejectSeen(d, b, t)
  {
    assert IsReadBetween(w.committee, m.seen, w.blocks.Values, b, x.stakes[b]);
    var seen :| m.seen <= seen <= w.blocks.Values && IsTrackedStake(w.committee, seen, b, x.stakes[b]);
    assert Rejecters(seen, b, t) == {};
    assert Rejecters(m.seen, b, t) <= Rejecters(seen, b, t);
    NoRejectStakeMeansNoReject(m.seen, m.gcRound, d, b, t);
  }

  /** The view at a local decision reaches below the block. */
  lemma LocalViewIsDeep(w: World, e: Protocol, gcDepth: nat, run: seq<seq<Validator>>, p: nat, m: Moment,
                        leader: BlockRef, t: nat, i: nat, b: BlockRef)
    requires e.Valid() && DecidesAt(w, e, gcDepth, run, p, m, leader, t) && |run[t][p].decided| <= i == leader.round - 1
    requires b.round > GcRound(leader.round + INDIRECT_REJECT_DEPTH, gcDepth)
    ensures run[t][p].dag.gcRound < b.round && IsCounted(run[t][p].dag, m.seen, m.gcRound)
  {
    hide IsCounted, DecideLocally, LastCommitted;
    GcRoundIsMonotone(LastCommitted(run[t][p].decided), leader.round + INDIRECT_REJECT_DEPTH, gcDepth);
  }

  /** The view from which a commit up to the first one a wave later is linearized reaches below the block. */
  lemma LinearizedViewIsDeep(w: World, gcDepth: nat, leaders: seq<BlockRef>, c: nat, n: nat, d: DagState, b: BlockRef)
    requires AreLeaders(w, leaders) && IsFirstWaveAfter(leaders, c, n) && IsLinearizedFrom(w, gcDepth, leaders, n, d)
    requires b.round > GcRound(leaders[c].round + INDIRECT_REJECT_DEPTH, gcDepth)
    ensures d.gcRound < b.round && b.round > GcBefore(leaders, gcDepth, n)
  {
    GcRoundIsMonotone(leaders[n - 1].round, leaders[c].round + INDIRECT_REJECT_DEPTH, gcDepth);
  }

  lemma {:induction false} WaveEndsIn(w: World, leaders: seq<BlockRef>, c: nat, last: nat) returns (n: nat)
    requires AreLeaders(w, leaders) && c < last < |leaders| && leaders[last].round >= leaders[c].round + WAVE_LENGTH
    ensures n <= last && IsFirstWaveAfter(leaders, c, n)
    decreases last
  {
    if leaders[last - 1].round >= leaders[c].round + WAVE_LENGTH {
      n := WaveEndsIn(w, leaders, c, last - 1);
    } else {
      n := last;
    }
  }

  /** The block is in the history of its leader. */
  lemma BlockIsBelowLeader(w: World, gcDepth: nat, leaders: seq<BlockRef>, c: nat, b: BlockRef)
    requires c < |leaders| && InSubDag(w, gcDepth, leaders, c, b)
    ensures b.round <= leaders[c].round
  {
    ReachesDescends(w.blocks, leaders[c], b);
  }

  /** Rounds of committed leaders in the sequence of decisions. */
  lemma LeaderRound(w: World, e: Protocol, decided: seq<LeaderStatus>, c: nat) returns (i: nat)
    requires e.Valid() && Backed(w, e, decided) && c < |CommittedLeaders(decided)|
    ensures i < |decided| && decided[i] == LeaderStatus.Commit(CommittedLeaders(decided)[c])
    ensures CommittedLeaders(decided)[c].round == i + 1
  {
    hide Backed, CommittedLeaders;
    i := CommittedAt(decided, c);
    DecidedLeaderIsOfRound(w, e, decided, i);
  }

  /** A validator that decided the commit on its own view: the view holds a certificate, and knows it below the leader
      that is committed next, at least a wave later. */
  lemma LocalFinalizerKnows(w: World, e: Protocol, gcDepth: nat, run: seq<seq<Validator>>, decided: seq<LeaderStatus>,
                            p: nat, m: Moment, x: Rules, c: nat, b: BlockRef, t: nat)
    returns (d: DagState, k: BlockRef, high: Round)
    requires w.Valid() && e.Valid() && IsRun(w, e, run) && Backed(w, e, decided)
    requires c < |x.received| <= |CommittedLeaders(decided)|
    requires GoesBy(w, e, gcDepth, run, p, m, CommittedLeaders(decided), x)
    requires InSubDag(w, gcDepth, CommittedLeaders(decided), c, b)
    requires MayFinalizeDirectly(x, x.received[c], b, t) && x.received[c].decidedWithLocalBlocks
    ensures IsOptimistic(w, gcDepth, CommittedLeaders(decided), c, d, k, k, b, t)
    ensures var i := CommittedLeaders(decided)[c].round - 1;
            0 <= i < |decided| && decided[i].Commit? && BackedBy(w, e, decided, i, d, high)
  {
    hide World.Valid, IsRun, Backed, CommittedLeaders, StatusAt, InSubDag, Certifies, AreReads, IsLinearized,
         IsSubDag, AreLeaders, NoRejectSeen, DecidesAt;
    var leaders := CommittedLeaders(decided);
    var i := LeaderRound(w, e, decided, c);
    assert IsDecidedLocally(w, e, gcDepth, run, p, m, leaders[c]);
    var s: nat :| DecidesAt(w, e, gcDepth, run, p, m, leaders[c], s);
    InBounds(w, e, gcDepth, run, p, m, leaders[c], s);
    DecisionIsBacked(w, e, gcDepth, run, p, m, decided, i, s);
    d, high := run[s][p].dag, LastDecidable(run[s][p].dag);
    assert x.received[c].leader == leaders[c] by {
      LeaderOf(w, gcDepth, leaders, x.received, c);
    }
    LocalViewIsDeep(w, e, gcDepth, run, p, m, leaders[c], s, i, b);
    NothingRejected(w, m, x, d, b, t);
    k := LocalCommitIsCertified(w, e, decided, i, d, high);
    ReachesItself(w, k);
  }

  lemma InBounds(w: World, e: Protocol, gcDepth: nat, run: seq<seq<Validator>>, p: nat, m: Moment, leader: BlockRef,
                 t: nat)
    requires e.Valid() && DecidesAt(w, e, gcDepth, run, p, m, leader, t)
    ensures t < |run| && p < |run[t]|
  {
  }

  lemma LeaderOf(w: World, gcDepth: nat, leaders: seq<BlockRef>, commits: seq<CommittedSubDag>, c: nat)
    requires AreCommits(w, gcDepth, leaders, commits) && c < |commits|
    ensures commits[c].leader == leaders[c] && commits[c].index == c + 1
    ensures forall r :: r in Refs(commits[c].blocks) <==> InSubDag(w, gcDepth, leaders, c, r)
  {
    hide InSubDag, InOrder, SortedBySlot;
    assert IsSubDag(w, gcDepth, leaders, c, commits[c]);
  }

  /** A validator that waited for a leader a wave later: the view from which that leader was linearized knows enough. */
  lemma RemoteFinalizerKnows(w: World, e: Protocol, gcDepth: nat, run: seq<seq<Validator>>, decided: seq<LeaderStatus>,
                             p: nat, m: Moment, x: Rules, c: nat, b: BlockRef, t: nat)
    returns (n: nat, d: DagState, k: BlockRef)
    requires w.Valid() && e.Valid() && IsRun(w, e, run) && Backed(w, e, decided)
    requires c < |x.received| <= |CommittedLeaders(decided)|
    requires GoesBy(w, e, gcDepth, run, p, m, CommittedLeaders(decided), x)
    requires InSubDag(w, gcDepth, CommittedLeaders(decided), c, b)
    requires MayFinalizeDirectly(x, x.received[c], b, t) && !x.received[c].decidedWithLocalBlocks
    ensures IsFirstWaveAfter(CommittedLeaders(decided), c, n)
    ensures IsOptimistic(w, gcDepth, CommittedLeaders(decided), c, d, CommittedLeaders(decided)[n], k, b, t)
  {
    hide World.Valid, IsRun, Backed, CommittedLeaders, StatusAt, InSubDag, Certifies, AreReads,
         IsSubDag, NoRejectSeen, IsCounted, IsDecidedLocally, World.HasView, Reaches;
    var leaders, last := CommittedLeaders(decided), |x.received| - 1;
    LeaderOf(w, gcDepth, leaders, x.received, c);
    LeaderOf(w, gcDepth, leaders, x.received, last);
    n := WaveEndsIn(w, leaders, c, last);
    assert IsLinearized(w, gcDepth, run, p, m, leaders, n);
    var s: nat :| LinearizesAt(w, gcDepth, run, p, m, leaders, n, s);
    d := run[s][p].dag;
    LinearizedViewIsDeep(w, gcDepth, leaders, c, n, d, b);
    BlockIsBelowLeader(w, gcDepth, leaders, c, b);
    NothingRejected(w, m, x, d, b, t);
    var i := LeaderRound(w, e, decided, c);
    var j := LeaderRound(w, e, decided, n);
    k := RemoteCommitIsKnown(w, e, decided, i, j, d);
  }

  // ----- reasons do not clash

  /** Without a quorum of rejects in the world there is none in counted stakes. */
  lemma NoQuorumIsCounted(w: World, m: Moment, x: Rules, b: BlockRef, t: nat)
    requires x.committee == w.committee && AreReads(w, m, x)
    requires !w.committee.IsQuorum(Rejecters(w.blocks.Values, b, t))
    ensures !(b in x.stakes && IsRejectedByQuorum(x.committee, x.stakes, b, t))
    ensures !(b in x.late && IsRejectedByQuorum(x.committee, x.late, b, t))
  {
    hide IsReadBetween;
    if b in x.stakes {
      NoQuorumIsRead(w, m, b, t, x.stakes[b]);
    }
    if b in x.late {
      NoQuorumIsRead(w, m, b, t, x.late[b]);
    }
  }

  lemma NoQuorumIsRead(w: World, m: Moment, b: BlockRef, t: nat, stakes: map<nat, nat>)
    requires IsReadBetween(w.committee, m.seen, w.blocks.Values, b, stakes)
    requires !w.committee.IsQuorum(Rejecters(w.blocks.Values, b, t))
    ensures t in stakes ==> stakes[t] < w.committee.quorumThreshold
  {
    var seen :| m.seen <= seen <= w.blocks.Values && IsTrackedStake(w.committee, seen, b, stakes);
    StakeMonotone(w.committee, Rejecters(seen, b, t), Rejecters(w.blocks.Values, b, t));
  }

  /** A buffer in which votes on a block of the c-th commit are counted holds the commits from the c-th on. */
  lemma CountsInBuffer(w: World, gcDepth: nat, leaders: seq<BlockRef>, x: Rules, c: nat, b: BlockRef, k: nat,
                       queue: Queue, blocks: BlockMap)
    requires AreCommits(w, gcDepth, leaders, x.received) && x.committee == w.committee && x.gcDepth == gcDepth
    requires c < |x.received|
    requires CanCount(x, x.received[c], b, k, queue, blocks)
    ensures Query(w.committee, blocks, GcRounds(queue, gcDepth), b).Valid()
    ensures queue != [] && c + |queue| <= |x.received|
    ensures forall i :: c <= i < c + |queue| ==> IsBuffer(w, gcDepth, leaders, x.received, c, i, queue, blocks)
    ensures forall i :: c <= i < c + |queue| - 1 ==> leaders[i].round < leaders[c].round + WAVE_LENGTH
    ensures IsExpired(queue) ==> IsFirstWaveAfter(leaders, c, c + |queue| - 1)
  {
    hide InSubDag, InOrder, SortedBySlot, DistinctRefs, Query.Valid, GcRounds, Mapped, Linked, Sequenced;
    LeaderOf(w, gcDepth, leaders, x.received, c);
    LeaderOf(w, gcDepth, leaders, x.received, k);
    assert k == c;
    forall i | 0 <= i < |queue|
      ensures queue[i].commit.leader == leaders[c + i]
    {
      LeaderOf(w, gcDepth, leaders, x.received, c + i);
    }
    forall i | c <= i < c + |queue| - 1
      ensures leaders[i].round < leaders[c].round + WAVE_LENGTH
    {
      assert queue[i - c].commit.leader.round < queue[0].commit.leader.round + INDIRECT_REJECT_DEPTH;
    }
    if IsExpired(queue) {
      FirstWave(w, leaders, c, |queue|);
    }
  }

  lemma FirstWave(w: World, leaders: seq<BlockRef>, c: nat, n: nat)
    requires AreLeaders(w, leaders) && 0 < n && c + n <= |leaders|
    requires leaders[c + n - 1].round >= leaders[c].round + WAVE_LENGTH
    requires forall i :: c <= i < c + n - 1 ==> leaders[i].round < leaders[c].round + WAVE_LENGTH
    ensures IsFirstWaveAfter(leaders, c, c + n - 1)
  {
  }

  lemma FirstWaveIsUnique(leaders: seq<BlockRef>, c: nat, m: nat, n: nat)
    requires IsFirstWaveAfter(leaders, c, m) && IsFirstWaveAfter(leaders, c, n)
    ensures m == n
  {
  }

  /** When one validator may finalize directly, no other has counted enough to reject. */
  lemma DirectNeverRejectedByQuorum(w: World, e: Protocol, gcDepth: nat, run: seq<seq<Validator>>,
                                    decided: seq<LeaderStatus>, p: nat, m: Moment, x: Rules, c: nat, b: BlockRef,
                                    t: nat)
    requires w.Valid() && HonestVoting(w) && e.Valid() && IsRun(w, e, run) && Backed(w, e, decided)
    requires c < |x.received| <= |CommittedLeaders(decided)|
    requires GoesBy(w, e, gcDepth, run, p, m, CommittedLeaders(decided), x)
    requires InSubDag(w, gcDepth, CommittedLeaders(decided), c, b) && MayFinalizeDirectly(x, x.received[c], b, t)
    ensures !w.committee.IsQuorum(Rejecters(w.blocks.Values, b, t))
  {
    hide World.Valid, HonestVoting, IsRun, Backed, CommittedLeaders, GoesBy, InSubDag, MayFinalizeDirectly,
         IsOptimistic, Rejecters, StatusAt, World.HasView;
    var leaders := CommittedLeaders(decided);
    if x.received[c].decidedWithLocalBlocks {
      var d, k, high := LocalFinalizerKnows(w, e, gcDepth, run, decided, p, m, x, c, b, t);
      NeverRejectedByQuorum(w, gcDepth, leaders, c, d, k, k, b, t);
    } else {
      var n, d, k := RemoteFinalizerKnows(w, e, gcDepth, run, decided, p, m, x, c, b, t);
      NeverRejectedByQuorum(w, gcDepth, leaders, c, d, leaders[n], k, b, t);
    }
  }

  /** Nor does any other miss the accepts when a wave has passed: some view knows enough at that point. */
  lemma DirectKnowsNextWave(w: World, e: Protocol, gcDepth: nat, run: seq<seq<Validator>>, decided: seq<LeaderStatus>,
                            p: nat, m: Moment, x: Rules, c: nat, b: BlockRef, t: nat, n: nat, d': DagState)
    returns (d: DagState, k: BlockRef)
    requires w.Valid() && e.Valid() && IsRun(w, e, run) && Backed(w, e, decided)
    requires c < |x.received| <= |CommittedLeaders(decided)|
    requires GoesBy(w, e, gcDepth, run, p, m, CommittedLeaders(decided), x)
    requires InSubDag(w, gcDepth, CommittedLeaders(decided), c, b) && MayFinalizeDirectly(x, x.received[c], b, t)
    requires IsFirstWaveAfter(CommittedLeaders(decided), c, n)
    requires IsLinearizedFrom(w, gcDepth, CommittedLeaders(decided), n, d')
    ensures IsOptimistic(w, gcDepth, CommittedLeaders(decided), c, d, CommittedLeaders(decided)[n], k, b, t)
    ensures IsVotedOn(w, gcDepth, CommittedLeaders(decided), c, n, b)
  {
    hide World.Valid, IsRun, Backed, CommittedLeaders, InSubDag, StatusAt, World.HasView, NoRejectSeen, IsSubDag,
         IsLinearized, IsDecidedLocally, AreReads, Reaches, Certifies;
    var leaders := CommittedLeaders(decided);
    LeaderOf(w, gcDepth, leaders, x.received, c);
    LinearizedViewIsDeep(w, gcDepth, leaders, c, n, d', b);
    BlockIsBelowLeader(w, gcDepth, leaders, c, b);
    if x.received[c].decidedWithLocalBlocks {
      var k0, high;
      d, k0, high := LocalFinalizerKnows(w, e, gcDepth, run, decided, p, m, x, c, b, t);
      var i := LeaderRound(w, e, decided, c);
      var j := LeaderRound(w, e, decided, n);
      k := LocalCommitIsKnown(w, e, decided, i, j, d, high, d');
    } else {
      var n';
      n', d, k := RemoteFinalizerKnows(w, e, gcDepth, run, decided, p, m, x, c, b, t);
      FirstWaveIsUnique(leaders, c, n, n');
    }
  }

  /** What one validator may finalize, directly or by a quorum of accepts, no validator may reject, neither by a quorum
      of rejects nor for lack of accepts. */
  lemma DecisionsDoNotClash(w: World, e: Protocol, gcDepth: nat, run: seq<seq<Validator>>, decided: seq<LeaderStatus>,
                            p1: nat, m1: Moment, x1: Rules, p2: nat, m2: Moment, x2: Rules, c: nat, b: BlockRef, t: nat)
    requires w.Valid() && HonestVoting(w) && e.Valid() && IsRun(w, e, run) && Backed(w, e, decided)
    requires c < |x1.received| <= |CommittedLeaders(decided)|
    requires GoesBy(w, e, gcDepth, run, p1, m1, CommittedLeaders(decided), x1)
    requires c < |x2.received| <= |CommittedLeaders(decided)|
    requires GoesBy(w, e, gcDepth, run, p2, m2, CommittedLeaders(decided), x2)
    requires InSubDag(w, gcDepth, CommittedLeaders(decided), c, b)
    requires MayFinalize(x1, x1.received[c], b, t)
    ensures !MayReject(x2, x2.received[c], b, t)
  {
    hide World.Valid, HonestVoting, IsRun, Backed, CommittedLeaders, GoesBy, InSubDag, MayFinalizeDirectly, Rejecters,
         IsRejectedByQuorum, CanCount, Query.IsAccepted, IsMissedIn;
    var leaders := CommittedLeaders(decided);
    Basics(w, e, gcDepth, run, p1, m1, leaders, x1);
    Basics(w, e, gcDepth, run, p2, m2, leaders, x2);
    if MayFinalizeDirectly(x1, x1.received[c], b, t) {
      DirectNeverRejectedByQuorum(w, e, gcDepth, run, decided, p1, m1, x1, c, b, t);
      forall k2, queue2, blocks2
        ensures !IsMissedIn(x2, x2.received[c], b, t, k2, queue2, blocks2)
      {
        DirectIsNotMissed(w, e, gcDepth, run, decided, p1, m1, x1, p2, m2, x2, c, b, t, k2, queue2, blocks2);
      }
    } else {
      var k1, queue1, blocks1 :| IsAcceptedIn(x1, x1.received[c], b, t, k1, queue1, blocks1);
      CountsInBuffer(w, gcDepth, leaders, x1, c, b, k1, queue1, blocks1);
      AcceptedIsNotRejectedByQuorum(w, gcDepth, leaders, x1.received, c, queue1, blocks1, b, t);
      forall k2, queue2, blocks2
        ensures !IsMissedIn(x2, x2.received[c], b, t, k2, queue2, blocks2)
      {
        AcceptedIsNotMissed(w, gcDepth, leaders, x1, x2, c, b, t, k1, queue1, blocks1, k2, queue2, blocks2);
      }
    }
    NoQuorumIsCounted(w, m2, x2, b, t);
  }

  lemma Basics(w: World, e: Protocol, gcDepth: nat, run: seq<seq<Validator>>, p: nat, m: Moment, leaders: seq<BlockRef>,
               x: Rules)
    requires e.Valid() && GoesBy(w, e, gcDepth, run, p, m, leaders, x)
    ensures x.committee == w.committee && x.gcDepth == gcDepth && AreCommits(w, gcDepth, leaders, x.received)
    ensures AreReads(w, m, x)
    ensures forall c :: 0 <= c < |x.received| ==> IsLinearized(w, gcDepth, run, p, m, leaders, c)
  {
  }

  lemma DirectIsNotMissed(w: World, e: Protocol, gcDepth: nat, run: seq<seq<Validator>>, decided: seq<LeaderStatus>,
                          p1: nat, m1: Moment, x1: Rules, p2: nat, m2: Moment, x2: Rules, c: nat, b: BlockRef, t: nat,
                          k2: nat, queue2: Queue, blocks2: BlockMap)
    requires w.Valid() && e.Valid() && IsRun(w, e, run) && Backed(w, e, decided)
    requires c < |x1.received| <= |CommittedLeaders(decided)|
    requires GoesBy(w, e, gcDepth, run, p1, m1, CommittedLeaders(decided), x1)
    requires c < |x2.received| <= |CommittedLeaders(decided)|
    requires GoesBy(w, e, gcDepth, run, p2, m2, CommittedLeaders(decided), x2)
    requires InSubDag(w, gcDepth, CommittedLeaders(decided), c, b) && MayFinalizeDirectly(x1, x1.received[c], b, t)
    ensures !IsMissedIn(x2, x2.received[c], b, t, k2, queue2, blocks2)
  {
    hide World.Valid, IsRun, Backed, CommittedLeaders, GoesBy, InSubDag, MayFinalizeDirectly, CanCount,
         Query.IsAccepted, IsOptimistic, IsVotedOn, IsBuffer, Query.Valid, GcRounds, IsExpired, IsCounted,
         World.HasView;
    var leaders := CommittedLeaders(decided);
    Basics(w, e, gcDepth, run, p2, m2, leaders, x2);
    if IsMissedIn(x2, x2.received[c], b, t, k2, queue2, blocks2) {
      CountsInBuffer(w, gcDepth, leaders, x2, c, b, k2, queue2, blocks2);
      var n := c + |queue2| - 1;
      assert IsLinearized(w, gcDepth, run, p2, m2, leaders, n);
      var s: nat :| LinearizesAt(w, gcDepth, run, p2, m2, leaders, n, s);
      var d, k := DirectKnowsNextWave(w, e, gcDepth, run, decided, p1, m1, x1, c, b, t, n, run[s][p2].dag);
      OptimisticFinalizationIsSafe(w, gcDepth, leaders, x2.received, c, n, d, k, b, t, queue2, blocks2);
    }
  }

  lemma AcceptedIsNotMissed(w: World, gcDepth: nat, leaders: seq<BlockRef>, x1: Rules, x2: Rules, c: nat, b: BlockRef,
                            t: nat, k1: nat, queue1: Queue, blocks1: BlockMap, k2: nat, queue2: Queue,
                            blocks2: BlockMap)
    requires w.Valid() && x1.committee == x2.committee == w.committee && x1.gcDepth == x2.gcDepth == gcDepth
    requires AreCommits(w, gcDepth, leaders, x1.received) && AreCommits(w, gcDepth, leaders, x2.received)
    requires c < |x1.received| && c < |x2.received| && InSubDag(w, gcDepth, leaders, c, b)
    requires IsAcceptedIn(x1, x1.received[c], b, t, k1, queue1, blocks1)
    ensures !IsMissedIn(x2, x2.received[c], b, t, k2, queue2, blocks2)
  {
    hide World.Valid, AreCommits, InSubDag, CanCount, Query.IsAccepted, IsBuffer, Query.Valid, GcRounds, IsExpired;
    if IsMissedIn(x2, x2.received[c], b, t, k2, queue2, blocks2) {
      CountsInBuffer(w, gcDepth, leaders, x1, c, b, k1, queue1, blocks1);
      CountsInBuffer(w, gcDepth, leaders, x2, c, b, k2, queue2, blocks2);
      AcceptanceCarriesOver(w, gcDepth, leaders, c, b, t, x1.received, queue1, blocks1, x2.received, queue2, blocks2);
    }
  }

  // ----- the output of all validators

  /** The calls of a validator's finalizer since the first commit, each with its input from the run. */
  ghost predicate IsHistoryOf(w: World, e: Protocol, gcDepth: nat, run: seq<seq<Validator>>, p: nat, calls: seq<Call>,
                              moments: seq<Moment>)
    requires e.Valid()
  {
    && IsHistory(gcDepth, calls) && |moments| == |calls|
    && forall n :: 0 <= n < |calls| ==> IsInput(w, e, gcDepth, run, p, moments[n], calls[n].rules)
  }

  /** Two sequences of decisions of a run have a common extension. */
  lemma CommonDecisions(w: World, e: Protocol, run: seq<seq<Validator>>, t1: nat, p1: nat, t2: nat, p2: nat)
    returns (decided: seq<LeaderStatus>)
    requires e.Valid() && IsRun(w, e, run) && t1 < |run| && p1 < |run[t1]| && t2 < |run| && p2 < |run[t2]|
    ensures Backed(w, e, decided) && AreLeaders(w, CommittedLeaders(decided))
    ensures CommittedLeaders(run[t1][p1].decided) <= CommittedLeaders(decided)
    ensures CommittedLeaders(run[t2][p2].decided) <= CommittedLeaders(decided)
  {
    hide IsRun, Backed, AreLeaders, CommittedLeaders;
    RunsAreBacked(w, e, run, t1);
    RunsAreBacked(w, e, run, t2);
    RunsAreConsistent(w, e, run, t1, p1, t2, p2);
    var a, b := run[t1][p1].decided, run[t2][p2].decided;
    if a <= b {
      decided := b;
      assert b[..|a|] == a;
      CommittedLeadersGrow(b, |a|);
    } else {
      decided := a;
      assert a[..|b|] == b;
      CommittedLeadersGrow(a, |b|);
    }
    CommittedLeadersAreLeaders(w, e, decided);
  }

  /** Two calls of two finalizers agree about the commits both have received, and never give reasons to finalize and to
      reject the same transaction. */
  lemma CallsAgree(w: World, e: Protocol, gcDepth: nat, run: seq<seq<Validator>>, p1: nat, m1: Moment, x1: Rules,
                   p2: nat, m2: Moment, x2: Rules, c: nat)
    requires w.Valid() && HonestVoting(w) && e.Valid() && IsRun(w, e, run)
    requires IsInput(w, e, gcDepth, run, p1, m1, x1) && IsInput(w, e, gcDepth, run, p2, m2, x2)
    requires c < |x1.received| && c < |x2.received|
    ensures var one, other := x1.received[c], x2.received[c];
            one.index == other.index && one.leader == other.leader && one.blocks == other.blocks
    ensures forall b, t :: b in NumTransactions(x1.received[c].blocks) && MayFinalize(x1, x1.received[c], b, t) ==>
              !MayReject(x2, x2.received[c], b, t)
  {
    hide World.Valid, HonestVoting, IsRun, Backed, CommittedLeaders, GoesBy, MayFinalize, MayReject, InSubDag,
         AreLeaders, IsSubDag;
    var decided := CommonDecisions(w, e, run, m1.time, p1, m2.time, p2);
    var leaders := CommittedLeaders(decided);
    GoesByMore(w, e, gcDepth, run, p1, m1, CommittedLeaders(run[m1.time][p1].decided), leaders, x1);
    GoesByMore(w, e, gcDepth, run, p2, m2, CommittedLeaders(run[m2.time][p2].decided), leaders, x2);
    Basics(w, e, gcDepth, run, p1, m1, leaders, x1);
    Basics(w, e, gcDepth, run, p2, m2, leaders, x2);
    SubDagsAgree(w, gcDepth, leaders, c, x1.received[c], x2.received[c]);
    LeaderOf(w, gcDepth, leaders, x1.received, c);
    forall b, t | b in NumTransactions(x1.received[c].blocks) && MayFinalize(x1, x1.received[c], b, t)
      ensures !MayReject(x2, x2.received[c], b, t)
    {
      NumTransactionsKeys(x1.received[c].blocks);
      DecisionsDoNotClash(w, e, gcDepth, run, decided, p1, m1, x1, p2, m2, x2, c, b, t);
    }
  }

  lemma {:induction false} OnePerCall(gcDepth: nat, calls: seq<Call>)
    requires IsHistory(gcDepth, calls)
    ensures |Received(calls)| == |calls|
  {
    hide IsCall;
    if calls == [] {
    } else {
      OnePerCall(gcDepth, calls[..|calls| - 1]);
    }
  }

  /** All calls of a history work on the same commits. */
  lemma {:induction false} ReceivedGrows(gcDepth: nat, calls: seq<Call>, n: nat)
    requires IsHistory(gcDepth, calls) && n < |calls|
    ensures calls[n].rules.received <= Received(calls) && |calls[n].rules.received| == n + 1
  {
    hide IsCall;
    var last := |calls| - 1;
    OnePerCall(gcDepth, calls);
    if n == last {
    } else {
      ReceivedGrows(gcDepth, calls[..last], n);
    }
  }

  /** The i-th output commit is the i-th received one, with a reason for each transaction from a call that had
      received it. */
  lemma OutputHasReasons(w: World, e: Protocol, gcDepth: nat, run: seq<seq<Validator>>, p: nat, calls: seq<Call>,
                         moments: seq<Moment>, i: nat)
    returns (commit: CommittedSubDag)
    requires e.Valid() && IsHistoryOf(w, e, gcDepth, run, p, calls, moments) && i < |Output(calls)|
    ensures commit.index == i + 1 && IsExplainedOutput(gcDepth, calls, commit, Output(calls)[i])
    ensures commit.rejectedTransactions == map[]
    ensures i < |calls| && i < |calls[i].rules.received| && calls[i].rules.received[i] == commit
    ensures forall n :: 0 <= n < |calls| && commit in calls[n].rules.received ==>
              i < |calls[n].rules.received| && calls[n].rules.received[i] == commit
  {
    hide IsExplainedOutput, Output, Received, IsHistory, GoesBy;
    HistoryIsExplained(gcDepth, calls);
    OnePerCall(gcDepth, calls);
    commit := Received(calls)[i];
    ReceivedGrows(gcDepth, calls, i);
    assert IsInput(w, e, gcDepth, run, p, moments[i], calls[i].rules);
    InputIsNumbered(w, e, gcDepth, run, p, moments[i], calls[i].rules, i);
    forall n | 0 <= n < |calls| && commit in calls[n].rules.received
      ensures i < |calls[n].rules.received| && calls[n].rules.received[i] == commit
    {
      var k :| 0 <= k < |calls[n].rules.received| && calls[n].rules.received[k] == commit;
      assert IsInput(w, e, gcDepth, run, p, moments[n], calls[n].rules);
      InputIsNumbered(w, e, gcDepth, run, p, moments[n], calls[n].rules, k);
    }
  }

  lemma InputIsNumbered(w: World, e: Protocol, gcDepth: nat, run: seq<seq<Validator>>, p: nat, m: Moment, x: Rules,
                        c: nat)
    requires e.Valid() && IsInput(w, e, gcDepth, run, p, m, x) && c < |x.received|
    ensures x.received[c].index == c + 1
  {
    LeaderOf(w, gcDepth, CommittedLeaders(run[m.time][p].decided), x.received, c);
  }

  /** The block has transactions, or all votes on it are at hand. */
  ghost predicate IsCovered(gcDepth: nat, commit: CommittedSubDag, r: BlockRef) {
    r in NumTransactions(commit.blocks) ==>
      NumTransactions(commit.blocks)[r] > 0 || r.round > VoteGcRound(gcDepth, commit)
  }

  lemma LookedAtIsDecidable(gcDepth: nat, one: CommittedSubDag, other: CommittedSubDag, r: BlockRef, t: nat)
    requires one.leader == other.leader && one.blocks == other.blocks && IsCovered(gcDepth, one, r)
    requires IsLookedAt(gcDepth, other, r, t)
    ensures IsDecidable(gcDepth, one, r, t) && r in NumTransactions(one.blocks)
  {
  }

  /** A transaction that one validator rejects is rejected by every other one that outputs the commit. */
  lemma RejectedByAll(w: World, e: Protocol, gcDepth: nat, run: seq<seq<Validator>>, p1: nat, calls1: seq<Call>,
                      moments1: seq<Moment>, p2: nat, calls2: seq<Call>, moments2: seq<Moment>, i: nat, b: BlockRef,
                      t: nat)
    requires w.Valid() && HonestVoting(w) && e.Valid() && IsRun(w, e, run)
    requires IsHistoryOf(w, e, gcDepth, run, p1, calls1, moments1)
    requires IsHistoryOf(w, e, gcDepth, run, p2, calls2, moments2)
    requires i < |Output(calls1)| && i < |Output(calls2)|
    requires IsCovered(gcDepth, Output(calls1)[i], b) && Has(Output(calls2)[i].rejectedTransactions, b, t)
    ensures Has(Output(calls1)[i].rejectedTransactions, b, t)
  {
    hide World.Valid, HonestVoting, IsRun, IsHistory, Output, IsInput, MayFinalize, MayReject, Has, IsLookedAt,
         IsDecidable, NoEmptyEntry, NumTransactions;
    var one := OutputHasReasons(w, e, gcDepth, run, p1, calls1, moments1, i);
    var other := OutputHasReasons(w, e, gcDepth, run, p2, calls2, moments2, i);
    CallsAgree(w, e, gcDepth, run, p1, moments1[i], calls1[i].rules, p2, moments2[i], calls2[i].rules, i);
    assert IsLookedAt(gcDepth, other, b, t) && HadReasonToReject(calls2, other, b, t);
    LookedAtIsDecidable(gcDepth, one, other, b, t);
    if !Has(Output(calls1)[i].rejectedTransactions, b, t) {
      assert HadReasonToFinalize(calls1, one, b, t);
      var n1 :| 0 <= n1 < |calls1| && one in calls1[n1].rules.received && MayFinalize(calls1[n1].rules, one, b, t);
      var n2 :| 0 <= n2 < |calls2| && other in calls2[n2].rules.received && MayReject(calls2[n2].rules, other, b, t);
      CallsAgree(w, e, gcDepth, run, p1, moments1[n1], calls1[n1].rules, p2, moments2[n2], calls2[n2].rules, i);
      assert false;
    }
  }

  lemma SameRejects(one: Transactions, other: Transactions)
    requires NoEmptyEntry(one) && NoEmptyEntry(other) && forall r, t :: Has(one, r, t) <==> Has(other, r, t)
    ensures one == other
  {
    forall r
      ensures r in one <==> r in other
      ensures r in one ==> one[r] == other[r]
    {
      if r in one {
        var t :| t in one[r];
        assert Has(one, r, t);
      }
      if r in other {
        var t :| t in other[r];
        assert Has(other, r, t);
      }
      if r in one && r in other {
        forall t
          ensures t in one[r] <==> t in other[r]
        {
          assert Has(one, r, t) <==> Has(other, r, t);
        }
      }
    }
  }

  /** Every two validators output the same commits: under the same index the same leader, the same blocks in the same
      order, and the same rejected transactions. */
  lemma ValidatorsOutputTheSame(w: World, e: Protocol, gcDepth: nat, run: seq<seq<Validator>>, p1: nat,
                                calls1: seq<Call>, moments1: seq<Moment>, p2: nat, calls2: seq<Call>,
                                moments2: seq<Moment>, i: nat)
    requires w.Valid() && HonestVoting(w) && e.Valid() && IsRun(w, e, run)
    requires IsHistoryOf(w, e, gcDepth, run, p1, calls1, moments1)
    requires IsHistoryOf(w, e, gcDepth, run, p2, calls2, moments2)
    requires i < |Output(calls1)| && i < |Output(calls2)|
    ensures var one, other := Output(calls1)[i], Output(calls2)[i];
            && one.index == other.index == i + 1 && one.leader == other.leader && one.blocks == other.blocks
            && (forall b, t :: IsCovered(gcDepth, one, b) ==>
                  (Has(one.rejectedTransactions, b, t) <==> Has(other.rejectedTransactions, b, t)))
            && ((forall b :: IsCovered(gcDepth, one, b)) ==> one.rejectedTransactions == other.rejectedTransactions)
  {
    hide World.Valid, HonestVoting, IsRun, IsHistory, Output, IsInput, Has, MayFinalize, MayReject, IsLookedAt,
         IsDecidable, NoEmptyEntry, NumTransactions;
    var one := OutputHasReasons(w, e, gcDepth, run, p1, calls1, moments1, i);
    var other := OutputHasReasons(w, e, gcDepth, run, p2, calls2, moments2, i);
    CallsAgree(w, e, gcDepth, run, p1, moments1[i], calls1[i].rules, p2, moments2[i], calls2[i].rules, i);
    var out1, out2 := Output(calls1)[i], Output(calls2)[i];
    forall b, t | IsCovered(gcDepth, out1, b)
      ensures Has(out1.rejectedTransactions, b, t) <==> Has(out2.rejectedTransactions, b, t)
    {
      if Has(out2.rejectedTransactions, b, t) {
        RejectedByAll(w, e, gcDepth, run, p1, calls1, moments1, p2, calls2, moments2, i, b, t);
      }
      if Has(out1.rejectedTransactions, b, t) {
        RejectedByAll(w, e, gcDepth, run, p2, calls2, moments2, p1, calls1, moments1, i, b, t);
      }
    }
    if forall b :: IsCovered(gcDepth, out1, b) {
      SameRejects(out1.rejectedTransactions, out2.rejectedTransactions);
    }
  }
}
